/**
  The base64 encoding of section 4 of RFC 4648, as used for the body of a binary scalar
  (Convert.ToBase64String and a strict Convert.FromBase64String).
  Bytes are integers in [0, 256); a sextet is the index of one character of the alphabet.
 */
module Base64 {
  import opened Wrappers

  newtype Byte = x: int | 0 <= x < 256

  type Sextet = x: int | 0 <= x < 64

  const PadChar: char := '='

  /** The 64 characters of the base64 alphabet (table 1 of RFC 4648). */
  predicate IsAlphabetChar(c: char) {
    'A' <= c <= 'Z' || 'a' <= c <= 'z' || '0' <= c <= '9' || c == '+' || c == '/'
  }

  function CharOf(s: Sextet): (c: char)
    ensures IsAlphabetChar(c) && SextetOf(c) == s
  {
    if s < 26 then ('A' as int + s) as char
    else if s < 52 then ('a' as int + (s - 26)) as char
    else if s < 62 then ('0' as int + (s - 52)) as char
    else if s == 62 then '+'
    else '/'
  }

  function SextetOf(c: char): Sextet
    requires IsAlphabetChar(c)
  {
    if 'A' <= c <= 'Z' then c as int - 'A' as int
    else if 'a' <= c <= 'z' then c as int - 'a' as int + 26
    else if '0' <= c <= '9' then c as int - '0' as int + 52
    else if c == '+' then 62
    else 63
  }

  /** Three bytes become four characters, six bits each, most significant bits first. */
  function EncodeTriple(b0: Byte, b1: Byte, b2: Byte): seq<char> {
    var x0, x1, x2 := b0 as int, b1 as int, b2 as int;
    [CharOf(x0 / 4), CharOf(x0 % 4 * 16 + x1 / 16), CharOf(x1 % 16 * 4 + x2 / 64), CharOf(x2 % 64)]
  }

  /** A final group of two bytes: three characters, the unused bits zero, one pad. */
  function EncodePair(b0: Byte, b1: Byte): seq<char> {
    var x0, x1 := b0 as int, b1 as int;
    [CharOf(x0 / 4), CharOf(x0 % 4 * 16 + x1 / 16), CharOf(x1 % 16 * 4), PadChar]
  }

  /** A final group of one byte: two characters, the unused bits zero, two pads. */
  function EncodeSingle(b0: Byte): seq<char> {
    var x0 := b0 as int;
    [CharOf(x0 / 4), CharOf(x0 % 4 * 16), PadChar, PadChar]
  }

  /** Convert.ToBase64String: four characters for every started group of three bytes. */
  function Encode(b: seq<Byte>): (r: seq<char>)
    ensures |r| == 4 * ((|b| + 2) / 3)
    decreases |b|
  {
    if |b| == 0 then []
    else if |b| == 1 then EncodeSingle(b[0])
    else if |b| == 2 then EncodePair(b[0], b[1])
    else EncodeTriple(b[0], b[1], b[2]) + Encode(b[3..])
  }

  /**
    Decodes one group of four characters. Only the last group of a text may carry padding:
    "xx==" gives one byte, "xxx=" two, "xxxx" three. The bits a padded group does not use
    are ignored.
   */
  function DecodeQuad(q: seq<char>): (r: Option<seq<Byte>>)
    requires |q| == 4
    ensures r.Some? ==> 1 <= |r.value| <= 3
    ensures r.Some? ==> (|r.value| == 3 <==> q[3] != PadChar)
  {
    if !IsAlphabetChar(q[0]) || !IsAlphabetChar(q[1]) then None
    else
      var s0, s1 := SextetOf(q[0]), SextetOf(q[1]);
      var b0 := (s0 * 4 + s1 / 16) as Byte;
      if q[2] == PadChar then
        if q[3] == PadChar then Some([b0]) else None
      else if !IsAlphabetChar(q[2]) then None
      else
        var s2 := SextetOf(q[2]);
        var b1 := (s1 % 16 * 16 + s2 / 4) as Byte;
        if q[3] == PadChar then Some([b0, b1])
        else if !IsAlphabetChar(q[3]) then None
        else Some([b0, b1, (s2 % 4 * 64 + SextetOf(q[3])) as Byte])
  }

  /**
    Strict decoding: the length must be a multiple of four, every character must be in the
    alphabet, and padding may only close the last group. Anything else is None (the
    FormatException of the source).
   */
  function Decode(s: seq<char>): (r: Option<seq<Byte>>)
    ensures r.Some? ==> |s| % 4 == 0 && |s| / 4 * 3 - 2 <= |r.value| <= |s| / 4 * 3
    decreases |s|
  {
    if |s| == 0 then Some([])
    else if |s| < 4 then None
    else
      match DecodeQuad(s[..4])
      case None => None
      case Some(g) =>
        if |s| == 4 then Some(g)
        else if |g| < 3 then None
        else
          match Decode(s[4..])
          case None => None
          case Some(rest) => Some(g + rest)
  }

  /**
    Well-formed base64 text, stated without reference to the decoder: whole groups of four,
    alphabet characters everywhere but in the last two positions, and there either an
    alphabet character or a pad, a pad in the second-to-last position forcing one in the last.
   */
  predicate IsBase64(s: seq<char>) {
    |s| % 4 == 0 &&
    (forall i | 0 <= i < |s| - 2 :: IsAlphabetChar(s[i])) &&
    (|s| > 0 ==>
      (IsAlphabetChar(s[|s| - 2]) || (s[|s| - 2] == PadChar && s[|s| - 1] == PadChar)) &&
      (IsAlphabetChar(s[|s| - 1]) || s[|s| - 1] == PadChar))
  }

  /**
    The padding rule of section 3.5 of RFC 4648 for one group: the bits a padded group does not
    use are zero, so "xx==" ends in a sextet that is a multiple of 16 and "xxx=" in one that is
    a multiple of 4.
   */
  predicate CanonicalQuad(q: seq<char>)
    requires |q| == 4
  {
    (q[3] == PadChar && q[2] == PadChar && IsAlphabetChar(q[1]) ==> SextetOf(q[1]) % 16 == 0) &&
    (q[3] == PadChar && IsAlphabetChar(q[2]) ==> SextetOf(q[2]) % 4 == 0)
  }

  /** Only the last group can be padded, so a text is canonical when its last group is. */
  predicate Canonical(s: seq<char>) {
    |s| >= 4 ==> CanonicalQuad(s[|s| - 4..])
  }

  lemma TripleRoundTrip(b0: Byte, b1: Byte, b2: Byte)
    ensures DecodeQuad(EncodeTriple(b0, b1, b2)) == Some([b0, b1, b2])
  {
    var x0, x1, x2 := b0 as int, b1 as int, b2 as int;
    var s1 := x0 % 4 * 16 + x1 / 16;
    var s2 := x1 % 16 * 4 + x2 / 64;
    assert s1 / 16 == x0 % 4 && s1 % 16 == x1 / 16;
    assert s2 / 4 == x1 % 16 && s2 % 4 == x2 / 64;
    assert x0 / 4 * 4 + x0 % 4 == x0 && x1 / 16 * 16 + x1 % 16 == x1 && x2 / 64 * 64 + x2 % 64 == x2;
  }

  lemma PairRoundTrip(b0: Byte, b1: Byte)
    ensures DecodeQuad(EncodePair(b0, b1)) == Some([b0, b1])
  {
    var x0, x1 := b0 as int, b1 as int;
    var s1 := x0 % 4 * 16 + x1 / 16;
    var s2 := x1 % 16 * 4;
    assert s1 / 16 == x0 % 4 && s1 % 16 == x1 / 16;
    assert s2 / 4 == x1 % 16;
  }

  lemma SingleRoundTrip(b0: Byte)
    ensures DecodeQuad(EncodeSingle(b0)) == Some([b0])
  {
  }

  /** A full group in front of decodable text decodes to its three bytes in front. */
  lemma DecodeGroup(t: seq<char>, rest: seq<char>, g: seq<Byte>, r: seq<Byte>)
    requires |t| == 4 && DecodeQuad(t) == Some(g) && |g| == 3 && Decode(rest) == Some(r)
    ensures Decode(t + rest) == Some(g + r)
  {
    var s := t + rest;
    assert s[..4] == t && s[4..] == rest;
    if rest == [] {
      assert s == t && g + r == g;
    }
  }

  lemma SplitFirstThree<T>(s: seq<T>)
    requires |s| >= 3
    ensures s == [s[0], s[1], s[2]] + s[3..]
  {
    assert s[..3] == [s[0], s[1], s[2]];
    assert s == s[..3] + s[3..];
  }

  /** Decoding the encoding of any byte sequence gives back that byte sequence. */
  lemma {:induction false} RoundTrip(b: seq<Byte>)
    ensures Decode(Encode(b)) == Some(b)
    decreases |b|
  {
    if |b| == 0 {
    } else if |b| == 1 {
      SingleRoundTrip(b[0]);
      assert Encode(b)[..4] == Encode(b);
      assert b == [b[0]];
    } else if |b| == 2 {
      PairRoundTrip(b[0], b[1]);
      assert Encode(b)[..4] == Encode(b);
      assert b == [b[0], b[1]];
    } else {
      TripleRoundTrip(b[0], b[1], b[2]);
      RoundTrip(b[3..]);
      var head := [b[0], b[1], b[2]];
      DecodeGroup(EncodeTriple(b[0], b[1], b[2]), Encode(b[3..]), head, b[3..]);
      SplitFirstThree(b);
    }
  }

  lemma SingleCanonical(b0: Byte)
    ensures CanonicalQuad(EncodeSingle(b0))
  {
    var x0 := b0 as int;
    assert SextetOf(EncodeSingle(b0)[1]) == x0 % 4 * 16;
  }

  lemma PairCanonical(b0: Byte, b1: Byte)
    ensures CanonicalQuad(EncodePair(b0, b1))
  {
    var x1 := b1 as int;
    assert SextetOf(EncodePair(b0, b1)[2]) == x1 % 16 * 4;
  }

  lemma LastFour<T>(t: seq<T>, rest: seq<T>)
    requires |rest| >= 4
    ensures (t + rest)[|t + rest| - 4..] == rest[|rest| - 4..]
  {
  }

  /** The encoder zeroes the bits its final group does not use. */
  lemma {:induction false} EncodeCanonical(b: seq<Byte>)
    ensures Canonical(Encode(b))
    decreases |b|
  {
    var e := Encode(b);
    if |b| == 1 {
      SingleCanonical(b[0]);
      assert e[|e| - 4..] == e;
    } else if |b| == 2 {
      PairCanonical(b[0], b[1]);
      assert e[|e| - 4..] == e;
    } else if |b| == 3 {
      assert b[3..] == [];
      assert e == EncodeTriple(b[0], b[1], b[2]) + [];
      assert e[|e| - 4..] == e;
    } else if |b| > 3 {
      EncodeCanonical(b[3..]);
      LastFour(EncodeTriple(b[0], b[1], b[2]), Encode(b[3..]));
    }
  }

  lemma CharOfSextetOf(c: char)
    requires IsAlphabetChar(c)
    ensures CharOf(SextetOf(c)) == c
  {
    if 'A' <= c <= 'Z' {
    } else if 'a' <= c <= 'z' {
    } else if '0' <= c <= '9' {
    }
  }

  /** The sextets of a group of four, regrouped as three bytes and split again, come back. */
  lemma TripleSextets(s0: int, s1: int, s2: int, s3: int)
    requires 0 <= s0 < 64 && 0 <= s1 < 64 && 0 <= s2 < 64 && 0 <= s3 < 64
    ensures var x0, x1, x2 := s0 * 4 + s1 / 16, s1 % 16 * 16 + s2 / 4, s2 % 4 * 64 + s3;
      0 <= x0 < 256 && 0 <= x1 < 256 && 0 <= x2 < 256 &&
      x0 / 4 == s0 && x0 % 4 * 16 + x1 / 16 == s1 && x1 % 16 * 4 + x2 / 64 == s2 && x2 % 64 == s3
  {
    assert s1 / 16 * 16 + s1 % 16 == s1;
    assert s2 / 4 * 4 + s2 % 4 == s2;
  }

  /** The same for a group with one pad, whose third sextet has its low two bits zero. */
  lemma PairSextets(s0: int, s1: int, s2: int)
    requires 0 <= s0 < 64 && 0 <= s1 < 64 && 0 <= s2 < 64 && s2 % 4 == 0
    ensures var x0, x1 := s0 * 4 + s1 / 16, s1 % 16 * 16 + s2 / 4;
      0 <= x0 < 256 && 0 <= x1 < 256 &&
      x0 / 4 == s0 && x0 % 4 * 16 + x1 / 16 == s1 && x1 % 16 * 4 == s2
  {
    assert s1 / 16 * 16 + s1 % 16 == s1;
    assert s2 / 4 * 4 == s2;
  }

  /** The same for a group with two pads, whose second sextet has its low four bits zero. */
  lemma SingleSextets(s0: int, s1: int)
    requires 0 <= s0 < 64 && 0 <= s1 < 64 && s1 % 16 == 0
    ensures var x0 := s0 * 4 + s1 / 16;
      0 <= x0 < 256 && x0 / 4 == s0 && x0 % 4 * 16 == s1
  {
    assert s1 / 16 * 16 == s1;
  }

  /** Three bytes joined from four sextets encode as the characters of those sextets. */
  lemma EncodeTripleOf(b0: Byte, b1: Byte, b2: Byte, s0: Sextet, s1: Sextet, s2: Sextet, s3: Sextet)
    requires b0 as int == s0 * 4 + s1 / 16 && b1 as int == s1 % 16 * 16 + s2 / 4 && b2 as int == s2 % 4 * 64 + s3
    ensures EncodeTriple(b0, b1, b2) == [CharOf(s0), CharOf(s1), CharOf(s2), CharOf(s3)]
  {
    var x0, x1, x2 := b0 as int, b1 as int, b2 as int;
    TripleSextets(s0, s1, s2, s3);
    assert x0 / 4 == s0 && x0 % 4 * 16 + x1 / 16 == s1;
    assert x1 % 16 * 4 + x2 / 64 == s2 && x2 % 64 == s3;
  }

  /** Two bytes joined from three sextets, the last with its low two bits zero, encode as their characters. */
  lemma EncodePairOf(b0: Byte, b1: Byte, s0: Sextet, s1: Sextet, s2: Sextet)
    requires s2 % 4 == 0 && b0 as int == s0 * 4 + s1 / 16 && b1 as int == s1 % 16 * 16 + s2 / 4
    ensures EncodePair(b0, b1) == [CharOf(s0), CharOf(s1), CharOf(s2), PadChar]
  {
    var x0, x1 := b0 as int, b1 as int;
    PairSextets(s0, s1, s2);
    assert x0 / 4 == s0 && x0 % 4 * 16 + x1 / 16 == s1 && x1 % 16 * 4 == s2;
  }

  lemma SingleReencodes(q: seq<char>)
    requires |q| == 4 && IsAlphabetChar(q[0]) && IsAlphabetChar(q[1]) && q[2] == PadChar && q[3] == PadChar
    requires SextetOf(q[1]) % 16 == 0
    ensures DecodeQuad(q).Some? && |DecodeQuad(q).value| == 1
    ensures EncodeSingle(DecodeQuad(q).value[0]) == q
  {
    var s0: int, s1: int := SextetOf(q[0]), SextetOf(q[1]);
    SingleSextets(s0, s1);
    var b0 := (s0 * 4 + s1 / 16) as Byte;
    assert DecodeQuad(q) == Some([b0]);
    CharOfSextetOf(q[0]);
    CharOfSextetOf(q[1]);
    assert EncodeSingle(b0) == [CharOf(s0), CharOf(s1), PadChar, PadChar];
    assert [CharOf(s0), CharOf(s1), PadChar, PadChar] == q;
  }

  /** The bytes a group of four alphabet characters decodes to, in terms of its sextets. */
  lemma TripleDecodes(q: seq<char>)
    requires |q| == 4 && IsAlphabetChar(q[0]) && IsAlphabetChar(q[1]) && IsAlphabetChar(q[2]) && IsAlphabetChar(q[3])
    ensures DecodeQuad(q).Some? && |DecodeQuad(q).value| == 3
    ensures var g, s0, s1, s2, s3 := DecodeQuad(q).value, SextetOf(q[0]), SextetOf(q[1]), SextetOf(q[2]), SextetOf(q[3]);
      g[0] as int == s0 * 4 + s1 / 16 && g[1] as int == s1 % 16 * 16 + s2 / 4 && g[2] as int == s2 % 4 * 64 + s3
  {
  }

  /** The bytes a group with one pad decodes to, in terms of its sextets. */
  lemma PairDecodes(q: seq<char>)
    requires |q| == 4 && IsAlphabetChar(q[0]) && IsAlphabetChar(q[1]) && IsAlphabetChar(q[2]) && q[3] == PadChar
    ensures DecodeQuad(q).Some? && |DecodeQuad(q).value| == 2
    ensures var g, s0, s1, s2 := DecodeQuad(q).value, SextetOf(q[0]), SextetOf(q[1]), SextetOf(q[2]);
      g[0] as int == s0 * 4 + s1 / 16 && g[1] as int == s1 % 16 * 16 + s2 / 4
  {
  }

  lemma PairReencodes(q: seq<char>)
    requires |q| == 4 && IsAlphabetChar(q[0]) && IsAlphabetChar(q[1]) && IsAlphabetChar(q[2]) && q[3] == PadChar
    requires SextetOf(q[2]) % 4 == 0
    ensures DecodeQuad(q).Some? && |DecodeQuad(q).value| == 2
    ensures EncodePair(DecodeQuad(q).value[0], DecodeQuad(q).value[1]) == q
  {
    PairDecodes(q);
    var g := DecodeQuad(q).value;
    var s0, s1, s2 := SextetOf(q[0]), SextetOf(q[1]), SextetOf(q[2]);
    EncodePairOf(g[0], g[1], s0, s1, s2);
    CharOfSextetOf(q[0]);
    CharOfSextetOf(q[1]);
    CharOfSextetOf(q[2]);
    assert [CharOf(s0), CharOf(s1), CharOf(s2), PadChar] == q;
  }

  lemma TripleReencodes(q: seq<char>)
    requires |q| == 4 && IsAlphabetChar(q[0]) && IsAlphabetChar(q[1]) && IsAlphabetChar(q[2]) && IsAlphabetChar(q[3])
    ensures DecodeQuad(q).Some? && |DecodeQuad(q).value| == 3
    ensures EncodeTriple(DecodeQuad(q).value[0], DecodeQuad(q).value[1], DecodeQuad(q).value[2]) == q
  {
    TripleDecodes(q);
    var g := DecodeQuad(q).value;
    var s0, s1, s2, s3 := SextetOf(q[0]), SextetOf(q[1]), SextetOf(q[2]), SextetOf(q[3]);
    EncodeTripleOf(g[0], g[1], g[2], s0, s1, s2, s3);
    assert [CharOf(s0), CharOf(s1), CharOf(s2), CharOf(s3)] == q by {
      CharOfSextetOf(q[0]);
      CharOfSextetOf(q[1]);
      CharOfSextetOf(q[2]);
      CharOfSextetOf(q[3]);
    }
  }

  /** A canonical group of four characters is the encoding of the bytes it decodes to. */
  lemma QuadReencodes(q: seq<char>)
    requires |q| == 4 && IsBase64(q) && CanonicalQuad(q)
    ensures DecodeQuad(q).Some?
    ensures var g := DecodeQuad(q).value;
      q == if |g| == 3 then EncodeTriple(g[0], g[1], g[2])
           else if |g| == 2 then EncodePair(g[0], g[1])
           else EncodeSingle(g[0])
  {
    assert IsAlphabetChar(q[0]) && IsAlphabetChar(q[1]);
    if q[2] == PadChar {
      SingleReencodes(q);
    } else if q[3] == PadChar {
      PairReencodes(q);
    } else {
      TripleReencodes(q);
    }
  }

  /** Three bytes in front: their group in front of the encoding of the rest. */
  lemma EncodeCons(g: seq<Byte>, r: seq<Byte>)
    requires |g| == 3
    ensures Encode(g + r) == EncodeTriple(g[0], g[1], g[2]) + Encode(r)
  {
    assert (g + r)[3..] == r;
  }

  /** A final group of one, two or three bytes encodes as one group of four characters. */
  lemma EncodeLastGroup(g: seq<Byte>)
    requires 1 <= |g| <= 3
    ensures Encode(g) == if |g| == 3 then EncodeTriple(g[0], g[1], g[2])
                         else if |g| == 2 then EncodePair(g[0], g[1])
                         else EncodeSingle(g[0])
  {
    if |g| == 3 {
      assert g[3..] == [];
      assert Encode(g) == EncodeTriple(g[0], g[1], g[2]) + [];
    }
  }

  /** A text longer than one group decodes as its first group followed by the rest. */
  lemma DecodeCons(s: seq<char>)
    requires |s| > 4 && Decode(s).Some?
    ensures DecodeQuad(s[..4]).Some? && |DecodeQuad(s[..4]).value| == 3 && Decode(s[4..]).Some?
    ensures Decode(s).value == DecodeQuad(s[..4]).value + Decode(s[4..]).value
  {
  }

  /** A canonical text of one group is the encoding of its bytes. */
  lemma CanonicalGroup(s: seq<char>)
    requires |s| == 4 && IsBase64(s) && Canonical(s)
    ensures Decode(s).Some? && Encode(Decode(s).value) == s
  {
    assert s[..4] == s && s[|s| - 4..] == s;
    assert Decode(s) == DecodeQuad(s);
    QuadReencodes(s);
    EncodeLastGroup(DecodeQuad(s).value);
  }

  /** A first full group re-encodes in front of a rest that re-encodes. */
  lemma CanonicalStep(s: seq<char>)
    requires |s| > 4 && IsBase64(s) && Decode(s).Some?
    requires Decode(s[4..]).Some? && Encode(Decode(s[4..]).value) == s[4..]
    ensures Encode(Decode(s).value) == s
  {
    var q, t := s[..4], s[4..];
    DecodeCons(s);
    assert IsAlphabetChar(s[0]) && IsAlphabetChar(s[1]) && IsAlphabetChar(s[2]) && IsAlphabetChar(s[3]);
    TripleReencodes(q);
    var g, r := DecodeQuad(q).value, Decode(t).value;
    EncodeCons(g, r);
    assert s == q + t;
  }

  /**
    Every canonical well-formed text is the encoding of what it decodes to, so the encoder's
    output is the only canonical text for a given byte sequence.
   */
  lemma {:induction false} CanonicalRoundTrip(s: seq<char>)
    requires IsBase64(s) && Canonical(s)
    ensures Decode(s).Some? && Encode(Decode(s).value) == s
    decreases |s|
  {
    DecodeDefinedIff(s);
    if |s| == 4 {
      CanonicalGroup(s);
    } else if |s| > 4 {
      var t := s[4..];
      DecodeDefinedIff(t);
      assert t[|t| - 4..] == s[|s| - 4..];
      CanonicalRoundTrip(t);
      CanonicalStep(s);
    }
  }

  /** The only canonical well-formed text that decodes to b is the encoding of b. */
  lemma CanonicalUnique(s: seq<char>, b: seq<Byte>)
    requires IsBase64(s) && Canonical(s) && Decode(s) == Some(b)
    ensures s == Encode(b)
  {
    CanonicalRoundTrip(s);
  }

  /** The decoder accepts exactly the well-formed texts. */
  lemma {:induction false} DecodeDefinedIff(s: seq<char>)
    ensures Decode(s).Some? <==> IsBase64(s)
    decreases |s|
  {
    if |s| == 0 || |s| < 4 {
    } else if |s| == 4 {
      assert forall i | 0 <= i < 2 :: s[..4][i] == s[i];
    } else {
      var t := s[4..];
      DecodeDefinedIff(t);
      assert forall i | 0 <= i < 4 :: s[..4][i] == s[i];
      assert forall i | 0 <= i < |t| :: t[i] == s[i + 4];
      if IsBase64(s) {
        assert IsAlphabetChar(s[2]) && IsAlphabetChar(s[3]);
        assert IsBase64(t) by {
          forall i | 0 <= i < |t| - 2 ensures IsAlphabetChar(t[i]) {
            assert t[i] == s[i + 4];
          }
        }
      }
      if Decode(s).Some? {
        assert IsBase64(t);
        var g := DecodeQuad(s[..4]).value;
        assert |g| == 3;
        forall i | 0 <= i < |s| - 2 ensures IsAlphabetChar(s[i]) {
          if i >= 4 {
            assert s[i] == t[i - 4];
          }
        }
      }
    }
  }

  /**
    What the encoder produces is well-formed: |Encode(b)| is a multiple of four, every character
    is in the alphabet, and `=` appears only as padding at the end.
   */
  lemma EncodeIsBase64(b: seq<Byte>)
    ensures IsBase64(Encode(b))
  {
    RoundTrip(b);
    DecodeDefinedIff(Encode(b));
  }
}
