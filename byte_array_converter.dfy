/** ByteArrayConverter: a byte[] as one plain scalar tagged !!binary with a base64 body. */
module ByteArrayConverter {
  import opened Wrappers
  import opened Base64
  import opened YamlEvents

  const BinaryTag: string := "tag:yaml.org,2002:binary"

  /** The converter handles byte[] and no other type. */
  function Accepts(t: ClrType): bool {
    t == ByteArrayType
  }

  /**
    Consumes one scalar event and base64-decodes its text; anything but a scalar, or a
    text that is not base64, is an error. Nothing after the scalar is consumed.
   */
  function ReadYaml(events: seq<Event>): (r: Result<(seq<Byte>, seq<Event>), Error>)
    ensures r.Ok? <==> events != [] && events[0].Scalar? && IsBase64(events[0].text)
    ensures r.Ok? ==> r.value.1 == events[1..] && Decode(events[0].text) == Some(r.value.0)
    ensures r.Err? ==> r.error == if events != [] && events[0].Scalar? then InvalidBase64 else ExpectedScalar
  {
    if events != [] && events[0].Scalar? then
      DecodeDefinedIff(events[0].text);
      match Decode(events[0].text)
      case None => Err(InvalidBase64)
      case Some(b) => Ok((b, events[1..]))
    else Err(ExpectedScalar)
  }

  /** The one event written for a byte array: binary tag, plain style, tag not implicit. */
  function WriteYaml(b: seq<Byte>): (e: Event)
    ensures e.Scalar? && e.tag == BinaryTag && e.style == Plain
    ensures !e.plainImplicit && !e.quotedImplicit
    ensures IsBase64(e.text) && |e.text| == 4 * ((|b| + 2) / 3)
    ensures Decode(e.text) == Some(b) && Canonical(e.text)
  {
    EncodeIsBase64(b);
    EncodeCanonical(b);
    RoundTrip(b);
    Scalar(BinaryTag, Encode(b), Plain, false, false)
  }

  /**
    The written event, read back, gives the bytes and leaves the following events alone;
    the text layer returns the event unchanged, its tag being explicit.
   */
  lemma ReadWriteRoundTrip(b: seq<Byte>, rest: seq<Event>)
    ensures Transmit(WriteYaml(b)) == WriteYaml(b)
    ensures ReadYaml([WriteYaml(b)] + rest) == Ok((b, rest))
  {
    assert ([WriteYaml(b)] + rest)[1..] == rest;
  }
}
