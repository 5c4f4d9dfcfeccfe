/**
  The behaviours the repository's unit tests pin down, stated over events: reading the
  nulls and empty strings of a parsed document, writing one row with a null field with and
  without exportNullValues, writing a multi-line string; plus a key repeated in one mapping.
 */
module Examples {
  import opened Wrappers
  import opened YamlEvents
  import opened ValueCodec
  import opened DataReaderTypeConverter
  import opened Records
  import RoundTrip

  /** A scalar as the parser yields it: untagged, in the style it was written in. */
  function Parsed(text: string, style: ScalarStyle): Event {
    Scalar("", text, style, style == Plain, style != Plain)
  }

  /** A scalar as the emitter left it after resolving style Any: untagged, both implicit flags set. */
  function Emitted(text: string, style: ScalarStyle): Event {
    Scalar("", text, style, true, true)
  }

  /* ----- reading ----- */

  /** One key and its untagged value scalar in front of fields that parse. */
  lemma ParsedPair(key: string, value: Event, v: Value, after: seq<Event>, record: Record, tail: seq<Event>)
    requires key != ""
    requires value.Scalar? && value.tag == "" && v == (if IsNullScalar(value) then Null else Str(value.text))
    requires ParseFields(after) == Ok((record, tail))
    ensures ParseFields([Parsed(key, Plain), value] + after) == Ok(([(key, v)] + record, tail))
  {
    assert ([value] + after)[1..] == after;
    RoundTrip.ParseFieldsCons(Parsed(key, Plain), value, v, after, record, tail);
  }

  /** A document holding one mapping parses as that mapping's record. */
  lemma ParseOneMapping(fields: seq<Event>, record: Record)
    requires ParseFields(fields + [MappingEnd, SequenceEnd]) == Ok((record, [MappingEnd, SequenceEnd]))
    ensures ParseDocument([SequenceStart, MappingStart] + fields + [MappingEnd, SequenceEnd]) == Ok(([record], []))
  {
    var close := [MappingEnd, SequenceEnd];
    var events := [SequenceStart, MappingStart] + fields + close;
    assert ParseRecords(events[1..]) == Ok(([record], [SequenceEnd])) by {
      assert events[1..][0] == MappingStart && events[1..][1..] == fields + close;
      assert close[0] == MappingEnd && close[1..] == [SequenceEnd];
      assert ParseRecords([SequenceEnd]) == Ok(([], [SequenceEnd]));
      assert [record] + [] == [record];
    }
    assert events[0] == SequenceStart && [SequenceEnd][1..] == [];
  }

  /** A document holding one mapping reads as the table built from that mapping's record. */
  lemma ReadOneMapping(fields: seq<Event>, record: Record)
    requires ParseFields(fields + [MappingEnd, SequenceEnd]) == Ok((record, [MappingEnd, SequenceEnd]))
    ensures Deserialize([SequenceStart, MappingStart] + fields + [MappingEnd, SequenceEnd]) ==
      Ok(Some(TableRead([], Discover([], KeysOf(record)), [Apply(map[], record)])))
  {
    var events := [SequenceStart, MappingStart] + fields + [MappingEnd, SequenceEnd];
    ParseOneMapping(fields, record);
    ReadIsParseThenBuild(events);
    assert [record][1..] == [];
    assert AllKeys([record]) == KeysOf(record) + [] == KeysOf(record);
    assert RowsOf([record]) == [Apply(map[], record)] + [] == [Apply(map[], record)];
  }

  /** A mapping with the key `''` is refused when its value is stored, however well the value reads. */
  lemma UnnamedKeyRefused()
    ensures Deserialize([SequenceStart, MappingStart, Parsed("", SingleQuoted), Parsed("5", Plain), MappingEnd, SequenceEnd]) ==
      Err(ColumnNotInTable)
  {
    var events := [SequenceStart, MappingStart, Parsed("", SingleQuoted), Parsed("5", Plain), MappingEnd, SequenceEnd];
    assert events[1..][1..] == [Parsed("", SingleQuoted), Parsed("5", Plain), MappingEnd, SequenceEnd];
    assert ReadFields(events[1..][1..], [], map[]) == Err(ColumnNotInTable);
  }

  /** The last two fields of the FromYamlNull document: `d: ''` and `e: 'x'`. */
  function QuotedFields(): seq<Event> {
    [Parsed("d", Plain), Parsed("", SingleQuoted), Parsed("e", Plain), Parsed("x", SingleQuoted)]
  }

  /** The first three fields of the FromYamlNull document: `a: ~`, `b:` (empty), `c: null`. */
  function PlainNullFields(): seq<Event> {
    [Parsed("a", Plain), Parsed("~", Plain), Parsed("b", Plain), Parsed("", Plain),
     Parsed("c", Plain), Parsed("null", Plain)]
  }

  /** The fields of the FromYamlNull document. */
  function NullFields(): seq<Event> {
    PlainNullFields() + QuotedFields()
  }

  /** A quoted empty string is the empty string and not null; a quoted "x" is "x". */
  lemma QuotedRecord(close: seq<Event>)
    requires close == [] || !close[0].Scalar?
    ensures ParseFields(QuotedFields() + close) == Ok(([("d", Str("")), ("e", Str("x"))], close))
  {
    var e := [Parsed("e", Plain), Parsed("x", SingleQuoted)] + close;
    ParsedPair("e", Parsed("x", SingleQuoted), Str("x"), close, [], close);
    assert [("e", Str("x"))] + [] == [("e", Str("x"))];
    ParsedPair("d", Parsed("", SingleQuoted), Str(""), e, [("e", Str("x"))], close);
    assert QuotedFields() + close == [Parsed("d", Plain), Parsed("", SingleQuoted)] + e;
    assert [("d", Str(""))] + [("e", Str("x"))] == [("d", Str("")), ("e", Str("x"))];
  }

  /** `~`, an empty plain value and `null` all read as null. */
  lemma PlainNullRecord(after: seq<Event>, record: Record, tail: seq<Event>)
    requires ParseFields(after) == Ok((record, tail))
    ensures ParseFields(PlainNullFields() + after) == Ok(([("a", Null), ("b", Null), ("c", Null)] + record, tail))
  {
    var c := [Parsed("c", Plain), Parsed("null", Plain)] + after;
    var b := [Parsed("b", Plain), Parsed("", Plain)] + c;
    ParsedPair("c", Parsed("null", Plain), Null, after, record, tail);
    ParsedPair("b", Parsed("", Plain), Null, c, [("c", Null)] + record, tail);
    ParsedPair("a", Parsed("~", Plain), Null, b, [("b", Null)] + ([("c", Null)] + record), tail);
    var pa, pb, pc := [Parsed("a", Plain), Parsed("~", Plain)], [Parsed("b", Plain), Parsed("", Plain)], [Parsed("c", Plain), Parsed("null", Plain)];
    assert PlainNullFields() == pa + pb + pc;
    RoundTrip.Regroup(pa + pb, pc, after);
    RoundTrip.Regroup(pa, pb, pc + after);
    var ra, rb, rc := [("a", Null)], [("b", Null)], [("c", Null)];
    assert [("a", Null), ("b", Null), ("c", Null)] == ra + rb + rc;
    RoundTrip.Regroup(ra + rb, rc, record);
    RoundTrip.Regroup(ra, rb, rc + record);
  }

  lemma NullRecord(close: seq<Event>)
    requires close == [] || !close[0].Scalar?
    ensures ParseFields(NullFields() + close) ==
      Ok(([("a", Null), ("b", Null), ("c", Null), ("d", Str("")), ("e", Str("x"))], close))
  {
    QuotedRecord(close);
    PlainNullRecord(QuotedFields() + close, [("d", Str("")), ("e", Str("x"))], close);
    assert NullFields() + close == PlainNullFields() + (QuotedFields() + close);
    assert [("a", Null), ("b", Null), ("c", Null)] + [("d", Str("")), ("e", Str("x"))] ==
      [("a", Null), ("b", Null), ("c", Null), ("d", Str("")), ("e", Str("x"))];
  }

  /**
    The FromYamlNull test: the document reads as one row over columns a to e, in document
    order, where a, b and c hold null, d the empty string and e "x".
   */
  lemma FromYamlNull()
    ensures Deserialize([SequenceStart, MappingStart] + NullFields() + [MappingEnd, SequenceEnd]) ==
      Ok(Some(TableRead([], ["a", "b", "c", "d", "e"],
        [map["a" := Null, "b" := Null, "c" := Null, "d" := Str(""), "e" := Str("x")]])))
  {
    var record := [("a", Null), ("b", Null), ("c", Null), ("d", Str("")), ("e", Str("x"))];
    NullRecord([MappingEnd, SequenceEnd]);
    ReadOneMapping(NullFields(), record);
    NullColumns();
    NullRow();
  }

  /** The keys of the FromYamlNull document are distinct, so each makes a column, in order. */
  lemma NullColumns()
    ensures Discover([], KeysOf([("a", Null), ("b", Null), ("c", Null), ("d", Str("")), ("e", Str("x"))])) ==
      ["a", "b", "c", "d", "e"]
  {
    var record := [("a", Null), ("b", Null), ("c", Null), ("d", Str("")), ("e", Str("x"))];
    assert record[1..][1..][1..][1..][1..] == [];
    assert KeysOf(record) == ["a", "b", "c", "d", "e"];
    assert ["a", "b", "c", "d", "e"][1..] == ["b", "c", "d", "e"];
    assert Discover(["a", "b", "c", "d"], ["e"]) == ["a", "b", "c", "d", "e"] by {
      assert ["e"][1..] == [];
    }
    assert Discover(["a", "b", "c"], ["d", "e"]) == ["a", "b", "c", "d", "e"] by {
      assert ["d", "e"][1..] == ["e"];
    }
    assert Discover(["a", "b"], ["c", "d", "e"]) == ["a", "b", "c", "d", "e"] by {
      assert ["c", "d", "e"][1..] == ["d", "e"];
    }
    assert Discover(["a"], ["b", "c", "d", "e"]) == ["a", "b", "c", "d", "e"] by {
      assert ["b", "c", "d", "e"][1..] == ["c", "d", "e"];
    }
  }

  /** The one row of the FromYamlNull document holds every key's value. */
  lemma NullRow()
    ensures Apply(map[], [("a", Null), ("b", Null), ("c", Null), ("d", Str("")), ("e", Str("x"))]) ==
      map["a" := Null, "b" := Null, "c" := Null, "d" := Str(""), "e" := Str("x")]
  {
    var record := [("a", Null), ("b", Null), ("c", Null), ("d", Str("")), ("e", Str("x"))];
    assert record[1..][1..][1..][1..][1..] == [];
  }

  /** The FromYamlEmpty test: an empty stream holds no document and reads as null. */
  lemma FromYamlEmpty()
    ensures Deserialize([]) == Ok(None)
  {
  }

  /** The fields of a mapping that sets k twice: `k: 1` and then `k: 2`. */
  function RepeatedFields(): seq<Event> {
    [Parsed("k", Plain), Parsed("1", Plain), Parsed("k", Plain), Parsed("2", Plain)]
  }

  lemma RepeatedRecord(close: seq<Event>)
    requires close == [] || !close[0].Scalar?
    ensures ParseFields(RepeatedFields() + close) == Ok(([("k", Str("1")), ("k", Str("2"))], close))
  {
    var second := [Parsed("k", Plain), Parsed("2", Plain)] + close;
    ParsedPair("k", Parsed("2", Plain), Str("2"), close, [], close);
    ParsedPair("k", Parsed("1", Plain), Str("1"), second, [("k", Str("2"))] + [], close);
    assert [("k", Str("1"))] + ([("k", Str("2"))] + []) == [("k", Str("1")), ("k", Str("2"))];
    assert RepeatedFields() + close == [Parsed("k", Plain), Parsed("1", Plain)] + second;
  }

  /** The second value of k overwrites the first, and k makes one column. */
  lemma RepeatedTable()
    ensures Discover([], KeysOf([("k", Str("1")), ("k", Str("2"))])) == ["k"]
    ensures Apply(map[], [("k", Str("1")), ("k", Str("2"))]) == map["k" := Str("2")]
  {
    var record := [("k", Str("1")), ("k", Str("2"))];
    assert record[1..] == [("k", Str("2"))] && record[1..][1..] == [];
    assert KeysOf(record) == ["k", "k"];
    assert Discover([], ["k", "k"]) == ["k"] by {
      assert ["k", "k"][1..] == ["k"] && ["k"][1..] == [];
      assert WithColumn([], "k") == ["k"] && WithColumn(["k"], "k") == ["k"];
    }
  }

  /** A key repeated in one mapping keeps its last value and makes one column. */
  lemma RepeatedKeyLastWins()
    ensures Deserialize([SequenceStart, MappingStart] + RepeatedFields() + [MappingEnd, SequenceEnd]) ==
      Ok(Some(TableRead([], ["k"], [map["k" := Str("2")]])))
  {
    RepeatedRecord([MappingEnd, SequenceEnd]);
    ReadOneMapping(RepeatedFields(), [("k", Str("1")), ("k", Str("2"))]);
    RepeatedTable();
  }

  /* ----- writing ----- */

  /** The document written for a cursor with one row. */
  lemma WriteOneRow(names: seq<string>, row: seq<Value>, flag: bool)
    ensures WriteDocument(names, [row], flag) ==
      [SequenceStart, MappingStart] + EncodeFields(names, row, flag) + [MappingEnd, SequenceEnd]
  {
    assert [row][1..] == [];
    assert EncodeRows(names, [row], flag) == EncodeRow(names, row, flag) + [];
  }

  /**
    The ToYamlNullSkip test: the row ("a", null) without exportNullValues writes only c1,
    both scalars plain and untagged: `- c1: a`.
   */
  lemma ToYamlNullSkip()
    ensures WriteDocument(["c1", "c2"], [[Str("a"), Null]], false) ==
      [SequenceStart, MappingStart, Key("c1"), SerializeValue(Str("a")), MappingEnd, SequenceEnd]
    ensures Transmit(Key("c1")) == Emitted("c1", Plain) && Transmit(SerializeValue(Str("a"))) == Emitted("a", Plain)
  {
    assert EncodeFields(["c2"], [Null], false) == [] + EncodeFields([], [], false) == [];
    assert EncodeFields(["c1", "c2"], [Str("a"), Null], false) == [Key("c1"), SerializeValue(Str("a"))] + [];
    WriteOneRow(["c1", "c2"], [Str("a"), Null], false);
  }

  /**
    The ToYamlNullInclude test: with exportNullValues the null field is written too, as an
    empty plain scalar whose null tag is implicit: `c2: ` with nothing after the colon.
   */
  lemma ToYamlNullInclude()
    ensures WriteDocument(["c1", "c2"], [[Str("a"), Null]], true) ==
      [SequenceStart, MappingStart, Key("c1"), SerializeValue(Str("a")), Key("c2"), SerializeValue(Null),
       MappingEnd, SequenceEnd]
    ensures Transmit(Key("c2")) == Emitted("c2", Plain) && Transmit(SerializeValue(Null)) == Scalar("", "", Plain, true, false)
  {
    assert EncodeFields(["c2"], [Null], true) == [Key("c2"), SerializeValue(Null)] + EncodeFields([], [], true);
    assert EncodeFields(["c1", "c2"], [Str("a"), Null], true) ==
      [Key("c1"), SerializeValue(Str("a"))] + [Key("c2"), SerializeValue(Null)];
    WriteOneRow(["c1", "c2"], [Str("a"), Null], true);
  }

  /** The ToYamlWithNewLines test: a multi-line string is written as a folded, untagged scalar. */
  lemma ToYamlWithNewLines()
    ensures var text := "hello\nthis\nis\nsome\ninteresting\nconversation";
      WriteDocument(["x"], [[Str(text)]], false) ==
        [SequenceStart, MappingStart, Key("x"), SerializeValue(Str(text)), MappingEnd, SequenceEnd] &&
      Transmit(SerializeValue(Str(text))) == Emitted(text, Folded)
  {
    var text := "hello\nthis\nis\nsome\ninteresting\nconversation";
    assert text[5] == '\n' && !IsNullText(text);
    assert EncodeFields(["x"], [Str(text)], false) == [Key("x"), SerializeValue(Str(text))] + [];
    WriteOneRow(["x"], [Str(text)], false);
  }
}
