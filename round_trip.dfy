/**
  What WriteYaml's events become when ReadYaml reads them back, after the text layer
  (`TransmitAll`): the records written are the cursor's rows in order, keys in field order,
  null fields present or absent by exportNullValues; the table read back holds every value
  of the cursor; its columns are the cursor's when nulls are exported and, when they are
  not, exactly the columns that are non-null in some row.
 */
module RoundTrip {
  import opened Wrappers
  import opened YamlEvents
  import opened ValueCodec
  import opened DataReaderTypeConverter
  import opened Records

  /** The record a row is read back as: its included fields, in field order. */
  function EncodedRecord(names: seq<string>, values: seq<Value>, exportNullValues: bool): Record
    decreases |names|
  {
    if names == [] || values == [] then []
    else
      (if !exportNullValues && values[0].Null? then [] else [(names[0], Reloaded(values[0]))]) +
      EncodedRecord(names[1..], values[1..], exportNullValues)
  }

  function EncodedRecords(names: seq<string>, rows: seq<seq<Value>>, exportNullValues: bool): seq<Record>
    decreases |rows|
  {
    if rows == [] then []
    else [EncodedRecord(names, rows[0], exportNullValues)] + EncodedRecords(names, rows[1..], exportNullValues)
  }

  /**
    Every key a row writes has a name: a field with the empty name is at most a null that
    is left out.
   */
  predicate NamedKeys(names: seq<string>, values: seq<Value>, exportNullValues: bool) {
    forall j | 0 <= j < |names| && j < |values| :: names[j] == "" ==> !exportNullValues && values[j].Null?
  }

  predicate AllNamedKeys(names: seq<string>, rows: seq<seq<Value>>, exportNullValues: bool) {
    forall i | 0 <= i < |rows| :: NamedKeys(names, rows[i], exportNullValues)
  }

  /* ----- parsing what was written ----- */

  /** One key/value pair in front of fields that parse: the pair comes first in the record. */
  lemma ParseFieldsCons(key: Event, value: Event, v: Value, after: seq<Event>, record: Record, tail: seq<Event>)
    requires key.Scalar? && key.text != ""
    requires DeserializeValue([value] + after) == Ok((v, after))
    requires ParseFields(after) == Ok((record, tail))
    ensures ParseFields([key, value] + after) == Ok(([(key.text, v)] + record, tail))
  {
    assert ([key, value] + after)[1..] == [value] + after;
  }

  /** The events of one field, passed through the text layer, parse as that field's pair, if any. */
  lemma ParseFieldEvents(name: string, v: Value, flag: bool, after: seq<Event>, record: Record, tail: seq<Event>)
    requires name == "" ==> !flag && v.Null?
    requires ParseFields(after) == Ok((record, tail))
    ensures ParseFields(TransmitAll(FieldEvents(name, v, flag)) + after) ==
      Ok(((if !flag && v.Null? then [] else [(name, Reloaded(v))]) + record, tail))
  {
    var head := FieldEvents(name, v, flag);
    if head == [] {
      assert TransmitAll(head) + after == after;
      assert [] + record == record;
    } else {
      var key, value := Transmit(Key(name)), Transmit(SerializeValue(v));
      assert TransmitAll(head) == [key, value];
      ValueRoundTrip(v, after);
      ParseFieldsCons(key, value, Reloaded(v), after, record, tail);
    }
  }

  lemma {:induction false} ParseEncodedFields(names: seq<string>, values: seq<Value>, flag: bool, tail: seq<Event>)
    requires NamedKeys(names, values, flag)
    requires tail == [] || !tail[0].Scalar?
    ensures ParseFields(TransmitAll(EncodeFields(names, values, flag)) + tail) ==
      Ok((EncodedRecord(names, values, flag), tail))
    decreases |names|
  {
    if names == [] || values == [] {
      assert TransmitAll(EncodeFields(names, values, flag)) + tail == tail;
    } else {
      var head := FieldEvents(names[0], values[0], flag);
      var more := EncodeFields(names[1..], values[1..], flag);
      assert EncodeFields(names, values, flag) == head + more;
      TransmitAllAppend(head, more);
      Regroup(TransmitAll(head), TransmitAll(more), tail);
      ParseEncodedFields(names[1..], values[1..], flag, tail);
      ParseFieldEvents(names[0], values[0], flag, TransmitAll(more) + tail, EncodedRecord(names[1..], values[1..], flag), tail);
    }
  }

  lemma Regroup<T>(a: seq<T>, b: seq<T>, c: seq<T>)
    ensures (a + b) + c == a + (b + c)
  {
  }

  /** One mapping in front of records that parse: its record comes first. */
  lemma ParseRecordsCons(fields: seq<Event>, record: Record, after: seq<Event>, records: seq<Record>, tail: seq<Event>)
    requires ParseFields(fields + ([MappingEnd] + after)) == Ok((record, [MappingEnd] + after))
    requires ParseRecords(after) == Ok((records, tail))
    ensures ParseRecords([MappingStart] + fields + [MappingEnd] + after) == Ok(([record] + records, tail))
  {
    Framed(MappingStart, fields, MappingEnd, after);
  }

  /** The shape of one mapping in front of more events: its opening marker, its fields, its closing marker. */
  lemma Framed<T>(open: T, a: seq<T>, close: T, b: seq<T>)
    ensures ([open] + a + [close] + b)[0] == open
    ensures ([open] + a + [close] + b)[1..] == a + ([close] + b)
    ensures ([close] + b)[0] == close && ([close] + b)[1..] == b
  {
    assert [open] + a + [close] + b == [open] + (a + ([close] + b));
  }

  lemma {:induction false} ParseEncodedRows(names: seq<string>, rows: seq<seq<Value>>, flag: bool, tail: seq<Event>)
    requires AllNamedKeys(names, rows, flag)
    requires tail == [] || tail[0] != MappingStart
    ensures ParseRecords(TransmitAll(EncodeRows(names, rows, flag)) + tail) ==
      Ok((EncodedRecords(names, rows, flag), tail))
    decreases |rows|
  {
    if rows == [] {
      assert TransmitAll(EncodeRows(names, rows, flag)) + tail == tail;
    } else {
      var fields := TransmitAll(EncodeFields(names, rows[0], flag));
      var more := EncodeRows(names, rows[1..], flag);
      var after := TransmitAll(more) + tail;
      TransmitEncodeRows(names, rows, flag);
      Regroup([MappingStart] + fields + [MappingEnd], TransmitAll(more), tail);
      ParseEncodedFields(names, rows[0], flag, [MappingEnd] + after);
      ParseEncodedRows(names, rows[1..], flag, tail);
      ParseRecordsCons(fields, EncodedRecord(names, rows[0], flag), after, EncodedRecords(names, rows[1..], flag), tail);
    }
  }

  lemma TransmitEncodeRows(names: seq<string>, rows: seq<seq<Value>>, flag: bool)
    requires rows != []
    ensures TransmitAll(EncodeRows(names, rows, flag)) ==
      [MappingStart] + TransmitAll(EncodeFields(names, rows[0], flag)) + [MappingEnd] +
      TransmitAll(EncodeRows(names, rows[1..], flag))
  {
    var fields := EncodeFields(names, rows[0], flag);
    var more := EncodeRows(names, rows[1..], flag);
    var head := [MappingStart] + fields;
    var row := head + [MappingEnd];
    assert EncodeRows(names, rows, flag) == row + more;
    TransmitAllAppend(row, more);
    TransmitAllAppend(head, [MappingEnd]);
    TransmitAllAppend([MappingStart], fields);
    assert TransmitAll([MappingStart]) == [MappingStart] && TransmitAll([MappingEnd]) == [MappingEnd];
  }

  /** The written document parses back into one record per row, and nothing is left over. */
  lemma ParseEncodedDocument(names: seq<string>, rows: seq<seq<Value>>, flag: bool, tail: seq<Event>)
    requires AllNamedKeys(names, rows, flag)
    ensures ParseDocument(TransmitAll(WriteDocument(names, rows, flag)) + tail) ==
      Ok((EncodedRecords(names, rows, flag), tail))
  {
    var body := TransmitAll(EncodeRows(names, rows, flag));
    TransmitDocument(names, rows, flag);
    Framed(SequenceStart, body, SequenceEnd, tail);
    ParseEncodedRows(names, rows, flag, [SequenceEnd] + tail);
  }

  /** The text layer leaves the document's markers alone. */
  lemma TransmitDocument(names: seq<string>, rows: seq<seq<Value>>, flag: bool)
    ensures TransmitAll(WriteDocument(names, rows, flag)) ==
      [SequenceStart] + TransmitAll(EncodeRows(names, rows, flag)) + [SequenceEnd]
  {
    var body := EncodeRows(names, rows, flag);
    TransmitAllAppend([SequenceStart] + body, [SequenceEnd]);
    TransmitAllAppend([SequenceStart], body);
    assert TransmitAll([SequenceStart]) == [SequenceStart] && TransmitAll([SequenceEnd]) == [SequenceEnd];
  }

  /* ----- what the records hold ----- */

  lemma {:induction false} EncodedKeys(names: seq<string>, values: seq<Value>, flag: bool)
    requires |names| == |values|
    ensures flag ==> KeysOf(EncodedRecord(names, values, flag)) == names
    ensures forall k :: k in KeysOf(EncodedRecord(names, values, flag)) <==>
      exists j | 0 <= j < |names| :: names[j] == k && (flag || !values[j].Null?)
    decreases |names|
  {
    if names != [] {
      EncodedKeys(names[1..], values[1..], flag);
      var head := if !flag && values[0].Null? then [] else [(names[0], Reloaded(values[0]))];
      KeysAppend(head, EncodedRecord(names[1..], values[1..], flag));
      forall k ensures k in KeysOf(EncodedRecord(names, values, flag)) <==>
        exists j | 0 <= j < |names| :: names[j] == k && (flag || !values[j].Null?)
      {
        if exists j | 0 <= j < |names| :: names[j] == k && (flag || !values[j].Null?) {
          var j :| 0 <= j < |names| && names[j] == k && (flag || !values[j].Null?);
          if j > 0 {
            assert names[1..][j - 1] == k;
          }
        }
        if k in KeysOf(EncodedRecord(names[1..], values[1..], flag)) {
          var j :| 0 <= j < |names| - 1 && names[1..][j] == k && (flag || !values[1..][j].Null?);
          assert names[j + 1] == k;
        }
      }
    }
  }

  lemma {:induction false} KeysAppend(a: Record, b: Record)
    ensures KeysOf(a + b) == KeysOf(a) + KeysOf(b)
    decreases |a|
  {
    if a != [] {
      assert (a + b)[1..] == a[1..] + b;
      KeysAppend(a[1..], b);
    } else {
      assert a + b == b;
    }
  }

  /**
    Reading a written row gives every field its value back: a field written is stored once
    (the names are distinct); a null field that was skipped is absent and so null.
   */
  lemma {:induction false} EncodedCells(names: seq<string>, values: seq<Value>, flag: bool, row: map<string, Value>, j: nat)
    requires NoDuplicates(names) && |names| == |values| && j < |names|
    ensures Cell(Apply(row, EncodedRecord(names, values, flag)), names[j]) ==
      if !flag && values[j].Null? then Cell(row, names[j]) else Reloaded(values[j])
    decreases |names|
  {
    var included := !(!flag && values[0].Null?);
    var next := if included then row[names[0] := Reloaded(values[0])] else row;
    var rest := EncodedRecord(names[1..], values[1..], flag);
    assert NoDuplicates(names[1..]);
    if included {
      assert EncodedRecord(names, values, flag) == [(names[0], Reloaded(values[0]))] + rest;
    } else {
      assert EncodedRecord(names, values, flag) == rest;
    }
    assert Apply(row, EncodedRecord(names, values, flag)) == Apply(next, rest);
    if j == 0 {
      EncodedKeys(names[1..], values[1..], flag);
      assert names[0] !in KeysOf(rest);
      ApplyKeys(next, rest);
    } else {
      EncodedCells(names[1..], values[1..], flag, next, j - 1);
      assert names[1..][j - 1] == names[j] && values[1..][j - 1] == values[j];
    }
  }

  lemma {:induction false} EncodedRecordsIndex(names: seq<string>, rows: seq<seq<Value>>, flag: bool)
    ensures |EncodedRecords(names, rows, flag)| == |rows|
    ensures forall i | 0 <= i < |rows| :: EncodedRecords(names, rows, flag)[i] == EncodedRecord(names, rows[i], flag)
    decreases |rows|
  {
    if rows != [] {
      EncodedRecordsIndex(names, rows[1..], flag);
    }
  }

  /** With nulls exported every record names every column, so discovery gives the cursor's columns. */
  lemma {:induction false} AllKeysExportingNulls(names: seq<string>, rows: seq<seq<Value>>)
    requires NoDuplicates(names) && Rectangular(names, rows)
    ensures Discover(names, AllKeys(EncodedRecords(names, rows, true))) == names
    decreases |rows|
  {
    if rows != [] {
      EncodedKeys(names, rows[0], true);
      DiscoverAppend(names, names, AllKeys(EncodedRecords(names, rows[1..], true)));
      DiscoverKnown(names, names);
      AllKeysExportingNulls(names, rows[1..]);
    }
  }

  lemma {:induction false} DiscoverKnown(columns: seq<string>, keys: seq<string>)
    requires forall k | k in keys :: k in columns
    ensures Discover(columns, keys) == columns
    decreases |keys|
  {
    if keys != [] {
      DiscoverKnown(columns, keys[1..]);
    }
  }

  lemma {:induction false} DiscoverFresh(columns: seq<string>, keys: seq<string>)
    requires NoDuplicates(columns + keys)
    ensures Discover(columns, keys) == columns + keys
    decreases |keys|
  {
    if keys != [] {
      forall i | 0 <= i < |columns| ensures columns[i] != keys[0] {
        assert (columns + keys)[i] == columns[i] && (columns + keys)[|columns|] == keys[0];
      }
      assert columns + keys == (columns + [keys[0]]) + keys[1..];
      DiscoverFresh(columns + [keys[0]], keys[1..]);
    }
  }

  lemma {:induction false} AllKeysSkippingNulls(names: seq<string>, rows: seq<seq<Value>>)
    requires Rectangular(names, rows)
    ensures forall k :: k in AllKeys(EncodedRecords(names, rows, false)) <==>
      exists i, j | 0 <= i < |rows| && 0 <= j < |names| :: names[j] == k && !rows[i][j].Null?
    decreases |rows|
  {
    if rows != [] {
      EncodedKeys(names, rows[0], false);
      AllKeysSkippingNulls(names, rows[1..]);
      forall k ensures k in AllKeys(EncodedRecords(names, rows, false)) <==>
        exists i, j | 0 <= i < |rows| && 0 <= j < |names| :: names[j] == k && !rows[i][j].Null?
      {
        if exists i, j | 0 <= i < |rows| && 0 <= j < |names| :: names[j] == k && !rows[i][j].Null? {
          var i, j :| 0 <= i < |rows| && 0 <= j < |names| && names[j] == k && !rows[i][j].Null?;
          if i > 0 {
            assert rows[1..][i - 1] == rows[i];
          }
        }
        if k in AllKeys(EncodedRecords(names, rows[1..], false)) {
          var i, j :| 0 <= i < |rows| - 1 && 0 <= j < |names| && names[j] == k && !rows[1..][i][j].Null?;
          assert rows[i + 1] == rows[1..][i];
        }
      }
    }
  }

  /* ----- the round trips ----- */

  /** Every cell of the table read back equals the cursor's value, whatever the null policy. */
  lemma ReadBackCells(names: seq<string>, rows: seq<seq<Value>>, flag: bool)
    requires NoDuplicates(names) && Rectangular(names, rows) && AllNamedKeys(names, rows, flag)
    ensures var r := ReadDocument(TransmitAll(WriteDocument(names, rows, flag)));
      r.Ok? && r.value.rest == [] && |r.value.rows| == |rows| &&
      r.value.columns == Build(EncodedRecords(names, rows, flag)).columns &&
      forall i, j | 0 <= i < |rows| && 0 <= j < |names| :: Cell(r.value.rows[i], names[j]) == Reloaded(rows[i][j])
  {
    var events := TransmitAll(WriteDocument(names, rows, flag));
    ParseEncodedDocument(names, rows, flag, []);
    assert events + [] == events;
    ReadIsParseThenBuild(events);
    var records := EncodedRecords(names, rows, flag);
    RowsOfIndex(records);
    EncodedRecordsIndex(names, rows, flag);
    forall i, j | 0 <= i < |rows| && 0 <= j < |names|
      ensures Cell(RowsOf(records)[i], names[j]) == Reloaded(rows[i][j])
    {
      EncodedCells(names, rows[i], flag, map[], j);
    }
  }

  /**
    With exportNullValues set, reading back the written cursor gives its columns, in order,
    and all its values; only a cursor with no rows loses its columns, there being no key to
    discover them from.
   */
  lemma RoundTripExportingNulls(names: seq<string>, rows: seq<seq<Value>>)
    requires NoDuplicates(names) && Rectangular(names, rows) && AllNamedKeys(names, rows, true)
    ensures var r := Deserialize(TransmitAll(WriteDocument(names, rows, true)));
      r.Ok? && r.value.Some? &&
      r.value.value.columns == (if rows == [] then [] else names) &&
      |r.value.value.rows| == |rows| &&
      forall i, j | 0 <= i < |rows| && 0 <= j < |names| ::
        Cell(r.value.value.rows[i], names[j]) == Reloaded(rows[i][j])
  {
    ReadBackCells(names, rows, true);
    if rows != [] {
      var records := EncodedRecords(names, rows, true);
      EncodedKeys(names, rows[0], true);
      DiscoverFresh([], names);
      assert [] + names == names;
      DiscoverAppend([], names, AllKeys(records[1..]));
      assert records[0] == EncodedRecord(names, rows[0], true) && records[1..] == EncodedRecords(names, rows[1..], true);
      AllKeysExportingNulls(names, rows[1..]);
    }
  }

  /**
    Without exportNullValues, values still survive (a skipped null reads back as null), but a
    column survives only if it is non-null in some row; the columns read are distinct.
   */
  lemma RoundTripSkippingNulls(names: seq<string>, rows: seq<seq<Value>>)
    requires NoDuplicates(names) && Rectangular(names, rows) && AllNamedKeys(names, rows, false)
    ensures var r := Deserialize(TransmitAll(WriteDocument(names, rows, false)));
      r.Ok? && r.value.Some? &&
      NoDuplicates(r.value.value.columns) &&
      (forall c :: c in r.value.value.columns <==>
        exists i, j | 0 <= i < |rows| && 0 <= j < |names| :: names[j] == c && !rows[i][j].Null?) &&
      |r.value.value.rows| == |rows| &&
      forall i, j | 0 <= i < |rows| && 0 <= j < |names| ::
        Cell(r.value.value.rows[i], names[j]) == Reloaded(rows[i][j])
  {
    ReadBackCells(names, rows, false);
    ColumnsInFirstSeenOrder(AllKeys(EncodedRecords(names, rows, false)));
    AllKeysSkippingNulls(names, rows);
  }

  /* ----- a repeated field name ----- */

  /** Field j is the last of the row's fields with its name. */
  predicate LastOfName(names: seq<string>, j: nat)
    requires j < |names|
  {
    forall k | j < k < |names| :: names[k] != names[j]
  }

  /** With nulls exported, a row is read back as one pair per field, in field order. */
  lemma {:induction false} EncodedRecordExporting(names: seq<string>, values: seq<Value>)
    requires |names| == |values|
    ensures |EncodedRecord(names, values, true)| == |names|
    ensures forall k | 0 <= k < |names| :: EncodedRecord(names, values, true)[k] == (names[k], Reloaded(values[k]))
    decreases |names|
  {
    if names != [] {
      EncodedRecordExporting(names[1..], values[1..]);
    }
  }

  /** Every key the cursor writes is one of its field names. */
  lemma {:induction false} AllKeysWithin(names: seq<string>, rows: seq<seq<Value>>)
    requires Rectangular(names, rows)
    ensures forall k | k in AllKeys(EncodedRecords(names, rows, true)) :: k in names
    decreases |rows|
  {
    if rows != [] {
      EncodedKeys(names, rows[0], true);
      AllKeysWithin(names, rows[1..]);
    }
  }

  /**
    A cursor may repeat a field name, as a join selecting two id columns does. With
    exportNullValues the name reads back as one column, the columns being the distinct names
    in first-seen order, and in every row that column holds the value of the last field with
    the name: the later store overwrites the earlier one.
   */
  lemma RepeatedNamesMerge(names: seq<string>, rows: seq<seq<Value>>)
    requires Rectangular(names, rows) && AllNamedKeys(names, rows, true)
    ensures var r := Deserialize(TransmitAll(WriteDocument(names, rows, true)));
      r.Ok? && r.value.Some? &&
      r.value.value.columns == (if rows == [] then [] else Discover([], names)) &&
      |r.value.value.rows| == |rows| &&
      forall i, j | 0 <= i < |rows| && 0 <= j < |names| && LastOfName(names, j) ::
        Cell(r.value.value.rows[i], names[j]) == Reloaded(rows[i][j])
  {
    var events := TransmitAll(WriteDocument(names, rows, true));
    var records := EncodedRecords(names, rows, true);
    ParseEncodedDocument(names, rows, true, []);
    assert events + [] == events;
    ReadIsParseThenBuild(events);
    RowsOfIndex(records);
    EncodedRecordsIndex(names, rows, true);
    forall i, j | 0 <= i < |rows| && 0 <= j < |names| && LastOfName(names, j)
      ensures Cell(RowsOf(records)[i], names[j]) == Reloaded(rows[i][j])
    {
      EncodedRecordExporting(names, rows[i]);
      LastWriteWins(map[], records[i], j);
    }
    if rows != [] {
      EncodedKeys(names, rows[0], true);
      assert records[0] == EncodedRecord(names, rows[0], true) && records[1..] == EncodedRecords(names, rows[1..], true);
      DiscoverAppend([], names, AllKeys(records[1..]));
      AllKeysWithin(names, rows[1..]);
      DiscoverContents([], names);
      DiscoverKnown(Discover([], names), AllKeys(records[1..]));
    }
  }

  /* ----- a missing marker is an error ----- */

  /** A written document without its SequenceEnd fails with ExpectedSequenceEnd. */
  lemma MissingSequenceEnd(names: seq<string>, rows: seq<seq<Value>>, flag: bool)
    requires AllNamedKeys(names, rows, flag)
    ensures var d := TransmitAll(WriteDocument(names, rows, flag));
      ReadDocument(d[..|d| - 1]) == Err(ExpectedSequenceEnd)
  {
    var body := TransmitAll(EncodeRows(names, rows, flag));
    var d := TransmitAll(WriteDocument(names, rows, flag));
    TransmitAllAppend([SequenceStart] + EncodeRows(names, rows, flag), [SequenceEnd]);
    TransmitAllAppend([SequenceStart], EncodeRows(names, rows, flag));
    assert d[..|d| - 1] == [SequenceStart] + (body + []);
    ParseEncodedRows(names, rows, flag, []);
    ReadIsParseThenBuild(d[..|d| - 1]);
  }

  /** A written document without its SequenceStart fails with ExpectedSequenceStart. */
  lemma MissingSequenceStart(names: seq<string>, rows: seq<seq<Value>>, flag: bool)
    ensures var d := TransmitAll(WriteDocument(names, rows, flag));
      ReadDocument(d[1..]) == Err(ExpectedSequenceStart)
  {
    var body := EncodeRows(names, rows, flag);
    var d := TransmitAll(WriteDocument(names, rows, flag));
    TransmitAllAppend([SequenceStart] + body, [SequenceEnd]);
    TransmitAllAppend([SequenceStart], body);
    assert d[1..] == TransmitAll(body) + [SequenceEnd];
    if rows != [] {
      assert body[0] == MappingStart;
      assert TransmitAll(body)[0] == MappingStart;
    }
  }

  lemma ParseRecordsFails(fields: seq<Event>, record: Record, after: seq<Event>, e: Error)
    requires ParseFields(fields + ([MappingEnd] + after)) == Ok((record, [MappingEnd] + after))
    requires ParseRecords(after) == Err(e)
    ensures ParseRecords([MappingStart] + fields + [MappingEnd] + after) == Err(e)
  {
    Framed(MappingStart, fields, MappingEnd, after);
  }

  lemma {:induction false} ParseUnclosedRow(names: seq<string>, rows: seq<seq<Value>>, values: seq<Value>, flag: bool)
    requires AllNamedKeys(names, rows, flag) && NamedKeys(names, values, flag)
    ensures ParseRecords(TransmitAll(EncodeRows(names, rows, flag)) + ([MappingStart] + TransmitAll(EncodeFields(names, values, flag)))) ==
      Err(ExpectedMappingEnd)
    decreases |rows|
  {
    var open := [MappingStart] + TransmitAll(EncodeFields(names, values, flag));
    if rows == [] {
      assert TransmitAll(EncodeRows(names, rows, flag)) + open == open;
      ParseEncodedFields(names, values, flag, []);
      assert open[1..] == TransmitAll(EncodeFields(names, values, flag)) + [];
    } else {
      var fields := TransmitAll(EncodeFields(names, rows[0], flag));
      var more := EncodeRows(names, rows[1..], flag);
      var after := TransmitAll(more) + open;
      TransmitEncodeRows(names, rows, flag);
      Regroup([MappingStart] + fields + [MappingEnd], TransmitAll(more), open);
      ParseEncodedFields(names, rows[0], flag, [MappingEnd] + after);
      ParseUnclosedRow(names, rows[1..], values, flag);
      ParseRecordsFails(fields, EncodedRecord(names, rows[0], flag), after, ExpectedMappingEnd);
    }
  }

  /**
    A mapping left open, its fields written but not its MappingEnd, fails with
    ExpectedMappingEnd, however many complete rows come before it.
   */
  lemma MissingMappingEnd(names: seq<string>, rows: seq<seq<Value>>, values: seq<Value>, flag: bool)
    requires AllNamedKeys(names, rows, flag) && NamedKeys(names, values, flag)
    ensures ReadDocument([SequenceStart] + TransmitAll(EncodeRows(names, rows, flag)) + [MappingStart] +
      TransmitAll(EncodeFields(names, values, flag))) == Err(ExpectedMappingEnd)
  {
    var complete := TransmitAll(EncodeRows(names, rows, flag));
    var open := [MappingStart] + TransmitAll(EncodeFields(names, values, flag));
    var events := [SequenceStart] + complete + [MappingStart] + TransmitAll(EncodeFields(names, values, flag));
    Regroup([SequenceStart] + complete, [MappingStart], TransmitAll(EncodeFields(names, values, flag)));
    Regroup([SequenceStart], complete, open);
    ParseUnclosedRow(names, rows, values, flag);
    assert ParseDocument([SequenceStart] + (complete + open)) == Err(ExpectedMappingEnd) by {
      assert ([SequenceStart] + (complete + open))[1..] == complete + open;
    }
    ReadIsParseThenBuild(events);
  }

  /* ----- a key with the empty name is refused ----- */

  lemma ParseFieldsUnnamed(key: Event, value: Event, v: Value, after: seq<Event>)
    requires key.Scalar? && key.text == ""
    requires DeserializeValue([value] + after) == Ok((v, after))
    ensures ParseFields([key, value] + after) == Err(ColumnNotInTable)
  {
    assert ([key, value] + after)[1..] == [value] + after;
  }

  lemma ParseFieldsConsFails(key: Event, value: Event, v: Value, after: seq<Event>, e: Error)
    requires key.Scalar? && key.text != ""
    requires DeserializeValue([value] + after) == Ok((v, after))
    requires ParseFields(after) == Err(e)
    ensures ParseFields([key, value] + after) == Err(e)
  {
    assert ([key, value] + after)[1..] == [value] + after;
  }

  /** The fields of a row that writes a key with the empty name fail at that key. */
  lemma {:induction false} UnnamedField(names: seq<string>, values: seq<Value>, flag: bool, tail: seq<Event>)
    requires !NamedKeys(names, values, flag)
    ensures ParseFields(TransmitAll(EncodeFields(names, values, flag)) + tail) == Err(ColumnNotInTable)
    decreases |names|
  {
    var head := FieldEvents(names[0], values[0], flag);
    var more := EncodeFields(names[1..], values[1..], flag);
    var after := TransmitAll(more) + tail;
    assert EncodeFields(names, values, flag) == head + more;
    TransmitAllAppend(head, more);
    Regroup(TransmitAll(head), TransmitAll(more), tail);
    if head != [] {
      assert TransmitAll(head) == [Transmit(Key(names[0])), Transmit(SerializeValue(values[0]))];
      ValueRoundTrip(values[0], after);
    }
    if names[0] == "" && (flag || !values[0].Null?) {
      ParseFieldsUnnamed(Transmit(Key(names[0])), Transmit(SerializeValue(values[0])), Reloaded(values[0]), after);
    } else {
      var j :| 0 <= j < |names| && j < |values| && names[j] == "" && !(!flag && values[j].Null?);
      assert names[1..][j - 1] == names[j] && values[1..][j - 1] == values[j];
      UnnamedField(names[1..], values[1..], flag, tail);
      if head == [] {
        assert TransmitAll(head) + after == after;
      } else {
        ParseFieldsConsFails(Transmit(Key(names[0])), Transmit(SerializeValue(values[0])), Reloaded(values[0]), after, ColumnNotInTable);
      }
    }
  }

  /** Rows of which one writes a key with the empty name fail at that row. */
  lemma {:induction false} UnnamedRow(names: seq<string>, rows: seq<seq<Value>>, flag: bool, tail: seq<Event>)
    requires !AllNamedKeys(names, rows, flag)
    ensures ParseRecords(TransmitAll(EncodeRows(names, rows, flag)) + tail) == Err(ColumnNotInTable)
    decreases |rows|
  {
    var fields := TransmitAll(EncodeFields(names, rows[0], flag));
    var more := EncodeRows(names, rows[1..], flag);
    var after := TransmitAll(more) + tail;
    TransmitEncodeRows(names, rows, flag);
    Regroup([MappingStart] + fields + [MappingEnd], TransmitAll(more), tail);
    Framed(MappingStart, fields, MappingEnd, after);
    if !NamedKeys(names, rows[0], flag) {
      UnnamedField(names, rows[0], flag, [MappingEnd] + after);
    } else {
      var i :| 0 <= i < |rows| && !NamedKeys(names, rows[i], flag);
      assert rows[1..][i - 1] == rows[i];
      ParseEncodedFields(names, rows[0], flag, [MappingEnd] + after);
      UnnamedRow(names, rows[1..], flag, tail);
      ParseRecordsFails(fields, EncodedRecord(names, rows[0], flag), after, ColumnNotInTable);
    }
  }

  /**
    A cursor that writes a key with the empty name cannot be read back: the table names the
    column it adds for that key by a default name, and storing the value under the empty key
    fails.
   */
  lemma UnnamedColumnRefused(names: seq<string>, rows: seq<seq<Value>>, flag: bool)
    requires !AllNamedKeys(names, rows, flag)
    ensures ReadDocument(TransmitAll(WriteDocument(names, rows, flag))) == Err(ColumnNotInTable)
    ensures Deserialize(TransmitAll(WriteDocument(names, rows, flag))) == Err(ColumnNotInTable)
  {
    var body := TransmitAll(EncodeRows(names, rows, flag));
    var events := TransmitAll(WriteDocument(names, rows, flag));
    TransmitDocument(names, rows, flag);
    Framed(SequenceStart, body, SequenceEnd, []);
    assert events == [SequenceStart] + body + [SequenceEnd] + [];
    UnnamedRow(names, rows, flag, [SequenceEnd] + []);
    ReadIsParseThenBuild(events);
  }
}
