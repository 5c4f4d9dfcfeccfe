/**
  DataReaderTypeConverter: an IDataReader is written as a YAML sequence with one mapping per
  row, and such a sequence is read back into a fresh DataTable whose columns are discovered
  from the keys. The parser, the emitter, the cursor and the table are the stateful objects
  the source works on; each method is proved against a function on event sequences.
 */
module DataReaderTypeConverter {
  import opened Wrappers
  import opened YamlEvents
  import ValueCodec
  import ByteArrayConverter

  /**
    The converter handles IDataReader and every type implementing it, and so never a type the
    byte-array converter handles: the two registered converters do not compete.
   */
  function Accepts(t: ClrType): (r: bool)
    ensures t.DataReaderType? ==> r
    ensures r ==> !ByteArrayConverter.Accepts(t) && t != ObjectType && t != StringType
  {
    t.DataReaderType?
  }

  predicate NoDuplicates(s: seq<string>) {
    forall i, j | 0 <= i < j < |s| :: s[i] != s[j]
  }

  /* ----- the event stream being read (IParser) ----- */

  class Parser {
    const events: seq<Event>
    var pos: nat

    ghost predicate Valid()
      reads this
    {
      pos <= |events|
    }

    /** The events not yet consumed. */
    function Remaining(): seq<Event>
      reads this
      requires Valid()
    {
      events[pos..]
    }

    constructor (events: seq<Event>)
      ensures Valid() && this.events == events && pos == 0
    {
      this.events := events;
      pos := 0;
    }

    /** TryConsume<MappingStart>. */
    method TryConsumeMappingStart() returns (ok: bool)
      requires Valid()
      modifies this
      ensures Valid()
      ensures ok == (old(Remaining()) != [] && old(Remaining())[0] == MappingStart)
      ensures Remaining() == if ok then old(Remaining())[1..] else old(Remaining())
    {
      ok := pos < |events| && events[pos] == MappingStart;
      if ok {
        pos := pos + 1;
      }
    }

    /** TryConsume<Scalar>: the scalar's text when the next event is a scalar. */
    method TryConsumeScalar() returns (text: Option<string>)
      requires Valid()
      modifies this
      ensures Valid()
      ensures text.Some? == (old(Remaining()) != [] && old(Remaining())[0].Scalar?)
      ensures text.Some? ==> text.value == old(Remaining())[0].text
      ensures Remaining() == if text.Some? then old(Remaining())[1..] else old(Remaining())
    {
      if pos < |events| && events[pos].Scalar? {
        text := Some(events[pos].text);
        pos := pos + 1;
      } else {
        text := None;
      }
    }

    /** Consume<E> for a structural event: false is the exception the source raises. */
    method Consume(expected: Event) returns (ok: bool)
      requires Valid()
      requires !expected.Scalar?
      modifies this
      ensures Valid()
      ensures ok == (old(Remaining()) != [] && old(Remaining())[0] == expected)
      ensures ok ==> Remaining() == old(Remaining())[1..]
      ensures !ok ==> Remaining() == old(Remaining())
    {
      ok := pos < |events| && events[pos] == expected;
      if ok {
        pos := pos + 1;
      }
    }

    /** The root deserializer asked for an object: one value, read as ValueCodec.DeserializeValue. */
    method DeserializeObject() returns (r: Result<Value, Error>)
      requires Valid()
      modifies this
      ensures Valid()
      ensures match ValueCodec.DeserializeValue(old(Remaining()))
        case Ok((v, rest)) => r == Ok(v) && Remaining() == rest
        case Err(e) => r == Err(e)
    {
      match ValueCodec.DeserializeValue(events[pos..])
      case Ok((v, rest)) =>
        r := Ok(v);
        pos := pos + 1;
      case Err(e) =>
        r := Err(e);
    }
  }

  /* ----- the table being built (DataTable) ----- */

  class Table {
    var columns: seq<string>
    var rows: seq<map<string, Value>>

    /** Column names are distinct and every row holds values for known columns only. */
    ghost predicate Valid()
      reads this
    {
      NoDuplicates(columns) &&
      forall i, k | 0 <= i < |rows| && k in rows[i] :: k in columns
    }

    constructor ()
      ensures Valid() && columns == [] && rows == []
    {
      columns := [];
      rows := [];
    }

    /** Columns.Contains, by exact name. */
    function Contains(name: string): bool
      reads this
    {
      name in columns
    }

    /** Columns.Add: a new column at the end; the rows already present hold null in it. */
    method AddColumn(name: string)
      requires Valid() && name !in columns
      modifies this
      ensures Valid()
      ensures columns == old(columns) + [name] && rows == old(rows)
    {
      columns := columns + [name];
    }

    /** Rows.Add. */
    method AddRow(row: map<string, Value>)
      requires Valid() && forall k | k in row :: k in columns
      modifies this
      ensures Valid()
      ensures rows == old(rows) + [row] && columns == old(columns)
    {
      rows := rows + [row];
    }
  }

  /** The value a row holds in a column: a column the row never set holds null. */
  function Cell(row: map<string, Value>, column: string): Value {
    if column in row then row[column] else Null
  }

  /* ----- reading: the specification of ReadYaml ----- */

  datatype FieldsRead = FieldsRead(rest: seq<Event>, columns: seq<string>, row: map<string, Value>)

  datatype TableRead = TableRead(rest: seq<Event>, columns: seq<string>, rows: seq<map<string, Value>>)

  /** The column list after a key is seen: a name already present adds nothing. */
  function WithColumn(columns: seq<string>, name: string): seq<string> {
    if name in columns then columns else columns + [name]
  }

  /**
    The inner loop: key scalars, each followed by its value, until a non-scalar event. A
    DataTable gives a column added under the empty name a default name of its own, so
    storing the value under the empty key then finds no such column; the value has been
    read by then.
   */
  function ReadFields(events: seq<Event>, columns: seq<string>, row: map<string, Value>): (r: Result<FieldsRead, Error>)
    ensures r.Ok? ==> |r.value.rest| <= |events| && (r.value.rest == [] || !r.value.rest[0].Scalar?)
    ensures r.Ok? && "" !in columns && "" !in row ==> "" !in r.value.columns && "" !in r.value.row
    ensures events != [] && events[0].Scalar? && events[0].text == "" && ValueCodec.DeserializeValue(events[1..]).Ok? ==>
      r == Err(ColumnNotInTable)
    decreases |events|
  {
    if events != [] && events[0].Scalar? then
      var key := events[0].text;
      match ValueCodec.DeserializeValue(events[1..])
      case Err(e) => Err(e)
      case Ok((v, rest)) =>
        if key == "" then Err(ColumnNotInTable)
        else ReadFields(rest, WithColumn(columns, key), row[key := v])
    else Ok(FieldsRead(events, columns, row))
  }

  /** The outer loop: one row per mapping, each closed by MappingEnd, appended in order. */
  function ReadRecords(events: seq<Event>, columns: seq<string>, rows: seq<map<string, Value>>): (r: Result<TableRead, Error>)
    ensures r.Ok? ==> |r.value.rest| <= |events| && (r.value.rest == [] || r.value.rest[0] != MappingStart)
    ensures r.Ok? && "" !in columns ==> "" !in r.value.columns
    decreases |events|
  {
    if events != [] && events[0] == MappingStart then
      match ReadFields(events[1..], columns, map[])
      case Err(e) => Err(e)
      case Ok(f) =>
        if f.rest != [] && f.rest[0] == MappingEnd then ReadRecords(f.rest[1..], f.columns, rows + [f.row])
        else Err(ExpectedMappingEnd)
    else Ok(TableRead(events, columns, rows))
  }

  /** ReadYaml as a function: SequenceStart, the records, SequenceEnd. */
  function ReadDocument(events: seq<Event>): Result<TableRead, Error> {
    if events != [] && events[0] == SequenceStart then
      match ReadRecords(events[1..], [], [])
      case Err(e) => Err(e)
      case Ok(t) =>
        if t.rest != [] && t.rest[0] == SequenceEnd then Ok(TableRead(t.rest[1..], t.columns, t.rows))
        else Err(ExpectedSequenceEnd)
    else Err(ExpectedSequenceStart)
  }

  /**
    Deserialize<IDataReader>: a stream without a document gives null (the converter is not
    called); otherwise the converter reads the document, which must be all there is.
   */
  function Deserialize(events: seq<Event>): (r: Result<Option<TableRead>, Error>)
    ensures r == Ok(None) <==> events == []
    ensures r.Ok? && r.value.Some? ==> ReadDocument(events) == Ok(r.value.value) && r.value.value.rest == []
    ensures events != [] && ReadDocument(events).Ok? ==>
      r == if ReadDocument(events).value.rest == [] then Ok(Some(ReadDocument(events).value)) else Err(ExpectedDocumentEnd)
    ensures events != [] && ReadDocument(events).Err? ==> r == Err(ReadDocument(events).error)
  {
    if events == [] then Ok(None)
    else
      match ReadDocument(events)
      case Err(e) => Err(e)
      case Ok(t) => if t.rest == [] then Ok(Some(t)) else Err(ExpectedDocumentEnd)
  }

  /** ReadYaml: builds a fresh table from the events, exactly as ReadDocument says. */
  method ReadYaml(parser: Parser) returns (r: Result<Table, Error>)
    requires parser.Valid()
    modifies parser
    ensures parser.Valid()
    ensures match ReadDocument(old(parser.Remaining()))
      case Err(e) => r == Err(e)
      case Ok(t) =>
        r.Ok? && fresh(r.value) && r.value.Valid() &&
        r.value.columns == t.columns && r.value.rows == t.rows && parser.Remaining() == t.rest
  {
    var table := new Table();
    ghost var doc := parser.Remaining();
    var started := parser.Consume(SequenceStart);
    if !started {
      return Err(ExpectedSequenceStart);
    }
    ghost var records := ReadRecords(parser.Remaining(), [], []);
    while true
      invariant parser.Valid() && table.Valid()
      invariant ReadRecords(parser.Remaining(), table.columns, table.rows) == records
      decreases |parser.Remaining()|
    {
      var more := parser.TryConsumeMappingStart();
      if !more {
        break;
      }
      ghost var atRow := parser.Remaining();
      ghost var columns0 := table.columns;
      ghost var rows0 := table.rows;
      var row: map<string, Value> := map[];
      while true
        invariant parser.Valid() && table.Valid() && table.rows == rows0
        invariant forall k | k in row :: k in table.columns
        invariant |parser.Remaining()| <= |atRow|
        invariant ReadFields(parser.Remaining(), table.columns, row) == ReadFields(atRow, columns0, map[])
        decreases |parser.Remaining()|
      {
        var field := parser.TryConsumeScalar();
        if field.None? {
          break;
        }
        var name := field.value;
        if !table.Contains(name) {
          table.AddColumn(name);
        }
        var value := parser.DeserializeObject();
        if value.Err? {
          return Err(value.error);
        }
        if name == "" {
          return Err(ColumnNotInTable);
        }
        row := row[name := value.value];
      }
      table.AddRow(row);
      var closed := parser.Consume(MappingEnd);
      if !closed {
        return Err(ExpectedMappingEnd);
      }
    }
    var ended := parser.Consume(SequenceEnd);
    if !ended {
      return Err(ExpectedSequenceEnd);
    }
    r := Ok(table);
  }

  /* ----- writing: the specification of WriteYaml ----- */

  /** Every row of the cursor has one value per field. */
  predicate Rectangular(names: seq<string>, rows: seq<seq<Value>>) {
    forall i | 0 <= i < |rows| :: |rows[i]| == |names|
  }

  /** The key scalar, new Scalar(name): no tag, style Any, implicit. */
  function Key(name: string): Event {
    Scalar("", name, Any, true, true)
  }

  /** One field: nothing when it is null and nulls are not exported, else its key and value. */
  function FieldEvents(name: string, v: Value, exportNullValues: bool): seq<Event> {
    if !exportNullValues && v.Null? then [] else [Key(name), ValueCodec.SerializeValue(v)]
  }

  /** The fields of one row in field order (a row has one value per name). */
  function EncodeFields(names: seq<string>, values: seq<Value>, exportNullValues: bool): seq<Event>
    decreases |names|
  {
    if names == [] || values == [] then []
    else FieldEvents(names[0], values[0], exportNullValues) + EncodeFields(names[1..], values[1..], exportNullValues)
  }

  function EncodeRow(names: seq<string>, values: seq<Value>, exportNullValues: bool): seq<Event> {
    [MappingStart] + EncodeFields(names, values, exportNullValues) + [MappingEnd]
  }

  function EncodeRows(names: seq<string>, rows: seq<seq<Value>>, exportNullValues: bool): seq<Event>
    decreases |rows|
  {
    if rows == [] then []
    else EncodeRow(names, rows[0], exportNullValues) + EncodeRows(names, rows[1..], exportNullValues)
  }

  /** WriteYaml as a function of the rows still to be read. */
  function WriteDocument(names: seq<string>, rows: seq<seq<Value>>, exportNullValues: bool): seq<Event> {
    [SequenceStart] + EncodeRows(names, rows, exportNullValues) + [SequenceEnd]
  }

  /* ----- the cursor being written (IDataReader) and the emitter ----- */

  class Cursor {
    const names: seq<string>
    const data: seq<seq<Value>>
    var position: nat  // rows read so far; the current row is data[position - 1]

    ghost predicate Valid()
      reads this
    {
      position <= |data| && Rectangular(names, data)
    }

    constructor (names: seq<string>, data: seq<seq<Value>>)
      requires Rectangular(names, data)
      ensures Valid() && this.names == names && this.data == data && position == 0
    {
      this.names := names;
      this.data := data;
      position := 0;
    }

    /** Read: moves to the next row, false once every row has been read. */
    method Read() returns (more: bool)
      requires Valid()
      modifies this
      ensures Valid()
      ensures more == (old(position) < |data|)
      ensures position == if more then old(position) + 1 else old(position)
    {
      more := position < |data|;
      if more {
        position := position + 1;
      }
    }

    function FieldCount(): nat
      reads this
    {
      |names|
    }

    function GetName(field: nat): string
      reads this
      requires field < |names|
    {
      names[field]
    }

    function IsDBNull(field: nat): bool
      reads this
      requires Valid() && 0 < position && field < |names|
    {
      data[position - 1][field].Null?
    }

    function GetValue(field: nat): Value
      reads this
      requires Valid() && 0 < position && field < |names|
    {
      data[position - 1][field]
    }
  }

  class Emitter {
    var events: seq<Event>

    constructor ()
      ensures events == []
    {
      events := [];
    }

    method Emit(e: Event)
      modifies this
      ensures events == old(events) + [e]
    {
      events := events + [e];
    }
  }

  lemma {:induction false} EncodeFieldsAppend(names: seq<string>, values: seq<Value>, name: string, v: Value, flag: bool)
    requires |names| == |values|
    ensures EncodeFields(names + [name], values + [v], flag) == EncodeFields(names, values, flag) + FieldEvents(name, v, flag)
    decreases |names|
  {
    if names == [] {
      assert [name][1..] == [] && [v][1..] == [];
    } else {
      assert (names + [name])[1..] == names[1..] + [name];
      assert (values + [v])[1..] == values[1..] + [v];
      EncodeFieldsAppend(names[1..], values[1..], name, v, flag);
    }
  }

  lemma EncodeFieldsSnoc(prefix: seq<Event>, names: seq<string>, values: seq<Value>, k: nat, flag: bool)
    requires k < |names| == |values|
    ensures prefix + EncodeFields(names[..k + 1], values[..k + 1], flag) ==
      prefix + EncodeFields(names[..k], values[..k], flag) + FieldEvents(names[k], values[k], flag)
  {
    assert names[..k + 1] == names[..k] + [names[k]];
    assert values[..k + 1] == values[..k] + [values[k]];
    EncodeFieldsAppend(names[..k], values[..k], names[k], values[k], flag);
  }

  /** One field written: its key, then its value through the value serializer. */
  method WriteField(emitter: Emitter, name: string, value: Value)
    modifies emitter
    ensures emitter.events == old(emitter.events) + [Key(name), ValueCodec.SerializeValue(value)]
  {
    emitter.Emit(Key(name));
    emitter.Emit(ValueCodec.SerializeValue(value));
  }

  /** The body of WriteYaml's for loop: the fields of the current row, in field order. */
  method WriteFields(emitter: Emitter, reader: Cursor, exportNullValues: bool)
    requires reader.Valid() && 0 < reader.position
    modifies emitter
    ensures emitter.events ==
      old(emitter.events) + EncodeFields(reader.names, reader.data[reader.position - 1], exportNullValues)
  {
    ghost var names, current, start := reader.names, reader.data[reader.position - 1], emitter.events;
    for field := 0 to reader.FieldCount()
      invariant emitter.events == start + EncodeFields(names[..field], current[..field], exportNullValues)
    {
      EncodeFieldsSnoc(start, names, current, field, exportNullValues);
      var isNull := reader.IsDBNull(field);
      if !exportNullValues && isNull {
        continue;
      }
      WriteField(emitter, reader.GetName(field), if isNull then Null else reader.GetValue(field));
    }
    assert names[..|names|] == names && current[..|names|] == current;
  }

  /** One pass of WriteYaml's while loop: the current row as one mapping. */
  method WriteRow(emitter: Emitter, reader: Cursor, exportNullValues: bool, ghost row: seq<Value>)
    requires reader.Valid() && 0 < reader.position && row == reader.data[reader.position - 1]
    modifies emitter
    ensures emitter.events == old(emitter.events) + EncodeRow(reader.names, row, exportNullValues)
  {
    emitter.Emit(MappingStart);
    WriteFields(emitter, reader, exportNullValues);
    emitter.Emit(MappingEnd);
  }

  lemma {:induction false} EncodeRowsAppend(names: seq<string>, rows: seq<seq<Value>>, row: seq<Value>, flag: bool)
    ensures EncodeRows(names, rows + [row], flag) == EncodeRows(names, rows, flag) + EncodeRow(names, row, flag)
    decreases |rows|
  {
    if rows == [] {
      assert [row][1..] == [];
    } else {
      assert (rows + [row])[1..] == rows[1..] + [row];
      EncodeRowsAppend(names, rows[1..], row, flag);
    }
  }

  lemma EncodeRowsSnoc(prefix: seq<Event>, names: seq<string>, data: seq<seq<Value>>, first: nat, k: nat, flag: bool)
    requires first <= k < |data|
    ensures prefix + EncodeRows(names, data[first..k + 1], flag) ==
      prefix + EncodeRows(names, data[first..k], flag) + EncodeRow(names, data[k], flag)
  {
    assert data[first..k + 1] == data[first..k] + [data[k]];
    EncodeRowsAppend(names, data[first..k], data[k], flag);
  }

  lemma WriteDocumentSplit(prefix: seq<Event>, names: seq<string>, rows: seq<seq<Value>>, flag: bool)
    ensures prefix + WriteDocument(names, rows, flag) == prefix + [SequenceStart] + EncodeRows(names, rows, flag) + [SequenceEnd]
  {
  }

  /** WriteYaml's while loop: every row the cursor has left, one mapping each, in row order. */
  method WriteRows(emitter: Emitter, reader: Cursor, exportNullValues: bool)
    requires reader.Valid()
    modifies emitter, reader
    ensures reader.Valid() && reader.position == |reader.data|
    ensures emitter.events ==
      old(emitter.events) + EncodeRows(reader.names, reader.data[old(reader.position)..], exportNullValues)
  {
    ghost var names, data, flag, first := reader.names, reader.data, exportNullValues, reader.position;
    ghost var start := emitter.events;
    while true
      invariant reader.Valid() && first <= reader.position
      invariant emitter.events == start + EncodeRows(names, data[first..reader.position], flag)
      decreases |data| - reader.position
    {
      ghost var k := reader.position;
      var more := reader.Read();
      if !more {
        break;
      }
      assert reader.position == k + 1;
      EncodeRowsSnoc(start, names, data, first, k, flag);
      WriteRow(emitter, reader, exportNullValues, data[k]);
    }
    assert reader.position == |data|;
    assert data[first..reader.position] == data[first..];
  }

  /** WriteYaml: the rows the cursor has left, written as WriteDocument says. */
  method WriteYaml(emitter: Emitter, reader: Cursor, exportNullValues: bool)
    requires reader.Valid()
    modifies emitter, reader
    ensures reader.Valid() && reader.position == |reader.data|
    ensures emitter.events ==
      old(emitter.events) + WriteDocument(reader.names, reader.data[old(reader.position)..], exportNullValues)
  {
    ghost var rows := reader.data[reader.position..];
    emitter.Emit(SequenceStart);
    ghost var head := emitter.events;
    WriteRows(emitter, reader, exportNullValues);
    ghost var body := emitter.events;
    assert body == head + EncodeRows(reader.names, rows, exportNullValues);
    emitter.Emit(SequenceEnd);
    assert emitter.events == body + [SequenceEnd];
    WriteDocumentSplit(old(emitter.events), reader.names, rows, exportNullValues);
  }

  /* ----- the shape of what WriteYaml writes ----- */

  function Occurrences(events: seq<Event>, e: Event): nat {
    if events == [] then 0 else (if events[0] == e then 1 else 0) + Occurrences(events[1..], e)
  }

  lemma {:induction false} OccurrencesAppend(a: seq<Event>, b: seq<Event>, e: Event)
    ensures Occurrences(a + b, e) == Occurrences(a, e) + Occurrences(b, e)
    decreases |a|
  {
    if a == [] {
      assert a + b == b;
    } else {
      assert (a + b)[1..] == a[1..] + b;
      OccurrencesAppend(a[1..], b, e);
    }
  }

  /** A row's fields are key and value scalars only, two per field written. */
  lemma {:induction false} FieldsAreScalars(names: seq<string>, values: seq<Value>, flag: bool)
    ensures forall i | 0 <= i < |EncodeFields(names, values, flag)| :: EncodeFields(names, values, flag)[i].Scalar?
    ensures flag && |names| == |values| ==> |EncodeFields(names, values, flag)| == 2 * |names|
    decreases |names|
  {
    if names != [] && values != [] {
      FieldsAreScalars(names[1..], values[1..], flag);
    }
  }

  lemma {:induction false} NoMarkersInFields(names: seq<string>, values: seq<Value>, flag: bool, e: Event)
    requires !e.Scalar?
    ensures Occurrences(EncodeFields(names, values, flag), e) == 0
    decreases |names|
  {
    if names != [] && values != [] {
      var head := FieldEvents(names[0], values[0], flag);
      OccurrencesAppend(head, EncodeFields(names[1..], values[1..], flag), e);
      NoMarkersInFields(names[1..], values[1..], flag, e);
      if head != [] {
        assert head[1..][1..] == [];
      }
    }
  }

  lemma {:induction false} OneMappingPerRow(names: seq<string>, rows: seq<seq<Value>>, flag: bool)
    ensures Occurrences(EncodeRows(names, rows, flag), MappingStart) == |rows|
    ensures Occurrences(EncodeRows(names, rows, flag), MappingEnd) == |rows|
    ensures Occurrences(EncodeRows(names, rows, flag), SequenceStart) == 0
    ensures Occurrences(EncodeRows(names, rows, flag), SequenceEnd) == 0
    decreases |rows|
  {
    if rows != [] {
      var fields := EncodeFields(names, rows[0], flag);
      OneMappingPerRow(names, rows[1..], flag);
      forall e: Event | !e.Scalar?
        ensures Occurrences(EncodeRows(names, rows, flag), e) ==
          (if e == MappingStart || e == MappingEnd then 1 else 0) + Occurrences(EncodeRows(names, rows[1..], flag), e)
      {
        NoMarkersInFields(names, rows[0], flag, e);
        OccurrencesAppend([MappingStart] + fields + [MappingEnd], EncodeRows(names, rows[1..], flag), e);
        OccurrencesAppend([MappingStart] + fields, [MappingEnd], e);
        OccurrencesAppend([MappingStart], fields, e);
        assert [MappingStart][1..] == [] && [MappingEnd][1..] == [];
      }
    }
  }

  /**
    The written document is one sequence: it opens with SequenceStart and closes with
    SequenceEnd, which appear nowhere else; inside it is one mapping per row; a cursor with no
    rows gives just the two markers.
   */
  lemma WriteShape(names: seq<string>, rows: seq<seq<Value>>, flag: bool)
    ensures var d := WriteDocument(names, rows, flag);
      |d| >= 2 && d[0] == SequenceStart && d[|d| - 1] == SequenceEnd &&
      Occurrences(d, SequenceStart) == 1 && Occurrences(d, SequenceEnd) == 1 &&
      Occurrences(d, MappingStart) == |rows| && Occurrences(d, MappingEnd) == |rows| &&
      (rows == [] ==> d == [SequenceStart, SequenceEnd])
  {
    var body := EncodeRows(names, rows, flag);
    OneMappingPerRow(names, rows, flag);
    forall e: Event ensures Occurrences(WriteDocument(names, rows, flag), e) ==
      Occurrences([SequenceStart], e) + Occurrences(body, e) + Occurrences([SequenceEnd], e)
    {
      OccurrencesAppend([SequenceStart] + body, [SequenceEnd], e);
      OccurrencesAppend([SequenceStart], body, e);
    }
    assert [SequenceStart][1..] == [] && [SequenceEnd][1..] == [];
  }
}
