/**
  An independent reading of the same event grammar in two stages: first the records, each
  the key/value pairs of one mapping in document order, then the table built from them.
  ReadDocument (the single pass of ReadYaml) is proved to agree with it, and the policies of
  the reader are stated here: columns in first-seen order without duplicates, the last value
  of a repeated key wins, a column a record never names is null in that row.
 */
module Records {
  import opened Wrappers
  import opened YamlEvents
  import ValueCodec
  import opened DataReaderTypeConverter

  type Record = seq<(string, Value)>

  /* ----- parsing ----- */

  function ParseFields(events: seq<Event>): (r: Result<(Record, seq<Event>), Error>)
    ensures r.Ok? ==> |r.value.1| <= |events|
    decreases |events|
  {
    if events != [] && events[0].Scalar? then
      match ValueCodec.DeserializeValue(events[1..])
      case Err(e) => Err(e)
      case Ok((v, rest)) =>
        if events[0].text == "" then Err(ColumnNotInTable)
        else
          match ParseFields(rest)
          case Err(e) => Err(e)
          case Ok((pairs, after)) => Ok(([(events[0].text, v)] + pairs, after))
    else Ok(([], events))
  }

  function ParseRecords(events: seq<Event>): (r: Result<(seq<Record>, seq<Event>), Error>)
    ensures r.Ok? ==> |r.value.1| <= |events|
    decreases |events|
  {
    if events != [] && events[0] == MappingStart then
      match ParseFields(events[1..])
      case Err(e) => Err(e)
      case Ok((record, rest)) =>
        if rest != [] && rest[0] == MappingEnd then
          match ParseRecords(rest[1..])
          case Err(e) => Err(e)
          case Ok((records, after)) => Ok(([record] + records, after))
        else Err(ExpectedMappingEnd)
    else Ok(([], events))
  }

  function ParseDocument(events: seq<Event>): Result<(seq<Record>, seq<Event>), Error> {
    if events != [] && events[0] == SequenceStart then
      match ParseRecords(events[1..])
      case Err(e) => Err(e)
      case Ok((records, rest)) =>
        if rest != [] && rest[0] == SequenceEnd then Ok((records, rest[1..]))
        else Err(ExpectedSequenceEnd)
    else Err(ExpectedSequenceStart)
  }

  /* ----- building ----- */

  function KeysOf(record: Record): seq<string> {
    if record == [] then [] else [record[0].0] + KeysOf(record[1..])
  }

  function AllKeys(records: seq<Record>): seq<string> {
    if records == [] then [] else KeysOf(records[0]) + AllKeys(records[1..])
  }

  /** The columns after the given keys are seen, in order, starting from `columns`. */
  function Discover(columns: seq<string>, keys: seq<string>): seq<string>
    decreases |keys|
  {
    if keys == [] then columns else Discover(WithColumn(columns, keys[0]), keys[1..])
  }

  /** The row after the pairs are stored into it, in order. */
  function Apply(row: map<string, Value>, record: Record): map<string, Value>
    decreases |record|
  {
    if record == [] then row else Apply(row[record[0].0 := record[0].1], record[1..])
  }

  function RowsOf(records: seq<Record>): seq<map<string, Value>> {
    if records == [] then [] else [Apply(map[], records[0])] + RowsOf(records[1..])
  }

  /** The table the records make: columns discovered from all keys, one row per record. */
  function Build(records: seq<Record>): TableRead {
    TableRead([], Discover([], AllKeys(records)), RowsOf(records))
  }

  /* ----- agreement with the single pass ----- */

  lemma {:induction false} DiscoverAppend(columns: seq<string>, a: seq<string>, b: seq<string>)
    ensures Discover(columns, a + b) == Discover(Discover(columns, a), b)
    decreases |a|
  {
    if a != [] {
      assert (a + b)[0] == a[0] && (a + b)[1..] == a[1..] + b;
      DiscoverAppend(WithColumn(columns, a[0]), a[1..], b);
    } else {
      assert a + b == b;
    }
  }

  lemma {:induction false} FieldsAgree(events: seq<Event>, columns: seq<string>, row: map<string, Value>)
    ensures ReadFields(events, columns, row) ==
      match ParseFields(events)
      case Err(e) => Err(e)
      case Ok((record, rest)) => Ok(FieldsRead(rest, Discover(columns, KeysOf(record)), Apply(row, record)))
    decreases |events|
  {
    if events != [] && events[0].Scalar? {
      var key := events[0].text;
      match ValueCodec.DeserializeValue(events[1..])
      case Err(e) =>
      case Ok((v, rest)) =>
        FieldsAgree(rest, WithColumn(columns, key), row[key := v]);
        match ParseFields(rest)
        case Err(e) =>
        case Ok((pairs, after)) =>
          var record := [(key, v)] + pairs;
          assert record[0] == (key, v) && record[1..] == pairs;
    }
  }

  /** Building from one more record in front: its keys are discovered first, its row comes first. */
  lemma BuildCons(columns: seq<string>, rows: seq<map<string, Value>>, record: Record, records: seq<Record>)
    ensures Discover(columns, AllKeys([record] + records)) == Discover(Discover(columns, KeysOf(record)), AllKeys(records))
    ensures rows + RowsOf([record] + records) == rows + [Apply(map[], record)] + RowsOf(records)
  {
    var all := [record] + records;
    assert all[0] == record && all[1..] == records;
    DiscoverAppend(columns, KeysOf(record), AllKeys(records));
  }

  lemma {:induction false} RecordsAgree(events: seq<Event>, columns: seq<string>, rows: seq<map<string, Value>>)
    ensures ReadRecords(events, columns, rows) ==
      match ParseRecords(events)
      case Err(e) => Err(e)
      case Ok((records, rest)) => Ok(TableRead(rest, Discover(columns, AllKeys(records)), rows + RowsOf(records)))
    decreases |events|
  {
    if events != [] && events[0] == MappingStart {
      FieldsAgree(events[1..], columns, map[]);
      match ParseFields(events[1..])
      case Err(e) =>
      case Ok((record, rest)) =>
        if rest != [] && rest[0] == MappingEnd {
          var cols := Discover(columns, KeysOf(record));
          var row := Apply(map[], record);
          assert ReadRecords(events, columns, rows) == ReadRecords(rest[1..], cols, rows + [row]);
          RecordsAgree(rest[1..], cols, rows + [row]);
          match ParseRecords(rest[1..])
          case Err(e) =>
          case Ok((records, after)) =>
            assert ParseRecords(events) == Ok(([record] + records, after));
            BuildCons(columns, rows, record, records);
        }
    } else {
      assert rows + [] == rows;
    }
  }

  /** ReadYaml's single pass builds exactly the table of the records it parses. */
  lemma ReadIsParseThenBuild(events: seq<Event>)
    ensures ReadDocument(events) ==
      match ParseDocument(events)
      case Err(e) => Err(e)
      case Ok((records, rest)) => Ok(TableRead(rest, Build(records).columns, Build(records).rows))
  {
    if events != [] && events[0] == SequenceStart {
      RecordsAgree(events[1..], [], []);
      assert forall s: seq<map<string, Value>> :: [] + s == s;
    }
  }

  /* ----- column discovery ----- */

  lemma {:induction false} DiscoverContents(columns: seq<string>, keys: seq<string>)
    ensures forall c :: c in Discover(columns, keys) <==> c in columns || c in keys
    ensures NoDuplicates(columns) ==> NoDuplicates(Discover(columns, keys))
    ensures |Discover(columns, keys)| >= |columns| && Discover(columns, keys)[..|columns|] == columns
    decreases |keys|
  {
    if keys != [] {
      DiscoverContents(WithColumn(columns, keys[0]), keys[1..]);
      assert forall c :: c in keys <==> c == keys[0] || c in keys[1..];
    }
  }

  /** The position of the first occurrence of x in s. */
  function FirstIndex(s: seq<string>, x: string): (i: nat)
    requires x in s
    ensures i < |s| && s[i] == x && x !in s[..i]
  {
    if s[0] == x then 0 else 1 + FirstIndex(s[1..], x)
  }

  lemma {:induction false} FirstIndexAppend(s: seq<string>, x: string, y: string)
    requires y in s
    ensures y in s + [x] && FirstIndex(s + [x], y) == FirstIndex(s, y)
    decreases |s|
  {
    if s[0] != y {
      assert (s + [x])[1..] == s[1..] + [x];
      FirstIndexAppend(s[1..], x, y);
    }
  }

  /** One more key keeps the columns ordered by first occurrence. */
  lemma WithColumnKeepsOrder(k: seq<string>, x: string, before: seq<string>, i: nat, j: nat)
    requires forall c :: c in before <==> c in k
    requires forall i, j | 0 <= i < j < |before| :: FirstIndex(k, before[i]) < FirstIndex(k, before[j])
    requires i < j < |WithColumn(before, x)|
    ensures WithColumn(before, x)[i] in k + [x] && WithColumn(before, x)[j] in k + [x]
    ensures FirstIndex(k + [x], WithColumn(before, x)[i]) < FirstIndex(k + [x], WithColumn(before, x)[j])
  {
    var after := WithColumn(before, x);
    FirstIndexAppend(k, x, before[i]);
    if j < |before| {
      FirstIndexAppend(k, x, before[j]);
    } else {
      assert x !in before && after == before + [x];
      assert x !in k;
      assert FirstIndex(k + [x], x) == |k|;
    }
  }

  /** Discovery keeps the columns ordered by the first occurrence of their keys. */
  lemma {:induction false} OrderedByFirstIndex(keys: seq<string>)
    ensures forall c | c in Discover([], keys) :: c in keys
    ensures forall i, j | 0 <= i < j < |Discover([], keys)| ::
      FirstIndex(keys, Discover([], keys)[i]) < FirstIndex(keys, Discover([], keys)[j])
    decreases |keys|
  {
    DiscoverContents([], keys);
    if keys != [] {
      var k, x := keys[..|keys| - 1], keys[|keys| - 1];
      assert keys == k + [x];
      OrderedByFirstIndex(k);
      DiscoverContents([], k);
      DiscoverAppend([], k, [x]);
      var before := Discover([], k);
      assert Discover([], keys) == WithColumn(before, x) by {
        assert [x][1..] == [];
      }
      forall i, j | 0 <= i < j < |Discover([], keys)|
        ensures FirstIndex(keys, Discover([], keys)[i]) < FirstIndex(keys, Discover([], keys)[j])
      {
        WithColumnKeepsOrder(k, x, before, i, j);
      }
    }
  }

  /**
    The columns read from a key sequence are its distinct keys, ordered by first
    occurrence: a key already seen never adds a column or moves one.
   */
  lemma ColumnsInFirstSeenOrder(keys: seq<string>)
    ensures NoDuplicates(Discover([], keys))
    ensures forall c :: c in Discover([], keys) <==> c in keys
    ensures forall i, j | 0 <= i < j < |Discover([], keys)| ::
      FirstIndex(keys, Discover([], keys)[i]) < FirstIndex(keys, Discover([], keys)[j])
  {
    DiscoverContents([], keys);
    OrderedByFirstIndex(keys);
  }

  /* ----- rows ----- */

  lemma {:induction false} ApplyKeys(row: map<string, Value>, record: Record)
    ensures forall k :: k in Apply(row, record) <==> k in row || k in KeysOf(record)
    ensures forall k | k in row && k !in KeysOf(record) :: Apply(row, record)[k] == row[k]
    decreases |record|
  {
    if record != [] {
      ApplyKeys(row[record[0].0 := record[0].1], record[1..]);
    }
  }

  /** A key stored more than once in a record keeps the value stored last. */
  lemma {:induction false} LastWriteWins(row: map<string, Value>, record: Record, i: nat)
    requires i < |record|
    requires forall j | i < j < |record| :: record[j].0 != record[i].0
    ensures record[i].0 in Apply(row, record) && Apply(row, record)[record[i].0] == record[i].1
    decreases |record|
  {
    if i == 0 {
      var rest := record[1..];
      assert record[i].0 !in KeysOf(rest) by {
        KeysOfIndex(rest);
      }
      ApplyKeys(row[record[0].0 := record[0].1], rest);
    } else {
      LastWriteWins(row[record[0].0 := record[0].1], record[1..], i - 1);
    }
  }

  lemma {:induction false} KeysOfIndex(record: Record)
    ensures |KeysOf(record)| == |record|
    ensures forall j | 0 <= j < |record| :: KeysOf(record)[j] == record[j].0
    decreases |record|
  {
    if record != [] {
      KeysOfIndex(record[1..]);
    }
  }

  /** A column that a record does not name is null in that record's row. */
  lemma AbsentColumnIsNull(record: Record, column: string)
    requires column !in KeysOf(record)
    ensures Cell(Apply(map[], record), column) == Null
  {
    ApplyKeys(map[], record);
  }

  lemma {:induction false} RowsOfIndex(records: seq<Record>)
    ensures |RowsOf(records)| == |records|
    ensures forall i | 0 <= i < |records| :: RowsOf(records)[i] == Apply(map[], records[i])
    decreases |records|
  {
    if records != [] {
      RowsOfIndex(records[1..]);
    }
  }

  /**
    The reader's table, for any input it accepts: one row per mapping in document order,
    distinct columns in the order their keys first appear, none of them with the empty name,
    each row holding only known columns.
   */
  lemma ReadTableShape(events: seq<Event>)
    requires ReadDocument(events).Ok?
    ensures ParseDocument(events).Ok?
    ensures var t, records := ReadDocument(events).value, ParseDocument(events).value.0;
      |t.rows| == |records| &&
      (forall i | 0 <= i < |records| :: t.rows[i] == Apply(map[], records[i])) &&
      NoDuplicates(t.columns) && "" !in t.columns &&
      (forall c :: c in t.columns <==> c in AllKeys(records)) &&
      (forall i, j | 0 <= i < j < |t.columns| ::
        FirstIndex(AllKeys(records), t.columns[i]) < FirstIndex(AllKeys(records), t.columns[j]))
  {
    ReadIsParseThenBuild(events);
    var records := ParseDocument(events).value.0;
    RowsOfIndex(records);
    ColumnsInFirstSeenOrder(AllKeys(records));
  }
}
