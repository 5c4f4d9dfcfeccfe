# YamlDotNetDataReader in Dafny

YamlDotNetDataReader adds two type converters to the YamlDotNet serializer.

- `DataReaderTypeConverter` writes an `IDataReader` as a YAML sequence, one mapping per row.
  Each mapping holds the row's fields in field order, a key scalar followed by the value.
  A null field is left out unless `exportNullValues` is set.
  Reading goes the other way: it builds a fresh `DataTable` from such a sequence. A column is
  added the first time its key is seen, and each mapping becomes one row.
- `ByteArrayConverter` writes a `byte[]` as one plain scalar tagged `tag:yaml.org,2002:binary`.
  Its body is the base64 encoding of section 4 of RFC 4648. Reading decodes that body. The
  deserializer built by `Factory` maps the binary tag to `byte[]`, which is how a cell value
  reaches this converter.

The model works on YAML events: sequence and mapping markers, and scalars with tag, text,
style and the two implicit flags. The files are:

- `base64.dfy`: the encoder and a strict decoder, the round trip, the length formula, and a
  description of well-formed text that does not mention the decoder.
- `yaml_events.dfy`: events, cell values, and the YAML core schema's null rule. It also holds
  `Transmit`, the text layer reduced to what comes back when an emitted event is parsed again.
- `byte_array_converter.dfy`, `factory.dfy` and `value_codec.dfy`: the binary converter, the
  tag mapping, and how one cell value is read and written.
- `data_reader_type_converter.dfy`: the converter as the source writes it. `ReadYaml` and
  `WriteYaml` are methods over a `Parser`, a `Table`, a `Cursor` and an `Emitter`, with loop
  invariants. Each method is proved against a function on event sequences: `ReadDocument` for
  reading and `WriteDocument` for writing.
- `records.dfy`: a second reading of the same grammar in two stages. Stage one parses records
  (the key/value pairs of each mapping). Stage two builds the table from them. The reader is
  proved equal to it. The reader's policies are proved over it: first-seen column order with no
  duplicates, the last value wins for a repeated key, and an absent column is null.
- `round_trip.dfy`: what reading gives back for the events writing produces, with and without
  exportNullValues, and the errors when a structural marker is missing.
- `examples.dfy`: the repository's unit tests, stated over events.

## Model

| member | source | states |
|---|---|---|
| Base64.Encode | YamlDotNetDataReader/ByteArrayConverter.cs:23 | the base64 text of n bytes is 4·⌈n/3⌉ characters long |
| Base64.DecodeQuad | YamlDotNetDataReader/ByteArrayConverter.cs:17 | a group of four characters decodes to one to three bytes, three exactly when its last character is not a pad |
| Base64.Decode | YamlDotNetDataReader/ByteArrayConverter.cs:17 | a text that decodes has a length divisible by four, and gives 3·len/4 bytes less at most two |
| Base64.RoundTrip | YamlDotNetDataReader/ByteArrayConverter.cs:16-27 | decoding the encoding of any byte sequence gives that byte sequence back |
| Base64.DecodeDefinedIff | YamlDotNetDataReader/ByteArrayConverter.cs:17 | the strict decoder succeeds exactly on well-formed base64 (whole groups of four, alphabet characters only, `=` only as final padding); every other text is an error |
| Base64.EncodeIsBase64 | YamlDotNetDataReader/ByteArrayConverter.cs:23 | the encoder only produces well-formed base64: alphabet characters, with `=` only as padding at the end |
| Base64.EncodeCanonical | YamlDotNetDataReader/ByteArrayConverter.cs:23 | the encoder writes the bits its final group does not use as zero, as section 3.5 of RFC 4648 requires |
| Base64.CanonicalRoundTrip | YamlDotNetDataReader/ByteArrayConverter.cs:16-27 | every well-formed text whose unused bits are zero decodes, and encoding what it decodes to gives the text back |
| Base64.CanonicalUnique | YamlDotNetDataReader/ByteArrayConverter.cs:23 | the encoding of b is the only well-formed text with zero unused bits that decodes to b |
| ByteArrayConverter.ReadYaml | YamlDotNetDataReader/ByteArrayConverter.cs:16-17 | consumes exactly one scalar and nothing after it; succeeds exactly when the scalar's text is base64, with the decoded bytes; a non-scalar and a malformed text are two distinct errors |
| ByteArrayConverter.WriteYaml | YamlDotNetDataReader/ByteArrayConverter.cs:19-27 | one scalar, tagged binary, plain, neither implicit flag set, whose text is well-formed base64 of length 4·⌈n/3⌉ with its unused bits zero, and decodes to the bytes; by Base64.CanonicalUnique that text is exactly the encoding of the bytes |
| ByteArrayConverter.ReadWriteRoundTrip | YamlDotNetDataReader/ByteArrayConverter.cs:16-27 | the written scalar passes the text layer unchanged, since its tag is explicit, and reads back as the same bytes, leaving the following events alone |
| Factory.ResolveTag | YamlDotNetDataReader/Factory.cs:18 | a scalar is routed to the byte-array converter exactly when it carries the binary tag |
| ValueCodec.DeserializeValue | YamlDotNetDataReader/DataReaderTypeConverter.cs:27 | reads exactly one scalar. A binary-tagged scalar gives its decoded bytes, or an error when its text is not base64. Any other scalar gives null when it is null-tagged or a plain null text, and its text otherwise. Anything but a scalar is an error |
| ValueCodec.SerializeValue | YamlDotNetDataReader/DataReaderTypeConverter.cs:50 | every cell value, null included, is written as exactly one scalar event |
| ValueCodec.ValueRoundTrip | YamlDotNetDataReader/DataReaderTypeConverter.cs:50 | a value written, passed through the text layer and read back is the same value (null stays null, the empty string stays the empty string, bytes stay the bytes); other scalar kinds come back as their text |
| DataReaderTypeConverter.Accepts | YamlDotNetDataReader/DataReaderTypeConverter.cs:10 | every IDataReader type is accepted, and an accepted type is never byte[], object or string, so the converter never competes with the byte-array converter or the value reader |
| DataReaderTypeConverter.Parser.Consume | YamlDotNetDataReader/DataReaderTypeConverter.cs:16 | succeeds, and advances by one event, exactly when the next event is the expected marker; on failure nothing is consumed |
| DataReaderTypeConverter.Parser.TryConsumeMappingStart | YamlDotNetDataReader/DataReaderTypeConverter.cs:17 | true exactly when the next event is MappingStart; consumes it only then |
| DataReaderTypeConverter.Parser.TryConsumeScalar | YamlDotNetDataReader/DataReaderTypeConverter.cs:20 | gives the next event's text exactly when that event is a scalar, and consumes it only then |
| DataReaderTypeConverter.Parser.DeserializeObject | YamlDotNetDataReader/DataReaderTypeConverter.cs:27 | reads the value at the parser's position as ValueCodec.DeserializeValue says, and advances past it |
| DataReaderTypeConverter.Table.AddColumn | YamlDotNetDataReader/DataReaderTypeConverter.cs:24 | appends a new column, keeping the names distinct and the rows unchanged |
| DataReaderTypeConverter.Table.AddRow | YamlDotNetDataReader/DataReaderTypeConverter.cs:30 | appends the row after the rows already present; the columns stay as they are |
| DataReaderTypeConverter.ReadFields | YamlDotNetDataReader/DataReaderTypeConverter.cs:20-28 | the inner loop stops at the first event that is not a scalar key, and never reads past the input. A key with the empty name is refused with ColumnNotInTable once its value is read, so no column or row key read is the empty name |
| DataReaderTypeConverter.ReadRecords | YamlDotNetDataReader/DataReaderTypeConverter.cs:17-32 | the outer loop stops at the first event that is not MappingStart, and never reads past the input |
| DataReaderTypeConverter.Deserialize | YamlDotNetDataReader.Test/UnitTest1.cs:88-97 | an empty stream, and only an empty stream, reads as null. A non-empty stream gives ReadYaml's table when the document is all there is, ExpectedDocumentEnd when events follow it, and ReadYaml's error when the document is refused |
| DataReaderTypeConverter.ReadYaml | YamlDotNetDataReader/DataReaderTypeConverter.cs:12-36 | the nested loops over the parser build a fresh table whose columns and rows are those of ReadDocument. The table keeps distinct columns and rows over known columns only. Each missing marker, and a key with the empty name, is the error ReadDocument names |
| DataReaderTypeConverter.Cursor.Read | YamlDotNetDataReader/DataReaderTypeConverter.cs:42 | moves to the next row, and is false only once every row has been read |
| DataReaderTypeConverter.WriteField | YamlDotNetDataReader/DataReaderTypeConverter.cs:49-50 | emits the field's name as an untagged key scalar, then its value as ValueCodec.SerializeValue writes it |
| DataReaderTypeConverter.WriteFields | YamlDotNetDataReader/DataReaderTypeConverter.cs:45-51 | the for loop emits the current row's fields in field order, leaving null fields out unless exportNullValues is set |
| DataReaderTypeConverter.WriteRow | YamlDotNetDataReader/DataReaderTypeConverter.cs:44-52 | one row is one mapping: MappingStart, its fields, MappingEnd |
| DataReaderTypeConverter.WriteRows | YamlDotNetDataReader/DataReaderTypeConverter.cs:42-53 | the while loop consumes the whole cursor and emits one mapping per row left, in row order |
| DataReaderTypeConverter.WriteYaml | YamlDotNetDataReader/DataReaderTypeConverter.cs:38-55 | the while loop consumes the whole cursor and emits WriteDocument of the rows not yet read: SequenceStart, one mapping per row in row order, SequenceEnd |
| DataReaderTypeConverter.FieldsAreScalars | YamlDotNetDataReader/DataReaderTypeConverter.cs:45-51 | a row's fields are scalars only; with exportNullValues every field gives exactly a key and a value |
| DataReaderTypeConverter.OneMappingPerRow | YamlDotNetDataReader/DataReaderTypeConverter.cs:42-53 | the rows' events hold exactly one MappingStart and one MappingEnd per row, and no sequence marker |
| DataReaderTypeConverter.WriteShape | YamlDotNetDataReader/DataReaderTypeConverter.cs:41-54 | the written document begins with SequenceStart and ends with SequenceEnd, each appearing once. It holds one mapping per row. A cursor with no rows gives exactly those two events |
| Records.FieldsAgree | YamlDotNetDataReader/DataReaderTypeConverter.cs:20-28 | the inner loop equals parsing the mapping's pairs, discovering columns from their keys, and storing the pairs in order |
| Records.RecordsAgree | YamlDotNetDataReader/DataReaderTypeConverter.cs:17-32 | the outer loop equals parsing the records and then building: columns discovered over all keys, one row per record appended in order |
| Records.ReadIsParseThenBuild | YamlDotNetDataReader/DataReaderTypeConverter.cs:12-36 | reading a document equals parsing it into records and building the table; both fail with the same error |
| Records.DiscoverContents | YamlDotNetDataReader/DataReaderTypeConverter.cs:22-25 | discovery keeps the columns already present as a prefix, adds exactly the new keys, and creates no duplicate |
| Records.OrderedByFirstIndex | YamlDotNetDataReader/DataReaderTypeConverter.cs:22-25 | discovered columns are ordered by the position of their key's first occurrence |
| Records.ColumnsInFirstSeenOrder | YamlDotNetDataReader/DataReaderTypeConverter.cs:22-25 | the columns read from a key sequence are exactly its distinct keys, without duplicates, in first-seen order |
| Records.ApplyKeys | YamlDotNetDataReader/DataReaderTypeConverter.cs:27 | a row holds exactly the keys it had and the keys stored into it; a key not stored keeps its value |
| Records.LastWriteWins | YamlDotNetDataReader/DataReaderTypeConverter.cs:27 | a key stored several times in one mapping holds the value stored last |
| Records.AbsentColumnIsNull | YamlDotNetDataReader/DataReaderTypeConverter.cs:19 | a column that a mapping does not name is null in that mapping's row |
| Records.ReadTableShape | YamlDotNetDataReader/DataReaderTypeConverter.cs:12-36 | for any document the reader accepts: one row per mapping in document order. Columns are distinct, none has the empty name, they are exactly the keys seen, and they are in first-seen order |
| RoundTrip.ParseEncodedFields | YamlDotNetDataReader/DataReaderTypeConverter.cs:45-51 | a written row's fields, passed through the text layer, parse as the row's included fields in field order, each with its value back |
| RoundTrip.ParseEncodedRows | YamlDotNetDataReader/DataReaderTypeConverter.cs:42-53 | the written rows parse as one record per row, in row order |
| RoundTrip.ParseEncodedDocument | YamlDotNetDataReader/DataReaderTypeConverter.cs:38-55 | the written document parses back as one record per row, leaving exactly the events after it |
| RoundTrip.EncodedKeys | YamlDotNetDataReader/DataReaderTypeConverter.cs:47-49 | a written row's keys are exactly the names of its non-null fields, or all names in field order with exportNullValues |
| RoundTrip.EncodedCells | YamlDotNetDataReader/DataReaderTypeConverter.cs:47-50 | reading a written row gives each field its value back; a skipped null field keeps what the row held, which is null in a fresh row |
| RoundTrip.AllKeysExportingNulls | YamlDotNetDataReader/DataReaderTypeConverter.cs:47 | with exportNullValues, the keys of all rows add no column beyond the cursor's names |
| RoundTrip.AllKeysSkippingNulls | YamlDotNetDataReader/DataReaderTypeConverter.cs:47 | without exportNullValues, the keys written are exactly the names that are non-null in some row |
| RoundTrip.ReadBackCells | YamlDotNetDataReader/DataReaderTypeConverter.cs:12-55 | for a cursor with distinct field names, when every key written has a name, reading what was written succeeds and uses the whole input; it gives one row per cursor row and every cell's value back |
| RoundTrip.RoundTripExportingNulls | YamlDotNetDataReader/DataReaderTypeConverter.cs:12-55 | with exportNullValues, for distinct, non-empty field names, read(write(T)) has T's columns in T's order, T's row count and T's values; a cursor with no rows comes back without columns |
| RoundTrip.RoundTripSkippingNulls | YamlDotNetDataReader/DataReaderTypeConverter.cs:12-55 | without exportNullValues, for distinct field names and every key written named, the values still come back, but the columns are exactly those non-null in some row; a column null in every row is dropped |
| RoundTrip.RepeatedNamesMerge | YamlDotNetDataReader/DataReaderTypeConverter.cs:12-55 | with exportNullValues, a cursor that repeats a field name reads back with one column per distinct name, in first-seen order; in each row that column holds the value of the last field with the name |
| RoundTrip.UnnamedColumnRefused | YamlDotNetDataReader/DataReaderTypeConverter.cs:22-27 | a cursor that writes a key with the empty name cannot be read back: reading fails with ColumnNotInTable |
| RoundTrip.MissingSequenceStart | YamlDotNetDataReader/DataReaderTypeConverter.cs:16 | a written document without its SequenceStart is refused with ExpectedSequenceStart |
| RoundTrip.MissingSequenceEnd | YamlDotNetDataReader/DataReaderTypeConverter.cs:34 | a written document whose keys are named, without its SequenceEnd, is refused with ExpectedSequenceEnd |
| RoundTrip.MissingMappingEnd | YamlDotNetDataReader/DataReaderTypeConverter.cs:31 | a mapping left open after any number of complete rows, all keys named, is refused with ExpectedMappingEnd |
| Examples.ReadOneMapping | YamlDotNetDataReader/DataReaderTypeConverter.cs:12-36 | a document of one mapping reads as one row over the columns discovered from its keys |
| Examples.PlainNullRecord | YamlDotNetDataReader.Test/UnitTest1.cs:73-75 | `~`, an empty plain value and `null` all read as null |
| Examples.QuotedRecord | YamlDotNetDataReader.Test/UnitTest1.cs:76-77 | the quoted empty string reads as the empty string, not null; `'x'` reads as "x" |
| Examples.FromYamlNull | YamlDotNetDataReader.Test/UnitTest1.cs:65-86 | the test document reads as one row over columns a to e, in document order: a, b and c null, d the empty string, e "x" |
| Examples.FromYamlEmpty | YamlDotNetDataReader.Test/UnitTest1.cs:88-97 | an empty stream reads as null |
| Examples.UnnamedKeyRefused | YamlDotNetDataReader/DataReaderTypeConverter.cs:22-27 | a mapping with the key `''` and a readable value is refused with ColumnNotInTable |
| Examples.RepeatedKeyLastWins | YamlDotNetDataReader/DataReaderTypeConverter.cs:22-27 | a mapping setting k to 1 and then 2 reads as one column k holding 2 |
| Examples.ToYamlNullSkip | YamlDotNetDataReader.Test/UnitTest1.cs:99-116 | the row ("a", null) without exportNullValues writes only the plain key c1 and the plain value a |
| Examples.ToYamlNullInclude | YamlDotNetDataReader.Test/UnitTest1.cs:154-172 | with exportNullValues, c2 is written too; its value is an empty plain scalar whose null tag is left implicit |
| Examples.ToYamlWithNewLines | YamlDotNetDataReader.Test/UnitTest1.cs:118-152 | a multi-line string is written as one untagged, folded scalar |

## Left out

- The YAML text itself is left out: tokenising, layout, indentation and the folded `>-` line breaks. `Transmit` stands in for emitting and parsing again. It assumes the emitter quotes a string that would otherwise read back as null (the texts `""`, `~`, `null`, `Null` and `NULL`), folds a multi-line string, and leaves out a tag marked implicit for the style it writes. The emitter's empty-scalar rule quotes `""`. For `~`, `null`, `Null` and `NULL` the assumption is not settled by the files modelled: if the serializer writes such a string plain, it reads back as null, and `ValueCodec.ValueRoundTrip` would not hold for it.
- Nested collections as cell values: the value reader accepts a scalar only, and anything else is an error.
- Numbers, dates and booleans are read as `object`, so they come back as their text (`ValueCodec.Reloaded`). Their text form is the serializer's and is not modelled.
- DataTable internals are left out: case-insensitive `Columns.Contains`, column CLR types, and `DBNull` boxing. Columns match by exact name, and null is one `Null` value.
- `DataTable.Columns.Add` gives a column added under the empty name a default name (`Column1`, ...). `Table.AddColumn` adds it under the empty name instead. No result shows the difference: the store under the empty key that follows fails in both, and the model reports it as `ColumnNotInTable`.
- A row is a map from column to value rather than a `DataRow`. A column the row never set reads as null (`DataReaderTypeConverter.Cell`).
- The `IDataReader` returned by `CreateDataReader` is left out: the model returns the table itself.
- `Convert.FromBase64String` tolerates whitespace; the model decodes strict base64 per section 4 of RFC 4648. The bits a padded group does not use are ignored when decoding, not checked; the encoder writes them as zero (`Base64.EncodeCanonical`).
- A null cell whose field type is `byte[]` departs from the source. The source hands the null to the serializer together with the field type (DataReaderTypeConverter.cs:50). Whether the serializer then calls the byte-array converter, which would fail on the null, is decided inside YamlDotNet. The model writes the plain null scalar instead.
- The database and file tests (`ToYaml`, `FromYaml`) depend on SqlConnection, SqlBulkCopy and file streams; async code and disposal are not modelled.
- Factory.cs is builder composition. Only its binary-tag mapping is modelled (`Factory.ResolveTag`).
- Anchors, aliases and document start/end events are not part of the event datatype. A stream is taken to hold at most one document, and `Deserialize` refuses events after it.
- `ByteArrayConverter.Accepts` has no contract of its own: it accepts byte[] and nothing else. `Factory.ResolveTag` and `DataReaderTypeConverter.Accepts` state what follows from that.
- RoundTrip.RepeatedNamesMerge: stated with exportNullValues only. Without it a null field is not written, so a repeated name holds the value of the last non-null field with that name; this case is not stated.
- Base64.Decode: its contract bounds the length of the result only; which bytes come out is stated by `Base64.RoundTrip` and `Base64.DecodeDefinedIff`.
