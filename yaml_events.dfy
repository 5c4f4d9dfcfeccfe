/**
  The surface of the YAML library that the converters work against: the parser/emitter
  events, the scalar styles, the values a cell can hold, the rule by which a scalar reads
  as null, and the CLR types a converter is asked about. The text form itself (tokenising,
  layout) belongs to the library and is reduced here to `Transmit`, the event an emitted
  event comes back as once the text is parsed again.
 */
module YamlEvents {
  import opened Base64

  datatype ScalarStyle = Any | Plain | SingleQuoted | DoubleQuoted | Literal | Folded

  /** YamlDotNet.Core.Events; anchors are never used by the converters and are left out. */
  datatype Event =
    | SequenceStart
    | SequenceEnd
    | MappingStart
    | MappingEnd
    | Scalar(tag: string, text: string, style: ScalarStyle, plainImplicit: bool, quotedImplicit: bool)

  const NullTag: string := "tag:yaml.org,2002:null"
  const StrTag: string := "tag:yaml.org,2002:str"

  /**
    A cell value. Null is DBNull; Other is any further scalar type (number, date, boolean)
    carried by the text the serializer writes for it.
   */
  datatype Value = Null | Str(s: string) | Bytes(b: seq<Byte>) | Other(text: string)

  /** The CLR types a type converter is asked to accept. */
  datatype ClrType =
    | ByteArrayType
    | StringType
    | ObjectType
    | DataReaderType(name: string)  // IDataReader itself or a class implementing it
    | OtherType(name: string)       // any type that is neither byte[] nor an IDataReader

  /** The plain texts that resolve to null under the YAML core schema. */
  predicate IsNullText(t: string) {
    t == "" || t == "~" || t == "null" || t == "Null" || t == "NULL"
  }

  /** A value scalar reads as null when it carries the null tag or is a plain null text. */
  predicate IsNullScalar(e: Event)
    requires e.Scalar?
  {
    e.tag == NullTag || (e.style == Plain && IsNullText(e.text))
  }

  /**
    The style the emitter writes for a scalar left at style Any: quoted when the plain
    text would read back as null (so the empty string comes out as ''), folded when it
    spans lines, plain otherwise.
   */
  function EmittedStyle(text: string): ScalarStyle {
    if IsNullText(text) then SingleQuoted
    else if '\n' in text then Folded
    else Plain
  }

  /**
    The event the parser yields for an emitted event: style Any is resolved by the emitter,
    and a tag the event marks as implicit for the written style is not written, so it does
    not come back.
   */
  function Transmit(e: Event): (r: Event)
    ensures r.Scalar? <==> e.Scalar?
    ensures !e.Scalar? ==> r == e
  {
    match e
    case Scalar(tag, text, style, plainImplicit, quotedImplicit) =>
      var written := if style == Any then EmittedStyle(text) else style;
      var omitTag := if written == Plain then plainImplicit else quotedImplicit;
      Scalar(if omitTag then "" else tag, text, written, plainImplicit, quotedImplicit)
    case _ => e
  }

  /** The events of a stream, each passed through the text layer. */
  function TransmitAll(es: seq<Event>): (r: seq<Event>)
    ensures |r| == |es|
  {
    if es == [] then [] else [Transmit(es[0])] + TransmitAll(es[1..])
  }

  lemma {:induction false} TransmitAllAppend(a: seq<Event>, b: seq<Event>)
    ensures TransmitAll(a + b) == TransmitAll(a) + TransmitAll(b)
    decreases |a|
  {
    if a == [] {
      assert a + b == b;
    } else {
      assert (a + b)[0] == a[0] && (a + b)[1..] == a[1..] + b;
      TransmitAllAppend(a[1..], b);
    }
  }

  /** Errors the converters raise; each ends the current read. */
  datatype Error =
    | ExpectedSequenceStart
    | ExpectedMappingEnd
    | ExpectedSequenceEnd
    | ExpectedScalar
    | ExpectedDocumentEnd
    | InvalidBase64
    | ColumnNotInTable  // a row written under a name no column of the table has
}
