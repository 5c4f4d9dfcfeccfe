/**
  The value serializer and deserializer that the converter calls for one cell value (the
  root deserializer asked for an object, the serializer handed the value). A binary-tagged
  scalar is routed by Factory's tag mapping to ByteArrayConverter; every other scalar is read
  as an object, which is null or a string.
 */
module ValueCodec {
  import opened Wrappers
  import opened Base64
  import opened YamlEvents
  import ByteArrayConverter
  import Factory

  /**
    The root deserializer asked for an object: it reads one scalar. A binary-tagged scalar
    goes through ByteArrayConverter; otherwise a null scalar is Null and any other is its
    text as a string.
   */
  function DeserializeValue(events: seq<Event>): (r: Result<(Value, seq<Event>), Error>)
    ensures r.Ok? ==> events != [] && events[0].Scalar? && r.value.1 == events[1..]
    ensures events != [] && events[0].Scalar? && events[0].tag != ByteArrayConverter.BinaryTag ==>
      r.Ok? && r.value.0 == (if IsNullScalar(events[0]) then Null else Str(events[0].text))
    ensures events != [] && events[0].Scalar? && events[0].tag == ByteArrayConverter.BinaryTag ==>
      (r.Ok? <==> IsBase64(events[0].text)) &&
      (r.Ok? ==> r.value.0.Bytes? && Decode(events[0].text) == Some(r.value.0.b))
    ensures (events == [] || !events[0].Scalar?) ==> r == Err(ExpectedScalar)
  {
    if events != [] && events[0].Scalar? then
      if ByteArrayConverter.Accepts(Factory.ResolveTag(events[0].tag)) then
        match ByteArrayConverter.ReadYaml(events)
        case Err(e) => Err(e)
        case Ok((b, rest)) => Ok((Bytes(b), rest))
      else if IsNullScalar(events[0]) then Ok((Null, events[1..]))
      else Ok((Str(events[0].text), events[1..]))
    else Err(ExpectedScalar)
  }

  /**
    The event the serializer writes for one cell value: null as an empty plain scalar with
    the null tag, a string at style Any for the emitter to choose, bytes through
    ByteArrayConverter, any other scalar as its plain text.
   */
  function SerializeValue(v: Value): (e: Event)
    ensures e.Scalar?
  {
    match v
    case Null => Scalar(NullTag, "", Plain, true, false)
    case Str(s) => Scalar(StrTag, s, Any, true, true)
    case Bytes(b) => ByteArrayConverter.WriteYaml(b)
    case Other(text) => Scalar("", text, Any, true, true)
  }

  /** What a value is once it has been written and read back. */
  function Reloaded(v: Value): Value {
    match v
    case Other(text) => Str(text)
    case _ => v
  }

  /**
    Every value survives being written, passed through the text layer, and read: null stays
    null, the empty string stays the empty string, bytes stay the same bytes; only the other
    scalar kinds come back as their text. The events after it are left alone.
   */
  lemma ValueRoundTrip(v: Value, rest: seq<Event>)
    ensures DeserializeValue([Transmit(SerializeValue(v))] + rest) == Ok((Reloaded(v), rest))
  {
    assert ([Transmit(SerializeValue(v))] + rest)[1..] == rest;
    match v
    case Bytes(b) =>
      ByteArrayConverter.ReadWriteRoundTrip(b, rest);
    case _ =>
  }
}
