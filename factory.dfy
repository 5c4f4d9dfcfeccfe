/**
  The deserializer Factory assembles maps the !!binary tag to byte[], and so to
  ByteArrayConverter; every other scalar is asked for as an object.
 */
module Factory {
  import opened YamlEvents
  import ByteArrayConverter

  /** The type the deserializer asks for: the tag mapping sends !!binary to byte[]. */
  function ResolveTag(tag: string): (t: ClrType)
    ensures ByteArrayConverter.Accepts(t) <==> tag == ByteArrayConverter.BinaryTag
  {
    if tag == ByteArrayConverter.BinaryTag then ByteArrayType else ObjectType
  }
}
