/**
 * Protocol-wide constants of the Java Object Serialization stream, owned by the
 * enclosing serialization library and shared by its elements.
 */
module Serialization {
  import opened ByteIO

  /** `TC_STRING` (section 6.4.2 of the Java Object Serialization Specification):
      the tag that introduces a new string object. */
  const TC_STRING: byte := 0x74
}
