/**
 * The field descriptor (`fieldDesc`, section 6.4.1 of the Java Object
 * Serialization Specification) of the Rex Java serialization library: one field
 * of a serialized class, given by a one-byte type code, a name and, for array
 * and object fields only, a type signature introduced by `TC_STRING`.
 */
module FieldDescriptor {
  import opened Wrappers
  import opened ByteIO
  import opened RubyHash
  import opened Serialization
  import Utf

  /** The primitive type codes, keyed by the code byte. */
  const PrimitiveTypeCodes: Hash<byte, string> := [
    (0x42, "byte"),     // 'B'
    (0x43, "char"),     // 'C'
    (0x44, "double"),   // 'D'
    (0x46, "float"),    // 'F'
    (0x49, "integer"),  // 'I'
    (0x4A, "long"),     // 'J'
    (0x53, "short"),    // 'S'
    (0x5A, "boolean")   // 'Z'
  ]

  /** The object type codes: arrays and object references. */
  const ObjectTypeCodes: Hash<byte, string> := [
    (0x5B, "array"),    // '['
    (0x4C, "object")    // 'L'
  ]

  /** Every type code: the primitive table followed by the object table, which
      is what merging them gives (`TypeCodesIsMerge`). */
  const TypeCodes: Hash<byte, string> := PrimitiveTypeCodes + ObjectTypeCodes

  /** `is_type_valid?`: `TYPE_CODES.values.include?(type)`, stated with
      `HasValue` (`RubyHash.ValuesMember` shows the two agree). */
  predicate IsTypeValid(t: string) {
    HasValue(TypeCodes, t)
  }

  /** `is_primitive?`: `PRIMITIVE_TYPE_CODES.values.include?(type)`. */
  predicate IsPrimitive(t: string) {
    HasValue(PrimitiveTypeCodes, t)
  }

  /** `is_object?`: `OBJECT_TYPE_CODES.values.include?(type)`. */
  predicate IsObject(t: string) {
    HasValue(ObjectTypeCodes, t)
  }

  /** `is_valid?(code)`: `TYPE_CODES.keys.include?(code)`. */
  predicate IsValidCode(c: byte) {
    HasKey(TypeCodes, c)
  }

  /** The keys and values of the two tables, in order. */
  lemma TableContents()
    ensures Keys(PrimitiveTypeCodes) == [0x42, 0x43, 0x44, 0x46, 0x49, 0x4A, 0x53, 0x5A]
    ensures Values(PrimitiveTypeCodes) ==
      ["byte", "char", "double", "float", "integer", "long", "short", "boolean"]
    ensures Keys(ObjectTypeCodes) == [0x5B, 0x4C]
    ensures Values(ObjectTypeCodes) == ["array", "object"]
  {
  }

  /** The merged table is the concatenation of the two tables, because they
      share no key. */
  lemma TypeCodesIsMerge()
    ensures Merge(PrimitiveTypeCodes, ObjectTypeCodes) == TypeCodes
  {
    var a, b := PrimitiveTypeCodes, ObjectTypeCodes;
    TableContents();
    assert forall i :: 0 <= i < |a| ==> !HasKey(b, a[i].0);
    MergeDisjoint(a, b);
  }

  /** No code occurs twice in the merged table. */
  lemma UniqueCodes()
    ensures UniqueKeys(TypeCodes)
  {
  }

  /** No type name occurs twice in the merged table: the ten names differ in
      their first letter or in their length. */
  lemma UniqueTypeNames()
    ensures UniqueValues(TypeCodes)
  {
    var h := TypeCodes;
    forall i, j | 0 <= i < j < |h| ensures h[i].1 != h[j].1 {
      assert h[i].1[0] != h[j].1[0] || |h[i].1| != |h[j].1|;
    }
  }

  /** The two tables partition the type codes: their keys are disjoint, their
      values are disjoint, and no key and no value occurs twice in the merged
      table, so the reverse lookup `TYPE_CODES.key` is well defined. */
  lemma TablePartition()
    ensures forall c :: HasKey(PrimitiveTypeCodes, c) ==> !HasKey(ObjectTypeCodes, c)
    ensures forall t :: HasValue(PrimitiveTypeCodes, t) ==> !HasValue(ObjectTypeCodes, t)
    ensures UniqueKeys(TypeCodes) && UniqueValues(TypeCodes)
    ensures |TypeCodes| == 10
  {
    TableContents();
    UniqueCodes();
    UniqueTypeNames();
  }

  /** Decoding a code and encoding its type name back give the code again. */
  lemma CodeOfDecodedType(c: byte)
    requires IsValidCode(c)
    ensures KeyOf(TypeCodes, Get(TypeCodes, c).value) == Some(c)
  {
    TablePartition();
    KeyOfGet(TypeCodes, c);
  }

  /** Encoding a type name and decoding its code back give the name again. */
  lemma TypeOfEncodedCode(t: string)
    requires IsTypeValid(t)
    ensures KeyOf(TypeCodes, t).Some? && Get(TypeCodes, KeyOf(TypeCodes, t).value) == Some(t)
  {
    TablePartition();
    GetKeyOf(TypeCodes, t);
  }

  /** `encode_field_type`'s bytes: the `TC_STRING` tag, then the signature. */
  function FieldTypeEncoding(u: Utf.Utf): (r: seq<byte>)
    ensures |r| == 1 + |Utf.Encode(u)| && r[0] == TC_STRING
  {
    [TC_STRING] + Utf.Encode(u)
  }

  /** What `decode_field_type` does with the bytes `s`: the signature it
      returns (`None` when it raises) and how many bytes it reads. It reads
      nothing past a missing or wrong tag. */
  function FieldTypeDecoding(s: seq<byte>): (r: (Option<Utf.Utf>, nat))
    ensures r.1 <= |s|
    ensures r.0.Some? ==> s[..r.1] == FieldTypeEncoding(r.0.value)
    ensures (s == [] || s[0] != TC_STRING) ==> r.0 == None && r.1 == (if s == [] then 0 else 1)
  {
    if s == [] || s[0] != TC_STRING then (None, if s == [] then 0 else 1)
    else
      match Utf.Decode(s[1..])
      case None => (None, |s|)
      case Some((u, k)) =>
        assert s[..1 + k] == [s[0]] + s[1..][..k];
        (Some(u), 1 + k)
  }

  /** The effect of one call of `decode`: whether it returns (`ok`) or raises,
      the value it assigns to each attribute (`None`: the attribute keeps its
      value) and how many bytes it reads from the stream. */
  datatype Effect = Effect(
    ok: bool,
    setType: Option<string>,
    setName: Option<Utf.Utf>,
    setFieldType: Option<Utf.Utf>,
    consumed: nat)

  /** `decode` on a stream whose unread bytes are `s`. The type is assigned
      before the name is read, so a failure later on leaves it assigned; a
      primitive field never touches `field_type`. */
  function DecodeEffect(s: seq<byte>): (e: Effect)
    ensures e.consumed <= |s|
    ensures e.ok ==> e.setType.Some? && IsTypeValid(e.setType.value) && e.setName.Some?
    ensures e.ok ==> (e.setFieldType.Some? <==> IsObject(e.setType.value))
  {
    if s == [] then Effect(false, None, None, None, 0)
    else if !IsValidCode(s[0]) then Effect(false, None, None, None, 1)
    else
      var t := Get(TypeCodes, s[0]).value;
      assert IsTypeValid(t);
      match Utf.Decode(s[1..])
      case None => Effect(false, Some(t), None, None, |s|)
      case Some((n, k)) =>
        if !IsObject(t) then Effect(true, Some(t), Some(n), None, 1 + k)
        else
          var (ft, m) := FieldTypeDecoding(s[1 + k..]);
          Effect(ft.Some?, Some(t), Some(n), ft, 1 + k + m)
  }

  /** What `encode` returns for a field with these attributes: `None` when it
      raises because the type is not a known type name. The requires clauses
      are the states in which `encode` does not call `encode` on `nil`. */
  function Encoding(t: string, name: Option<Utf.Utf>, fieldType: Option<Utf.Utf>): (r: Option<seq<byte>>)
    requires IsTypeValid(t) ==> name.Some?
    requires IsObject(t) ==> fieldType.Some?
    ensures r.Some? <==> IsTypeValid(t)
    ensures r.Some? ==> |r.value| > 0 && IsValidCode(r.value[0]) && Get(TypeCodes, r.value[0]) == Some(t)
  {
    if !IsTypeValid(t) then None
    else
      TypeOfEncodedCode(t);
      var head := [KeyOf(TypeCodes, t).value] + Utf.Encode(name.value);
      Some(if IsObject(t) then head + FieldTypeEncoding(fieldType.value) else head)
  }

  /** A field descriptor, as the library builds it: empty, then filled in by
      `Decode` or by assigning its attributes. */
  class Field {
    var typeName: string
    var name: Option<Utf.Utf>
    var fieldType: Option<Utf.Utf>

    constructor ()
      ensures typeName == "" && name == None && fieldType == None
    {
      typeName := "";
      name := None;
      fieldType := None;
    }

    /** `decode(io)`: `ok` is false where the source raises. */
    method Decode(io: Reader) returns (ok: bool)
      requires io.Valid()
      modifies this, io
      ensures io.Valid()
      ensures var e := DecodeEffect(old(io.Remaining()));
        && ok == e.ok
        && io.pos == old(io.pos) + e.consumed
        && typeName == (if e.setType.Some? then e.setType.value else old(typeName))
        && name == (if e.setName.Some? then e.setName else old(name))
        && fieldType == (if e.setFieldType.Some? then e.setFieldType else old(fieldType))
    {
      ghost var s := io.Remaining();
      var code := io.ReadByte();
      if code.None? || !IsValidCode(code.value) {
        return false;
      }
      typeName := Get(TypeCodes, code.value).value;
      assert io.Remaining() == s[1..];
      var n := Utf.Read(io);
      if n.None? {
        return false;
      }
      name := n;
      if IsObject(typeName) {
        var k := Utf.Decode(s[1..]).value.1;
        assert io.Remaining() == s[1 + k..];
        var ft := DecodeFieldType(io);
        if ft.None? {
          return false;
        }
        fieldType := ft;
      }
      return true;
    }

    /** `decode_field_type(io)`: the signature, `None` where the source raises. */
    method DecodeFieldType(io: Reader) returns (ft: Option<Utf.Utf>)
      requires io.Valid()
      modifies io
      ensures io.Valid()
      ensures var (r, k) := FieldTypeDecoding(old(io.Remaining()));
        ft == r && io.pos == old(io.pos) + k
    {
      ghost var s := io.Remaining();
      var opcode := io.ReadByte();
      if opcode.None? || opcode.value != TC_STRING {
        return None;
      }
      assert io.Remaining() == s[1..];
      ft := Utf.Read(io);
    }

    /** `encode`: `None` where the source raises. */
    method Encode() returns (r: Option<seq<byte>>)
      requires IsTypeValid(typeName) ==> name.Some?
      requires IsObject(typeName) ==> fieldType.Some?
      ensures r == Encoding(typeName, name, fieldType)
    {
      if !IsTypeValid(typeName) {
        return None;
      }
      TypeOfEncodedCode(typeName);
      var encoded: seq<byte> := [];
      encoded := encoded + [KeyOf(TypeCodes, typeName).value];
      assert encoded == [KeyOf(TypeCodes, typeName).value];
      encoded := encoded + Utf.Encode(name.value);
      if IsObject(typeName) {
        var tail := EncodeFieldType();
        encoded := encoded + tail;
      }
      return Some(encoded);
    }

    /** `encode_field_type`: the tag, then the signature. */
    method EncodeFieldType() returns (r: seq<byte>)
      requires fieldType.Some?
      ensures r == FieldTypeEncoding(fieldType.value)
    {
      r := [TC_STRING];
      r := r + Utf.Encode(fieldType.value);
    }
  }
}
