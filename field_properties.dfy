/**
 * What the field descriptor codec promises: the type categories partition the
 * type names, `decode` rejects exactly the inputs it should and reads no
 * further than it must, `encode` has a fixed layout, and the two are inverse.
 */
module FieldProperties {
  import opened Wrappers
  import opened ByteIO
  import opened RubyHash
  import opened Serialization
  import opened FieldDescriptor
  import Utf
  import opened Seqs

  /** The values of two hashes laid end to end, in order. */
  lemma ValuesAppend<K, V>(a: Hash<K, V>, b: Hash<K, V>)
    ensures Values(a + b) == Values(a) + Values(b)
  {
    assert |Values(a + b)| == |Values(a) + Values(b)|;
    forall i | 0 <= i < |a + b| ensures Values(a + b)[i] == (Values(a) + Values(b))[i] {
    }
  }

  /** The keys of two hashes laid end to end, in order. */
  lemma KeysAppend<K, V>(a: Hash<K, V>, b: Hash<K, V>)
    ensures Keys(a + b) == Keys(a) + Keys(b)
  {
    assert |Keys(a + b)| == |Keys(a) + Keys(b)|;
    forall i | 0 <= i < |a + b| ensures Keys(a + b)[i] == (Keys(a) + Keys(b))[i] {
    }
  }

  /** A value is in two hashes laid end to end exactly when it is in one. */
  lemma HasValueAppend<K, V>(a: Hash<K, V>, b: Hash<K, V>, v: V)
    ensures HasValue(a + b, v) <==> HasValue(a, v) || HasValue(b, v)
  {
    if HasValue(a + b, v) {
      var i :| 0 <= i < |a + b| && (a + b)[i].1 == v;
      if i < |a| {
        assert a[i].1 == v;
      } else {
        assert b[i - |a|].1 == v;
      }
    }
    if HasValue(a, v) {
      var i :| 0 <= i < |a| && a[i].1 == v;
      assert (a + b)[i].1 == v;
    }
    if HasValue(b, v) {
      var i :| 0 <= i < |b| && b[i].1 == v;
      assert (a + b)[|a| + i].1 == v;
    }
  }

  /** `is_primitive?` and `is_object?` never hold together, and
      `is_type_valid?` holds exactly when one of them does. */
  lemma Categories(t: string)
    ensures !(IsPrimitive(t) && IsObject(t))
    ensures IsTypeValid(t) <==> IsPrimitive(t) || IsObject(t)
  {
    TablePartition();
    HasValueAppend(PrimitiveTypeCodes, ObjectTypeCodes, t);
  }

  /** The valid types are the ten type names and nothing else. */
  lemma TypeNames(t: string)
    ensures IsTypeValid(t) <==>
      t in ["byte", "char", "double", "float", "integer", "long", "short", "boolean", "array", "object"]
  {
    TableContents();
    ValuesAppend(PrimitiveTypeCodes, ObjectTypeCodes);
    ValuesMember(TypeCodes, t);
  }

  /** The ten type codes are the bytes of `B C D F I J S Z [ L`, and a code
      names an object type exactly when it is `[` or `L`. */
  lemma CodeCategories(c: byte)
    ensures IsValidCode(c) <==> c in [0x42, 0x43, 0x44, 0x46, 0x49, 0x4A, 0x53, 0x5A, 0x5B, 0x4C]
    ensures IsValidCode(c) ==> (IsObject(Get(TypeCodes, c).value) <==> c == 0x5B || c == 0x4C)
  {
    assert IsValidCode(c) ==> (IsObject(Get(TypeCodes, c).value) <==> c == 0x5B || c == 0x4C) by {
      if IsValidCode(c) {
        var t := Get(TypeCodes, c).value;
        assert (c, t) in TypeCodes;
        var i :| 0 <= i < |TypeCodes| && TypeCodes[i] == (c, t);
        TablePartition();
        if i < |PrimitiveTypeCodes| {
          assert PrimitiveTypeCodes[i] == (c, t);
          assert IsPrimitive(t);
          assert c in Keys(PrimitiveTypeCodes);
        } else {
          assert ObjectTypeCodes[i - |PrimitiveTypeCodes|] == (c, t);
        }
      }
    }
    TableContents();
    KeysAppend(PrimitiveTypeCodes, ObjectTypeCodes);
    KeysMember(TypeCodes, c);
  }

  /** `decode` rejects an exhausted stream and a byte that is not a type code,
      reads only that one byte, and assigns nothing. Any other first byte is
      accepted as the type. */
  lemma BadDiscriminant(s: seq<byte>)
    ensures var e := DecodeEffect(s);
      (e.setType.None? <==> s == [] || !IsValidCode(s[0]))
      && (e.setType.None? ==> !e.ok && e.setName.None? && e.setFieldType.None?
                              && e.consumed == (if s == [] then 0 else 1))
      && (e.setType.Some? ==> e.setType == Get(TypeCodes, s[0]))
  {
  }

  /** For a primitive code, `decode` assigns the type and the name, consumes
      the code byte and the name, and leaves `field_type` alone. */
  lemma PrimitiveDecode(s: seq<byte>)
    requires s != [] && IsValidCode(s[0]) && IsPrimitive(Get(TypeCodes, s[0]).value)
    ensures var e := DecodeEffect(s);
      e.setFieldType.None?
      && (e.ok <==> Utf.Decode(s[1..]).Some?)
      && (e.ok ==> e.setName == Some(Utf.Decode(s[1..]).value.0)
                   && e.consumed == 1 + Utf.Decode(s[1..]).value.1)
  {
    Categories(Get(TypeCodes, s[0]).value);
  }

  /** For an object code whose name decodes, `decode` succeeds exactly when
      the next byte is present and is `TC_STRING` and a signature follows it;
      a missing or wrong tag is read and nothing after it. */
  lemma EnvelopeCheck(s: seq<byte>)
    requires s != [] && IsValidCode(s[0]) && IsObject(Get(TypeCodes, s[0]).value)
    requires Utf.Decode(s[1..]).Some?
    ensures var e := DecodeEffect(s);
      var k := Utf.Decode(s[1..]).value.1;
      && e.setName == Some(Utf.Decode(s[1..]).value.0)
      && (e.ok <==> 1 + k < |s| && s[1 + k] == TC_STRING && Utf.Decode(s[2 + k..]).Some?)
      && (e.ok ==> e.setFieldType == Some(Utf.Decode(s[2 + k..]).value.0)
                   && e.consumed == 2 + k + Utf.Decode(s[2 + k..]).value.1)
      && (1 + k < |s| && s[1 + k] != TC_STRING ==> !e.ok && e.setFieldType.None? && e.consumed == 2 + k)
  {
  }

  /** `encode` raises exactly when the type is neither primitive nor object. */
  lemma EncodeRejection(t: string, name: Option<Utf.Utf>, fieldType: Option<Utf.Utf>)
    requires IsTypeValid(t) ==> name.Some?
    requires IsObject(t) ==> fieldType.Some?
    ensures Encoding(t, name, fieldType).None? <==> !IsPrimitive(t) && !IsObject(t)
  {
    Categories(t);
  }

  /** A freshly built field, whose type is empty, cannot be encoded. */
  lemma NewFieldNotEncodable()
    ensures !IsTypeValid("") && Encoding("", None, None).None?
  {
    TypeNames("");
  }

  /** The bytes of `encode`: the type's code, the name, and for object types
      only the `TC_STRING` tag followed by the signature. */
  lemma EncodeLayout(t: string, name: Utf.Utf, fieldType: Option<Utf.Utf>)
    requires IsTypeValid(t)
    requires IsObject(t) ==> fieldType.Some?
    ensures var r := Encoding(t, Some(name), fieldType).value;
      var n := |Utf.Encode(name)|;
      && Get(TypeCodes, r[0]) == Some(t)
      && r[1..1 + n] == Utf.Encode(name)
      && (IsPrimitive(t) ==> |r| == 1 + n)
      && (IsObject(t) ==> r[1 + n] == TC_STRING && r[2 + n..] == Utf.Encode(fieldType.value))
  {
    Categories(t);
    TypeOfEncodedCode(t);
    var c, e := KeyOf(TypeCodes, t).value, Utf.Encode(name);
    var tail := if IsObject(t) then FieldTypeEncoding(fieldType.value) else [];
    var r := Encoding(t, Some(name), fieldType).value;
    assert r == [c] + e + tail;
    Assoc([c], e, tail);
    DropFirst(c, e + tail);
    TakePrefix(e, tail);
    SliceOfSlice(r, 1, |e|);
    if IsObject(t) {
      DropPrefix([c] + e, tail);
      DropDrop(r, 1 + |e|, 1);
      DropFirst(TC_STRING, Utf.Encode(fieldType.value));
    }
  }

  /** For a primitive type, `encode` ignores `field_type` even when it is set. */
  lemma EncodeIgnoresPrimitiveFieldType(t: string, name: Utf.Utf, f1: Option<Utf.Utf>, f2: Option<Utf.Utf>)
    requires IsPrimitive(t)
    ensures Encoding(t, Some(name), f1) == Encoding(t, Some(name), f2)
  {
    Categories(t);
  }

  /** `decode_field_type` reads back what `encode_field_type` wrote, whatever
      follows it, and consumes exactly that. */
  lemma FieldTypeRoundTrip(u: Utf.Utf, rest: seq<byte>)
    ensures FieldTypeDecoding(FieldTypeEncoding(u) + rest) == (Some(u), |FieldTypeEncoding(u)|)
  {
    Assoc([TC_STRING], Utf.Encode(u), rest);
    DropFirst(TC_STRING, Utf.Encode(u) + rest);
    Utf.RoundTrip(u, rest);
  }

  /** Decoding what `encode` produced, whatever bytes follow it, restores the
      type, the name and, for object types, the signature, and consumes
      exactly the encoded bytes. */
  lemma RoundTrip(t: string, name: Utf.Utf, fieldType: Option<Utf.Utf>, rest: seq<byte>)
    requires IsTypeValid(t)
    requires IsObject(t) ==> fieldType.Some?
    ensures var bytes := Encoding(t, Some(name), fieldType).value;
      var e := DecodeEffect(bytes + rest);
      && e.ok
      && e.setType == Some(t)
      && e.setName == Some(name)
      && e.setFieldType == (if IsObject(t) then fieldType else None)
      && e.consumed == |bytes|
  {
    var bytes := Encoding(t, Some(name), fieldType).value;
    if IsObject(t) {
      assert bytes == [bytes[0]] + Utf.Encode(name) + FieldTypeEncoding(fieldType.value);
      RoundTripObject(bytes[0], t, name, fieldType.value, rest);
    } else {
      assert bytes == [bytes[0]] + Utf.Encode(name);
      RoundTripPrimitive(bytes[0], t, name, rest);
    }
  }

  /** `RoundTrip` for a primitive code `c`. */
  lemma RoundTripPrimitive(c: byte, t: string, name: Utf.Utf, rest: seq<byte>)
    requires IsValidCode(c) && Get(TypeCodes, c) == Some(t) && !IsObject(t)
    ensures DecodeEffect([c] + Utf.Encode(name) + rest)
      == Effect(true, Some(t), Some(name), None, 1 + |Utf.Encode(name)|)
  {
    Assoc([c], Utf.Encode(name), rest);
    DropFirst(c, Utf.Encode(name) + rest);
    Utf.RoundTrip(name, rest);
  }

  /** `RoundTrip` for an object code `c`. */
  lemma RoundTripObject(c: byte, t: string, name: Utf.Utf, fieldType: Utf.Utf, rest: seq<byte>)
    requires IsValidCode(c) && Get(TypeCodes, c) == Some(t) && IsObject(t)
    ensures DecodeEffect([c] + Utf.Encode(name) + FieldTypeEncoding(fieldType) + rest)
      == Effect(true, Some(t), Some(name), Some(fieldType),
                1 + |Utf.Encode(name)| + |FieldTypeEncoding(fieldType)|)
  {
    var n, f := Utf.Encode(name), FieldTypeEncoding(fieldType);
    var s := [c] + n + f + rest;
    Assoc([c] + n, f, rest);
    Assoc([c], n, f + rest);
    DropFirst(c, n + (f + rest));
    Utf.RoundTrip(name, f + rest);
    DropPrefix(n, f + rest);
    DropDrop(s, 1, |n|);
    FieldTypeRoundTrip(fieldType, rest);
  }

  /** Encoding what `decode` assigned reproduces exactly the bytes it read. */
  lemma DecodeThenEncode(s: seq<byte>)
    requires DecodeEffect(s).ok
    ensures var e := DecodeEffect(s);
      Encoding(e.setType.value, e.setName, e.setFieldType) == Some(s[..e.consumed])
  {
    var t := Get(TypeCodes, s[0]).value;
    CodeOfDecodedType(s[0]);
    var (n, k) := Utf.Decode(s[1..]).value;
    assert s[..1 + k] == [s[0]] + Utf.Encode(n) by {
      assert s[..1] == [s[0]];
      Reassemble(s, 1, k, [s[0]], Utf.Encode(n));
    }
    if IsObject(t) {
      var d := FieldTypeDecoding(s[1 + k..]);
      var f, m := d.0.value, d.1;
      ReEncodeObject(s, t, n, k, f, m);
      assert DecodeEffect(s) == Effect(true, Some(t), Some(n), Some(f), 1 + k + m);
    } else {
      ReEncodePrimitive(s, t, n, k);
    }
  }

  /** `DecodeThenEncode` for a primitive code: the name ends the bytes read. */
  lemma ReEncodePrimitive(s: seq<byte>, t: string, n: Utf.Utf, k: nat)
    requires s != [] && IsValidCode(s[0]) && Get(TypeCodes, s[0]) == Some(t) && !IsObject(t)
    requires KeyOf(TypeCodes, t) == Some(s[0])
    requires Utf.Decode(s[1..]) == Some((n, k))
    requires s[..1 + k] == [s[0]] + Utf.Encode(n)
    ensures var e := DecodeEffect(s);
      e.ok && Encoding(e.setType.value, e.setName, e.setFieldType) == Some(s[..e.consumed])
  {
    assert DecodeEffect(s) == Effect(true, Some(t), Some(n), None, 1 + k);
  }

  /** `DecodeThenEncode` for an object code: the `m` bytes after the name are
      the tagged signature `f`. */
  lemma ReEncodeObject(s: seq<byte>, t: string, n: Utf.Utf, k: nat, f: Utf.Utf, m: nat)
    requires s != [] && IsTypeValid(t) && IsObject(t) && KeyOf(TypeCodes, t) == Some(s[0])
    requires 1 + k + m <= |s| && s[..1 + k] == [s[0]] + Utf.Encode(n)
    requires s[1 + k..][..m] == FieldTypeEncoding(f)
    ensures Encoding(t, Some(n), Some(f)) == Some(s[..1 + k + m])
  {
    Reassemble(s, 1 + k, m, [s[0]] + Utf.Encode(n), FieldTypeEncoding(f));
  }

  /** The field `int count`: code `I`, then the name; decoding gives it back
      and encoding it again gives the same bytes. */
  lemma IntegerFieldExample()
    ensures var count := Utf.Utf([0x63, 0x6F, 0x75, 0x6E, 0x74]);
      var bytes := [0x49] + Utf.Encode(count);
      && DecodeEffect(bytes) == Effect(true, Some("integer"), Some(count), None, 8)
      && Encoding("integer", Some(count), None) == Some(bytes)
  {
    var count := Utf.Utf([0x63, 0x6F, 0x75, 0x6E, 0x74]);
    var bytes := [0x49] + Utf.Encode(count);
    TablePartition();
    GetAt(TypeCodes, 4);
    CodeOfDecodedType(0x49);
    Categories("integer");
    RoundTripPrimitive(0x49, "integer", count, []);
    assert bytes + [] == bytes;
    assert KeyOf(TypeCodes, "integer") == Some(0x49);
  }

  /** The field `String value`: code `L`, the name, `TC_STRING` and the
      signature `Ljava/lang/String;`. */
  lemma ObjectFieldExample()
    ensures var value := Utf.Utf([0x76, 0x61, 0x6C, 0x75, 0x65]);
      var signature := Utf.Utf([0x4C, 0x6A, 0x61, 0x76, 0x61, 0x2F, 0x6C, 0x61, 0x6E, 0x67,
                                0x2F, 0x53, 0x74, 0x72, 0x69, 0x6E, 0x67, 0x3B]);
      var bytes := [0x4C] + Utf.Encode(value) + [TC_STRING] + Utf.Encode(signature);
      && DecodeEffect(bytes) == Effect(true, Some("object"), Some(value), Some(signature), 29)
      && Encoding("object", Some(value), Some(signature)) == Some(bytes)
  {
    var value := Utf.Utf([0x76, 0x61, 0x6C, 0x75, 0x65]);
    var signature := Utf.Utf([0x4C, 0x6A, 0x61, 0x76, 0x61, 0x2F, 0x6C, 0x61, 0x6E, 0x67,
                              0x2F, 0x53, 0x74, 0x72, 0x69, 0x6E, 0x67, 0x3B]);
    var bytes := [0x4C] + Utf.Encode(value) + [TC_STRING] + Utf.Encode(signature);
    TablePartition();
    GetAt(TypeCodes, 9);
    CodeOfDecodedType(0x4C);
    CodeCategories(0x4C);
    assert KeyOf(TypeCodes, "object") == Some(0x4C);
    var head := [0x4C] + Utf.Encode(value);
    assert Encoding("object", Some(value), Some(signature)) == Some(head + FieldTypeEncoding(signature));
    assert head + FieldTypeEncoding(signature) == bytes;
    RoundTrip("object", value, Some(signature), []);
    assert bytes + [] == bytes;
  }

  /** A stream that starts with `X` is rejected after reading that byte alone. */
  lemma RejectsUnknownCode(rest: seq<byte>)
    ensures DecodeEffect([0x58] + rest) == Effect(false, None, None, None, 1)
  {
  }

  /** Encoding a field and decoding the bytes, followed by anything, into a
      fresh field gives the same type, name and, for object types, signature. */
  method DecodeEncoded(f: Field, rest: seq<byte>) returns (g: Field)
    requires IsTypeValid(f.typeName) && f.name.Some?
    requires IsObject(f.typeName) ==> f.fieldType.Some?
    ensures g.typeName == f.typeName && g.name == f.name
    ensures g.fieldType == if IsObject(f.typeName) then f.fieldType else None
  {
    var bytes := f.Encode();
    RoundTrip(f.typeName, f.name.value, f.fieldType, rest);
    var io := new Reader(bytes.value + rest);
    g := new Field();
    var ok := g.Decode(io);
  }
}
