# Java serialization field descriptor, modelled in Dafny

This project models the field descriptor (`fieldDesc`) codec of the Rex Java
serialization library (`Rex::Java::Serialization::Model::Field`). It covers the
`primitiveDesc` and `objectDesc` forms of section 6.4.1 of the Java Object
Serialization Specification. A field descriptor is one byte of type code, then
the field name as a string element. Array and object fields then carry a
`TC_STRING` tag (0x74, section 6.4.2) and a second string, the type signature.

Files:

- `field.dfy` (module `FieldDescriptor`): the type code tables, the category
  queries and the `Field` class with `Decode`, `DecodeFieldType`, `Encode` and
  `EncodeFieldType`. Each method is proved against a pure specification:
  `DecodeEffect`, `FieldTypeDecoding`, `Encoding` and `FieldTypeEncoding`.
- `field_properties.dfy` (module `FieldProperties`): what the codec promises.
  This covers the category partition, the rejection of a bad type code, the
  primitive and object decode paths, the `TC_STRING` envelope check, the encode
  layout and rejection, and the round trip in both directions.
- `ruby_hash.dfy` (module `RubyHash`): a Ruby `Hash` as its list of entries in
  insertion order. It gives `h.keys`, `h.values`, `h.key?(k)`, `h.value?(v)`,
  `h[k]`, `h.key(v)` and `a.merge(b)`, with their laws.
- `utf.dfy` (module `Utf`): a stand-in for the library's string element.
- `byte_io.dfy` (module `ByteIO`): the input stream as a byte cursor.
- `serialization.dfy` (module `Serialization`): the shared `TC_STRING` constant.
- `wrappers.dfy` (module `Wrappers`): `Option`.
- `seqs.dfy` (module `Seqs`): facts about slices of concatenated sequences,
  used by the byte-layout proofs.

Modelling choices:

- Every Ruby `RuntimeError` is one failure outcome. `Decode` returns
  `ok == false` and `Encode` returns `None`. The code has one exception kind,
  so the model does not split errors into kinds.
- `decode` is not transactional. `DecodeEffect` records which attributes one
  call assigns; `None` means the attribute keeps its old value. It also records
  how many bytes the call reads. The type is assigned before the name is read,
  so a failure after that point leaves the new type in place. A primitive
  decode never assigns `field_type`, so an older value stays.
- Type codes are bytes (`'B'` is 0x42, and so on). Type names are strings.
- The tables are defined as the primitive table followed by the object table.
  `TypeCodesIsMerge` proves that this equals the Ruby `merge` of the two
  tables.
- `encode` on a field whose `name` is `nil`, or on an object field whose
  `field_type` is `nil`, calls `encode` on `nil`. The source has no check for
  this. The model makes these states preconditions of `Encoding` and
  `Field.Encode`: a valid type needs a name, and an object type needs a
  signature. The type check comes first, as in the source, so an invalid type
  still fails without these preconditions.

## Model

| member | source | states |
|---|---|---|
| `FieldDescriptor.TableContents` | lib/rex/java/serialization/model/field.rb:9-23 | the primitive table maps `B C D F I J S Z` to byte, char, double, float, integer, long, short, boolean; the object table maps `[` and `L` to array and object, in that order |
| `FieldDescriptor.TypeCodesIsMerge` | lib/rex/java/serialization/model/field.rb:25 | merging the primitive and object tables lays them end to end, because their keys are disjoint |
| `FieldDescriptor.UniqueCodes` | lib/rex/java/serialization/model/field.rb:9-25 | no code occurs twice in `TYPE_CODES` |
| `FieldDescriptor.UniqueTypeNames` | lib/rex/java/serialization/model/field.rb:9-25 | no type name occurs twice in `TYPE_CODES` |
| `FieldDescriptor.TablePartition` | lib/rex/java/serialization/model/field.rb:9-25 | the two tables have disjoint keys and disjoint values; the merged table has ten entries with distinct keys and distinct values |
| `FieldDescriptor.IsTypeValid` | lib/rex/java/serialization/model/field.rb:88-94 | `is_type_valid?`: the type is one of the values of `TYPE_CODES` |
| `FieldDescriptor.IsPrimitive` | lib/rex/java/serialization/model/field.rb:99-105 | `is_primitive?`: the type is one of the values of `PRIMITIVE_TYPE_CODES` |
| `FieldDescriptor.IsObject` | lib/rex/java/serialization/model/field.rb:110-116 | `is_object?`: the type is one of the values of `OBJECT_TYPE_CODES` |
| `FieldDescriptor.IsValidCode` | lib/rex/java/serialization/model/field.rb:124-130 | `is_valid?(code)`: the code is one of the keys of `TYPE_CODES` |
| `FieldDescriptor.FieldTypeEncoding` | lib/rex/java/serialization/model/field.rb:135-140 | the `TC_STRING` byte followed by the encoded signature, one byte longer than the signature's encoding |
| `FieldDescriptor.CodeOfDecodedType` | lib/rex/java/serialization/model/field.rb:55-75 | for every valid code `c`, `TYPE_CODES.key(TYPE_CODES[c]) == c`: the type `decode` assigns encodes back to the code it read |
| `FieldDescriptor.TypeOfEncodedCode` | lib/rex/java/serialization/model/field.rb:55-75 | for every valid type name `t`, `TYPE_CODES.key(t)` exists and `TYPE_CODES[TYPE_CODES.key(t)] == t`: the code `encode` writes decodes back to the type |
| `FieldDescriptor.FieldTypeDecoding` | lib/rex/java/serialization/model/field.rb:147-155 | `decode_field_type` fails, after reading at most one byte, when the tag is missing or is not `TC_STRING`; a signature it returns is exactly what `encode_field_type` writes for it, and it reads no further |
| `FieldDescriptor.DecodeEffect` | lib/rex/java/serialization/model/field.rb:48-63 | `decode` reads no more than the input; when it succeeds it has set a valid type and a name, and it has set `field_type` exactly when the type is an object type |
| `FieldDescriptor.Encoding` | lib/rex/java/serialization/model/field.rb:69-83 | `encode` succeeds exactly when the type is one of the ten type names; its first byte is a valid code that maps back to the type |
| `FieldDescriptor.Field.constructor` | lib/rex/java/serialization/model/field.rb:37-41 | a new field has the empty type and no name or signature |
| `FieldDescriptor.Field.Decode` | lib/rex/java/serialization/model/field.rb:48-63 | the outcome, the cursor advance and the new `type`, `name` and `field_type` are as `DecodeEffect` gives them for the unread bytes; an attribute it does not assign keeps its old value |
| `FieldDescriptor.Field.DecodeFieldType` | lib/rex/java/serialization/model/field.rb:147-155 | the returned signature and the cursor advance are as `FieldTypeDecoding` gives them; the field itself is not changed |
| `FieldDescriptor.Field.Encode` | lib/rex/java/serialization/model/field.rb:69-83 | the bytes built by appending the code, the name and, for object types, the tagged signature are `Encoding` of the field's attributes |
| `FieldDescriptor.Field.EncodeFieldType` | lib/rex/java/serialization/model/field.rb:135-140 | `encode_field_type` gives the `TC_STRING` byte followed by the encoded signature |
| `FieldProperties.Categories` | lib/rex/java/serialization/model/field.rb:88-116 | `is_primitive?` and `is_object?` never both hold, and `is_type_valid?` holds exactly when one of them does |
| `FieldProperties.TypeNames` | lib/rex/java/serialization/model/field.rb:88-94 | `is_type_valid?` holds for exactly the ten type names |
| `FieldProperties.CodeCategories` | lib/rex/java/serialization/model/field.rb:120-130 | `is_valid?(code)` holds exactly for the bytes of `B C D F I J S Z [ L`, and a valid code gives an object type exactly when it is `[` or `L` |
| `FieldProperties.BadDiscriminant` | lib/rex/java/serialization/model/field.rb:48-55 | `decode` fails on an exhausted stream or a first byte that is not a code, reads at most that one byte and assigns nothing; otherwise it assigns `TYPE_CODES[code]` as the type |
| `FieldProperties.PrimitiveDecode` | lib/rex/java/serialization/model/field.rb:55-60 | for a primitive code, `decode` succeeds exactly when the name decodes; it assigns the name, reads the code byte and the name only, and never assigns `field_type` |
| `FieldProperties.EnvelopeCheck` | lib/rex/java/serialization/model/field.rb:147-154 | for an object code with a valid name, `decode` succeeds exactly when the next byte is present, equals `TC_STRING` and a signature follows; the signature is assigned, and a wrong tag fails after reading the tag byte alone |
| `FieldProperties.FieldTypeRoundTrip` | lib/rex/java/serialization/model/field.rb:135-155 | `decode_field_type` reads back what `encode_field_type` wrote, whatever follows, and consumes exactly those bytes |
| `FieldProperties.EncodeRejection` | lib/rex/java/serialization/model/field.rb:69-72 | `encode` fails exactly when the type is neither primitive nor object |
| `FieldProperties.NewFieldNotEncodable` | lib/rex/java/serialization/model/field.rb:37-72 | a new field, whose type is the empty string, is not of a valid type and `encode` fails on it |
| `FieldProperties.EncodeLayout` | lib/rex/java/serialization/model/field.rb:74-82 | the encoded bytes are the code of the type, then the encoded name, then, for object types only, `TC_STRING` and the encoded signature; a primitive encoding ends after the name |
| `FieldProperties.EncodeIgnoresPrimitiveFieldType` | lib/rex/java/serialization/model/field.rb:78-80 | for a primitive type, `encode` gives the same bytes whatever `field_type` holds |
| `FieldProperties.RoundTrip` | lib/rex/java/serialization/model/field.rb:48-83 | decoding the bytes of `encode`, followed by any bytes, succeeds; it restores the type, the name and, for object types, the signature, and consumes exactly the encoded length |
| `FieldProperties.DecodeThenEncode` | lib/rex/java/serialization/model/field.rb:48-83 | encoding what a successful `decode` assigned reproduces exactly the bytes it consumed |
| `FieldProperties.IntegerFieldExample` | lib/rex/java/serialization/model/field.rb:48-83 | the field `integer count` decodes from `I` and its name, and encodes back to the same bytes |
| `FieldProperties.ObjectFieldExample` | lib/rex/java/serialization/model/field.rb:48-83 | the field `object value` with signature `Ljava/lang/String;` decodes from `L`, its name, `TC_STRING` and the signature (29 bytes), and encodes back to the same bytes |
| `FieldProperties.RejectsUnknownCode` | lib/rex/java/serialization/model/field.rb:49-53 | a stream that starts with `X` fails after one byte, with nothing assigned |
| `FieldProperties.DecodeEncoded` | lib/rex/java/serialization/model/field.rb:48-83 | encoding a valid field object and decoding the bytes into a new field gives the same type and name, and the signature for object types |
| `RubyHash.Get` | lib/rex/java/serialization/model/field.rb:55 | `TYPE_CODES[code]` is present exactly when `code` is a key, and is a value stored under it |
| `RubyHash.KeyOf` | lib/rex/java/serialization/model/field.rb:75 | `TYPE_CODES.key(type)` is present exactly when `type` is a value, and is a key stored with it |
| `RubyHash.KeysMember` | lib/rex/java/serialization/model/field.rb:125 | `h.keys.include?(k)` holds exactly when some entry of `h` has key `k` |
| `RubyHash.ValuesMember` | lib/rex/java/serialization/model/field.rb:89 | `h.values.include?(v)` holds exactly when some entry of `h` holds `v` |
| `RubyHash.KeyOfFirst` | lib/rex/java/serialization/model/field.rb:75 | `h.key(v)` is the key of the first entry holding `v`: no earlier entry holds `v` |
| `RubyHash.Keys` | lib/rex/java/serialization/model/field.rb:125 | `h.keys` has one element per entry, the entry's key, in insertion order |
| `RubyHash.Values` | lib/rex/java/serialization/model/field.rb:89-111 | `h.values` has one element per entry, the entry's value, in insertion order |
| `RubyHash.HasKey` | lib/rex/java/serialization/model/field.rb:125 | `h.key?(k)`: some entry has key `k` |
| `RubyHash.HasValue` | lib/rex/java/serialization/model/field.rb:89-111 | `h.value?(v)`: some entry holds `v` |
| `RubyHash.Merge` | lib/rex/java/serialization/model/field.rb:25 | `a.merge(b)`: the entries of `a`, each with `b`'s value when `b` has its key, then the entries of `b` whose keys `a` lacks |
| `RubyHash.GetAt` | lib/rex/java/serialization/model/field.rb:55 | in a hash without repeated keys, looking up an entry's key gives that entry's value |
| `RubyHash.KeyOfGet` | lib/rex/java/serialization/model/field.rb:55-75 | in a hash without repeated values, `h.key(h[k]) == k` |
| `RubyHash.GetKeyOf` | lib/rex/java/serialization/model/field.rb:55-75 | in a hash without repeated keys, `h[h.key(v)] == v` |
| `RubyHash.MergeGet` | lib/rex/java/serialization/model/field.rb:25 | `a.merge(b)[k]` is `b[k]` when `b` has `k`, and `a[k]` otherwise |
| `RubyHash.MergeDisjoint` | lib/rex/java/serialization/model/field.rb:25 | merging hashes with disjoint keys gives the first hash's entries followed by the second's |
| `ByteIO.Reader.ReadByte` | lib/rex/java/serialization/model/field.rb:49 | `io.read(1)` gives the next byte and advances by one, or gives nothing at the end of the stream and does not move |
| `Utf.Encode` | lib/rex/java/serialization/model/field.rb:76 | a string is written as its two-byte length followed by its contents, two bytes longer than the contents |
| `Utf.Decode` | lib/rex/java/serialization/model/field.rb:56 | a decoded string occupies exactly the bytes of its own encoding at the start of the input |
| `Utf.RoundTrip` | lib/rex/java/serialization/model/field.rb:56-76 | decoding an encoded string followed by any bytes gives the string back and consumes exactly its encoding |
| `Utf.Read` | lib/rex/java/serialization/model/field.rb:56 | `Utf.decode(io)` returns the string `Decode` finds in the unread bytes and advances past it; when there is none it fails |

## Left out

- The library's string element (`Utf`) is not part of this model. `utf.dfy`
  stands in for it with the `utf` layout of the Java Object Serialization
  Specification: a two-byte big-endian length, then the contents. The contents
  are limited to fewer than 65536 bytes. The field codec relies only on
  `Utf.Decode`'s contract and on `Utf.RoundTrip`. Modified UTF-8 and character
  validity are not modelled.
- `Utf.Read`: when a string cannot be decoded, the stand-in leaves the cursor at
  the end of the stream, because every short read takes what is left.
  `DecodeEffect` therefore counts all remaining bytes as consumed after a
  failed string. This is a property of the stand-in, not of the library.
- The `Element` base class and Ruby `IO` are not part of this model. The stream
  is reduced to a byte cursor (`ByteIO.Reader`) with bounded reads.
- `TC_REFERENCE`: the standard also allows a back-reference in place of the
  type signature string. The code accepts only `TC_STRING`, and so does the
  model.
- Exception classes and message texts are not modelled. Every failure is one
  outcome.
- `FieldDescriptor.Encoding`: requires a name for a valid type, and a signature
  for an object type. The source crashes on `nil` in those states, so the model
  excludes them instead of producing an outcome for them.
- `FieldDescriptor.Field.Encode`: has the same preconditions as `Encoding`, for
  the same reason.
- The `type` attribute holds only strings in the model. Ruby would let any
  object be assigned to it; such a value fails `is_type_valid?` just as an
  unknown string does.
- The invariant that `field_type` is set exactly for object types is not
  enforced by the code, so the model does not enforce it either. A primitive
  decode leaves an older `field_type` in place, and `encode` ignores it for
  primitive types (`EncodeIgnoresPrimitiveFieldType`).
- `modules/payloads/singles/windows/meterpreter_bind_tcp.rb` is payload
  configuration (datastore options, handler and session wiring). It has no
  field descriptor logic and is not modelled.
