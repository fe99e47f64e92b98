/**
 * The string element (`Utf`) that field names and type signatures are made of.
 * The library's own string codec is not part of this model; this module stands
 * in for it with the `utf` layout of the Java Object Serialization
 * Specification: a two-byte big-endian length followed by that many bytes of
 * contents. The field codec relies only on `Decode`'s contract and on
 * `RoundTrip`.
 */
module Utf {
  import opened Wrappers
  import opened ByteIO

  /** Contents short enough for a two-byte length. */
  type ShortBytes = s: seq<byte> | |s| < 0x1_0000

  datatype Utf = Utf(contents: ShortBytes)

  /** The value of a two-byte big-endian length. */
  function Length16(hi: byte, lo: byte): (n: nat)
    ensures n < 0x1_0000
  {
    hi as int * 0x100 + lo as int
  }

  /** The bytes that represent `u` on the stream. */
  function Encode(u: Utf): (r: seq<byte>)
    ensures |r| == 2 + |u.contents|
  {
    var n := |u.contents|;
    [n / 0x100, n % 0x100] + u.contents
  }

  /** Decodes one string at the start of `s`, giving the value and the number of
      bytes it occupies, or `None` when `s` is too short to hold one. */
  function Decode(s: seq<byte>): (r: Option<(Utf, nat)>)
    ensures r.Some? ==> r.value.1 <= |s| && s[..r.value.1] == Encode(r.value.0)
  {
    if |s| < 2 then None
    else
      var n := Length16(s[0], s[1]);
      if |s| - 2 < n then None
      else Some((Utf(s[2..2 + n]), 2 + n))
  }

  /** Decoding an encoded string, whatever follows it, gives the string back
      and consumes exactly its encoding. */
  lemma RoundTrip(u: Utf, rest: seq<byte>)
    ensures Decode(Encode(u) + rest) == Some((u, |Encode(u)|))
  {
    var s := Encode(u) + rest;
    var n := |u.contents|;
    assert Length16(s[0], s[1]) == n;
    assert s[2..2 + n] == u.contents;
  }

  /** `Utf.decode(io)`: reads the length, then the contents. A failure leaves
      the cursor at the end of the stream, since every short read takes what
      is left. */
  method Read(io: Reader) returns (u: Option<Utf>)
    requires io.Valid()
    modifies io
    ensures io.Valid()
    ensures match Decode(old(io.Remaining()))
      case Some((v, k)) => u == Some(v) && io.pos == old(io.pos) + k
      case None => u == None && io.pos == |io.data|
  {
    ghost var s := io.Remaining();
    var raw := io.Read(2);
    if |raw| != 2 {
      return None;
    }
    assert io.Remaining() == s[2..];
    var length := Length16(raw[0], raw[1]);
    var contents := io.Read(length);
    if |contents| != length {
      return None;
    }
    assert contents == s[2..2 + length];
    u := Some(Utf(contents));
  }
}
