/**
 * The input stream a decoder reads from, reduced to a byte cursor: the bytes
 * of the stream and the position of the next unread byte.
 */
module ByteIO {
  import opened Wrappers

  /** An octet of the stream. */
  type byte = b: int | 0 <= b < 0x100

  class Reader {
    const data: seq<byte>
    var pos: nat

    ghost predicate Valid()
      reads this
    {
      pos <= |data|
    }

    /** The bytes not yet read. */
    ghost function Remaining(): seq<byte>
      reads this
      requires Valid()
    {
      data[pos..]
    }

    constructor (data: seq<byte>)
      ensures Valid() && this.data == data && pos == 0
    {
      this.data := data;
      pos := 0;
    }

    /** `io.read(1)`: the next byte, or `nil` when the stream is exhausted. */
    method ReadByte() returns (b: Option<byte>)
      requires Valid()
      modifies this
      ensures Valid()
      ensures b == if old(pos) < |data| then Some(data[old(pos)]) else None
      ensures pos == old(pos) + (if b.Some? then 1 else 0)
    {
      if pos < |data| {
        b := Some(data[pos]);
        pos := pos + 1;
      } else {
        b := None;
      }
    }

    /** `io.read(n)`: up to `n` bytes, fewer when the stream ends first. */
    method Read(n: nat) returns (bytes: seq<byte>)
      requires Valid()
      modifies this
      ensures Valid()
      ensures bytes == if n <= |old(Remaining())| then old(Remaining())[..n] else old(Remaining())
      ensures pos == old(pos) + |bytes|
    {
      if pos + n <= |data| {
        bytes := data[pos..pos + n];
      } else {
        bytes := data[pos..];
      }
      pos := pos + |bytes|;
    }
  }
}
