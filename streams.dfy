/**
 * The two `java.io` streams the core writes packets through and reads them
 * from, with the byte layouts of their typed writes.  A `DataOutputStream`
 * over a `ByteArrayOutputStream` (or a socket) is modelled by the bytes it
 * has written so far; a `DataInputStream` by the bytes it will deliver and
 * how many of them it has delivered.
 */
module Streams {
  import opened Bytes

  /** `writeShort(v)`: the low 16 bits of `v`, high byte first. */
  function ShortBytes(v: bv32): seq<byte> {
    [LowByte(v >> 8), LowByte(v)]
  }

  /** The byte at bit offset `shift` of a `Long`. */
  function LongByte(v: bv64, shift: bv64): byte
    requires shift < 64
  {
    ((v >> shift) & 0xFF) as byte
  }

  /** `writeLong(v)`: all 64 bits of `v`, high byte first. */
  function LongBytes(v: bv64): seq<byte> {
    [LongByte(v, 56), LongByte(v, 48), LongByte(v, 40), LongByte(v, 32),
     LongByte(v, 24), LongByte(v, 16), LongByte(v, 8), LongByte(v, 0)]
  }

  /** `writeBoolean(b)`: one byte, 1 for true and 0 for false. */
  function BooleanByte(b: bool): seq<byte> {
    [if b then 0x01 else 0x00]
  }

  /** Reading two bytes back as an unsigned 16-bit value, high byte first. */
  function JoinShort(hi: byte, lo: byte): bv32 {
    ((hi as bv32) << 8) | (lo as bv32)
  }

  /** Reading eight bytes back as a `Long`, high byte first. */
  function JoinLong(bs: seq<byte>): bv64
    requires |bs| == 8
  {
    Join8(bs[0], bs[1], bs[2], bs[3], bs[4], bs[5], bs[6], bs[7])
  }

  function Join8(b0: byte, b1: byte, b2: byte, b3: byte, b4: byte, b5: byte, b6: byte, b7: byte): bv64 {
    ((b0 as bv64) << 56) | ((b1 as bv64) << 48) | ((b2 as bv64) << 40) | ((b3 as bv64) << 32)
    | ((b4 as bv64) << 24) | ((b5 as bv64) << 16) | ((b6 as bv64) << 8) | (b7 as bv64)
  }

  lemma ShortJoin(v: bv32)
    ensures JoinShort(LowByte(v >> 8), LowByte(v)) == v & 0xFFFF
  {}

  /** `ShortBytes` is exactly two bytes that give back the low 16 bits of the value. */
  lemma ShortBytesRoundTrip(v: bv32)
    ensures |ShortBytes(v)| == 2
    ensures JoinShort(ShortBytes(v)[0], ShortBytes(v)[1]) == v & 0xFFFF
  {
    ShortJoin(v);
  }

  lemma LongJoin(v: bv64)
    ensures Join8(LongByte(v, 56), LongByte(v, 48), LongByte(v, 40), LongByte(v, 32),
                  LongByte(v, 24), LongByte(v, 16), LongByte(v, 8), LongByte(v, 0)) == v
  {}

  /** `LongBytes` is exactly eight bytes that give back the whole value. */
  lemma LongBytesRoundTrip(v: bv64)
    ensures |LongBytes(v)| == 8
    ensures JoinLong(LongBytes(v)) == v
  {
    LongJoin(v);
  }

  /** A `DataOutputStream` and the buffer or socket under it. */
  class DataOutputStream {
    var written: seq<byte>

    constructor ()
      ensures written == []
    {
      written := [];
    }

    /** `writeByte(v)`: the low 8 bits of an `Int`. */
    method WriteByte(v: bv32)
      modifies this
      ensures written == old(written) + [LowByte(v)]
    {
      written := written + [LowByte(v)];
    }

    /** `write(bytes)`. */
    method Write(bytes: seq<byte>)
      modifies this
      ensures written == old(written) + bytes
    {
      written := written + bytes;
    }

    method WriteShort(v: bv32)
      modifies this
      ensures written == old(written) + ShortBytes(v)
    {
      written := written + ShortBytes(v);
    }

    method WriteLong(v: bv64)
      modifies this
      ensures written == old(written) + LongBytes(v)
    {
      written := written + LongBytes(v);
    }

    method WriteBoolean(b: bool)
      modifies this
      ensures written == old(written) + BooleanByte(b)
    {
      written := written + BooleanByte(b);
    }
  }

  /** `Byte.toInt()`: a signed byte widened to an `Int`, copying its sign bit. */
  function SignExtend(b: byte): bv32 {
    if b & 0x80 == 0 then b as bv32 else (b as bv32) | 0xFFFF_FF00
  }

  /** A `DataInputStream` over a stream that delivers `data` and then ends. */
  class DataInputStream {
    const data: seq<byte>
    var position: nat

    ghost predicate Valid()
      reads this
    {
      position <= |data|
    }

    constructor (data: seq<byte>)
      ensures Valid() && this.data == data && position == 0
    {
      this.data := data;
      position := 0;
    }

    /** `readByte()`: the next byte (its raw bits; see `SignExtend`), or end of stream. */
    method ReadByte() returns (r: Result<byte>)
      requires Valid()
      modifies this
      ensures Valid()
      ensures old(position) < |data| ==> r == Ok(data[old(position)]) && position == old(position) + 1
      ensures old(position) == |data| ==> r == Err(EndOfStream) && position == old(position)
    {
      if position == |data| {
        return Err(EndOfStream);
      }
      r := Ok(data[position]);
      position := position + 1;
    }

    /**
     * `readFully(ByteArray(n))`: the next `n` bytes, or end of stream (after
     * which the stream has nothing left) when fewer remain.
     */
    method ReadFully(n: nat) returns (r: Result<seq<byte>>)
      requires Valid()
      modifies this
      ensures Valid()
      ensures n <= |data| - old(position) ==> r == Ok(data[old(position)..old(position) + n]) && position == old(position) + n
      ensures n > |data| - old(position) ==> r == Err(EndOfStream) && position == |data|
    {
      if n > |data| - position {
        position := |data|;
        return Err(EndOfStream);
      }
      r := Ok(data[position..position + n]);
      position := position + n;
    }
  }
}
