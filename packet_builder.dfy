/**
 * `PacketBuilder`: the in-memory writer every packet is assembled with.  Its
 * byte-array output stream is the `DataOutputStream` it holds, and every
 * write only appends the encoding of one field.  The field encodings
 * themselves are the functions `VarInt.Encode`, `StringField`,
 * `Streams.ShortBytes`, `Streams.LongBytes` and `Streams.BooleanByte`.
 */
module Builder {
  import opened Bytes
  import opened VarInt
  import opened Streams

  /**
   * A length-prefixed string: the VarInt of its UTF-8 byte count, then the
   * bytes.  Strings are given here by their UTF-8 bytes.
   */
  function StringField(s: seq<byte>): (r: seq<byte>)
    ensures |r| == |Encode(SizeOf(|s|))| + |s|
  {
    Encode(SizeOf(|s|)) + s
  }

  /** Bytes taken out of a buffer, and the position just after them. */
  datatype Chunk = Chunk(bytes: seq<byte>, next: nat)

  /**
   * Reading a length-prefixed string at `pos`, as `readString` does on a
   * `ByteBuffer`: the VarInt length (underflow when it is cut off), an array
   * of that length (refused when negative), and that many bytes (underflow
   * when fewer remain).
   */
  function DecodeString(buf: seq<byte>, pos: nat): (r: Result<Chunk>)
    ensures r.Ok? ==> pos + |r.value.bytes| < r.value.next <= |buf|
    ensures r.Ok? ==> r.value.bytes == buf[r.value.next - |r.value.bytes|..r.value.next]
  {
    match Decode(buf, pos)
    case None => Err(BufferUnderflow)
    case Some(d) =>
      if IsNegative(d.value) then Err(NegativeSize)
      else if Length(d.value) > |buf| - d.next then Err(BufferUnderflow)
      else Ok(Chunk(buf[d.next..d.next + Length(d.value)], d.next + Length(d.value)))
  }

  /** Where reading a string leaves the buffer position, whether it succeeds or fails. */
  function StringEnd(buf: seq<byte>, pos: nat): (n: nat)
    ensures DecodeString(buf, pos).Ok? ==> n == DecodeString(buf, pos).value.next
  {
    match Decode(buf, pos)
    case None => |buf|
    case Some(d) =>
      if IsNegative(d.value) || Length(d.value) > |buf| - d.next then d.next else d.next + Length(d.value)
  }

  /** A string field, wherever it sits, reads back as the same bytes. */
  lemma DecodeStringField(buf: seq<byte>, pos: nat, s: seq<byte>)
    requires |s| < 0x8000_0000 && At(buf, pos, StringField(s))
    ensures DecodeString(buf, pos) == Ok(Chunk(s, pos + |StringField(s)|))
  {
    AtSplit(buf, pos, Encode(SizeOf(|s|)), s);
    DecodeEncodedAt(buf, pos, SizeOf(|s|));
    SizeRoundTrip(|s|);
  }

  /** Different strings never share a string field. */
  lemma StringFieldInjective(s: seq<byte>, t: seq<byte>)
    requires |s| < 0x8000_0000 && |t| < 0x8000_0000
    requires StringField(s) == StringField(t)
    ensures s == t
  {
    AtWhole(StringField(s));
    DecodeStringField(StringField(s), 0, s);
    DecodeStringField(StringField(s), 0, t);
  }

  class PacketBuilder {
    /** The builder's stream, and through it the bytes written so far. */
    const dataOutputStream: DataOutputStream

    constructor ()
      ensures fresh(dataOutputStream) && dataOutputStream.written == []
    {
      dataOutputStream := new DataOutputStream();
    }

    /**
     * `writeVarInt(value)`: while the remaining value is wider than seven
     * bits, write its low seven bits with the continuation flag and shift
     * it right without sign; then write what is left.
     */
    method WriteVarInt(value: bv32) returns (self: PacketBuilder)
      modifies dataOutputStream
      ensures self == this
      ensures dataOutputStream.written == old(dataOutputStream.written) + Encode(value)
    {
      var remainingValue := value;
      while true
        invariant dataOutputStream.written + Encode(remainingValue) == old(dataOutputStream.written) + Encode(value)
        decreases remainingValue
      {
        WriterStep(remainingValue);
        if remainingValue & 0x7F == remainingValue {
          dataOutputStream.WriteByte(remainingValue);
          return this;
        }
        ghost var before := dataOutputStream.written;
        dataOutputStream.WriteByte((remainingValue & 0x7F) | 0x80);
        AppendAssoc(before, [LowByte((remainingValue & 0x7F) | 0x80)], Encode(remainingValue >> 7));
        remainingValue := remainingValue >> 7;
      }
    }

    /** `writeString(value)`: the VarInt of the byte count, then the bytes. */
    method WriteString(value: seq<byte>) returns (self: PacketBuilder)
      modifies dataOutputStream
      ensures self == this
      ensures dataOutputStream.written == old(dataOutputStream.written) + StringField(value)
    {
      var _ := WriteVarInt(SizeOf(|value|));
      dataOutputStream.Write(value);
      AppendAssoc(old(dataOutputStream.written), Encode(SizeOf(|value|)), value);
      return this;
    }

    method WriteShort(value: bv32) returns (self: PacketBuilder)
      modifies dataOutputStream
      ensures self == this
      ensures dataOutputStream.written == old(dataOutputStream.written) + ShortBytes(value)
    {
      dataOutputStream.WriteShort(value);
      return this;
    }

    method WriteLong(value: bv64) returns (self: PacketBuilder)
      modifies dataOutputStream
      ensures self == this
      ensures dataOutputStream.written == old(dataOutputStream.written) + LongBytes(value)
    {
      dataOutputStream.WriteLong(value);
      return this;
    }

    method WriteBoolean(value: bool) returns (self: PacketBuilder)
      modifies dataOutputStream
      ensures self == this
      ensures dataOutputStream.written == old(dataOutputStream.written) + BooleanByte(value)
    {
      dataOutputStream.WriteBoolean(value);
      return this;
    }

    /** Everything written so far, in order; the builder is left as it was. */
    method ToByteArray() returns (bytes: seq<byte>)
      ensures bytes == dataOutputStream.written
    {
      bytes := dataOutputStream.written;
    }
  }
}
