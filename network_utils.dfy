/**
 * The buffer and socket helpers of `util/NetworkUtils.kt`: VarInt reading
 * from a byte buffer and from a socket, VarInt encoding into a five-byte
 * buffer, zlib decompression to a declared length, reading a buffer to
 * completion and sending a length-prefixed packet.
 *
 * The asynchronous socket is a `Channel`: a fixed sequence of bytes the peer
 * will send, how many of them have been consumed, and every byte written so
 * far.  A single socket read or write may move fewer bytes than asked for;
 * `readChunk` and `writeChunk` bound how many it moves.
 */
module NetworkUtils {
  import opened Bytes
  import opened VarInt

  /** A packet as `sendPacket` puts it on the wire: its length as a VarInt, then its bytes. */
  function Frame(packet: seq<byte>): seq<byte> {
    Encode(SizeOf(|packet|)) + packet
  }

  /** Several packets sent one after the other. */
  function Framed(packets: seq<seq<byte>>): seq<byte> {
    if |packets| == 0 then [] else Framed(packets[..|packets| - 1]) + Frame(packets[|packets| - 1])
  }

  lemma FramedAppend(packets: seq<seq<byte>>, packet: seq<byte>)
    ensures Framed(packets + [packet]) == Framed(packets) + Frame(packet)
  {
    assert (packets + [packet])[..|packets|] == packets;
  }

  /** A frame starts with the packet's length, and the packet follows it. */
  lemma FrameDecode(packet: seq<byte>, rest: seq<byte>)
    requires |packet| < 0x8000_0000
    ensures var buf := Frame(packet) + rest;
      Decode(buf, 0) == Some(Decoded(SizeOf(|packet|), |Encode(SizeOf(|packet|))|))
      && buf[|Encode(SizeOf(|packet|))|..][..|packet|] == packet
      && !IsNegative(SizeOf(|packet|)) && Length(SizeOf(|packet|)) == |packet|
  {
    var n := SizeOf(|packet|);
    DecodeEncode([], n, packet + rest);
    assert [] + Encode(n) + (packet + rest) == Frame(packet) + rest;
    SizeRoundTrip(|packet|);
    var buf := Frame(packet) + rest;
    assert buf[|Encode(n)|..] == packet + rest;
  }

  /** What reading from the peer yields, and how much of its input has been consumed by then. */
  datatype Received<T> = Received(result: Result<T>, consumed: nat)

  /**
   * Reading one frame at `consumed`, as the login probe and the status query
   * do: the length VarInt (end of stream when the input stops inside it), a
   * buffer of that length (refused when negative) and, filling it, that many
   * bytes (end of stream when fewer remain, all of the rest consumed).
   */
  function IncomingFrame(input: seq<byte>, consumed: nat): (r: Received<seq<byte>>)
    requires consumed <= |input|
    ensures consumed <= r.consumed <= |input|
    ensures r.result.Ok? ==> consumed + |r.result.value| < r.consumed
    ensures r.result.Ok? ==> r.result.value == input[r.consumed - |r.result.value|..r.consumed]
  {
    match Decode(input, consumed)
    case None => Received(Err(EndOfStream), |input|)
    case Some(d) =>
      if IsNegative(d.value) then Received(Err(NegativeSize), d.next)
      else if Length(d.value) > |input| - d.next then Received(Err(EndOfStream), |input|)
      else Received(Ok(input[d.next..d.next + Length(d.value)]), d.next + Length(d.value))
  }

  /** A frame that was sent reads back as its packet, and reading stops right after it. */
  lemma IncomingFrameOf(input: seq<byte>, pos: nat, packet: seq<byte>)
    requires |packet| < 0x8000_0000 && At(input, pos, Frame(packet))
    ensures IncomingFrame(input, pos) == Received(Ok(packet), pos + |Frame(packet)|)
  {
    AtSplit(input, pos, Encode(SizeOf(|packet|)), packet);
    DecodeAt(input, pos, SizeOf(|packet|));
    SizeRoundTrip(|packet|);
  }

  /**
   * `encodeVarInt`: fills a five-byte buffer group by group and hands back
   * the bytes written (the buffer after `flip`).
   */
  method EncodeVarInt(value: bv32) returns (encoded: seq<byte>)
    ensures encoded == Encode(value)
  {
    var buffer := new byte[5];
    var count := 0;
    var remaining := value;
    EncodeSize(value);
    while true
      invariant count + |Encode(remaining)| == |Encode(value)| <= 5
      invariant buffer[..count] + Encode(remaining) == Encode(value)
      decreases 5 - count
    {
      ghost var written := buffer[..count];
      ghost var rest := remaining;
      EncodeUnfold(remaining);
      var temp := (remaining & 0x7F) as byte;
      remaining := remaining >> 7;
      if remaining != 0 {
        temp := temp | 0x80;
      }
      ghost var tail := if remaining == 0 then [] else Encode(remaining);
      assert Encode(rest) == [temp] + tail;
      buffer[count] := temp;
      assert buffer[..count + 1] == written + [temp];
      count := count + 1;
      AppendAssoc(written, [temp], tail);
      if remaining == 0 {
        break;
      }
    }
    encoded := buffer[..count];
  }

  /** The sequence `out` cut or zero-padded to exactly `n` bytes. */
  function Fit(out: seq<byte>, n: nat): (r: seq<byte>)
    ensures |r| == n
    ensures forall i | 0 <= i < n :: r[i] == if i < |out| then out[i] else 0
  {
    if |out| >= n then out[..n] else out + Zeros(n - |out|)
  }

  /**
   * One `Inflater.inflate` call (RFC 1950) into an `n`-byte array: the at
   * most `n` bytes it writes before the input runs out or the array is full,
   * or `None` when it meets a format error first. Input that ends early is
   * not an error, and bytes past the first `n` output bytes are never looked at.
   */
  type Inflate = (seq<byte>, nat) -> Option<seq<byte>>

  /**
   * `decompressZlib`: inflates into a fresh array of `expectedLength` bytes.
   * A single `inflate` call fills the array as far as it gets, so a short
   * output leaves zeros at the end; the length actually produced is never
   * compared with the declared length.
   */
  function DecompressZlib(inflate: Inflate, data: seq<byte>, expectedLength: bv32): (r: Result<seq<byte>>)
    ensures r.Ok? <==> !IsNegative(expectedLength) && inflate(data, Length(expectedLength)).Some?
    ensures r.Ok? ==> |r.value| == Length(expectedLength)
    ensures IsNegative(expectedLength) ==> r == Err(NegativeSize)
    ensures !IsNegative(expectedLength) && inflate(data, Length(expectedLength)).None? ==> r == Err(DecompressionFailure)
  {
    if IsNegative(expectedLength) then Err(NegativeSize)
    else
      match inflate(data, Length(expectedLength))
      case None => Err(DecompressionFailure)
      case Some(out) => Ok(Fit(out, Length(expectedLength)))
  }

  /**
   * What decompression produces is the inflated output, zero-padded: it
   * agrees with that output wherever the output has a byte, and is zero after it.
   */
  lemma DecompressKeepsInflated(inflate: Inflate, data: seq<byte>, expectedLength: bv32)
    requires DecompressZlib(inflate, data, expectedLength).Ok?
    ensures var out := DecompressZlib(inflate, data, expectedLength).value;
      var inflated := inflate(data, Length(expectedLength)).value;
      forall i | 0 <= i < |out| :: out[i] == if i < |inflated| then inflated[i] else 0
  {}

  /** A heap `java.nio.ByteBuffer` over fixed contents, read through its position. */
  class ByteBuffer {
    const data: seq<byte>
    var position: nat

    ghost predicate Valid()
      reads this
    {
      position <= |data|
    }

    /** `ByteBuffer.wrap` (and a filled buffer after `flip`). */
    constructor Wrap(data: seq<byte>)
      ensures Valid() && this.data == data && position == 0
    {
      this.data := data;
      position := 0;
    }

    function Remaining(): (n: nat)
      requires Valid()
      reads this
      ensures position + n == |data|
    {
      |data| - position
    }

    /** `get()`: the next byte, or a buffer underflow when none is left. */
    method GetByte() returns (r: Result<byte>)
      requires Valid()
      modifies this
      ensures Valid()
      ensures old(position) < |data| ==> r == Ok(data[old(position)]) && position == old(position) + 1
      ensures old(position) == |data| ==> r == Err(BufferUnderflow) && position == old(position)
    {
      if position == |data| {
        return Err(BufferUnderflow);
      }
      r := Ok(data[position]);
      position := position + 1;
    }

    /** `get(ByteArray(n))`: the next `n` bytes, all of them or none. */
    method Get(n: nat) returns (r: Result<seq<byte>>)
      requires Valid()
      modifies this
      ensures Valid()
      ensures n <= old(Remaining()) ==> r == Ok(data[old(position)..old(position) + n]) && position == old(position) + n
      ensures n > old(Remaining()) ==> r == Err(BufferUnderflow) && position == old(position)
    {
      if n > Remaining() {
        return Err(BufferUnderflow);
      }
      r := Ok(data[position..position + n]);
      position := position + n;
    }

    /** `slice()`: a new buffer over the bytes not yet read. */
    method Slice() returns (b: ByteBuffer)
      requires Valid()
      ensures fresh(b) && b.Valid()
      ensures b.data == data[position..] && b.position == 0
    {
      b := new ByteBuffer.Wrap(data[position..]);
    }

    /**
     * `ByteBuffer.readVarInt`: the VarInt at the current position.  When the
     * buffer ends before the last byte of the VarInt, the bytes read so far
     * stay consumed.
     */
    method ReadVarInt() returns (r: Result<bv32>)
      requires Valid()
      modifies this
      ensures Valid()
      ensures Decode(data, old(position)).Some? ==>
        r == Ok(Decode(data, old(position)).value.value) && position == Decode(data, old(position)).value.next
      ensures Decode(data, old(position)).None? ==> r == Err(BufferUnderflow) && position == |data|
    {
      var value: bv32 := 0;
      var shift: bv32 := 0;
      while true
        invariant Valid()
        invariant DecodeFrom(data, position, shift, value) == Decode(data, old(position))
        decreases |data| - position
      {
        DecodeUnfold(data, position, shift, value);
        var currentByte := GetByte();
        if currentByte.Err? {
          return Err(currentByte.error);
        }
        var b := currentByte.value;
        AccumulateStep(value, b, shift);
        value := value | (((b & 0x7F) as bv32) << (shift & 31));
        shift := shift + 7;
        if b & 0x80 == 0 {
          return Ok(value);
        }
      }
    }
  }

  function Min(a: nat, b: nat): nat {
    if a <= b then a else b
  }

  /** An open `AsynchronousSocketChannel` and its peer. */
  class Channel {
    /** Every byte the peer sends, in order. */
    const input: seq<byte>
    /** How many of them have been read. */
    var consumed: nat
    /** Every byte written to the peer so far. */
    var output: seq<byte>
    /** The most bytes one socket read delivers. */
    const readChunk: nat
    /** The most bytes one socket write accepts. */
    const writeChunk: nat

    ghost predicate Valid()
      reads this
    {
      consumed <= |input| && 1 <= readChunk && 1 <= writeChunk
    }

    constructor (input: seq<byte>, readChunk: nat, writeChunk: nat)
      requires 1 <= readChunk && 1 <= writeChunk
      ensures Valid()
      ensures this.input == input && consumed == 0 && output == []
      ensures this.readChunk == readChunk && this.writeChunk == writeChunk
    {
      this.input := input;
      consumed := 0;
      output := [];
      this.readChunk := readChunk;
      this.writeChunk := writeChunk;
    }

    /**
     * One `read(buffer).get()` into `buffer[from..]`: -1 at the end of the
     * stream, otherwise at least one byte and at most `readChunk`.  Callers
     * may rely on nothing more about the count, so what they prove holds for
     * every way the socket splits the stream.
     */
    method Read(buffer: array<byte>, from: nat) returns (bytesRead: int)
      requires Valid() && from < buffer.Length
      modifies this, buffer
      ensures Valid() && output == old(output)
      ensures old(consumed) == |input| ==>
        bytesRead == -1 && consumed == old(consumed) && buffer[..] == old(buffer[..])
      ensures old(consumed) < |input| ==>
        1 <= bytesRead <= Min(Min(readChunk, buffer.Length - from), |input| - old(consumed)) && consumed == old(consumed) + bytesRead
        && buffer[..] == old(buffer[..from]) + input[old(consumed)..consumed] + old(buffer[from + bytesRead..])
    {
      if consumed == |input| {
        return -1;
      }
      var n := Min(Min(readChunk, buffer.Length - from), |input| - consumed);
      forall i | from <= i < from + n {
        buffer[i] := input[consumed + i - from];
      }
      consumed := consumed + n;
      bytesRead := n;
      assert buffer[..] == old(buffer[..from]) + input[old(consumed)..consumed] + old(buffer[from + bytesRead..]);
    }

    /** One `write(buffer).get()` of `buffer[from..]`: at least one byte and at most `writeChunk`. */
    method Write(buffer: array<byte>, from: nat) returns (written: nat)
      requires Valid() && from < buffer.Length
      modifies this
      ensures Valid() && consumed == old(consumed)
      ensures 1 <= written <= Min(writeChunk, buffer.Length - from)
      ensures output == old(output) + buffer[from..from + written]
    {
      written := Min(writeChunk, buffer.Length - from);
      output := output + buffer[from..from + written];
    }

    /**
     * `readFully`: reads until `buffer` is full, failing with end of stream
     * when the peer has sent too few bytes.
     */
    method ReadFully(buffer: array<byte>) returns (r: Outcome)
      requires Valid()
      modifies this, buffer
      ensures Valid() && output == old(output)
      ensures buffer.Length <= |input| - old(consumed) ==>
        r == Pass && consumed == old(consumed) + buffer.Length && buffer[..] == input[old(consumed)..consumed]
      ensures buffer.Length > |input| - old(consumed) ==>
        r == Fail(EndOfStream) && consumed == |input| && buffer[..|input| - old(consumed)] == input[old(consumed)..]
    {
      var filled := 0;
      while filled < buffer.Length
        invariant Valid() && output == old(output)
        invariant filled <= buffer.Length && consumed == old(consumed) + filled
        invariant buffer[..filled] == input[old(consumed)..consumed]
        decreases buffer.Length - filled
      {
        var bytesRead := Read(buffer, filled);
        if bytesRead == -1 {
          return Fail(EndOfStream);
        }
        assert buffer[..filled + bytesRead] == buffer[..filled] + buffer[filled..filled + bytesRead];
        filled := filled + bytesRead;
      }
      assert buffer[..] == buffer[..filled];
      return Pass;
    }

    /**
     * The socket `readVarInt`: the VarInt read one byte at a time through a
     * one-byte buffer.
     */
    method ReadVarInt() returns (r: Result<bv32>)
      requires Valid()
      modifies this
      ensures Valid() && output == old(output)
      ensures Decode(input, old(consumed)).Some? ==>
        r == Ok(Decode(input, old(consumed)).value.value) && consumed == Decode(input, old(consumed)).value.next
      ensures Decode(input, old(consumed)).None? ==> r == Err(EndOfStream) && consumed == |input|
    {
      var value: bv32 := 0;
      var shift: bv32 := 0;
      var buffer := new byte[1];
      while true
        invariant Valid() && output == old(output)
        invariant DecodeFrom(input, consumed, shift, value) == Decode(input, old(consumed))
        decreases |input| - consumed
      {
        DecodeUnfold(input, consumed, shift, value);
        ghost var before := consumed;
        var o := ReadFully(buffer);
        if o.Fail? {
          return Err(o.error);
        }
        var currentByte := buffer[0];
        assert currentByte == input[before];
        AccumulateStep(value, currentByte, shift);
        value := value | (((currentByte & 0x7F) as bv32) << (shift & 31));
        shift := shift + 7;
        if currentByte & 0x80 == 0 {
          return Ok(value);
        }
      }
    }

    /**
     * `sendPacket`: the length prefix and the packet copied into one buffer,
     * then written until nothing of it remains.
     */
    method SendPacket(packet: seq<byte>)
      requires Valid()
      modifies this
      ensures Valid() && consumed == old(consumed)
      ensures output == old(output) + Frame(packet)
    {
      var lengthBuffer := EncodeVarInt(SizeOf(|packet|));
      var frame := lengthBuffer + packet;
      var buffer := new byte[|frame|](i requires 0 <= i < |frame| => frame[i]);
      var position := 0;
      while position < buffer.Length
        invariant Valid() && consumed == old(consumed)
        invariant position <= buffer.Length && buffer[..] == frame
        invariant output == old(output) + buffer[..position]
        decreases buffer.Length - position
      {
        var written := Write(buffer, position);
        assert buffer[..position + written] == buffer[..position] + buffer[position..position + written];
        AppendAssoc(old(output), buffer[..position], buffer[position..position + written]);
        position := position + written;
      }
      assert buffer[..position] == frame;
    }
  }
}
