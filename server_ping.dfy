/**
 * `MinecraftServerPing`: the older status ping over `java.io` streams.  It
 * writes its own VarInts and frames, and reads the response with its own
 * VarInt reader, which takes each byte as a signed `Byte` widened to an
 * `Int`.  The socket is a `DataOutputStream` that records what was written
 * and a `DataInputStream` over the bytes the server sends.
 */
module ServerPing {
  import opened Bytes
  import opened VarInt
  import opened Streams
  import opened Builder
  import opened NetworkUtils
  import opened Protocol

  /** The sign-extended byte has the same low seven bits and the same flag bit as the raw one. */
  lemma SignedStep(value: bv32, b: byte, shift: bv32)
    ensures value | ((SignExtend(b) & 0x7F) << (shift & 31)) == Accumulate(value, b, shift)
    ensures (SignExtend(b) & 0x80 == 0) == (b & 0x80 == 0)
  {}

  /**
   * `receiveStatusResponse` on the bytes from `pos`: a VarInt frame length
   * that is read and ignored, the packet id (which must be 0), the JSON
   * length (an array of negative size is refused) and that many bytes.  A
   * read past the end is an end-of-stream error, after which the stream has
   * nothing left.
   */
  function PingResponse(data: seq<byte>, pos: nat): (r: Received<seq<byte>>)
    requires pos <= |data|
    ensures pos <= r.consumed <= |data|
    ensures r.result.Ok? ==> pos + |r.result.value| <= r.consumed
    ensures r.result.Ok? ==> r.result.value == data[r.consumed - |r.result.value|..r.consumed]
  {
    match Decode(data, pos)
    case None => Received(Err(EndOfStream), |data|)
    case Some(frameLength) =>
      match Decode(data, frameLength.next)
      case None => Received(Err(EndOfStream), |data|)
      case Some(packetId) =>
        if packetId.value != 0x00 then Received(Err(UnexpectedPacketId(packetId.value)), packetId.next)
        else match Decode(data, packetId.next)
        case None => Received(Err(EndOfStream), |data|)
        case Some(jsonLength) =>
          if IsNegative(jsonLength.value) then Received(Err(NegativeSize), jsonLength.next)
          else if Length(jsonLength.value) > |data| - jsonLength.next then Received(Err(EndOfStream), |data|)
          else Received(Ok(data[jsonLength.next..jsonLength.next + Length(jsonLength.value)]),
                        jsonLength.next + Length(jsonLength.value))
  }

  lemma PingResponseFields(data: seq<byte>, pos: nat, frameLength: bv32, a: nat, b: nat, json: seq<byte>, next: nat)
    requires pos <= |data|
    requires Decode(data, pos) == Some(Decoded(frameLength, a))
    requires Decode(data, a) == Some(Decoded(0x00, b))
    requires DecodeString(data, b) == Ok(Chunk(json, next))
    ensures PingResponse(data, pos) == Received(Ok(json), next)
  {}

  /**
   * A status response as a server frames it reads back as its JSON bytes,
   * whatever the frame length says: the length is never checked.
   */
  lemma PingResponseOf(data: seq<byte>, pos: nat, frameLength: bv32, json: seq<byte>)
    requires |json| < 0x8000_0000
    requires At(data, pos, Encode(frameLength) + Encode(0x00) + StringField(json))
    ensures PingResponse(data, pos)
         == Received(Ok(json), pos + |Encode(frameLength) + Encode(0x00) + StringField(json)|)
  {
    AtSplit(data, pos, Encode(frameLength) + Encode(0x00), StringField(json));
    AtSplit(data, pos, Encode(frameLength), Encode(0x00));
    var a := pos + |Encode(frameLength)|;
    var b := a + |Encode(0x00)|;
    VarIntAt(data, pos, frameLength, a);
    VarIntAt(data, a, 0x00, b);
    StringAt(data, b, json, b + |StringField(json)|);
    PingResponseFields(data, pos, frameLength, a, b, json, b + |StringField(json)|);
  }

  /**
   * A response whose packet id, however it is encoded, is not 0 is refused
   * with that id, right after the id is read.
   */
  lemma PingWrongId(data: seq<byte>, pos: nat, frameLength: Decoded, id: Decoded)
    requires pos <= |data| && Decode(data, pos) == Some(frameLength)
    requires Decode(data, frameLength.next) == Some(id) && id.value != 0x00
    ensures PingResponse(data, pos) == Received(Err(UnexpectedPacketId(id.value)), id.next)
  {}

  class MinecraftServerPing {
    const serverAddress: seq<byte>
    const serverPort: bv32
    /** Always -1, "the latest version". */
    const protocolVersion: bv32

    constructor (serverAddress: seq<byte>, serverPort: bv32)
      ensures this.serverAddress == serverAddress && this.serverPort == serverPort
      ensures protocolVersion == 0xFFFF_FFFF
    {
      this.serverAddress := serverAddress;
      this.serverPort := serverPort;
      protocolVersion := 0xFFFF_FFFF;
    }

    /** The status handshake, built inline and framed by hand. */
    method SendHandshake(outputStream: DataOutputStream)
      modifies outputStream
      ensures outputStream.written == old(outputStream.written)
        + Frame(HandshakeBytes(HandshakePacket(protocolVersion, serverAddress, serverPort, 1)))
    {
      var b := HandshakeBuilder();
      var bytes := b.ToByteArray();
      WriteVarInt(outputStream, SizeOf(|bytes|));
      var again := b.ToByteArray();
      outputStream.Write(again);
    }

    /** The builder chain of `sendHandshake`: id 0, version, address, port, next state 1. */
    method HandshakeBuilder() returns (b: PacketBuilder)
      ensures fresh(b.dataOutputStream)
      ensures b.dataOutputStream.written == HandshakeBytes(HandshakePacket(protocolVersion, serverAddress, serverPort, 1))
    {
      var handshakePacket := new PacketBuilder();
      b := handshakePacket.WriteVarInt(0x00);
      b := b.WriteVarInt(protocolVersion);
      b := b.WriteString(serverAddress);
      b := b.WriteShort(serverPort);
      b := b.WriteVarInt(1);
    }

    /** The status request, framed by hand: exactly `[1, 0]`. */
    method SendStatusRequest(outputStream: DataOutputStream)
      modifies outputStream
      ensures outputStream.written == old(outputStream.written) + [0x01, 0x00]
    {
      var statusRequestPacket := new PacketBuilder();
      var b := statusRequestPacket.WriteVarInt(0x00);
      var bytes := b.ToByteArray();
      WriteVarInt(outputStream, SizeOf(|bytes|));
      var again := b.ToByteArray();
      outputStream.Write(again);
      StatusRequestLayout(StatusRequestPacket);
    }

    /** The JSON bytes of the status response. */
    method ReceiveStatusResponse(inputStream: DataInputStream) returns (r: Result<seq<byte>>)
      requires inputStream.Valid()
      modifies inputStream
      ensures inputStream.Valid()
      ensures r == PingResponse(inputStream.data, old(inputStream.position)).result
      ensures inputStream.position == PingResponse(inputStream.data, old(inputStream.position)).consumed
    {
      var frameLength := ReadVarInt(inputStream);
      if frameLength.Err? {
        return Err(frameLength.error);
      }
      var packetId := ReadVarInt(inputStream);
      if packetId.Err? {
        return Err(packetId.error);
      }
      if packetId.value != 0x00 {
        return Err(UnexpectedPacketId(packetId.value));
      }
      var jsonResponseLength := ReadVarInt(inputStream);
      if jsonResponseLength.Err? {
        return Err(jsonResponseLength.error);
      }
      if IsNegative(jsonResponseLength.value) {
        return Err(NegativeSize);
      }
      r := inputStream.ReadFully(Length(jsonResponseLength.value));
    }

    /** The stream `writeVarInt`: the same loop as the builder's, on the socket stream. */
    method WriteVarInt(outputStream: DataOutputStream, value: bv32)
      modifies outputStream
      ensures outputStream.written == old(outputStream.written) + Encode(value)
    {
      var remainingValue := value;
      while true
        invariant outputStream.written + Encode(remainingValue) == old(outputStream.written) + Encode(value)
        decreases remainingValue
      {
        WriterStep(remainingValue);
        if remainingValue & 0x7F == remainingValue {
          outputStream.WriteByte(remainingValue);
          return;
        }
        ghost var before := outputStream.written;
        outputStream.WriteByte((remainingValue & 0x7F) | 0x80);
        AppendAssoc(before, [LowByte((remainingValue & 0x7F) | 0x80)], Encode(remainingValue >> 7));
        remainingValue := remainingValue >> 7;
      }
    }

    /**
     * The stream `readVarInt`: bytes read as signed `Byte`s widened to
     * `Int`, seven bits at a time, until one without the flag bit.
     */
    method ReadVarInt(inputStream: DataInputStream) returns (r: Result<bv32>)
      requires inputStream.Valid()
      modifies inputStream
      ensures inputStream.Valid()
      ensures Decode(inputStream.data, old(inputStream.position)).Some? ==>
        r == Ok(Decode(inputStream.data, old(inputStream.position)).value.value)
        && inputStream.position == Decode(inputStream.data, old(inputStream.position)).value.next
      ensures Decode(inputStream.data, old(inputStream.position)).None? ==>
        r == Err(EndOfStream) && inputStream.position == |inputStream.data|
    {
      var value: bv32 := 0;
      var position: bv32 := 0;
      while true
        invariant inputStream.Valid()
        invariant DecodeFrom(inputStream.data, inputStream.position, position, value)
               == Decode(inputStream.data, old(inputStream.position))
        decreases |inputStream.data| - inputStream.position
      {
        DecodeUnfold(inputStream.data, inputStream.position, position, value);
        var read := inputStream.ReadByte();
        if read.Err? {
          return Err(read.error);
        }
        var signed := SignExtend(read.value);
        SignedStep(value, read.value, position);
        value := value | ((signed & 0x7F) << (position & 31));
        position := position + 7;
        if signed & 0x80 == 0 {
          return Ok(value);
        }
      }
    }

    /**
     * The stream reader gives back what the stream writer wrote, negative
     * values included, and reads exactly those bytes.
     */
    method WriteThenRead(value: bv32) returns (r: Result<bv32>, rest: nat)
      ensures r == Ok(value) && rest == 0
    {
      var outputStream := new DataOutputStream();
      WriteVarInt(outputStream, value);
      var inputStream := new DataInputStream(outputStream.written);
      DecodeEncode([], value, []);
      assert [] + Encode(value) + [] == outputStream.written;
      r := ReadVarInt(inputStream);
      rest := |inputStream.data| - inputStream.position;
    }
  }
}
