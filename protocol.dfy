/**
 * The five packets the client sends, each a fixed sequence of field
 * encodings after its packet id.  `HandshakeBytes`, `StatusRequestBytes`,
 * `LoginStartBytes`, `LoginPluginResponseBytes` and `CookieResponseBytes`
 * give the bytes of each packet's `toByteArray`; the methods beside them
 * assemble the same bytes through a `PacketBuilder`, as the packet classes
 * do.  Strings are given by their UTF-8 bytes.
 */
module Protocol {
  import opened Bytes
  import opened VarInt
  import opened Streams
  import opened Builder
  import opened NetworkUtils

  lemma IdByte(id: bv32)
    requires id < 0x80
    ensures Encode(id) == [id as byte] && |Encode(id)| == 1
  {
    EncodeSmall(id);
  }

  // ---------------------------------------------------------------------
  // Handshake (id 0x00, handshaking state)

  datatype HandshakePacket = HandshakePacket(protocolVersion: bv32, address: seq<byte>, port: bv32, nextState: bv32)

  function HandshakeBytes(p: HandshakePacket): (r: seq<byte>)
    ensures |r| == 1 + |Encode(p.protocolVersion)| + |Encode(SizeOf(|p.address|))| + |p.address| + 2 + |Encode(p.nextState)|
  {
    IdByte(0x00);
    Encode(0x00) + Encode(p.protocolVersion) + StringField(p.address) + ShortBytes(p.port) + Encode(p.nextState)
  }

  method HandshakeToByteArray(p: HandshakePacket) returns (bytes: seq<byte>)
    ensures bytes == HandshakeBytes(p)
  {
    var builder := new PacketBuilder();
    var b := builder.WriteVarInt(0x00);
    b := b.WriteVarInt(p.protocolVersion);
    b := b.WriteString(p.address);
    b := b.WriteShort(p.port);
    b := b.WriteVarInt(p.nextState);
    bytes := b.ToByteArray();
  }

  /**
   * How a server reads a handshake: the id 0x00, the protocol version, the
   * address, two bytes of port and the next state, with nothing left over.
   * The port comes back as the unsigned 16-bit value on the wire.
   */
  function ReadHandshake(buf: seq<byte>): Option<HandshakePacket> {
    match Decode(buf, 0)
    case None => None
    case Some(id) =>
      if id.value != 0x00 then None
      else match Decode(buf, id.next)
      case None => None
      case Some(version) =>
        match DecodeString(buf, version.next)
        case Err(_) => None
        case Ok(address) =>
          if |buf| - address.next < 2 then None
          else match Decode(buf, address.next + 2)
          case None => None
          case Some(state) =>
            if state.next != |buf| then None
            else Some(HandshakePacket(version.value, address.bytes,
                                      JoinShort(buf[address.next], buf[address.next + 1]), state.value))
  }

  /** Reading a handshake back recovers every field, the port modulo 2^16. */
  lemma ReadHandshakeBytes(p: HandshakePacket)
    requires |p.address| < 0x8000_0000
    ensures ReadHandshake(HandshakeBytes(p)) == Some(p.(port := p.port & 0xFFFF))
  {
    var buf := HandshakeBytes(p);
    var id, version, address, port, state :=
      Encode(0x00), Encode(p.protocolVersion), StringField(p.address), ShortBytes(p.port), Encode(p.nextState);
    IdByte(0x00);
    AtWhole(buf);
    AtSplit(buf, 0, id + version + address + port, state);
    AtSplit(buf, 0, id + version + address, port);
    AtSplit(buf, 0, id + version, address);
    AtSplit(buf, 0, id, version);
    ReadHandshakeAt(buf, p, 1 + |version|, 1 + |version| + |address|);
  }

  lemma ReadHandshakeAt(buf: seq<byte>, p: HandshakePacket, k1: nat, k2: nat)
    requires |p.address| < 0x8000_0000
    requires At(buf, 0, Encode(0x00)) && At(buf, 1, Encode(p.protocolVersion))
    requires k1 == 1 + |Encode(p.protocolVersion)| && At(buf, k1, StringField(p.address))
    requires k2 == k1 + |StringField(p.address)| && At(buf, k2, ShortBytes(p.port))
    requires At(buf, k2 + 2, Encode(p.nextState)) && |buf| == k2 + 2 + |Encode(p.nextState)|
    ensures ReadHandshake(buf) == Some(p.(port := p.port & 0xFFFF))
  {
    IdByte(0x00);
    VarIntAt(buf, 0, 0x00, 1);
    VarIntAt(buf, 1, p.protocolVersion, k1);
    StringAt(buf, k1, p.address, k2);
    ShortAt(buf, k2, p.port);
    VarIntAt(buf, k2 + 2, p.nextState, |buf|);
    ReadHandshakeFields(buf, p.protocolVersion, p.address, p.port & 0xFFFF, p.nextState, k1, k2);
  }

  lemma VarIntAt(buf: seq<byte>, pos: nat, v: bv32, next: nat)
    requires At(buf, pos, Encode(v)) && next == pos + |Encode(v)|
    ensures Decode(buf, pos) == Some(Decoded(v, next))
  {
    DecodeAt(buf, pos, v);
  }

  lemma StringAt(buf: seq<byte>, pos: nat, s: seq<byte>, next: nat)
    requires |s| < 0x8000_0000 && At(buf, pos, StringField(s)) && next == pos + |StringField(s)|
    ensures DecodeString(buf, pos) == Ok(Chunk(s, next))
  {
    DecodeStringField(buf, pos, s);
  }

  lemma ShortAt(buf: seq<byte>, pos: nat, v: bv32)
    requires At(buf, pos, ShortBytes(v))
    ensures pos + 2 <= |buf| && JoinShort(buf[pos], buf[pos + 1]) == v & 0xFFFF
  {
    assert buf[pos] == ShortBytes(v)[0] && buf[pos + 1] == ShortBytes(v)[1];
    ShortBytesRoundTrip(v);
  }

  lemma ReadHandshakeFields(buf: seq<byte>, version: bv32, address: seq<byte>, port: bv32, state: bv32, k1: nat, k2: nat)
    requires Decode(buf, 0) == Some(Decoded(0x00, 1))
    requires Decode(buf, 1) == Some(Decoded(version, k1))
    requires DecodeString(buf, k1) == Ok(Chunk(address, k2))
    requires k2 + 2 <= |buf| && JoinShort(buf[k2], buf[k2 + 1]) == port
    requires Decode(buf, k2 + 2) == Some(Decoded(state, |buf|))
    ensures ReadHandshake(buf) == Some(HandshakePacket(version, address, port, state))
  {}

  /** With protocol version -1 the version field is `FF FF FF FF 0F`. */
  lemma HandshakeLatestVersion(address: seq<byte>, port: bv32, nextState: bv32)
    ensures HandshakeBytes(HandshakePacket(0xFFFF_FFFF, address, port, nextState))[..6] == [0x00, 0xFF, 0xFF, 0xFF, 0xFF, 0x0F]
  {
    EncodeExamples();
  }

  /** A next state below 128 (1 for status, 2 for login) is the packet's last byte. */
  lemma HandshakeEndsWithState(p: HandshakePacket)
    requires p.nextState < 0x80
    ensures HandshakeBytes(p)[|HandshakeBytes(p)| - 1] == p.nextState as byte
  {
    EncodeSmall(p.nextState);
  }

  // ---------------------------------------------------------------------
  // Status request (id 0x00, status state)

  datatype StatusRequestPacket = StatusRequestPacket

  function StatusRequestBytes(p: StatusRequestPacket): seq<byte> {
    Encode(0x00)
  }

  method StatusRequestToByteArray(p: StatusRequestPacket) returns (bytes: seq<byte>)
    ensures bytes == StatusRequestBytes(p)
  {
    var builder := new PacketBuilder();
    var b := builder.WriteVarInt(0x00);
    bytes := b.ToByteArray();
  }

  /** The status request is the single byte 0, a lone VarInt 0, and `[1, 0]` on the wire. */
  lemma StatusRequestLayout(p: StatusRequestPacket)
    ensures StatusRequestBytes(p) == [0x00]
    ensures Decode(StatusRequestBytes(p), 0) == Some(Decoded(0, 1))
    ensures Frame(StatusRequestBytes(p)) == [0x01, 0x00]
  {
    IdByte(0x00);
    IdByte(0x01);
    assert SizeOf(1) == 1 by {
      assert SizeOf(0) == 0;
    }
    AtWhole([0x00]);
    DecodeAt([0x00], 0, 0);
  }

  // ---------------------------------------------------------------------
  // Login start (id 0x00, login state)

  /** A UUID as its two 64-bit halves. */
  datatype Uuid = Uuid(mostSignificantBits: bv64, leastSignificantBits: bv64)

  /** `UUID.nameUUIDFromBytes`, the name-based UUID of a byte string (a parameter of the model). */
  type NameUuid = seq<byte> -> Uuid

  datatype LoginStartPacket = LoginStartPacket(username: seq<byte>, protocolVersion: bv32)

  /** `protocolVersion >= 761` on a signed `Int`: protocol versions from 1.19.3 on carry a UUID. */
  predicate CarriesUuid(protocolVersion: bv32) {
    !IsNegative(protocolVersion) && protocolVersion >= 761
  }

  /** The UUID the packet computes: the offline-player UUID, or the nil UUID when it is not sent. */
  function PlayerUuid(p: LoginStartPacket, nameUuid: NameUuid): Uuid {
    if CarriesUuid(p.protocolVersion) then nameUuid(Ascii("OfflinePlayer:") + p.username) else Uuid(0, 0)
  }

  function LoginStartBytes(p: LoginStartPacket, nameUuid: NameUuid): seq<byte> {
    var uuid := PlayerUuid(p, nameUuid);
    Encode(0x00) + StringField(p.username)
    + (if CarriesUuid(p.protocolVersion)
       then LongBytes(uuid.mostSignificantBits) + LongBytes(uuid.leastSignificantBits)
       else [])
  }

  method LoginStartToByteArray(p: LoginStartPacket, nameUuid: NameUuid) returns (bytes: seq<byte>)
    ensures bytes == LoginStartBytes(p, nameUuid)
  {
    var uuid := if CarriesUuid(p.protocolVersion) then nameUuid(Ascii("OfflinePlayer:") + p.username) else Uuid(0, 0);
    var builder := new PacketBuilder();
    var b := builder.WriteVarInt(0x00);
    b := b.WriteString(p.username);
    if CarriesUuid(p.protocolVersion) {
      b := b.WriteLong(uuid.mostSignificantBits);
      b := b.WriteLong(uuid.leastSignificantBits);
      AppendAssoc(Encode(0x00) + StringField(p.username), LongBytes(uuid.mostSignificantBits), LongBytes(uuid.leastSignificantBits));
    }
    bytes := b.ToByteArray();
  }

  /** Every login start begins with the id 0 and the username field. */
  lemma LoginStartPrefix(p: LoginStartPacket, nameUuid: NameUuid)
    ensures LoginStartBytes(p, nameUuid)[..1 + |StringField(p.username)|] == [0x00] + StringField(p.username)
  {
    IdByte(0x00);
  }

  /**
   * From version 761 on, the username is followed by 16 bytes that read back
   * as the two halves of the offline-player UUID of the name.
   */
  lemma LoginStartUuid(p: LoginStartPacket, nameUuid: NameUuid)
    requires CarriesUuid(p.protocolVersion)
    ensures var bytes := LoginStartBytes(p, nameUuid);
            var k := 1 + |StringField(p.username)|;
            var uuid := nameUuid(Ascii("OfflinePlayer:") + p.username);
            |bytes| == k + 16
            && JoinLong(bytes[k..k + 8]) == uuid.mostSignificantBits
            && JoinLong(bytes[k + 8..]) == uuid.leastSignificantBits
  {
    IdByte(0x00);
    var uuid := nameUuid(Ascii("OfflinePlayer:") + p.username);
    var bytes := LoginStartBytes(p, nameUuid);
    var k := 1 + |StringField(p.username)|;
    LongBytesRoundTrip(uuid.mostSignificantBits);
    LongBytesRoundTrip(uuid.leastSignificantBits);
    assert bytes[k..k + 8] == LongBytes(uuid.mostSignificantBits);
    assert bytes[k + 8..] == LongBytes(uuid.leastSignificantBits);
  }

  /** Before version 761 nothing follows the username, whatever the UUID function. */
  lemma LoginStartWithoutUuid(p: LoginStartPacket, nameUuid: NameUuid, other: NameUuid)
    requires !CarriesUuid(p.protocolVersion)
    ensures LoginStartBytes(p, nameUuid) == [0x00] + StringField(p.username)
    ensures LoginStartBytes(p, nameUuid) == LoginStartBytes(p, other)
  {
    IdByte(0x00);
  }

  /** The same username is exactly 16 bytes longer from version 761 on. */
  lemma LoginStartLengths(username: seq<byte>, before: bv32, after: bv32, nameUuid: NameUuid)
    requires !CarriesUuid(before) && CarriesUuid(after)
    ensures |LoginStartBytes(LoginStartPacket(username, after), nameUuid)|
         == |LoginStartBytes(LoginStartPacket(username, before), nameUuid)| + 16
  {}

  /** The version test is signed and inclusive: 761 carries a UUID; 760 and -1 do not. */
  lemma CarriesUuidBoundary()
    ensures CarriesUuid(761)
    ensures !CarriesUuid(760)
    ensures !CarriesUuid(0xFFFF_FFFF)
  {}

  // ---------------------------------------------------------------------
  // Login plugin response (id 0x02, login state)

  datatype LoginPluginResponsePacket = LoginPluginResponsePacket(messageId: bv32)

  /** The reply to a plugin request: its message id and `false`, "not understood". */
  function LoginPluginResponseBytes(p: LoginPluginResponsePacket): seq<byte> {
    Encode(0x02) + Encode(p.messageId) + BooleanByte(false)
  }

  method LoginPluginResponseToByteArray(p: LoginPluginResponsePacket) returns (bytes: seq<byte>)
    ensures bytes == LoginPluginResponseBytes(p)
  {
    var builder := new PacketBuilder();
    var b := builder.WriteVarInt(0x02);
    b := b.WriteVarInt(p.messageId);
    b := b.WriteBoolean(false);
    bytes := b.ToByteArray();
  }

  lemma LoginPluginResponseLayout(p: LoginPluginResponsePacket)
    ensures var bytes := LoginPluginResponseBytes(p);
            |bytes| == 2 + |Encode(p.messageId)|
            && bytes[0] == 0x02
            && bytes[|bytes| - 1] == 0x00
            && Decode(bytes, 1) == Some(Decoded(p.messageId, |bytes| - 1))
    ensures p.messageId < 0x80 ==> |LoginPluginResponseBytes(p)| == 3
  {
    IdByte(0x02);
    var bytes := LoginPluginResponseBytes(p);
    AtWhole(bytes);
    AtSplit(bytes, 0, Encode(0x02) + Encode(p.messageId), BooleanByte(false));
    AtSplit(bytes, 0, Encode(0x02), Encode(p.messageId));
    VarIntAt(bytes, 1, p.messageId, |bytes| - 1);
    if p.messageId < 0x80 {
      EncodeSmall(p.messageId);
    }
  }

  // ---------------------------------------------------------------------
  // Cookie response (id 0x04, login state)

  datatype CookieResponsePacket = CookieResponsePacket(key: seq<byte>)

  /** The reply to a cookie request: its key and `false`, "no payload". */
  function CookieResponseBytes(p: CookieResponsePacket): seq<byte> {
    Encode(0x04) + StringField(p.key) + BooleanByte(false)
  }

  method CookieResponseToByteArray(p: CookieResponsePacket) returns (bytes: seq<byte>)
    ensures bytes == CookieResponseBytes(p)
  {
    var builder := new PacketBuilder();
    var b := builder.WriteVarInt(0x04);
    b := b.WriteString(p.key);
    b := b.WriteBoolean(false);
    bytes := b.ToByteArray();
  }

  lemma CookieResponseLayout(p: CookieResponsePacket)
    requires |p.key| < 0x8000_0000
    ensures var bytes := CookieResponseBytes(p);
            |bytes| == 2 + |Encode(SizeOf(|p.key|))| + |p.key|
            && bytes[0] == 0x04
            && bytes[|bytes| - 1] == 0x00
            && DecodeString(bytes, 1) == Ok(Chunk(p.key, |bytes| - 1))
  {
    IdByte(0x04);
    var bytes := CookieResponseBytes(p);
    AtWhole(bytes);
    AtSplit(bytes, 0, Encode(0x04) + StringField(p.key), BooleanByte(false));
    AtSplit(bytes, 0, Encode(0x04), StringField(p.key));
    StringAt(bytes, 1, p.key, |bytes| - 1);
  }
}
