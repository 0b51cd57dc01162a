/**
 * `MCServerQuery`: the status query and the login-phase probe that guesses
 * whether a server runs in online mode.
 *
 * The probe logs in with an offline username and reads what the server
 * answers, frame by frame.  A set-compression packet switches every later
 * frame to the compressed layout; plugin and cookie requests are answered
 * with "not understood" and "no cookie"; login success means offline mode,
 * an encryption request online mode, and a disconnect is classified by its
 * reason.  Anything unexpected, including a read that fails, gives "unknown".
 *
 * `Login` describes a whole probe on the bytes the server sends; the method
 * `MCServerQuery.CheckForEncryptionRequest` is proved to behave as it says.
 */
module ServerQuery {
  import opened Bytes
  import opened VarInt
  import opened Builder
  import opened NetworkUtils
  import opened Protocol

  datatype OnlineMode = Online | Offline | Unknown

  // ---------------------------------------------------------------------
  // Disconnect reasons

  /** `String.contains`, on the UTF-8 bytes of both strings. */
  predicate Contains(s: seq<byte>, pattern: seq<byte>) {
    exists i | 0 <= i <= |s| - |pattern| :: At(s, i, pattern)
  }

  const UnverifiedUsername: seq<byte> := Ascii("multiplayer.disconnect.unverified_username")
  const DoubleLogin: seq<byte> := Ascii("Double login")

  /**
   * The verdict on a disconnect reason: a server that refuses an unverified
   * username is in online mode's opposite; "Double login" says nothing; any
   * other refusal is taken as online mode.
   */
  function Classify(reason: seq<byte>): OnlineMode {
    if Contains(reason, UnverifiedUsername) then Offline
    else if Contains(reason, DoubleLogin) then Unknown
    else Online
  }

  lemma ContainsAt(s: seq<byte>, pattern: seq<byte>, i: nat)
    requires At(s, i, pattern)
    ensures Contains(s, pattern)
  {}

  /** Text around a reason never hides a phrase it contains. */
  lemma ContainsWithin(s: seq<byte>, pattern: seq<byte>, before: seq<byte>, after: seq<byte>)
    requires Contains(s, pattern)
    ensures Contains(before + s + after, pattern)
  {
    var i :| 0 <= i <= |s| - |pattern| && At(s, i, pattern);
    var t := before + s + after;
    assert t[|before| + i..|before| + i + |pattern|] == s[i..i + |pattern|];
    ContainsAt(t, pattern, |before| + i);
  }

  /** The unverified-username test comes first: it wins even when "Double login" is present too. */
  lemma UnverifiedUsernameWins(before: seq<byte>, between: seq<byte>, after: seq<byte>)
    ensures Classify(before + UnverifiedUsername + between + DoubleLogin + after) == Offline
  {
    var reason := before + UnverifiedUsername + between + DoubleLogin + after;
    assert reason[|before|..|before| + |UnverifiedUsername|] == UnverifiedUsername;
    ContainsAt(reason, UnverifiedUsername, |before|);
  }

  /** A reason that says "Double login" but not the unverified-username key is inconclusive. */
  lemma DoubleLoginUnknown(before: seq<byte>, after: seq<byte>)
    requires !Contains(before + DoubleLogin + after, UnverifiedUsername)
    ensures Classify(before + DoubleLogin + after) == Unknown
  {
    var reason := before + DoubleLogin + after;
    assert reason[|before|..|before| + |DoubleLogin|] == DoubleLogin;
    ContainsAt(reason, DoubleLogin, |before|);
  }

  /** A reason shorter than both phrases (the empty one, say) counts as online mode. */
  lemma ShortReasonOnline(reason: seq<byte>)
    requires |reason| < |DoubleLogin|
    ensures Classify(reason) == Online
  {
    assert |DoubleLogin| == 12 && |UnverifiedUsername| == 42;
  }

  /** An offline verdict survives any text added around the reason. */
  lemma OfflineWithin(reason: seq<byte>, before: seq<byte>, after: seq<byte>)
    requires Classify(reason) == Offline
    ensures Classify(before + reason + after) == Offline
  {
    ContainsWithin(reason, UnverifiedUsername, before, after);
  }

  // ---------------------------------------------------------------------
  // One login packet

  /** `handleDisconnect` after the packet id: the reason string, classified. */
  function DisconnectMode(packet: seq<byte>, pos: nat): Result<OnlineMode> {
    match DecodeString(packet, pos)
    case Err(e) => Err(e)
    case Ok(reason) => Ok(Classify(reason.bytes))
  }

  /**
   * `handleLoginPluginRequest` after the packet id: the message id and the
   * channel name must be readable (the payload is whatever remains); the
   * reply carries the same message id.
   */
  function PluginReply(packet: seq<byte>, pos: nat): Result<seq<byte>> {
    match Decode(packet, pos)
    case None => Err(BufferUnderflow)
    case Some(messageId) =>
      match DecodeString(packet, messageId.next)
      case Err(e) => Err(e)
      case Ok(_) => Ok(LoginPluginResponseBytes(LoginPluginResponsePacket(messageId.value)))
  }

  /** `handleCookieRequest` after the packet id: the reply carries the requested key. */
  function CookieReply(packet: seq<byte>, pos: nat): Result<seq<byte>> {
    match DecodeString(packet, pos)
    case Err(e) => Err(e)
    case Ok(key) => Ok(CookieResponseBytes(CookieResponsePacket(key.bytes)))
  }

  /** What the probe does with one packet. */
  datatype Action =
    | Finish(mode: OnlineMode)        // return this verdict
    | Compress(threshold: bv32)       // set compression, read on
    | Reply(ghost response: seq<byte>) // send this packet, read on
    | Abort(error: Error)             // an exception: the verdict is unknown

  /** The dispatch on the packet id of a login-phase packet. */
  function LoginAction(packet: seq<byte>): Action {
    match Decode(packet, 0)
    case None => Abort(BufferUnderflow)
    case Some(id) =>
      if id.value == 0x00 then
        match DisconnectMode(packet, id.next)
        case Ok(mode) => Finish(mode)
        case Err(e) => Abort(e)
      else if id.value == 0x01 then Finish(Online)
      else if id.value == 0x02 then Finish(Offline)
      else if id.value == 0x03 then
        match Decode(packet, id.next)
        case None => Abort(BufferUnderflow)
        case Some(threshold) => Compress(threshold.value)
      else if id.value == 0x04 then
        match PluginReply(packet, id.next)
        case Ok(response) => Reply(response)
        case Err(e) => Abort(e)
      else if id.value == 0x05 then
        match CookieReply(packet, id.next)
        case Ok(response) => Reply(response)
        case Err(e) => Abort(e)
      else Abort(UnexpectedPacketId(id.value))
  }

  // ---------------------------------------------------------------------
  // Frames and compression

  /** The threshold before any set-compression packet: `-1`, no compression. */
  const NoCompression: bv32 := 0xFFFF_FFFF

  /**
   * The packet inside a frame.  Without compression it is the frame itself.
   * With compression (any threshold other than -1) the frame starts with the
   * VarInt length of the uncompressed packet: 0 means the rest is the packet
   * as it is, anything else that the rest is zlib data inflating to it.
   */
  function Unwrap(frame: seq<byte>, threshold: bv32, inflate: Inflate): Result<seq<byte>> {
    if threshold == NoCompression then Ok(frame)
    else match Decode(frame, 0)
    case None => Err(BufferUnderflow)
    case Some(dataLength) =>
      if dataLength.value == 0 then Ok(frame[dataLength.next..])
      else DecompressZlib(inflate, frame[dataLength.next..], dataLength.value)
  }

  /** The next packet on the input under the current threshold. */
  function NextPacket(input: seq<byte>, consumed: nat, threshold: bv32, inflate: Inflate): (r: Received<seq<byte>>)
    requires consumed <= |input|
    ensures consumed <= r.consumed <= |input|
    ensures r.result.Ok? ==> consumed < r.consumed
  {
    var frame := IncomingFrame(input, consumed);
    match frame.result
    case Err(e) => Received(Err(e), frame.consumed)
    case Ok(bytes) => Received(Unwrap(bytes, threshold, inflate), frame.consumed)
  }

  lemma DataLengthZero(packet: seq<byte>)
    ensures Decode([0x00] + packet, 0) == Some(Decoded(0, 1))
  {
    EncodeSmall(0);
    DecodeEncode([], 0, packet);
    assert [] + Encode(0) + packet == [0x00] + packet;
  }

  /** Once compression is on, a zero data length leaves the packet as it is. */
  lemma UnwrapUncompressed(packet: seq<byte>, threshold: bv32, inflate: Inflate)
    requires threshold != NoCompression
    ensures Unwrap([0x00] + packet, threshold, inflate) == Ok(packet)
  {
    DataLengthZero(packet);
    assert ([0x00] + packet)[1..] == packet;
  }

  /**
   * Once compression is on, a nonzero data length means the rest is inflated
   * to exactly that many bytes, or the packet fails.
   */
  lemma UnwrapCompressed(dataLength: bv32, data: seq<byte>, threshold: bv32, inflate: Inflate)
    requires threshold != NoCompression && dataLength != 0
    ensures Unwrap(Encode(dataLength) + data, threshold, inflate) == DecompressZlib(inflate, data, dataLength)
    ensures Unwrap(Encode(dataLength) + data, threshold, inflate).Ok? ==>
      |Unwrap(Encode(dataLength) + data, threshold, inflate).value| == Length(dataLength)
  {
    DecodeEncode([], dataLength, data);
    assert [] + Encode(dataLength) + data == Encode(dataLength) + data;
    assert (Encode(dataLength) + data)[|Encode(dataLength)|..] == data;
  }

  // ---------------------------------------------------------------------
  // The whole probe

  /** A verdict, the replies sent on the way to it in order, and the input consumed by then. */
  datatype Probe = Probe(mode: OnlineMode, replies: seq<seq<byte>>, consumed: nat)

  /** `replies`, sent before the rest of the probe `p`. */
  ghost function Then(replies: seq<seq<byte>>, p: Probe): Probe {
    Probe(p.mode, replies + p.replies, p.consumed)
  }

  /** How one round of the probe ends: with a verdict, or with what to go on with. */
  datatype Round =
    | Stop(mode: OnlineMode, consumed: nat)
    | Continue(threshold: bv32, replies: seq<seq<byte>>, consumed: nat)

  /** One turn of the probe's loop: read a packet and act on its id. */
  ghost function LoginRound(input: seq<byte>, consumed: nat, threshold: bv32, inflate: Inflate): (r: Round)
    requires consumed <= |input|
    ensures consumed <= r.consumed <= |input|
    ensures r.Continue? ==> consumed < r.consumed
  {
    var next := NextPacket(input, consumed, threshold, inflate);
    match next.result
    case Err(_) => Stop(Unknown, next.consumed)
    case Ok(packet) => RoundOf(LoginAction(packet), threshold, next.consumed)
  }

  /** How a round ends once its packet has been read, up to input position `after`. */
  ghost function RoundOf(action: Action, threshold: bv32, after: nat): (r: Round)
    ensures r.consumed == after
  {
    match action
    case Finish(mode) => Stop(mode, after)
    case Abort(_) => Stop(Unknown, after)
    case Compress(t) => Continue(t, [], after)
    case Reply(response) => Continue(threshold, [response], after)
  }

  /**
   * `checkForEncryptionRequest` from input position `consumed` with the
   * given compression threshold: round after round until a verdict.  A
   * failed read or an unexpected packet ends the probe with `Unknown`.
   */
  ghost function Login(input: seq<byte>, consumed: nat, threshold: bv32, inflate: Inflate): (p: Probe)
    requires consumed <= |input|
    ensures consumed <= p.consumed <= |input|
    decreases |input| - consumed
  {
    match LoginRound(input, consumed, threshold, inflate)
    case Stop(mode, after) => Probe(mode, [], after)
    case Continue(t, replies, after) => Then(replies, Login(input, after, t, inflate))
  }

  /** A round that goes on: the probe is its replies, then the probe from where it stopped. */
  lemma LoginContinues(input: seq<byte>, consumed: nat, threshold: bv32, inflate: Inflate, round: Round)
    requires consumed <= |input| && round == LoginRound(input, consumed, threshold, inflate) && round.Continue?
    ensures Login(input, consumed, threshold, inflate) == Then(round.replies, Login(input, round.consumed, round.threshold, inflate))
  {}

  /** A round that ends the probe: its verdict, nothing sent. */
  lemma LoginStops(input: seq<byte>, consumed: nat, threshold: bv32, inflate: Inflate, round: Round)
    requires consumed <= |input| && round == LoginRound(input, consumed, threshold, inflate) && round.Stop?
    ensures Login(input, consumed, threshold, inflate) == Probe(round.mode, [], round.consumed)
  {}

  lemma ThenThen(a: seq<seq<byte>>, b: seq<seq<byte>>, p: Probe)
    ensures Then(a, Then(b, p)) == Then(a + b, p)
  {
    AppendAssoc(a, b, p.replies);
  }

  lemma ThenNothing(p: Probe)
    ensures Then([], p) == p
  {
    assert [] + p.replies == p.replies;
  }

  /** A peer that has nothing (more) to send leaves the verdict unknown. */
  lemma LoginAtEnd(input: seq<byte>, threshold: bv32, inflate: Inflate)
    ensures Login(input, |input|, threshold, inflate) == Probe(Unknown, [], |input|)
  {
    assert Decode(input, |input|) == None;
  }

  /** A plugin response (id 2) or a cookie response (id 4); both end with a 0 byte. */
  predicate IsResponse(r: seq<byte>) {
    |r| >= 2 && (r[0] == 0x02 || r[0] == 0x04) && r[|r| - 1] == 0x00
  }

  /** The probe sends nothing but plugin and cookie responses. */
  lemma {:induction false} LoginReplies(input: seq<byte>, consumed: nat, threshold: bv32, inflate: Inflate)
    requires consumed <= |input|
    ensures forall r | r in Login(input, consumed, threshold, inflate).replies :: IsResponse(r)
    decreases |input| - consumed
  {
    var round := LoginRound(input, consumed, threshold, inflate);
    if round.Continue? {
      LoginReplies(input, round.consumed, round.threshold, inflate);
      RoundReplies(input, consumed, threshold, inflate);
    }
  }

  lemma RoundReplies(input: seq<byte>, consumed: nat, threshold: bv32, inflate: Inflate)
    requires consumed <= |input|
    ensures LoginRound(input, consumed, threshold, inflate).Continue? ==>
      forall r | r in LoginRound(input, consumed, threshold, inflate).replies :: IsResponse(r)
  {
    var next := NextPacket(input, consumed, threshold, inflate);
    if next.result.Ok? && LoginAction(next.result.value).Reply? {
      ReplyShape(next.result.value, LoginAction(next.result.value).response);
    }
  }

  lemma ReplyShape(packet: seq<byte>, response: seq<byte>)
    requires LoginAction(packet) == Reply(response)
    ensures IsResponse(response)
  {
    var id := Decode(packet, 0).value;
    if id.value == 0x04 {
      var messageId := Decode(packet, id.next).value;
      LoginPluginResponseLayout(LoginPluginResponsePacket(messageId.value));
    } else {
      var key := DecodeString(packet, id.next).value.bytes;
      CookieResponseShape(key);
    }
  }

  lemma CookieResponseShape(key: seq<byte>)
    ensures IsResponse(CookieResponseBytes(CookieResponsePacket(key)))
  {
    IdByte(0x04);
  }

  /** The packet id of a one-byte id field. */
  lemma DecodeId(packet: seq<byte>, id: bv32, rest: seq<byte>)
    requires id < 0x80 && packet == [id as byte] + rest
    ensures Decode(packet, 0) == Some(Decoded(id, 1))
  {
    EncodeSmall(id);
    DecodeEncode([], id, rest);
    assert [] + Encode(id) + rest == packet;
  }

  /** A frame at `pos` that unwraps to `packet`: the round acts on the packet and ends just after the frame. */
  lemma RoundOnFrame(input: seq<byte>, pos: nat, frame: seq<byte>, packet: seq<byte>, threshold: bv32, inflate: Inflate)
    requires |frame| < 0x8000_0000 && At(input, pos, Frame(frame))
    requires Unwrap(frame, threshold, inflate) == Ok(packet)
    ensures LoginRound(input, pos, threshold, inflate) == RoundOf(LoginAction(packet), threshold, pos + |Frame(frame)|)
  {
    IncomingFrameOf(input, pos, frame);
  }

  /** Ids 1 and 2 end the probe whatever follows them: online and offline mode. */
  lemma VerdictIds(rest: seq<byte>)
    ensures LoginAction([0x01] + rest) == Finish(Online)
    ensures LoginAction([0x02] + rest) == Finish(Offline)
  {
    DecodeId([0x01] + rest, 0x01, rest);
    DecodeId([0x02] + rest, 0x02, rest);
  }

  /**
   * The probe on a frame at `pos` that unwraps to a packet asking for a
   * verdict, or failing: it ends there.
   */
  lemma LoginEndsOnFrame(input: seq<byte>, pos: nat, frame: seq<byte>, packet: seq<byte>, threshold: bv32, inflate: Inflate, action: Action)
    requires |frame| < 0x8000_0000 && At(input, pos, Frame(frame))
    requires Unwrap(frame, threshold, inflate) == Ok(packet) && LoginAction(packet) == action
    requires action.Finish? || action.Abort?
    ensures Login(input, pos, threshold, inflate)
         == Probe(if action.Finish? then action.mode else Unknown, [], pos + |Frame(frame)|)
  {
    RoundOnFrame(input, pos, frame, packet, threshold, inflate);
    LoginStops(input, pos, threshold, inflate, LoginRound(input, pos, threshold, inflate));
  }

  /**
   * The probe on a frame at `pos` that unwraps to a set-compression packet
   * or a request: it goes on after the frame, with the new threshold or
   * after sending the reply.
   */
  lemma LoginGoesOnFrame(input: seq<byte>, pos: nat, frame: seq<byte>, packet: seq<byte>, threshold: bv32, inflate: Inflate, action: Action)
    requires |frame| < 0x8000_0000 && At(input, pos, Frame(frame))
    requires Unwrap(frame, threshold, inflate) == Ok(packet) && LoginAction(packet) == action
    requires action.Compress? || action.Reply?
    ensures pos + |Frame(frame)| <= |input|
    ensures action.Compress? ==>
      Login(input, pos, threshold, inflate) == Login(input, pos + |Frame(frame)|, action.threshold, inflate)
    ensures action.Reply? ==>
      Login(input, pos, threshold, inflate) == Then([action.response], Login(input, pos + |Frame(frame)|, threshold, inflate))
  {
    RoundOnFrame(input, pos, frame, packet, threshold, inflate);
    var round := LoginRound(input, pos, threshold, inflate);
    LoginContinues(input, pos, threshold, inflate, round);
    ThenNothing(Login(input, round.consumed, round.threshold, inflate));
  }

  /** Login success (id 2) ends the probe: the server is in offline mode. */
  lemma LoginSuccessIsOffline(input: seq<byte>, pos: nat, rest: seq<byte>, inflate: Inflate)
    requires |rest| < 0x7FFF_FFFF && At(input, pos, Frame([0x02] + rest))
    ensures Login(input, pos, NoCompression, inflate) == Probe(Offline, [], pos + |Frame([0x02] + rest)|)
  {
    VerdictIds(rest);
    LoginEndsOnFrame(input, pos, [0x02] + rest, [0x02] + rest, NoCompression, inflate, Finish(Offline));
  }

  /** An encryption request (id 1) ends the probe: the server is in online mode. */
  lemma EncryptionRequestIsOnline(input: seq<byte>, pos: nat, rest: seq<byte>, inflate: Inflate)
    requires |rest| < 0x7FFF_FFFF && At(input, pos, Frame([0x01] + rest))
    ensures Login(input, pos, NoCompression, inflate) == Probe(Online, [], pos + |Frame([0x01] + rest)|)
  {
    VerdictIds(rest);
    LoginEndsOnFrame(input, pos, [0x01] + rest, [0x01] + rest, NoCompression, inflate, Finish(Online));
  }

  /** A set-compression packet carries the new threshold. */
  lemma SetCompressionAction(threshold: bv32)
    ensures LoginAction([0x03] + Encode(threshold)) == Compress(threshold)
  {
    var packet := [0x03] + Encode(threshold);
    DecodeId(packet, 0x03, Encode(threshold));
    DecodeEncode([0x03], threshold, []);
    assert [0x03] + Encode(threshold) + [] == packet;
  }

  lemma PluginRequestFields(packet: seq<byte>, messageId: bv32, channel: seq<byte>, data: seq<byte>)
    requires |channel| < 0x8000_0000
    requires packet == [0x04] + Encode(messageId) + StringField(channel) + data
    ensures Decode(packet, 0) == Some(Decoded(0x04, 1))
    ensures Decode(packet, 1) == Some(Decoded(messageId, 1 + |Encode(messageId)|))
    ensures DecodeString(packet, 1 + |Encode(messageId)|).Ok?
  {
    DecodeId(packet, 0x04, Encode(messageId) + StringField(channel) + data);
    AtWhole(packet);
    AtSplit(packet, 0, [0x04] + Encode(messageId) + StringField(channel), data);
    AtSplit(packet, 0, [0x04] + Encode(messageId), StringField(channel));
    AtSplit(packet, 0, [0x04], Encode(messageId));
    DecodeAt(packet, 1, messageId);
    DecodeStringField(packet, 1 + |Encode(messageId)|, channel);
  }

  /** A plugin request is answered with a plugin response for the same message id. */
  lemma PluginRequestAction(messageId: bv32, channel: seq<byte>, data: seq<byte>)
    requires |channel| < 0x8000_0000
    ensures LoginAction([0x04] + Encode(messageId) + StringField(channel) + data)
         == Reply(LoginPluginResponseBytes(LoginPluginResponsePacket(messageId)))
  {
    PluginRequestFields([0x04] + Encode(messageId) + StringField(channel) + data, messageId, channel, data);
  }

  lemma CookieRequestFields(packet: seq<byte>, key: seq<byte>, rest: seq<byte>)
    requires |key| < 0x8000_0000
    requires packet == [0x05] + StringField(key) + rest
    ensures Decode(packet, 0) == Some(Decoded(0x05, 1))
    ensures DecodeString(packet, 1) == Ok(Chunk(key, 1 + |StringField(key)|))
  {
    DecodeId(packet, 0x05, StringField(key) + rest);
    AtWhole(packet);
    AtSplit(packet, 0, [0x05] + StringField(key), rest);
    AtSplit(packet, 0, [0x05], StringField(key));
    DecodeStringField(packet, 1, key);
  }

  /** A cookie request is answered with a cookie response for the same key. */
  lemma CookieRequestAction(key: seq<byte>, rest: seq<byte>)
    requires |key| < 0x8000_0000
    ensures LoginAction([0x05] + StringField(key) + rest)
         == Reply(CookieResponseBytes(CookieResponsePacket(key)))
  {
    CookieRequestFields([0x05] + StringField(key) + rest, key, rest);
  }

  /**
   * Any packet id beyond 5 is refused, which ends the probe without a
   * verdict: multi-byte, overlong and negative ids (which are above 5 as
   * unsigned 32-bit values) included.
   */
  lemma UnknownIdAborts(packet: seq<byte>, id: Decoded)
    requires Decode(packet, 0) == Some(id) && id.value > 0x05
    ensures LoginAction(packet) == Abort(UnexpectedPacketId(id.value))
  {}

  /** The same for a packet starting with a written id: every id above 5, negative ones included. */
  lemma UnknownEncodedIdAborts(id: bv32, rest: seq<byte>)
    requires id > 0x05
    ensures LoginAction(Encode(id) + rest) == Abort(UnexpectedPacketId(id))
  {
    DecodeEncode([], id, rest);
    assert [] + Encode(id) + rest == Encode(id) + rest;
    UnknownIdAborts(Encode(id) + rest, Decoded(id, |Encode(id)|));
  }

  // ---------------------------------------------------------------------
  // The status response

  /** `parseResponse` on one packet: id 0, then the JSON string. */
  function StatusPayload(packet: seq<byte>): Result<seq<byte>> {
    match Decode(packet, 0)
    case None => Err(BufferUnderflow)
    case Some(id) =>
      if id.value != 0x00 then Err(UnexpectedPacketId(id.value))
      else match DecodeString(packet, id.next)
      case Err(e) => Err(e)
      case Ok(json) => Ok(json.bytes)
  }

  /** `parseResponse` on the input: one frame, then its payload. */
  function StatusResponse(input: seq<byte>, consumed: nat): Received<seq<byte>>
    requires consumed <= |input|
  {
    var frame := IncomingFrame(input, consumed);
    match frame.result
    case Err(e) => Received(Err(e), frame.consumed)
    case Ok(packet) => Received(StatusPayload(packet), frame.consumed)
  }

  /** A status response framed as a server sends it reads back as its JSON bytes. */
  lemma StatusResponseOf(input: seq<byte>, pos: nat, json: seq<byte>)
    requires |json| < 0x7FFF_0000 && At(input, pos, Frame(Encode(0x00) + StringField(json)))
    ensures StatusResponse(input, pos) == Received(Ok(json), pos + |Frame(Encode(0x00) + StringField(json))|)
  {
    var packet := Encode(0x00) + StringField(json);
    IdByte(0x00);
    EncodeSize(SizeOf(|json|));
    IncomingFrameOf(input, pos, packet);
    AtWhole(packet);
    AtSplit(packet, 0, Encode(0x00), StringField(json));
    DecodeAt(packet, 0, 0x00);
    DecodeStringField(packet, 1, json);
  }

  /** A status packet whose id, however it is encoded, is not 0 is refused with that id. */
  lemma StatusWrongId(packet: seq<byte>, id: Decoded)
    requires Decode(packet, 0) == Some(id) && id.value != 0x00
    ensures StatusPayload(packet) == Err(UnexpectedPacketId(id.value))
  {}

  // ---------------------------------------------------------------------
  // The query object

  class MCServerQuery {
    const address: seq<byte>
    const port: bv32
    const encryptionCheckUsername: Option<seq<byte>>
    /** zlib inflation, as the `Inflater` would do it. */
    const inflate: Inflate
    /** `UUID.nameUUIDFromBytes`. */
    const nameUuid: NameUuid

    constructor (address: seq<byte>, port: bv32, encryptionCheckUsername: Option<seq<byte>>, inflate: Inflate, nameUuid: NameUuid)
      ensures this.address == address && this.port == port
      ensures this.encryptionCheckUsername == encryptionCheckUsername
      ensures this.inflate == inflate && this.nameUuid == nameUuid
    {
      this.address := address;
      this.port := port;
      this.encryptionCheckUsername := encryptionCheckUsername;
      this.inflate := inflate;
      this.nameUuid := nameUuid;
    }

    /** The status handshake: the given protocol version and next state 1. */
    method SendHandshake(channel: Channel, protocolVersion: bv32)
      requires channel.Valid()
      modifies channel
      ensures channel.Valid() && channel.consumed == old(channel.consumed)
      ensures channel.output == old(channel.output) + Frame(HandshakeBytes(HandshakePacket(protocolVersion, address, port, 1)))
    {
      var packet := HandshakeToByteArray(HandshakePacket(protocolVersion, address, port, 1));
      channel.SendPacket(packet);
    }

    method SendStatusRequest(channel: Channel)
      requires channel.Valid()
      modifies channel
      ensures channel.Valid() && channel.consumed == old(channel.consumed)
      ensures channel.output == old(channel.output) + Frame(StatusRequestBytes(StatusRequestPacket))
    {
      var packet := StatusRequestToByteArray(StatusRequestPacket);
      channel.SendPacket(packet);
    }

    /** The login handshake: the given protocol version and next state 2. */
    method SendLoginHandshake(channel: Channel, protocolVersion: bv32)
      requires channel.Valid()
      modifies channel
      ensures channel.Valid() && channel.consumed == old(channel.consumed)
      ensures channel.output == old(channel.output) + Frame(HandshakeBytes(HandshakePacket(protocolVersion, address, port, 2)))
    {
      var packet := HandshakeToByteArray(HandshakePacket(protocolVersion, address, port, 2));
      channel.SendPacket(packet);
    }

    /** Login start with the configured username, which must be set. */
    method SendLoginStart(channel: Channel, protocolVersion: bv32) returns (o: Outcome)
      requires channel.Valid()
      modifies channel
      ensures channel.Valid() && channel.consumed == old(channel.consumed)
      ensures encryptionCheckUsername.None? ==> o == Fail(MissingUsername) && channel.output == old(channel.output)
      ensures encryptionCheckUsername.Some? ==>
        o == Pass && channel.output == old(channel.output)
          + Frame(LoginStartBytes(LoginStartPacket(encryptionCheckUsername.value, protocolVersion), nameUuid))
    {
      if encryptionCheckUsername.None? {
        return Fail(MissingUsername);
      }
      var packet := LoginStartToByteArray(LoginStartPacket(encryptionCheckUsername.value, protocolVersion), nameUuid);
      channel.SendPacket(packet);
      return Pass;
    }

    /** The private `sendPacket`: the same framing as `NetworkUtils.sendPacket`. */
    method SendPacket(channel: Channel, packet: seq<byte>)
      requires channel.Valid()
      modifies channel
      ensures channel.Valid() && channel.consumed == old(channel.consumed)
      ensures channel.output == old(channel.output) + Frame(packet)
    {
      channel.SendPacket(packet);
    }

    /** The frame read that starts each round of the probe and the status query. */
    method ReadFrame(channel: Channel) returns (r: Result<seq<byte>>)
      requires channel.Valid()
      modifies channel
      ensures channel.Valid() && channel.output == old(channel.output)
      ensures r == IncomingFrame(channel.input, old(channel.consumed)).result
      ensures channel.consumed == IncomingFrame(channel.input, old(channel.consumed)).consumed
    {
      var packetLength := channel.ReadVarInt();
      if packetLength.Err? {
        return Err(packetLength.error);
      }
      if IsNegative(packetLength.value) {
        return Err(NegativeSize);
      }
      var buffer := new byte[Length(packetLength.value)];
      var o := channel.ReadFully(buffer);
      if o.Fail? {
        return Err(o.error);
      }
      return Ok(buffer[..]);
    }

    /** One frame, unwrapped as the compression threshold says, in a fresh buffer. */
    method ReadPacket(channel: Channel, compressionThreshold: bv32) returns (r: Result<ByteBuffer>)
      requires channel.Valid()
      modifies channel
      ensures channel.Valid() && channel.output == old(channel.output)
      ensures var next := NextPacket(channel.input, old(channel.consumed), compressionThreshold, inflate);
        channel.consumed == next.consumed
        && (next.result.Ok? <==> r.Ok?)
        && (r.Ok? ==> fresh(r.value) && r.value.Valid() && r.value.position == 0 && r.value.data == next.result.value)
        && (r.Err? ==> r.error == next.result.error)
    {
      var frame := ReadFrame(channel);
      if frame.Err? {
        return Err(frame.error);
      }
      r := UnwrapFrame(frame.value, compressionThreshold);
    }

    /** The packet inside a frame, as `Unwrap` says, in a fresh buffer. */
    method UnwrapFrame(frame: seq<byte>, compressionThreshold: bv32) returns (r: Result<ByteBuffer>)
      ensures var packet := Unwrap(frame, compressionThreshold, inflate);
        (packet.Ok? <==> r.Ok?)
        && (r.Ok? ==> fresh(r.value) && r.value.Valid() && r.value.position == 0 && r.value.data == packet.value)
        && (r.Err? ==> r.error == packet.error)
    {
      var compressedBuffer := new ByteBuffer.Wrap(frame);
      if compressionThreshold == NoCompression {
        return Ok(compressedBuffer);
      }
      var dataLength := compressedBuffer.ReadVarInt();
      if dataLength.Err? {
        return Err(dataLength.error);
      }
      if dataLength.value == 0 {
        var packetBuffer := compressedBuffer.Slice();
        return Ok(packetBuffer);
      }
      ghost var dataStart := compressedBuffer.position;
      var compressedData := compressedBuffer.Get(compressedBuffer.Remaining());
      assert compressedData.value == frame[dataStart..];
      var decompressedData := DecompressZlib(inflate, compressedData.value, dataLength.value);
      if decompressedData.Err? {
        return Err(decompressedData.error);
      }
      var packetBuffer := new ByteBuffer.Wrap(decompressedData.value);
      return Ok(packetBuffer);
    }

    /** `readString`: a length-prefixed string from the buffer. */
    method ReadString(buffer: ByteBuffer) returns (r: Result<seq<byte>>)
      requires buffer.Valid()
      modifies buffer
      ensures buffer.Valid() && buffer.position == StringEnd(buffer.data, old(buffer.position))
      ensures var s := DecodeString(buffer.data, old(buffer.position));
        (s.Ok? ==> r == Ok(s.value.bytes)) && (s.Err? ==> r == Err(s.error))
    {
      var length := buffer.ReadVarInt();
      if length.Err? {
        return Err(length.error);
      }
      if IsNegative(length.value) {
        return Err(NegativeSize);
      }
      var bytes := buffer.Get(Length(length.value));
      if bytes.Err? {
        return Err(bytes.error);
      }
      return Ok(bytes.value);
    }

    method HandleDisconnect(buffer: ByteBuffer) returns (r: Result<OnlineMode>)
      requires buffer.Valid()
      modifies buffer
      ensures buffer.Valid() && buffer.position == StringEnd(buffer.data, old(buffer.position))
      ensures r == DisconnectMode(buffer.data, old(buffer.position))
    {
      var reasonLength := buffer.ReadVarInt();
      if reasonLength.Err? {
        return Err(reasonLength.error);
      }
      if IsNegative(reasonLength.value) {
        return Err(NegativeSize);
      }
      var reasonBytes := buffer.Get(Length(reasonLength.value));
      if reasonBytes.Err? {
        return Err(reasonBytes.error);
      }
      return Ok(Classify(reasonBytes.value));
    }

    method HandleLoginPluginRequest(channel: Channel, buffer: ByteBuffer) returns (o: Outcome)
      requires channel.Valid() && buffer.Valid()
      modifies channel, buffer
      ensures channel.Valid() && channel.consumed == old(channel.consumed) && buffer.Valid()
      ensures var reply := PluginReply(buffer.data, old(buffer.position));
        (reply.Ok? ==> o == Pass && channel.output == old(channel.output) + Frame(reply.value) && buffer.position == |buffer.data|)
        && (reply.Err? ==> o == Fail(reply.error) && channel.output == old(channel.output))
    {
      var messageId := buffer.ReadVarInt();
      if messageId.Err? {
        return Fail(messageId.error);
      }
      var channelName := ReadString(buffer);
      if channelName.Err? {
        return Fail(channelName.error);
      }
      var data := buffer.Get(buffer.Remaining());
      var response := LoginPluginResponseToByteArray(LoginPluginResponsePacket(messageId.value));
      SendPacket(channel, response);
      return Pass;
    }

    method HandleCookieRequest(channel: Channel, buffer: ByteBuffer) returns (o: Outcome)
      requires channel.Valid() && buffer.Valid()
      modifies channel, buffer
      ensures channel.Valid() && channel.consumed == old(channel.consumed) && buffer.Valid()
      ensures buffer.position == StringEnd(buffer.data, old(buffer.position))
      ensures var reply := CookieReply(buffer.data, old(buffer.position));
        (reply.Ok? ==> o == Pass && channel.output == old(channel.output) + Frame(reply.value))
        && (reply.Err? ==> o == Fail(reply.error) && channel.output == old(channel.output))
    {
      var key := ReadString(buffer);
      if key.Err? {
        return Fail(key.error);
      }
      var response := CookieResponseToByteArray(CookieResponsePacket(key.value));
      SendPacket(channel, response);
      return Pass;
    }

    /** The `when` on the packet id inside the probe's loop. */
    method Dispatch(channel: Channel, packetBuffer: ByteBuffer) returns (action: Action)
      requires channel.Valid() && packetBuffer.Valid() && packetBuffer.position == 0
      modifies channel, packetBuffer
      ensures channel.Valid() && channel.consumed == old(channel.consumed)
      ensures action == LoginAction(packetBuffer.data)
      ensures channel.output == old(channel.output) + (if action.Reply? then Frame(action.response) else [])
    {
      var packetId := packetBuffer.ReadVarInt();
      if packetId.Err? {
        return Abort(packetId.error);
      }
      if packetId.value == 0x00 {
        var mode := HandleDisconnect(packetBuffer);
        if mode.Err? {
          return Abort(mode.error);
        }
        return Finish(mode.value);
      } else if packetId.value == 0x01 {
        return Finish(Online);
      } else if packetId.value == 0x02 {
        return Finish(Offline);
      } else if packetId.value == 0x03 {
        var threshold := packetBuffer.ReadVarInt();
        if threshold.Err? {
          return Abort(threshold.error);
        }
        return Compress(threshold.value);
      } else if packetId.value == 0x04 {
        ghost var reply := PluginReply(packetBuffer.data, packetBuffer.position);
        var o := HandleLoginPluginRequest(channel, packetBuffer);
        if o.Fail? {
          return Abort(o.error);
        }
        return Reply(reply.value);
      } else if packetId.value == 0x05 {
        ghost var reply := CookieReply(packetBuffer.data, packetBuffer.position);
        var o := HandleCookieRequest(channel, packetBuffer);
        if o.Fail? {
          return Abort(o.error);
        }
        return Reply(reply.value);
      }
      return Abort(UnexpectedPacketId(packetId.value));
    }

    /**
     * `checkForEncryptionRequest`: the probe, from where the channel stands,
     * with compression off.  It never fails: every error is the verdict
     * `Unknown`.
     */
    method CheckForEncryptionRequest(channel: Channel) returns (mode: OnlineMode)
      requires channel.Valid()
      modifies channel
      ensures channel.Valid()
      ensures var p := Login(channel.input, old(channel.consumed), NoCompression, inflate);
        mode == p.mode && channel.consumed == p.consumed && channel.output == old(channel.output) + Framed(p.replies)
    {
      var compressionThreshold := NoCompression;
      ghost var replies: seq<seq<byte>> := [];
      ThenNothing(Login(channel.input, channel.consumed, compressionThreshold, inflate));
      while true
        invariant channel.Valid()
        invariant channel.output == old(channel.output) + Framed(replies)
        invariant Login(channel.input, old(channel.consumed), NoCompression, inflate)
               == Then(replies, Login(channel.input, channel.consumed, compressionThreshold, inflate))
        decreases |channel.input| - channel.consumed
      {
        ghost var before := channel.consumed;
        ghost var round := LoginRound(channel.input, channel.consumed, compressionThreshold, inflate);
        var turn := LoginTurn(channel, compressionThreshold);
        if turn.Err? || turn.value.Finish? || turn.value.Abort? {
          LoginStops(channel.input, before, compressionThreshold, inflate, round);
          assert replies + [] == replies;
          return if turn.Ok? && turn.value.Finish? then turn.value.mode else Unknown;
        }
        LoginContinues(channel.input, before, compressionThreshold, inflate, round);
        ThenThen(replies, round.replies, Login(channel.input, channel.consumed, round.threshold, inflate));
        if turn.value.Compress? {
          assert replies + [] == replies;
          compressionThreshold := turn.value.threshold;
        } else {
          FramedAppend(replies, turn.value.response);
          AppendAssoc(old(channel.output), Framed(replies), Frame(turn.value.response));
          replies := replies + [turn.value.response];
        }
      }
    }

    /** One turn of the probe's loop: a packet read under the current threshold, and acted on. */
    method LoginTurn(channel: Channel, compressionThreshold: bv32) returns (r: Result<Action>)
      requires channel.Valid()
      modifies channel
      ensures channel.Valid()
      ensures var round := LoginRound(channel.input, old(channel.consumed), compressionThreshold, inflate);
        channel.consumed == round.consumed
        && round == (if r.Ok? then RoundOf(r.value, compressionThreshold, channel.consumed) else Stop(Unknown, channel.consumed))
      ensures channel.output == old(channel.output) + (if r.Ok? && r.value.Reply? then Frame(r.value.response) else [])
    {
      var packetBuffer := ReadPacket(channel, compressionThreshold);
      if packetBuffer.Err? {
        return Err(packetBuffer.error);
      }
      var action := Dispatch(channel, packetBuffer.value);
      return Ok(action);
    }

    /** `parseResponse`: the JSON bytes of the status response. */
    method ParseResponse(channel: Channel) returns (r: Result<seq<byte>>)
      requires channel.Valid()
      modifies channel
      ensures channel.Valid() && channel.output == old(channel.output)
      ensures r == StatusResponse(channel.input, old(channel.consumed)).result
      ensures channel.consumed == StatusResponse(channel.input, old(channel.consumed)).consumed
    {
      var frame := ReadFrame(channel);
      if frame.Err? {
        return Err(frame.error);
      }
      var packetBuffer := new ByteBuffer.Wrap(frame.value);
      var packetId := packetBuffer.ReadVarInt();
      if packetId.Err? {
        return Err(packetId.error);
      }
      if packetId.value != 0x00 {
        return Err(UnexpectedPacketId(packetId.value));
      }
      var jsonLength := packetBuffer.ReadVarInt();
      if jsonLength.Err? {
        return Err(jsonLength.error);
      }
      if IsNegative(jsonLength.value) {
        return Err(NegativeSize);
      }
      var jsonBytes := packetBuffer.Get(Length(jsonLength.value));
      if jsonBytes.Err? {
        return Err(jsonBytes.error);
      }
      return Ok(jsonBytes.value);
    }

    /** `query` once connected: the status handshake with version -1, the request, the response. */
    method Query(channel: Channel) returns (r: Result<seq<byte>>)
      requires channel.Valid()
      modifies channel
      ensures channel.Valid()
      ensures channel.output == old(channel.output)
        + Frame(HandshakeBytes(HandshakePacket(0xFFFF_FFFF, address, port, 1)))
        + Frame(StatusRequestBytes(StatusRequestPacket))
      ensures r == StatusResponse(channel.input, old(channel.consumed)).result
      ensures channel.consumed == StatusResponse(channel.input, old(channel.consumed)).consumed
    {
      SendHandshake(channel, 0xFFFF_FFFF);
      SendStatusRequest(channel);
      r := ParseResponse(channel);
    }

    /** `isEncrypted` once connected: the login handshake, login start, and the probe. */
    method IsEncrypted(channel: Channel, protocolVersion: bv32) returns (r: Result<OnlineMode>)
      requires channel.Valid()
      modifies channel
      ensures channel.Valid()
      ensures encryptionCheckUsername.None? ==>
        r == Err(MissingUsername) && channel.consumed == old(channel.consumed)
        && channel.output == old(channel.output) + Frame(HandshakeBytes(HandshakePacket(protocolVersion, address, port, 2)))
      ensures encryptionCheckUsername.Some? ==>
        var p := Login(channel.input, old(channel.consumed), NoCompression, inflate);
        r == Ok(p.mode) && channel.consumed == p.consumed
        && channel.output == old(channel.output)
           + Frame(HandshakeBytes(HandshakePacket(protocolVersion, address, port, 2)))
           + Frame(LoginStartBytes(LoginStartPacket(encryptionCheckUsername.value, protocolVersion), nameUuid))
           + Framed(p.replies)
    {
      SendLoginHandshake(channel, protocolVersion);
      var o := SendLoginStart(channel, protocolVersion);
      if o.Fail? {
        return Err(o.error);
      }
      var mode := CheckForEncryptionRequest(channel);
      return Ok(mode);
    }
  }
}
