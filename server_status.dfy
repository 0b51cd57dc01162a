/**
 * `MCServerStatus`: the decoded status of a server, with the hand-written
 * `equals` and `hashCode` of its data class.  Equality compares the version,
 * the description, the players and the favicon by content, and ignores
 * whether the server enforces secure chat; `hashCode` mixes the same four
 * parts with the JVM's 31-multiplier, in 32-bit arithmetic.
 *
 * The description is an adventure `Component`, a foreign type: it is a type
 * parameter here, compared with its own equality and hashed by a given
 * function.  Names are sequences of UTF-16 code units, as JVM strings are.
 */
module ServerStatus {
  import opened Bytes
  import opened Streams

  datatype Version = Version(name: seq<bv16>, protocol: bv32)
  datatype Players = Players(max: bv32, online: bv32)

  datatype MCServerStatus<D> = MCServerStatus(
    version: Version,
    players: Players,
    description: D,
    favicon: Option<seq<byte>>,
    enforcesSecureChat: bool)

  /** The defaults: version ("", -1), no players, the given empty text, no favicon, no secure chat. */
  function DefaultStatus<D>(emptyText: D): (s: MCServerStatus<D>)
    ensures s.version.name == [] && s.version.protocol == 0xFFFF_FFFF
    ensures s.players == Players(0, 0) && s.description == emptyText
    ensures s.favicon.None? && !s.enforcesSecureChat
  {
    MCServerStatus(Version([], 0xFFFF_FFFF), Players(0, 0), emptyText, None, false)
  }

  /**
   * `equals(other)`.  `other` is `None` for `null` and for an object of
   * another class, which the class check refuses alike.
   */
  function Equals<D(==)>(s: MCServerStatus<D>, other: Option<MCServerStatus<D>>): bool {
    if other.None? then false
    else
      var o := other.value;
      if s.version != o.version then false
      else if s.description != o.description then false
      else if s.players != o.players then false
      else if s.favicon.Some? then o.favicon.Some? && s.favicon.value == o.favicon.value
      else o.favicon.None?
  }

  /** Two statuses are equal exactly when they agree on everything but the secure-chat flag. */
  lemma EqualsExactly<D>(s: MCServerStatus<D>, o: MCServerStatus<D>)
    ensures Equals(s, Some(o)) <==> s.(enforcesSecureChat := o.enforcesSecureChat) == o
  {
    var t := s.(enforcesSecureChat := o.enforcesSecureChat);
    assert t.version == s.version && t.players == s.players && t.description == s.description && t.favicon == s.favicon;
    if Equals(s, Some(o)) {
      assert s.favicon == o.favicon;
    }
  }

  /** The secure-chat flag is ignored. */
  lemma IgnoresSecureChat<D>(s: MCServerStatus<D>, flag: bool)
    ensures Equals(s, Some(s.(enforcesSecureChat := flag)))
  {
    EqualsExactly(s, s.(enforcesSecureChat := flag));
  }

  /** The favicon is compared by content, and null equals only null. */
  lemma FaviconByContent<D>(s: MCServerStatus<D>, favicon: Option<seq<byte>>)
    ensures Equals(s, Some(s.(favicon := favicon))) <==> s.favicon == favicon
  {}

  lemma NotEqualToNull<D>(s: MCServerStatus<D>)
    ensures !Equals(s, None)
  {}

  lemma EqualsReflexive<D>(s: MCServerStatus<D>)
    ensures Equals(s, Some(s))
  {
    EqualsExactly(s, s);
  }

  lemma EqualsSymmetric<D>(s: MCServerStatus<D>, o: MCServerStatus<D>)
    ensures Equals(s, Some(o)) == Equals(o, Some(s))
  {
    EqualsExactly(s, o);
    EqualsExactly(o, s);
    if Equals(s, Some(o)) {
      assert o.(enforcesSecureChat := s.enforcesSecureChat) == s;
    }
    if Equals(o, Some(s)) {
      assert s.(enforcesSecureChat := o.enforcesSecureChat) == o;
    }
  }

  lemma EqualsTransitive<D>(a: MCServerStatus<D>, b: MCServerStatus<D>, c: MCServerStatus<D>)
    requires Equals(a, Some(b)) && Equals(b, Some(c))
    ensures Equals(a, Some(c))
  {
    EqualsExactly(a, b);
    EqualsExactly(b, c);
    EqualsExactly(a, c);
  }

  // ---------------------------------------------------------------------
  // Hash codes, in `Int` arithmetic

  /** `31 * h` in `Int` arithmetic: `32 * h - h`, modulo 2^32. */
  function Times31(h: bv32): bv32 {
    (h << 5) - h
  }

  /** One step of `String.hashCode`: `31 * h + c` for the next UTF-16 code unit. */
  function CharStep(h: bv32, c: bv16): bv32 {
    Times31(h) + c as bv32
  }

  /** `String.hashCode`: `CharStep` over the code units, from 0. */
  function StringHash(s: seq<bv16>): bv32 {
    if |s| == 0 then 0 else CharStep(StringHash(s[..|s| - 1]), s[|s| - 1])
  }

  /** One step of `ByteArray.contentHashCode`: `31 * h + b` for the next byte, taken with its sign. */
  function ByteStep(h: bv32, b: byte): bv32 {
    Times31(h) + SignExtend(b)
  }

  /** `ByteArray.contentHashCode`: `ByteStep` over the bytes, from 1. */
  function ContentHash(bytes: seq<byte>): bv32 {
    if |bytes| == 0 then 1 else ByteStep(ContentHash(bytes[..|bytes| - 1]), bytes[|bytes| - 1])
  }

  /** The data-class hash of `Version(name, protocol)`. */
  function VersionHash(v: Version): bv32 {
    Times31(StringHash(v.name)) + v.protocol
  }

  /** The data-class hash of `Players(max, online)`. */
  function PlayersHash(p: Players): bv32 {
    Times31(p.max) + p.online
  }

  /** The favicon's part of `hashCode()`: its content hash, or 0 when there is none. */
  function FaviconHash(favicon: Option<seq<byte>>): bv32 {
    if favicon.Some? then ContentHash(favicon.value) else 0
  }

  /** Four part hashes mixed left to right, each step `31 * result + part`. */
  function Mix(version: bv32, description: bv32, players: bv32, favicon: bv32): bv32 {
    Times31(Times31(Times31(version) + description) + players) + favicon
  }

  /** `hashCode()`: version, description, players, then the favicon. */
  function HashCode<D>(s: MCServerStatus<D>, descriptionHash: D -> bv32): bv32 {
    Mix(VersionHash(s.version), descriptionHash(s.description), PlayersHash(s.players), FaviconHash(s.favicon))
  }

  /** Equal statuses have equal hash codes. */
  lemma HashCodeConsistent<D>(s: MCServerStatus<D>, o: MCServerStatus<D>, descriptionHash: D -> bv32)
    requires Equals(s, Some(o))
    ensures HashCode(s, descriptionHash) == HashCode(o, descriptionHash)
  {
    EqualsExactly(s, o);
    var t := s.(enforcesSecureChat := o.enforcesSecureChat);
    assert t.version == o.version && t.description == o.description;
    assert t.players == o.players && t.favicon == o.favicon;
  }

  /** Appending one code unit to a name steps its hash once. */
  lemma StringHashAppend(s: seq<bv16>, c: bv16)
    ensures StringHash(s + [c]) == Times31(StringHash(s)) + c as bv32
  {
    StringHashSnoc(s, c);
    CharStepIs(StringHash(s), c);
  }

  lemma StringHashSnoc(s: seq<bv16>, c: bv16)
    ensures StringHash(s + [c]) == CharStep(StringHash(s), c)
  {
    assert (s + [c])[..|s|] == s;
  }

  lemma CharStepIs(h: bv32, c: bv16)
    ensures CharStep(h, c) == Times31(h) + c as bv32
  {}

  /** Appending one byte to a favicon steps its hash once. */
  lemma ContentHashAppend(bytes: seq<byte>, b: byte)
    ensures ContentHash(bytes + [b]) == Times31(ContentHash(bytes)) + SignExtend(b)
  {
    ContentHashSnoc(bytes, b);
    ByteStepIs(ContentHash(bytes), b);
  }

  lemma ContentHashSnoc(bytes: seq<byte>, b: byte)
    ensures ContentHash(bytes + [b]) == ByteStep(ContentHash(bytes), b)
  {
    assert (bytes + [b])[..|bytes|] == bytes;
  }

  lemma ByteStepIs(h: bv32, b: byte)
    ensures ByteStep(h, b) == Times31(h) + SignExtend(b)
  {}

  /**
   * A missing favicon adds 0 and an empty one adds 1, so the two hash
   * differently; the same status with no favicon hashes to 31 times the
   * hash of its first three parts.
   */
  lemma NullFaviconHash<D>(s: MCServerStatus<D>, descriptionHash: D -> bv32)
    ensures HashCode(s.(favicon := None), descriptionHash) + 1 == HashCode(s.(favicon := Some([])), descriptionHash)
  {
    assert FaviconHash(Some([])) == 1;
  }

  /** The bytes 0x80 and 0x7F hash as -128 and 127: bytes count with their sign. */
  lemma SignedContentHash()
    ensures ContentHash([0x80]) == 31 + 0xFFFF_FF80
    ensures ContentHash([0x7F]) == 31 + 0x7F
  {
    ContentHashAppend([], 0x80);
    ContentHashAppend([], 0x7F);
    assert [] + [0x80 as byte] == [0x80];
    assert [] + [0x7F as byte] == [0x7F];
  }
}
