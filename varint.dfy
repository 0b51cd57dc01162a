/**
 * The Minecraft VarInt: a 32-bit `Int` written as groups of seven bits,
 * least significant group first, with the top bit of every byte except the
 * last set as a continuation flag.  Negative values are written through
 * their unsigned bit pattern (the encoders shift with `ushr`), so they
 * always take five bytes.
 *
 * `Encode` is the byte sequence all three encoders of the source produce,
 * `Decode` the value all three decoders reconstruct; the lemmas below relate
 * the two.
 */
module VarInt {
  import opened Bytes

  /** The low seven bits of `v` as a byte, continuation flag clear. */
  function Low7Byte(v: bv32): byte {
    (v & 0x7F) as byte
  }

  function Encode(v: bv32): seq<byte>
    decreases v
  {
    if v >> 7 == 0 then [Low7Byte(v)] else [Low7Byte(v) | 0x80] + Encode(v >> 7)
  }

  /** What the decoders OR into their accumulator for one byte: `(b and 0x7F)` as an `Int`. */
  function Payload(b: byte): bv32 {
    (b & 0x7F) as bv32
  }

  /**
   * One decoding step: `value or ((b and 0x7F) shl shift)`.  The shift
   * distance is an `Int` of which the JVM uses only the low five bits.
   */
  function Accumulate(acc: bv32, b: byte, shift: bv32): bv32 {
    acc | (Payload(b) << (shift & 31))
  }

  /** The value read from `buf` at `pos`, and the position just after it. */
  datatype Decoded = Decoded(value: bv32, next: nat)

  /**
   * Decoding from `pos` onwards, `shift` bits already filled into `acc`.
   * There is no limit on the number of bytes (none of the decoders rejects a
   * sixth byte); decoding fails only when the input runs out before a byte
   * with a clear top bit.
   */
  function DecodeFrom(buf: seq<byte>, pos: nat, shift: bv32, acc: bv32): (r: Option<Decoded>)
    ensures r.Some? ==> pos < r.value.next <= |buf|
    decreases |buf| - pos
  {
    if pos >= |buf| then None
    else
      var acc' := Accumulate(acc, buf[pos], shift);
      if buf[pos] & 0x80 == 0 then Some(Decoded(acc', pos + 1))
      else DecodeFrom(buf, pos + 1, shift + 7, acc')
  }

  function Decode(buf: seq<byte>, pos: nat): (r: Option<Decoded>)
    ensures r.Some? ==> pos < r.value.next <= |buf|
  {
    DecodeFrom(buf, pos, 0, 0)
  }

  /** One step of `Encode`, for proofs that follow an encoder's loop. */
  lemma EncodeUnfold(r: bv32)
    ensures Encode(r) == if r >> 7 == 0 then [Low7Byte(r)] else [Low7Byte(r) | 0x80] + Encode(r >> 7)
  {}

  /** The decoders' own expression for one step is `Accumulate`. */
  lemma AccumulateStep(value: bv32, b: byte, shift: bv32)
    ensures value | (((b & 0x7F) as bv32) << (shift & 31)) == Accumulate(value, b, shift)
  {}

  /** One step of `DecodeFrom`, for proofs that follow a decoder's loop. */
  lemma DecodeUnfold(buf: seq<byte>, pos: nat, shift: bv32, acc: bv32)
    ensures DecodeFrom(buf, pos, shift, acc) ==
      if pos >= |buf| then None
      else if buf[pos] & 0x80 == 0 then Some(Decoded(Accumulate(acc, buf[pos], shift), pos + 1))
      else DecodeFrom(buf, pos + 1, shift + 7, Accumulate(acc, buf[pos], shift))
  {}

  /** The writers' test `(r and 0x7F) == r` and their `writeByte` arguments, bit by bit. */
  lemma WriterBits(r: bv32)
    ensures (r & 0x7F == r) == (r >> 7 == 0)
    ensures r & 0x7F == r ==> LowByte(r) == Low7Byte(r)
    ensures LowByte((r & 0x7F) | 0x80) == Low7Byte(r) | 0x80
    ensures r & 0x7F != r ==> r >> 7 < r
  {}

  /**
   * One step of `Encode` as the `writeByte` loops of `PacketBuilder` and
   * `MinecraftServerPing` produce it: a value equal to its own low seven
   * bits is its last byte; otherwise a flagged byte is followed by the rest.
   */
  lemma WriterStep(r: bv32)
    ensures r & 0x7F == r ==> Encode(r) == [LowByte(r)]
    ensures r & 0x7F != r ==> Encode(r) == [LowByte((r & 0x7F) | 0x80)] + Encode(r >> 7) && r >> 7 < r
  {
    WriterBits(r);
    EncodeUnfold(r);
  }

  // ---------------------------------------------------------------------
  // Size of the encoding

  /** The number of bytes a value needs, by the ranges of its magnitude. */
  function Size(v: bv32): nat {
    if v < 0x80 then 1
    else if v < 0x4000 then 2
    else if v < 0x20_0000 then 3
    else if v < 0x1000_0000 then 4
    else 5
  }

  lemma SizeStep(v: bv32)
    ensures Size(v) == if v >> 7 == 0 then 1 else 1 + Size(v >> 7)
  {}

  lemma {:induction false} EncodeSize(v: bv32)
    ensures |Encode(v)| == Size(v)
    ensures 1 <= |Encode(v)| <= 5
    ensures IsNegative(v) ==> |Encode(v)| == 5
    decreases v
  {
    SizeStep(v);
    if v >> 7 != 0 {
      EncodeSize(v >> 7);
    }
  }

  lemma SmallByte(v: bv32)
    requires v < 0x80
    ensures v >> 7 == 0 && Low7Byte(v) == v as byte
  {}

  /** A value below 128 is its own single byte. */
  lemma EncodeSmall(v: bv32)
    requires v < 0x80
    ensures Encode(v) == [v as byte]
  {
    SmallByte(v);
  }

  // ---------------------------------------------------------------------
  // Continuation flags

  lemma FlagBits(v: bv32)
    ensures (Low7Byte(v) | 0x80) & 0x80 != 0
    ensures Low7Byte(v) & 0x80 == 0
  {}

  /** Exactly the last byte of an encoding has its top bit clear. */
  lemma {:induction false} EncodeFlags(v: bv32)
    ensures forall i | 0 <= i < |Encode(v)| - 1 :: Encode(v)[i] & 0x80 != 0
    ensures Encode(v)[|Encode(v)| - 1] & 0x80 == 0
    decreases v
  {
    FlagBits(v);
    if v >> 7 != 0 {
      EncodeFlags(v >> 7);
      var e := Encode(v);
      assert e[1..] == Encode(v >> 7);
      forall i | 0 <= i < |e| - 1
        ensures e[i] & 0x80 != 0
      {
        if i > 0 {
          assert e[i] == Encode(v >> 7)[i - 1];
        }
      }
    }
  }

  /**
   * Decoding consumes bytes up to and including the first one whose top bit
   * is clear, and fails exactly when no such byte follows `pos`.
   */
  lemma {:induction false} DecodeFromStops(buf: seq<byte>, pos: nat, shift: bv32, acc: bv32)
    ensures DecodeFrom(buf, pos, shift, acc).Some? ==>
      var q := DecodeFrom(buf, pos, shift, acc).value.next;
      buf[q - 1] & 0x80 == 0 && forall i | pos <= i < q - 1 :: buf[i] & 0x80 != 0
    ensures DecodeFrom(buf, pos, shift, acc).None? <==> forall i | pos <= i < |buf| :: buf[i] & 0x80 != 0
    decreases |buf| - pos
  {
    if pos < |buf| && buf[pos] & 0x80 != 0 {
      DecodeFromStops(buf, pos + 1, shift + 7, Accumulate(acc, buf[pos], shift));
    }
  }

  lemma DecodeStops(buf: seq<byte>, pos: nat)
    ensures Decode(buf, pos).Some? ==>
      var q := Decode(buf, pos).value.next;
      buf[q - 1] & 0x80 == 0 && forall i | pos <= i < q - 1 :: buf[i] & 0x80 != 0
    ensures Decode(buf, pos).None? <==> forall i | pos <= i < |buf| :: buf[i] & 0x80 != 0
  {
    DecodeFromStops(buf, pos, 0, 0);
  }

  // ---------------------------------------------------------------------
  // Round trip.  The proof walks the five seven-bit groups; the bit-vector
  // facts of each group are kept in lemmas of their own (`Merge0` ..
  // `Merge28`), separate from the facts about sequences (`GroupStep`).

  lemma DecodeContinue(buf: seq<byte>, pos: nat, shift: bv32, acc: bv32)
    requires pos < |buf| && buf[pos] & 0x80 != 0
    ensures DecodeFrom(buf, pos, shift, acc) == DecodeFrom(buf, pos + 1, shift + 7, Accumulate(acc, buf[pos], shift))
  {}

  lemma DecodeLast(buf: seq<byte>, pos: nat, shift: bv32, acc: bv32)
    requires pos < |buf| && buf[pos] & 0x80 == 0
    ensures DecodeFrom(buf, pos, shift, acc) == Some(Decoded(Accumulate(acc, buf[pos], shift), pos + 1))
  {}

  lemma GroupBits(r: bv32)
    ensures Payload(Low7Byte(r) | 0x80) == r & 0x7F
    ensures (Low7Byte(r) | 0x80) & 0x80 != 0
    ensures r >> 7 == 0 ==> Payload(Low7Byte(r)) == r && Low7Byte(r) & 0x80 == 0
  {}

  /** `Encode(r)` sitting at `pos` in `buf`. */
  predicate EncodedAt(buf: seq<byte>, pos: nat, r: bv32) {
    pos + |Encode(r)| <= |buf| && buf[pos..pos + |Encode(r)|] == Encode(r)
  }

  lemma EncodedTail(buf: seq<byte>, pos: nat, r: bv32)
    requires EncodedAt(buf, pos, r)
    ensures buf[pos] == Encode(r)[0]
    ensures r >> 7 != 0 ==> |Encode(r)| == 1 + |Encode(r >> 7)| && EncodedAt(buf, pos + 1, r >> 7)
  {
    var e := Encode(r);
    assert buf[pos] == e[0];
    if r >> 7 != 0 {
      assert e[1..] == Encode(r >> 7);
      assert buf[pos + 1..pos + |e|] == e[1..];
    }
  }

  lemma GroupStep(buf: seq<byte>, pos: nat, r: bv32, shift: bv32, acc: bv32)
    requires EncodedAt(buf, pos, r)
    ensures Payload(buf[pos]) == r & 0x7F
    ensures r >> 7 == 0 ==>
      DecodeFrom(buf, pos, shift, acc) == Some(Decoded(Accumulate(acc, buf[pos], shift), pos + 1)) && |Encode(r)| == 1
    ensures r >> 7 != 0 ==>
      DecodeFrom(buf, pos, shift, acc) == DecodeFrom(buf, pos + 1, shift + 7, Accumulate(acc, buf[pos], shift))
    ensures r >> 7 != 0 ==> |Encode(r)| == 1 + |Encode(r >> 7)| && EncodedAt(buf, pos + 1, r >> 7)
  {
    EncodedTail(buf, pos, r);
    GroupBits(r);
    if r >> 7 == 0 {
      DecodeLast(buf, pos, shift, acc);
    } else {
      DecodeContinue(buf, pos, shift, acc);
    }
  }

  lemma Merge0(acc: bv32, b: byte, r: bv32)
    requires Payload(b) == r & 0x7F
    ensures r >> 7 == 0 ==> Accumulate(acc, b, 0) == acc | r
    ensures r >> 7 != 0 ==> Accumulate(acc, b, 0) | ((r >> 7) << 7) == acc | r
    ensures r >> 7 <= 0x1FF_FFFF
  {}

  lemma Merge7(acc: bv32, b: byte, r: bv32)
    requires Payload(b) == r & 0x7F
    requires r <= 0x1FF_FFFF
    ensures r >> 7 == 0 ==> Accumulate(acc, b, 7) == acc | (r << 7)
    ensures r >> 7 != 0 ==> Accumulate(acc, b, 7) | ((r >> 7) << 14) == acc | (r << 7)
    ensures r >> 7 <= 0x3_FFFF
  {}

  lemma Merge14(acc: bv32, b: byte, r: bv32)
    requires Payload(b) == r & 0x7F
    requires r <= 0x3_FFFF
    ensures r >> 7 == 0 ==> Accumulate(acc, b, 14) == acc | (r << 14)
    ensures r >> 7 != 0 ==> Accumulate(acc, b, 14) | ((r >> 7) << 21) == acc | (r << 14)
    ensures r >> 7 <= 0x7FF
  {}

  lemma Merge21(acc: bv32, b: byte, r: bv32)
    requires Payload(b) == r & 0x7F
    requires r <= 0x7FF
    ensures r >> 7 == 0 ==> Accumulate(acc, b, 21) == acc | (r << 21)
    ensures r >> 7 != 0 ==> Accumulate(acc, b, 21) | ((r >> 7) << 28) == acc | (r << 21)
    ensures r >> 7 <= 0xF
  {}

  lemma Merge28(acc: bv32, b: byte, r: bv32)
    requires Payload(b) == r & 0x7F
    requires r <= 0xF
    ensures r >> 7 == 0
    ensures Accumulate(acc, b, 28) == acc | (r << 28)
  {}

  /** Decoding `Encode(r)` with the first 28 bits filled ORs in `r` as the top group. */
  lemma Shifted28(buf: seq<byte>, pos: nat, r: bv32, acc: bv32)
    requires r <= 0xF && EncodedAt(buf, pos, r)
    ensures DecodeFrom(buf, pos, 28, acc) == Some(Decoded(acc | (r << 28), pos + |Encode(r)|))
  {
    GroupStep(buf, pos, r, 28, acc);
    Merge28(acc, buf[pos], r);
  }

  lemma Shifted21(buf: seq<byte>, pos: nat, r: bv32, acc: bv32)
    requires r <= 0x7FF && EncodedAt(buf, pos, r)
    ensures DecodeFrom(buf, pos, 21, acc) == Some(Decoded(acc | (r << 21), pos + |Encode(r)|))
  {
    GroupStep(buf, pos, r, 21, acc);
    Merge21(acc, buf[pos], r);
    if r >> 7 != 0 {
      Shifted28(buf, pos + 1, r >> 7, Accumulate(acc, buf[pos], 21));
    }
  }

  lemma Shifted14(buf: seq<byte>, pos: nat, r: bv32, acc: bv32)
    requires r <= 0x3_FFFF && EncodedAt(buf, pos, r)
    ensures DecodeFrom(buf, pos, 14, acc) == Some(Decoded(acc | (r << 14), pos + |Encode(r)|))
  {
    GroupStep(buf, pos, r, 14, acc);
    Merge14(acc, buf[pos], r);
    if r >> 7 != 0 {
      Shifted21(buf, pos + 1, r >> 7, Accumulate(acc, buf[pos], 14));
    }
  }

  lemma Shifted7(buf: seq<byte>, pos: nat, r: bv32, acc: bv32)
    requires r <= 0x1FF_FFFF && EncodedAt(buf, pos, r)
    ensures DecodeFrom(buf, pos, 7, acc) == Some(Decoded(acc | (r << 7), pos + |Encode(r)|))
  {
    GroupStep(buf, pos, r, 7, acc);
    Merge7(acc, buf[pos], r);
    if r >> 7 != 0 {
      Shifted14(buf, pos + 1, r >> 7, Accumulate(acc, buf[pos], 7));
    }
  }

  lemma Shifted0(buf: seq<byte>, pos: nat, r: bv32, acc: bv32)
    requires EncodedAt(buf, pos, r)
    ensures DecodeFrom(buf, pos, 0, acc) == Some(Decoded(acc | r, pos + |Encode(r)|))
  {
    GroupStep(buf, pos, r, 0, acc);
    Merge0(acc, buf[pos], r);
    if r >> 7 != 0 {
      Shifted7(buf, pos + 1, r >> 7, Accumulate(acc, buf[pos], 0));
    }
  }

  lemma OrZero(v: bv32)
    ensures 0 | v == v
  {}

  /** Decoding an encoding, wherever it sits, gives back the value and the position after it. */
  lemma DecodeEncodedAt(buf: seq<byte>, pos: nat, v: bv32)
    requires EncodedAt(buf, pos, v)
    ensures Decode(buf, pos) == Some(Decoded(v, pos + |Encode(v)|))
  {
    Shifted0(buf, pos, v, 0);
    OrZero(v);
  }

  /** `DecodeEncodedAt`, for an encoding located with `Bytes.At`. */
  lemma DecodeAt(buf: seq<byte>, pos: nat, v: bv32)
    requires At(buf, pos, Encode(v))
    ensures Decode(buf, pos) == Some(Decoded(v, pos + |Encode(v)|))
  {
    DecodeEncodedAt(buf, pos, v);
  }

  /** The round trip with arbitrary bytes before and after the encoding. */
  lemma DecodeEncode(prefix: seq<byte>, v: bv32, rest: seq<byte>)
    ensures Decode(prefix + Encode(v) + rest, |prefix|) == Some(Decoded(v, |prefix| + |Encode(v)|))
  {
    var buf := prefix + Encode(v) + rest;
    assert buf[|prefix|..|prefix| + |Encode(v)|] == Encode(v);
    DecodeEncodedAt(buf, |prefix|, v);
  }

  /** Different values never share an encoding. */
  lemma EncodeInjective(a: bv32, b: bv32)
    requires Encode(a) == Encode(b)
    ensures a == b
  {
    DecodeEncode([], a, []);
    DecodeEncode([], b, []);
  }

  /** Encodings of well-known values. */
  lemma EncodeExamples()
    ensures Encode(0) == [0x00]
    ensures Encode(1) == [0x01]
    ensures Encode(2) == [0x02]
    ensures Encode(300) == [0xAC, 0x02]
    ensures Encode(25565) == [0xDD, 0xC7, 0x01]
    ensures Encode(0xFFFF_FFFF) == [0xFF, 0xFF, 0xFF, 0xFF, 0x0F]
  {
    assert Encode(0xF) == [0x0F];
    assert Encode(0x1FFF) == [0xFF, 0x3F];
    assert Encode(0x1F_FFFF) == [0xFF, 0xFF, 0x7F] by {
      assert Encode(0x3FFF) == [0xFF, 0x7F];
    }
    assert Encode(0x1FF_FFFF) == [0xFF, 0xFF, 0xFF, 0x0F] by {
      assert Encode(0x3_FFFF) == [0xFF, 0xFF, 0x0F] by {
        assert Encode(0x7FF) == [0xFF, 0x0F];
      }
    }
  }
}
