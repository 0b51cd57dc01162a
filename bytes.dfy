/**
 * Basic vocabulary shared by the whole model: JVM bytes and integers as
 * bit-vectors, the optional and fallible results the Kotlin code expresses
 * with nulls and exceptions, and a few conversions between them.
 */
module Bytes {

  /** A JVM `Byte`, taken as its 8 raw bits. */
  type byte = bv8

  datatype Option<T> = None | Some(value: T)

  /**
   * The exceptions the core can raise while reading or writing.  Each one
   * names the JVM exception (or missing-value condition) it stands for.
   */
  datatype Error =
    | BufferUnderflow                  // java.nio.BufferUnderflowException
    | EndOfStream                      // java.io.EOFException
    | NegativeSize                     // NegativeArraySizeException / IllegalArgumentException
    | DecompressionFailure             // IOException wrapping a DataFormatException
    | UnexpectedPacketId(id: bv32)     // the IOException raised for a wrong packet id
    | MissingUsername                  // the NullPointerException of `!!` on a null username

  datatype Result<T> = Ok(value: T) | Err(error: Error)

  /** The result of an operation that returns `Unit` or throws. */
  datatype Outcome = Pass | Fail(error: Error)

  /** A Kotlin `Int` is negative exactly when its sign bit is set. */
  predicate IsNegative(v: bv32) {
    v & 0x8000_0000 != 0
  }

  /**
   * The `Int` that Kotlin's `.size` of an array of `n` elements yields: the
   * low 32 binary digits of `n`.  JVM arrays hold fewer than 2^31 elements,
   * so on every size that can occur this is `n` itself (`SizeRoundTrip`).
   */
  function SizeOf(n: nat): bv32
    decreases n
  {
    if n == 0 then 0 else (SizeOf(n / 2) << 1) | (if n % 2 == 0 then 0 else 1)
  }

  /** The byte `writeByte` emits for an `Int`: its low 8 bits. */
  function LowByte(v: bv32): byte {
    (v & 0xFF) as byte
  }

  /** The number an `Int` stands for when used as a count of bytes: its unsigned value. */
  function Length(v: bv32): nat
    decreases v
  {
    if v == 0 then 0 else 2 * Length(v >> 1) + (if v & 1 == 0 then 0 else 1)
  }

  /** A size below 2^31 is a non-negative `Int` that stands for that very count. */
  lemma SizeRoundTrip(n: nat)
    requires n < 0x8000_0000
    ensures !IsNegative(SizeOf(n))
    ensures Length(SizeOf(n)) == n
  {
    Pow2Of31();
    SizeOfBelow(n, 31);
  }

  // The proof of `SizeRoundTrip` follows `SizeOf` bit by bit.  Facts about
  // bit-vectors and facts about integers are kept in separate lemmas.

  function Pow2(k: bv32): nat
    decreases k
  {
    if k == 0 then 1 else 2 * Pow2(k - 1)
  }

  lemma Pow2Of31()
    ensures Pow2(31) == 0x8000_0000
  {
    assert Pow2(1) == 0x2;
    assert Pow2(2) == 0x4;
    assert Pow2(3) == 0x8;
    assert Pow2(4) == 0x10;
    assert Pow2(5) == 0x20;
    assert Pow2(6) == 0x40;
    assert Pow2(7) == 0x80;
    assert Pow2(8) == 0x100;
    assert Pow2(9) == 0x200;
    assert Pow2(10) == 0x400;
    assert Pow2(11) == 0x800;
    assert Pow2(12) == 0x1000;
    assert Pow2(13) == 0x2000;
    assert Pow2(14) == 0x4000;
    assert Pow2(15) == 0x8000;
    assert Pow2(16) == 0x10000;
    assert Pow2(17) == 0x20000;
    assert Pow2(18) == 0x40000;
    assert Pow2(19) == 0x80000;
    assert Pow2(20) == 0x100000;
    assert Pow2(21) == 0x200000;
    assert Pow2(22) == 0x400000;
    assert Pow2(23) == 0x800000;
    assert Pow2(24) == 0x1000000;
    assert Pow2(25) == 0x2000000;
    assert Pow2(26) == 0x4000000;
    assert Pow2(27) == 0x8000000;
    assert Pow2(28) == 0x10000000;
    assert Pow2(29) == 0x20000000;
    assert Pow2(30) == 0x40000000;
  }

  lemma HalfBelow(n: nat, k: bv32)
    requires 1 <= k <= 31 && n < Pow2(k)
    ensures n / 2 < Pow2(k - 1)
  {}

  lemma ShiftIn(x: bv32, b: bv32, k: bv32)
    requires 1 <= k <= 31 && x < 1 << (k - 1) && (b == 0 || b == 1)
    ensures (x << 1) | b < 1 << k
    ensures x < 0x8000_0000
  {}

  lemma ShiftOut(x: bv32, b: bv32)
    requires x < 0x8000_0000 && (b == 0 || b == 1)
    ensures ((x << 1) | b) >> 1 == x
    ensures ((x << 1) | b) & 1 == b
    ensures (x << 1) | b == 0 <==> x == 0 && b == 0
  {}

  lemma LengthShiftIn(x: bv32, b: bv32)
    requires x < 0x8000_0000 && (b == 0 || b == 1)
    ensures Length((x << 1) | b) == 2 * Length(x) + (if b == 0 then 0 else 1)
  {
    ShiftOut(x, b);
  }

  lemma SizeOfStep(n: nat)
    requires n > 0
    ensures SizeOf(n) == (SizeOf(n / 2) << 1) | (if n % 2 == 0 then 0 else 1)
  {}

  lemma SizeOfBoundStep(n: nat, k: bv32)
    requires n > 0 && 1 <= k <= 31 && SizeOf(n / 2) < 1 << (k - 1)
    ensures SizeOf(n) < 1 << k
    ensures SizeOf(n / 2) < 0x8000_0000
  {
    SizeOfStep(n);
    if n % 2 == 0 {
      ShiftIn(SizeOf(n / 2), 0, k);
    } else {
      ShiftIn(SizeOf(n / 2), 1, k);
    }
  }

  lemma SizeOfLengthStep(n: nat)
    requires n > 0 && SizeOf(n / 2) < 0x8000_0000
    ensures Length(SizeOf(n)) == 2 * Length(SizeOf(n / 2)) + n % 2
  {
    SizeOfStep(n);
    if n % 2 == 0 {
      LengthShiftIn(SizeOf(n / 2), 0);
    } else {
      LengthShiftIn(SizeOf(n / 2), 1);
    }
  }

  lemma {:induction false} SizeOfBelow(n: nat, k: bv32)
    requires k <= 31 && n < Pow2(k)
    ensures SizeOf(n) < 1 << k
    ensures Length(SizeOf(n)) == n
    decreases n
  {
    if n > 0 {
      HalfBelow(n, k);
      SizeOfBelow(n / 2, k - 1);
      SizeOfBoundStep(n, k);
      SizeOfLengthStep(n);
    }
  }

  /**
   * The UTF-8 bytes of an ASCII string literal (each character is its own
   * code unit; only used on the fixed literals of the protocol).
   */
  function Ascii(s: string): (r: seq<byte>)
    ensures |r| == |s|
  {
    seq(|s|, i requires 0 <= i < |s| => (s[i] as int % 256) as byte)
  }

  lemma AppendAssoc<T>(a: seq<T>, b: seq<T>, c: seq<T>)
    ensures (a + b) + c == a + (b + c)
  {}

  /** `field` sitting at position `pos` of `buf`. */
  predicate At(buf: seq<byte>, pos: nat, field: seq<byte>) {
    pos + |field| <= |buf| && buf[pos..pos + |field|] == field
  }

  lemma AtWhole(buf: seq<byte>)
    ensures At(buf, 0, buf)
  {
    assert buf[0..|buf|] == buf;
  }

  /** Two fields written one after the other sit one after the other. */
  lemma AtSplit(buf: seq<byte>, pos: nat, a: seq<byte>, b: seq<byte>)
    requires At(buf, pos, a + b)
    ensures At(buf, pos, a) && At(buf, pos + |a|, b)
  {
    assert buf[pos..pos + |a|] == (a + b)[..|a|];
    assert buf[pos + |a|..pos + |a| + |b|] == (a + b)[|a|..];
  }

  /** `n` zero bytes: a freshly allocated `ByteArray(n)`. */
  function Zeros(n: nat): (r: seq<byte>)
    ensures |r| == n
    ensures forall i | 0 <= i < n :: r[i] == 0
  {
    seq(n, _ => 0)
  }
}
