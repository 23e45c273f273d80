/** The payload checksum: the bitwise loop, its table-driven form and what it detects.

    A `uint32_t` register is its 32 bits, least significant first; `ToBits` and `FromBits` relate it
    to its numeric value. */
module Crc32 {
  import opened Bytes

  type Word = w: seq<bool> | |w| == 32 witness Zeros(32)

  function ToBits(n: nat, k: nat): (r: seq<bool>)
    ensures |r| == k
  {
    if k == 0 then [] else [n % 2 == 1] + ToBits(n / 2, k - 1)
  }

  function FromBits(w: seq<bool>): nat
  {
    if w == [] then 0 else (if w[0] then 1 else 0) + 2 * FromBits(w[1..])
  }

  function Pow2(k: nat): nat
  {
    if k == 0 then 1 else 2 * Pow2(k - 1)
  }

  function Zeros(k: nat): (r: seq<bool>)
    ensures |r| == k
  {
    seq(k, _ => false)
  }

  /** The constant 0xEDB88320: coefficient `i` belongs to the power 31 - `i` of the generator. */
  const POLYNOMIAL: Word := [
    false, false, false, false, false, true, false, false,
    true, true, false, false, false, false, false, true,
    false, false, false, true, true, true, false, true,
    true, false, true, true, false, true, true, true
  ]
  const ALL_ONES: Word := Negate(true)
  const ZERO: Word := Zeros(32)

  function Xor(u: seq<bool>, v: seq<bool>): (r: seq<bool>)
    requires |u| == |v|
    ensures |r| == |u|
  {
    seq(|u|, i requires 0 <= i < |u| => u[i] != v[i])
  }

  function And(u: seq<bool>, v: seq<bool>): (r: seq<bool>)
    requires |u| == |v|
    ensures |r| == |u|
  {
    seq(|u|, i requires 0 <= i < |u| => u[i] && v[i])
  }

  /** `c >> k`. */
  function ShiftRight(c: Word, k: nat): Word
    requires k <= 32
  {
    c[k..] + Zeros(k)
  }

  /** `0u - b` for a single bit `b`. */
  function Negate(b: bool): Word
  {
    seq(32, _ => b)
  }

  /** A bit string of at most 32 bits, widened with zeros. */
  function Widen(w: seq<bool>): Word
    requires |w| <= 32
  {
    w + Zeros(32 - |w|)
  }

  function ByteBits(b: byte): (r: seq<bool>)
    ensures |r| == 8
  {
    ToBits(b, 8)
  }

  /** One turn of the inner loop. */
  function BitStep(c: Word): Word
  {
    Xor(ShiftRight(c, 1), And(POLYNOMIAL, Negate(c[0])))
  }

  function BitSteps(n: nat, c: Word): Word
    decreases n
  {
    if n == 0 then c else BitSteps(n - 1, BitStep(c))
  }

  /** One turn of the outer loop. */
  function ByteStep(c: Word, b: byte): Word
  {
    BitSteps(8, Xor(c, Widen(ByteBits(b))))
  }

  /** The register after a whole byte string. */
  function Register(c: Word, data: bytes): Word
    decreases data
  {
    if data == [] then c else Register(ByteStep(c, data[0]), data[1..])
  }

  function Crc(data: bytes): Word
  {
    Xor(Register(ALL_ONES, data), ALL_ONES)
  }

  // ---- RFC 1952, section 8 -------------------------------------------------------------------

  /** One turn of the loop that makes the table. */
  function RfcStep(c: Word): Word
  {
    if c[0] then Xor(POLYNOMIAL, ShiftRight(c, 1)) else ShiftRight(c, 1)
  }

  function RfcSteps(k: nat, c: Word): Word
    decreases k
  {
    if k == 0 then c else RfcSteps(k - 1, RfcStep(c))
  }

  /** `crc_table[n]` for the eight-bit index `n`. */
  function RfcTable(n: seq<bool>): Word
    requires |n| == 8
  {
    RfcSteps(8, Widen(n))
  }

  /** The loop of `update_crc`, whose index is the low byte of the register plus the data byte. */
  function RfcUpdate(c: Word, data: bytes): Word
    decreases data
  {
    if data == [] then c
    else RfcUpdate(Xor(RfcTable(Xor(c[..8], ByteBits(data[0]))), ShiftRight(c, 8)), data[1..])
  }

  function RfcCrc(data: bytes): Word
  {
    Xor(RfcUpdate(Xor(ZERO, ALL_ONES), data), ALL_ONES)
  }

  lemma BitStepAt(c: Word, i: nat)
    requires i < 32
    ensures BitStep(c)[i] == ((i < 31 && c[i + 1]) != (c[0] && POLYNOMIAL[i]))
  {
  }

  lemma BitStepIsRfcStep(c: Word)
    ensures BitStep(c) == RfcStep(c)
  {
    forall i | 0 <= i < 32 ensures BitStep(c)[i] == RfcStep(c)[i] {
      BitStepAt(c, i);
    }
  }

  lemma {:induction false} BitStepsAreRfcSteps(n: nat, c: Word)
    ensures BitSteps(n, c) == RfcSteps(n, c)
    decreases n
  {
    hide BitStep, RfcStep;
    if n != 0 {
      BitStepIsRfcStep(c);
      BitStepsAreRfcSteps(n - 1, BitStep(c));
    }
  }

  /** The register step is linear over GF(2). */
  lemma BitStepLinear(a: Word, b: Word)
    ensures BitStep(Xor(a, b)) == Xor(BitStep(a), BitStep(b))
  {
    forall i | 0 <= i < 32 ensures BitStep(Xor(a, b))[i] == Xor(BitStep(a), BitStep(b))[i] {
      BitStepAt(a, i);
      BitStepAt(b, i);
      BitStepAt(Xor(a, b), i);
    }
  }

  lemma {:induction false} BitStepsLinear(n: nat, a: Word, b: Word)
    ensures BitSteps(n, Xor(a, b)) == Xor(BitSteps(n, a), BitSteps(n, b))
    decreases n
  {
    hide BitStep, Xor;
    if n != 0 {
      BitStepLinear(a, b);
      BitStepsLinear(n - 1, BitStep(a), BitStep(b));
    }
  }

  predicate AllFalse(w: seq<bool>)
  {
    forall i :: 0 <= i < |w| ==> !w[i]
  }

  /** While the low bits are clear the register only shifts. */
  lemma {:induction false} ZerosOnlyShift(n: nat, c: Word)
    requires n <= 32
    requires forall i :: 0 <= i < n ==> !c[i]
    ensures BitSteps(n, c) == ShiftRight(c, n)
    decreases n
  {
    hide BitStep;
    if n == 0 {
      assert ShiftRight(c, 0) == c;
    } else {
      ClearStepShifts(c);
      var d := ShiftRight(c, 1);
      ZerosOnlyShift(n - 1, d);
      assert ShiftRight(d, n - 1) == ShiftRight(c, n);
    }
  }

  lemma ClearStepShifts(c: Word)
    requires !c[0]
    ensures BitStep(c) == ShiftRight(c, 1)
  {
    forall i | 0 <= i < 32 ensures BitStep(c)[i] == ShiftRight(c, 1)[i] {
      BitStepAt(c, i);
    }
  }

  lemma ByteStepIsTableStep(c: Word, b: byte)
    ensures ByteStep(c, b) == Xor(RfcTable(Xor(c[..8], ByteBits(b))), ShiftRight(c, 8))
  {
    var low, high := Widen(Xor(c[..8], ByteBits(b))), Zeros(8) + c[8..];
    assert Xor(c, Widen(ByteBits(b))) == Xor(low, high);
    BitStepsLinear(8, low, high);
    ZerosOnlyShift(8, high);
    assert ShiftRight(high, 8) == ShiftRight(c, 8);
    BitStepsAreRfcSteps(8, low);
  }

  lemma {:induction false} RegisterIsRfcUpdate(c: Word, data: bytes)
    ensures Register(c, data) == RfcUpdate(c, data)
    decreases data
  {
    hide ByteStep, RfcTable, Xor;
    if data != [] {
      ByteStepIsTableStep(c, data[0]);
      RegisterIsRfcUpdate(ByteStep(c, data[0]), data[1..]);
    }
  }

  /** The bitwise loop computes the table-driven CRC of RFC 1952 on every byte string. */
  lemma CrcIsRfcCrc(data: bytes)
    ensures Crc(data) == RfcCrc(data)
  {
    RegisterIsRfcUpdate(ALL_ONES, data);
    assert Xor(ZERO, ALL_ONES) == ALL_ONES;
  }

  // ---- The message as a string of bits -------------------------------------------------------

  /** A byte string in transmission order: every byte least significant bit first. */
  function MessageBits(data: bytes): (r: seq<bool>)
    ensures |r| == 8 * |data|
  {
    if data == [] then [] else ByteBits(data[0]) + MessageBits(data[1..])
  }

  /** The register after a string of bits. */
  function Run(c: Word, bits: seq<bool>): Word
    decreases bits
  {
    if bits == [] then c else Run(BitStep(Xor(c, Widen([bits[0]]))), bits[1..])
  }

  lemma {:induction false} RunAppend(c: Word, u: seq<bool>, v: seq<bool>)
    ensures Run(c, u + v) == Run(Run(c, u), v)
    decreases u
  {
    if u == [] {
      assert u + v == v;
    } else {
      assert (u + v)[1..] == u[1..] + v;
      RunAppend(BitStep(Xor(c, Widen([u[0]]))), u[1..], v);
    }
  }

  /** Feeding bits one at a time is the same as adding them all at once and then stepping. */
  lemma {:induction false} BitSerial(c: Word, w: seq<bool>)
    requires |w| <= 32
    ensures BitSteps(|w|, Xor(c, Widen(w))) == Run(c, w)
    decreases w
  {
    if w == [] {
      assert Xor(c, Widen(w)) == c;
    } else {
      var first := Xor(c, Widen([w[0]]));
      var rest := [false] + Widen(w[1..])[..31];
      assert Xor(c, Widen(w)) == Xor(first, rest);
      BitStepLinear(first, rest);
      ClearStepShifts(rest);
      assert ShiftRight(rest, 1) == Widen(w[1..]);
      BitSerial(BitStep(first), w[1..]);
    }
  }

  lemma {:induction false} RegisterIsBitSerial(c: Word, data: bytes)
    ensures Register(c, data) == Run(c, MessageBits(data))
    decreases data
  {
    hide BitSteps, Xor, ByteBits;
    if data != [] {
      BitSerial(c, ByteBits(data[0]));
      RunAppend(c, ByteBits(data[0]), MessageBits(data[1..]));
      RegisterIsBitSerial(ByteStep(c, data[0]), data[1..]);
    }
  }

  // ---- Linearity -----------------------------------------------------------------------------

  function XorByte(a: byte, b: byte): byte
  {
    BitsInRange(Xor(ByteBits(a), ByteBits(b)));
    FromBits(Xor(ByteBits(a), ByteBits(b)))
  }

  function XorBytes(a: bytes, b: bytes): (r: bytes)
    requires |a| == |b|
    ensures |r| == |a|
  {
    seq(|a|, i requires 0 <= i < |a| => XorByte(a[i], b[i]))
  }

  lemma {:induction false} BitsInRange(w: seq<bool>)
    ensures FromBits(w) < Pow2(|w|)
  {
    if w != [] {
      BitsInRange(w[1..]);
    }
  }

  lemma {:induction false} ToFromBits(w: seq<bool>)
    ensures ToBits(FromBits(w), |w|) == w
  {
    if w != [] {
      var n, t := FromBits(w), FromBits(w[1..]);
      assert n % 2 == (if w[0] then 1 else 0) && n / 2 == t;
      assert ToBits(n, |w|) == [n % 2 == 1] + ToBits(n / 2, |w| - 1);
      hide FromBits, ToBits;
      ToFromBits(w[1..]);
      assert w == [w[0]] + w[1..];
    }
  }

  lemma {:induction false} FromToBits(n: nat, k: nat)
    requires n < Pow2(k)
    ensures FromBits(ToBits(n, k)) == n
  {
    if k != 0 {
      FromToBits(n / 2, k - 1);
      assert ToBits(n, k)[1..] == ToBits(n / 2, k - 1);
    }
  }

  lemma {:induction false} RunLinear(a: Word, b: Word, u: seq<bool>, v: seq<bool>)
    requires |u| == |v|
    ensures Run(Xor(a, b), Xor(u, v)) == Xor(Run(a, u), Run(b, v))
    decreases u
  {
    hide BitStep;
    if u != [] {
      var x, y := Xor(a, Widen([u[0]])), Xor(b, Widen([v[0]]));
      assert Xor(Xor(a, b), Widen([u[0] != v[0]])) == Xor(x, y);
      BitStepLinear(x, y);
      assert Xor(u, v)[1..] == Xor(u[1..], v[1..]);
      RunLinear(BitStep(x), BitStep(y), u[1..], v[1..]);
    }
  }

  lemma {:induction false} MessageBitsXor(a: bytes, b: bytes)
    requires |a| == |b|
    ensures MessageBits(XorBytes(a, b)) == Xor(MessageBits(a), MessageBits(b))
  {
    if a != [] {
      ToFromBits(Xor(ByteBits(a[0]), ByteBits(b[0])));
      assert XorBytes(a, b)[1..] == XorBytes(a[1..], b[1..]);
      MessageBitsXor(a[1..], b[1..]);
    }
  }

  lemma RegisterLinear(p: Word, q: Word, a: bytes, b: bytes)
    requires |a| == |b|
    ensures Register(Xor(p, q), XorBytes(a, b)) == Xor(Register(p, a), Register(q, b))
  {
    RegisterIsBitSerial(p, a);
    RegisterIsBitSerial(q, b);
    RegisterIsBitSerial(Xor(p, q), XorBytes(a, b));
    MessageBitsXor(a, b);
    RunLinear(p, q, MessageBits(a), MessageBits(b));
  }

  /** The affine law of the checksum. */
  lemma CrcAffine(a: bytes, b: bytes, c: bytes)
    requires |a| == |b| == |c|
    ensures Xor(Xor(Crc(a), Crc(b)), Crc(c)) == Crc(XorBytes(XorBytes(a, b), c))
  {
    RegisterLinear(ALL_ONES, ALL_ONES, a, b);
    RegisterLinear(Xor(ALL_ONES, ALL_ONES), ALL_ONES, XorBytes(a, b), c);
    assert Xor(Xor(ALL_ONES, ALL_ONES), ALL_ONES) == ALL_ONES;
    var x, y, z := Register(ALL_ONES, a), Register(ALL_ONES, b), Register(ALL_ONES, c);
    hide Register;
    assert Xor(Xor(Xor(x, ALL_ONES), Xor(y, ALL_ONES)), Xor(z, ALL_ONES)) == Xor(Xor(Xor(x, y), z), ALL_ONES);
  }

  // ---- Burst detection -----------------------------------------------------------------------

  /** The polynomial constant of the source and of RFC 1952. */
  lemma PolynomialValue()
    ensures FromBits(POLYNOMIAL) == 0xEDB8_8320
  {
    ValueOfDigits(POLYNOMIAL);
    hide FromBits;
  }

  /** The start word, and the word that is added at the end. */
  lemma StartValue()
    ensures FromBits(ALL_ONES) == 0xFFFF_FFFF
  {
    ValueOfDigits(ALL_ONES);
    hide FromBits;
  }

  function Digit(w: Word, k: nat): nat
    requires k + 3 < 32
  {
    (if w[k] then 1 else 0) + (if w[k + 1] then 2 else 0) + (if w[k + 2] then 4 else 0) + (if w[k + 3] then 8 else 0)
  }

  lemma ValueOfDigits(w: Word)
    ensures FromBits(w)
         == Digit(w, 0) + 0x10 * Digit(w, 4) + 0x100 * Digit(w, 8) + 0x1000 * Digit(w, 12)
            + 0x1_0000 * (Digit(w, 16) + 0x10 * Digit(w, 20) + 0x100 * Digit(w, 24) + 0x1000 * Digit(w, 28))
  {
    hide FromBits, Digit;
    WholeWord(w);
    FourNibbles(w, 16);
    FourNibbles(w, 0);
  }

  lemma WholeWord(w: Word)
    ensures w[0..] == w && FromBits(w[32..]) == 0
  {
  }

  /** Sixteen bits as four digits. */
  lemma FourNibbles(w: Word, k: nat)
    requires k + 16 <= 32
    ensures FromBits(w[k..]) == Digit(w, k) + 0x10 * Digit(w, k + 4) + 0x100 * Digit(w, k + 8)
                                + 0x1000 * Digit(w, k + 12) + 0x1_0000 * FromBits(w[k + 16..])
  {
    hide FromBits, Digit;
    Nibble(w, k);
    Nibble(w, k + 4);
    Nibble(w, k + 8);
    Nibble(w, k + 12);
  }

  lemma Nibble(w: Word, k: nat)
    requires k + 4 <= 32
    ensures FromBits(w[k..]) == Digit(w, k) + 16 * FromBits(w[k + 4..])
  {
    FromBitsAt(w, k);
    FromBitsAt(w, k + 1);
    FromBitsAt(w, k + 2);
    FromBitsAt(w, k + 3);
  }

  lemma FromBitsAt(w: seq<bool>, k: nat)
    requires k < |w|
    ensures FromBits(w[k..]) == (if w[k] then 1 else 0) + 2 * FromBits(w[k + 1..])
  {
    assert w[k..][1..] == w[k + 1..];
  }

  lemma TopCoefficient()
    ensures POLYNOMIAL[31]
  {
  }

  lemma BitStepKernel(c: Word)
    ensures BitStep(c) == ZERO <==> c == ZERO
  {
    TopCoefficient();
    if c == ZERO {
      ClearStepShifts(c);
    }
    if BitStep(c) == ZERO {
      BitStepAt(c, 31);
      ClearStepShifts(c);
      assert forall i :: 0 <= i < 31 ==> BitStep(c)[i] == c[i + 1];
      assert forall i :: 1 <= i < 32 ==> c[i] == BitStep(c)[i - 1];
    }
  }

  /** Running at most 32 bits reaches zero from one register only: the bits themselves. */
  lemma {:induction false} RunBackwards(c: Word, w: seq<bool>)
    requires |w| <= 32
    requires Run(c, w) == ZERO
    ensures c == Widen(w)
    decreases w
  {
    if w != [] {
      var x := Xor(c, Widen([w[0]]));
      RunBackwards(BitStep(x), w[1..]);
      BitStepAt(x, 31);
      TopCoefficient();
      ClearStepShifts(x);
      forall i | 0 <= i < 32 ensures c[i] == Widen(w)[i] {
        assert i > 0 ==> c[i] == x[i] == ShiftRight(x, 1)[i - 1] == Widen(w[1..])[i - 1];
      }
    }
  }

  /** Zero bits neither create nor destroy a difference. */
  lemma {:induction false} RunZeros(c: Word, w: seq<bool>)
    requires AllFalse(w)
    ensures Run(c, w) == ZERO <==> c == ZERO
    decreases w
  {
    if w != [] {
      assert Xor(c, Widen([w[0]])) == c;
      BitStepKernel(c);
      RunZeros(BitStep(c), w[1..]);
    }
  }

  lemma {:induction false} MessageBitsInjective(a: bytes, b: bytes)
    requires |a| == |b|
    requires MessageBits(a) == MessageBits(b)
    ensures a == b
  {
    if a != [] {
      assert MessageBits(a)[..8] == ByteBits(a[0]);
      assert MessageBits(b)[..8] == ByteBits(b[0]);
      assert MessageBits(a)[8..] == MessageBits(a[1..]);
      assert MessageBits(b)[8..] == MessageBits(b[1..]);
      FromToBits(a[0], 8);
      FromToBits(b[0], 8);
      MessageBitsInjective(a[1..], b[1..]);
    }
  }

  /** Both messages agree outside the 32 bits that start at bit `p`. */
  predicate DifferOnlyInBurst(a: bytes, b: bytes, p: nat)
    requires |a| == |b|
  {
    forall i :: 0 <= i < 8 * |a| && MessageBits(a)[i] != MessageBits(b)[i] ==> p <= i < p + 32
  }

  /** Every error burst of at most 32 bits changes the checksum. */
  lemma BurstDetected(a: bytes, b: bytes, p: nat)
    requires |a| == |b| && a != b
    requires DifferOnlyInBurst(a, b, p)
    ensures Crc(a) != Crc(b)
  {
    if Crc(a) == Crc(b) {
      EqualCrcHidesDifference(a, b);
      var d := Xor(MessageBits(a), MessageBits(b));
      var lo := if p < |d| then p else |d|;
      var hi := if p + 32 < |d| then p + 32 else |d|;
      hide *;
      BurstBounds(a, b, p);
      SilentBurstIsEmpty(d, lo, hi);
      NoDifference(MessageBits(a), MessageBits(b));
      MessageBitsInjective(a, b);
    }
  }

  /** Outside the burst the difference of the messages is zero. */
  lemma BurstBounds(a: bytes, b: bytes, p: nat)
    requires |a| == |b| && DifferOnlyInBurst(a, b, p)
    ensures var d := Xor(MessageBits(a), MessageBits(b));
            var lo := if p < |d| then p else |d|;
            var hi := if p + 32 < |d| then p + 32 else |d|;
            AllFalse(d[..lo]) && AllFalse(d[hi..])
  {
    hide MessageBits;
  }

  lemma NoDifference(u: seq<bool>, v: seq<bool>)
    requires |u| == |v| && AllFalse(Xor(u, v))
    ensures u == v
  {
    forall i | 0 <= i < |u| ensures u[i] == v[i] {
      assert !Xor(u, v)[i];
    }
  }

  lemma EqualCrcHidesDifference(a: bytes, b: bytes)
    requires |a| == |b| && Crc(a) == Crc(b)
    ensures Run(ZERO, Xor(MessageBits(a), MessageBits(b))) == ZERO
  {
    hide Register, Run, MessageBits;
    XorCancels(Register(ALL_ONES, a), Register(ALL_ONES, b), ALL_ONES);
    RegisterIsBitSerial(ALL_ONES, a);
    RegisterIsBitSerial(ALL_ONES, b);
    RunLinear(ALL_ONES, ALL_ONES, MessageBits(a), MessageBits(b));
    XorSelf(ALL_ONES);
    XorSelf(Register(ALL_ONES, a));
  }

  lemma XorCancels(a: Word, b: Word, c: Word)
    requires Xor(a, c) == Xor(b, c)
    ensures a == b
  {
    assert a == Xor(Xor(a, c), c) && b == Xor(Xor(b, c), c);
  }

  lemma XorSelf(a: Word)
    ensures Xor(a, a) == ZERO
  {
  }

  lemma SilentBurstIsEmpty(d: seq<bool>, lo: nat, hi: nat)
    requires lo <= hi <= |d| && hi - lo <= 32
    requires AllFalse(d[..lo]) && AllFalse(d[hi..])
    requires Run(ZERO, d) == ZERO
    ensures AllFalse(d)
  {
    hide Run;
    var w := d[lo..hi];
    assert d == d[..lo] + (w + d[hi..]);
    RunAppend(ZERO, d[..lo], w + d[hi..]);
    RunZeros(ZERO, d[..lo]);
    RunAppend(ZERO, w, d[hi..]);
    RunZeros(Run(ZERO, w), d[hi..]);
    RunBackwards(ZERO, w);
    assert forall i :: 0 <= i < |w| ==> w[i] == Widen(w)[i];
  }

  // ---- The number in a frame header ----------------------------------------------------------

  lemma WordRange()
    ensures Pow2(32) == U32_MODULUS
  {
    assert Pow2(8) == 256;
    assert Pow2(16) == 65536;
    assert Pow2(24) == 0x100_0000;
  }

  /** The checksum as the integer that a frame header carries. */
  function CrcField(data: bytes): u32
  {
    BitsInRange(Crc(data));
    WordRange();
    FromBits(Crc(data))
  }

  lemma CrcFieldInjective(a: bytes, b: bytes)
    ensures CrcField(a) == CrcField(b) <==> Crc(a) == Crc(b)
  {
    ToFromBits(Crc(a));
    ToFromBits(Crc(b));
  }
}
