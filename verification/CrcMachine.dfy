/** `usb_responder_crc32` on 32-bit machine words, and the checksum's known values. */
module CrcMachine {
  import opened Bytes
  import opened Crc32

  // ---- Machine words and their bits ----------------------------------------------------------

  predicate Odd(c: bv32)
  {
    c & 1 == 1
  }

  function Half(c: bv32): bv32
  {
    c >> 1
  }

  /** `a ^ b`. */
  function Flipped(c: bv32, d: bv32): bv32
  {
    c ^ d
  }

  /** The `k` lowest bits of a `uint32_t`, least significant first. */
  function LowBits(c: bv32, k: nat): (r: seq<bool>)
    ensures |r| == k
  {
    if k == 0 then [] else [Odd(c)] + LowBits(Half(c), k - 1)
  }

  function Bits(c: bv32): Word
  {
    LowBits(c, 32)
  }

  /** `(crc >> 1) ^ (0xEDB88320u & (0u - (crc & 1u)))`. */
  function MachineStep(c: bv32): bv32
  {
    (c >> 1) ^ (0xEDB8_8320 & (0 - (c & 1)))
  }

  lemma {:induction false} XorOfLowBits(c: bv32, d: bv32, k: nat)
    ensures LowBits(Flipped(c, d), k) == Xor(LowBits(c, k), LowBits(d, k))
    decreases k
  {
    hide Odd, Half, Flipped;
    if k > 0 {
      XorOfLowBits(Half(c), Half(d), k - 1);
      HalfFlipped(c, d);
      XorFront(Odd(c), LowBits(Half(c), k - 1), Odd(d), LowBits(Half(d), k - 1));
    }
  }

  lemma HalfFlipped(c: bv32, d: bv32)
    ensures Half(Flipped(c, d)) == Flipped(Half(c), Half(d)) && (Odd(Flipped(c, d)) <==> Odd(c) != Odd(d))
  {
  }

  lemma XorFront(a: bool, u: seq<bool>, b: bool, v: seq<bool>)
    requires |u| == |v|
    ensures Xor([a] + u, [b] + v) == [a != b] + Xor(u, v)
  {
  }

  lemma {:induction false} LowBitsFront(c: bv32, k: nat)
    ensures LowBits(c, k + 1)[..k] == LowBits(c, k)
    decreases k
  {
    hide Odd, Half;
    if k > 0 {
      LowBitsFront(Half(c), k - 1);
      assert LowBits(c, k + 1)[..k] == [Odd(c)] + LowBits(Half(c), k)[..k - 1];
    }
  }

  function Shifted4(c: bv32): bv32
  {
    c >> 4
  }

  function Nibble(c: bv32): (r: seq<bool>)
    ensures |r| == 4
  {
    [c & 1 != 0, c & 2 != 0, c & 4 != 0, c & 8 != 0]
  }

  lemma FourBits(c: bv32, k: nat)
    ensures LowBits(c, k + 4) == Nibble(c) + LowBits(Shifted4(c), k)
  {
    LowTests(c);
    hide LowBits, Odd, Half, Nibble, Shifted4;
    var d, e, f := Half(c), Half(Half(c)), Half(Half(Half(c)));
    OneBit(c, k + 3);
    OneBit(d, k + 2);
    OneBit(e, k + 1);
    OneBit(f, k);
  }

  lemma OneBit(c: bv32, k: nat)
    ensures LowBits(c, k + 1) == [Odd(c)] + LowBits(Half(c), k)
  {
  }

  lemma LowTests(c: bv32)
    ensures Nibble(c) == [Odd(c), Odd(Half(c)), Odd(Half(Half(c))), Odd(Half(Half(Half(c))))]
    ensures Shifted4(c) == Half(Half(Half(Half(c))))
  {
  }

  /** Sixteen bits as four digits. */
  lemma SixteenBits(c: bv32, k: nat)
    ensures LowBits(c, k + 16)
         == Nibble(c) + Nibble(c >> 4) + Nibble(c >> 8) + Nibble(c >> 12) + LowBits(c >> 16, k)
  {
    Shifts(c);
    hide LowBits, Nibble, Shifted4;
    FourBits(c, k + 12);
    FourBits(Shifted4(c), k + 8);
    FourBits(Shifted4(Shifted4(c)), k + 4);
    FourBits(Shifted4(Shifted4(Shifted4(c))), k);
    Joined(Nibble(c), Nibble(c >> 4), Nibble(c >> 8), Nibble(c >> 12), LowBits(c >> 16, k));
  }

  lemma Joined(p: seq<bool>, q: seq<bool>, r: seq<bool>, s: seq<bool>, t: seq<bool>)
    ensures p + (q + (r + (s + t))) == p + q + r + s + t
  {
  }

  lemma Shifts(c: bv32)
    ensures Shifted4(c) == c >> 4 && Shifted4(Shifted4(c)) == c >> 8
    ensures Shifted4(Shifted4(Shifted4(c))) == c >> 12 && Shifted4(Shifted4(Shifted4(Shifted4(c)))) == c >> 16
  {
  }

  lemma NothingAbove(c: bv32)
    ensures LowBits(c, 33)[32] == false
  {
    SixteenBits(c, 17);
    SixteenBits(c >> 16, 1);
    AllShiftedOut(c);
    assert LowBits(0, 1) == [false];
    hide LowBits, Nibble;
  }

  lemma AllShiftedOut(c: bv32)
    ensures c >> 16 >> 16 == 0
  {
  }

  lemma ShiftOfBits(c: bv32)
    ensures Bits(Half(c)) == ShiftRight(Bits(c), 1) && Bits(c)[0] == Odd(c)
  {
    LowBitsFront(c, 32);
    NothingAbove(c);
    ShiftedTail(c);
    hide LowBits, Half, Odd;
  }

  lemma ShiftedTail(c: bv32)
    ensures LowBits(c, 33)[1..] == LowBits(Half(c), 32) && LowBits(c, 32)[0] == Odd(c)
  {
    hide Odd, Half;
  }

  lemma XorOfBits(c: bv32, d: bv32)
    ensures Bits(Flipped(c, d)) == Xor(Bits(c), Bits(d))
  {
    XorOfLowBits(c, d, 32);
    hide LowBits, Flipped;
  }

  /** The step of the source is the step of the specified register. */
  lemma StepOfBits(c: bv32)
    ensures Bits(MachineStep(c)) == BitStep(Bits(c))
  {
    Constants();
    StepCases(c);
    ShiftOfBits(c);
    XorOfBits(Half(c), 0xEDB8_8320);
    Maskings();
    hide Bits, MachineStep, POLYNOMIAL, Half, Odd, Flipped;
    assert Xor(ShiftRight(Bits(c), 1), Zeros(32)) == ShiftRight(Bits(c), 1);
  }

  lemma StepCases(c: bv32)
    ensures MachineStep(c) == if Odd(c) then Flipped(Half(c), 0xEDB8_8320) else Half(c)
  {
    var bit := c & 1;
    if bit == 1 {
      assert (0 as bv32) - bit == 0xFFFF_FFFF;
    } else {
      LowestBit(c);
      assert (0 as bv32) - bit == 0;
    }
  }

  lemma LowestBit(c: bv32)
    ensures c & 1 == 0 || c & 1 == 1
  {
  }

  lemma Maskings()
    ensures And(POLYNOMIAL, Negate(true)) == POLYNOMIAL && And(POLYNOMIAL, Negate(false)) == Zeros(32)
  {
  }

  /** A word is its eight digits. */
  lemma Digits(c: bv32)
    ensures Bits(c) == Nibble(c) + Nibble(c >> 4) + Nibble(c >> 8) + Nibble(c >> 12)
                       + (Nibble(c >> 16) + Nibble(c >> 16 >> 4) + Nibble(c >> 16 >> 8) + Nibble(c >> 16 >> 12))
  {
    SixteenBits(c, 16);
    SixteenBits(c >> 16, 0);
    hide Nibble;
    assert LowBits(c >> 16 >> 16, 0) == [];
  }

  lemma ByteOfBits(b: byte)
    ensures Bits(b as bv32) == Widen(ByteBits(b))
  {
    var c := b as bv32;
    Digits(c);
    LowDigit(b);
    HighDigit(b);
    ClearDigits(b);
    DigitsOfByte(b);
    WidenByDigits(ByteBits(b), Nibble(c), Nibble(c >> 4));
    hide *;
  }

  lemma WidenByDigits(w: seq<bool>, low: seq<bool>, high: seq<bool>)
    requires w == low + high && |low| == |high| == 4
    ensures Widen(w) == low + high + Zeros(4) + Zeros(4) + (Zeros(4) + Zeros(4) + Zeros(4) + Zeros(4))
  {
    assert Zeros(24) == Zeros(4) + Zeros(4) + (Zeros(4) + Zeros(4) + Zeros(4) + Zeros(4));
  }

  lemma LowDigit(b: byte)
    ensures Nibble(b as bv32) == [b % 2 == 1, b / 2 % 2 == 1, b / 4 % 2 == 1, b / 8 % 2 == 1]
  {
  }

  lemma HighDigit(b: byte)
    ensures Nibble((b as bv32) >> 4) == [b / 16 % 2 == 1, b / 32 % 2 == 1, b / 64 % 2 == 1, b / 128 % 2 == 1]
  {
  }

  lemma ClearDigits(b: byte)
    ensures (b as bv32) >> 8 == 0 && (b as bv32) >> 12 == 0 && (b as bv32) >> 16 == 0
    ensures (b as bv32) >> 16 >> 4 == 0 && (b as bv32) >> 16 >> 8 == 0 && (b as bv32) >> 16 >> 12 == 0
    ensures Nibble(0) == Zeros(4)
  {
  }

  lemma DigitsOfByte(b: byte)
    ensures ByteBits(b) == [b % 2 == 1, b / 2 % 2 == 1, b / 4 % 2 == 1, b / 8 % 2 == 1]
                           + [b / 16 % 2 == 1, b / 32 % 2 == 1, b / 64 % 2 == 1, b / 128 % 2 == 1]
  {
    hide ToBits;
    var n: nat := b;
    FourDigits(n, 4);
    FourDigits(n / 16, 0);
    Quarters(n);
    NoDigits(n / 16 / 16);
  }

  lemma NoDigits(n: nat)
    ensures ToBits(n, 0) == []
  {
  }

  lemma Quarters(n: nat)
    ensures n / 16 / 2 == n / 32 && n / 16 / 4 == n / 64 && n / 16 / 8 == n / 128
  {
  }

  lemma Halves(n: nat)
    ensures n / 2 / 2 == n / 4 && n / 2 / 2 / 2 == n / 8 && n / 2 / 2 / 2 / 2 == n / 16
  {
  }

  lemma OneDigit(n: nat, k: nat)
    ensures ToBits(n, k + 1) == [n % 2 == 1] + ToBits(n / 2, k)
  {
  }

  lemma FourDigits(n: nat, k: nat)
    ensures ToBits(n, k + 4) == [n % 2 == 1, n / 2 % 2 == 1, n / 4 % 2 == 1, n / 8 % 2 == 1] + ToBits(n / 16, k)
  {
    hide ToBits;
    Halves(n);
    OneDigit(n, k + 3);
    OneDigit(n / 2, k + 2);
    OneDigit(n / 2 / 2, k + 1);
    OneDigit(n / 2 / 2 / 2, k);
  }

  /** The constants of the source, bit by bit. */
  lemma Constants()
    ensures Bits(0xFFFF_FFFF) == ALL_ONES
    ensures Bits(0xEDB8_8320) == POLYNOMIAL
  {
    Digits(0xFFFF_FFFF);
    Digits(0xEDB8_8320);
    hide LowBits;
  }

  /** `usb_responder_crc32`, proved against the table-driven form of RFC 1952, section 8. */
  method ComputeCrc32(data: array<byte>, size: nat) returns (result: Word)
    requires size <= data.Length
    ensures result == RfcCrc(data[..size])
    ensures result == Crc(data[..size])
  {
    hide *;
    Constants();
    var crc: bv32 := 0xFFFF_FFFF;
    ghost var all := data[..size];
    WholeMessage(all);
    for i := 0 to size
      invariant Register(Bits(crc), all[i..]) == Register(ALL_ONES, all)
    {
      ghost var before := crc;
      crc := Flipped(crc, data[i] as bv32);
      ByteStarts(before, data[i]);
      for bit := 0 to 8
        invariant BitSteps(8 - bit, Bits(crc)) == ByteStep(Bits(before), all[i])
      {
        StepOfBits(crc);
        StepsLeft(8 - bit, Bits(crc));
        crc := MachineStep(crc);
      }
      StepsDone(Bits(crc));
      NextByte(Bits(before), all, i);
    }
    XorOfBits(crc, 0xFFFF_FFFF);
    result := Bits(Flipped(crc, 0xFFFF_FFFF));
    CrcOfRegister(Bits(crc), all, size);
    CrcIsRfcCrc(all);
  }

  lemma WholeMessage(all: bytes)
    ensures all[0..] == all
  {
  }

  lemma ByteStarts(c: bv32, b: byte)
    ensures BitSteps(8, Bits(Flipped(c, b as bv32))) == ByteStep(Bits(c), b)
  {
    XorOfBits(c, b as bv32);
    ByteOfBits(b);
    hide Bits, Flipped, BitSteps, Widen, ByteBits, Xor;
  }

  lemma StepsLeft(n: nat, c: Word)
    requires n > 0
    ensures BitSteps(n, c) == BitSteps(n - 1, BitStep(c))
  {
    hide BitStep;
  }

  lemma StepsDone(c: Word)
    ensures BitSteps(0, c) == c
  {
  }

  lemma NextByte(c: Word, all: bytes, i: nat)
    requires i < |all|
    ensures Register(c, all[i..]) == Register(ByteStep(c, all[i]), all[i + 1..])
  {
    hide ByteStep;
    assert all[i..][1..] == all[i + 1..];
  }

  lemma CrcOfRegister(c: Word, all: bytes, size: nat)
    requires size == |all| && Register(c, all[size..]) == Register(ALL_ONES, all)
    ensures Xor(c, ALL_ONES) == Crc(all)
  {
    assert all[size..] == [];
  }

  // ---- The check value -----------------------------------------------------------------------

  function EightSteps(c: bv32): bv32
  {
    MachineStep(MachineStep(MachineStep(MachineStep(
      MachineStep(MachineStep(MachineStep(MachineStep(c))))))))
  }

  lemma EightStepsOfBits(c: bv32)
    ensures BitSteps(8, Bits(c)) == Bits(EightSteps(c))
  {
    hide Bits, MachineStep, BitStep;
    var d := MachineStep(MachineStep(MachineStep(MachineStep(c))));
    FourStepsOfBits(c, 4);
    FourStepsOfBits(d, 0);
  }

  lemma FourStepsOfBits(c: bv32, n: nat)
    ensures BitSteps(n + 4, Bits(c)) == BitSteps(n, Bits(MachineStep(MachineStep(MachineStep(MachineStep(c))))))
  {
    hide *;
    var d := MachineStep(c);
    var e := MachineStep(d);
    var f := MachineStep(e);
    StepOfBits(c);
    StepOfBits(d);
    StepOfBits(e);
    StepOfBits(f);
    StepsLeft(n + 4, Bits(c));
    StepsLeft(n + 3, Bits(d));
    StepsLeft(n + 2, Bits(e));
    StepsLeft(n + 1, Bits(f));
  }

  lemma OneByte(c: bv32, b: byte, d: bv32)
    requires EightSteps(Flipped(c, b as bv32)) == d
    ensures ByteStep(Bits(c), b) == Bits(d)
  {
    ByteStarts(c, b);
    EightStepsOfBits(Flipped(c, b as bv32));
    hide Bits, EightSteps, Flipped, ByteStep, BitSteps;
    FullByte(Bits(c), b);
  }

  lemma FullByte(c: Word, b: byte)
    ensures ByteStep(c, b) == BitSteps(8, Xor(c, Widen(ByteBits(b))))
  {
  }

  lemma MoreBytes(c: bv32, b: byte, d: bv32, more: bytes)
    requires EightSteps(Flipped(c, b as bv32)) == d
    ensures Register(Bits(c), [b] + more) == Register(Bits(d), more)
  {
    OneByte(c, b, d);
    hide Bits, ByteStep, EightSteps, Flipped;
    assert ([b] + more)[1..] == more;
  }

  lemma LastFour()
    ensures Register(Bits(0x340A_C5E3), [0x36, 0x37, 0x38, 0x39]) == Bits(0x340B_C6D9)
  {
    hide Bits, Register;
    MoreBytes(0x340A_C5E3, 0x36, 0xF68D_2C9E, [0x37, 0x38, 0x39]);
    MoreBytes(0xF68D_2C9E, 0x37, 0xAFFC_9660, [0x38, 0x39]);
    MoreBytes(0xAFFC_9660, 0x38, 0x651F_2550, [0x39]);
    MoreBytes(0x651F_2550, 0x39, 0x340B_C6D9, []);
    assert [0x36] + [0x37, 0x38, 0x39] == [0x36, 0x37, 0x38, 0x39] && [0x37] + [0x38, 0x39] == [0x37, 0x38, 0x39];
    assert [0x38] + [0x39] == [0x38, 0x39] && [0x39] + [] == [0x39];
    NoBytes(Bits(0x340B_C6D9));
  }

  lemma NoBytes(c: Word)
    ensures Register(c, []) == c
  {
  }

  /** The register after the digits 1 to 9, byte by byte. */
  lemma NineDigits()
    ensures Register(Bits(0xFFFF_FFFF), [0x31, 0x32, 0x33, 0x34, 0x35, 0x36, 0x37, 0x38, 0x39]) == Bits(0x340B_C6D9)
  {
    hide Bits, Register;
    var last := [0x36, 0x37, 0x38, 0x39];
    MoreBytes(0xFFFF_FFFF, 0x31, 0x7C23_1048, [0x32, 0x33, 0x34, 0x35] + last);
    MoreBytes(0x7C23_1048, 0x32, 0xB0AC_BB32, [0x33, 0x34, 0x35] + last);
    MoreBytes(0xB0AC_BB32, 0x33, 0x77B7_9C2D, [0x34, 0x35] + last);
    MoreBytes(0x77B7_9C2D, 0x34, 0x641C_1F5C, [0x35] + last);
    MoreBytes(0x641C_1F5C, 0x35, 0x340A_C5E3, last);
    LastFour();
    FiveAndFour(last);
  }

  lemma FiveAndFour(last: bytes)
    ensures [0x34] + ([0x35] + last) == [0x34, 0x35] + last
    ensures [0x33] + ([0x34, 0x35] + last) == [0x33, 0x34, 0x35] + last
    ensures [0x32] + ([0x33, 0x34, 0x35] + last) == [0x32, 0x33, 0x34, 0x35] + last
    ensures [0x31] + ([0x32, 0x33, 0x34, 0x35] + last) == [0x31, 0x32, 0x33, 0x34, 0x35] + last
    ensures [0x31, 0x32, 0x33, 0x34, 0x35] + [0x36, 0x37, 0x38, 0x39]
         == [0x31, 0x32, 0x33, 0x34, 0x35, 0x36, 0x37, 0x38, 0x39]
  {
  }

  /** The CRC of the digits 1 to 9 is the check value of this CRC. */
  lemma CheckValue()
    ensures CrcField([0x31, 0x32, 0x33, 0x34, 0x35, 0x36, 0x37, 0x38, 0x39]) == 0xCBF4_3926
  {
    hide Bits, ALL_ONES, FromBits, Register, Xor, Flipped;
    NineDigits();
    Constants();
    XorOfBits(0x340B_C6D9, 0xFFFF_FFFF);
    LastFlip();
    CheckWord();
  }

  lemma LastFlip()
    ensures Flipped(0x340B_C6D9, 0xFFFF_FFFF) == 0xCBF4_3926
  {
  }

  lemma CheckWord()
    ensures FromBits(Bits(0xCBF4_3926)) == 0xCBF4_3926
  {
    Digits(0xCBF4_3926);
    CheckDigits();
    hide Nibble, Bits, FromBits;
    ValueOfDigits(Bits(0xCBF4_3926));
  }

  lemma CheckDigits()
    ensures Nibble(0xCBF4_3926) == [false, true, true, false] && Nibble(0xCBF4_3926 >> 4) == [false, true, false, false]
    ensures Nibble(0xCBF4_3926 >> 8) == [true, false, false, true]
    ensures Nibble(0xCBF4_3926 >> 12) == [true, true, false, false]
    ensures Nibble(0xCBF4_3926 >> 16) == [false, false, true, false]
    ensures Nibble(0xCBF4_3926 >> 16 >> 4) == [true, true, true, true]
    ensures Nibble(0xCBF4_3926 >> 16 >> 8) == [true, true, false, true]
    ensures Nibble(0xCBF4_3926 >> 16 >> 12) == [false, false, true, true]
  {
  }
}
