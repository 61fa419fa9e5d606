/** The Modbus CRC-16 (polynomial 0xA001, low bit first) and the algebra behind it. */
module Crc16 {
  import opened MachineWords

  const SEED: bv16 := 0xFFFF

  function Xor(a: bv16, b: bv16): bv16 { a ^ b }

  /** A byte in the low half of a 16-bit word. */
  function Extend(value: Byte): bv16 { value as bv16 }

  /** Where two bytes differ. */
  function Difference(a: Byte, b: Byte): Byte { a ^ b }

  /** One bit step as wiring: shift right, and feed the low bit to positions 15, 13 and 0. */
  function Wire(crc: bv16): bv16 {
    (crc >> 1) ^ ((crc & 1) << 15) ^ ((crc & 1) << 13) ^ (crc & 1)
  }

  function Wires(crc: bv16, bits: nat): bv16 {
    if bits == 0 then crc else Wire(Wires(crc, bits - 1))
  }

  function Step(crc: bv16, value: Byte): bv16 {
    Wires(Xor(crc, Extend(value)), 8)
  }

  /** The register after `data`, starting from `SEED`. */
  function Checksum(data: seq<Byte>): bv16 {
    if data == [] then SEED
    else Step(Checksum(data[..|data| - 1]), data[|data| - 1])
  }

  /** The 16-bit word whose bytes are `low` and `high`. */
  function Word(low: Byte, high: Byte): bv16 {
    ((high as bv16) << 8) | (low as bv16)
  }

  function LowByte(word: bv16): Byte { (word & 0xFF) as Byte }

  function HighByte(word: bv16): Byte { (word >> 8) as Byte }

  /** A payload followed by its CRC, low byte first. */
  function Seal(payload: seq<Byte>): seq<Byte> {
    payload + [LowByte(Checksum(payload)), HighByte(Checksum(payload))]
  }

  predicate FrameValid(frame: seq<Byte>)
    requires |frame| >= 2
  {
    Checksum(frame[..|frame| - 2]) == Word(frame[|frame| - 2], frame[|frame| - 1])
  }

  /** The byte loop around the bit loop. */
  method Compute(data: array<Byte>, length: nat) returns (crc: bv16)
    requires length <= data.Length
    ensures crc == Checksum(data[..length])
  {
    hide Wire, Xor, Extend;
    crc := 0xFFFF;
    for index := 0 to length
      invariant crc == Checksum(data[..index])
    {
      crc := Xor(crc, Extend(data[index]));
      ghost var mixed := crc;
      for bit := 0 to 8
        invariant crc == Wires(mixed, bit)
      {
        BitStepIsWire(crc);
        crc := if crc & 1 != 0 then (crc >> 1) ^ 0xA001 else crc >> 1;
      }
      assert data[..index + 1][..index] == data[..index];
    }
  }

  lemma BitStepIsWire(crc: bv16)
    ensures (if crc & 1 != 0 then (crc >> 1) ^ 0xA001 else crc >> 1) == Wire(crc)
  {
    LowBit(crc);
    if crc & 1 == 1 {
      assert Wire(crc) == (crc >> 1) ^ (((crc & 1) << 15) ^ ((crc & 1) << 13) ^ (crc & 1));
    }
  }

  lemma LowBit(crc: bv16)
    ensures crc & 1 == 0 || crc & 1 == 1
  {
  }

  // ----- bytes and words

  lemma RawWordOfBytes(word: bv16, low: Byte, high: Byte)
    ensures word == ((high as bv16) << 8) | (low as bv16) <==>
            low == (word & 0xFF) as Byte && high == (word >> 8) as Byte
  {
  }

  /** The trailer bytes determine the word they carry. */
  lemma WordOfBytes(word: bv16, low: Byte, high: Byte)
    ensures word == Word(low, high) <==> low == LowByte(word) && high == HighByte(word)
  {
    RawWordOfBytes(word, low, high);
  }

  // ----- the byte step is a linear bijection

  function Unwire(crc: bv16): bv16 {
    (crc << 1) ^ (crc >> 15) ^ ((crc >> 15) << 1) ^ ((crc >> 15) << 14)
  }

  function Unwires(crc: bv16, bits: nat): bv16
    decreases bits
  {
    if bits == 0 then crc else Unwires(Unwire(crc), bits - 1)
  }

  lemma WireBijective(crc: bv16)
    ensures Unwire(Wire(crc)) == crc && Wire(Unwire(crc)) == crc
  {
  }

  lemma {:induction false} WiresBijective(crc: bv16, bits: nat)
    ensures Unwires(Wires(crc, bits), bits) == crc
    ensures Wires(Unwires(crc, bits), bits) == crc
    decreases bits
  {
    hide Wire, Unwire;
    if bits > 0 {
      WireBijective(Wires(crc, bits - 1));
      WiresBijective(crc, bits - 1);
      WireBijective(crc);
      WiresBijective(Unwire(crc), bits - 1);
    }
  }

  lemma WireLinear(a: bv16, b: bv16)
    ensures Wire(a) ^ Wire(b) == Wire(a ^ b)
  {
  }

  lemma {:induction false} WiresLinear(a: bv16, b: bv16, bits: nat)
    ensures Xor(Wires(a, bits), Wires(b, bits)) == Wires(Xor(a, b), bits)
  {
    if bits > 0 {
      WiresLinear(a, b, bits - 1);
      LinearStep(Wires(a, bits - 1), Wires(b, bits - 1));
      hide Wire, Xor;
    }
  }

  lemma LinearStep(a: bv16, b: bv16)
    ensures Xor(Wire(a), Wire(b)) == Wire(Xor(a, b))
  {
    WireLinear(a, b);
  }

  lemma RawTwice(a: bv16, b: bv16)
    ensures (a ^ b) ^ b == a
  {
  }

  lemma RawSelf(a: bv16)
    ensures a ^ a == 0
  {
  }

  lemma RawZero(a: bv16, b: bv16)
    requires a ^ b == 0
    ensures a == b
  {
  }

  lemma XorCancels(a: bv16, b: bv16)
    ensures Xor(Xor(a, b), b) == a
    ensures Xor(a, b) == 0 <==> a == b
  {
    RawTwice(a, b);
    RawSelf(a);
    if a ^ b == 0 {
      RawZero(a, b);
    }
  }

  lemma XorAssociative(a: bv16, b: bv16, c: bv16)
    ensures Xor(Xor(a, b), c) == Xor(a, Xor(b, c))
  {
    assert (a ^ b) ^ c == a ^ (b ^ c);
  }

  lemma XorCommutative(a: bv16, b: bv16)
    ensures Xor(a, b) == Xor(b, a)
  {
  }

  lemma XorSwaps(a: bv16, b: bv16, c: bv16, d: bv16)
    ensures Xor(Xor(a, b), Xor(c, d)) == Xor(Xor(a, c), Xor(b, d))
  {
    hide Xor;
    XorAssociative(a, b, Xor(c, d));
    XorAssociative(b, c, d);
    XorCommutative(b, c);
    XorAssociative(c, b, d);
    XorAssociative(a, c, Xor(b, d));
  }

  /** The inverse of `Step` for one byte. */
  function Unstep(crc: bv16, value: Byte): bv16 {
    Xor(Unwires(crc, 8), Extend(value))
  }

  /** For every byte the step is a bijection on the 16-bit states. */
  lemma StepBijective(crc: bv16, value: Byte)
    ensures Unstep(Step(crc, value), value) == crc
    ensures Step(Unstep(crc, value), value) == crc
  {
    hide Wires, Unwires, Xor, Extend;
    WiresBijective(Xor(crc, Extend(value)), 8);
    XorCancels(crc, Extend(value));
    XorCancels(Unwires(crc, 8), Extend(value));
    WiresBijective(crc, 8);
  }

  // ----- residue

  /** The eight bit steps of one byte written out. */
  function Wire8(crc: bv16): bv16 {
    Wire(Wire(Wire(Wire(Wire(Wire(Wire(Wire(crc))))))))
  }

  lemma WiresIsWire8(crc: bv16)
    ensures Wires(crc, 8) == Wire8(crc)
  {
    hide Wire;
    assert Wires(crc, 1) == Wire(crc);
    assert Wires(crc, 2) == Wire(Wire(crc));
    assert Wires(crc, 3) == Wire(Wire(Wire(crc)));
    assert Wires(crc, 4) == Wire(Wire(Wire(Wire(crc))));
    assert Wires(crc, 5) == Wire(Wires(crc, 4));
    assert Wires(crc, 6) == Wire(Wires(crc, 5));
    assert Wires(crc, 7) == Wire(Wires(crc, 6));
  }

  /** A register is brought to zero by its own bytes. */
  lemma RawResidue(low: Byte, high: Byte)
    ensures Wire8(Xor(Wire8(Xor(Word(low, high), Extend(low))), Extend(high))) == 0
  {
  }

  lemma StepInjective(a: bv16, b: bv16, value: Byte)
    requires Step(a, value) == Step(b, value)
    ensures a == b
  {
    hide Step, Unstep;
    StepBijective(a, value);
    StepBijective(b, value);
  }

  lemma ResidueWord(crc: bv16, low: Byte, high: Byte)
    ensures Step(Step(crc, low), high) == 0 <==> crc == Word(low, high)
  {
    hide Step, Wire8, Word, Xor, Extend;
    var word := Word(low, high);
    RawResidue(low, high);
    StepIsWire8(word, low);
    StepIsWire8(Step(word, low), high);
    if Step(Step(crc, low), high) == 0 {
      StepInjective(Step(crc, low), Step(word, low), high);
      StepInjective(crc, word, low);
    }
  }

  lemma ChecksumStep(data: seq<Byte>, n: nat)
    requires n < |data|
    ensures Checksum(data[..n + 1]) == Step(Checksum(data[..n]), data[n])
  {
    hide Step;
    assert data[..n + 1][..n] == data[..n];
  }

  /** A frame's CRC over payload and trailer is zero iff the trailer is the payload's CRC, low byte first. */
  lemma Residue(frame: seq<Byte>)
    requires |frame| >= 2
    ensures FrameValid(frame) <==> Checksum(frame) == 0
  {
    hide Step, Word, Checksum;
    var n := |frame|;
    ChecksumStep(frame, n - 2);
    ChecksumStep(frame, n - 1);
    assert frame[..n] == frame;
    ResidueWord(Checksum(frame[..n - 2]), frame[n - 2], frame[n - 1]);
  }

  /** Sealing a payload gives a valid frame, and every valid frame is a sealed payload. */
  lemma SealValid(frame: seq<Byte>)
    requires |frame| >= 2
    ensures FrameValid(frame) <==> frame == Seal(frame[..|frame| - 2])
  {
    hide Word, LowByte, HighByte, Checksum;
    var n := |frame|;
    WordOfBytes(Checksum(frame[..n - 2]), frame[n - 2], frame[n - 1]);
    assert frame == frame[..n - 2] + [frame[n - 2], frame[n - 1]];
  }

  // ----- burst errors

  /** `mask` selects the low bits of a byte: 0, 1, 3, ... 0xFF. */
  predicate LowMask(mask: Byte) {
    mask == 0 || mask == 1 || mask == 3 || mask == 7 || mask == 0xF || mask == 0x1F ||
    mask == 0x3F || mask == 0x7F || mask == 0xFF
  }

  /** First and third of three byte differences that fit in sixteen consecutive transmitted bits. */
  predicate Burst(d0: Byte, d2: Byte, mask: Byte) {
    LowMask(mask) && d0 & mask == 0 && d2 & !mask == 0
  }

  lemma RawBurst(d0: Byte, d1: Byte, d2: Byte, mask: Byte)
    requires Burst(d0, d2, mask)
    requires Wire8(Xor(Wire8(Xor(Wire8(Extend(d0)), Extend(d1))), Extend(d2))) == 0
    ensures d0 == 0 && d1 == 0 && d2 == 0
  {
    if mask == 0 {
    } else if mask == 1 {
    } else if mask == 3 {
    } else if mask == 7 {
    } else if mask == 0xF {
    } else if mask == 0x1F {
    } else if mask == 0x3F {
    } else if mask == 0x7F {
    } else {
      assert mask == 0xFF;
    }
  }

  lemma RawFromZero(word: bv16)
    ensures 0 ^ word == word
  {
  }

  lemma FromZero(word: bv16)
    ensures Xor(0, word) == word
  {
    RawFromZero(word);
  }

  lemma StepIsWire8(crc: bv16, value: Byte)
    ensures Step(crc, value) == Wire8(Xor(crc, Extend(value)))
    ensures Step(0, value) == Wire8(Extend(value))
  {
    hide Wires, Wire8, Xor, Extend;
    WiresIsWire8(Xor(crc, Extend(value)));
    WiresIsWire8(Extend(value));
    FromZero(Extend(value));
  }

  /** From the zero state a nonzero burst always leaves a nonzero state. */
  lemma BurstLeavesTrace(d0: Byte, d1: Byte, d2: Byte, mask: Byte)
    requires Burst(d0, d2, mask)
    requires Step(Step(Step(0, d0), d1), d2) == 0
    ensures d0 == 0 && d1 == 0 && d2 == 0
  {
    hide Step, Wire8, Burst, Xor, Extend;
    StepIsWire8(0, d0);
    StepIsWire8(Step(0, d0), d1);
    StepIsWire8(Step(Step(0, d0), d1), d2);
    RawBurst(d0, d1, d2, mask);
  }

  lemma RawPromote(a: Byte, b: Byte)
    ensures (a ^ b) as bv16 == (a as bv16) ^ (b as bv16)
  {
  }

  lemma Promote(a: Byte, b: Byte)
    ensures Extend(Difference(a, b)) == Xor(Extend(a), Extend(b))
  {
    RawPromote(a, b);
  }

  /** The states reached from two states over two bytes differ as the difference steps over the difference. */
  lemma StepDifference(c: bv16, d: bv16, a: Byte, b: Byte)
    ensures Xor(Step(c, a), Step(d, b)) == Step(Xor(c, d), Difference(a, b))
  {
    hide Xor, Wires, Extend, Difference;
    WiresLinear(Xor(c, Extend(a)), Xor(d, Extend(b)), 8);
    XorSwaps(c, Extend(a), d, Extend(b));
    Promote(a, b);
  }

  /** `f` and `g` agree outside sixteen consecutive bits that begin in byte `at`. */
  ghost predicate DifferInBurst(f: seq<Byte>, g: seq<Byte>, at: nat, mask: Byte) {
    |f| == |g| && at + 3 <= |f| && f[..at] == g[..at] && f[at + 3..] == g[at + 3..] &&
    Burst(Difference(f[at], g[at]), Difference(f[at + 2], g[at + 2]), mask)
  }

  /** Equal bytes keep unequal states apart. */
  lemma {:induction false} DifferencePersists(f: seq<Byte>, g: seq<Byte>, first: nat, last: nat)
    requires first <= last <= |f| == |g| && f[first..] == g[first..]
    requires Checksum(f[..first]) != Checksum(g[..first])
    ensures Checksum(f[..last]) != Checksum(g[..last])
    decreases last
  {
    hide Step, Unstep;
    if first < last {
      DifferencePersists(f, g, first, last - 1);
      ChecksumStep(f, last - 1);
      ChecksumStep(g, last - 1);
      assert f[last - 1] == f[first..][last - 1 - first] == g[last - 1];
      StepBijective(Checksum(f[..last - 1]), f[last - 1]);
      StepBijective(Checksum(g[..last - 1]), f[last - 1]);
    }
  }

  lemma BurstStates(f: seq<Byte>, g: seq<Byte>, at: nat)
    requires |f| == |g| && at + 3 <= |f| && f[..at] == g[..at]
    ensures Xor(Checksum(f[..at + 3]), Checksum(g[..at + 3])) ==
            Step(Step(Step(0, Difference(f[at], g[at])), Difference(f[at + 1], g[at + 1])),
                 Difference(f[at + 2], g[at + 2]))
  {
    hide Step, Xor, Checksum, Difference;
    ChecksumStep(f, at);
    ChecksumStep(g, at);
    ChecksumStep(f, at + 1);
    ChecksumStep(g, at + 1);
    ChecksumStep(f, at + 2);
    ChecksumStep(g, at + 2);
    var s := Checksum(f[..at]);
    XorCancels(s, s);
    StepDifference(s, s, f[at], g[at]);
    StepDifference(Checksum(f[..at + 1]), Checksum(g[..at + 1]), f[at + 1], g[at + 1]);
    StepDifference(Checksum(f[..at + 2]), Checksum(g[..at + 2]), f[at + 2], g[at + 2]);
  }

  lemma RawSameByte(a: Byte, b: Byte)
    ensures a ^ b == 0 <==> a == b
  {
  }

  lemma SameByte(a: Byte, b: Byte)
    ensures Difference(a, b) == 0 <==> a == b
  {
    RawSameByte(a, b);
  }

  /** Distinct messages that differ in one burst of at most sixteen bits have distinct CRCs. */
  lemma BurstDetected(f: seq<Byte>, g: seq<Byte>, at: nat, mask: Byte)
    requires DifferInBurst(f, g, at, mask) && f != g
    ensures Checksum(f) != Checksum(g)
  {
    hide Checksum, Step, Xor, Burst, Difference;
    if Checksum(f[..at + 3]) == Checksum(g[..at + 3]) {
      BurstStates(f, g, at);
      XorCancels(Checksum(f[..at + 3]), Checksum(g[..at + 3]));
      BurstLeavesTrace(Difference(f[at], g[at]), Difference(f[at + 1], g[at + 1]),
                       Difference(f[at + 2], g[at + 2]), mask);
      SameByte(f[at], g[at]);
      SameByte(f[at + 1], g[at + 1]);
      SameByte(f[at + 2], g[at + 2]);
      SameOutsideBurst(f, g, at);
      assert false;
    }
    DifferencePersists(f, g, at + 3, |f|);
    assert f[..|f|] == f && g[..|g|] == g;
  }

  lemma SameOutsideBurst(f: seq<Byte>, g: seq<Byte>, at: nat)
    requires |f| == |g| && at + 3 <= |f| && f[..at] == g[..at] && f[at + 3..] == g[at + 3..]
    requires f != g
    ensures f[at] != g[at] || f[at + 1] != g[at + 1] || f[at + 2] != g[at + 2]
  {
    assert f == f[..at] + [f[at], f[at + 1], f[at + 2]] + f[at + 3..];
    assert g == g[..at] + [g[at], g[at + 1], g[at + 2]] + g[at + 3..];
  }

  /** Two frames that differ in one burst of at most sixteen bits are never both valid. */
  lemma BurstNeverBothValid(f: seq<Byte>, g: seq<Byte>, at: nat, mask: Byte)
    requires DifferInBurst(f, g, at, mask) && f != g
    ensures !(FrameValid(f) && FrameValid(g))
  {
    hide Checksum, Burst, Seal, Difference;
    Residue(f);
    Residue(g);
    BurstDetected(f, g, at, mask);
  }

  /** In particular frames of any length that differ only within two adjacent bytes. */
  lemma AdjacentBytesNeverBothValid(f: seq<Byte>, g: seq<Byte>, at: nat)
    requires |f| == |g| && at + 2 <= |f| && f != g
    requires f[..at] == g[..at] && f[at + 2..] == g[at + 2..]
    ensures !(FrameValid(f) && FrameValid(g))
  {
    hide FrameValid, Burst, Difference, Checksum;
    if |f| == 2 {
      BareTrailers(f, g);
    } else if at + 2 < |f| {
      assert f[at + 2] == f[at + 2..][0] == g[at + 2];
      assert f[at + 3..] == f[at + 2..][1..] == g[at + 3..];
      SameByte(f[at + 2], g[at + 2]);
      BurstEdges(Difference(f[at], g[at]));
      BurstNeverBothValid(f, g, at, 0);
    } else {
      assert f[..at - 1] == f[..at][..at - 1] == g[..at - 1];
      assert f[at - 1] == f[..at][at - 1] == g[at - 1];
      SameByte(f[at - 1], g[at - 1]);
      BurstEdges(Difference(f[at + 1], g[at + 1]));
      BurstNeverBothValid(f, g, at - 1, 0xFF);
    }
  }

  lemma BareTrailers(f: seq<Byte>, g: seq<Byte>)
    requires |f| == |g| == 2 && f != g
    ensures !(FrameValid(f) && FrameValid(g))
  {
    hide Word, LowByte, HighByte;
    assert f[..0] == [] == g[..0] && f == [f[0], f[1]] && g == [g[0], g[1]];
    WordOfBytes(Checksum([]), f[0], f[1]);
    WordOfBytes(Checksum([]), g[0], g[1]);
  }

  lemma BurstEdges(d: Byte)
    ensures Burst(d, 0, 0) && Burst(0, d, 0xFF)
  {
  }

  // ----- odd numbers of differing bits

  function LowBitOf(word: bv16): bv16 { word & 1 }

  function LowOne(word: bv16): nat { if LowBitOf(word) == 1 then 1 else 0 }

  function ShiftDown(word: bv16): bv16 { word >> 1 }

  /** How many of the low `n` bits of a word are one. */
  function OnesIn(word: bv16, n: nat): nat {
    if n == 0 then 0 else LowOne(word) + OnesIn(ShiftDown(word), n - 1)
  }

  function Ones(value: Byte): nat { OnesIn(Extend(value), 16) }

  /** How many bits of a frame are one. */
  function TotalOnes(data: seq<Byte>): nat {
    if data == [] then 0 else TotalOnes(data[..|data| - 1]) + Ones(data[|data| - 1])
  }

  /** In how many bits two frames of one length differ. */
  function BitsApart(f: seq<Byte>, g: seq<Byte>): nat
    requires |f| == |g|
  {
    if f == [] then 0
    else BitsApart(f[..|f| - 1], g[..|g| - 1]) + Ones(Difference(f[|f| - 1], g[|g| - 1]))
  }

  predicate IsOdd(n: nat) { n % 2 == 1 }

  predicate Odd(word: bv16) { IsOdd(OnesIn(word, 16)) }

  lemma OddSum(a: nat, b: nat)
    ensures IsOdd(a + b) <==> IsOdd(a) != IsOdd(b)
  {
  }

  lemma RawXorShift(a: bv16, b: bv16)
    ensures (a ^ b) >> 1 == (a >> 1) ^ (b >> 1)
  {
  }

  lemma RawXorEqual(a: bv16, b: bv16)
    requires a & 1 == b & 1
    ensures (a ^ b) & 1 == 0
  {
  }

  lemma RawXorUnequal(a: bv16, b: bv16)
    requires a & 1 != b & 1
    ensures (a ^ b) & 1 == 1
  {
  }

  lemma XorShift(a: bv16, b: bv16)
    ensures ShiftDown(Xor(a, b)) == Xor(ShiftDown(a), ShiftDown(b))
  {
    RawXorShift(a, b);
  }

  lemma LowBitIs(word: bv16)
    ensures LowBitOf(word) == 0 || LowBitOf(word) == 1
  {
    LowBit(word);
  }

  lemma XorLowBit(a: bv16, b: bv16)
    ensures LowBitOf(Xor(a, b)) == if LowBitOf(a) == LowBitOf(b) then 0 else 1
  {
    if a & 1 == b & 1 {
      RawXorEqual(a, b);
    } else {
      RawXorUnequal(a, b);
    }
  }

  lemma XorLowOne(a: bv16, b: bv16)
    ensures IsOdd(LowOne(Xor(a, b))) <==> IsOdd(LowOne(a)) != IsOdd(LowOne(b))
  {
    hide LowBitOf, Xor;
    XorLowBit(a, b);
    LowBitIs(a);
    LowBitIs(b);
  }

  lemma {:induction false} XorOnes(a: bv16, b: bv16, n: nat)
    ensures IsOdd(OnesIn(Xor(a, b), n)) <==> IsOdd(OnesIn(a, n)) != IsOdd(OnesIn(b, n))
    decreases n
  {
    hide LowOne, ShiftDown, Xor;
    if n > 0 {
      hide IsOdd;
      XorLowOne(a, b);
      XorShift(a, b);
      XorOnes(ShiftDown(a), ShiftDown(b), n - 1);
      OddSum(LowOne(Xor(a, b)), OnesIn(ShiftDown(Xor(a, b)), n - 1));
      OddSum(LowOne(a), OnesIn(ShiftDown(a), n - 1));
      OddSum(LowOne(b), OnesIn(ShiftDown(b), n - 1));
    }
  }

  lemma XorParity(a: bv16, b: bv16)
    ensures Odd(Xor(a, b)) <==> Odd(a) != Odd(b)
  {
    hide OnesIn, Xor, IsOdd;
    XorOnes(a, b, 16);
  }

  function ShiftBy(word: bv16, n: nat): bv16 { if n == 0 then word else ShiftDown(ShiftBy(word, n - 1)) }

  lemma {:induction false} ShiftFirst(word: bv16, n: nat)
    ensures ShiftBy(ShiftDown(word), n) == ShiftBy(word, n + 1)
  {
    hide ShiftDown;
    if n > 0 {
      ShiftFirst(word, n - 1);
    }
  }

  lemma {:induction false} OnesSnoc(word: bv16, n: nat)
    ensures OnesIn(word, n + 1) == OnesIn(word, n) + LowOne(ShiftBy(word, n))
    decreases n
  {
    hide LowOne, ShiftDown;
    if n > 0 {
      OnesSnoc(ShiftDown(word), n - 1);
      ShiftFirst(word, n - 1);
    }
  }

  lemma RawShiftAdd(word: bv16)
    ensures word >> 1 >> 1 == word >> 2 && word >> 2 >> 2 == word >> 4
  {
  }

  lemma RawShiftOut(word: bv16)
    ensures word >> 4 >> 4 >> 4 >> 4 == 0
  {
  }

  lemma ShiftFour(word: bv16)
    ensures ShiftDown(ShiftDown(ShiftDown(ShiftDown(word)))) == word >> 4
  {
    RawShiftAdd(word);
    RawShiftAdd(word >> 2);
  }

  lemma FourMore(word: bv16, n: nat)
    ensures ShiftBy(word, n + 4) == ShiftBy(word, n) >> 4
  {
    ShiftFour(ShiftBy(word, n));
    hide ShiftDown;
    assert ShiftBy(word, n + 2) == ShiftDown(ShiftDown(ShiftBy(word, n)));
  }

  lemma ShiftedOut(word: bv16)
    ensures ShiftBy(word, 16) == 0
  {
    FourMore(word, 0);
    FourMore(word, 4);
    FourMore(word, 8);
    FourMore(word, 12);
    RawShiftOut(word);
    hide ShiftDown;
  }

  lemma ShiftDownOnes(word: bv16)
    ensures OnesIn(word, 16) == LowOne(word) + OnesIn(ShiftDown(word), 16)
  {
    hide LowOne, ShiftDown;
    ShiftedOut(word);
    ShiftFirst(word, 15);
    OnesSnoc(ShiftDown(word), 15);
    ZeroShifts();
  }

  lemma Halve(word: bv16, half: bv16, low: nat)
    requires word >> 1 == half && low == if word & 1 == 1 then 1 else 0
    ensures OnesIn(word, 16) == low + OnesIn(half, 16)
  {
    hide OnesIn;
    ShiftDownOnes(word);
  }

  lemma SmallOnes()
    ensures OnesIn(1, 16) == 1 && OnesIn(5, 16) == 2
  {
    hide OnesIn;
    NoOnes(16);
    Halve(1, 0, 1);
    Halve(2, 1, 0);
    Halve(5, 2, 1);
  }

  lemma FeedbackIsOdd()
    ensures Odd(0xA001)
  {
    hide OnesIn;
    SmallOnes();
    Halve(0xA001, 0x5000, 1);
    Halve(0x5000, 0x2800, 0);
    Halve(0x2800, 0x1400, 0);
    Halve(0x1400, 0xA00, 0);
    Halve(0xA00, 0x500, 0);
    Halve(0x500, 0x280, 0);
    Halve(0x280, 0x140, 0);
    Halve(0x140, 0xA0, 0);
    Halve(0xA0, 0x50, 0);
    Halve(0x50, 0x28, 0);
    Halve(0x28, 0x14, 0);
    Halve(0x14, 0xA, 0);
    Halve(0xA, 5, 0);
  }

  lemma WireForm(word: bv16)
    ensures Wire(word) == if LowOne(word) == 1 then Xor(ShiftDown(word), 0xA001) else ShiftDown(word)
  {
    LowBit(word);
    BitStepIsWire(word);
    hide Wire;
  }

  /** The polynomial has the factor x + 1: a bit step keeps the parity of the register. */
  lemma WireKeepsParity(word: bv16)
    ensures Odd(Wire(word)) <==> Odd(word)
  {
    hide OnesIn, Wire, LowBitOf, ShiftDown, Xor;
    WireForm(word);
    ShiftDownOnes(word);
    XorParity(ShiftDown(word), 0xA001);
    FeedbackIsOdd();
  }

  lemma {:induction false} WiresKeepParity(word: bv16, bits: nat)
    ensures Odd(Wires(word, bits)) <==> Odd(word)
  {
    hide Wire, Odd;
    if bits > 0 {
      WiresKeepParity(word, bits - 1);
      WireKeepsParity(Wires(word, bits - 1));
    }
  }

  lemma StepParity(crc: bv16, value: Byte)
    ensures Odd(Step(crc, value)) <==> Odd(crc) != IsOdd(Ones(value))
  {
    hide OnesIn, Wires, Xor, Extend;
    WiresKeepParity(Xor(crc, Extend(value)), 8);
    XorParity(crc, Extend(value));
  }

  lemma {:induction false} ChecksumParity(data: seq<Byte>)
    ensures Odd(Checksum(data)) <==> IsOdd(TotalOnes(data))
  {
    hide Odd, Step, Ones;
    if data == [] {
      SeedIsEven();
    } else {
      hide IsOdd;
      ChecksumParity(data[..|data| - 1]);
      StepParity(Checksum(data[..|data| - 1]), data[|data| - 1]);
      OddSum(TotalOnes(data[..|data| - 1]), Ones(data[|data| - 1]));
    }
  }

  lemma ZeroShifts()
    ensures ShiftDown(0) == 0 && LowOne(0) == 0
  {
  }

  lemma {:induction false} NoOnes(n: nat)
    ensures OnesIn(0, n) == 0
  {
    hide ShiftDown, LowOne;
    if n > 0 {
      ZeroShifts();
      NoOnes(n - 1);
    }
  }

  lemma SeedIsEven()
    ensures !Odd(SEED) && !Odd(0)
  {
    hide OnesIn;
    NoOnes(16);
    SmallOnes();
    Halve(0xFFFF, 0x7FFF, 1);
    Halve(0x7FFF, 0x3FFF, 1);
    Halve(0x3FFF, 0x1FFF, 1);
    Halve(0x1FFF, 0xFFF, 1);
    Halve(0xFFF, 0x7FF, 1);
    Halve(0x7FF, 0x3FF, 1);
    Halve(0x3FF, 0x1FF, 1);
    Halve(0x1FF, 0xFF, 1);
    Halve(0xFF, 0x7F, 1);
    Halve(0x7F, 0x3F, 1);
    Halve(0x3F, 0x1F, 1);
    Halve(0x1F, 0xF, 1);
    Halve(0xF, 7, 1);
    Halve(7, 3, 1);
    Halve(3, 1, 1);
  }

  /** A valid frame has an even number of ones. */
  lemma ValidIsEven(frame: seq<Byte>)
    requires |frame| >= 2 && FrameValid(frame)
    ensures TotalOnes(frame) % 2 == 0
  {
    hide Odd, Checksum, TotalOnes, FrameValid;
    Residue(frame);
    SeedIsEven();
    ChecksumParity(frame);
  }

  lemma DifferenceParity(a: Byte, b: Byte)
    ensures IsOdd(Ones(Difference(a, b))) <==> IsOdd(Ones(a)) != IsOdd(Ones(b))
  {
    hide OnesIn, Xor, Extend, Difference, IsOdd;
    Promote(a, b);
    XorOnes(Extend(a), Extend(b), 16);
  }

  lemma {:induction false} BitsApartParity(f: seq<Byte>, g: seq<Byte>)
    requires |f| == |g|
    ensures IsOdd(BitsApart(f, g)) <==> IsOdd(TotalOnes(f)) != IsOdd(TotalOnes(g))
  {
    hide Ones, Difference;
    if f != [] {
      hide IsOdd;
      var n := |f| - 1;
      BitsApartParity(f[..n], g[..n]);
      DifferenceParity(f[n], g[n]);
      OddSum(BitsApart(f[..n], g[..n]), Ones(Difference(f[n], g[n])));
      OddSum(TotalOnes(f[..n]), Ones(f[n]));
      OddSum(TotalOnes(g[..n]), Ones(g[n]));
    }
  }

  /** Two frames of any one length that differ in an odd number of bits, wherever, are never both valid. */
  lemma OddErrorsNeverBothValid(f: seq<Byte>, g: seq<Byte>)
    requires |f| == |g| >= 2 && BitsApart(f, g) % 2 == 1
    ensures !(FrameValid(f) && FrameValid(g))
  {
    hide FrameValid, TotalOnes, BitsApart;
    BitsApartParity(f, g);
    if FrameValid(f) && FrameValid(g) {
      ValidIsEven(f);
      ValidIsEven(g);
    }
  }

  // ----- a known answer

  lemma Feed(crc: bv16, next: bv16)
    requires next == if crc & 1 != 0 then (crc >> 1) ^ 0xA001 else crc >> 1
    ensures Wire(crc) == next
  {
    BitStepIsWire(crc);
    hide Wire;
  }

  lemma {:induction false} WiresFollow(chain: seq<bv16>, n: nat)
    requires n < |chain| && forall i | 0 <= i < n :: Wire(chain[i]) == chain[i + 1]
    ensures Wires(chain[0], n) == chain[n]
  {
    hide Wire;
    if n > 0 {
      WiresFollow(chain, n - 1);
    }
  }

  /** The checksum of one zero byte. */
  lemma ZeroByte()
    ensures Checksum([0]) == 0x40BF
  {
    Feed(0xFFFF, 0xDFFE);
    Feed(0xDFFE, 0x6FFF);
    Feed(0x6FFF, 0x97FE);
    Feed(0x97FE, 0x4BFF);
    Feed(0x4BFF, 0x85FE);
    Feed(0x85FE, 0x42FF);
    Feed(0x42FF, 0x817E);
    Feed(0x817E, 0x40BF);
    hide Wire;
    WiresFollow([0xFFFF, 0xDFFE, 0x6FFF, 0x97FE, 0x4BFF, 0x85FE, 0x42FF, 0x817E, 0x40BF], 8);
    hide Wires;
    assert [0 as Byte][..0] == [] && Xor(0xFFFF, Extend(0)) == 0xFFFF;
  }
}
