/** The CRC-32 that guards stored structures (polynomial 0xEDB88320, low bit first). */
module Crc32 {
  import opened MachineWords

  const SEED: bv32 := 0xFFFF_FFFF

  function ShiftBit(crc: bv32): bv32 {
    (crc >> 1) ^ (0xEDB8_8320 & (0 - (crc & 1)))
  }

  function ShiftBits(crc: bv32, bits: nat): bv32 {
    if bits == 0 then crc else ShiftBit(ShiftBits(crc, bits - 1))
  }

  function Mix(crc: bv32, value: Byte): bv32 { crc ^ (value as bv32) }

  function Register(data: seq<Byte>): bv32 {
    if data == [] then SEED
    else ShiftBits(Mix(Register(data[..|data| - 1]), data[|data| - 1]), 8)
  }

  function Checksum(data: seq<Byte>): bv32 {
    !Register(data)
  }

  method Compute(bytes: seq<Byte>) returns (checksum: bv32)
    ensures checksum == Checksum(bytes)
  {
    hide ShiftBit, Mix;
    var crc: bv32 := 0xFFFF_FFFF;
    for index := 0 to |bytes|
      invariant crc == Register(bytes[..index])
    {
      crc := Mix(crc, bytes[index]);
      ghost var mixed := crc;
      for bit := 0 to 8
        invariant crc == ShiftBits(mixed, bit)
      {
        crc := ShiftBit(crc);
      }
      assert bytes[..index + 1][..index] == bytes[..index];
    }
    assert bytes[..|bytes|] == bytes;
    checksum := !crc;
  }

  // ----- a bit step is an injective linear map

  function Xor(a: bv32, b: bv32): bv32 { a ^ b }

  lemma LowBit(crc: bv32)
    ensures crc & 1 == 0 || crc & 1 == 1
  {
  }

  lemma RawFed(crc: bv32)
    requires crc & 1 == 1
    ensures (crc >> 1) ^ (0xEDB8_8320 & (0 - (crc & 1))) == (crc >> 1) ^ 0xEDB8_8320
  {
  }

  lemma RawUnfed(crc: bv32)
    requires crc & 1 == 0
    ensures (crc >> 1) ^ (0xEDB8_8320 & (0 - (crc & 1))) == crc >> 1
  {
  }

  /** A low bit of one feeds the polynomial back. */
  lemma ShiftFed(crc: bv32)
    requires crc & 1 == 1
    ensures ShiftBit(crc) == (crc >> 1) ^ 0xEDB8_8320
  {
    RawFed(crc);
  }

  /** A low bit of zero is only shifted out. */
  lemma ShiftUnfed(crc: bv32)
    requires crc & 1 == 0
    ensures ShiftBit(crc) == crc >> 1
  {
    RawUnfed(crc);
  }

  function Unshift(crc: bv32): bv32 {
    if crc >> 31 == 1 then ((crc ^ 0xEDB8_8320) << 1) | 1 else crc << 1
  }

  lemma UnshiftUndoes(crc: bv32)
    ensures Unshift(ShiftBit(crc)) == crc
  {
  }

  lemma {:induction false} ShiftsInjective(a: bv32, b: bv32, bits: nat)
    requires ShiftBits(a, bits) == ShiftBits(b, bits)
    ensures a == b
  {
    hide ShiftBit, Unshift;
    if bits > 0 {
      UnshiftUndoes(ShiftBits(a, bits - 1));
      UnshiftUndoes(ShiftBits(b, bits - 1));
      ShiftsInjective(a, b, bits - 1);
    }
  }

  lemma RawXorShift(a: bv32, b: bv32)
    ensures (a ^ b) >> 1 == (a >> 1) ^ (b >> 1)
  {
  }

  lemma RawXorEqual(a: bv32, b: bv32)
    requires a & 1 == b & 1
    ensures (a ^ b) & 1 == 0
  {
  }

  lemma RawXorUnequal(a: bv32, b: bv32)
    requires a & 1 != b & 1
    ensures (a ^ b) & 1 == 1
  {
  }

  lemma RawXorBoth(a: bv32, b: bv32, c: bv32)
    ensures (a ^ c) ^ (b ^ c) == a ^ b
  {
  }

  lemma RawXorOne(a: bv32, b: bv32, c: bv32)
    ensures (a ^ c) ^ b == (a ^ b) ^ c && a ^ (b ^ c) == (a ^ b) ^ c
  {
  }

  lemma BothFed(a: bv32, b: bv32)
    requires a & 1 == 1 && b & 1 == 1
    ensures ShiftBit(a) ^ ShiftBit(b) == ShiftBit(a ^ b)
  {
    hide ShiftBit;
    ShiftFed(a);
    ShiftFed(b);
    RawXorEqual(a, b);
    ShiftUnfed(a ^ b);
    RawXorShift(a, b);
    RawXorBoth(a >> 1, b >> 1, 0xEDB8_8320);
  }

  lemma NoneFed(a: bv32, b: bv32)
    requires a & 1 == 0 && b & 1 == 0
    ensures ShiftBit(a) ^ ShiftBit(b) == ShiftBit(a ^ b)
  {
    hide ShiftBit;
    ShiftUnfed(a);
    ShiftUnfed(b);
    RawXorEqual(a, b);
    ShiftUnfed(a ^ b);
    RawXorShift(a, b);
  }

  lemma FirstFed(a: bv32, b: bv32)
    requires a & 1 == 1 && b & 1 == 0
    ensures ShiftBit(a) ^ ShiftBit(b) == ShiftBit(a ^ b)
  {
    hide ShiftBit;
    ShiftFed(a);
    ShiftUnfed(b);
    RawXorUnequal(a, b);
    ShiftFed(a ^ b);
    RawXorShift(a, b);
    RawXorOne(a >> 1, b >> 1, 0xEDB8_8320);
  }

  function Low(word: bv32): bv32 { word & 1 }

  lemma LowIs(word: bv32)
    ensures Low(word) == 0 || Low(word) == 1
  {
    LowBit(word);
  }

  lemma LinearBothFed(a: bv32, b: bv32)
    requires Low(a) == 1 && Low(b) == 1
    ensures Xor(ShiftBit(a), ShiftBit(b)) == ShiftBit(Xor(a, b))
  {
    hide ShiftBit;
    BothFed(a, b);
  }

  lemma LinearNoneFed(a: bv32, b: bv32)
    requires Low(a) == 0 && Low(b) == 0
    ensures Xor(ShiftBit(a), ShiftBit(b)) == ShiftBit(Xor(a, b))
  {
    hide ShiftBit;
    NoneFed(a, b);
  }

  lemma LinearFirstFed(a: bv32, b: bv32)
    requires Low(a) == 1 && Low(b) == 0
    ensures Xor(ShiftBit(a), ShiftBit(b)) == ShiftBit(Xor(a, b))
  {
    hide ShiftBit;
    FirstFed(a, b);
  }

  lemma LinearStep(a: bv32, b: bv32)
    ensures Xor(ShiftBit(a), ShiftBit(b)) == ShiftBit(Xor(a, b))
  {
    LowIs(a);
    LowIs(b);
    XorCommutative(a, b);
    XorCommutative(ShiftBit(a), ShiftBit(b));
    hide ShiftBit, Low, Xor;
    if Low(a) == 1 && Low(b) == 1 {
      LinearBothFed(a, b);
    } else if Low(a) == 1 {
      LinearFirstFed(a, b);
    } else if Low(b) == 1 {
      LinearFirstFed(b, a);
    } else {
      LinearNoneFed(a, b);
    }
  }

  lemma {:induction false} ShiftsLinear(a: bv32, b: bv32, bits: nat)
    ensures Xor(ShiftBits(a, bits), ShiftBits(b, bits)) == ShiftBits(Xor(a, b), bits)
  {
    hide ShiftBit, Xor;
    if bits > 0 {
      ShiftsLinear(a, b, bits - 1);
      LinearStep(ShiftBits(a, bits - 1), ShiftBits(b, bits - 1));
    }
  }

  // ----- a change within four adjacent bytes is always detected

  function Extend(value: Byte): bv32 { value as bv32 }

  function Lift(word: bv32): bv32 { word << 8 }

  predicate Below24(word: bv32) { word >> 24 == 0 }

  predicate Below16(word: bv32) { word >> 16 == 0 }

  predicate Below8(word: bv32) { word >> 8 == 0 }

  /** One byte of data. */
  function Step(crc: bv32, value: Byte): bv32 { ShiftBits(Mix(crc, value), 8) }

  lemma MixIsXor(crc: bv32, value: Byte)
    ensures Mix(crc, value) == Xor(crc, Extend(value))
  {
  }

  lemma RawLift(w: bv32)
    requires w >> 24 == 0
    ensures ((w << 8) & 1 == 0 && (w << 8) >> 1 == w << 7) && ((w << 7) & 1 == 0 && (w << 7) >> 1 == w << 6)
    ensures ((w << 6) & 1 == 0 && (w << 6) >> 1 == w << 5) && ((w << 5) & 1 == 0 && (w << 5) >> 1 == w << 4)
    ensures ((w << 4) & 1 == 0 && (w << 4) >> 1 == w << 3) && ((w << 3) & 1 == 0 && (w << 3) >> 1 == w << 2)
    ensures ((w << 2) & 1 == 0 && (w << 2) >> 1 == w << 1) && ((w << 1) & 1 == 0 && (w << 1) >> 1 == w)
  {
  }

  predicate Halves(crc: bv32, half: bv32) { crc & 1 == 0 && crc >> 1 == half }

  lemma EvenShift(crc: bv32, half: bv32)
    requires Halves(crc, half)
    ensures ShiftBit(crc) == half
  {
    ShiftUnfed(crc);
    hide ShiftBit;
  }

  lemma {:induction false} HalvingShifts(chain: seq<bv32>, n: nat)
    requires n < |chain| && forall i | 0 <= i < n :: Halves(chain[i], chain[i + 1])
    ensures ShiftBits(chain[0], n) == chain[n]
  {
    hide ShiftBit, Halves;
    if n > 0 {
      HalvingShifts(chain, n - 1);
      assert Halves(chain[n - 1], chain[n]);
      EvenShift(chain[n - 1], chain[n]);
    }
  }

  /** Eight bit steps bring a small word down again. */
  lemma ShiftsLower(w: bv32)
    requires Below24(w)
    ensures ShiftBits(Lift(w), 8) == w
  {
    RawLift(w);
    var chain := [w << 8, w << 7, w << 6, w << 5, w << 4, w << 3, w << 2, w << 1, w];
    assert Halves(w << 8, w << 7) && Halves(w << 7, w << 6) && Halves(w << 6, w << 5) && Halves(w << 5, w << 4);
    assert Halves(w << 4, w << 3) && Halves(w << 3, w << 2) && Halves(w << 2, w << 1) && Halves(w << 1, w);
    hide Halves, ShiftBits;
    HalvingShifts(chain, 8);
  }

  lemma XorAssociative(a: bv32, b: bv32, c: bv32)
    ensures Xor(Xor(a, b), c) == Xor(a, Xor(b, c))
  {
    assert (a ^ b) ^ c == a ^ (b ^ c);
  }

  lemma XorCommutative(a: bv32, b: bv32)
    ensures Xor(a, b) == Xor(b, a)
  {
  }

  lemma RawTwice(a: bv32, b: bv32)
    ensures (a ^ b) ^ b == a
  {
  }

  lemma XorTwice(a: bv32, b: bv32)
    ensures Xor(Xor(a, b), b) == a
  {
    RawTwice(a, b);
  }

  lemma XorSwaps(a: bv32, b: bv32, c: bv32, d: bv32)
    ensures Xor(Xor(a, b), Xor(c, d)) == Xor(Xor(a, c), Xor(b, d))
  {
    hide Xor;
    XorAssociative(a, b, Xor(c, d));
    XorAssociative(b, c, d);
    XorCommutative(b, c);
    XorAssociative(c, b, d);
    XorAssociative(a, c, Xor(b, d));
  }

  /** How two registers differ before a byte, from how they differ after it. */
  lemma DifferenceBefore(a: bv32, b: bv32, x: Byte, y: Byte, w: bv32)
    requires Xor(Step(a, x), Step(b, y)) == w && Below24(w)
    ensures Xor(a, b) == Xor(Lift(w), Xor(Extend(x), Extend(y)))
  {
    hide ShiftBits, Mix, Lift, Extend, Below24, Xor;
    MixIsXor(a, x);
    MixIsXor(b, y);
    var p, q := Mix(a, x), Mix(b, y);
    ShiftsLinear(p, q, 8);
    ShiftsLower(w);
    ShiftsInjective(Xor(p, q), Lift(w), 8);
    XorSwaps(a, Extend(x), b, Extend(y));
    XorTwice(Xor(a, b), Xor(Extend(x), Extend(y)));
  }

  lemma RawSmall(x: Byte, y: Byte)
    ensures ((x as bv32) ^ (y as bv32)) >> 8 == 0
    ensures (x as bv32) ^ (y as bv32) == 0 ==> x == y
  {
  }

  lemma RawGrow(w: bv32, d: bv32)
    requires d >> 8 == 0
    ensures w >> 8 == 0 ==> ((w << 8) ^ d) >> 16 == 0
    ensures w >> 16 == 0 ==> ((w << 8) ^ d) >> 24 == 0
    ensures w >> 24 == 0 && (w << 8) ^ d == 0 ==> w == 0 && d == 0
    ensures w >> 8 == 0 ==> w >> 16 == 0
    ensures w >> 16 == 0 ==> w >> 24 == 0
  {
  }

  lemma BytesDiffer(x: Byte, y: Byte)
    ensures Below8(Xor(Extend(x), Extend(y)))
    ensures Xor(Extend(x), Extend(y)) == 0 ==> x == y
  {
    RawSmall(x, y);
  }

  lemma Grow(w: bv32, d: bv32)
    requires Below8(d)
    ensures Below8(w) ==> Below16(w) && Below16(Xor(Lift(w), d))
    ensures Below16(w) ==> Below24(w) && Below24(Xor(Lift(w), d))
    ensures Below24(w) && Xor(Lift(w), d) == 0 ==> w == 0 && d == 0
    ensures Xor(Lift(0), d) == d
  {
    RawGrow(w, d);
    RawLiftNothing(d);
  }

  lemma RawLiftNothing(d: bv32)
    ensures ((0 as bv32) << 8) ^ d == d
  {
  }

  lemma XorSelf(a: bv32, b: bv32)
    ensures Xor(a, b) == 0 <==> a == b
    ensures Below24(0)
  {
    RawXorZero(a, b);
  }

  lemma RawXorZero(a: bv32, b: bv32)
    ensures a ^ b == 0 <==> a == b
  {
  }

  /** From one register, four bytes lead to one register only if they are the same bytes. */
  lemma FourBytes(r: bv32, f: seq<Byte>, g: seq<Byte>)
    requires |f| == |g| == 4
    requires Step(Step(Step(Step(r, f[0]), f[1]), f[2]), f[3]) == Step(Step(Step(Step(r, g[0]), g[1]), g[2]), g[3])
    ensures f == g
  {
    hide Step, Xor, Lift, Extend, Below8, Below16, Below24;
    var (a1, b1) := (Step(r, f[0]), Step(r, g[0]));
    var (a2, b2) := (Step(a1, f[1]), Step(b1, g[1]));
    var (a3, b3) := (Step(a2, f[2]), Step(b2, g[2]));
    var (d0, d1) := (Xor(Extend(f[0]), Extend(g[0])), Xor(Extend(f[1]), Extend(g[1])));
    var (d2, d3) := (Xor(Extend(f[2]), Extend(g[2])), Xor(Extend(f[3]), Extend(g[3])));
    BytesDiffer(f[0], g[0]);
    BytesDiffer(f[1], g[1]);
    BytesDiffer(f[2], g[2]);
    BytesDiffer(f[3], g[3]);
    XorSelf(Step(a3, f[3]), Step(b3, g[3]));
    Grow(0, d3);
    DifferenceBefore(a3, b3, f[3], g[3], 0);
    Grow(d3, d2);
    DifferenceBefore(a2, b2, f[2], g[2], d3);
    var w2 := Xor(Lift(d3), d2);
    Grow(w2, d1);
    DifferenceBefore(a1, b1, f[1], g[1], w2);
    var w1 := Xor(Lift(w2), d1);
    Grow(w1, d0);
    DifferenceBefore(r, r, f[0], g[0], w1);
    XorSelf(r, r);
  }

  lemma RegisterSnoc(data: seq<Byte>, n: nat)
    requires n < |data|
    ensures Register(data[..n + 1]) == Step(Register(data[..n]), data[n])
  {
    hide ShiftBits, Mix;
    assert data[..n + 1][..n] == data[..n];
  }

  lemma SameByteInjective(a: bv32, b: bv32, value: Byte)
    requires Step(a, value) == Step(b, value)
    ensures a == b
  {
    hide Step, Xor, Lift, Extend;
    XorSelf(Step(a, value), Step(b, value));
    XorSelf(Extend(value), Extend(value));
    XorSelf(a, b);
    Grow(0, 0);
    BytesDiffer(value, value);
    DifferenceBefore(a, b, value, value, 0);
  }

  /** Equal bytes keep unequal registers apart. */
  lemma {:induction false} DifferencePersists(f: seq<Byte>, g: seq<Byte>, first: nat, last: nat)
    requires first <= last <= |f| == |g| && f[first..] == g[first..]
    requires Register(f[..first]) != Register(g[..first])
    ensures Register(f[..last]) != Register(g[..last])
    decreases last
  {
    hide Step, Register;
    if first < last {
      DifferencePersists(f, g, first, last - 1);
      RegisterSnoc(f, last - 1);
      RegisterSnoc(g, last - 1);
      assert f[last - 1] == f[first..][last - 1 - first] == g[last - 1];
      if Register(f[..last]) == Register(g[..last]) {
        SameByteInjective(Register(f[..last - 1]), Register(g[..last - 1]), f[last - 1]);
      }
    }
  }

  lemma FourSteps(f: seq<Byte>, at: nat)
    requires at + 4 <= |f|
    ensures Register(f[..at + 4]) == Step(Step(Step(Step(Register(f[..at]), f[at]), f[at + 1]), f[at + 2]), f[at + 3])
  {
    hide Step, Register;
    RegisterSnoc(f, at);
    RegisterSnoc(f, at + 1);
    RegisterSnoc(f, at + 2);
    RegisterSnoc(f, at + 3);
  }

  lemma RawNot(a: bv32, b: bv32)
    requires !a == !b
    ensures a == b
  {
  }

  lemma SameParts(f: seq<Byte>, g: seq<Byte>, at: nat)
    requires |f| == |g| && at + 4 <= |f|
    requires f[..at] == g[..at] && f[at..at + 4] == g[at..at + 4] && f[at + 4..] == g[at + 4..]
    ensures f == g
  {
    assert f == f[..at] + f[at..at + 4] + f[at + 4..];
    assert g == g[..at] + g[at..at + 4] + g[at + 4..];
  }

  /** Data of any length that differ only within four adjacent bytes have different checksums. */
  lemma ChangeDetected(f: seq<Byte>, g: seq<Byte>, at: nat)
    requires |f| == |g| && at + 4 <= |f| && f[..at] == g[..at] && f[at + 4..] == g[at + 4..] && f != g
    ensures Checksum(f) != Checksum(g)
  {
    hide Register, Step;
    if Register(f[..at + 4]) == Register(g[..at + 4]) {
      FourSteps(f, at);
      FourSteps(g, at);
      FourBytes(Register(f[..at]), f[at..at + 4], g[at..at + 4]);
      SameParts(f, g, at);
      assert false;
    }
    DifferencePersists(f, g, at + 4, |f|);
    assert f[..|f|] == f && g[..|g|] == g;
    if Checksum(f) == Checksum(g) {
      RawNot(Register(f), Register(g));
    }
  }

  // ----- a known answer

  lemma Feed(crc: bv32, next: bv32)
    requires crc & 1 == 1 && next == (crc >> 1) ^ 0xEDB8_8320
    ensures ShiftBit(crc) == next
  {
    ShiftFed(crc);
    hide ShiftBit;
  }

  lemma {:induction false} ShiftsFollow(chain: seq<bv32>, n: nat)
    requires n < |chain| && forall i | 0 <= i < n :: ShiftBit(chain[i]) == chain[i + 1]
    ensures ShiftBits(chain[0], n) == chain[n]
  {
    hide ShiftBit;
    if n > 0 {
      ShiftsFollow(chain, n - 1);
    }
  }

  /** The checksum of one zero byte. */
  lemma ZeroByte()
    ensures Checksum([0]) == 0xD202_EF8D
  {
    Feed(0xFFFF_FFFF, 0x9247_7CDF);
    Feed(0x9247_7CDF, 0xA49B_3D4F);
    Feed(0xA49B_3D4F, 0xBFF5_1D87);
    Feed(0xBFF5_1D87, 0xB242_0DE3);
    Feed(0xB242_0DE3, 0xB499_85D1);
    Feed(0xB499_85D1, 0xB7F4_41C8);
    ShiftUnfed(0xB7F4_41C8);
    ShiftUnfed(0x5BFA_20E4);
    hide ShiftBit;
    ShiftsFollow([0xFFFF_FFFF, 0x9247_7CDF, 0xA49B_3D4F, 0xBFF5_1D87, 0xB242_0DE3, 0xB499_85D1, 0xB7F4_41C8,
                  0x5BFA_20E4, 0x2DFD_1072], 8);
    hide ShiftBits;
    assert [0 as Byte][..0] == [] && Mix(0xFFFF_FFFF, 0) == 0xFFFF_FFFF;
  }
}
