/** Fixed-width integers as the firmware's C types use them. */
module MachineWords {

  type Byte = bv8

  const TWO_16: int := 0x1_0000
  const TWO_32: int := 0x1_0000_0000
  const TWO_64: int := 0x1_0000_0000_0000_0000

  type UInt32 = x: int | 0 <= x < 0x1_0000_0000

  function ToUInt32(x: int): UInt32 { x % TWO_32 }

  // ----- bytes and the numbers they stand for

  /** The byte reached by counting up to `x` from zero. */
  function Unary(x: nat): Byte { if x == 0 then 0 else Unary(x - 1) + 1 }

  /** The low byte of a number, as C's conversion gives it. */
  function ByteOf(x: nat): Byte { Unary(x % 0x100) }

  /** A number without its low `places` bytes. */
  function Upper(x: nat, places: nat): nat {
    if places == 0 then x else Upper(x / 0x100, places - 1)
  }

  /** The low `size` bytes of a number, lowest first. */
  function LittleEndian(x: nat, size: nat): seq<Byte> {
    seq(size, i requires 0 <= i < size => ByteOf(Upper(x, i)))
  }

  lemma ByteSuccessor(b: Byte)
    ensures if b == 0xFF then b as int == 0xFF else (b + 1) as int == b as int + 1
  {
  }

  lemma {:induction false} UnaryValue(x: nat)
    requires x < 0x100
    ensures Unary(x) as int == x
  {
    if x > 0 {
      UnaryValue(x - 1);
      ByteSuccessor(Unary(x - 1));
    }
  }

  lemma NumberRoundTrip(b: Byte)
    ensures b as int < 0x100 && (b as int) as Byte == b
  {
  }

  lemma SameByteValue(a: Byte, b: Byte)
    requires a as int == b as int
    ensures a == b
  {
    NumberRoundTrip(a);
    NumberRoundTrip(b);
  }

  lemma ByteOfValue(x: nat)
    ensures ByteOf(x) as int == x % 0x100
  {
    UnaryValue(x % 0x100);
  }
}
