/**
 * The simulator's CRC-16, computed on integers that have room above the sixteen bits: the loop never uses it,
 * and agrees with the firmware's 16-bit register.
 */
module PythonCrc {
  import opened MachineWords
  import Crc16

  /** An integer as wide as the computation could need if it did overflow. */
  type Integer = bv32

  function Widen(word: bv16): Integer { word as Integer }

  function Bit(crc: Integer): Integer { if crc & 1 != 0 then (crc >> 1) ^ 0xA001 else crc >> 1 }

  function Bits(crc: Integer, n: nat): Integer { if n == 0 then crc else Bit(Bits(crc, n - 1)) }

  function Mix(crc: Integer, value: Byte): Integer { crc ^ (value as Integer) }

  function Crc(data: seq<Byte>): Integer {
    if data == [] then 0xFFFF else Bits(Mix(Crc(data[..|data| - 1]), data[|data| - 1]), 8)
  }

  method Compute(data: seq<Byte>) returns (crc: Integer)
    ensures crc == Crc(data)
    ensures crc == Widen(Crc16.Checksum(data))
  {
    hide Bit, Mix, Widen, Crc16.Checksum;
    crc := 0xFFFF;
    for index := 0 to |data|
      invariant crc == Crc(data[..index])
    {
      crc := Mix(crc, data[index]);
      ghost var mixed := crc;
      for bit := 0 to 8
        invariant crc == Bits(mixed, bit)
      {
        crc := Bit(crc);
      }
      assert data[..index + 1][..index] == data[..index];
    }
    assert data[..|data|] == data;
    CrcIsChecksum(data);
  }

  /** The two low bytes, lowest first; a larger integer does not fit them. */
  function TwoBytes(crc: Integer): seq<Byte>
    requires crc <= 0xFFFF
  {
    [(crc & 0xFF) as Byte, ((crc >> 8) & 0xFF) as Byte]
  }

  function FromTwoBytes(low: Byte, high: Byte): Integer { ((high as Integer) << 8) | (low as Integer) }

  // ----- agreement with the 16-bit register

  lemma RawClearBit(word: bv16)
    requires word & 1 == 0
    ensures (word as Integer) & 1 == 0 && (word as Integer) >> 1 == (word >> 1) as Integer
  {
  }

  lemma RawSetBit(word: bv16)
    requires word & 1 == 1
    ensures (word as Integer) & 1 == 1 && ((word as Integer) >> 1) ^ 0xA001 == ((word >> 1) ^ 0xA001) as Integer
  {
  }

  lemma RawMix(word: bv16, value: Byte)
    ensures (word as Integer) ^ (value as Integer) == (word ^ (value as bv16)) as Integer
  {
  }

  lemma RawFits(word: bv16)
    ensures word as Integer <= 0xFFFF
  {
  }

  lemma RawLow(word: bv16)
    ensures ((word as Integer) & 0xFF) as Byte == (word & 0xFF) as Byte
  {
  }

  lemma RawHigh(word: bv16)
    ensures (((word as Integer) >> 8) & 0xFF) as Byte == (word >> 8) as Byte
  {
  }

  lemma RawPair(low: Byte, high: Byte)
    ensures ((high as Integer) << 8) | (low as Integer) == (((high as bv16) << 8) | (low as bv16)) as Integer
  {
  }

  lemma BitAgrees(word: bv16)
    ensures Bit(Widen(word)) == Widen(Crc16.Wire(word))
  {
    Crc16.LowBit(word);
    Crc16.BitStepIsWire(word);
    hide Crc16.Wire;
    if word & 1 == 1 {
      RawSetBit(word);
    } else {
      RawClearBit(word);
    }
  }

  lemma {:induction false} BitsAgree(word: bv16, n: nat)
    ensures Bits(Widen(word), n) == Widen(Crc16.Wires(word, n))
  {
    hide Bit, Widen, Crc16.Wire;
    if n > 0 {
      BitsAgree(word, n - 1);
      BitAgrees(Crc16.Wires(word, n - 1));
    }
  }

  lemma MixAgrees(word: bv16, value: Byte)
    ensures Mix(Widen(word), value) == Widen(Crc16.Xor(word, Crc16.Extend(value)))
  {
    RawMix(word, value);
  }

  lemma SeedAgrees()
    ensures Widen(Crc16.SEED) == 0xFFFF
  {
  }

  /** The integer loop yields the 16-bit checksum for data of any length. */
  lemma {:induction false} CrcIsChecksum(data: seq<Byte>)
    ensures Crc(data) == Widen(Crc16.Checksum(data)) && Crc(data) <= 0xFFFF
  {
    hide Bits, Mix, Widen, Crc16.Wires, Crc16.Xor, Crc16.Extend;
    WidenFits(Crc16.Checksum(data));
    if data == [] {
      SeedAgrees();
    } else {
      var before, last := data[..|data| - 1], data[|data| - 1];
      CrcIsChecksum(before);
      MixAgrees(Crc16.Checksum(before), last);
      BitsAgree(Crc16.Xor(Crc16.Checksum(before), Crc16.Extend(last)), 8);
    }
  }

  lemma WidenFits(word: bv16)
    ensures Widen(word) <= 0xFFFF
  {
    RawFits(word);
  }

  lemma BytesAgree(word: bv16)
    ensures Widen(word) <= 0xFFFF && TwoBytes(Widen(word)) == [Crc16.LowByte(word), Crc16.HighByte(word)]
  {
    RawFits(word);
    RawLow(word);
    RawHigh(word);
  }

  lemma PairWidens(low: Byte, high: Byte)
    ensures FromTwoBytes(low, high) == Widen(Crc16.Word(low, high))
  {
    RawPair(low, high);
  }

  lemma RawWidenInjective(a: bv16, b: bv16)
    requires a as Integer == b as Integer
    ensures a == b
  {
  }

  lemma WidenInjective(a: bv16, b: bv16)
    ensures Widen(a) == Widen(b) ==> a == b
  {
    if Widen(a) == Widen(b) {
      RawWidenInjective(a, b);
    }
  }

  lemma PairAgrees(word: bv16, low: Byte, high: Byte)
    ensures Widen(word) == FromTwoBytes(low, high) <==> word == Crc16.Word(low, high)
  {
    hide Widen, FromTwoBytes, Crc16.Word;
    PairWidens(low, high);
    WidenInjective(word, Crc16.Word(low, high));
  }
}
