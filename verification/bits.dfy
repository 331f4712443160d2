/** Single-bit access to a byte; bit 0 is the least significant bit. */
module Bits {
  import opened StegTypes

  /** Index of a bit inside one byte. */
  type BitIndex = i: int | 0 <= i < 8

  /** The byte with only bit `i` set, that is `1 << i`. */
  function Mask(i: BitIndex): Byte
  {
    if i == 0 then 1 else if i == 1 then 2 else if i == 2 then 4 else if i == 3 then 8
    else if i == 4 then 16 else if i == 5 then 32 else if i == 6 then 64 else 128
  }

  /** The table of masks agrees with shifting a single bit into place. */
  lemma MaskIsShift(i: BitIndex)
    ensures Mask(i) == 1 << i
  {
    if i == 0 {} else if i == 1 {} else if i == 2 {} else if i == 3 {}
    else if i == 4 {} else if i == 5 {} else if i == 6 {} else {}
  }

  /** Value of bit `i` of `b`: bit 0 is the lowest bit, and bit `i + 1` of
      `b` is bit `i` of `b` shifted down by one. Indices past the top of the
      byte read as unset. */
  predicate ReadBit(b: Byte, i: nat)
    decreases i
  {
    if i == 0 then b & 1 != 0
    else if i < 8 then ReadBit(b >> 1, i - 1)
    else false
  }

  /** Shifting down by one moves the bit under each mask one place down. */
  lemma ShiftedMask(b: Byte, i: BitIndex)
    requires 0 < i
    ensures ((b >> 1) & Mask(i - 1) != 0) == (b & Mask(i) != 0)
  {
    if i == 1 {} else if i == 2 {} else if i == 3 {} else if i == 4 {}
    else if i == 5 {} else if i == 6 {} else {}
  }

  /** Reading bit `i` is masking with `1 << i`; indices from 8 on read as
      unset. */
  lemma {:induction false} ReadBitIsMask(b: Byte, i: nat)
    ensures ReadBit(b, i) == (i < 8 && b & Mask(i) != 0)
    decreases i
  {
    if 0 < i < 8 {
      ReadBitIsMask(b >> 1, i - 1);
      ShiftedMask(b, i);
    }
  }

  /** `b` with bit `i` set to `v`: bit 0 is set directly, and a higher bit
      is set in `b` shifted down by one, which is then shifted back up over
      the untouched bit 0. */
  function WriteBit(b: Byte, i: BitIndex, v: bool): Byte
    decreases i
  {
    if i == 0 then (if v then b | 1 else b & 0xFE)
    else (WriteBit(b >> 1, i - 1, v) << 1) | (b & 1)
  }

  /** Writing bit `i` sets that bit to `v` and leaves every other bit
      as it was. */
  lemma {:induction false} WriteBitBit(b: Byte, i: BitIndex, v: bool, j: nat)
    ensures ReadBit(WriteBit(b, i, v), j) == if j == i then v else ReadBit(b, j)
    decreases i
  {
    if i == 0 {
      WriteLowBit(b, v, j);
    } else if j == 0 {
      WriteBitKeepsLowBit(b, i, v);
    } else if j < 8 {
      WriteBitBit(b >> 1, i - 1, v, 7);
      TopBitOfShifted(b);
      WriteBitBit(b >> 1, i - 1, v, j - 1);
      WriteBitShiftsDown(b, i, v, j);
    }
  }

  /** Bit 0 is written directly and no other bit moves. */
  lemma WriteLowBit(b: Byte, v: bool, j: nat)
    ensures ReadBit(WriteBit(b, 0, v), j) == if j == 0 then v else ReadBit(b, j)
  {
    var r := WriteBit(b, 0, v);
    if 0 < j < 8 {
      assert r >> 1 == b >> 1;
    }
  }

  /** Writing a bit above bit 0 keeps bit 0. */
  lemma WriteBitKeepsLowBit(b: Byte, i: BitIndex, v: bool)
    requires 0 < i
    ensures ReadBit(WriteBit(b, i, v), 0) == ReadBit(b, 0)
  {
    var r' := WriteBit(b >> 1, i - 1, v);
    assert WriteBit(b, i, v) == (r' << 1) | (b & 1);
  }

  /** Above bit 0, the written byte reads like the byte written one place
      lower in `b` shifted down, provided that write left bit 7 unset. */
  lemma WriteBitShiftsDown(b: Byte, i: BitIndex, v: bool, j: nat)
    requires 0 < i && 0 < j < 8
    requires !ReadBit(WriteBit(b >> 1, i - 1, v), 7)
    ensures ReadBit(WriteBit(b, i, v), j) == ReadBit(WriteBit(b >> 1, i - 1, v), j - 1)
  {
    var r' := WriteBit(b >> 1, i - 1, v);
    var r := WriteBit(b, i, v);
    assert r == (r' << 1) | (b & 1);
    TopBitClear(r', b & 1);
    assert r >> 1 == r';
  }

  /** A byte shifted down by one has no top bit. */
  lemma TopBitOfShifted(b: Byte)
    ensures !ReadBit(b >> 1, 7)
  {
  }

  /** A byte whose bit 7 is unset shifts up over a new bit 0 and back down
      unchanged. */
  lemma TopBitClear(x: Byte, y: Byte)
    requires !ReadBit(x, 7)
    requires y <= 1
    ensures ((x << 1) | y) >> 1 == x
  {
  }

  /** Two bytes that agree on every bit are the same byte. */
  lemma BitsDetermineByte(a: Byte, b: Byte)
    requires forall j: nat :: j < 8 ==> ReadBit(a, j) == ReadBit(b, j)
    ensures a == b
  {
    assert ReadBit(a, 0) == ReadBit(b, 0);
    assert ReadBit(a, 1) == ReadBit(b, 1);
    assert ReadBit(a, 2) == ReadBit(b, 2);
    assert ReadBit(a, 3) == ReadBit(b, 3);
    assert ReadBit(a, 4) == ReadBit(b, 4);
    assert ReadBit(a, 5) == ReadBit(b, 5);
    assert ReadBit(a, 6) == ReadBit(b, 6);
    assert ReadBit(a, 7) == ReadBit(b, 7);
  }

  /** Clearing bit `i` and then maybe setting it leaves bit `i` equal to `v`. */
  lemma MaskingSetsBit(b: Byte, i: BitIndex, v: bool)
    ensures var r := if v then (b & !Mask(i)) | Mask(i) else b & !Mask(i);
      (r & Mask(i) != 0) == v
  {
    if i == 0 {} else if i == 1 {} else if i == 2 {} else if i == 3 {}
    else if i == 4 {} else if i == 5 {} else if i == 6 {} else {}
  }

  /** Clearing bit `i` and then maybe setting it leaves bit `j != i` alone. */
  lemma MaskingKeepsOtherBit(b: Byte, i: BitIndex, v: bool, j: BitIndex)
    requires i != j
    ensures var r := if v then (b & !Mask(i)) | Mask(i) else b & !Mask(i);
      (r & Mask(j) != 0) == (b & Mask(j) != 0)
  {
    if j == 0 {} else if j == 1 {} else if j == 2 {} else if j == 3 {}
    else if j == 4 {} else if j == 5 {} else if j == 6 {} else {}
  }

  /** Writing a bit is clearing it with the inverted mask `1 << i` and then
      setting it with the mask when the value is true. */
  lemma WriteBitIsMask(b: Byte, i: BitIndex, v: bool)
    ensures WriteBit(b, i, v) == if v then (b & !Mask(i)) | Mask(i) else b & !Mask(i)
  {
    var r := WriteBit(b, i, v);
    var m := if v then (b & !Mask(i)) | Mask(i) else b & !Mask(i);
    forall j: nat | j < 8
      ensures ReadBit(r, j) == ReadBit(m, j)
    {
      WriteBitBit(b, i, v, j);
      ReadBitIsMask(m, j);
      ReadBitIsMask(b, j);
      if j == i {
        MaskingSetsBit(b, i, v);
      } else {
        MaskingKeepsOtherBit(b, i, v, j);
      }
    }
    BitsDetermineByte(r, m);
  }

  /** Writing back the value a bit already has leaves the byte as it was. */
  lemma WriteReadBit(b: Byte, i: BitIndex)
    ensures WriteBit(b, i, ReadBit(b, i)) == b
  {
    forall j: nat | j < 8
      ensures ReadBit(WriteBit(b, i, ReadBit(b, i)), j) == ReadBit(b, j)
    {
      WriteBitBit(b, i, ReadBit(b, i), j);
    }
    BitsDetermineByte(WriteBit(b, i, ReadBit(b, i)), b);
  }

  /** The byte with no bit set. */
  lemma {:induction false} ZeroHasNoBits(j: nat)
    ensures !ReadBit(0, j)
    decreases j
  {
    if 0 < j < 8 {
      ZeroHasNoBits(j - 1);
    }
  }
}
