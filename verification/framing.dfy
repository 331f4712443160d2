/** The 4-byte big-endian length prefix that frames the secret. */
module Framing {
  import opened StegTypes

  /** Largest secret length the prefix can hold, plus one. */
  const LengthLimit: nat := 0x1_0000_0000

  /** Reference reading of a byte string as a big-endian unsigned number. */
  function BigEndianValue(s: seq<Byte>): nat
  {
    if |s| == 0 then 0 else BigEndianValue(s[..|s| - 1]) * 256 + s[|s| - 1] as int
  }

  /** The big-endian value of four bytes, written out digit by digit. */
  lemma {:induction false} BigEndianValueOfFour(b: seq<Byte>)
    requires |b| == 4
    ensures BigEndianValue(b) == b[0] as int * 0x100_0000 + b[1] as int * 0x1_0000 + b[2] as int * 0x100 + b[3] as int
  {
    assert b[..1][..0] == [];
    assert BigEndianValue(b[..1]) == b[0] as int;
    assert b[..2][..1] == b[..1];
    assert BigEndianValue(b[..2]) == b[0] as int * 0x100 + b[1] as int;
    assert b[..3][..2] == b[..2];
    assert BigEndianValue(b[..3]) == b[0] as int * 0x1_0000 + b[1] as int * 0x100 + b[2] as int;
  }

  /** A number below 256 survives the trip through a byte. */
  lemma ByteOfSmall(x: int)
    requires 0 <= x < 0x100
    ensures (x as Byte) as int == x
  {
    HalvingByteValue(x);
    IntOfByte(HalvingByte(x));
  }

  /** The byte with the binary digits of `x`, built by halving. */
  function HalvingByte(x: int): Byte
    requires 0 <= x < 0x100
    decreases x
  {
    if x == 0 then 0 else (HalvingByte(x / 2) << 1) | (if x % 2 == 1 then 1 else 0)
  }

  /** The byte built by halving has the value it was built from. */
  lemma {:induction false} HalvingByteValue(x: int)
    requires 0 <= x < 0x100
    ensures HalvingByte(x) as int == x
    decreases x
  {
    if x > 0 {
      var h, c: Byte := HalvingByte(x / 2), if x % 2 == 1 then 1 else 0;
      HalvingByteValue(x / 2);
      ShiftInBit(h, c);
      assert HalvingByte(x) == (h << 1) | c;
    }
  }

  /** Shifting a byte below 128 up by one and putting a bit in the free
      place doubles it and adds the bit. */
  lemma ShiftInBit(b: Byte, c: Byte)
    requires b as int < 0x80 && c as int <= 1
    ensures ((b << 1) | c) as int == 2 * (b as int) + c as int
  {
  }

  /** The prefix written before the secret: the length packed as an
      unsigned 32-bit big-endian integer. */
  function PackLength(n: nat): (r: seq<Byte>)
    requires n < LengthLimit
    ensures |r| == 4
    ensures BigEndianValue(r) == n
  {
    var d0, d1, d2, d3 := n / 0x100 / 0x100 / 0x100, n / 0x100 / 0x100 % 0x100, n / 0x100 % 0x100, n % 0x100;
    SplitDigits(n);
    var r := [d0 as Byte, d1 as Byte, d2 as Byte, d3 as Byte];
    ByteOfSmall(d0);
    ByteOfSmall(d1);
    ByteOfSmall(d2);
    ByteOfSmall(d3);
    BigEndianValueOfFour(r);
    r
  }

  /** Quotient and remainder by 256 are determined by any split of `n` into
      a multiple of 256 and a remainder below 256. */
  lemma DivMod256(n: int, q: int, r: int)
    requires 0 <= r < 0x100 && n == q * 0x100 + r
    ensures n / 0x100 == q && n % 0x100 == r
  {
  }

  /** The base-256 digits of a 32-bit number, most significant first. */
  lemma SplitDigits(n: nat)
    requires n < LengthLimit
    ensures 0 <= n / 0x100 / 0x100 / 0x100 < 0x100
    ensures n == n / 0x100 / 0x100 / 0x100 * 0x100_0000 + n / 0x100 / 0x100 % 0x100 * 0x1_0000
                 + n / 0x100 % 0x100 * 0x100 + n % 0x100
  {
    var m1 := n / 0x100;
    var m2 := m1 / 0x100;
    assert n == m1 * 0x100 + n % 0x100;
    assert m1 == m2 * 0x100 + m1 % 0x100;
    assert m2 == m2 / 0x100 * 0x100 + m2 % 0x100;
  }

  /** The length read back from the first four decoded bytes. */
  function UnpackLength(b: seq<Byte>): (n: nat)
    requires |b| == 4
    ensures n < LengthLimit
    ensures n == BigEndianValue(b)
  {
    BigEndianValueOfFour(b);
    b[0] as int * 0x100_0000 + b[1] as int * 0x1_0000 + b[2] as int * 0x100 + b[3] as int
  }

  /** Unpacking a packed length gives the length back. */
  lemma UnpackPack(n: nat)
    requires n < LengthLimit
    ensures UnpackLength(PackLength(n)) == n
  {
  }

  /** Packing an unpacked prefix gives the same four bytes back, so the
      prefix is a bijection between 4-byte strings and lengths. */
  lemma PackUnpack(b: seq<Byte>)
    requires |b| == 4
    ensures PackLength(UnpackLength(b)) == b
  {
    var b0, b1, b2, b3 := b[0] as int, b[1] as int, b[2] as int, b[3] as int;
    var n := UnpackLength(b);
    assert n == b0 * 0x100_0000 + b1 * 0x1_0000 + b2 * 0x100 + b3;
    DigitsOfSum(b0, b1, b2, b3);
    ByteOfDigit(n / 0x100 / 0x100 / 0x100, b[0]);
    ByteOfDigit(n / 0x100 / 0x100 % 0x100, b[1]);
    ByteOfDigit(n / 0x100 % 0x100, b[2]);
    ByteOfDigit(n % 0x100, b[3]);
  }

  /** A digit equal to the value of a byte converts back to that byte. */
  lemma ByteOfDigit(d: int, x: Byte)
    requires d == x as int
    ensures d as Byte == x
  {
    IntOfByte(x);
  }

  /** A byte survives the trip through a number. */
  lemma IntOfByte(x: Byte)
    ensures (x as int) as Byte == x
  {
  }

  /** Base-256 digits can be read back from the number they form. */
  lemma DigitsOfSum(b0: int, b1: int, b2: int, b3: int)
    requires 0 <= b0 < 0x100 && 0 <= b1 < 0x100 && 0 <= b2 < 0x100 && 0 <= b3 < 0x100
    ensures var n := b0 * 0x100_0000 + b1 * 0x1_0000 + b2 * 0x100 + b3;
      && n / 0x100 / 0x100 / 0x100 == b0 && n / 0x100 / 0x100 % 0x100 == b1
      && n / 0x100 % 0x100 == b2 && n % 0x100 == b3
  {
    var n := b0 * 0x100_0000 + b1 * 0x1_0000 + b2 * 0x100 + b3;
    var m1, m2 := b0 * 0x1_0000 + b1 * 0x100 + b2, b0 * 0x100 + b1;
    DivMod256(n, m1, b3);
    DivMod256(m1, m2, b2);
    DivMod256(m2, b0, b1);
  }
}
