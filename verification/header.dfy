/**
  Locating the pixel array of the host image and the capacity gate that
  guards every run.
 */
module Header {
  import opened StegTypes

  /** Position of the 4-byte pixel-array offset field (`bfOffBits` of the
      Windows bitmap file header), and the first position after it. */
  const OffsetField: nat := 10
  const HeaderMinimum: nat := 14

  /** Reference reading of a byte string as a little-endian unsigned number. */
  function LittleEndianValue(s: seq<Byte>): nat
  {
    if |s| == 0 then 0 else s[0] as int + 0x100 * LittleEndianValue(s[1..])
  }

  /** The little-endian value of four bytes, written out digit by digit. */
  lemma {:induction false} LittleEndianValueOfFour(b: seq<Byte>)
    requires |b| == 4
    ensures LittleEndianValue(b) == b[0] as int + 0x100 * b[1] as int + 0x1_0000 * b[2] as int + 0x100_0000 * b[3] as int
  {
    assert b[1..][1..][1..][1..] == [];
    assert LittleEndianValue(b[3..]) == b[3] as int;
    assert b[1..][1..] == b[2..];
    assert b[2..][1..] == b[3..];
    assert LittleEndianValue(b[2..]) == b[2] as int + 0x100 * b[3] as int;
    assert LittleEndianValue(b[1..]) == b[1] as int + 0x100 * b[2] as int + 0x1_0000 * b[3] as int;
  }

  /** The pixel-array offset: bytes 10 to 13 read as an unsigned 32-bit
      little-endian integer. A host too short to hold the field fails. */
  function ReadPixelArrayOffset(host: seq<Byte>): (r: Result<nat>)
    ensures r.Success? <==> |host| >= HeaderMinimum
    ensures r.Success? ==> r.value < 0x1_0000_0000
    ensures r.Success? ==> r.value == host[10] as int + 0x100 * host[11] as int
                                      + 0x1_0000 * host[12] as int + 0x100_0000 * host[13] as int
  {
    if |host| < HeaderMinimum then Failure(HeaderTooShort)
    else
      var field := host[OffsetField..HeaderMinimum];
      LittleEndianValueOfFour(field);
      Success(LittleEndianValue(field))
  }

  /** Two images that agree on their first 14 bytes read the same
      pixel-array offset. */
  lemma SameHeaderSameOffset(a: seq<Byte>, b: seq<Byte>)
    requires |a| >= HeaderMinimum && |b| >= HeaderMinimum
    requires a[..HeaderMinimum] == b[..HeaderMinimum]
    ensures ReadPixelArrayOffset(a) == ReadPixelArrayOffset(b)
  {
    assert a[10] == a[..HeaderMinimum][10] && a[11] == a[..HeaderMinimum][11];
    assert a[12] == a[..HeaderMinimum][12] && a[13] == a[..HeaderMinimum][13];
    assert b[10] == b[..HeaderMinimum][10] && b[11] == b[..HeaderMinimum][11];
    assert b[12] == b[..HeaderMinimum][12] && b[13] == b[..HeaderMinimum][13];
  }

  /** The capacity gate: the pixel bytes after the offset must number at
      least one group of host bytes per secret byte. */
  function CheckSizeRequirements(picLength: int, secretLength: nat, picOffset: int, w: BitLength): (r: Outcome)
    ensures r.Pass? <==> secretLength * 8 <= (picLength - picOffset) * w
    ensures r.Pass? ==> picOffset <= picLength
    ensures r.Fail? ==> r.error == PictureTooSmall
  {
    var g := GroupSize(w);
    if picLength - picOffset < secretLength * g then Fail(PictureTooSmall) else Pass
  }

  /** Reads the pixel-array offset and runs the capacity gate on it, for a
      secret of `secretLength` bytes. */
  function GetPixelArrayOffset(host: seq<Byte>, secretLength: nat, w: BitLength): (r: Result<nat>)
    ensures r.Success? <==> (|host| >= HeaderMinimum
                             && CheckSizeRequirements(|host|, secretLength, ReadPixelArrayOffset(host).value, w).Pass?)
    ensures r.Success? ==> r.value == ReadPixelArrayOffset(host).value
    ensures r.Success? ==> r.value + secretLength * GroupSize(w) <= |host|
    ensures r.Failure? && |host| < HeaderMinimum ==> r.error == HeaderTooShort
    ensures r.Failure? && |host| >= HeaderMinimum ==> r.error == PictureTooSmall
  {
    var offset :- ReadPixelArrayOffset(host);
    var check := CheckSizeRequirements(|host|, secretLength, offset, w);
    if check.Fail? then Failure(check.error) else Success(offset)
  }
}
