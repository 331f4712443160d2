/**
  The encode and decode runs of the tool: framing the secret, choosing the
  bit width, locating the pixel array, and hiding the framed secret in (or
  recovering it from) the low bits of the pixel bytes.
 */
module Steg {
  import opened StegTypes
  import opened Framing
  import opened Header
  import opened Codec

  // ------------------------------------------------------------ bit width

  /** A framed secret of `framedSize` bytes fits `picSize` host bytes at
      width `w`: one group of host bytes per framed byte. */
  predicate FitsWidth(picSize: nat, framedSize: nat, w: BitLength) {
    framedSize * GroupSize(w) <= picSize
  }

  /** The automatic bit width exactly as steg.py computes it: the
      picture / secret ratio, rounded down, divides 8, rounded down again,
      and a zero width becomes 1. A host smaller than the framed secret
      gives a zero ratio, and the division by it fails. */
  function AutoBitLengthAsWritten(picSize: nat, framedSize: nat): (r: Result<BitLength>)
    requires 0 < framedSize
    ensures r.Failure? <==> picSize < framedSize
    ensures r.Failure? ==> r.error == ZeroRatio
  {
    var ratio := picSize / framedSize;
    if ratio == 0 then Failure(ZeroRatio)
    else
      var b := 8 / ratio;
      EightOverRatio(ratio);
      Success(if b == 0 then 1 else b)
  }

  /** `8 / ratio`, rounded down, is 8, 4, 2, 1 or 0. */
  lemma EightOverRatio(ratio: nat)
    requires 0 < ratio
    ensures var b := 8 / ratio; b == 0 || b == 1 || b == 2 || b == 4 || b == 8
    ensures ratio <= 8 <==> 8 / ratio != 0
  {
    if ratio > 8 {
      assert 8 / ratio == 0;
    }
  }

  /** The width steg.py picks is the widest allowed one that, times the
      ratio, stays within 8; with a ratio above 8 it is 1. */
  lemma AutoBitLengthAsWrittenIsWidestBelow(picSize: nat, framedSize: nat)
    requires 0 < framedSize <= picSize
    ensures var w, ratio := AutoBitLengthAsWritten(picSize, framedSize).value, picSize / framedSize;
      && (ratio <= 8 ==> w * ratio <= 8 && forall v: BitLength :: v * ratio <= 8 ==> v <= w)
      && (ratio > 8 ==> w == 1)
  {
    var ratio := picSize / framedSize;
    if ratio > 8 {
      EightOverRatio(ratio);
    } else if ratio == 1 {
    } else if ratio == 2 {
    } else if ratio == 3 {
    } else if ratio == 4 {
    } else if ratio == 5 {
    } else if ratio == 6 {
    } else if ratio == 7 {
    } else {
      assert ratio == 8;
    }
  }

  /** A group count fits the host when it is at most the ratio. */
  lemma FitsIffGroupWithinRatio(picSize: nat, framedSize: nat, w: BitLength)
    requires 0 < framedSize
    ensures FitsWidth(picSize, framedSize, w) <==> GroupSize(w) <= picSize / framedSize
  {
    var g, q := GroupSize(w), picSize / framedSize;
    assert picSize == q * framedSize + picSize % framedSize;
    if g <= q {
      MulMonotonic(g, q, framedSize);
    } else {
      MulMonotonic(q + 1, g, framedSize);
    }
  }

  /** Multiplication by a natural number keeps order. */
  lemma MulMonotonic(a: nat, b: nat, c: nat)
    requires a <= b
    ensures a * c <= b * c
  {
  }

  /** The width steg.py picks fits the host only when the ratio is 1, 2
      or 4, or at least 8: for every other ratio the secret is given fewer
      host bits than it needs. */
  lemma AutoBitLengthAsWrittenFits(picSize: nat, framedSize: nat)
    requires 0 < framedSize <= picSize
    ensures var ratio := picSize / framedSize;
      FitsWidth(picSize, framedSize, AutoBitLengthAsWritten(picSize, framedSize).value)
      <==> (ratio == 1 || ratio == 2 || ratio == 4 || 8 <= ratio)
  {
    var w := AutoBitLengthAsWritten(picSize, framedSize).value;
    AutoBitLengthAsWrittenIsWidestBelow(picSize, framedSize);
    FitsIffGroupWithinRatio(picSize, framedSize, w);
  }

  /** A 600-byte host file whose pixel array holds 546 bytes, and a
      100-byte framed secret: the ratio is 6, steg.py picks width 1, and the
      secret then needs 800 pixel bytes; width 2 needs 400 and fits. */
  lemma AutoBitLengthTooNarrow()
    ensures AutoBitLengthAsWritten(600, 100) == Success(1)
    ensures !FitsWidth(546, 100, 1)
    ensures AutoBitLength(546, 100) == 2 && FitsWidth(546, 100, 2)
  {
    assert 600 / 100 == 6;
    assert 8 / 6 == 1;
  }

  /** The automatic bit width with the rounding of steg.py:69-72
      corrected: the narrowest allowed
      width at which the framed secret fits the `pixelLength` bytes of the
      pixel array, or 8 when none does (the capacity gate then rejects the
      run). */
  function AutoBitLength(pixelLength: nat, framedSize: nat): (w: BitLength)
    ensures FitsWidth(pixelLength, framedSize, 8) ==>
              FitsWidth(pixelLength, framedSize, w)
              && forall v: BitLength :: FitsWidth(pixelLength, framedSize, v) ==> w <= v
    ensures !FitsWidth(pixelLength, framedSize, 8) ==> w == 8
  {
    if FitsWidth(pixelLength, framedSize, 1) then 1
    else if FitsWidth(pixelLength, framedSize, 2) then 2
    else if FitsWidth(pixelLength, framedSize, 4) then 4
    else 8
  }

  /** Whenever the width steg.py picks passes the capacity gate, it is the
      corrected width: no narrower width fits even the whole file. */
  lemma AutoBitLengthAgrees(picSize: nat, pixelLength: nat, framedSize: nat)
    requires 0 < framedSize <= picSize && pixelLength <= picSize
    requires FitsWidth(pixelLength, framedSize, AutoBitLengthAsWritten(picSize, framedSize).value)
    ensures AutoBitLength(pixelLength, framedSize) == AutoBitLengthAsWritten(picSize, framedSize).value
  {
    var w0 := AutoBitLengthAsWritten(picSize, framedSize).value;
    var ratio := picSize / framedSize;
    AutoBitLengthAsWrittenIsWidestBelow(picSize, framedSize);
    forall v: BitLength | v < w0
      ensures !FitsWidth(pixelLength, framedSize, v)
    {
      FitsIffGroupWithinRatio(picSize, framedSize, v);
      if w0 == 2 {
        assert 2 * ratio <= 8;
      } else if w0 == 4 {
        assert 4 * ratio <= 8;
      } else if w0 == 8 {
        assert 8 * ratio <= 8;
      }
      assert ratio < GroupSize(v);
    }
  }

  /** Number of bytes in the pixel array: the host bytes from the offset
      on; none when the header is too short or the offset lies past the end
      of the host. */
  function PixelArrayLength(host: seq<Byte>): nat
  {
    if |host| < HeaderMinimum || |host| < ReadPixelArrayOffset(host).value then 0
    else |host| - ReadPixelArrayOffset(host).value
  }

  /** The capacity gate passes exactly when the framed secret fits the pixel
      array. */
  lemma GateIsFit(host: seq<Byte>, framedSize: nat, w: BitLength)
    requires |host| >= HeaderMinimum && 0 < framedSize
    ensures CheckSizeRequirements(|host|, framedSize, ReadPixelArrayOffset(host).value, w).Pass?
            <==> FitsWidth(PixelArrayLength(host), framedSize, w)
  {
  }

  /** The width an encode run uses: the one given on the command line, or
      the corrected automatic one. */
  function ChosenWidth(host: seq<Byte>, framedSize: nat, width: Option<BitLength>): (w: BitLength)
    ensures width.Some? ==> w == width.value
    ensures width.None? && FitsWidth(PixelArrayLength(host), framedSize, 8) ==>
              FitsWidth(PixelArrayLength(host), framedSize, w)
  {
    match width
    case Some(w) => w
    case None => AutoBitLength(PixelArrayLength(host), framedSize)
  }

  // --------------------------------------------------------------- encode

  /** The secret with its length prefix in front. */
  function Framed(secret: seq<Byte>): (f: seq<Byte>)
    requires |secret| < LengthLimit
    ensures |f| == |secret| + 4
    ensures BigEndianValue(f[..4]) == |secret| && f[4..] == secret
  {
    var prefix := PackLength(|secret|);
    assert (prefix + secret)[..4] == prefix;
    prefix + secret
  }

  /** An encode run. The secret length must fit the 4-byte prefix; the
      header and the capacity gate must accept the host; then the header
      is copied, the framed secret is spread over the pixel bytes, and the
      rest of the host is copied. Once the gate passes, the embedding
      cannot run out of host bytes. */
  function Encode(host: seq<Byte>, secret: seq<Byte>, width: Option<BitLength>): (r: Result<seq<Byte>>)
    ensures |secret| >= LengthLimit ==> r == Failure(SecretTooLarge)
    ensures |secret| < LengthLimit ==>
              && (r.Success? <==> GetPixelArrayOffset(host, |secret| + 4, ChosenWidth(host, |secret| + 4, width)).Success?)
              && (|host| < HeaderMinimum ==> r == Failure(HeaderTooShort))
              && (|host| >= HeaderMinimum && r.Failure? ==> r.error == PictureTooSmall)
    ensures r.Failure? ==> r.error != RanOutOfImage
    ensures r.Success? ==> |r.value| == |host|
  {
    if |secret| >= LengthLimit then Failure(SecretTooLarge)
    else
      var framed := Framed(secret);
      PatchImage(host, framed, ChosenWidth(host, |framed|, width))
  }

  /** `patchImage` with the loop exit corrected, at width `w`: the offset is
      read and the capacity gate run, and once the gate passes the embedding
      cannot run out of host bytes. */
  function PatchImage(host: seq<Byte>, framed: seq<Byte>, w: BitLength): (r: Result<seq<Byte>>)
    ensures r.Success? <==> GetPixelArrayOffset(host, |framed|, w).Success?
    ensures r.Failure? ==> r == Failure(GetPixelArrayOffset(host, |framed|, w).error)
    ensures r.Success? ==> |r.value| == |host|
  {
    var offset :- GetPixelArrayOffset(host, |framed|, w);
    StrideIsProduct(|framed|, GroupSize(w));
    var pixels := EmbedStream(host[offset..], framed, w).value;
    Success(host[..offset] + pixels)
  }

  /** An encode run as steg.py writes it: the automatic width rounded
      down from the whole file size, and the embedding loop that also fails
      when the host bytes left after the last group do not make a full
      group. Whenever it succeeds, it agrees with the corrected run. */
  function EncodeAsWritten(host: seq<Byte>, secret: seq<Byte>, width: Option<BitLength>): (r: Result<seq<Byte>>)
    ensures |secret| >= LengthLimit ==> r == Failure(SecretTooLarge)
    ensures |secret| < LengthLimit && width.None? && |host| < |secret| + 4 ==> r == Failure(ZeroRatio)
    ensures |secret| < LengthLimit && (width.Some? || |secret| + 4 <= |host|) ==>
              var f := |secret| + 4;
              var w := if width.Some? then width.value else AutoBitLengthAsWritten(|host|, f).value;
              (r.Success? <==> GetPixelArrayOffset(host, f, w).Success?
                               && ReadPixelArrayOffset(host).value + f * GroupSize(w) + GroupSize(w) <= |host|)
              && (|host| < HeaderMinimum ==> r == Failure(HeaderTooShort))
              && (|host| >= HeaderMinimum && GetPixelArrayOffset(host, f, w).Failure? ==> r == Failure(PictureTooSmall))
              && (GetPixelArrayOffset(host, f, w).Success? && r.Failure? ==> r.error == RanOutOfImage)
    ensures r.Success? ==> r == Encode(host, secret, width)
  {
    if |secret| >= LengthLimit then Failure(SecretTooLarge)
    else
      var framed := Framed(secret);
      var w :- match width
               case Some(v) => Success(v)
               case None => AutoBitLengthAsWritten(|host|, |framed|);
      var r := PatchImageAsWritten(host, framed, w);
      if r.Success? then
        AsWrittenWidthIsChosen(host, |framed|, width, w);
        r
      else r
  }

  /** `patchImage` as steg.py writes it, at width `w`: the offset is read
      and the capacity gate run, and the embedding loop with the exit test
      of steg.py:113 then needs one host group more than the framed secret
      uses. */
  function PatchImageAsWritten(host: seq<Byte>, framed: seq<Byte>, w: BitLength): (r: Result<seq<Byte>>)
    ensures r.Success? <==> GetPixelArrayOffset(host, |framed|, w).Success?
                            && ReadPixelArrayOffset(host).value + |framed| * GroupSize(w) + GroupSize(w) <= |host|
    ensures GetPixelArrayOffset(host, |framed|, w).Failure? ==> r == Failure(GetPixelArrayOffset(host, |framed|, w).error)
    ensures GetPixelArrayOffset(host, |framed|, w).Success? && r.Failure? ==> r.error == RanOutOfImage
    ensures r.Success? ==>
              var offset := ReadPixelArrayOffset(host).value;
              && EmbedStream(host[offset..], framed, w).Success?
              && r.value == host[..offset] + EmbedStream(host[offset..], framed, w).value
  {
    var offset :- GetPixelArrayOffset(host, |framed|, w);
    StrideIsProduct(|framed|, GroupSize(w));
    var pixels :- EmbedStreamAsWritten(host[offset..], framed, w);
    Success(host[..offset] + pixels)
  }

  /** A width of steg.py that passes the capacity gate is the width the
      corrected run chooses. */
  lemma AsWrittenWidthIsChosen(host: seq<Byte>, framedSize: nat, width: Option<BitLength>, w: BitLength)
    requires 0 < framedSize
    requires width.Some? ==> w == width.value
    requires width.None? ==> AutoBitLengthAsWritten(|host|, framedSize) == Success(w)
    requires GetPixelArrayOffset(host, framedSize, w).Success?
    ensures w == ChosenWidth(host, framedSize, width)
  {
    if width.None? {
      GateIsFit(host, framedSize, w);
      AutoBitLengthAgrees(|host|, PixelArrayLength(host), framedSize);
    }
  }

  /** With the automatic width, an encode run succeeds exactly when it
      succeeds at width 8, and then no given width that succeeds is
      narrower than the one chosen. */
  lemma EncodeAutoWidth(host: seq<Byte>, secret: seq<Byte>)
    ensures Encode(host, secret, None).Success? <==> Encode(host, secret, Some(8)).Success?
    ensures Encode(host, secret, None).Success? ==>
              forall v: BitLength :: Encode(host, secret, Some(v)).Success? ==> ChosenWidth(host, |secret| + 4, None) <= v
  {
    if |secret| < LengthLimit && |host| >= HeaderMinimum {
      var f := |secret| + 4;
      GateIsFit(host, f, ChosenWidth(host, f, None));
      GateIsFit(host, f, 8);
      forall v: BitLength | Encode(host, secret, Some(v)).Success?
        ensures ChosenWidth(host, f, None) <= v
      {
        GateIsFit(host, f, v);
      }
    }
  }

  /** Facts about a successful encode run, named for the lemmas below. */
  lemma EncodeParts(host: seq<Byte>, secret: seq<Byte>, width: Option<BitLength>, out: seq<Byte>)
      returns (framed: seq<Byte>, w: BitLength, offset: nat, pixels: seq<Byte>)
    requires Encode(host, secret, width) == Success(out)
    ensures |secret| < LengthLimit && framed == Framed(secret)
    ensures w == ChosenWidth(host, |secret| + 4, width)
    ensures |host| >= HeaderMinimum && offset == ReadPixelArrayOffset(host).value
    ensures offset + |framed| * GroupSize(w) <= |host|
    ensures EmbedStream(host[offset..], framed, w) == Success(pixels)
    ensures out == host[..offset] + pixels
    ensures |pixels| == |host| - offset && |out| == |host|
  {
    framed := Framed(secret);
    w := ChosenWidth(host, |framed|, width);
    offset := GetPixelArrayOffset(host, |framed|, w).value;
    StrideIsProduct(|framed|, GroupSize(w));
    pixels := EmbedStream(host[offset..], framed, w).value;
  }

  /** An encode run copies the bytes before the pixel array unchanged. */
  lemma EncodeKeepsHeader(host: seq<Byte>, secret: seq<Byte>, width: Option<BitLength>, out: seq<Byte>)
    requires Encode(host, secret, width) == Success(out)
    ensures |host| >= HeaderMinimum
    ensures ReadPixelArrayOffset(host).value <= |out| == |host|
    ensures out[..ReadPixelArrayOffset(host).value] == host[..ReadPixelArrayOffset(host).value]
  {
    var framed, w, offset, pixels := EncodeParts(host, secret, width, out);
  }

  /** An encode run changes only the low `w` bits of the pixel bytes. */
  lemma EncodeKeepsHighBits(host: seq<Byte>, secret: seq<Byte>, width: Option<BitLength>, out: seq<Byte>)
    requires Encode(host, secret, width) == Success(out)
    ensures |host| >= HeaderMinimum && |out| == |host|
    ensures forall q :: ReadPixelArrayOffset(host).value <= q < |host| ==>
              SameHighBits(out[q], host[q], ChosenWidth(host, |secret| + 4, width))
  {
    var framed, w, offset, pixels := EncodeParts(host, secret, width, out);
    EmbedStreamKeepsHighBits(host[offset..], framed, w);
    forall q | offset <= q < |host|
      ensures SameHighBits(out[q], host[q], w)
    {
      assert out[q] == pixels[q - offset];
      assert host[offset..][q - offset] == host[q];
    }
  }

  /** An encode run copies every host byte after the last group it uses. */
  lemma EncodeKeepsLeftover(host: seq<Byte>, secret: seq<Byte>, width: Option<BitLength>, out: seq<Byte>)
    requires Encode(host, secret, width) == Success(out)
    ensures |host| >= HeaderMinimum && |out| == |host|
    ensures forall q: nat :: ReadPixelArrayOffset(host).value
                        + (|secret| + 4) * GroupSize(ChosenWidth(host, |secret| + 4, width)) <= q < |host|
                        ==> out[q] == host[q]
  {
    var framed, w, offset, pixels := EncodeParts(host, secret, width, out);
    var g := GroupSize(w);
    EmbedStreamKeepsLeftover(host[offset..], framed, w);
    StrideIsProduct(|framed|, g);
    var s := Stride(|framed|, g);
    forall q | offset + s <= q < |host|
      ensures out[q] == host[q]
    {
      var k := q - offset;
      assert out[q] == pixels[k];
      assert pixels[k] == pixels[s..][k - s];
      assert host[q] == host[offset..][k];
      assert host[offset..][k] == host[offset..][s..][k - s];
    }
  }

  // --------------------------------------------------------------- decode

  /** A decode run. The bit width must be given; the header must hold the
      pixel-array offset and the offset must not lie past the end of the
      image. Four bytes are read as the big-endian secret length and that
      many bytes follow; reads past the end of the image give zero bytes. */
  function Decode(image: seq<Byte>, width: Option<BitLength>): (r: Result<seq<Byte>>)
    ensures width.None? ==> r == Failure(MissingBitLength)
    ensures width.Some? ==>
              (r.Success? <==> |image| >= HeaderMinimum && ReadPixelArrayOffset(image).value <= |image|)
    ensures width.Some? && |image| < HeaderMinimum ==> r == Failure(HeaderTooShort)
    ensures width.Some? && |image| >= HeaderMinimum && r.Failure? ==> r.error == PictureTooSmall
    ensures r.Success? ==> |r.value| < LengthLimit
    ensures r.Success? ==>
              |r.value| == UnpackLength(ReadBytes(image[ReadPixelArrayOffset(image).value..], width.value, 4))
  {
    match width
    case None => Failure(MissingBitLength)
    case Some(w) =>
      var offset :- GetPixelArrayOffset(image, 0, w);
      var pixels := image[offset..];
      var length := UnpackLength(ReadBytes(pixels, w, 4));
      Success(ReadBytes(ReadGroups(pixels, GroupSize(w), 4).rest, w, length))
  }

  /** Decoding the output of an encode run with the width it used gives the
      secret back, provided the pixel array starts after the offset field:
      an offset inside the first 14 bytes lets the embedding overwrite the
      field that decode reads. */
  lemma EncodeDecodeRoundTrip(host: seq<Byte>, secret: seq<Byte>, width: Option<BitLength>, out: seq<Byte>)
    requires Encode(host, secret, width) == Success(out)
    requires |host| >= HeaderMinimum && ReadPixelArrayOffset(host).value >= HeaderMinimum
    ensures Decode(out, Some(ChosenWidth(host, |secret| + 4, width))) == Success(secret)
  {
    var framed, w, offset, pixels := EncodeParts(host, secret, width, out);
    EncodedOffset(host, out, w, offset, pixels);
    FramedReadsBack(host[offset..], secret, w, pixels);
  }

  /** An image that keeps the host's header up to the pixel array has its
      pixel array where the host has it. */
  lemma EncodedOffset(host: seq<Byte>, out: seq<Byte>, w: BitLength, offset: nat, pixels: seq<Byte>)
    requires |host| >= HeaderMinimum && offset == ReadPixelArrayOffset(host).value
    requires HeaderMinimum <= offset <= |host|
    requires out == host[..offset] + pixels
    requires |pixels| == |host| - offset
    ensures GetPixelArrayOffset(out, 0, w) == Success(offset)
    ensures out[offset..] == pixels
  {
    assert out[..HeaderMinimum] == host[..HeaderMinimum] by {
      assert out[..offset] == host[..offset];
      assert out[..HeaderMinimum] == out[..offset][..HeaderMinimum];
      assert host[..HeaderMinimum] == host[..offset][..HeaderMinimum];
    }
    SameHeaderSameOffset(out, host);
  }

  /** Reading a framed secret back from the pixel bytes it was embedded
      in: the first four bytes give its length and the bytes after them are
      the secret. */
  lemma FramedReadsBack(host: seq<Byte>, secret: seq<Byte>, w: BitLength, pixels: seq<Byte>)
    requires |secret| < LengthLimit
    requires EmbedStream(host, Framed(secret), w) == Success(pixels)
    ensures UnpackLength(ReadBytes(pixels, w, 4)) == |secret|
    ensures ReadBytes(ReadGroups(pixels, GroupSize(w), 4).rest, w, |secret|) == secret
  {
    var framed := Framed(secret);
    var g := GroupSize(w);
    StreamReadsPrefix(host, framed, w, 4);
    PackLengthOfFramed(secret);
    UnpackPack(|secret|);
    EmbedStreamDrop(host, framed, w, 4);
    ReadGroupsRest(pixels, g, 4);
    StreamRoundTrip(host[Stride(4, g)..], framed[4..], w);
  }

  /** Byte `i` of what a decode run returns is the decode of group `4 + i`
      of the pixel array: the payload follows the four length groups
      directly, whole, cut short or empty past the end of the image. */
  lemma DecodeByteAt(image: seq<Byte>, w: BitLength, offset: nat, i: nat)
    requires GetPixelArrayOffset(image, 0, w) == Success(offset)
    requires i < UnpackLength(ReadBytes(image[offset..], w, 4))
    ensures Decode(image, Some(w)).Success?
    ensures Decode(image, Some(w)).value[i] == DecodeGroup(GroupAt(image[offset..], GroupSize(w), 4 + i), w)
  {
    var pixels := image[offset..];
    var length := UnpackLength(ReadBytes(pixels, w, 4));
    DecodeAtOffset(image, w, offset, pixels, length);
    ReadBytesAfter(pixels, w, 4, length, i);
  }

  /** A decode run at a known offset reads the length from the first four
      groups of the pixel array and then that many bytes from where those
      reads stopped. */
  lemma DecodeAtOffset(image: seq<Byte>, w: BitLength, offset: nat, pixels: seq<Byte>, length: nat)
    requires GetPixelArrayOffset(image, 0, w) == Success(offset)
    requires offset <= |image| && pixels == image[offset..]
    requires length == UnpackLength(ReadBytes(pixels, w, 4))
    ensures Decode(image, Some(w)) == Success(ReadBytes(ReadGroups(pixels, GroupSize(w), 4).rest, w, length))
  {
  }

  /** The first four bytes of the framed secret are the packed length. */
  lemma PackLengthOfFramed(secret: seq<Byte>)
    requires |secret| < LengthLimit
    ensures Framed(secret)[..4] == PackLength(|secret|)
  {
    var prefix := PackLength(|secret|);
    assert (prefix + secret)[..4] == prefix;
  }
}
