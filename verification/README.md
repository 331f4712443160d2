# Bit-packing steganography codec

This project models the codec of `steg.py`, a command-line tool. The tool hides a
secret file in the low bits of the pixel bytes of a Windows bitmap and reads it back.
Host image, secret and output are byte sequences (`seq<bv8>`). The file handles of the
tool are not modelled.

- **Bits** (`bits.dfy`): `readBit` and `writeBit`.
  - `ReadBit` and `WriteBit` are defined by shifting one place at a time.
  - Lemmas tie them to the mask `1 << i` that steg.py uses and prove the get/set laws.
- **Framing** (`framing.dfy`): the 4-byte big-endian length prefix.
  - This is `struct.pack(">I")` and `struct.unpack(">I")`.
  - It is proved against a reference reading of bytes as a number.
- **Header** (`header.dfy`): the pixel-array offset and the capacity gate.
  - The offset is the little-endian `bfOffBits` field at bytes 10 to 13 of the bitmap
    file header.
  - The gate is `checkSizeRequirements`.
- **Codec** (`codec.dfy`): the embedding loop of `patchImage` and the read loops of
  `decode`.
  - Each framed secret byte is spread over one group of `8 / w` host bytes.
  - Bit `k*w + i` of the secret byte goes to bit `i` of the group's `k`-th host byte.
  - Decode reads one group per output byte (`ReadGroups`). Each read continues where
    the previous one stopped; near the end of the image a group is cut short, and past
    it a group is empty. `ReadBytes` decodes the groups read.
- **Steg** (`steg.dfy`): the encode and decode runs.
  - Framing, the choice of bit width, the gate, and copying the header and the leftover
    bytes.
  - `Steg.Encode` is the corrected run: the loop exit of `Codec.EmbedStream` and the
    automatic width of `Steg.AutoBitLength` (see Findings). `Steg.EncodeAsWritten` is
    the run as steg.py writes it, and whenever it succeeds it gives the same output.
  - The round trip `Decode(Encode(host, secret, w), w) == secret`.
- **StegTypes** (`types.dfy`): shared definitions.
  - Bytes, and the allowed widths `{1, 2, 4, 8}` (the only ones the argument parser
    accepts).
  - The group size `8 / w`.
  - The error kinds, one per way a run of the tool aborts.

The round trip is proved for a pixel array that starts at or after byte 14. With a
smaller offset, the embedding may change the low bits of bytes 10..13, which hold the
offset field, so decode may read a different offset. An offset of at least 14 is a
sufficient condition, not a necessary one: `Steg.EncodeDecodeRoundTrip` takes it as a
precondition.

Behaviour of steg.py that the model keeps as it is:
- Only the widths 1, 2, 4 and 8 are accepted: steg.py:276-279 rejects any other given
  width, and the automatic width of steg.py:70-72, `8 // ratio` raised to 1 when it
  is 0, is always one of them (`Steg.EightOverRatio`).
- Decode never fails because the pixel array ends before the declared length is read.
  A read near the end returns fewer host bytes, a read past the end returns none, and
  every missing bit reads as zero
  (steg.py:181-187, 197-203; `Codec.ReadBytesAt`, `Codec.ReadBytesPastEnd`). Decode
  does fail on an image shorter than the 14-byte header (steg.py:225) and on an offset
  past the end of the image (the gate at steg.py:141).
- The automatic width rounds down (steg.py:69-70); see Findings.
- In decode, the capacity gate sees the global secret size, which is still 0
  (steg.py:227). So the gate only checks that the offset does not lie past the end of
  the image, and the declared length is never checked against the image.

## Model

| member | source | states |
|---|---|---|
| StegTypes.GroupSizeIsQuotient | steg.py:97 | a group is `8 / w` host bytes, and a group's slots of `w` bits cover exactly the 8 bits of a secret byte |
| Bits.ReadBit | steg.py:232-234 | definition of `readBit`: bit 0 is the low bit, and bit `i + 1` of a byte is bit `i` of it shifted down; its meaning as a mask test is stated by `Bits.ReadBitIsMask` |
| Bits.ReadBitIsMask | steg.py:232-234 | reading bit `i` is testing the byte against the mask `1 << i`; indices from 8 on read as unset |
| Bits.MaskIsShift | steg.py:234 | the mask table equals `1 << i` for every bit index |
| Bits.WriteBit | steg.py:237-242 | definition of `writeBit`: bit 0 is set directly, a higher bit is set in the byte shifted down and shifted back; `Bits.WriteBitBit` and `Bits.WriteBitIsMask` state what it computes |
| Bits.WriteBitIsMask | steg.py:237-242 | writing bit `i` is clearing it with `~(1 << i)` and setting it with `1 << i` when the value is true |
| Bits.WriteBitBit | steg.py:237-242 | after writing `v` to bit `i`, bit `i` reads `v` and every other bit reads as before |
| Bits.WriteReadBit | steg.py:232-242 | writing back the value a bit already has leaves the byte unchanged |
| Bits.BitsDetermineByte | steg.py:232-234 | two bytes that agree on all eight bits are equal |
| Bits.ZeroHasNoBits | steg.py:181 | the byte `chr(0)` that decode starts from has no bit set |
| Framing.PackLength | steg.py:50 | every length below 2^32 packs to four bytes whose big-endian value is that length |
| Framing.UnpackLength | steg.py:191 | four bytes unpack to their big-endian value, which is below 2^32 |
| Framing.UnpackPack | steg.py:191 | unpacking the packed length gives the length back, for every length below 2^32 |
| Framing.PackUnpack | steg.py:191 | packing an unpacked value gives the same four bytes back |
| Framing.BigEndianValueOfFour | steg.py:191 | the big-endian value of four bytes is `b0*2^24 + b1*2^16 + b2*2^8 + b3` |
| Header.LittleEndianValueOfFour | steg.py:225 | the little-endian value of four bytes is `b0 + b1*2^8 + b2*2^16 + b3*2^24` |
| Header.ReadPixelArrayOffset | steg.py:220-225 | the offset is found exactly when the host has 14 bytes; it is `host[10] + 256*host[11] + 65536*host[12] + 16777216*host[13]`, below 2^32 |
| Header.SameHeaderSameOffset | steg.py:220-225 | images that agree on their first 14 bytes read the same offset |
| Header.CheckSizeRequirements | steg.py:140-145 | the gate passes exactly when the secret's bits fit in the bytes after the offset at `w` bits per byte; passing implies the offset lies within the picture; failing is the picture-too-small error |
| Header.GetPixelArrayOffset | steg.py:220-229 | succeeds exactly when the offset is readable and the gate passes; the offset plus one group per secret byte then lies within the host; the errors distinguish a short header from a small picture |
| Codec.StrideIsProduct | steg.py:97 | the `n`-th group starts `n` groups of `8 / w` bytes into the pixel array |
| Codec.SlotOf | steg.py:105-106 | each bit `t` of a secret byte has exactly one slot: host byte `m` of the group and bit `j < w` of it, with `t = m*w + j`; every slot whose bits span `t` is slot `m` |
| Codec.EmbedBits | steg.py:105-106 | definition of the inner encode loop over `i < w`: one `writeBit` per bit, in increasing order; `Codec.EmbedBitsBit` states its result bit by bit |
| Codec.EmbedBitsBit | steg.py:105-106 | the inner loop sets bits `0..w-1` of a host byte to bits `base..base+w-1` of the secret byte and keeps the other bits |
| Codec.EmbedSlots | steg.py:103-109 | the loop over the host bytes of a group, `charOffset` counting up from `base / w`: one output byte per host byte, so the group keeps its length |
| Codec.EmbedSlotsAt | steg.py:103-109 | the `m`-th host byte of a group receives the secret bits starting at `m*w` |
| Codec.EmbedSlotsBit | steg.py:103-109 | bit `j` of the `m`-th output byte is secret bit `m*w + j` when `j < w`, and is the host bit otherwise |
| Codec.EmbedGroup | steg.py:103-109 | one pass of the encode loop over a full group: the output group has the host group's length; `Codec.EmbedGroupCarries` and `Codec.GroupRoundTrip` state what it holds |
| Codec.EmbedGroupCarries | steg.py:103-109 | in an embedded group, bit `j < w` of the `k`-th host byte carries bit `k*w + j` of the secret byte |
| Codec.EmbedGroupKeepsHighBits | steg.py:104-107 | in an embedded group, every host byte keeps its bits `w..7` |
| Codec.EmbedStream | steg.py:97-117 | with the loop exit fixed: the embedding succeeds exactly when the pixel bytes hold one full group per framed byte; otherwise it is the ran-out-of-image error; the output has the input's length |
| Codec.EmbedStreamAsWritten | steg.py:97-115 | the loop as written succeeds exactly when a full group is left over after the last framed byte; when it succeeds, its output equals that of the corrected loop |
| Codec.ExactFitRejectedAsWritten | steg.py:100-115 | a pixel array that is exactly one group per framed byte passes the corrected loop but makes the written loop report running out of image |
| Codec.EmbedStreamDrop | steg.py:97-111 | the output from group `k` on is the embedding of the framed bytes from `k` on into the host bytes from group `k` on, so a reader that starts at group `k` sees a stream of its own |
| Codec.EmbedStreamGroup | steg.py:97-110 | the `s`-th group of the output is the `s`-th host group with secret byte `s` embedded; each secret byte consumes exactly one group |
| Codec.EmbedStreamKeepsHighBits | steg.py:104-107 | every output pixel byte agrees with the host byte on bits `w..7` |
| Codec.EmbedStreamKeepsLeftover | steg.py:130-137 | the pixel bytes after the last used group are copied unchanged |
| Codec.GatherBits | steg.py:185-187 | definition of the inner decode loop over `j < w`: one `writeBit` per host bit, at output positions counting up from `i`; `Codec.GatherBitsBit` states its result bit by bit |
| Codec.GatherBitsBit | steg.py:185-187 | the inner decode loop writes bits `0..n-1` of a host byte to positions `i..i+n-1` of the output byte and keeps the others |
| Codec.GatherSlots | steg.py:184-187 | definition of the decode loop over the host bytes of a group, the output position carried on from byte to byte; `Codec.GatherSlotsInside` and `Codec.GatherSlotsOutside` state its result |
| Codec.GatherSlotsOutside | steg.py:184-187 | output bits outside the span of a group's slots keep their value |
| Codec.GatherSlotsInside | steg.py:184-187 | output bit `t = m*w + j` is bit `j` of the group's `m`-th host byte |
| Codec.DecodeGroup | steg.py:181-188 | one output byte of decode, started from `chr(0)`, over a group that may be cut short; `Codec.DecodeGroupBit` and `Codec.DecodeGroupUnset` state its bits |
| Codec.DecodeGroupBit | steg.py:181-188 | a decoded group's bit `t = m*w + j` is bit `j` of its `m`-th host byte |
| Codec.DecodeGroupUnset | steg.py:181-188 | bits of a short group beyond its last host byte read as zero |
| Codec.GroupRoundTrip | steg.py:184-187 | decoding an embedded group gives back the secret byte, for every group, byte and width |
| Codec.ReadGroups | steg.py:178-205 | `n` reads of one group each give `n` groups, none longer than a group, and leave at most the bytes they started from |
| Codec.ReadBytes | steg.py:178-205 | `n` reads give exactly `n` output bytes, also when the image runs out |
| Codec.ReadGroupsRest | steg.py:182-198 | `n` reads stop `n` groups into the pixel bytes, or at the end of the image when it is shorter; the next loop starts there |
| Codec.ReadGroupsAt | steg.py:182-198 | read `k` takes group `k` of the pixel bytes: positions `k*g` to `(k+1)*g`, cut at the end of the image |
| Codec.ReadBytesAt | steg.py:180-203 | output byte `k` is the decode of group `k` of the pixel bytes, whole, cut short or empty |
| Codec.ReadBytesPastEnd | steg.py:197-203 | an output byte whose group starts at or past the end of the image is zero |
| Codec.GroupAtAfter | steg.py:182-198 | group `k` of the bytes left after `n` groups is group `n + k` of the whole pixel array |
| Codec.ReadBytesAfter | steg.py:178-205 | byte `i` of a read that starts where `n` reads stopped is the decode of group `n + i`: the payload loop picks up where the length loop left off |
| Codec.StreamReadsPrefix | steg.py:178-189 | reading `k` bytes back from a successful embedding gives the first `k` framed bytes; with `k = 4` this is the length field |
| Codec.StreamRoundTrip | steg.py:178-205 | reading back as many bytes as were framed gives the framed secret back |
| Steg.EightOverRatio | steg.py:70-72 | `8 // ratio` is 8, 4, 2, 1 or 0, and 0 only for a ratio above 8; so the width after the clamp is allowed |
| Steg.AutoBitLengthAsWritten | steg.py:68-72 | the automatic width as written fails, dividing by a zero ratio, exactly when the host is smaller than the framed secret |
| Steg.AutoBitLengthAsWrittenIsWidestBelow | steg.py:69-72 | the width as written is the widest allowed `w` with `w * ratio <= 8`, and 1 when the ratio exceeds 8 |
| Steg.FitsIffGroupWithinRatio | steg.py:141 | the framed secret fits the host at width `w` exactly when the group size is at most the picture / secret ratio |
| Steg.AutoBitLengthAsWrittenFits | steg.py:69-72 | the width as written fits the host exactly when the ratio is 1, 2 or 4, or at least 8 |
| Steg.AutoBitLengthTooNarrow | steg.py:69-72 | a 600-byte host file whose pixel array holds 546 bytes, with a 100-byte framed secret: the width as written is 1, which needs 800 pixel bytes; width 2 fits and is the corrected choice |
| Steg.AutoBitLength | steg.py:68-72 | corrected automatic width: the narrowest allowed width at which the framed secret fits the pixel array, whenever any width fits; 8 otherwise |
| Steg.AutoBitLengthAgrees | steg.py:68-72 | whenever the width steg.py picks from the whole file size fits the pixel array, the corrected rule picks the same width |
| Steg.GateIsFit | steg.py:140-141 | the capacity gate passes exactly when the framed secret fits the pixel array at the width, one group per framed byte |
| Steg.ChosenWidth | steg.py:67-72 | an encode run uses the given width; without one, the corrected automatic width, which fits the pixel array whenever width 8 does |
| Steg.Framed | steg.py:48-65 | the framed secret is 4 bytes longer, begins with the big-endian length and continues with the secret |
| Steg.Encode | steg.py:42-127 | the corrected run, with the corrected loop exit and automatic width: too long a secret is rejected; otherwise encode succeeds exactly when the header and the gate accept the host for the framed size at the chosen width; a host shorter than the 14-byte header is the header-too-short error, and any other failure is picture-too-small, never ran-out-of-image; the output has the host's length |
| Steg.PatchImage | steg.py:87-127 | `patchImage` with the loop exit corrected, at one width: it succeeds exactly when the offset is read and the gate passes, a failure carries the error of the offset read or the gate, and the output has the host's length |
| Steg.EncodeAsWritten | steg.py:42-127 | encode as steg.py writes it, with the width rounded down from the whole file size and the loop exit of lines 113-115: a secret of 2^32 bytes or more is rejected; with no width and a file smaller than the framed secret it is the zero-ratio error; otherwise it succeeds exactly when the offset is read, the capacity gate passes and the host holds the offset plus one group more than the framed secret needs; a host shorter than the header is header-too-short, a failed gate is picture-too-small, and a failure after the gate is ran-out-of-image; whenever it succeeds, its output is that of the corrected run |
| Steg.PatchImageAsWritten | steg.py:87-127 | `patchImage` as written at one width: it succeeds exactly when the offset is read, the gate passes and one host group is left over after the framed secret; a failure of the offset or the gate carries that error, and a failure after the gate is ran-out-of-image; its output is then the header followed by the corrected embedding |
| Steg.AsWrittenWidthIsChosen | steg.py:67-72 | a width steg.py uses that passes the capacity gate is the width the corrected run chooses |
| Steg.EncodeAutoWidth | steg.py:67-72 | with the automatic width, encode succeeds exactly when it succeeds at width 8, and no given width that succeeds is narrower than the chosen one |
| Steg.EncodeKeepsHeader | steg.py:89-93 | the bytes before the pixel array are copied unchanged |
| Steg.EncodeKeepsHighBits | steg.py:103-107 | every pixel byte of the output agrees with the host on the bits above the width |
| Steg.EncodeKeepsLeftover | steg.py:119-137 | every host byte after the last used group is copied unchanged |
| Steg.Decode | steg.py:153-205 | decode without a width fails; with one, it succeeds exactly when the offset is readable and not past the end of the image; an image shorter than the header is header-too-short, and an offset past the end is picture-too-small; the secret it returns has the length read from the first four groups, which is below 2^32 |
| Steg.EncodedOffset | steg.py:174-175 | decode finds the pixel array of an encoded image where encode wrote it |
| Steg.DecodeByteAt | steg.py:195-205 | byte `i` that decode returns is the decode of group `4 + i` of the pixel array, whole, cut short or empty |
| Steg.FramedReadsBack | steg.py:178-205 | from the pixel bytes a framed secret was embedded in, the length loop reads the secret's length and the payload loop, starting where it stopped, reads the secret |
| Steg.EncodeDecodeRoundTrip | steg.py:153-205 | decoding an encoded image with the width encode used returns the secret, whenever the pixel array starts after the offset field |

## Left out

- File I/O is not modelled: `open`, `seek`, `read`, `write`, `close`, `os.stat`, and the
  temporary file `tmpSecret.txt` with its removal. Host, secret and output are byte
  sequences, and `os.stat` sizes are their lengths.
- `printInfo` and all console output are left out. They are side effects only.
- `parseArgs` and getopt handling are left out.
  - Their only effect on the codec is the width, which is `BitLength` (1, 2, 4 or 8).
  - An absent width (`-1`) is `None`.
  - The long option `--bits` is registered but compared as `--bfile`, so it never sets
    the width. This belongs to the argument parser and is not modelled.
- `sys.exit` becomes an error result. `struct.error` also becomes an error result:
  - on a header shorter than 14 bytes, `HeaderTooShort`;
  - on a secret of 2^32 bytes or more, `SecretTooLarge`.
- A failed run yields only its error. The partial output file is not modelled: the
  tool may already have written the header and some groups before it exits.
- The module-level globals become parameters. Decode's gate receives 0 as the secret
  size, because the global keeps its initial value in a decode run.
- Resource cleanup in the `finally` blocks is not modelled.

## Findings

| source | as written | input that shows it | evidently intended | confidence | as-written member | corrected member |
|---|---|---|---|---|---|---|
| steg.py:100-115 | The loop stops when the next host group is short or the secret is exhausted. The failure test after it then asks only whether the last group read was short. A host whose pixel bytes are exactly one group per framed byte passes the capacity gate. But the last group read is then empty, and the run reports "ran out of image". | `w = 8`, framed secret of 4 bytes, pixel array of exactly 4 bytes. | Fail only when secret bytes remain without a full group, so exactly one group per framed byte succeeds. The capacity gate at line 141 accepts that case too. | not executed | Codec.ExactFitRejectedAsWritten | Codec.EmbedStream |
| steg.py:69-72 | The automatic width is `8 // (picSize // framedSize)`, rounded down, where `picSize` is the whole file size. For ratios 3, 5, 6 and 7 that width gives the secret fewer host bytes than it needs, and the header bytes counted in `picSize` can make even other ratios too small for the pixel array that the capacity gate at line 141 measures. The gate then rejects a secret that a wider width would fit. A host smaller than the framed secret divides by zero. | A 600-byte file with the pixel array at offset 54 (546 bytes), framed secret of 100 bytes: ratio 6, width 1, 800 pixel bytes needed. Width 2 needs 400. | The narrowest allowed width at which the framed secret fits the pixel array that the gate measures. | not executed | Steg.AutoBitLengthTooNarrow | Steg.AutoBitLength |
