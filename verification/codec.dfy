/**
  The bit-packing codec: spreading each framed secret byte over a group of
  host bytes, and gathering it back.

  At width `w` a secret byte occupies a group of `GroupSize(w)` host bytes;
  bit `k * w + i` of the secret byte is stored in bit `i` of the `k`-th host
  byte of its group, and bits `w..7` of every host byte are kept.
 */
module Codec {
  import opened StegTypes
  import opened Bits

  /** `a` and `b` agree on every bit the codec never writes at width `w`. */
  predicate SameHighBits(a: Byte, b: Byte, w: BitLength) {
    forall j: nat :: w <= j < 8 ==> ReadBit(a, j) == ReadBit(b, j)
  }

  /** Start of the `n`-th of a run of items that are `step` apart: the
      position of a group in the pixel array (step `GroupSize(w)`) or of a
      slot inside a byte (step `w`). It is `n * step` (`StrideIsProduct`);
      the recursive form keeps the step from one item to the next linear,
      which is what the induction proofs over groups and slots step along,
      instead of a product of two unknowns. */
  function Stride(n: nat, step: nat): nat
  {
    if n == 0 then 0 else Stride(n - 1, step) + step
  }

  /** The stride is `n` times the step. */
  lemma {:induction false} StrideIsProduct(n: nat, step: nat)
    ensures Stride(n, step) == n * step
  {
    if n > 0 {
      StrideIsProduct(n - 1, step);
    }
  }

  /** Later items start no earlier. */
  lemma {:induction false} StrideMonotonic(m: nat, n: nat, step: nat)
    requires m <= n
    ensures Stride(m, step) <= Stride(n, step)
    decreases n
  {
    if m < n {
      StrideMonotonic(m, n - 1, step);
    }
  }

  /** Every bit position of a byte lies in exactly one slot of a group:
      position `t` is bit `j` of slot `m`. */
  lemma SlotOf(w: BitLength, t: nat) returns (m: nat, j: nat)
    requires t < 8
    ensures m < GroupSize(w) && j < w
    ensures Stride(m, w) + j == t
    ensures forall m': nat :: m' < GroupSize(w) && Stride(m', w) <= t < Stride(m', w) + w ==> m' == m
  {
    m, j := t / w, t % w;
    StrideIsProduct(m, w);
    forall m': nat | m' < GroupSize(w) && Stride(m', w) <= t < Stride(m', w) + w
      ensures m' == m
    {
      StrideIsProduct(m', w);
      if w == 1 {
        assert m' == t;
      } else if w == 2 {
        assert m' == t / 2;
      } else if w == 4 {
        assert m' == t / 4;
      } else {
        assert m' == t / 8;
      }
    }
  }

  /** All slots of a group fit inside one byte. */
  lemma GroupFitsByte(w: BitLength, n: nat)
    requires n <= GroupSize(w)
    ensures Stride(n, w) <= 8
  {
    StrideMonotonic(n, GroupSize(w), w);
    StrideIsProduct(GroupSize(w), w);
    GroupSizeIsQuotient(w);
  }

  // ---------------------------------------------------------------- encode

  /** Host byte `h` with its bits `0..n-1` overwritten, in increasing order,
      by bits `base .. base + n - 1` of the secret byte `c`. */
  function EmbedBits(h: Byte, c: Byte, base: nat, n: nat): Byte
    requires n <= 8
    decreases n
  {
    if n == 0 then h
    else WriteBit(EmbedBits(h, c, base, n - 1), n - 1, ReadBit(c, base + n - 1))
  }

  /** Bit `j` of the result comes from bit `base + j` of `c` when `j < n`
      and is the host's own bit otherwise. */
  lemma {:induction false} EmbedBitsBit(h: Byte, c: Byte, base: nat, n: nat, j: nat)
    requires n <= 8
    ensures ReadBit(EmbedBits(h, c, base, n), j) == if j < n then ReadBit(c, base + j) else ReadBit(h, j)
    decreases n
  {
    if n > 0 {
      WriteBitBit(EmbedBits(h, c, base, n - 1), n - 1, ReadBit(c, base + n - 1), j);
      EmbedBitsBit(h, c, base, n - 1, j);
    }
  }

  /** Host bytes `grp` filling consecutive slots of a group, the first of
      which starts at bit `base` of the secret byte `c`. */
  function EmbedSlots(grp: seq<Byte>, c: Byte, w: BitLength, base: nat): (r: seq<Byte>)
    ensures |r| == |grp|
    decreases |grp|
  {
    if |grp| == 0 then []
    else [EmbedBits(grp[0], c, base, w)] + EmbedSlots(grp[1..], c, w, base + w)
  }

  /** One full group of host bytes carrying the secret byte `c`. */
  function EmbedGroup(grp: seq<Byte>, c: Byte, w: BitLength): (r: seq<Byte>)
    requires |grp| == GroupSize(w)
    ensures |r| == |grp|
  {
    EmbedSlots(grp, c, w, 0)
  }

  /** The `m`-th host byte of the slots is embedded with the bits of `c`
      from `pos`, the position `m` slots after `base`. */
  lemma {:induction false} EmbedSlotsAt(grp: seq<Byte>, c: Byte, w: BitLength, base: nat, m: nat, pos: nat)
    requires m < |grp|
    requires base + Stride(m, w) == pos
    ensures EmbedSlots(grp, c, w, base)[m] == EmbedBits(grp[m], c, pos, w)
    decreases m
  {
    var x := EmbedBits(grp[0], c, base, w);
    var rest := EmbedSlots(grp[1..], c, w, base + w);
    assert EmbedSlots(grp, c, w, base) == [x] + rest;
    if m > 0 {
      assert (base + w) + Stride(m - 1, w) == pos;
      EmbedSlotsAt(grp[1..], c, w, base + w, m - 1, pos);
      ConsIndex(x, rest, m);
      assert grp[1..][m - 1] == grp[m];
    }
  }

  /** Bit `j < w` of the `m`-th host byte carries bit `base + m * w + j` of
      `c`; every higher bit is the host byte's own. */
  lemma EmbedSlotsBit(grp: seq<Byte>, c: Byte, w: BitLength, base: nat, m: nat, j: nat)
    requires m < |grp|
    ensures ReadBit(EmbedSlots(grp, c, w, base)[m], j)
            == if j < w then ReadBit(c, base + Stride(m, w) + j) else ReadBit(grp[m], j)
  {
    var pos := base + Stride(m, w);
    EmbedSlotsAt(grp, c, w, base, m, pos);
    EmbedBitsBit(grp[m], c, pos, w, j);
  }

  /** Bit `k * w + j` of `c` lands in bit `j` of the `k`-th byte of the
      group. */
  lemma EmbedGroupCarries(grp: seq<Byte>, c: Byte, w: BitLength)
    requires |grp| == GroupSize(w)
    ensures forall k: nat, j: nat :: k < |grp| && j < w ==>
              ReadBit(EmbedGroup(grp, c, w)[k], j) == ReadBit(c, Stride(k, w) + j)
  {
    forall k: nat, j: nat | k < |grp| && j < w
      ensures ReadBit(EmbedSlots(grp, c, w, 0)[k], j) == ReadBit(c, Stride(k, w) + j)
    {
      EmbedSlotsBit(grp, c, w, 0, k, j);
    }
  }

  /** Bits `w..7` of every host byte of the group are kept. */
  lemma EmbedGroupKeepsHighBits(grp: seq<Byte>, c: Byte, w: BitLength)
    requires |grp| == GroupSize(w)
    ensures forall k :: 0 <= k < |grp| ==> SameHighBits(EmbedGroup(grp, c, w)[k], grp[k], w)
  {
    forall k, j: nat | 0 <= k < |grp| && w <= j < 8
      ensures ReadBit(EmbedSlots(grp, c, w, 0)[k], j) == ReadBit(grp[k], j)
    {
      EmbedSlotsBit(grp, c, w, 0, k, j);
    }
  }

  /** The embedding loop over the pixel array with the framed secret, with
      the loop exit test of steg.py:113 corrected: it stops successfully once every
      secret byte is stored and fails only when a secret byte is left with
      fewer than a group of host bytes. The bytes after the last group are
      copied unchanged. */
  function EmbedStream(pixels: seq<Byte>, framed: seq<Byte>, w: BitLength): (r: Result<seq<Byte>>)
    ensures r.Success? <==> Stride(|framed|, GroupSize(w)) <= |pixels|
    ensures r.Failure? ==> r.error == RanOutOfImage
    ensures r.Success? ==> |r.value| == |pixels|
    decreases |framed|
  {
    var g := GroupSize(w);
    if |framed| == 0 then Success(pixels)
    else if |pixels| < g then
      StrideMonotonic(1, |framed|, g);
      Failure(RanOutOfImage)
    else
      var rest :- EmbedStream(pixels[g..], framed[1..], w);
      Success(EmbedGroup(pixels[..g], framed[0], w) + rest)
  }

  /** The embedding loop exactly as steg.py writes it: after the loop
      the run is declared out of image whenever the next host group is
      short, even when no secret byte is left to store. */
  function EmbedStreamAsWritten(pixels: seq<Byte>, framed: seq<Byte>, w: BitLength): (r: Result<seq<Byte>>)
    ensures r.Success? <==> Stride(|framed|, GroupSize(w)) + GroupSize(w) <= |pixels|
    ensures r.Failure? ==> r.error == RanOutOfImage
    ensures r.Success? ==> r == EmbedStream(pixels, framed, w)
    decreases |framed|
  {
    var g := GroupSize(w);
    if |pixels| < g then Failure(RanOutOfImage)
    else if |framed| == 0 then Success(pixels)
    else
      var rest :- EmbedStreamAsWritten(pixels[g..], framed[1..], w);
      Success(EmbedGroup(pixels[..g], framed[0], w) + rest)
  }

  /** When the pixel array holds exactly the groups the framed secret
      needs, the loop as written declares the run out of image although
      every secret byte was stored; the intended loop succeeds. */
  lemma ExactFitRejectedAsWritten(pixels: seq<Byte>, framed: seq<Byte>, w: BitLength)
    requires |pixels| == Stride(|framed|, GroupSize(w))
    ensures EmbedStream(pixels, framed, w).Success?
    ensures EmbedStreamAsWritten(pixels, framed, w) == Failure(RanOutOfImage)
  {
  }

  /** Indexing past the head of a sequence built by prepending. */
  lemma ConsIndex(x: Byte, rest: seq<Byte>, m: nat)
    requires 0 < m <= |rest|
    ensures ([x] + rest)[m] == rest[m - 1]
  {
  }

  /** Slicing a suffix of a sequence. */
  lemma SliceOfDrop(p: seq<Byte>, d: nat, lo: nat, hi: nat)
    requires d + hi <= |p| && lo <= hi
    ensures p[d..][lo..hi] == p[d + lo..d + hi]
  {
  }

  /** Dropping past the head of a concatenation drops from its tail. */
  lemma SuffixAfterHead(whole: seq<Byte>, head: seq<Byte>, tail: seq<Byte>, s: nat)
    requires whole == head + tail && s <= |tail|
    ensures whole[..|head|] == head
    ensures whole[|head| + s..] == tail[s..]
  {
  }

  /** Unfolds a successful embedding into its first group and the rest. */
  lemma EmbedStreamStep(pixels: seq<Byte>, framed: seq<Byte>, w: BitLength)
    requires EmbedStream(pixels, framed, w).Success?
    requires |framed| > 0
    ensures GroupSize(w) <= |pixels|
    ensures EmbedStream(pixels[GroupSize(w)..], framed[1..], w).Success?
    ensures EmbedStream(pixels, framed, w).value
            == EmbedGroup(pixels[..GroupSize(w)], framed[0], w) + EmbedStream(pixels[GroupSize(w)..], framed[1..], w).value
  {
  }

  /** The embedding from group `k` on is the embedding of the framed bytes
      from `k` on into the pixel bytes from group `k` on. */
  lemma {:induction false} EmbedStreamDrop(pixels: seq<Byte>, framed: seq<Byte>, w: BitLength, k: nat)
    requires EmbedStream(pixels, framed, w).Success?
    requires k <= |framed|
    ensures Stride(k, GroupSize(w)) <= |pixels|
    ensures EmbedStream(pixels[Stride(k, GroupSize(w))..], framed[k..], w).Success?
    ensures EmbedStream(pixels, framed, w).value[Stride(k, GroupSize(w))..]
            == EmbedStream(pixels[Stride(k, GroupSize(w))..], framed[k..], w).value
    decreases k
  {
    if k == 0 {
      assert pixels[Stride(0, GroupSize(w))..] == pixels;
      assert framed[0..] == framed;
    } else {
      var g := GroupSize(w);
      EmbedStreamStep(pixels, framed, w);
      EmbedStreamDrop(pixels[g..], framed[1..], w, k - 1);
      EmbedStreamDropStep(pixels, framed, w, k);
    }
  }

  /** The step of `EmbedStreamDrop`: dropping `k` groups is dropping the
      first group and then `k - 1` groups of the rest. The induction
      hypothesis comes in as a requires, which keeps the solver cost low. */
  lemma EmbedStreamDropStep(pixels: seq<Byte>, framed: seq<Byte>, w: BitLength, k: nat)
    requires 0 < k <= |framed|
    requires EmbedStream(pixels, framed, w).Success?
    requires GroupSize(w) <= |pixels|
    requires EmbedStream(pixels[GroupSize(w)..], framed[1..], w).Success?
    requires EmbedStream(pixels, framed, w).value
             == EmbedGroup(pixels[..GroupSize(w)], framed[0], w) + EmbedStream(pixels[GroupSize(w)..], framed[1..], w).value
    requires Stride(k - 1, GroupSize(w)) <= |pixels[GroupSize(w)..]|
    requires EmbedStream(pixels[GroupSize(w)..][Stride(k - 1, GroupSize(w))..], framed[1..][k - 1..], w).Success?
    requires EmbedStream(pixels[GroupSize(w)..], framed[1..], w).value[Stride(k - 1, GroupSize(w))..]
             == EmbedStream(pixels[GroupSize(w)..][Stride(k - 1, GroupSize(w))..], framed[1..][k - 1..], w).value
    ensures Stride(k, GroupSize(w)) <= |pixels|
    ensures EmbedStream(pixels[Stride(k, GroupSize(w))..], framed[k..], w).Success?
    ensures EmbedStream(pixels, framed, w).value[Stride(k, GroupSize(w))..]
            == EmbedStream(pixels[Stride(k, GroupSize(w))..], framed[k..], w).value
  {
    var g := GroupSize(w);
    var s := Stride(k - 1, g);
    assert Stride(k, g) == g + s;
    assert pixels[g..][s..] == pixels[g + s..];
    assert framed[1..][k - 1..] == framed[k..];
    SuffixAfterHead(EmbedStream(pixels, framed, w).value, EmbedGroup(pixels[..g], framed[0], w),
                    EmbedStream(pixels[g..], framed[1..], w).value, s);
  }

  /** Every host byte after the last group used by the secret is copied
      unchanged. */
  lemma EmbedStreamKeepsLeftover(pixels: seq<Byte>, framed: seq<Byte>, w: BitLength)
    requires EmbedStream(pixels, framed, w).Success?
    ensures Stride(|framed|, GroupSize(w)) <= |pixels|
    ensures EmbedStream(pixels, framed, w).value[Stride(|framed|, GroupSize(w))..]
            == pixels[Stride(|framed|, GroupSize(w))..]
  {
    EmbedStreamDrop(pixels, framed, w, |framed|);
    assert framed[|framed|..] == [];
  }

  /** Only bits `0..w-1` of any host byte are changed. */
  lemma {:induction false} EmbedStreamKeepsHighBits(pixels: seq<Byte>, framed: seq<Byte>, w: BitLength)
    requires EmbedStream(pixels, framed, w).Success?
    ensures forall q :: 0 <= q < |pixels| ==> SameHighBits(EmbedStream(pixels, framed, w).value[q], pixels[q], w)
    decreases |framed|
  {
    if |framed| > 0 {
      var g := GroupSize(w);
      EmbedStreamStep(pixels, framed, w);
      EmbedStreamKeepsHighBits(pixels[g..], framed[1..], w);
      EmbedGroupKeepsHighBits(pixels[..g], framed[0], w);
      var out := EmbedStream(pixels, framed, w).value;
      var head := EmbedGroup(pixels[..g], framed[0], w);
      var rest := EmbedStream(pixels[g..], framed[1..], w).value;
      forall q | 0 <= q < |pixels|
        ensures SameHighBits(out[q], pixels[q], w)
      {
        if q < g {
          assert out[q] == head[q];
          assert pixels[..g][q] == pixels[q];
        } else {
          assert out[q] == rest[q - g];
          assert pixels[g..][q - g] == pixels[q];
        }
      }
    }
  }

  /** The first framed byte is carried by the first group. */
  lemma EmbedStreamFirstGroup(pixels: seq<Byte>, framed: seq<Byte>, w: BitLength)
    requires EmbedStream(pixels, framed, w).Success?
    requires 0 < |framed|
    ensures GroupSize(w) <= |pixels|
    ensures EmbedStream(pixels, framed, w).value[0..GroupSize(w)]
            == EmbedGroup(pixels[0..GroupSize(w)], framed[0], w)
  {
    var g := GroupSize(w);
    EmbedStreamStep(pixels, framed, w);
    assert pixels[0..g] == pixels[..g];
  }

  /** The `s`-th framed byte is carried by the group of host bytes that
      starts at `s * GroupSize(w)`: they hold exactly the embedding of that
      byte into the original host bytes at those positions. */
  lemma EmbedStreamGroup(pixels: seq<Byte>, framed: seq<Byte>, w: BitLength, s: nat)
    requires EmbedStream(pixels, framed, w).Success?
    requires s < |framed|
    ensures Stride(s + 1, GroupSize(w)) <= |pixels|
    ensures EmbedStream(pixels, framed, w).value[Stride(s, GroupSize(w))..Stride(s + 1, GroupSize(w))]
            == EmbedGroup(pixels[Stride(s, GroupSize(w))..Stride(s + 1, GroupSize(w))], framed[s], w)
  {
    var g := GroupSize(w);
    var lo := Stride(s, g);
    EmbedStreamDrop(pixels, framed, w, s);
    EmbedStreamFirstGroup(pixels[lo..], framed[s..], w);
    assert Stride(s + 1, g) == lo + g;
    SliceOfDrop(EmbedStream(pixels, framed, w).value, lo, 0, g);
    SliceOfDrop(pixels, lo, 0, g);
    assert framed[s..][0] == framed[s];
  }

  // ---------------------------------------------------------------- decode

  /** `acc` with bits `i .. i + n - 1` overwritten, in increasing order, by
      bits `0..n-1` of the host byte `h`. */
  function GatherBits(acc: Byte, h: Byte, i: nat, n: nat): Byte
    requires i + n <= 8
    decreases n
  {
    if n == 0 then acc
    else WriteBit(GatherBits(acc, h, i, n - 1), i + n - 1, ReadBit(h, n - 1))
  }

  /** Bits `i .. i + n - 1` of the result are bits `0..n-1` of `h`; every
      other bit is kept from `acc`. */
  lemma {:induction false} GatherBitsBit(acc: Byte, h: Byte, i: nat, n: nat, t: nat)
    requires i + n <= 8
    ensures ReadBit(GatherBits(acc, h, i, n), t)
            == if i <= t < i + n then ReadBit(h, t - i) else ReadBit(acc, t)
    decreases n
  {
    if n > 0 {
      WriteBitBit(GatherBits(acc, h, i, n - 1), i + n - 1, ReadBit(h, n - 1), t);
      GatherBitsBit(acc, h, i, n - 1, t);
    }
  }

  /** `acc` with the low `w` bits of the host bytes `grp` gathered into
      consecutive slots of the output byte, the first starting at bit `base`. */
  function GatherSlots(acc: Byte, grp: seq<Byte>, w: BitLength, base: nat): Byte
    requires base + Stride(|grp|, w) <= 8
    decreases |grp|
  {
    if |grp| == 0 then acc
    else
      assert Stride(|grp|, w) == Stride(|grp| - 1, w) + w;
      GatherSlots(GatherBits(acc, grp[0], base, w), grp[1..], w, base + w)
  }

  /** Bits outside the slots that `grp` covers keep their value in `acc`. */
  lemma {:induction false} GatherSlotsOutside(acc: Byte, grp: seq<Byte>, w: BitLength, base: nat, t: nat)
    requires base + Stride(|grp|, w) <= 8
    requires t < base || base + Stride(|grp|, w) <= t
    ensures ReadBit(GatherSlots(acc, grp, w, base), t) == ReadBit(acc, t)
    decreases |grp|
  {
    if |grp| > 0 {
      assert Stride(|grp|, w) == Stride(|grp| - 1, w) + w;
      var acc' := GatherBits(acc, grp[0], base, w);
      GatherSlotsOutside(acc', grp[1..], w, base + w, t);
      GatherBitsBit(acc, grp[0], base, w, t);
    }
  }

  /** Gathering a non-empty run of slots gathers its first slot and then
      the rest. */
  lemma GatherSlotsStep(acc: Byte, grp: seq<Byte>, w: BitLength, base: nat)
    requires base + Stride(|grp|, w) <= 8
    requires 0 < |grp|
    ensures base + w + Stride(|grp| - 1, w) <= 8
    ensures GatherSlots(acc, grp, w, base)
            == GatherSlots(GatherBits(acc, grp[0], base, w), grp[1..], w, base + w)
  {
  }

  /** Bit `j` of the first host byte lands in bit `t = base + j`. */
  lemma GatherSlotsFirst(acc: Byte, grp: seq<Byte>, w: BitLength, base: nat, j: nat, t: nat)
    requires base + Stride(|grp|, w) <= 8
    requires 0 < |grp| && j < w
    requires base + j == t
    ensures ReadBit(GatherSlots(acc, grp, w, base), t) == ReadBit(grp[0], j)
  {
    GatherSlotsStep(acc, grp, w, base);
    var acc' := GatherBits(acc, grp[0], base, w);
    GatherSlotsOutside(acc', grp[1..], w, base + w, t);
    GatherBitsBit(acc, grp[0], base, w, t);
    assert t - base == j;
  }

  /** Bit `j` of `grp[m]` lands in bit `t = base + m * w + j` of the
      output. */
  lemma {:induction false} GatherSlotsInside(acc: Byte, grp: seq<Byte>, w: BitLength, base: nat, m: nat, j: nat, t: nat)
    requires base + Stride(|grp|, w) <= 8
    requires m < |grp| && j < w
    requires base + Stride(m, w) + j == t
    ensures ReadBit(GatherSlots(acc, grp, w, base), t) == ReadBit(grp[m], j)
    decreases m
  {
    if m == 0 {
      GatherSlotsFirst(acc, grp, w, base, j, t);
    } else {
      GatherSlotsStep(acc, grp, w, base);
      assert (base + w) + Stride(m - 1, w) + j == t;
      GatherSlotsInside(GatherBits(acc, grp[0], base, w), grp[1..], w, base + w, m - 1, j, t);
      assert grp[1..][m - 1] == grp[m];
    }
  }

  /** The output byte rebuilt from one group of host bytes. A group cut
      short by the end of the image leaves the missing bits unset. */
  function DecodeGroup(grp: seq<Byte>, w: BitLength): Byte
    requires |grp| <= GroupSize(w)
  {
    GroupFitsByte(w, |grp|);
    GatherSlots(0, grp, w, 0)
  }

  /** Bit `j` of the `m`-th host byte becomes bit `t = m * w + j` of the
      output byte. */
  lemma DecodeGroupBit(grp: seq<Byte>, w: BitLength, m: nat, j: nat, t: nat)
    requires |grp| <= GroupSize(w)
    requires m < |grp| && j < w
    requires Stride(m, w) + j == t
    ensures ReadBit(DecodeGroup(grp, w), t) == ReadBit(grp[m], j)
  {
    GroupFitsByte(w, |grp|);
    assert DecodeGroup(grp, w) == GatherSlots(0, grp, w, 0);
    GatherSlotsInside(0, grp, w, 0, m, j, t);
  }

  /** Every bit past the slots the group fills is unset. */
  lemma DecodeGroupUnset(grp: seq<Byte>, w: BitLength, t: nat)
    requires |grp| <= GroupSize(w)
    requires Stride(|grp|, w) <= t
    ensures !ReadBit(DecodeGroup(grp, w), t)
  {
    GroupFitsByte(w, |grp|);
    GatherSlotsOutside(0, grp, w, 0, t);
    ZeroHasNoBits(t);
  }

  /** Decoding an embedded group gives back bit `t` of the embedded byte. */
  lemma GroupRoundTripBit(grp: seq<Byte>, c: Byte, w: BitLength, t: nat)
    requires |grp| == GroupSize(w) && t < 8
    ensures ReadBit(DecodeGroup(EmbedGroup(grp, c, w), w), t) == ReadBit(c, t)
  {
    var m, j := SlotOf(w, t);
    EmbedGroupSlot(grp, c, w, m, j, t);
    DecodeGroupBit(EmbedGroup(grp, c, w), w, m, j, t);
  }

  /** Bit `j` of host byte `m` of an embedded group is bit `t` of the
      embedded byte, where `t` is the position of that slot. */
  lemma EmbedGroupSlot(grp: seq<Byte>, c: Byte, w: BitLength, m: nat, j: nat, t: nat)
    requires |grp| == GroupSize(w) && m < |grp| && j < w
    requires Stride(m, w) + j == t
    ensures ReadBit(EmbedGroup(grp, c, w)[m], j) == ReadBit(c, t)
  {
    EmbedSlotsBit(grp, c, w, 0, m, j);
  }

  /** Decoding a group inverts embedding a byte into it. */
  lemma GroupRoundTrip(grp: seq<Byte>, c: Byte, w: BitLength)
    requires |grp| == GroupSize(w)
    ensures DecodeGroup(EmbedGroup(grp, c, w), w) == c
  {
    var d := DecodeGroup(EmbedGroup(grp, c, w), w);
    forall t: nat | t < 8
      ensures ReadBit(d, t) == ReadBit(c, t)
    {
      GroupRoundTripBit(grp, c, w, t);
    }
    BitsDetermineByte(d, c);
  }

  /** The outcome of a run of group reads: the groups of pixel bytes read,
      and the pixel bytes not yet read. */
  datatype Read = Read(groups: seq<seq<Byte>>, rest: seq<Byte>)

  /** `n` reads of `g` bytes each from the pixel bytes, one per output
      byte, as the length loop and the payload loop of decode do. Each read
      takes `g` bytes, or what is left of the image when fewer remain, and
      the next read starts where it stopped; past the end of the image every
      group is empty. */
  function ReadGroups(pixels: seq<Byte>, g: nat, n: nat): (r: Read)
    ensures |r.groups| == n
    ensures forall k :: 0 <= k < n ==> |r.groups[k]| <= g
    ensures |r.rest| <= |pixels|
    decreases n
  {
    if n == 0 then Read([], pixels)
    else
      var take := if |pixels| < g then |pixels| else g;
      var r := ReadGroups(pixels[take..], g, n - 1);
      Read([pixels[..take]] + r.groups, r.rest)
  }

  /** Each group read decoded to its output byte. */
  function DecodeGroups(groups: seq<seq<Byte>>, w: BitLength): (bytes: seq<Byte>)
    requires forall k :: 0 <= k < |groups| ==> |groups[k]| <= GroupSize(w)
    ensures |bytes| == |groups|
    ensures forall k :: 0 <= k < |groups| ==> bytes[k] == DecodeGroup(groups[k], w)
  {
    seq(|groups|, k requires 0 <= k < |groups| => DecodeGroup(groups[k], w))
  }

  /** The `n` output bytes that `n` group reads at width `w` produce. */
  function ReadBytes(pixels: seq<Byte>, w: BitLength, n: nat): (bytes: seq<Byte>)
    ensures |bytes| == n
  {
    DecodeGroups(ReadGroups(pixels, GroupSize(w), n).groups, w)
  }

  /** Position `x` of a sequence of `len` bytes, or its end when `x` lies
      past it. */
  function Clip(x: nat, len: nat): (c: nat)
    ensures c <= len && c <= x
    ensures c == x || c == len
  {
    if x <= len then x else len
  }

  /** Group `k` of the pixel bytes, groups being `g` bytes long: the bytes
      from `k` groups in, cut short, or empty, at the end of the image. */
  function GroupAt(pixels: seq<Byte>, g: nat, k: nat): (grp: seq<Byte>)
    ensures |grp| <= g
  {
    assert Stride(k + 1, g) == Stride(k, g) + g;
    pixels[Clip(Stride(k, g), |pixels|)..Clip(Stride(k + 1, g), |pixels|)]
  }

  /** A run of at least one read takes the first group, or what is left of
      it, and continues after it. */
  lemma ReadGroupsUnfold(pixels: seq<Byte>, g: nat, n: nat, take: nat)
    requires 0 < n
    requires take == if |pixels| < g then |pixels| else g
    ensures ReadGroups(pixels, g, n).groups == [pixels[..take]] + ReadGroups(pixels[take..], g, n - 1).groups
    ensures ReadGroups(pixels, g, n).rest == ReadGroups(pixels[take..], g, n - 1).rest
  {
  }

  /** Clipping a position shifted by `g` is shifting the clipped position. */
  lemma ClipShift(x: nat, g: nat, len: nat)
    requires g <= len
    ensures Clip(x + g, len) == Clip(x, len - g) + g
  {
  }

  /** `n` group reads stop `n` groups into the pixel bytes, or at the end of
      the image when it is shorter. */
  lemma {:induction false} ReadGroupsRest(pixels: seq<Byte>, g: nat, n: nat)
    ensures ReadGroups(pixels, g, n).rest == pixels[Clip(Stride(n, g), |pixels|)..]
    decreases n
  {
    if n == 0 {
      assert pixels[0..] == pixels;
    } else {
      var take := if |pixels| < g then |pixels| else g;
      ReadGroupsUnfold(pixels, g, n, take);
      ReadGroupsRest(pixels[take..], g, n - 1);
      SuffixAfterTake(pixels, g, take, Stride(n - 1, g), Stride(n, g));
    }
  }

  /** Dropping the first read and then `s` more positions, clipped, is
      dropping `s + g` positions, clipped. */
  lemma SuffixAfterTake(pixels: seq<Byte>, g: nat, take: nat, s: nat, s': nat)
    requires take == if |pixels| < g then |pixels| else g
    requires s' == s + g
    ensures pixels[take..][Clip(s, |pixels[take..]|)..] == pixels[Clip(s', |pixels|)..]
  {
    if |pixels| < g {
      assert pixels[take..] == [];
    } else {
      ClipShift(s, g, |pixels|);
    }
  }

  /** Group `k > 0` of the pixel bytes is group `k - 1` of the bytes after
      the first read. */
  lemma GroupAtShift(pixels: seq<Byte>, g: nat, k: nat, take: nat)
    requires 0 < k
    requires take == if |pixels| < g then |pixels| else g
    ensures GroupAt(pixels[take..], g, k - 1) == GroupAt(pixels, g, k)
  {
    var s := Stride(k - 1, g);
    assert Stride(k, g) == s + g;
    assert Stride(k + 1, g) == (s + g) + g;
    if |pixels| < g {
      assert pixels[take..] == [];
    } else {
      ClipShift(s, g, |pixels|);
      ClipShift(s + g, g, |pixels|);
      SliceOfDrop(pixels, g, Clip(s, |pixels| - g), Clip(s + g, |pixels| - g));
    }
  }

  /** Read `k` takes group `k` of the pixel bytes: whole, cut short, or
      empty past the end of the image. */
  lemma {:induction false} ReadGroupsAt(pixels: seq<Byte>, g: nat, n: nat, k: nat)
    requires k < n
    ensures ReadGroups(pixels, g, n).groups[k] == GroupAt(pixels, g, k)
    decreases k
  {
    var take := if |pixels| < g then |pixels| else g;
    ReadGroupsUnfold(pixels, g, n, take);
    if k == 0 {
      assert Stride(1, g) == g;
      assert GroupAt(pixels, g, 0) == pixels[..take];
    } else {
      ReadGroupsAt(pixels[take..], g, n - 1, k - 1);
      GroupAtShift(pixels, g, k, take);
    }
  }

  /** Output byte `k` of a run of reads is the decode of group `k` of the
      pixel bytes. */
  lemma ReadBytesAt(pixels: seq<Byte>, w: BitLength, n: nat, k: nat)
    requires k < n
    ensures ReadBytes(pixels, w, n)[k] == DecodeGroup(GroupAt(pixels, GroupSize(w), k), w)
  {
    ReadGroupsAt(pixels, GroupSize(w), n, k);
  }

  /** An empty group decodes to the byte with no bit set. */
  lemma DecodeEmptyGroup(w: BitLength)
    ensures DecodeGroup([], w) == 0
  {
  }

  /** A read whose group starts at or past the end of the image yields the
      zero byte. */
  lemma ReadBytesPastEnd(pixels: seq<Byte>, w: BitLength, n: nat, k: nat)
    requires k < n && |pixels| <= Stride(k, GroupSize(w))
    ensures ReadBytes(pixels, w, n)[k] == 0
  {
    var g := GroupSize(w);
    assert Stride(k + 1, g) == Stride(k, g) + g;
    assert GroupAt(pixels, g, k) == [];
    ReadBytesAt(pixels, w, n, k);
    DecodeEmptyGroup(w);
  }

  /** Group `k` of the pixel bytes left after `n` groups is group `n + k`
      of the whole. */
  lemma GroupAtAfter(pixels: seq<Byte>, g: nat, n: nat, k: nat)
    ensures GroupAt(pixels[Clip(Stride(n, g), |pixels|)..], g, k) == GroupAt(pixels, g, n + k)
  {
    StrideAdd(n, k, g);
    StrideAdd(n, k + 1, g);
    assert Stride(k + 1, g) == Stride(k, g) + g;
    assert n + (k + 1) == (n + k) + 1;
    ClippedSliceAfter(pixels, Stride(n, g), Stride(k, g), Stride(k + 1, g));
  }

  /** Slicing `[a, b)`, clipped, out of the bytes left after position `s`,
      clipped, is slicing `[s + a, s + b)`, clipped, out of the whole. */
  lemma ClippedSliceAfter(pixels: seq<Byte>, s: nat, a: nat, b: nat)
    requires a <= b
    ensures var rest := pixels[Clip(s, |pixels|)..];
      rest[Clip(a, |rest|)..Clip(b, |rest|)] == pixels[Clip(s + a, |pixels|)..Clip(s + b, |pixels|)]
  {
    if s <= |pixels| {
      ClipShift(a, s, |pixels|);
      ClipShift(b, s, |pixels|);
      SliceOfDrop(pixels, s, Clip(a, |pixels| - s), Clip(b, |pixels| - s));
    } else {
      assert pixels[|pixels|..] == [];
    }
  }

  /** The start of item `n + k` lies `k` items past the start of item `n`. */
  lemma {:induction false} StrideAdd(n: nat, k: nat, step: nat)
    ensures Stride(n + k, step) == Stride(n, step) + Stride(k, step)
    decreases k
  {
    if k > 0 {
      StrideAdd(n, k - 1, step);
      assert Stride(n + k, step) == Stride(n + k - 1, step) + step;
    }
  }

  /** Output byte `i` of `m` reads that start where `n` reads stopped is the
      decode of group `n + i` of the pixel bytes: the payload loop picks up
      exactly where the length loop left off. */
  lemma ReadBytesAfter(pixels: seq<Byte>, w: BitLength, n: nat, m: nat, i: nat)
    requires i < m
    ensures ReadBytes(ReadGroups(pixels, GroupSize(w), n).rest, w, m)[i]
            == DecodeGroup(GroupAt(pixels, GroupSize(w), n + i), w)
  {
    var g := GroupSize(w);
    ReadGroupsRest(pixels, g, n);
    ReadBytesAt(ReadGroups(pixels, g, n).rest, w, m, i);
    GroupAtAfter(pixels, g, n, i);
  }

  /** Reading the first `k` bytes back from a successful embedding yields
      the first `k` framed bytes. */
  lemma StreamReadsPrefix(pixels: seq<Byte>, framed: seq<Byte>, w: BitLength, k: nat)
    requires EmbedStream(pixels, framed, w).Success?
    requires k <= |framed|
    ensures ReadBytes(EmbedStream(pixels, framed, w).value, w, k) == framed[..k]
  {
    var out := EmbedStream(pixels, framed, w).value;
    var read := ReadBytes(out, w, k);
    forall s | 0 <= s < k
      ensures read[s] == framed[s]
    {
      StreamReadsByte(pixels, framed, w, k, s);
    }
  }

  /** Output byte `s` read back from a successful embedding is framed byte
      `s`. */
  lemma StreamReadsByte(pixels: seq<Byte>, framed: seq<Byte>, w: BitLength, k: nat, s: nat)
    requires EmbedStream(pixels, framed, w).Success?
    requires s < k <= |framed|
    ensures ReadBytes(EmbedStream(pixels, framed, w).value, w, k)[s] == framed[s]
  {
    var g := GroupSize(w);
    var out := EmbedStream(pixels, framed, w).value;
    var lo := Stride(s, g);
    var hi := Stride(s + 1, g);
    EmbedStreamGroup(pixels, framed, w, s);
    assert GroupAt(out, g, s) == out[lo..hi];
    ReadBytesAt(out, w, k, s);
    GroupRoundTrip(pixels[lo..hi], framed[s], w);
  }

  /** Reading back `|framed|` bytes from a successful embedding yields the
      framed secret. */
  lemma StreamRoundTrip(pixels: seq<Byte>, framed: seq<Byte>, w: BitLength)
    requires EmbedStream(pixels, framed, w).Success?
    ensures ReadBytes(EmbedStream(pixels, framed, w).value, w, |framed|) == framed
  {
    StreamReadsPrefix(pixels, framed, w, |framed|);
    assert framed[..|framed|] == framed;
  }
}
