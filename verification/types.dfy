/**
  Shared vocabulary of the steganography codec: bytes, the supported bit
  widths, and the failures the tool can end with.
 */
module StegTypes {

  /** One byte of a host image, payload or output file. */
  type Byte = bv8

  /** Number of low-order bits of each host byte that carry payload bits.
      The command line only accepts these four widths, all of which divide 8. */
  type BitLength = w: int | w == 1 || w == 2 || w == 4 || w == 8 witness 1

  /** Number of host bytes that carry one payload byte at width `w`
      (steg.py's `8 / bitlength`). */
  function GroupSize(w: BitLength): (g: nat)
    ensures 1 <= g <= 8
  {
    if w == 1 then 8 else if w == 2 then 4 else if w == 4 then 2 else 1
  }

  /** A group holds exactly the eight bits of one payload byte. */
  lemma GroupSizeIsQuotient(w: BitLength)
    ensures GroupSize(w) == 8 / w
    ensures GroupSize(w) * w == 8
  {
  }

  /** The ways an encode or decode run ends without success. */
  datatype Error =
    | HeaderTooShort     // fewer than 14 bytes: the pixel-offset field cannot be read
    | PictureTooSmall    // the capacity gate refused the run
    | RanOutOfImage      // the embedding loop stopped on a short host group
    | SecretTooLarge     // the secret length does not fit the 4-byte length prefix
    | MissingBitLength   // decode was started without an explicit bit width
    | ZeroRatio          // automatic width: the host is smaller than the framed secret, so the
                         // picture / secret ratio is 0 and the width division fails

  datatype Option<+T> = None | Some(value: T)

  datatype Result<+T> = Success(value: T) | Failure(error: Error) {
    predicate IsFailure() {
      Failure?
    }

    function PropagateFailure<U>(): Result<U>
      requires Failure?
    {
      Failure(error)
    }

    function Extract(): T
      requires Success?
    {
      value
    }
  }

  /** A check that either lets a run continue or ends it with an error. */
  datatype Outcome = Pass | Fail(error: Error)
}
