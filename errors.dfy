/** The exceptions a buffer operation can raise, and the order in which the
    bulk transfers test their preconditions.

    Each bulk operation runs a fixed list of checks; the first one that fails
    decides which exception is thrown, and nothing is copied. The list is
    written here as a table of (fails?, error) pairs, so that the precedence
    can be stated and proved once, independently of the if-chains in the
    methods of module DoubleBuffers. */
module BufferErrors {

  /** IllegalArgumentException, IndexOutOfBoundsException,
      BufferUnderflowException, BufferOverflowException and
      ReadOnlyBufferException. */
  datatype Error =
    | IllegalArgument
    | IndexOutOfBounds
    | BufferUnderflow
    | BufferOverflow
    | ReadOnlyBuffer

  datatype Option<+T> = None | Some(value: T)

  /** A value, or the exception thrown instead of returning one. */
  datatype Result<+T> = Ok(value: T) | Err(error: Error)

  /** One precondition test: whether it fails, and what it throws if it does. */
  type Check = (bool, Error)

  /** The exception raised by running `checks` in order, or None when every
      check passes. */
  function FirstFailure(checks: seq<Check>): Option<Error>
  {
    if checks == [] then None
    else if checks[0].0 then Some(checks[0].1)
    else FirstFailure(checks[1..])
  }

  /** No exception is raised exactly when no check fails. */
  lemma {:induction false} FirstFailureNoneIff(checks: seq<Check>)
    ensures FirstFailure(checks) == None <==> forall i :: 0 <= i < |checks| ==> !checks[i].0
  {
    if checks != [] {
      FirstFailureNoneIff(checks[1..]);
      assert forall i :: 1 <= i < |checks| ==> checks[i] == checks[1..][i - 1];
    }
  }

  /** The exception raised is that of the earliest failing check. */
  lemma {:induction false} FirstFailureIsEarliest(checks: seq<Check>, k: nat)
    requires k < |checks| && checks[k].0
    requires forall j :: 0 <= j < k ==> !checks[j].0
    ensures FirstFailure(checks) == Some(checks[k].1)
  {
    if k > 0 {
      assert forall j :: 0 <= j < k - 1 ==> checks[1..][j] == checks[j + 1];
      FirstFailureIsEarliest(checks[1..], k - 1);
    }
  }

  /** Conversely, whatever is raised comes from some failing check with no
      failing check before it. */
  lemma {:induction false} FirstFailureHasWitness(checks: seq<Check>)
    requires FirstFailure(checks).Some?
    ensures exists k :: 0 <= k < |checks| && checks[k].0 && checks[k].1 == FirstFailure(checks).value
                        && forall j :: 0 <= j < k ==> !checks[j].0
  {
    if !checks[0].0 {
      FirstFailureHasWitness(checks[1..]);
      var k :| 0 <= k < |checks[1..]| && checks[1..][k].0 && checks[1..][k].1 == FirstFailure(checks[1..]).value
                && forall j :: 0 <= j < k ==> !checks[1..][j].0;
      assert checks[k + 1] == checks[1..][k];
      assert forall j :: 1 <= j < k + 1 ==> checks[j] == checks[1..][j - 1];
    }
  }

  /** The checks of the bulk `get(dst, offset, length)`, in source order:
      the destination offset, the destination end, the elements remaining in
      the buffer, the sign of the length. */
  function GetChecks(dstLength: int, offset: int, length: int, remaining: int): seq<Check>
  {
    [ (offset < 0 || offset >= dstLength, IndexOutOfBounds),
      (offset + length > dstLength, IndexOutOfBounds),
      (remaining < length, BufferUnderflow),
      (length < 0, IndexOutOfBounds) ]
  }

  /** The checks of the bulk `put(src, offset, length)`, in source order:
      the read-only flag, the room remaining in the buffer, the source offset,
      the source end, the sign of the length. */
  function PutChecks(readOnly: bool, remaining: int, srcLength: int, offset: int, length: int): seq<Check>
  {
    [ (readOnly, ReadOnlyBuffer),
      (remaining < length, BufferOverflow),
      (offset < 0 || offset >= srcLength, IndexOutOfBounds),
      (offset + length > srcLength, IndexOutOfBounds),
      (length < 0, IndexOutOfBounds) ]
  }

  /** A bulk get goes ahead exactly when `[offset, offset + length)` is a
      range of `dst` starting strictly inside it and the buffer holds at
      least `length` more elements. */
  lemma GetSucceedsIff(dstLength: int, offset: int, length: int, remaining: int)
    ensures FirstFailure(GetChecks(dstLength, offset, length, remaining)) == None
        <==> 0 <= offset < dstLength && 0 <= length && offset + length <= dstLength && length <= remaining
  {
    var c := GetChecks(dstLength, offset, length, remaining);
    FirstFailureNoneIff(c);
    assert (forall i :: 0 <= i < |c| ==> !c[i].0) <==> !c[0].0 && !c[1].0 && !c[2].0 && !c[3].0;
  }

  /** Underflow is reported only once the destination range has passed its
      checks: a malformed destination wins over too few remaining elements. */
  lemma GetUnderflowIff(dstLength: int, offset: int, length: int, remaining: int)
    ensures FirstFailure(GetChecks(dstLength, offset, length, remaining)) == Some(BufferUnderflow)
        <==> 0 <= offset < dstLength && offset + length <= dstLength && remaining < length
  {
    var c := GetChecks(dstLength, offset, length, remaining);
    if 0 <= offset < dstLength && offset + length <= dstLength && remaining < length {
      FirstFailureIsEarliest(c, 2);
    } else if FirstFailure(c).Some? {
      FirstFailureHasWitness(c);
    }
  }

  /** On a buffer with a non-negative remaining count, every other failure of
      a bulk get is IndexOutOfBounds: a bad destination range, or a negative
      length (which gets past the remaining check, since no count is below a
      negative length). */
  lemma GetIndexOutOfBoundsIff(dstLength: int, offset: int, length: int, remaining: int)
    requires 0 <= remaining
    ensures FirstFailure(GetChecks(dstLength, offset, length, remaining)) == Some(IndexOutOfBounds)
        <==> !(0 <= offset < dstLength) || offset + length > dstLength || length < 0
  {
    var c := GetChecks(dstLength, offset, length, remaining);
    if !(0 <= offset < dstLength) {
      FirstFailureIsEarliest(c, 0);
    } else if offset + length > dstLength {
      FirstFailureIsEarliest(c, 1);
    } else if length < 0 {
      FirstFailureIsEarliest(c, 3);
    } else if FirstFailure(c).Some? {
      FirstFailureHasWitness(c);
    }
  }

  /** Because the offset must lie strictly inside `dst`, a bulk get into an
      empty array always fails, whatever the buffer holds. */
  lemma GetIntoEmptyArrayFails(remaining: int)
    ensures FirstFailure(GetChecks(0, 0, 0, remaining)) == Some(IndexOutOfBounds)
  {
  }

  /** A read-only buffer rejects every bulk put, before any bound is looked at. */
  lemma PutReadOnlyFirst(remaining: int, srcLength: int, offset: int, length: int)
    ensures FirstFailure(PutChecks(true, remaining, srcLength, offset, length)) == Some(ReadOnlyBuffer)
  {
  }

  /** Overflow is reported on a writable buffer exactly when the length exceeds
      the room remaining, even if the source range is malformed too. */
  lemma PutOverflowIff(readOnly: bool, remaining: int, srcLength: int, offset: int, length: int)
    ensures FirstFailure(PutChecks(readOnly, remaining, srcLength, offset, length)) == Some(BufferOverflow)
        <==> !readOnly && remaining < length
  {
    var c := PutChecks(readOnly, remaining, srcLength, offset, length);
    if !readOnly && remaining < length {
      FirstFailureIsEarliest(c, 1);
    } else if FirstFailure(c).Some? {
      FirstFailureHasWitness(c);
    }
  }

  /** On a writable buffer with room for `length` elements, a bulk put fails
      with IndexOutOfBounds exactly when the source range is malformed. */
  lemma PutIndexOutOfBoundsIff(readOnly: bool, remaining: int, srcLength: int, offset: int, length: int)
    requires 0 <= remaining
    ensures FirstFailure(PutChecks(readOnly, remaining, srcLength, offset, length)) == Some(IndexOutOfBounds)
        <==> !readOnly && length <= remaining
             && (!(0 <= offset < srcLength) || offset + length > srcLength || length < 0)
  {
    var c := PutChecks(readOnly, remaining, srcLength, offset, length);
    if !readOnly && length <= remaining {
      if !(0 <= offset < srcLength) {
        FirstFailureIsEarliest(c, 2);
      } else if offset + length > srcLength {
        FirstFailureIsEarliest(c, 3);
      } else if length < 0 {
        FirstFailureIsEarliest(c, 4);
      } else if FirstFailure(c).Some? {
        FirstFailureHasWitness(c);
      }
    } else if FirstFailure(c).Some? {
      FirstFailureHasWitness(c);
    }
  }

  /** A bulk put goes ahead exactly when the buffer is writable, has room for
      `length` elements, and `[offset, offset + length)` is a range of `src`
      starting strictly inside it. */
  lemma PutSucceedsIff(readOnly: bool, remaining: int, srcLength: int, offset: int, length: int)
    ensures FirstFailure(PutChecks(readOnly, remaining, srcLength, offset, length)) == None
        <==> !readOnly && length <= remaining && 0 <= offset < srcLength && 0 <= length
             && offset + length <= srcLength
  {
    var c := PutChecks(readOnly, remaining, srcLength, offset, length);
    FirstFailureNoneIff(c);
    assert (forall i :: 0 <= i < |c| ==> !c[i].0) <==> !c[0].0 && !c[1].0 && !c[2].0 && !c[3].0 && !c[4].0;
  }

  /** `put(TDoubleBuffer src)` hands the other buffer's position in its backing
      array and its remaining count to the bulk put. For a well-formed source
      the end check always passes, and the offset check fails only when the
      source cursor sits at the very end of its backing array: an exhausted
      source there raises IndexOutOfBounds instead of copying nothing. */
  lemma PutFromBufferChecks(readOnly: bool, remaining: int, srcStoreLength: int, srcStart: int,
                            srcPosition: int, srcLimit: int, srcCapacity: int)
    requires 0 <= srcStart && 0 <= srcPosition <= srcLimit <= srcCapacity
    requires srcStart + srcCapacity <= srcStoreLength
    ensures FirstFailure(PutChecks(readOnly, remaining, srcStoreLength, srcStart + srcPosition, srcLimit - srcPosition))
         == if readOnly then Some(ReadOnlyBuffer)
            else if remaining < srcLimit - srcPosition then Some(BufferOverflow)
            else if srcStart + srcPosition == srcStoreLength then Some(IndexOutOfBounds)
            else None
  {
    var c := PutChecks(readOnly, remaining, srcStoreLength, srcStart + srcPosition, srcLimit - srcPosition);
    PutSucceedsIff(readOnly, remaining, srcStoreLength, srcStart + srcPosition, srcLimit - srcPosition);
    if readOnly {
      FirstFailureIsEarliest(c, 0);
    } else if remaining < srcLimit - srcPosition {
      FirstFailureIsEarliest(c, 1);
    } else if srcStart + srcPosition == srcStoreLength {
      FirstFailureIsEarliest(c, 2);
    }
  }
}
