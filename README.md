# TeaVM `DoubleBuffer`, array-backed base class, in Dafny

This project models `TDoubleBuffer`, the base class of TeaVM's implementation
of `java.nio.DoubleBuffer`. A buffer is a window `[start, start + capacity)`
onto a backing `double[]` that other buffers, and the code that wrapped the
array, may share. It has a cursor: `position`, `limit` and `mark`, with
`0 <= position <= limit <= capacity` and `mark` either unset (-1) or at most
`position`. It also has a read-only flag. The model covers:

- construction: `allocate` and both `wrap` overloads;
- the bulk transfers `get(dst, offset, length)`, `get(dst)`,
  `put(src, offset, length)`, `put(src)` and `put(TDoubleBuffer)`. The model
  keeps the order in which they test their preconditions, and their
  element-by-element forward copy through a backing array that may be the
  very array being read;
- `array()` and `arrayOffset()`;
- the value semantics `equals`, `compareTo` and `hashCode`. These look only at
  the remaining window `[start + position, start + limit)`.

Layout:

- `errors.dfy`, module `BufferErrors`. It holds the exceptions and the checks
  of each bulk transfer, written as an ordered table of (fails?, exception)
  pairs. `FirstFailure` runs such a table. The lemmas classify, for all
  inputs, which exception each transfer raises.
- `windows.dfy`, module `Windows`. It holds specifications on plain
  sequences. `Overwrite` is a copy between distinct arrays. `CopyForward` is
  the same loop run on one array. `SameElements` is element-wise equality.
  `LexCompare` is the lexicographic order. `HashFold` is the 32-bit rolling
  hash. The module also proves lemmas about these.
- `double_buffer.dfy`, module `DoubleBuffers`. It holds the class
  `DoubleBuffer<E>`, with the backing array as an `array<E>`, and the static
  factories. The bulk methods are proved against the specifications above.
  `equals`, `compareTo` and `hashCode` are loops proved against
  `SameElements`, `LexCompare` and `HashFold`.

The element type is a type parameter `E`. The double primitives the class
calls are parameters of the methods that call them, with no particular
semantics assumed:

- `eq: (E, E) -> bool` stands for Java's `==` on two doubles;
- `cmp: (E, E) -> int` stands for `Double.compare`;
- `bits: E -> bv64` stands for `Double.doubleToLongBits`;
- `zero: E` stands for `0.0`, the value a freshly allocated array holds.

Lemmas that need a property of these primitives state it as a `requires`,
for example "`cmp(x, x) == 0`". Java's `==` does not agree with the other two
on doubles: `0.0 == -0.0` is true although `Double.compare(0.0, -0.0)` is 1 and
the two have different bits; `NaN != NaN` although `Double.compare(NaN, NaN)`
is 0. So no lemma assumes that `eq` agrees with `cmp` or with `bits`.

Each bulk transfer returns `Option<Error>`. `None` means the Java method
returned normally; `Some(e)` means it threw `e`. Java's fields `array` and
`start` are `store` and `start` (`array` is a Dafny keyword). `remaining()`,
the cursor fields and `isReadOnly()` belong to classes outside this file, so
they are modelled as plain fields and a `Remaining()` function.

The code, as written, has consequences that the model proves:

- A bulk get rejects `offset == dst.length` even when `length == 0`, so
  `get(new double[0])` always throws IndexOutOfBoundsException
  (`BufferErrors.GetIntoEmptyArrayFails`).
- `put(TDoubleBuffer src)` checks the source offset against the length of
  the source's backing array, not against its limit. So an exhausted source
  whose cursor sits at the end of that array makes the put throw
  IndexOutOfBoundsException instead of copying nothing
  (`BufferErrors.PutFromBufferChecks`).
- When the target of a bulk copy lies ahead of its source in the same array,
  the forward copy re-reads elements it has just written. The target range
  then repeats the first `to - from` source elements
  (`Windows.CopyForwardRepeats`).
- `equals` compares elements with `==`, but `hashCode` hashes their bits. So
  `wrap([0.0]).equals(wrap([-0.0]))` holds while their hash codes are 0 and
  0x80000000 (`Windows.EqualWindowsMayHashApart`,
  `Windows.SignedZerosHashApart`).
- `compareTo` compares elements with `Double.compare`. So two buffers that are
  `equals` may compare as non-zero, for example over `0.0` and `-0.0`
  (`Windows.EqualWindowsMayCompareUnequal`).

## Model

| member | source | states |
|---|---|---|
| `DoubleBuffers.DoubleBuffer.constructor` | teavm-classlib/src/main/java/org/teavm/classlib/java/nio/TDoubleBuffer.java:26-32 | a buffer over the given array with the given start, capacity, position, limit and read-only flag, no mark set, satisfying the cursor invariant |
| `DoubleBuffers.Allocate` | teavm-classlib/src/main/java/org/teavm/classlib/java/nio/TDoubleBuffer.java:34-39 | IllegalArgument exactly when capacity < 0. Otherwise a fresh writable buffer over a fresh array of exactly `capacity` zeros, with start 0, position 0, limit = capacity and remaining = capacity |
| `DoubleBuffers.Wrap` | teavm-classlib/src/main/java/org/teavm/classlib/java/nio/TDoubleBuffer.java:41-43 | a writable buffer over the given array itself (no copy), with start 0, capacity = array length, position = offset, limit = offset + length; its remaining window is `a[offset .. offset + length]` |
| `DoubleBuffers.WrapArray` | teavm-classlib/src/main/java/org/teavm/classlib/java/nio/TDoubleBuffer.java:45-47 | the same fields as `Wrap(a, 0, a.Length)`: the whole array, position 0, limit = length |
| `DoubleBuffers.DoubleBuffer.Array` | teavm-classlib/src/main/java/org/teavm/classlib/java/nio/TDoubleBuffer.java:127-130 | the backing array, long enough to hold the whole window at `arrayOffset()` |
| `DoubleBuffers.DoubleBuffer.ArrayOffset` | teavm-classlib/src/main/java/org/teavm/classlib/java/nio/TDoubleBuffer.java:132-135 | the offset of element 0 in the backing array; offset + capacity fits in the array |
| `DoubleBuffers.DoubleBuffer.Get` | teavm-classlib/src/main/java/org/teavm/classlib/java/nio/TDoubleBuffer.java:63-83 | the exception is the first failing check of `GetChecks`. It succeeds iff 0 <= offset < dst.length, length >= 0, offset + length <= dst.length and length <= remaining. On failure nothing changes. On success position grows by length; for a distinct `dst`, `dst[offset..offset+length)` holds the elements at the old position and the rest of `dst` is unchanged; for `dst` the backing array itself, `dst` is the in-place forward copy. Limit, mark and the buffer's other fields never change |
| `DoubleBuffers.DoubleBuffer.GetAll` | teavm-classlib/src/main/java/org/teavm/classlib/java/nio/TDoubleBuffer.java:85-87 | `Get(dst, 0, dst.length)`: succeeds iff 0 < dst.length <= remaining, and then `dst` holds the next dst.length elements |
| `DoubleBuffers.DoubleBuffer.Put` | teavm-classlib/src/main/java/org/teavm/classlib/java/nio/TDoubleBuffer.java:93-116 | the exception is the first failing check of `PutChecks`. It succeeds iff the buffer is writable, length <= remaining, 0 <= offset < src.length, length >= 0 and offset + length <= src.length. On failure no element is written and position is unchanged. On success, for a distinct `src`, the backing array's `[start+position, start+position+length)` holds `src[offset..offset+length)` and every other element is unchanged; for `src` the backing array itself, the array is the in-place forward copy. Position grows by length |
| `DoubleBuffers.DoubleBuffer.PutAll` | teavm-classlib/src/main/java/org/teavm/classlib/java/nio/TDoubleBuffer.java:118-120 | `Put(src, 0, src.length)`: succeeds iff writable and 0 < src.length <= remaining, and then the whole of `src` is written at the cursor |
| `DoubleBuffers.DoubleBuffer.PutBuffer` | teavm-classlib/src/main/java/org/teavm/classlib/java/nio/TDoubleBuffer.java:89-91 | `Put(src.array, src.start + src.position, src.remaining())`. It succeeds iff writable, src.remaining <= remaining, and the source cursor is not at the end of its backing array. It then writes the source's remaining window at the cursor. The source's position and limit are untouched unless the source is this buffer |
| `DoubleBuffers.Copy` | teavm-classlib/src/main/java/org/teavm/classlib/java/nio/TDoubleBuffer.java:78-80 | the element loop of both bulk transfers (also lines 111-113). Between distinct arrays the target range receives the source range and nothing else changes; within one array the result is `CopyForward`, the sequential in-place copy |
| `DoubleBuffers.PutLeavesDisjointViewAlone` | teavm-classlib/src/main/java/org/teavm/classlib/java/nio/TDoubleBuffer.java:110-115 | a bulk put through one view of a shared array leaves unchanged the remaining elements of another view whose window does not overlap the writer's |
| `DoubleBuffers.DoubleBuffer.Equals` | teavm-classlib/src/main/java/org/teavm/classlib/java/nio/TDoubleBuffer.java:159-180 | true iff `other` is this same object, or is a buffer whose remaining count equals this one's and whose elements are pairwise `eq` to this one's |
| `DoubleBuffers.DoubleBuffer.CompareTo` | teavm-classlib/src/main/java/org/teavm/classlib/java/nio/TDoubleBuffer.java:182-197 | 0 for the same object, otherwise `LexCompare` of the two remaining windows |
| `DoubleBuffers.DoubleBuffer.HashCode` | teavm-classlib/src/main/java/org/teavm/classlib/java/nio/TDoubleBuffer.java:148-157 | the 32-bit rolling hash `HashFold` of the remaining window and of nothing else |
| `BufferErrors.FirstFailureNoneIff` | teavm-classlib/src/main/java/org/teavm/classlib/java/nio/TDoubleBuffer.java:64-76 | a run of checks raises nothing exactly when no check fails |
| `BufferErrors.FirstFailureIsEarliest` | teavm-classlib/src/main/java/org/teavm/classlib/java/nio/TDoubleBuffer.java:94-109 | when several checks fail, the earliest one decides the exception |
| `BufferErrors.FirstFailureHasWitness` | teavm-classlib/src/main/java/org/teavm/classlib/java/nio/TDoubleBuffer.java:94-109 | a raised exception belongs to a failing check with no failing check before it |
| `BufferErrors.GetSucceedsIff` | teavm-classlib/src/main/java/org/teavm/classlib/java/nio/TDoubleBuffer.java:64-76 | a bulk get goes ahead iff 0 <= offset < dst.length, length >= 0, offset + length <= dst.length and length <= remaining |
| `BufferErrors.GetUnderflowIff` | teavm-classlib/src/main/java/org/teavm/classlib/java/nio/TDoubleBuffer.java:64-73 | BufferUnderflow iff the destination range passes both of its checks and remaining < length; a bad destination wins over underflow |
| `BufferErrors.GetIndexOutOfBoundsIff` | teavm-classlib/src/main/java/org/teavm/classlib/java/nio/TDoubleBuffer.java:64-76 | with remaining >= 0, IndexOutOfBounds iff the offset is outside [0, dst.length), the end is beyond dst.length, or the length is negative |
| `BufferErrors.GetIntoEmptyArrayFails` | teavm-classlib/src/main/java/org/teavm/classlib/java/nio/TDoubleBuffer.java:85-87 | `get(new double[0])` throws IndexOutOfBounds whatever the buffer holds |
| `BufferErrors.PutReadOnlyFirst` | teavm-classlib/src/main/java/org/teavm/classlib/java/nio/TDoubleBuffer.java:94-96 | a read-only buffer raises ReadOnlyBuffer for every bulk put, whatever the bounds |
| `BufferErrors.PutOverflowIff` | teavm-classlib/src/main/java/org/teavm/classlib/java/nio/TDoubleBuffer.java:94-99 | BufferOverflow iff the buffer is writable and remaining < length, even when the source range is also malformed |
| `BufferErrors.PutIndexOutOfBoundsIff` | teavm-classlib/src/main/java/org/teavm/classlib/java/nio/TDoubleBuffer.java:100-109 | with remaining >= 0, IndexOutOfBounds iff writable, length <= remaining, and the source range is malformed |
| `BufferErrors.PutSucceedsIff` | teavm-classlib/src/main/java/org/teavm/classlib/java/nio/TDoubleBuffer.java:94-109 | a bulk put goes ahead iff writable, length <= remaining, 0 <= offset < src.length, length >= 0 and offset + length <= src.length |
| `BufferErrors.PutFromBufferChecks` | teavm-classlib/src/main/java/org/teavm/classlib/java/nio/TDoubleBuffer.java:89-91 | for a well-formed source buffer, `put(src)` raises ReadOnlyBuffer, then BufferOverflow if src.remaining > remaining, then IndexOutOfBounds exactly when the source cursor is at the end of its backing array; otherwise it succeeds |
| `Windows.Overwrite` | teavm-classlib/src/main/java/org/teavm/classlib/java/nio/TDoubleBuffer.java:110-113 | a copy into a distinct array keeps the length, puts `s[i]` at `to + i`, and leaves every index outside `[to, to + len)` as it was |
| `Windows.CopyForward` | teavm-classlib/src/main/java/org/teavm/classlib/java/nio/TDoubleBuffer.java:77-80 | the in-place forward copy keeps the length and leaves every index outside the target range as it was |
| `Windows.CopyForwardIsMove` | teavm-classlib/src/main/java/org/teavm/classlib/java/nio/TDoubleBuffer.java:110-113 | when the target does not start after the source inside the copied range, the in-place copy leaves the original source elements in the target range |
| `Windows.CopyForwardRepeats` | teavm-classlib/src/main/java/org/teavm/classlib/java/nio/TDoubleBuffer.java:77-80 | when the target starts d > 0 places after the source, the target range starts with the first d source elements and then repeats with period d |
| `Windows.IntCompare` | teavm-classlib/src/main/java/org/teavm/classlib/java/nio/TDoubleBuffer.java:196 | `Integer.compare`: -1, 0 or 1; 0 iff equal, negative iff less |
| `Windows.LexCompareZeroIff` | teavm-classlib/src/main/java/org/teavm/classlib/java/nio/TDoubleBuffer.java:187-196 | two windows compare as 0 iff they have equal length and every element pair compares as 0 |
| `Windows.LexCompareFirstDifference` | teavm-classlib/src/main/java/org/teavm/classlib/java/nio/TDoubleBuffer.java:190-195 | the result is `cmp` of the first element pair that does not compare as 0 |
| `Windows.LexCompareShorterFirst` | teavm-classlib/src/main/java/org/teavm/classlib/java/nio/TDoubleBuffer.java:196 | a window whose elements tie with a prefix of a longer window sorts first (-1) |
| `Windows.LexCompareReflexive` | teavm-classlib/src/main/java/org/teavm/classlib/java/nio/TDoubleBuffer.java:187-196 | if every element ties with itself, every window ties with itself |
| `Windows.LexCompareAntisymmetric` | teavm-classlib/src/main/java/org/teavm/classlib/java/nio/TDoubleBuffer.java:187-196 | if the element order is antisymmetric in sign, so is the window order |
| `Windows.EqualWindowsMayCompareUnequal` | teavm-classlib/src/main/java/org/teavm/classlib/java/nio/TDoubleBuffer.java:172-196 | any pair that `==` calls equal but `Double.compare` does not, as one-element windows, is equal element-wise yet compares as non-zero |
| `Windows.HashFoldDependsOnBits` | teavm-classlib/src/main/java/org/teavm/classlib/java/nio/TDoubleBuffer.java:152-155 | windows whose elements have pairwise equal bits have equal hashes |
| `Windows.EqualWindowsMayHashApart` | teavm-classlib/src/main/java/org/teavm/classlib/java/nio/TDoubleBuffer.java:148-180 | any pair that `==` calls equal but whose hash steps differ, as one-element windows, is equal element-wise yet hashes differently |
| `Windows.SignedZerosHashApart` | teavm-classlib/src/main/java/org/teavm/classlib/java/nio/TDoubleBuffer.java:154 | the bit patterns of `0.0` and `-0.0` hash to 0 and 0x80000000 |
| `Windows.HashFoldAppend` | teavm-classlib/src/main/java/org/teavm/classlib/java/nio/TDoubleBuffer.java:154 | appending one element multiplies the hash by 31 and adds the element's low and high 32 bits, in 32-bit wrap-around arithmetic; the step the `HashCode` loop takes |
| `Windows.SameElementsSymmetric` | teavm-classlib/src/main/java/org/teavm/classlib/java/nio/TDoubleBuffer.java:168-179 | for a symmetric element test, element-wise equality of two windows is symmetric |

## Left out

- `DoubleBuffers.Wrap`: the source does not check `offset` and `length`
  (line 42). For a range outside the array it builds a buffer whose cursor
  breaks `0 <= position <= limit <= capacity`. The model requires an
  in-range `offset` and `length`, and does not model that broken buffer.
- `DoubleBuffers.DoubleBuffer.constructor`: the source assigns its
  arguments without checking them (lines 26-32). The model requires them to
  satisfy the cursor invariant, which every caller in the model does.
- `DoubleBuffers.DoubleBuffer.Get`: offsets and lengths are mathematical
  integers. The model does not capture Java's 32-bit wrap-around of
  `offset + length` (line 67). When that sum overflows it turns negative, the
  end check passes, and a later check decides the exception.
- `DoubleBuffers.DoubleBuffer.Put`: the same for `offset + length` at line
  103.
- `DoubleBuffers.DoubleBuffer.Equals`: Java's `obj` may be any object. The
  model's `other` is a buffer or `null`, and `null` stands for every object
  that is not a double buffer.
- Null arguments: the parameters of type `array<E>` and `DoubleBuffer<E>`
  cannot be null, so the model has no NullPointerException. In the source
  `get(null, ...)` throws it at line 64, `put((TDoubleBuffer) null)` at line
  90, `compareTo(null)` at line 187, and `put((double[]) null, ...)` at line
  100, after the read-only and overflow checks.
- `DoubleBuffers.DoubleBuffer.HashCode`: returns the 32-bit pattern (`bv32`)
  of Java's `int` result, not its signed value.
- `DoubleBuffers.Allocate`: the constructor of `TDoubleBufferImpl` is not part
  of this model. The buffer it returns follows the documented behaviour of
  `allocate`: a new array of exactly `capacity` zeros, position 0, limit
  `capacity`, no mark, writable.
- IEEE-754 semantics of doubles: `Double.doubleToLongBits`, NaN under `!=`,
  and the order of `Double.compare`. The model leaves them as the
  uninterpreted parameters `bits`, `eq` and `cmp`.
- `toString` (lines 142-146): diagnostic text only.
- `hasArray` (lines 122-125): always true for this class; not a separate
  member.
- `slice`, `duplicate`, `asReadOnlyBuffer`, `compact`, `isDirect` and the
  single-element `get`/`put` (lines 49-61, 137-140): these are abstract here.
  Their bodies live in `TDoubleBufferImpl` and `TBuffer`, which are not part
  of this model.
- The cursor operations of `TBuffer` (`position(int)`, `limit(int)`, `mark`,
  `reset`, `clear`, `flip`, `rewind`) are not part of this model. Their
  invariant is kept as the `Valid()` predicate.
- Concurrency: the class has no synchronisation, and the model is sequential.
