/** The array-backed double buffer: a window `[start, start + capacity)` onto
    a backing store that other buffers may share, with the cursor fields
    `position`, `limit` and `mark`, a read-only flag, bulk transfers that copy
    in place through the shared store, and value semantics (`equals`,
    `compareTo`, `hashCode`) over the remaining elements. */
module DoubleBuffers {
  import opened BufferErrors
  import opened Windows

  class DoubleBuffer<E> {
    /** Index in `store` of the buffer's element 0, and the backing store.
        Both are fixed at construction; `store` (Java's field `array`) may be shared with other
        buffers and with the code that wrapped it. */
    const start: int
    const store: array<E>
    /** The number of elements the buffer addresses; fixed at construction. */
    const capacity: int
    /** The cursor. `mark` is -1 when no mark is set. */
    var position: int
    var limit: int
    var mark: int
    /** Whether the buffer refuses writes; fixed per buffer. */
    const readOnly: bool

    /** The invariant every buffer keeps. */
    ghost predicate Valid()
      reads this
    {
      && 0 <= start && 0 <= capacity && start + capacity <= store.Length
      && 0 <= position <= limit <= capacity
      && (mark == -1 || 0 <= mark <= position)
    }

    /** `remaining()`. */
    function Remaining(): int
      reads this
    {
      limit - position
    }

    /** The remaining elements `[position, limit)`, read from the backing
        store; every value operation looks at these and nothing else. */
    ghost function Window(): seq<E>
      reads this, store
      requires Valid()
    {
      store[start + position .. start + limit]
    }

    constructor (start: int, capacity: int, store: array<E>, position: int, limit: int, readOnly: bool)
      requires 0 <= start && 0 <= capacity && start + capacity <= store.Length
      requires 0 <= position <= limit <= capacity
      ensures Valid()
      ensures this.start == start && this.capacity == capacity && this.store == store
      ensures this.position == position && this.limit == limit && this.readOnly == readOnly
      ensures mark == -1
    {
      this.start := start;
      this.capacity := capacity;
      this.store := store;
      this.position := position;
      this.limit := limit;
      this.mark := -1;
      this.readOnly := readOnly;
    }

    /** `array()`: the backing store itself, large enough to hold the whole
        window at `arrayOffset()`. */
    function Array(): (r: array<E>)
      reads this
      requires Valid()
      ensures ArrayOffset() + capacity <= r.Length
    {
      store
    }

    /** `arrayOffset()`: where the buffer's element 0 sits in `array()`. */
    function ArrayOffset(): (r: int)
      reads this
      requires Valid()
      ensures 0 <= r && r + capacity <= store.Length
    {
      start
    }

    /** Bulk `get(dst, offset, length)`: copies `length` elements from the
        cursor into `dst` from `offset`, in increasing order, and advances the
        cursor. `dst` may be the backing store itself. */
    method Get(dst: array<E>, offset: int, length: int) returns (err: Option<Error>)
      requires Valid()
      modifies this`position, dst
      ensures Valid()
      ensures err == FirstFailure(GetChecks(dst.Length, offset, length, old(Remaining())))
      ensures err.None? <==> 0 <= offset < dst.Length && 0 <= length && offset + length <= dst.Length
                             && length <= old(Remaining())
      ensures err.Some? ==> position == old(position) && dst[..] == old(dst[..])
      ensures err.None? ==> position == old(position) + length
      ensures err.None? && dst != store ==>
                dst[..] == Overwrite(old(dst[..]), offset, old(store[start + position .. start + position + length]))
      ensures err.None? && dst == store ==>
                dst[..] == CopyForward(old(store[..]), start + old(position), offset, length)
    {
      ghost var checks := GetChecks(dst.Length, offset, length, Remaining());
      GetSucceedsIff(dst.Length, offset, length, Remaining());
      if offset < 0 || offset >= dst.Length {
        FirstFailureIsEarliest(checks, 0);
        return Some(IndexOutOfBounds);
      }
      if offset + length > dst.Length {
        FirstFailureIsEarliest(checks, 1);
        return Some(IndexOutOfBounds);
      }
      if Remaining() < length {
        FirstFailureIsEarliest(checks, 2);
        return Some(BufferUnderflow);
      }
      if length < 0 {
        FirstFailureIsEarliest(checks, 3);
        return Some(IndexOutOfBounds);
      }
      Copy(store, position + start, dst, offset, length);
      position := position + length;
      return None;
    }

    /** `get(dst)`: the bulk get of all of `dst`. */
    method GetAll(dst: array<E>) returns (err: Option<Error>)
      requires Valid()
      modifies this`position, dst
      ensures Valid()
      ensures err == FirstFailure(GetChecks(dst.Length, 0, dst.Length, old(Remaining())))
      ensures err.None? <==> 0 < dst.Length <= old(Remaining())
      ensures err.Some? ==> position == old(position) && dst[..] == old(dst[..])
      ensures err.None? ==> position == old(position) + dst.Length
      ensures err.None? && dst != store ==>
                dst[..] == old(store[start + position .. start + position + dst.Length])
      ensures err.None? && dst == store ==>
                dst[..] == CopyForward(old(store[..]), start + old(position), 0, dst.Length)
    {
      err := Get(dst, 0, dst.Length);
    }

    /** Bulk `put(src, offset, length)`: copies `length` elements of `src`
        from `offset` into the buffer at the cursor, in increasing order, and
        advances the cursor. `src` may be the backing store itself. */
    method Put(src: array<E>, offset: int, length: int) returns (err: Option<Error>)
      requires Valid()
      modifies this`position, store
      ensures Valid()
      ensures err == FirstFailure(PutChecks(readOnly, old(Remaining()), src.Length, offset, length))
      ensures err.None? <==> !readOnly && length <= old(Remaining()) && 0 <= offset < src.Length
                             && 0 <= length && offset + length <= src.Length
      ensures err.Some? ==> position == old(position) && store[..] == old(store[..])
      ensures err.None? ==> position == old(position) + length
      ensures err.None? && src != store ==>
                store[..] == Overwrite(old(store[..]), start + old(position), old(src[offset .. offset + length]))
      ensures err.None? && src == store ==>
                store[..] == CopyForward(old(store[..]), offset, start + old(position), length)
    {
      ghost var checks := PutChecks(readOnly, Remaining(), src.Length, offset, length);
      PutSucceedsIff(readOnly, Remaining(), src.Length, offset, length);
      if readOnly {
        FirstFailureIsEarliest(checks, 0);
        return Some(ReadOnlyBuffer);
      }
      if Remaining() < length {
        FirstFailureIsEarliest(checks, 1);
        return Some(BufferOverflow);
      }
      if offset < 0 || offset >= src.Length {
        FirstFailureIsEarliest(checks, 2);
        return Some(IndexOutOfBounds);
      }
      if offset + length > src.Length {
        FirstFailureIsEarliest(checks, 3);
        return Some(IndexOutOfBounds);
      }
      if length < 0 {
        FirstFailureIsEarliest(checks, 4);
        return Some(IndexOutOfBounds);
      }
      Copy(src, offset, store, position + start, length);
      position := position + length;
      return None;
    }

    /** `put(src)`: the bulk put of all of `src`. */
    method PutAll(src: array<E>) returns (err: Option<Error>)
      requires Valid()
      modifies this`position, store
      ensures Valid()
      ensures err == FirstFailure(PutChecks(readOnly, old(Remaining()), src.Length, 0, src.Length))
      ensures err.None? <==> !readOnly && 0 < src.Length <= old(Remaining())
      ensures err.Some? ==> position == old(position) && store[..] == old(store[..])
      ensures err.None? ==> position == old(position) + src.Length
      ensures err.None? && src != store ==>
                store[..] == Overwrite(old(store[..]), start + old(position), old(src[..]))
      ensures err.None? && src == store ==>
                store[..] == CopyForward(old(store[..]), 0, start + old(position), src.Length)
    {
      err := Put(src, 0, src.Length);
    }

    /** `put(TDoubleBuffer src)`: the bulk put of the other buffer's remaining
        elements, addressed in its backing store. The other buffer's cursor is
        left where it was (unless it is this very buffer). */
    method PutBuffer(src: DoubleBuffer<E>) returns (err: Option<Error>)
      requires Valid() && src.Valid()
      modifies this`position, store
      ensures Valid()
      ensures err == FirstFailure(PutChecks(readOnly, old(Remaining()), src.store.Length,
                                            src.start + old(src.position), old(src.Remaining())))
      ensures err.None? <==> !readOnly && old(src.Remaining()) <= old(Remaining())
                             && src.start + old(src.position) < src.store.Length
      ensures src != this ==> src.position == old(src.position) && src.limit == old(src.limit)
      ensures err.Some? ==> position == old(position) && store[..] == old(store[..])
      ensures err.None? ==> position == old(position) + old(src.Remaining())
      ensures err.None? && src.store != store ==>
                store[..] == Overwrite(old(store[..]), start + old(position), old(src.Window()))
      ensures err.None? && src.store == store ==>
                store[..] == CopyForward(old(store[..]), src.start + old(src.position), start + old(position),
                                         old(src.Remaining()))
    {
      err := Put(src.store, src.start + src.position, src.Remaining());
    }

    /** `equals(obj)`: the same object, or another buffer whose remaining
        elements are pairwise `eq` to this one's. `null` stands for an `obj`
        that is not a double buffer. */
    method Equals(other: DoubleBuffer?<E>, eq: (E, E) -> bool) returns (r: bool)
      requires Valid() && (other != null ==> other.Valid())
      ensures r == (this == other || (other != null && SameElements(Window(), other.Window(), eq)))
    {
      if this == other {
        return true;
      }
      if other == null {
        return false;
      }
      var sz := Remaining();
      if sz != other.Remaining() {
        return false;
      }
      var a := position + start;
      var b := other.position + other.start;
      var i := 0;
      while i < sz
        invariant 0 <= i <= sz
        invariant a == start + position + i && b == other.start + other.position + i
        invariant forall j :: 0 <= j < i ==> eq(Window()[j], other.Window()[j])
      {
        if !eq(store[a], other.store[b]) {
          return false;
        }
        a := a + 1;
        b := b + 1;
        i := i + 1;
      }
      return true;
    }

    /** `compareTo(other)`: 0 for the same object, otherwise the
        lexicographic comparison of the two remaining windows under `cmp`. */
    method CompareTo(other: DoubleBuffer<E>, cmp: (E, E) -> int) returns (r: int)
      requires Valid() && other.Valid()
      ensures r == if this == other then 0 else LexCompare(Window(), other.Window(), cmp)
    {
      if this == other {
        return 0;
      }
      ghost var w, v := Window(), other.Window();
      var sz := if Remaining() < other.Remaining() then Remaining() else other.Remaining();
      var a := position + start;
      var b := other.position + other.start;
      var i := 0;
      while i < sz
        invariant 0 <= i <= sz
        invariant a == start + position + i && b == other.start + other.position + i
        invariant LexCompare(w[i..], v[i..], cmp) == LexCompare(w, v, cmp)
      {
        var c := cmp(store[a], other.store[b]);
        if c != 0 {
          return c;
        }
        assert w[i..][1..] == w[i + 1..] && v[i..][1..] == v[i + 1..];
        a := a + 1;
        b := b + 1;
        i := i + 1;
      }
      return IntCompare(Remaining(), other.Remaining());
    }

    /** `hashCode()`: the rolling hash of the remaining window, as the bit
        pattern of Java's 32-bit result. */
    method HashCode(bits: E -> bv64) returns (h: bv32)
      requires Valid()
      ensures h == HashFold(Window(), bits)
    {
      h := 0;
      var pos := position + start;
      var i := position;
      while i < limit
        invariant position <= i <= limit
        invariant pos == start + i
        invariant h == HashFold(Window()[..i - position], bits)
      {
        var e := bits(store[pos]);
        pos := pos + 1;
        assert Window()[..i + 1 - position] == Window()[..i - position] + [store[pos - 1]];
        HashFoldAppend(Window()[..i - position], store[pos - 1], bits);
        h := HashStep(h, e);
        i := i + 1;
      }
      assert Window()[..limit - position] == Window();
    }
  }

  /** Two views of one backing array whose windows do not overlap do not
      interfere: a bulk put through one leaves the other's remaining elements
      as they were. */
  method PutLeavesDisjointViewAlone<E>(a: DoubleBuffer<E>, b: DoubleBuffer<E>, src: array<E>, offset: int, length: int)
      returns (err: Option<Error>)
    requires a.Valid() && b.Valid() && a != b && a.store == b.store
    requires a.start + a.limit <= b.start + b.position || b.start + b.limit <= a.start + a.position
    modifies a`position, a.store
    ensures b.Valid() && b.Window() == old(b.Window())
  {
    err := a.Put(src, offset, length);
  }

  /** The element loop of both bulk transfers: `dst[to + i] := src[from + i]`
      for `i` = 0, 1, ..., n - 1, in that order. When `src` and `dst` are the
      same array each step sees the writes of the steps before it. */
  method Copy<E>(src: array<E>, from: int, dst: array<E>, to: int, n: int)
    requires 0 <= n && 0 <= from && from + n <= src.Length && 0 <= to && to + n <= dst.Length
    modifies dst
    ensures src != dst ==> dst[..] == Overwrite(old(dst[..]), to, old(src[from .. from + n]))
    ensures src == dst ==> dst[..] == CopyForward(old(dst[..]), from, to, n)
  {
    ghost var s0, d0 := src[..], dst[..];
    var pos := from;
    var off := to;
    var i := 0;
    while i < n
      invariant 0 <= i <= n
      invariant pos == from + i && off == to + i
      invariant src != dst ==> src[..] == s0 && dst[..] == Overwrite(d0, to, s0[from .. from + i])
      invariant src == dst ==> dst[..] == CopyForward(d0, from, to, i)
    {
      ghost var before := dst[..];
      var x := src[pos];
      dst[off] := x;
      assert dst[..] == before[off := x];
      if src != dst {
        assert s0[from .. from + i + 1] == s0[from .. from + i] + [x];
        OverwriteExtend(d0, to, s0[from .. from + i], x);
      }
      off := off + 1;
      pos := pos + 1;
      i := i + 1;
    }
  }

  /** `allocate(capacity)`: a fresh writable buffer over a new store of
      exactly `capacity` elements, all `zero` (Java's 0.0), or
      IllegalArgument for a negative capacity. */
  method Allocate<E>(capacity: int, zero: E) returns (r: Result<DoubleBuffer<E>>)
    ensures r.Err? <==> capacity < 0
    ensures r.Err? ==> r.error == IllegalArgument
    ensures r.Ok? ==> && fresh(r.value) && fresh(r.value.store) && r.value.Valid()
                      && r.value.start == 0 && r.value.capacity == capacity
                      && r.value.store.Length == capacity
                      && r.value.position == 0 && r.value.limit == capacity && r.value.mark == -1
                      && !r.value.readOnly
                      && r.value.Remaining() == capacity
                      && forall i :: 0 <= i < capacity ==> r.value.store[i] == zero
  {
    if capacity < 0 {
      return Err(IllegalArgument);
    }
    var a := new E[capacity](_ => zero);
    var b := new DoubleBuffer(0, capacity, a, 0, capacity, false);
    return Ok(b);
  }

  /** `wrap(store, offset, length)`: a writable buffer over `a` itself, no
      copy, whose capacity is the whole store and whose remaining window is
      `a[offset .. offset + length]`. */
  method Wrap<E>(a: array<E>, offset: int, length: int) returns (b: DoubleBuffer<E>)
    requires 0 <= offset && 0 <= length && offset + length <= a.Length
    ensures fresh(b) && b.Valid()
    ensures b.store == a && b.start == 0 && b.capacity == a.Length
    ensures b.position == offset && b.limit == offset + length && b.mark == -1 && !b.readOnly
    ensures b.Window() == a[offset .. offset + length]
  {
    b := new DoubleBuffer(0, a.Length, a, offset, offset + length, false);
  }

  /** `wrap(store)`: the same as `wrap(store, 0, store.length)`. */
  method WrapArray<E>(a: array<E>) returns (b: DoubleBuffer<E>)
    ensures fresh(b) && b.Valid()
    ensures b.store == a && b.start == 0 && b.capacity == a.Length
    ensures b.position == 0 && b.limit == a.Length && b.mark == -1 && !b.readOnly
    ensures b.Window() == a[..]
  {
    b := Wrap(a, 0, a.Length);
  }
}
