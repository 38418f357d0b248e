/** Specifications on plain sequences for what a buffer does to its window:
    the in-order element copy of the bulk transfers, the element-wise
    equality of `equals`, the lexicographic order of `compareTo` and the
    rolling hash of `hashCode`.

    The element type is a parameter. The three primitive operations on
    doubles that the buffer calls are parameters too: `eq` stands for Java's
    `==` on two doubles, `cmp` for `Double.compare`, `bits` for
    `Double.doubleToLongBits`. No property of them is assumed; in particular
    Java's `==` does not agree with either of the other two on doubles. */
module Windows {

  // ---------------------------------------------------------------------
  // Copying

  /** `d` with the elements from index `to` onward replaced by `s`: what a
      copy of `s` into position `to` leaves behind when source and target are
      different arrays. */
  function Overwrite<E>(d: seq<E>, to: int, s: seq<E>): (r: seq<E>)
    requires 0 <= to && to + |s| <= |d|
    ensures |r| == |d|
    ensures forall i :: 0 <= i < |s| ==> r[to + i] == s[i]
    ensures forall j :: 0 <= j < |d| && !(to <= j < to + |s|) ==> r[j] == d[j]
  {
    d[..to] + s + d[to + |s|..]
  }

  /** Copying one more element extends the overwritten range by one. */
  lemma OverwriteExtend<E>(d: seq<E>, to: int, s: seq<E>, x: E)
    requires 0 <= to && to + |s| < |d|
    ensures Overwrite(d, to, s)[to + |s| := x] == Overwrite(d, to, s + [x])
  {
  }

  /** The state of one storage block after the first `n` steps of the loop
      `for i in 0..n: s[to + i] := s[from + i]`, run in increasing `i` on the
      block itself. This is what the bulk transfers do when their source and
      target are the same array. */
  function CopyForward<E>(s: seq<E>, from: int, to: int, n: nat): (r: seq<E>)
    requires 0 <= from && from + n <= |s| && 0 <= to && to + n <= |s|
    ensures |r| == |s|
    ensures forall j :: 0 <= j < |s| && !(to <= j < to + n) ==> r[j] == s[j]
  {
    if n == 0 then s
    else
      var p := CopyForward(s, from, to, n - 1);
      p[to + n - 1 := p[from + n - 1]]
  }

  /** When the target does not start after the source inside the copied
      range, the forward copy is a true move: the target range ends up holding
      the original source range (and, by the contract of CopyForward, nothing
      else changes). */
  lemma {:induction false} CopyForwardIsMove<E>(s: seq<E>, from: int, to: int, n: nat)
    requires 0 <= from && from + n <= |s| && 0 <= to && to + n <= |s|
    requires to <= from || from + n <= to
    ensures forall j :: to <= j < to + n ==> CopyForward(s, from, to, n)[j] == s[from + (j - to)]
  {
    if n > 0 {
      CopyForwardIsMove(s, from, to, n - 1);
      var p := CopyForward(s, from, to, n - 1);
      assert CopyForward(s, from, to, n) == p[to + n - 1 := p[from + n - 1]];
      assert p[from + n - 1] == s[from + n - 1];
    }
  }

  /** When the target starts `d` places after the source, each copied element
      may be read after it has already been overwritten: the target range
      begins with the first `d` source elements and then repeats itself with
      period `d`. */
  lemma {:induction false} CopyForwardRepeats<E>(s: seq<E>, from: int, to: int, n: nat)
    requires 0 <= from < to && to + n <= |s|
    ensures forall j :: to <= j < to + n && j < to + (to - from) ==> CopyForward(s, from, to, n)[j] == s[j - (to - from)]
    ensures forall j :: to + (to - from) <= j < to + n ==> CopyForward(s, from, to, n)[j] == CopyForward(s, from, to, n)[j - (to - from)]
  {
    if n > 0 {
      CopyForwardRepeats(s, from, to, n - 1);
      var p := CopyForward(s, from, to, n - 1);
      assert CopyForward(s, from, to, n) == p[to + n - 1 := p[from + n - 1]];
    }
  }

  // ---------------------------------------------------------------------
  // Equality

  /** Same length, and the elements are pairwise `eq`. */
  predicate SameElements<E>(s: seq<E>, t: seq<E>, eq: (E, E) -> bool)
  {
    |s| == |t| && forall i :: 0 <= i < |s| ==> eq(s[i], t[i])
  }

  /** A symmetric element test gives a symmetric window test; Java's `==` on
      doubles is symmetric, NaN included. */
  lemma SameElementsSymmetric<E>(s: seq<E>, t: seq<E>, eq: (E, E) -> bool)
    requires forall x, y :: eq(x, y) == eq(y, x)
    ensures SameElements(s, t, eq) == SameElements(t, s, eq)
  {
  }

  // ---------------------------------------------------------------------
  // Ordering

  /** `Integer.compare`. */
  function IntCompare(x: int, y: int): (r: int)
    ensures r == 0 <==> x == y
    ensures r < 0 <==> x < y
    ensures -1 <= r <= 1
  {
    if x < y then -1 else if x == y then 0 else 1
  }

  function Sign(x: int): int
  {
    if x < 0 then -1 else if x == 0 then 0 else 1
  }

  /** The lexicographic comparison of two windows: the first `cmp` result
      that is not zero, or, when one window is a prefix of the other, the
      comparison of their lengths. */
  function LexCompare<E>(s: seq<E>, t: seq<E>, cmp: (E, E) -> int): int
  {
    if s == [] || t == [] then IntCompare(|s|, |t|)
    else if cmp(s[0], t[0]) != 0 then cmp(s[0], t[0])
    else LexCompare(s[1..], t[1..], cmp)
  }

  /** Two windows compare as 0 exactly when they have the same length and
      every pair of elements compares as 0. */
  lemma {:induction false} LexCompareZeroIff<E>(s: seq<E>, t: seq<E>, cmp: (E, E) -> int)
    ensures LexCompare(s, t, cmp) == 0
        <==> |s| == |t| && forall i :: 0 <= i < |s| ==> cmp(s[i], t[i]) == 0
  {
    if s != [] && t != [] && cmp(s[0], t[0]) == 0 {
      LexCompareZeroIff(s[1..], t[1..], cmp);
      assert forall i :: 1 <= i < |s| && i < |t| ==> s[i] == s[1..][i - 1] && t[i] == t[1..][i - 1];
    }
  }

  /** The result is decided by the first position whose elements do not
      compare as 0. */
  lemma {:induction false} LexCompareFirstDifference<E>(s: seq<E>, t: seq<E>, cmp: (E, E) -> int, k: nat)
    requires k < |s| && k < |t|
    requires forall j :: 0 <= j < k ==> cmp(s[j], t[j]) == 0
    requires cmp(s[k], t[k]) != 0
    ensures LexCompare(s, t, cmp) == cmp(s[k], t[k])
  {
    if k > 0 {
      assert forall j :: 0 <= j < k - 1 ==> s[1..][j] == s[j + 1] && t[1..][j] == t[j + 1];
      LexCompareFirstDifference(s[1..], t[1..], cmp, k - 1);
    }
  }

  /** When the elements of a proper prefix tie with the longer window, the
      shorter window sorts first. */
  lemma {:induction false} LexCompareShorterFirst<E>(s: seq<E>, t: seq<E>, cmp: (E, E) -> int)
    requires |s| < |t|
    requires forall i :: 0 <= i < |s| ==> cmp(s[i], t[i]) == 0
    ensures LexCompare(s, t, cmp) == -1
  {
    if s != [] {
      assert forall i :: 0 <= i < |s| - 1 ==> s[1..][i] == s[i + 1] && t[1..][i] == t[i + 1];
      LexCompareShorterFirst(s[1..], t[1..], cmp);
    }
  }

  /** An element order in which every element ties with itself gives a
      window order in which every window ties with itself. */
  lemma {:induction false} LexCompareReflexive<E>(s: seq<E>, cmp: (E, E) -> int)
    requires forall x :: cmp(x, x) == 0
    ensures LexCompare(s, s, cmp) == 0
  {
    if s != [] {
      LexCompareReflexive(s[1..], cmp);
    }
  }

  /** An antisymmetric element order gives an antisymmetric window order. */
  lemma {:induction false} LexCompareAntisymmetric<E>(s: seq<E>, t: seq<E>, cmp: (E, E) -> int)
    requires forall x, y :: Sign(cmp(x, y)) == -Sign(cmp(y, x))
    ensures Sign(LexCompare(s, t, cmp)) == -Sign(LexCompare(t, s, cmp))
  {
    if s != [] && t != [] {
      assert Sign(cmp(s[0], t[0])) == -Sign(cmp(t[0], s[0]));
      if cmp(s[0], t[0]) == 0 {
        LexCompareAntisymmetric(s[1..], t[1..], cmp);
      }
    }
  }

  /** `compareTo` is not consistent with `equals` as written: `equals` tests
      elements with `==`, `compareTo` with `Double.compare`, and the two
      disagree on doubles (`0.0 == -0.0` although `Double.compare(0.0, -0.0)`
      is 1; `Double.compare(NaN, NaN)` is 0 although `NaN != NaN`). Any such
      pair, as a one-element window, gives two windows that are equal element
      by element but do not compare as 0. */
  lemma EqualWindowsMayCompareUnequal<E>(x: E, y: E, cmp: (E, E) -> int, eq: (E, E) -> bool)
    requires eq(x, y) && cmp(x, y) != 0
    ensures SameElements([x], [y], eq) && LexCompare([x], [y], cmp) != 0
  {
  }

  // ---------------------------------------------------------------------
  // Hashing, in Java's 32-bit two's-complement arithmetic

  /** `(int) e`: the low 32 bits of a long. */
  function Lo(e: bv64): bv32
  {
    (e & 0xFFFF_FFFF) as bv32
  }

  /** `(int) (e >>> 32)`: the high 32 bits of a long. */
  function Hi(e: bv64): bv32
  {
    (e >> 32) as bv32
  }

  /** One step of the rolling hash: `31 * h + (int) e + (int) (e >>> 32)`. */
  function HashStep(h: bv32, e: bv64): bv32
  {
    31 * h + Lo(e) + Hi(e)
  }

  /** The rolling hash `h := 31 * h + lo + hi` over the window, left to right,
      starting from 0. */
  function HashFold<E>(s: seq<E>, bits: E -> bv64): bv32
  {
    if s == [] then 0
    else
      HashStep(HashFold(s[..|s| - 1], bits), bits(s[|s| - 1]))
  }

  /** The hash sees an element only through its bits. */
  lemma {:induction false} HashFoldDependsOnBits<E>(s: seq<E>, t: seq<E>, bits: E -> bv64)
    requires |s| == |t|
    requires forall i :: 0 <= i < |s| ==> bits(s[i]) == bits(t[i])
    ensures HashFold(s, bits) == HashFold(t, bits)
  {
    if s != [] {
      HashFoldDependsOnBits(s[..|s| - 1], t[..|t| - 1], bits);
    }
  }

  /** `hashCode` is not consistent with `equals` as written: `equals` tests
      elements with `==`, `hashCode` hashes `Double.doubleToLongBits`, and
      `0.0 == -0.0` although their bits differ. Any `eq` pair whose single
      hash steps differ gives two windows that are equal element by element
      but hash differently. */
  lemma EqualWindowsMayHashApart<E>(x: E, y: E, eq: (E, E) -> bool, bits: E -> bv64)
    requires eq(x, y) && HashStep(0, bits(x)) != HashStep(0, bits(y))
    ensures SameElements([x], [y], eq) && HashFold([x], bits) != HashFold([y], bits)
  {
    assert [x][..0] == [] && [y][..0] == [];
  }

  /** The two zeros: the bits of `0.0` hash to 0, those of `-0.0`
      (`0x8000_0000_0000_0000`) to `0x8000_0000`. */
  lemma SignedZerosHashApart()
    ensures HashFold([0x0 as bv64], (b: bv64) => b) == 0
    ensures HashFold([0x8000_0000_0000_0000 as bv64], (b: bv64) => b) == 0x8000_0000
  {
    assert [0x0 as bv64][..0] == [];
    assert [0x8000_0000_0000_0000 as bv64][..0] == [];
  }

  /** One more element multiplies the hash so far by 31 and adds the two
      halves of the element's bits. */
  lemma HashFoldAppend<E>(s: seq<E>, x: E, bits: E -> bv64)
    ensures HashFold(s + [x], bits) == HashStep(HashFold(s, bits), bits(x))
  {
  }
}
