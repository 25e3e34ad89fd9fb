/**
 * Words of flags modelled as the set of their bit positions, and the
 * find-first-set scan that several loops use: `w & ~m` is `w - m`,
 * ffsl(w) - 1 is the least element, ~0 is every position.
 */
module BitSet {
  const BITS_PER_LONG: nat := 64

  predicate WordOk(w: set<nat>)
  {
    forall b | b in w :: b < BITS_PER_LONG
  }

  /** The numbers from lo up to, not including, hi. */
  function Span(lo: nat, hi: nat): (r: set<nat>)
    ensures forall i :: i in r <==> lo <= i < hi
    decreases hi
  {
    if hi <= lo then {} else Span(lo, hi - 1) + {hi - 1}
  }

  /** ~0ul. */
  function AllBits(): (w: set<nat>)
    ensures WordOk(w) && forall b | 0 <= b < BITS_PER_LONG :: b in w
  {
    Span(0, BITS_PER_LONG)
  }

  /** ffsl(s) - 1 searched from bit i: the least set bit at or above i. */
  function Lowest(s: set<nat>, i: nat): (r: nat)
    requires i <= BITS_PER_LONG && exists x :: x in s && i <= x < BITS_PER_LONG
    ensures r in s && i <= r < BITS_PER_LONG
    ensures forall x | x in s && i <= x :: r <= x
    decreases BITS_PER_LONG - i
  {
    if i in s then i
    else
      assert exists x :: x in s && i + 1 <= x < BITS_PER_LONG;
      Lowest(s, i + 1)
  }

  /**
   * One step of an ffsl loop: `rest` holds the elements of `all` from lo
   * up; taking its lowest element l skips nothing of `all` below l and
   * leaves the elements from l + 1 up.
   */
  lemma LowestStep(all: set<nat>, rest: set<nat>, lo: nat, l: nat)
    requires forall y :: y in rest <==> y in all && lo <= y
    requires l in rest && forall x | x in rest :: l <= x
    ensures lo <= l
    ensures forall x | lo <= x < l :: x !in all
    ensures forall y :: y in rest - {l} <==> y in all && l + 1 <= y
  {
  }

  /** The elements of s below n, in ascending order. */
  function Below(s: set<nat>, n: nat): (r: seq<nat>)
    ensures forall k | 0 <= k < |r| :: r[k] < n
  {
    if n == 0 then [] else Below(s, n - 1) + (if n - 1 in s then [n - 1] else [])
  }

  /** Below(s, n) lists exactly the elements of s below n, strictly ascending. */
  lemma {:induction false} BelowSpec(s: set<nat>, n: nat)
    ensures forall x :: x in Below(s, n) <==> x in s && x < n
    ensures forall j, k | 0 <= j < k < |Below(s, n)| :: Below(s, n)[j] < Below(s, n)[k]
  {
    if n > 0 {
      BelowSpec(s, n - 1);
    }
  }

  /** Positions of s between lo and hi add nothing when s has none there. */
  lemma {:induction false} BelowSkip(s: set<nat>, lo: nat, hi: nat)
    requires lo <= hi
    requires forall x | lo <= x < hi :: x !in s
    ensures Below(s, hi) == Below(s, lo)
    decreases hi - lo
  {
    if lo < hi {
      BelowSkip(s, lo, hi - 1);
    }
  }

  lemma {:induction false} BelowEmpty(n: nat)
    ensures Below({}, n) == []
  {
    if n > 0 {
      BelowEmpty(n - 1);
    }
  }

  /** Taking the lowest element at or above lo extends the ordered prefix by that element. */
  lemma BelowNext(s: set<nat>, lo: nat, x: nat)
    requires lo <= x && x in s
    requires forall y | lo <= y < x :: y !in s
    ensures Below(s, x + 1) == Below(s, lo) + [x]
  {
    BelowSkip(s, lo, x);
  }
}
