/**
 * The order in which CPython iterates a set of small non-negative ints. Such an int hashes to
 * itself, so each element sits in its own slot of the table and iteration visits the elements
 * in increasing order.
 */
module SetOrder {

  /** Strictly increasing, so free of repetitions. */
  predicate Increasing(r: seq<nat>) {
    forall i, j :: 0 <= i < j < |r| ==> r[i] < r[j]
  }

  /** The elements of `s` below `n`, in increasing order. */
  function Below(s: set<nat>, n: nat): (r: seq<nat>)
    ensures Increasing(r)
    ensures forall x :: x in r <==> x in s && x < n
    ensures forall i :: 0 <= i < |r| ==> r[i] < n
  {
    if n == 0 then []
    else if n - 1 in s then Below(s, n - 1) + [n - 1]
    else Below(s, n - 1)
  }

  /** Sets that agree below `n` list the same elements below `n`. */
  lemma {:induction false} BelowAgree(s: set<nat>, t: set<nat>, n: nat)
    requires forall x :: x < n ==> (x in s <==> x in t)
    ensures Below(s, n) == Below(t, n)
  {
    if n > 0 {
      BelowAgree(s, t, n - 1);
    }
  }

  /** Every element of `s` lies below `n`. */
  predicate Bounded(s: set<nat>, n: nat) {
    forall x :: x in s ==> x < n
  }

  lemma DropTop(s: set<nat>, n: nat)
    requires n > 0 && Bounded(s, n)
    ensures n - 1 in s ==> Bounded(s - {n - 1}, n - 1) && |s - {n - 1}| == |s| - 1
    ensures n - 1 !in s ==> Bounded(s, n - 1)
  {
  }

  lemma NothingBelowZero(s: set<nat>)
    requires Bounded(s, 0)
    ensures s == {}
  {
  }

  /** When every element lies below `n`, all of them are listed. */
  lemma {:induction false} BelowCount(s: set<nat>, n: nat)
    requires Bounded(s, n)
    ensures |Below(s, n)| == |s|
  {
    if n == 0 {
      NothingBelowZero(s);
    } else {
      DropTop(s, n);
      if n - 1 in s {
        var rest := s - {n - 1};
        BelowAgree(s, rest, n - 1);
        BelowCount(rest, n - 1);
      } else {
        BelowCount(s, n - 1);
      }
    }
  }

  /**
   * `list(s)` or `for x in s` over a set of ints below `n`: every element exactly once, in
   * increasing order.
   */
  function Ascending(s: set<nat>, n: nat): (r: seq<nat>)
    requires Bounded(s, n)
    ensures |r| == |s| && Increasing(r)
    ensures forall x :: x in r <==> x in s
  {
    BelowCount(s, n);
    Below(s, n)
  }
}
