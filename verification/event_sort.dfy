/**
 * `ordered_shape_pairs.sort(key=lambda x: x[1])` in sort_and_sweep (broad_phase.py): Python's
 * list sort is stable, so events with equal bounds keep their relative order. The sort is
 * modelled as an insertion sort and proved to be the one arrangement that is ordered by bound
 * and keeps every group of equal bounds in its original order.
 */
module EventSort {
  import opened SweepEvents

  /** Bounds never decrease along the list. */
  predicate SortedByX(evs: seq<Event>) {
    forall i, j :: 0 <= i < j < |evs| ==> evs[i].x <= evs[j].x
  }

  /** The events of `evs` whose bound is `x`, in their order in `evs`. */
  function WithX(evs: seq<Event>, x: int): (r: seq<Event>)
    ensures forall e :: e in r <==> e in evs && e.x == x
  {
    if |evs| == 0 then []
    else
      var last := evs[|evs| - 1];
      WithX(evs[..|evs| - 1], x) + (if last.x == x then [last] else [])
  }

  lemma {:induction false} WithXSnoc(evs: seq<Event>, e: Event, x: int)
    ensures WithX(evs + [e], x) == WithX(evs, x) + (if e.x == x then [e] else [])
  {
    assert (evs + [e])[..|evs|] == evs;
  }

  /**
   * Places `e` after every event of the sorted `evs` whose bound is at most e.x: the new event
   * goes behind the events with its bound that came before it.
   */
  function Insert(evs: seq<Event>, e: Event): (r: seq<Event>)
    requires SortedByX(evs)
    ensures SortedByX(r)
    ensures multiset(r) == multiset(evs) + multiset{e}
    ensures forall x :: WithX(r, x) == WithX(evs, x) + (if e.x == x then [e] else [])
  {
    if |evs| == 0 || evs[|evs| - 1].x <= e.x then
      WithXExtend(evs, e);
      evs + [e]
    else
      var init := evs[..|evs| - 1];
      var last := evs[|evs| - 1];
      assert evs == init + [last];
      var r := Insert(init, e) + [last];
      InsertBehind(init, last, e, Insert(init, e));
      r
  }

  lemma {:induction false} WithXExtend(evs: seq<Event>, e: Event)
    requires SortedByX(evs)
    requires |evs| == 0 || evs[|evs| - 1].x <= e.x
    ensures SortedByX(evs + [e])
    ensures forall x :: WithX(evs + [e], x) == WithX(evs, x) + (if e.x == x then [e] else [])
  {
    forall x
      ensures WithX(evs + [e], x) == WithX(evs, x) + (if e.x == x then [e] else [])
    {
      WithXSnoc(evs, e, x);
    }
  }

  /** No bound in `evs` exceeds `x`. */
  predicate AllAtMost(evs: seq<Event>, x: int) {
    forall k :: 0 <= k < |evs| ==> evs[k].x <= x
  }

  lemma {:induction false} AppendLargest(evs: seq<Event>, e: Event)
    requires SortedByX(evs) && AllAtMost(evs, e.x)
    ensures SortedByX(evs + [e])
  {
  }

  /** Insert's result draws its events from `init` and `e`, so none passes `last`. */
  lemma {:induction false} InsertedAtMost(init: seq<Event>, last: Event, e: Event, ins: seq<Event>)
    requires SortedByX(init + [last]) && e.x < last.x
    requires multiset(ins) == multiset(init) + multiset{e}
    ensures AllAtMost(ins, last.x)
  {
    forall k | 0 <= k < |ins|
      ensures ins[k].x <= last.x
    {
      assert ins[k] in multiset(ins);
      if ins[k] != e {
        assert ins[k] in multiset(init);
        var i :| 0 <= i < |init| && init[i] == ins[k];
        assert (init + [last])[i] == ins[k];
        assert (init + [last])[|init|] == last;
      }
    }
  }

  /** The recursive case of Insert: `e` lands in front of `last`, whose bound is larger. */
  lemma {:induction false} InsertBehind(init: seq<Event>, last: Event, e: Event, ins: seq<Event>)
    requires SortedByX(init + [last]) && e.x < last.x
    requires SortedByX(ins) && multiset(ins) == multiset(init) + multiset{e}
    requires forall x :: WithX(ins, x) == WithX(init, x) + (if e.x == x then [e] else [])
    ensures SortedByX(ins + [last])
    ensures multiset(ins + [last]) == multiset(init + [last]) + multiset{e}
    ensures forall x :: WithX(ins + [last], x) == WithX(init + [last], x) + (if e.x == x then [e] else [])
  {
    InsertedAtMost(init, last, e, ins);
    AppendLargest(ins, last);
    forall x
      ensures WithX(ins + [last], x) == WithX(init + [last], x) + (if e.x == x then [e] else [])
    {
      WithXSnoc(ins, last, x);
      WithXSnoc(init, last, x);
    }
  }

  /** The stable sort by bound. */
  function SortByX(evs: seq<Event>): (r: seq<Event>)
    ensures SortedByX(r)
    ensures multiset(r) == multiset(evs)
    ensures forall x :: WithX(r, x) == WithX(evs, x)
  {
    if |evs| == 0 then []
    else
      var init := evs[..|evs| - 1];
      var last := evs[|evs| - 1];
      assert evs == init + [last];
      var r := Insert(SortByX(init), last);
      forall x
        ensures WithX(r, x) == WithX(evs, x)
      {
        WithXSnoc(init, last, x);
      }
      r
  }

  lemma SnocInjective(s: seq<Event>, u: Event, t: seq<Event>, v: Event)
    requires s + [u] == t + [v]
    ensures s == t && u == v
  {
    assert s == (s + [u])[..|s|];
    assert t == (t + [v])[..|t|];
  }

  /** The last events of two sorted lists with the same groups carry the same bound. */
  lemma {:induction false} LastBoundsAgree(a: seq<Event>, b: seq<Event>)
    requires SortedByX(a) && SortedByX(b) && |a| > 0 && |b| > 0
    requires forall x :: WithX(a, x) == WithX(b, x)
    ensures a[|a| - 1].x == b[|b| - 1].x
  {
    var ea := a[|a| - 1];
    var eb := b[|b| - 1];
    assert ea in WithX(b, ea.x);
    var i :| 0 <= i < |b| && b[i] == ea;
    assert eb in WithX(a, eb.x);
    var j :| 0 <= j < |a| && a[j] == eb;
  }

  /** A non-empty list has a non-empty group. */
  lemma {:induction false} GroupOfLast(a: seq<Event>)
    requires |a| > 0
    ensures WithX(a, a[|a| - 1].x) != []
  {
    assert a[|a| - 1] in WithX(a, a[|a| - 1].x);
  }

  /** Lists with the same groups are both empty or both non-empty. */
  lemma {:induction false} NonEmptyTogether(a: seq<Event>, b: seq<Event>)
    requires forall x :: WithX(a, x) == WithX(b, x)
    ensures |a| > 0 <==> |b| > 0
  {
    if |a| > 0 {
      GroupOfLast(a);
    }
    if |b| > 0 {
      GroupOfLast(b);
    }
  }

  /** Two sorted lists with the same groups end in the same event, and agree on the groups before it. */
  lemma {:induction false} DropLasts(a: seq<Event>, ea: Event, b: seq<Event>, eb: Event)
    requires SortedByX(a + [ea]) && SortedByX(b + [eb])
    requires forall x :: WithX(a + [ea], x) == WithX(b + [eb], x)
    ensures ea == eb
    ensures forall x :: WithX(a, x) == WithX(b, x)
  {
    LastBoundsAgree(a + [ea], b + [eb]);
    assert (a + [ea])[|a|] == ea && (b + [eb])[|b|] == eb;
    forall x
      ensures WithX(a, x) == WithX(b, x)
    {
      WithXSnoc(a, ea, x);
      WithXSnoc(b, eb, x);
      if ea.x == x {
        SnocInjective(WithX(a, x), ea, WithX(b, x), eb);
      } else {
        assert WithX(a, x) + [] == WithX(a, x);
        assert WithX(b, x) + [] == WithX(b, x);
      }
    }
    WithXSnoc(a, ea, ea.x);
    WithXSnoc(b, eb, ea.x);
    SnocInjective(WithX(a, ea.x), ea, WithX(b, ea.x), eb);
  }

  /**
   * An arrangement ordered by bound is fixed by its groups of equal bounds: two sorted lists
   * with the same groups are equal.
   */
  lemma {:induction false} SortedByGroupsUnique(a: seq<Event>, b: seq<Event>)
    requires SortedByX(a) && SortedByX(b)
    requires forall x :: WithX(a, x) == WithX(b, x)
    ensures a == b
    decreases |a|
  {
    NonEmptyTogether(a, b);
    if |a| > 0 {
      var a', ea := a[..|a| - 1], a[|a| - 1];
      var b', eb := b[..|b| - 1], b[|b| - 1];
      assert a == a' + [ea] && b == b' + [eb];
      DropLasts(a', ea, b', eb);
      SortedByGroupsUnique(a', b');
    }
  }

  /**
   * SortByX is the stable sort: any list that is ordered by bound and keeps every group of
   * equal bounds as in `evs` is SortByX(evs).
   */
  lemma StableSortIsSortByX(evs: seq<Event>, r: seq<Event>)
    requires SortedByX(r)
    requires forall x :: WithX(r, x) == WithX(evs, x)
    ensures r == SortByX(evs)
  {
    SortedByGroupsUnique(r, SortByX(evs));
  }

  /** `sorted` is a stable sort of `evs` by bound: ordered by x, each group of equal bounds as in `evs`. */
  ghost predicate StableSortOf(sorted: seq<Event>, evs: seq<Event>) {
    SortedByX(sorted) && forall x :: WithX(sorted, x) == WithX(evs, x)
  }

  lemma {:induction false} IdsAppend(a: seq<Event>, b: seq<Event>)
    ensures Ids(a + b) == Ids(a) + Ids(b)
  {
    assert |Ids(a + b)| == |Ids(a) + Ids(b)|;
    forall i | 0 <= i < |a + b|
      ensures Ids(a + b)[i] == (Ids(a) + Ids(b))[i]
    {
      if i >= |a| {
        assert (a + b)[i] == b[i - |a|];
      }
    }
  }

  /** Inserting an event adds its id to the ids. */
  lemma {:induction false} InsertIds(evs: seq<Event>, e: Event)
    requires SortedByX(evs)
    ensures multiset(Ids(Insert(evs, e))) == multiset(Ids(evs)) + multiset{e.id}
    decreases |evs|
  {
    if |evs| == 0 || evs[|evs| - 1].x <= e.x {
      IdsAppend(evs, [e]);
    } else {
      var init := evs[..|evs| - 1];
      InsertIds(init, e);
      InsertIdsStep(evs, e, Insert(init, e), Insert(evs, e));
    }
  }

  /**
   * The recursive case of InsertIds: `r` is `ins` followed by the last event of `evs`, and
   * the ids of `ins` are those of all but that last event, plus `e`'s.
   */
  lemma InsertIdsStep(evs: seq<Event>, e: Event, ins: seq<Event>, r: seq<Event>)
    requires |evs| > 0 && r == ins + [evs[|evs| - 1]]
    requires multiset(Ids(ins)) == multiset(Ids(evs[..|evs| - 1])) + multiset{e.id}
    ensures multiset(Ids(r)) == multiset(Ids(evs)) + multiset{e.id}
  {
    IdsLast(evs);
    IdsAppend(ins, [evs[|evs| - 1]]);
  }

  /** The sort rearranges the events, so it rearranges their ids. */
  lemma {:induction false} SortIds(evs: seq<Event>)
    ensures multiset(Ids(SortByX(evs))) == multiset(Ids(evs))
    decreases |evs|
  {
    if |evs| > 0 {
      var init := evs[..|evs| - 1];
      var last := evs[|evs| - 1];
      SortIds(init);
      InsertIds(SortByX(init), last);
      IdsLast(evs);
    }
  }

  /** The ids of a non-empty list are those of all but its last event, and the last event's. */
  lemma IdsLast(evs: seq<Event>)
    requires |evs| > 0
    ensures multiset(Ids(evs)) == multiset(Ids(evs[..|evs| - 1])) + multiset{evs[|evs| - 1].id}
  {
    assert evs == evs[..|evs| - 1] + [evs[|evs| - 1]];
    IdsAppend(evs[..|evs| - 1], [evs[|evs| - 1]]);
  }
}
