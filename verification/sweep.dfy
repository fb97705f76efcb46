/**
 * The sweep of sort_and_sweep (broad_phase.py) and the function as a whole. The sorted event
 * ids are walked once: an id seen for the first time joins `active_shape_ids`, its second
 * occurrence removes it, and whenever a join leaves two or more ids active every active id is
 * flagged x-overlapping and every pair of active ids not yet in `tested_shape_pairs` is tested.
 * The reference definitions ActiveAfter, Together and Crowded say, step by step over the
 * order, which ids are active, which pairs are ever active together and which ids are ever
 * active in company; the sweep is proved to test exactly the pairs of Together, each once.
 */
module Sweep {
  import opened Shapes
  import opened SetOrder
  import opened BroadPhase
  import opened SweepEvents
  import opened EventSort

  /** The active set after visiting `id`: `id` leaves if present and joins otherwise. */
  function Toggle(active: set<nat>, id: nat): set<nat> {
    if id in active then active - {id} else active + {id}
  }

  /** The ordered pairs (a, b), a < b, of elements of `s`. */
  function PairsOf(s: set<nat>): set<Pair> {
    set a, b | a in s && b in s && a < b :: (a, b)
  }

  /** The pairs that become active together when `id` is visited: none if it leaves. */
  function JoinPairs(active: set<nat>, id: nat): set<Pair> {
    if id in active then {} else PairsOf(active + {id})
  }

  /** The ids active in company right after `id` is visited: none unless it joins a non-empty set. */
  function JoinCrowd(active: set<nat>, id: nat): set<nat> {
    if id !in active && |active + {id}| >= 2 then active + {id} else {}
  }

  /** The ids seen an odd number of times in `order`: the active set after walking it. */
  function ActiveAfter(order: seq<nat>): set<nat> {
    if |order| == 0 then {}
    else Toggle(ActiveAfter(order[..|order| - 1]), order[|order| - 1])
  }

  /** The pairs that are active together right after some id of `order` joins the active set. */
  function Together(order: seq<nat>): set<Pair> {
    if |order| == 0 then {}
    else
      var init := order[..|order| - 1];
      Together(init) + JoinPairs(ActiveAfter(init), order[|order| - 1])
  }

  /** The ids that are active, with at least one other, right after some id of `order` joins. */
  function Crowded(order: seq<nat>): set<nat> {
    if |order| == 0 then {}
    else
      var init := order[..|order| - 1];
      Crowded(init) + JoinCrowd(ActiveAfter(init), order[|order| - 1])
  }

  /** An id is active after the walk exactly when it occurs an odd number of times. */
  lemma {:induction false} ActiveAfterIsOddCount(order: seq<nat>)
    ensures forall id :: id in ActiveAfter(order) <==> multiset(order)[id] % 2 == 1
  {
    if |order| > 0 {
      var init := order[..|order| - 1];
      assert order == init + [order[|order| - 1]];
      ActiveAfterIsOddCount(init);
    }
  }

  /** The state of the sweep: `active_shape_ids`, `tested_shape_pairs`, and the pairs tested so far, in order. */
  datatype SweepState = SweepState(flags: seq<Flags>, active: set<nat>, tested: set<Pair>, log: seq<Pair>)

  /** The set of tested pairs is the set of logged ones. */
  ghost predicate Logged(st: SweepState) {
    forall p: Pair :: p in st.tested <==> p in st.log
  }

  /** Every logged pair is ordered and names two registry entries. */
  predicate LogOrdered(reg0: seq<Shape>, log: seq<Pair>) {
    forall p: Pair :: p in log ==> p.0 < p.1 < |reg0|
  }

  /**
   * The invariant of the sweep: the log holds each tested pair once, and the flags are the
   * initial ones `fl0` after marking `marked` and handling the logged pairs that are in
   * `acc`, the pairs intersecting_shapes accepts. Up to SortAndSweep the sweep is stated for
   * any such set.
   */
  ghost predicate Inv(reg0: seq<Shape>, fl0: seq<Flags>, acc: set<Pair>, st: SweepState, marked: set<nat>) {
    && |fl0| == |reg0|
    && Logged(st)
    && NoDuplicates(st.log)
    && LogOrdered(reg0, st.log)
    && Reflects(fl0, st.flags, marked, HitsOf(acc, st.log))
  }

  /** The invariant, spelled out. */
  lemma InvParts(reg0: seq<Shape>, fl0: seq<Flags>, acc: set<Pair>, st: SweepState, marked: set<nat>)
    requires Inv(reg0, fl0, acc, st, marked)
    ensures forall p :: p in st.log <==> p in st.tested
    ensures NoDuplicates(st.log) && forall p :: p in st.log ==> p.0 < p.1 < |reg0|
    ensures Reflects(fl0, st.flags, marked, HitsOf(acc, st.log))
  {
  }

  lemma StartInv(reg0: seq<Shape>, fl0: seq<Flags>, acc: set<Pair>)
    requires |fl0| == |reg0|
    ensures Inv(reg0, fl0, acc, SweepState(fl0, {}, {}, []), {})
  {
    ReflectsStart(fl0);
  }

  lemma {:induction false} LogSnoc(reg0: seq<Shape>, st: SweepState, a: nat, b: nat)
    requires Logged(st) && NoDuplicates(st.log) && LogOrdered(reg0, st.log)
    requires (a, b) !in st.tested && a < b < |reg0|
    ensures Logged(st.(tested := st.tested + {(a, b)}, log := st.log + [(a, b)]))
    ensures NoDuplicates(st.log + [(a, b)])
    ensures LogOrdered(reg0, st.log + [(a, b)])
  {
    NoDuplicatesAppend(st.log, [(a, b)]);
  }

  /**
   * One pair of the inner loop: skipped if already tested, otherwise tested with
   * intersecting_shapes, handled on a hit, and recorded as tested.
   */
  function TestPair(reg0: seq<Shape>, fl0: seq<Flags>, acc: set<Pair>, marked: set<nat>, st: SweepState, a: nat, b: nat): (r: SweepState)
    requires WellIndexed(reg0) && Inv(reg0, fl0, acc, st, marked)
    requires a < b < |reg0|
    ensures Inv(reg0, fl0, acc, r, marked)
    ensures r.active == st.active && r.tested == st.tested + {(a, b)}
    ensures |r.log| == |st.log| + (if (a, b) in st.tested then 0 else 1)
  {
    if (a, b) in st.tested then st
    else
      ReflectsTest(reg0, fl0, st.flags, marked, acc, st.log, a, b);
      LogSnoc(reg0, st, a, b);
      SweepState(TestAndHandle(reg0, st.flags, acc, a, b), st.active, st.tested + {(a, b)}, st.log + [(a, b)])
  }

  /** The pairs (a, b) for b in `others`. */
  function RowSet(a: nat, others: seq<nat>): set<Pair> {
    set k | 0 <= k < |others| :: (a, others[k])
  }

  /** The inner loop of the sweep: id `a` against each of `others`, in order. */
  function TestRow(reg0: seq<Shape>, fl0: seq<Flags>, acc: set<Pair>, marked: set<nat>, st: SweepState, a: nat, others: seq<nat>): (r: SweepState)
    requires WellIndexed(reg0) && Inv(reg0, fl0, acc, st, marked)
    requires forall k :: 0 <= k < |others| ==> a < others[k] < |reg0|
    ensures Inv(reg0, fl0, acc, r, marked)
    ensures r.active == st.active && r.tested == st.tested + RowSet(a, others)
  {
    if |others| == 0 then st
    else
      var init := others[..|others| - 1];
      var b := others[|others| - 1];
      var mid := TestRow(reg0, fl0, acc, marked, st, a, init);
      RowSetSnoc(a, others);
      TestPair(reg0, fl0, acc, marked, mid, a, b)
  }

  lemma {:induction false} RowSetSnoc(a: nat, others: seq<nat>)
    requires |others| > 0
    ensures RowSet(a, others) == RowSet(a, others[..|others| - 1]) + {(a, others[|others| - 1])}
  {
    var init := others[..|others| - 1];
    forall p | p in RowSet(a, init)
      ensures p in RowSet(a, others)
    {
      var k :| 0 <= k < |init| && p == (a, init[k]);
      assert others[k] == init[k];
    }
  }

  /** Flagging entry `a` as x-overlapping adds it to the marked ids. */
  lemma InvMark(reg0: seq<Shape>, fl0: seq<Flags>, acc: set<Pair>, st: SweepState, marked: set<nat>, a: nat)
    requires Inv(reg0, fl0, acc, st, marked) && a < |reg0|
    ensures Inv(reg0, fl0, acc, st.(flags := st.flags[a := st.flags[a].(xOverlapping := true)]), marked + {a})
  {
    ReflectsMark(fl0, st.flags, marked, HitsOf(acc, st.log), a);
  }

  /** The invariant does not depend on the active set. */
  lemma InvActive(reg0: seq<Shape>, fl0: seq<Flags>, acc: set<Pair>, st: SweepState, marked: set<nat>, active: set<nat>)
    requires Inv(reg0, fl0, acc, st, marked)
    ensures Inv(reg0, fl0, acc, st.(active := active), marked)
  {
  }

  /** The pairs (list[i], list[j]) with i < m and i < j. */
  function RowsSet(list: seq<nat>, m: nat): set<Pair> {
    set i, j | 0 <= i < m && i < j < |list| :: (list[i], list[j])
  }

  /** The elements list[i] with i < m. */
  function Prefix(list: seq<nat>, m: nat): set<nat> {
    set i | 0 <= i < m && i < |list| :: list[i]
  }

  lemma {:induction false} RowsStep(reg0: seq<Shape>, list: seq<nat>, m: nat)
    requires Increasing(list) && InRegistry(reg0, list) && 0 < m <= |list|
    ensures forall k :: 0 <= k < |list[m..]| ==> list[m - 1] < list[m..][k] < |reg0|
    ensures RowsSet(list, m) == RowsSet(list, m - 1) + RowSet(list[m - 1], list[m..])
    ensures Prefix(list, m) == Prefix(list, m - 1) + {list[m - 1]}
  {
    forall k | 0 <= k < |list[m..]|
      ensures list[m - 1] < list[m..][k] < |reg0|
    {
      assert list[m..][k] == list[m + k];
    }
    forall p | p in RowsSet(list, m)
      ensures p in RowsSet(list, m - 1) + RowSet(list[m - 1], list[m..])
    {
      var i, j :| 0 <= i < m && i < j < |list| && p == (list[i], list[j]);
      if i == m - 1 {
        assert list[m..][j - m] == list[j];
      }
    }
    forall p | p in RowSet(list[m - 1], list[m..])
      ensures p in RowsSet(list, m)
    {
      var k :| 0 <= k < |list[m..]| && p == (list[m - 1], list[m..][k]);
      assert list[m..][k] == list[m + k];
    }
  }

  /**
   * The first `m` rows of the nested loops over `list(active_shape_ids)`: row i flags list[i]
   * as x-overlapping and tests it against every later id of the list.
   */
  function Rows(reg0: seq<Shape>, fl0: seq<Flags>, acc: set<Pair>, marked: set<nat>, st: SweepState, list: seq<nat>, m: nat): (r: SweepState)
    requires WellIndexed(reg0) && Inv(reg0, fl0, acc, st, marked)
    requires Increasing(list) && InRegistry(reg0, list) && m <= |list|
    ensures Inv(reg0, fl0, acc, r, marked + Prefix(list, m))
    ensures r.active == st.active && r.tested == st.tested + RowsSet(list, m)
  {
    if m == 0 then
      assert Prefix(list, 0) == {} && RowsSet(list, 0) == {};
      assert marked + Prefix(list, 0) == marked;
      st
    else
      var before := Rows(reg0, fl0, acc, marked, st, list, m - 1);
      var a := list[m - 1];
      RowsStep(reg0, list, m);
      InvMark(reg0, fl0, acc, before, marked + Prefix(list, m - 1), a);
      assert marked + Prefix(list, m - 1) + {a} == marked + Prefix(list, m);
      var flagged := before.(flags := before.flags[a := before.flags[a].(xOverlapping := true)]);
      TestRow(reg0, fl0, acc, marked + Prefix(list, m), flagged, a, list[m..])
  }

  /** The rows over a whole increasing list test the pairs of its elements and flag all of them. */
  lemma {:induction false} AllRows(list: seq<nat>, s: set<nat>)
    requires Increasing(list) && forall x :: x in list <==> x in s
    ensures RowsSet(list, |list|) == PairsOf(s)
    ensures Prefix(list, |list|) == s
  {
    forall p | p in PairsOf(s)
      ensures p in RowsSet(list, |list|)
    {
      var i :| 0 <= i < |list| && list[i] == p.0;
      var j :| 0 <= j < |list| && list[j] == p.1;
      IndexOrder(list, i, j);
    }
  }

  /** In an increasing list, a smaller element comes first. */
  lemma IndexOrder(list: seq<nat>, i: nat, j: nat)
    requires Increasing(list) && i < |list| && j < |list| && list[i] < list[j]
    ensures i < j
  {
  }

  /** The elements of a set of registry ids, listed, are registry ids. */
  lemma ActiveListInRegistry(reg0: seq<Shape>, active: set<nat>, list: seq<nat>)
    requires Bounded(active, |reg0|)
    requires forall x :: x in list <==> x in active
    ensures InRegistry(reg0, list)
  {
    forall i | 0 <= i < |list|
      ensures list[i] < |reg0|
    {
      assert list[i] in active;
    }
  }

  /**
   * One iteration of the sweep loop: the id leaves the active set if it is in it; otherwise it
   * joins, and with two or more ids active the rows over the active ids run.
   */
  function Visit(reg0: seq<Shape>, fl0: seq<Flags>, acc: set<Pair>, marked: set<nat>, st: SweepState, id: nat): (r: SweepState)
    requires WellIndexed(reg0) && Inv(reg0, fl0, acc, st, marked)
    requires id < |reg0| && Bounded(st.active, |reg0|)
    ensures r.active == Toggle(st.active, id) && Bounded(r.active, |reg0|)
    ensures r.tested == st.tested + JoinPairs(st.active, id)
    ensures Inv(reg0, fl0, acc, r, marked + JoinCrowd(st.active, id))
  {
    if id in st.active then Leave(reg0, fl0, acc, marked, st, id) else Join(reg0, fl0, acc, marked, st, id)
  }

  /** `active_shape_ids.remove(shape_id)`: nothing is tested. */
  function Leave(reg0: seq<Shape>, fl0: seq<Flags>, acc: set<Pair>, marked: set<nat>, st: SweepState, id: nat): (r: SweepState)
    requires Inv(reg0, fl0, acc, st, marked) && Bounded(st.active, |reg0|) && id in st.active
    ensures r.active == st.active - {id} && Bounded(r.active, |reg0|) && r.tested == st.tested
    ensures Inv(reg0, fl0, acc, r, marked + JoinCrowd(st.active, id))
  {
    InvActive(reg0, fl0, acc, st, marked, st.active - {id});
    assert marked + {} == marked;
    st.(active := st.active - {id})
  }

  /** `active_shape_ids.add(shape_id)`, then the rows when two or more ids are active. */
  function Join(reg0: seq<Shape>, fl0: seq<Flags>, acc: set<Pair>, marked: set<nat>, st: SweepState, id: nat): (r: SweepState)
    requires WellIndexed(reg0) && Inv(reg0, fl0, acc, st, marked)
    requires id < |reg0| && Bounded(st.active, |reg0|) && id !in st.active
    ensures r.active == st.active + {id} && Bounded(r.active, |reg0|)
    ensures r.tested == st.tested + PairsOf(st.active + {id})
    ensures Inv(reg0, fl0, acc, r, marked + JoinCrowd(st.active, id))
  {
    var active := st.active + {id};
    JoinParts(reg0, fl0, acc, marked, st, id);
    var joined := st.(active := active);
    if |active| >= 2 then Crowd(reg0, fl0, acc, marked, joined) else joined
  }

  /** What Join needs about the joined state: the invariant carries over, and alone nothing is marked or paired. */
  lemma JoinParts(reg0: seq<Shape>, fl0: seq<Flags>, acc: set<Pair>, marked: set<nat>, st: SweepState, id: nat)
    requires Inv(reg0, fl0, acc, st, marked)
    requires id < |reg0| && Bounded(st.active, |reg0|) && id !in st.active
    ensures Inv(reg0, fl0, acc, st.(active := st.active + {id}), marked)
    ensures Bounded(st.active + {id}, |reg0|)
    ensures |st.active + {id}| >= 2 ==> JoinCrowd(st.active, id) == st.active + {id}
    ensures |st.active + {id}| < 2 ==> PairsOf(st.active + {id}) == {} && marked + JoinCrowd(st.active, id) == marked
  {
    InvActive(reg0, fl0, acc, st, marked, st.active + {id});
    FewHaveNoPairs(st.active + {id});
    assert marked + {} == marked;
  }

  /**
   * The rows over `list(active_shape_ids)` when two or more ids are active: every active id is
   * flagged and every pair of them is tested.
   */
  function Crowd(reg0: seq<Shape>, fl0: seq<Flags>, acc: set<Pair>, marked: set<nat>, st: SweepState): (r: SweepState)
    requires WellIndexed(reg0) && Inv(reg0, fl0, acc, st, marked) && Bounded(st.active, |reg0|)
    ensures r.active == st.active && r.tested == st.tested + PairsOf(st.active)
    ensures Inv(reg0, fl0, acc, r, marked + st.active)
  {
    var list := Ascending(st.active, |reg0|);
    ActiveListInRegistry(reg0, st.active, list);
    AllRows(list, st.active);
    Rows(reg0, fl0, acc, marked, st, list, |list|)
  }

  /** Two different elements make a set of at least two. */
  lemma TwoElements(s: set<nat>, a: nat, b: nat)
    requires a in s && b in s && a != b
    ensures |s| >= 2
  {
    assert |s - {a}| == |s| - 1;
    assert b in s - {a};
  }

  /** A set with a pair has at least two elements. */
  lemma FewHaveNoPairs(s: set<nat>)
    ensures PairsOf(s) != {} ==> |s| >= 2
  {
    if PairsOf(s) != {} {
      var p :| p in PairsOf(s);
      var a, b :| a in s && b in s && a < b && p == (a, b);
      TwoElements(s, a, b);
    }
  }

  /** The sweep loop over the first ids of `order`: a fold of Visit. */
  function Run(reg0: seq<Shape>, fl0: seq<Flags>, acc: set<Pair>, order: seq<nat>): (r: SweepState)
    requires WellIndexed(reg0) && |fl0| == |reg0| && InRegistry(reg0, order)
    ensures r.active == ActiveAfter(order) && Bounded(r.active, |reg0|)
    ensures r.tested == Together(order)
    ensures Inv(reg0, fl0, acc, r, Crowded(order))
  {
    if |order| == 0 then
      StartInv(reg0, fl0, acc);
      SweepState(fl0, {}, {}, [])
    else
      var init := order[..|order| - 1];
      Visit(reg0, fl0, acc, Crowded(init), Run(reg0, fl0, acc, init), order[|order| - 1])
  }

  /**
   * The ids of the events after Python's stable sort by bound: the list the sweep walks and
   * sort_and_sweep returns. StableSortIsSortByX makes the stable sort, and so this list, unique.
   */
  function SweepOrder(reg: seq<Shape>, shapes: seq<nat>): (order: seq<nat>)
    requires InRegistry(reg, shapes)
    ensures exists sorted :: StableSortOf(sorted, BuildEvents(reg, shapes)) && order == Ids(sorted)
    ensures multiset(order) == multiset(Ids(BuildEvents(reg, shapes)))
    ensures InRegistry(reg, order)
  {
    var evs := BuildEvents(reg, shapes);
    assert StableSortOf(SortByX(evs), evs);
    SortIds(evs);
    EventsCarryBounds(reg, shapes);
    SortedIdsInRegistry(reg, evs, Ids(SortByX(evs)));
    Ids(SortByX(evs))
  }

  lemma SortedIdsInRegistry(reg: seq<Shape>, evs: seq<Event>, order: seq<nat>)
    requires forall i :: 0 <= i < |evs| ==> evs[i].id < |reg|
    requires multiset(order) == multiset(Ids(evs))
    ensures InRegistry(reg, order)
  {
    forall i | 0 <= i < |order|
      ensures order[i] < |reg|
    {
      assert order[i] in multiset(Ids(evs));
      var j :| 0 <= j < |Ids(evs)| && Ids(evs)[j] == order[i];
    }
  }

  /** What sort_and_sweep leaves behind: the flags, the returned list, and the pairs it tested, in order. */
  datatype Outcome = Outcome(flags: seq<Flags>, order: seq<nat>, log: seq<Pair>)

  /**
   * sort_and_sweep: the events are built and sorted, and the sweep tests every pair that is
   * ever active together exactly once, flags every id that is ever active in company, and
   * handles every hit.
   */
  function SortAndSweep(reg: seq<Shape>, fl: seq<Flags>, shapes: seq<nat>): (r: Outcome)
    requires WellIndexed(reg) && |fl| == |reg| && InRegistry(reg, shapes)
    requires forall p: Pair :: p in Together(SweepOrder(reg, shapes)) ==> Testable(reg, p.0, p.1)
    ensures exists sorted :: StableSortOf(sorted, BuildEvents(reg, shapes)) && r.order == Ids(sorted)
    ensures multiset(r.order) == multiset(Ids(BuildEvents(reg, shapes)))
    ensures forall p :: p in r.log <==> p in Together(r.order)
    ensures NoDuplicates(r.log)
    ensures forall p :: p in r.log ==> p.0 < p.1 && Testable(reg, p.0, p.1)
    ensures Reflects(fl, r.flags, Crowded(r.order), HitsOf(Accepted(reg), r.log))
  {
    var order := SweepOrder(reg, shapes);
    var st := Run(reg, fl, Accepted(reg), order);
    InvParts(reg, fl, Accepted(reg), st, Crowded(order));
    Outcome(st.flags, order, st.log)
  }

  /** Step n (1-based) of `order` is a join: its id was not active before it. */
  predicate JoinStep(order: seq<nat>, n: nat) {
    0 < n <= |order| && order[n - 1] !in ActiveAfter(order[..n - 1])
  }

  /** Pair `p` is active right after the join at step n. */
  predicate JoinedAt(order: seq<nat>, n: nat, p: Pair) {
    JoinStep(order, n) && p in PairsOf(ActiveAfter(order[..n]))
  }

  /** Id `id` is active, with at least one other, right after the join at step n. */
  predicate CrowdedAt(order: seq<nat>, n: nat, id: nat) {
    JoinStep(order, n) && |ActiveAfter(order[..n])| >= 2 && id in ActiveAfter(order[..n])
  }

  /** The steps of a prefix are the first steps of the whole order. */
  lemma {:induction false} StepsOfPrefix(order: seq<nat>, n: nat)
    requires 0 < n <= |order| - 1
    ensures order[..|order| - 1][..n] == order[..n]
    ensures order[..|order| - 1][..n - 1] == order[..n - 1]
    ensures JoinStep(order[..|order| - 1], n) <==> JoinStep(order, n)
  {
    assert order[..|order| - 1][..n] == order[..n];
    assert order[..|order| - 1][..n - 1] == order[..n - 1];
  }

  /** The last step of `order`, seen through the prefix before it. */
  lemma LastStep(order: seq<nat>)
    requires |order| > 0
    ensures order[..|order|] == order
    ensures JoinStep(order, |order|) <==> order[|order| - 1] !in ActiveAfter(order[..|order| - 1])
  {
    assert order[..|order|] == order;
  }

  /** A join at step n of a prefix is a join at step n of the whole order, with the same active set. */
  lemma {:induction false} JoinOfPrefix(order: seq<nat>, n: nat)
    requires 0 < n < |order|
    ensures ActiveAfter(order[..|order| - 1][..n]) == ActiveAfter(order[..n])
    ensures JoinStep(order[..|order| - 1], n) <==> JoinStep(order, n)
  {
    StepsOfPrefix(order, n);
  }

  /** The join at the last step, in terms of the prefix before it. */
  lemma {:induction false} LastJoin(order: seq<nat>)
    requires |order| > 0
    ensures JoinStep(order, |order|) <==> order[|order| - 1] !in ActiveAfter(order[..|order| - 1])
    ensures ActiveAfter(order[..|order|]) == ActiveAfter(order)
  {
    LastStep(order);
  }

  /** Every pair of Together is active right after some join. */
  lemma {:induction false} TogetherHasJoin(order: seq<nat>, p: Pair) returns (n: nat)
    requires p in Together(order)
    ensures JoinedAt(order, n, p)
    decreases |order|
  {
    var init := order[..|order| - 1];
    LastJoin(order);
    if p in Together(init) {
      n := TogetherHasJoin(init, p);
      JoinOfPrefix(order, n);
    } else {
      n := |order|;
    }
  }

  /** A pair active right after a join is in Together. */
  lemma {:induction false} JoinInTogether(order: seq<nat>, n: nat, p: Pair)
    requires JoinedAt(order, n, p)
    ensures p in Together(order)
    decreases |order|
  {
    var init := order[..|order| - 1];
    LastJoin(order);
    if n < |order| {
      JoinOfPrefix(order, n);
      JoinInTogether(init, n, p);
    }
  }

  /** A pair is in Together exactly when both its ids are active right after some join. */
  lemma TogetherIff(order: seq<nat>, p: Pair)
    ensures p in Together(order) <==> exists n: nat :: JoinedAt(order, n, p)
  {
    if p in Together(order) {
      var n := TogetherHasJoin(order, p);
    }
    if exists n: nat :: JoinedAt(order, n, p) {
      var n: nat :| JoinedAt(order, n, p);
      JoinInTogether(order, n, p);
    }
  }

  /** Every id of Crowded is active, with another, right after some join. */
  lemma {:induction false} CrowdedHasJoin(order: seq<nat>, id: nat) returns (n: nat)
    requires id in Crowded(order)
    ensures CrowdedAt(order, n, id)
    decreases |order|
  {
    var init := order[..|order| - 1];
    LastJoin(order);
    if id in Crowded(init) {
      n := CrowdedHasJoin(init, id);
      JoinOfPrefix(order, n);
    } else {
      n := |order|;
    }
  }

  /** An id active, with another, right after a join is in Crowded. */
  lemma {:induction false} JoinInCrowded(order: seq<nat>, n: nat, id: nat)
    requires CrowdedAt(order, n, id)
    ensures id in Crowded(order)
    decreases |order|
  {
    var init := order[..|order| - 1];
    LastJoin(order);
    if n < |order| {
      JoinOfPrefix(order, n);
      JoinInCrowded(init, n, id);
    }
  }

  /** An id is in Crowded exactly when it is active, with at least one other, right after some join. */
  lemma CrowdedIff(order: seq<nat>, id: nat)
    ensures id in Crowded(order) <==> exists n: nat :: CrowdedAt(order, n, id)
  {
    if id in Crowded(order) {
      var n := CrowdedHasJoin(order, id);
    }
    if exists n: nat :: CrowdedAt(order, n, id) {
      var n: nat :| CrowdedAt(order, n, id);
      JoinInCrowded(order, n, id);
    }
  }

  /**
   * Whatever the input, the returned list holds every id an even number of times (its min_x
   * and max_x events pair up), so the active set is empty once the sweep is over.
   */
  lemma {:induction false} SweepEndsWithNoneActive(reg: seq<Shape>, shapes: seq<nat>)
    requires InRegistry(reg, shapes)
    ensures forall id :: multiset(SweepOrder(reg, shapes))[id] % 2 == 0
    ensures ActiveAfter(SweepOrder(reg, shapes)) == {}
  {
    var order := SweepOrder(reg, shapes);
    var evs := BuildEvents(reg, shapes);
    forall id
      ensures multiset(order)[id] % 2 == 0
    {
      EventsBalanced(reg, shapes, id);
      IdsTally(evs, id);
    }
    ActiveAfterIsOddCount(order);
    forall id
      ensures id !in ActiveAfter(order)
    {
      assert multiset(order)[id] % 2 == 0;
    }
  }

  /**
   * When every id occurs once or twice in the input, the returned list holds every id of the
   * input exactly twice and no other id.
   */
  lemma SweepEndsEmpty(reg: seq<Shape>, shapes: seq<nat>)
    requires InRegistry(reg, shapes) && OnceOrTwice(shapes)
    ensures forall id :: multiset(SweepOrder(reg, shapes))[id] == if id in shapes then 2 else 0
    ensures ActiveAfter(SweepOrder(reg, shapes)) == {}
  {
    var order := SweepOrder(reg, shapes);
    FeedbackCounts(reg, shapes, order);
    SweepEndsWithNoneActive(reg, shapes);
  }
}
