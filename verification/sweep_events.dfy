/**
 * The first loop of sort_and_sweep (broad_phase.py): every entry of the input list becomes an
 * event carrying one of the shape's x bounds, and every shape left with an odd number of
 * entries gets a closing event afterwards. The list the function returns is fed back to it on
 * the next frame, so the lemmas at the end follow that list through a second round.
 */
module SweepEvents {
  import opened Shapes
  import opened SetOrder

  /** An entry of `ordered_shape_pairs`: shape `id` with the bound `x`; `lower` marks a min_x entry. */
  datatype Event = Event(id: nat, x: int, lower: bool)

  /** Every id of `shapes` names a registry entry. */
  predicate InRegistry(reg: seq<Shape>, shapes: seq<nat>) {
    forall i :: 0 <= i < |shapes| ==> shapes[i] < |reg|
  }

  /** The ids of the events, in order. */
  function Ids(evs: seq<Event>): (r: seq<nat>)
    ensures |r| == |evs|
    ensures forall i :: 0 <= i < |evs| ==> r[i] == evs[i].id
  {
    seq(|evs|, i requires 0 <= i < |evs| => evs[i].id)
  }

  /**
   * The event of the i-th entry: its min_x when the id occurred an even number of times before
   * it (the id is not waiting for a partner), its max_x otherwise.
   */
  function EventAt(reg: seq<Shape>, shapes: seq<nat>, i: nat): Event
    requires InRegistry(reg, shapes) && i < |shapes|
  {
    var id := shapes[i];
    if multiset(shapes[..i])[id] % 2 == 0 then Event(id, reg[id].minX, true)
    else Event(id, reg[id].maxX, false)
  }

  /** The events so far and the set `unpaired_shape_ids`. */
  datatype Pairing = Pairing(events: seq<Event>, unpaired: set<nat>)

  /**
   * The first loop of sort_and_sweep: an id already waiting for its partner contributes its
   * max_x and stops waiting, any other id contributes its min_x and starts waiting.
   */
  function PairUp(reg: seq<Shape>, shapes: seq<nat>): (p: Pairing)
    requires InRegistry(reg, shapes)
    ensures |p.events| == |shapes|
  {
    if |shapes| == 0 then Pairing([], {})
    else
      var init := shapes[..|shapes| - 1];
      var id := shapes[|shapes| - 1];
      assert InRegistry(reg, init);
      var p := PairUp(reg, init);
      if id in p.unpaired then Pairing(p.events + [Event(id, reg[id].maxX, false)], p.unpaired - {id})
      else Pairing(p.events + [Event(id, reg[id].minX, true)], p.unpaired + {id})
  }

  /** An id is left unpaired exactly when it occurs an odd number of times. */
  lemma {:induction false} PairUpUnpaired(reg: seq<Shape>, shapes: seq<nat>)
    requires InRegistry(reg, shapes)
    ensures forall id :: id in PairUp(reg, shapes).unpaired <==> multiset(shapes)[id] % 2 == 1
  {
    if |shapes| > 0 {
      var init := shapes[..|shapes| - 1];
      assert shapes == init + [shapes[|shapes| - 1]];
      assert InRegistry(reg, init);
      PairUpUnpaired(reg, init);
    }
  }

  /**
   * The i-th event is the i-th entry's: lower at min_x when the id occurred an even number of
   * times before it, upper at max_x otherwise.
   */
  lemma {:induction false} PairUpEvents(reg: seq<Shape>, shapes: seq<nat>)
    requires InRegistry(reg, shapes)
    ensures forall i :: 0 <= i < |shapes| ==> PairUp(reg, shapes).events[i] == EventAt(reg, shapes, i)
  {
    if |shapes| > 0 {
      var init := shapes[..|shapes| - 1];
      assert InRegistry(reg, init);
      PairUpEvents(reg, init);
      PairUpUnpaired(reg, init);
      forall i | 0 <= i < |init|
        ensures EventAt(reg, shapes, i) == EventAt(reg, init, i)
      {
        assert shapes[..i] == init[..i];
      }
      assert shapes[..|init|] == init;
    }
  }

  lemma {:induction false} UnpairedInRegistry(reg: seq<Shape>, shapes: seq<nat>)
    requires InRegistry(reg, shapes)
    ensures forall id :: id in PairUp(reg, shapes).unpaired ==> id in shapes && id < |reg|
  {
    PairUpUnpaired(reg, shapes);
    forall id | id in PairUp(reg, shapes).unpaired
      ensures id in shapes && id < |reg|
    {
      assert id in multiset(shapes);
      var i :| 0 <= i < |shapes| && shapes[i] == id;
    }
  }

  /** A closing event at max_x for each id of `ids`. */
  function Closers(reg: seq<Shape>, ids: seq<nat>): (evs: seq<Event>)
    requires InRegistry(reg, ids)
    ensures |evs| == |ids|
  {
    seq(|ids|, i requires 0 <= i < |ids| => Event(ids[i], reg[ids[i]].maxX, false))
  }

  /** The closing loop's ids: those still unpaired, in set iteration order. */
  function Closing(reg: seq<Shape>, shapes: seq<nat>): (ids: seq<nat>)
    requires InRegistry(reg, shapes)
    ensures InRegistry(reg, ids)
    ensures forall id :: id in ids <==> id in PairUp(reg, shapes).unpaired
    ensures Increasing(ids)
  {
    UnpairedInRegistry(reg, shapes);
    Ascending(PairUp(reg, shapes).unpaired, |reg|)
  }

  /**
   * `ordered_shape_pairs` before sorting: the events of the first loop, then a closing max_x
   * event for every id still unpaired.
   */
  function BuildEvents(reg: seq<Shape>, shapes: seq<nat>): (evs: seq<Event>)
    requires InRegistry(reg, shapes)
    ensures |evs| == |shapes| + |PairUp(reg, shapes).unpaired|
  {
    PairUp(reg, shapes).events + Closers(reg, Closing(reg, shapes))
  }

  /** The events begin with one event per entry of the list, in order. */
  lemma {:induction false} EventsStartWithEntries(reg: seq<Shape>, shapes: seq<nat>)
    requires InRegistry(reg, shapes)
    ensures forall i :: 0 <= i < |shapes| ==> BuildEvents(reg, shapes)[i] == EventAt(reg, shapes, i)
  {
    PairUpEvents(reg, shapes);
  }

  /** The events after the entries close, at max_x, the ids that occur an odd number of times. */
  lemma {:induction false} EventsCloseOddIds(reg: seq<Shape>, shapes: seq<nat>)
    requires InRegistry(reg, shapes)
    ensures forall i :: |shapes| <= i < |BuildEvents(reg, shapes)| ==>
      var e := BuildEvents(reg, shapes)[i];
      !e.lower && multiset(shapes)[e.id] % 2 == 1 && e.id < |reg| && e.x == reg[e.id].maxX
  {
    PairUpUnpaired(reg, shapes);
    var closing := Closing(reg, shapes);
    var evs := BuildEvents(reg, shapes);
    forall i | |shapes| <= i < |evs|
      ensures !evs[i].lower && multiset(shapes)[evs[i].id] % 2 == 1
      ensures evs[i].id < |reg| && evs[i].x == reg[evs[i].id].maxX
    {
      assert evs[i] == Closers(reg, closing)[i - |shapes|];
      assert closing[i - |shapes|] in closing;
    }
  }

  /**
   * Every event belongs to a shape of the list and carries that shape's min_x if it is a lower
   * event and its max_x otherwise.
   */
  lemma {:induction false} EventsCarryBounds(reg: seq<Shape>, shapes: seq<nat>)
    requires InRegistry(reg, shapes)
    ensures forall i :: 0 <= i < |BuildEvents(reg, shapes)| ==>
      var e := BuildEvents(reg, shapes)[i];
      e.id in shapes && e.id < |reg| && e.x == (if e.lower then reg[e.id].minX else reg[e.id].maxX)
  {
    EventsStartWithEntries(reg, shapes);
    EventsCloseOddIds(reg, shapes);
    var evs := BuildEvents(reg, shapes);
    forall i | 0 <= i < |evs|
      ensures evs[i].id in shapes
    {
      if |shapes| <= i {
        assert evs[i].id in multiset(shapes);
      }
    }
  }

  /** How many events of `evs` belong to shape `id` and are of the given kind. */
  function Tally(evs: seq<Event>, id: nat, lower: bool): nat {
    if |evs| == 0 then 0
    else
      var last := evs[|evs| - 1];
      Tally(evs[..|evs| - 1], id, lower) + (if last.id == id && last.lower == lower then 1 else 0)
  }

  lemma {:induction false} TallySnoc(evs: seq<Event>, e: Event, id: nat, lower: bool)
    ensures Tally(evs + [e], id, lower) == Tally(evs, id, lower) + (if e.id == id && e.lower == lower then 1 else 0)
  {
    assert (evs + [e])[..|evs|] == evs;
  }

  lemma {:induction false} TallyAppend(a: seq<Event>, b: seq<Event>, id: nat, lower: bool)
    ensures Tally(a + b, id, lower) == Tally(a, id, lower) + Tally(b, id, lower)
    decreases |b|
  {
    if |b| == 0 {
      assert a + b == a;
    } else {
      var b' := b[..|b| - 1];
      var last := b[|b| - 1];
      assert b == b' + [last];
      assert a + b == (a + b') + [last];
      TallyAppend(a, b', id, lower);
      TallySnoc(a + b', last, id, lower);
      TallySnoc(b', last, id, lower);
    }
  }

  /** The occurrences of `id` among the ids of `evs` are its lower and its upper events. */
  lemma {:induction false} IdsTally(evs: seq<Event>, id: nat)
    ensures multiset(Ids(evs))[id] == Tally(evs, id, true) + Tally(evs, id, false)
  {
    if |evs| > 0 {
      var init := evs[..|evs| - 1];
      IdsTally(init, id);
      assert Ids(evs) == Ids(init) + [evs[|evs| - 1].id];
    }
  }

  /** One more entry keeps the alternation: lower on an even count, upper on an odd one. */
  lemma AlternationStep(lowers: nat, uppers: nat, c: nat, hit: bool, lower: bool)
    requires lowers == (c + 1) / 2 && uppers == c / 2
    requires hit ==> (lower <==> c % 2 == 0)
    ensures lowers + (if hit && lower then 1 else 0) == ((if hit then c + 1 else c) + 1) / 2
    ensures uppers + (if hit && !lower then 1 else 0) == (if hit then c + 1 else c) / 2
  {
  }

  /** The first loop alternates lower, upper, lower, … for each id. */
  lemma {:induction false} PairUpTally(reg: seq<Shape>, shapes: seq<nat>, id: nat)
    requires InRegistry(reg, shapes)
    ensures Tally(PairUp(reg, shapes).events, id, true) == (multiset(shapes)[id] + 1) / 2
    ensures Tally(PairUp(reg, shapes).events, id, false) == multiset(shapes)[id] / 2
  {
    if |shapes| == 0 {
      assert multiset(shapes) == multiset{};
    } else {
      var init := shapes[..|shapes| - 1];
      var last := shapes[|shapes| - 1];
      assert shapes == init + [last];
      assert InRegistry(reg, init);
      PairUpTally(reg, init, id);
      PairUpUnpaired(reg, init);
      var p := PairUp(reg, init);
      var e := if last in p.unpaired then Event(last, reg[last].maxX, false) else Event(last, reg[last].minX, true);
      assert PairUp(reg, shapes).events == p.events + [e];
      TallySnoc(p.events, e, id, true);
      TallySnoc(p.events, e, id, false);
      var before: multiset<nat> := multiset(init);
      var after: multiset<nat> := multiset(shapes);
      assert after == before + multiset{last};
      assert after[id] == if last == id then before[id] + 1 else before[id];
      AlternationStep(Tally(p.events, id, true), Tally(p.events, id, false), before[id], last == id, e.lower);
    }
  }

  /** Closing events are upper events, one per listed id. */
  lemma {:induction false} ClosersTally(reg: seq<Shape>, ids: seq<nat>, id: nat)
    requires InRegistry(reg, ids)
    requires Increasing(ids)
    ensures Tally(Closers(reg, ids), id, true) == 0
    ensures Tally(Closers(reg, ids), id, false) == if id in ids then 1 else 0
  {
    if |ids| > 0 {
      var init := ids[..|ids| - 1];
      assert InRegistry(reg, init);
      ClosersTally(reg, init, id);
      var evs := Closers(reg, ids);
      assert evs[..|evs| - 1] == Closers(reg, init);
      assert id in ids <==> id in init || id == ids[|ids| - 1];
      if id in init {
        var k :| 0 <= k < |init| && init[k] == id;
        assert ids[k] < ids[|ids| - 1];
      }
    }
  }

  /** After the closing loop every shape has as many upper events as lower ones. */
  lemma {:induction false} EventsBalanced(reg: seq<Shape>, shapes: seq<nat>, id: nat)
    requires InRegistry(reg, shapes)
    ensures Tally(BuildEvents(reg, shapes), id, true) == (multiset(shapes)[id] + 1) / 2
    ensures Tally(BuildEvents(reg, shapes), id, false) == (multiset(shapes)[id] + 1) / 2
  {
    var p := PairUp(reg, shapes);
    PairUpUnpaired(reg, shapes);
    var closing := Closing(reg, shapes);
    PairUpTally(reg, shapes, id);
    ClosersTally(reg, closing, id);
    TallyAppend(p.events, Closers(reg, closing), id, true);
    TallyAppend(p.events, Closers(reg, closing), id, false);
  }

  /** The shape list holds each of its ids once or twice, as it does from the second frame on. */
  predicate OnceOrTwice(shapes: seq<nat>) {
    forall id :: id in shapes ==> multiset(shapes)[id] <= 2
  }

  /** In a strictly increasing list every element occurs once. */
  lemma {:induction false} IncreasingCounts(s: seq<nat>, id: nat)
    requires Increasing(s)
    ensures multiset(s)[id] == if id in s then 1 else 0
  {
    if |s| > 0 {
      var init := s[..|s| - 1];
      assert s == init + [s[|s| - 1]];
      IncreasingCounts(init, id);
      if id in init {
        var k :| 0 <= k < |init| && init[k] == id;
        assert s[k] < s[|s| - 1];
      }
    }
  }

  /**
   * When every id occurs once or twice, the events hold exactly one lower and one upper event
   * for each id of the list and none for any other id.
   */
  lemma {:induction false} EventsPairEachShape(reg: seq<Shape>, shapes: seq<nat>, id: nat)
    requires InRegistry(reg, shapes) && OnceOrTwice(shapes)
    ensures Tally(BuildEvents(reg, shapes), id, true) == (if id in shapes then 1 else 0)
    ensures Tally(BuildEvents(reg, shapes), id, false) == (if id in shapes then 1 else 0)
    ensures multiset(Ids(BuildEvents(reg, shapes)))[id] == if id in shapes then 2 else 0
  {
    EventsBalanced(reg, shapes, id);
    IdsTally(BuildEvents(reg, shapes), id);
    assert id in shapes <==> id in multiset(shapes);
  }

  /** The distinct ids of a list, in increasing order. */
  function Distinct(reg: seq<Shape>, shapes: seq<nat>): (r: seq<nat>)
    requires InRegistry(reg, shapes)
    ensures Increasing(r) && |r| == |set id | id in shapes|
    ensures forall id :: id in r <==> id in shapes
  {
    var ids := set id | id in shapes;
    assert Bounded(ids, |reg|) by {
      forall id | id in ids
        ensures id < |reg|
      {
        var k :| 0 <= k < |shapes| && shapes[k] == id;
      }
    }
    Ascending(ids, |reg|)
  }

  /** With every id once or twice, there are twice as many events as distinct ids. */
  lemma {:induction false} EventsCount(reg: seq<Shape>, shapes: seq<nat>)
    requires InRegistry(reg, shapes) && OnceOrTwice(shapes)
    ensures multiset(Ids(BuildEvents(reg, shapes))) == multiset(Distinct(reg, shapes) + Distinct(reg, shapes))
    ensures |BuildEvents(reg, shapes)| == 2 * |set id | id in shapes|
  {
    var evs := BuildEvents(reg, shapes);
    var distinct := Distinct(reg, shapes);
    forall id
      ensures multiset(Ids(evs))[id] == multiset(distinct + distinct)[id]
    {
      EventsPairEachShape(reg, shapes, id);
      IncreasingCounts(distinct, id);
    }
    assert multiset(Ids(evs)) == multiset(distinct + distinct);
    assert |Ids(evs)| == |multiset(Ids(evs))|;
  }

  /** A rearrangement of the event ids holds each id of the list exactly twice. */
  lemma {:induction false} FeedbackCounts(reg: seq<Shape>, shapes: seq<nat>, next: seq<nat>)
    requires InRegistry(reg, shapes) && OnceOrTwice(shapes)
    requires multiset(next) == multiset(Ids(BuildEvents(reg, shapes)))
    ensures forall id :: multiset(next)[id] == if id in shapes then 2 else 0
    ensures forall id :: id in next <==> id in shapes
  {
    forall id
      ensures multiset(next)[id] == if id in shapes then 2 else 0
    {
      EventsPairEachShape(reg, shapes, id);
    }
    forall id
      ensures id in next <==> id in shapes
    {
      assert id in next <==> id in multiset(next);
    }
  }

  lemma {:induction false} FeedbackInRegistry(reg: seq<Shape>, shapes: seq<nat>, next: seq<nat>)
    requires InRegistry(reg, shapes) && OnceOrTwice(shapes)
    requires multiset(next) == multiset(Ids(BuildEvents(reg, shapes)))
    ensures InRegistry(reg, next) && OnceOrTwice(next)
  {
    FeedbackCounts(reg, shapes, next);
    forall i | 0 <= i < |next|
      ensures next[i] < |reg|
    {
      assert next[i] in shapes;
      var k :| 0 <= k < |shapes| && shapes[k] == next[i];
    }
  }

  lemma {:induction false} EvenCountsPairUp(reg: seq<Shape>, next: seq<nat>)
    requires InRegistry(reg, next)
    requires forall id :: multiset(next)[id] % 2 == 0
    ensures PairUp(reg, next).unpaired == {}
    ensures BuildEvents(reg, next) == PairUp(reg, next).events
  {
    PairUpUnpaired(reg, next);
    assert forall id :: id !in PairUp(reg, next).unpaired;
    assert Closers(reg, Closing(reg, next)) == [];
  }

  /**
   * The list sort_and_sweep returns is fed back to it on the next frame. Any rearrangement of
   * the event ids holds each id of the original list exactly twice, so on that round no id is
   * left unpaired and there is one event per entry.
   */
  lemma {:induction false} FeedbackPairsEveryShape(reg: seq<Shape>, shapes: seq<nat>, next: seq<nat>)
    requires InRegistry(reg, shapes) && OnceOrTwice(shapes)
    requires multiset(next) == multiset(Ids(BuildEvents(reg, shapes)))
    ensures InRegistry(reg, next) && OnceOrTwice(next)
    ensures forall id :: id in next <==> id in shapes
    ensures PairUp(reg, next).unpaired == {}
    ensures BuildEvents(reg, next) == PairUp(reg, next).events
  {
    FeedbackCounts(reg, shapes, next);
    FeedbackInRegistry(reg, shapes, next);
    assert forall id :: multiset(next)[id] % 2 == 0;
    EvenCountsPairUp(reg, next);
  }
}
