/** Every run of the wheel: any sequence of adds, unlinks and removals, from an empty ring. */
module WheelRuns {
  import opened Modular
  import opened TimingWheel
  import opened Wrappers
  import opened WheelLaws
  import opened WheelOrder

  datatype Op<E> = AddOp(e: E, t: nat) | UnlinkOp(e: E) | RemoveOp(now: nat)

  /** A pending entry: its deadline, where the hand stood when it was added, and when that was. */
  datatype Binding = Binding(t: nat, since: nat, stamp: nat)

  /** The wheel beside the plain map it should be, with a count of the adds so far. */
  datatype History<E> = History(w: Wheel<E>, m: map<E, Binding>, clock: nat)

  function Step<E(==)>(h: History<E>, op: Op<E>): History<E>
    requires |h.w.slots| > 0
  {
    match op
    case AddOp(e, t) => History(Add(h.w, e, t), h.m[e := Binding(t, h.w.hand, h.clock)], h.clock + 1)
    case UnlinkOp(e) => h.(w := Unlink(h.w, e), m := h.m - {e})
    case RemoveOp(now) =>
      var (v, r) := Remove(h.w, now);
      h.(w := v, m := if r.Some? then h.m - {r.value} else h.m)
  }

  function Run<E(==)>(h: History<E>, ops: seq<Op<E>>): (h': History<E>)
    requires |h.w.slots| > 0
    ensures |h'.w.slots| == |h.w.slots|
    decreases ops
  {
    if ops == [] then h else
      StepRing(h, ops[0]);
      Run(Step(h, ops[0]), ops[1..])
  }

  function Empty<E(==)>(n: nat, hand: nat): History<E>
  {
    History(Wheel(hand, seq(n, _ => [])), map[], 0)
  }

  lemma StepRing<E>(h: History<E>, op: Op<E>)
    requires |h.w.slots| > 0
    ensures |Step(h, op).w.slots| == |h.w.slots|
  {}

  ghost function Deadlines<E>(m: map<E, Binding>): map<E, nat> { map e | e in m :: m[e].t }

  ghost function Stamps<E>(m: map<E, Binding>): map<E, nat> { map e | e in m :: m[e].stamp }

  /** The last hand position at which an entry added at `since` may still be pending. */
  function Latest(since: nat, t: nat, n: nat): (last: nat)
    requires n > 0
    ensures last < since + n || last == t
  {
    if since <= t then t else NextVisit(since, t, n)
  }

  ghost predicate Fresh<E>(h: History<E>, e: E)
    requires |h.w.slots| > 0 && e in h.m
  {
    h.m[e].stamp < h.clock && h.m[e].since <= h.w.hand <= Latest(h.m[e].since, h.m[e].t, |h.w.slots|)
  }

  ghost predicate Inv<E>(h: History<E>)
  {
    |h.w.slots| > 0 &&
    Represents(h.w, Deadlines(h.m)) &&
    (forall e | e in h.m :: Fresh(h, e)) &&
    forall k | 0 <= k < |h.w.slots| :: Descending(h.w.slots[k], Stamps(h.m))
  }

  // ---------- every step keeps the invariant ----------

  lemma DescendingWithout<E>(q: seq<Item<E>>, e: E, m: map<E, Binding>)
    requires Distinct(q) && Descending(q, Stamps(m))
    ensures Descending(Without(q, e), Stamps(m - {e}))
  {
    if j :| 0 <= j < |q| && q[j].e == e {
      WithoutAt(q, j);
    } else {
      WithoutAbsent(q, e);
    }
  }

  lemma UnlinkKeeps<E>(h: History<E>, e: E)
    requires Inv(h)
    ensures Inv(Step(h, UnlinkOp(e)))
  {
    var m := Deadlines(h.m);
    UnlinkRepresents(h.w, m, e);
    assert Deadlines(h.m - {e}) == m - {e};
    var h' := Step(h, UnlinkOp(e));
    forall k | 0 <= k < |h.w.slots|
      ensures Descending(h'.w.slots[k], Stamps(h'.m))
    {
      assert SlotHolds(h.w.slots[k], k, |h.w.slots|, m);
      DescendingWithout(h.w.slots[k], e, h.m);
    }
    assert forall x | x in h'.m :: Fresh(h, x);
  }

  lemma DescendingPush<E>(q: seq<Item<E>>, it: Item<E>, m: map<E, Binding>, b: Binding)
    requires Descending(q, Stamps(m)) && it.e !in m
    requires forall x | x in m :: m[x].stamp < b.stamp
    ensures Descending(q, Stamps(m[it.e := b])) && Descending([it] + q, Stamps(m[it.e := b]))
  {}

  lemma AddDescends<E>(h: History<E>, e: E, t: nat, k: nat)
    requires Inv(h) && k < |h.w.slots|
    ensures var h' := Step(h, AddOp(e, t)); Descending(h'.w.slots[k], Stamps(h'.m))
  {
    UnlinkKeeps(h, e);
    var u := Step(h, UnlinkOp(e));
    var b := Binding(t, h.w.hand, h.clock);
    assert forall x | x in u.m :: Fresh(u, x);
    DescendingPush(u.w.slots[k], Item(e, t), u.m, b);
    assert u.m[e := b] == h.m[e := b];
  }

  lemma AddKeeps<E>(h: History<E>, e: E, t: nat)
    requires Inv(h)
    ensures Inv(Step(h, AddOp(e, t)))
  {
    var h' := Step(h, AddOp(e, t));
    AddRepresents(h.w, Deadlines(h.m), e, t);
    assert Deadlines(h'.m) == Deadlines(h.m)[e := t];
    forall k | 0 <= k < |h.w.slots|
      ensures Descending(h'.w.slots[k], Stamps(h'.m))
    {
      AddDescends(h, e, t, k);
    }
    forall x | x in h'.m
      ensures Fresh(h', x)
    {
      assert x != e ==> Fresh(h, x);
    }
  }

  /** A survivor has not been passed over: the hand is still no further than its last visit. */
  lemma SurvivorInTime<E>(h: History<E>, now: nat, e: E)
    requires Inv(h) && e in h.m && Remove(h.w, now).1 != Some(e)
    ensures Remove(h.w, now).0.hand <= Latest(h.m[e].since, h.m[e].t, |h.w.slots|)
  {
    var b, n := h.m[e], |h.w.slots|;
    var last := Latest(b.since, b.t, n);
    assert Fresh(h, e);
    assert last % n == b.t % n by {
      NextVisitCongruent(b.since, b.t, n);
    }
    if last < Remove(h.w, now).0.hand {
      assert Item(e, Deadlines(h.m)[e]) in SlotAt(h.w, last);
      StopPassed(h.w, now, last, Item(e, b.t));
    }
  }

  lemma RemoveFresh<E>(h: History<E>, now: nat)
    requires Inv(h)
    ensures var h' := Step(h, RemoveOp(now));
            |h'.w.slots| == |h.w.slots| && forall e | e in h'.m :: Fresh(h', e)
  {
    var h' := Step(h, RemoveOp(now));
    forall e | e in h'.m
      ensures Fresh(h', e)
    {
      assert Fresh(h, e);
      SurvivorInTime(h, now, e);
    }
  }

  lemma RemoveKeeps<E>(h: History<E>, now: nat)
    requires Inv(h)
    ensures Inv(Step(h, RemoveOp(now)))
  {
    hide Fresh, Represents, Descending;
    SomeSlots(h.w, Deadlines(h.m));
    var (v, r) := Remove(h.w, now);
    var m := Deadlines(h.m);
    RemoveRepresents(h.w, m, now);
    RemoveFresh(h, now);
    if r.Some? {
      assert Deadlines(h.m - {r.value}) == m - {r.value};
      UnlinkKeeps(h, r.value);
    }
  }

  lemma {:induction false} RunKeeps<E>(h: History<E>, ops: seq<Op<E>>)
    requires Inv(h)
    ensures Inv(Run(h, ops))
    decreases ops
  {
    if ops == [] {
    } else {
      match ops[0] {
        case AddOp(e, t) => AddKeeps(h, e, t);
        case UnlinkOp(e) => UnlinkKeeps(h, e);
        case RemoveOp(now) => RemoveKeeps(h, now);
      }
      RunKeeps(Step(h, ops[0]), ops[1..]);
    }
  }

  // ---------- what holds after every run ----------

  /** Refinement: after any run the ring is the map, and lists are headed by their latest insertion. */
  lemma EveryRunIsTheMap<E>(n: nat, hand: nat, ops: seq<Op<E>>)
    requires n > 0
    ensures Inv(Run(Empty<E>(n, hand), ops))
  {
    RunKeeps(Empty<E>(n, hand), ops);
  }

  /** Bounded lateness: an entry added behind the hand is gone within one turn of the hand. */
  lemma LatenessBound<E>(n: nat, hand: nat, ops: seq<Op<E>>, e: E)
    requires n > 0
    ensures var h := Run(Empty<E>(n, hand), ops);
            e in h.m ==>
              h.w.hand <= h.m[e].t ||
              (h.m[e].since > h.m[e].t && h.w.hand <= NextVisit(h.m[e].since, h.m[e].t, n) < h.m[e].since + n)
  {
    EveryRunIsTheMap(n, hand, ops);
    var h := Run(Empty<E>(n, hand), ops);
    assert e in h.m ==> Fresh(h, e);
  }

  /** Every pending entry was added at or after the hand. */
  ghost predicate AddedTimely<E>(h: History<E>)
  {
    forall e | e in h.m :: h.m[e].since <= h.m[e].t
  }

  lemma TimelyState<E>(h: History<E>)
    requires Inv(h) && AddedTimely(h)
    ensures Timely(h.w.hand, Deadlines(h.m))
  {
    assert forall e | e in h.m :: Fresh(h, e);
  }

  /** After any run with timely adds, NULL means that nothing is pending up to `now`. */
  lemma NullAfterTimelyRun<E>(n: nat, hand: nat, ops: seq<Op<E>>, now: nat)
    requires n > 0 && AddedTimely(Run(Empty<E>(n, hand), ops))
    ensures var h := Run(Empty<E>(n, hand), ops);
            Remove(h.w, now).1 == None <==> forall e | e in h.m :: h.m[e].t > now
  {
    hide Represents, Run, Drain, Remove, Fresh, Descending, Enumerates, Sorted;
    EveryRunIsTheMap(n, hand, ops);
    var h := Run(Empty<E>(n, hand), ops);
    TimelyState(h);
    var m := Deadlines(h.m);
    NullWhenTimely(h.w, m, now);
    assert forall e | e in h.m :: e in m && m[e] == h.m[e].t;
  }

  /** A drain then returns what `now` has reached, each once, and all of it. */
  lemma DrainAfterTimelyRun<E>(n: nat, hand: nat, ops: seq<Op<E>>, now: nat)
    requires n > 0 && AddedTimely(Run(Empty<E>(n, hand), ops))
    ensures var h := Run(Empty<E>(n, hand), ops);
            Enumerates(Drain(h.w, now).1, set e | e in h.m && h.m[e].t <= now)
  {
    hide Represents, Run, Drain, Remove, Fresh, Descending, Enumerates, Sorted;
    EveryRunIsTheMap(n, hand, ops);
    var h := Run(Empty<E>(n, hand), ops);
    var m := Deadlines(h.m);
    TimelyState(h);
    DrainTimely(h.w, m, now);
    assert (set e | e in h.m && h.m[e].t <= now) == (set e | e in m && m[e] <= now);
  }

  /** Inside one turn it comes out by deadline, and last in first out among equal deadlines. */
  lemma OrderAfterTimelyRun<E>(n: nat, hand: nat, ops: seq<Op<E>>, now: nat)
    requires n > 0 && AddedTimely(Run(Empty<E>(n, hand), ops))
    requires now < Run(Empty<E>(n, hand), ops).w.hand + n
    ensures var h := Run(Empty<E>(n, hand), ops);
            Sorted(Deadlines(h.m), Stamps(h.m), Drain(h.w, now).1)
  {
    hide Represents, Run, Drain, Remove, Fresh, Descending, Enumerates, Sorted;
    EveryRunIsTheMap(n, hand, ops);
    var h := Run(Empty<E>(n, hand), ops);
    TimelyState(h);
    OrderedDrain(h.w, Deadlines(h.m), Stamps(h.m), now);
  }

  /** The hand never goes back. */
  lemma {:induction false} HandMonotone<E>(h: History<E>, ops: seq<Op<E>>)
    requires |h.w.slots| > 0
    ensures h.w.hand <= Run(h, ops).w.hand
    decreases ops
  {
    if ops == [] {
    } else {
      HandMonotone(Step(h, ops[0]), ops[1..]);
    }
  }
}
