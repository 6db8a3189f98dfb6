/** In which order a drain hands entries back. */
module WheelOrder {
  import opened Modular
  import opened TimingWheel
  import opened Wrappers
  import opened WheelLaws

  /** The entries of a list whose deadline is exactly t, in list order. */
  function Exact<E>(q: seq<Item<E>>, t: nat): seq<E>
  {
    if q == [] then [] else
      (if q[0].t == t then [q[0].e] else []) + Exact(q[1..], t)
  }

  /** The ideal schedule: every deadline from i to `now` in turn. */
  function Schedule<E>(slots: seq<seq<Item<E>>>, i: nat, now: nat): seq<E>
    requires |slots| > 0
    decreases if i <= now then now + 1 - i else 0
  {
    if i > now then [] else Exact(slots[i % |slots|], i) + Schedule(slots, i + 1, now)
  }

  lemma {:induction false} ExactNone<E>(q: seq<Item<E>>, t: nat)
    requires forall i | 0 <= i < |q| :: q[i].t != t
    ensures Exact(q, t) == []
  {
    if q == [] {
    } else {
      ExactNone(q[1..], t);
    }
  }

  lemma {:induction false} ExactFirst<E>(q: seq<Item<E>>, t: nat, j: nat)
    requires Distinct(q) && j < |q| && q[j].t == t
    requires forall i | 0 <= i < j :: q[i].t != t
    ensures Exact(q, t) == [q[j].e] + Exact(Without(q, q[j].e), t)
  {
    if j == 0 {
      WithoutAbsent(q[1..], q[0].e);
      assert Without(q, q[0].e) == q[1..];
    } else {
      ExactFirst(q[1..], t, j - 1);
      assert Without(q, q[j].e) == [q[0]] + Without(q[1..], q[j].e);
    }
  }

  lemma {:induction false} ScheduleAgrees<E>(a: seq<seq<Item<E>>>, b: seq<seq<Item<E>>>, i: nat, now: nat)
    requires |a| == |b| > 0
    requires forall k | i <= k <= now :: a[k % |a|] == b[k % |a|]
    ensures Schedule(a, i, now) == Schedule(b, i, now)
    decreases if i <= now then now + 1 - i else 0
  {
    if i > now {
    } else {
      ScheduleAgrees(a, b, i + 1, now);
    }
  }

  /** Inside one revolution, whatever is expired in the hand's slot is due exactly now. */
  lemma OneTurn<E>(w: Wheel<E>, m: map<E, nat>, now: nat, it: Item<E>)
    requires Represents(w, m) && Timely(w.hand, m) && w.hand <= now < w.hand + |w.slots|
    requires it in SlotAt(w, w.hand)
    ensures it.t <= now <==> it.t == w.hand
  {
    var n := |w.slots|;
    assert SlotHolds(w.slots[w.hand % n], w.hand % n, n, m);
    if it.t <= now {
      CloseCongruent(it.t, w.hand, n);
    }
  }

  /** Unlinking an entry of the hand's slot leaves the rest of the turn alone. */
  lemma RestOfTurn<E>(w: Wheel<E>, m: map<E, nat>, now: nat, e: E)
    requires Represents(w, m) && w.hand <= now < w.hand + |w.slots|
    requires e in m && m[e] % |w.slots| == w.hand % |w.slots|
    ensures Schedule(Unlink(w, e).slots, w.hand + 1, now) == Schedule(w.slots, w.hand + 1, now)
  {
    var n, u := |w.slots|, Unlink(w, e);
    forall k | w.hand + 1 <= k <= now
      ensures u.slots[k % n] == w.slots[k % n]
    {
      if k % n == w.hand % n {
        CloseCongruent(k, w.hand, n);
      }
      assert SlotHolds(w.slots[k % n], k % n, n, m);
      WithoutAbsent(w.slots[k % n], e);
    }
    ScheduleAgrees(u.slots, w.slots, w.hand + 1, now);
  }

  /** Something in the hand's slot is due now: it is next on the schedule. */
  lemma ScheduleNext<E>(w: Wheel<E>, m: map<E, nat>, now: nat)
    requires Represents(w, m) && Timely(w.hand, m) && w.hand <= now < w.hand + |w.slots|
    requires FirstExpired(SlotAt(w, w.hand), now) < |SlotAt(w, w.hand)|
    ensures var q := SlotAt(w, w.hand);
            var e := q[FirstExpired(q, now)].e;
            e in m && Remove(w, now) == (Unlink(w, e), Some(e)) &&
            Schedule(w.slots, w.hand, now) == [e] + Schedule(Unlink(w, e).slots, w.hand, now)
  {
    var q := SlotAt(w, w.hand);
    var j := FirstExpired(q, now);
    var k := w.hand % |w.slots|;
    assert SlotHolds(q, k, |w.slots|, m);
    OneTurn(w, m, now, q[j]);
    ExactFirst(q, w.hand, j);
    RestOfTurn(w, m, now, q[j].e);
    var u := Unlink(w, q[j].e);
    assert u.slots[k] == Without(q, q[j].e);
    assert w.(hand := w.hand) == w;
    assert Stop(w, now) == w.hand;
    assert [q[j].e] + Exact(u.slots[k], w.hand) + Schedule(u.slots, w.hand + 1, now)
        == [q[j].e] + (Exact(u.slots[k], w.hand) + Schedule(u.slots, w.hand + 1, now));
  }

  /** Nothing there is due now: the schedule and the hand both move on, and timeliness with them. */
  lemma ScheduleSkips<E>(w: Wheel<E>, m: map<E, nat>, now: nat)
    requires Represents(w, m) && Timely(w.hand, m) && w.hand <= now < w.hand + |w.slots|
    requires FirstExpired(SlotAt(w, w.hand), now) == |SlotAt(w, w.hand)|
    ensures Represents(w.(hand := w.hand + 1), m) && Timely(w.hand + 1, m)
    ensures Schedule(w.slots, w.hand, now) == Schedule(w.slots, w.hand + 1, now)
  {
    var q := SlotAt(w, w.hand);
    forall e | e in m
      ensures m[e] != w.hand
    {
      assert Item(e, m[e]) in w.slots[m[e] % |w.slots|];
    }
    ExactNone(q, w.hand);
  }

  lemma DrainHere<E>(w: Wheel<E>, now: nat, e: E)
    requires |w.slots| > 0 && Remove(w, now) == (Unlink(w, e), Some(e))
    ensures Drain(w, now) == (Drain(Unlink(w, e), now).0, [e] + Drain(Unlink(w, e), now).1)
  {
    RemoveShrinks(w, now);
  }

  lemma DrainLater<E>(w: Wheel<E>, now: nat)
    requires |w.slots| > 0 && w.hand <= now
    requires FirstExpired(SlotAt(w, w.hand), now) == |SlotAt(w, w.hand)|
    ensures Drain(w, now) == Drain(w.(hand := w.hand + 1), now)
  {}

  lemma PastSchedule<E>(w: Wheel<E>, now: nat)
    requires |w.slots| > 0 && w.hand > now
    ensures Drain(w, now).1 == Schedule(w.slots, w.hand, now) == []
  {}

  lemma UnlinkShortens<E>(w: Wheel<E>, j: nat)
    requires |w.slots| > 0 && j < |SlotAt(w, w.hand)|
    ensures var u := Unlink(w, SlotAt(w, w.hand)[j].e);
            |u.slots| == |w.slots| && u.hand == w.hand && |SlotAt(u, u.hand)| < |SlotAt(w, w.hand)|
  {
    WithoutShorter(SlotAt(w, w.hand), SlotAt(w, w.hand)[j].e);
  }

  /** Inside one revolution a drain of timely deadlines follows the schedule. */
  lemma {:induction false} DrainFollowsSchedule<E>(w: Wheel<E>, m: map<E, nat>, now: nat)
    requires Represents(w, m) && Timely(w.hand, m) && now < w.hand + |w.slots|
    ensures Drain(w, now).1 == Schedule(w.slots, w.hand, now)
    decreases if w.hand <= now then now + 1 - w.hand else 0, |SlotAt(w, w.hand)|
  {
    hide Represents, Remove, Stop, Unlink, FirstExpired;
    SomeSlots(w, m);
    if w.hand > now {
      PastSchedule(w, now);
    } else {
      var q := SlotAt(w, w.hand);
      var j := FirstExpired(q, now);
      if j < |q| {
        ScheduleNext(w, m, now);
        UnlinkRepresents(w, m, q[j].e);
        DrainHere(w, now, q[j].e);
        UnlinkShortens(w, j);
        DrainFollowsSchedule(Unlink(w, q[j].e), m - {q[j].e}, now);
      } else {
        ScheduleSkips(w, m, now);
        DrainLater(w, now);
        DrainFollowsSchedule(w.(hand := w.hand + 1), m, now);
      }
    }
  }

  // ---------- what following the schedule means ----------

  /** Earlier deadline first; among equals, the one inserted later first. */
  ghost predicate Before<E>(m: map<E, nat>, stamp: map<E, nat>, x: E, y: E)
  {
    x in m && y in m && x in stamp && y in stamp &&
    (m[x] < m[y] || (m[x] == m[y] && stamp[x] > stamp[y]))
  }

  ghost predicate Sorted<E>(m: map<E, nat>, stamp: map<E, nat>, es: seq<E>)
  {
    forall i, j | 0 <= i < j < |es| :: Before(m, stamp, es[i], es[j])
  }

  /** Every list is headed by its latest insertion. */
  ghost predicate Descending<E>(q: seq<Item<E>>, stamp: map<E, nat>)
  {
    (forall i | 0 <= i < |q| :: q[i].e in stamp) &&
    forall i, j | 0 <= i < j < |q| :: stamp[q[i].e] > stamp[q[j].e]
  }

  lemma {:induction false} ExactFrom<E>(q: seq<Item<E>>, t: nat, x: E)
    requires x in Exact(q, t)
    ensures exists i :: 0 <= i < |q| && q[i] == Item(x, t)
  {
    if q[0].t == t && q[0].e == x {
      assert q[0] == Item(x, t);
    } else {
      ExactFrom(q[1..], t, x);
      var i :| 0 <= i < |q[1..]| && q[1..][i] == Item(x, t);
      assert q[i + 1] == Item(x, t);
    }
  }

  lemma {:induction false} ExactSorted<E>(q: seq<Item<E>>, t: nat, m: map<E, nat>, stamp: map<E, nat>)
    requires Descending(q, stamp)
    requires forall i | 0 <= i < |q| :: q[i].e in m && m[q[i].e] == q[i].t
    ensures Sorted(m, stamp, Exact(q, t))
  {
    if q == [] {
    } else {
      ExactSorted(q[1..], t, m, stamp);
      var rest := Exact(q[1..], t);
      if q[0].t == t {
        forall j | 0 <= j < |rest|
          ensures Before(m, stamp, q[0].e, rest[j])
        {
          ExactFrom(q[1..], t, rest[j]);
        }
      }
    }
  }

  lemma {:induction false} ScheduleFrom<E>(w: Wheel<E>, m: map<E, nat>, i: nat, now: nat, x: E)
    requires Represents(w, m) && x in Schedule(w.slots, i, now)
    ensures x in m && i <= m[x] <= now
    decreases if i <= now then now + 1 - i else 0
  {
    var k := i % |w.slots|;
    if x in Exact(w.slots[k], i) {
      ExactFrom(w.slots[k], i, x);
      assert SlotHolds(w.slots[k], k, |w.slots|, m);
    } else {
      ScheduleFrom(w, m, i + 1, now, x);
    }
  }

  lemma {:induction false} ScheduleInStamp<E>(w: Wheel<E>, stamp: map<E, nat>, i: nat, now: nat, x: E)
    requires |w.slots| > 0 && forall k | 0 <= k < |w.slots| :: Descending(w.slots[k], stamp)
    requires x in Schedule(w.slots, i, now)
    ensures x in stamp
    decreases if i <= now then now + 1 - i else 0
  {
    var k := i % |w.slots|;
    if x in Exact(w.slots[k], i) {
      ExactFrom(w.slots[k], i, x);
    } else {
      ScheduleInStamp(w, stamp, i + 1, now, x);
    }
  }

  /** What is due at i comes before what is due later. */
  lemma NowBeforeLater<E>(w: Wheel<E>, m: map<E, nat>, stamp: map<E, nat>, i: nat, now: nat, x: E, y: E)
    requires Represents(w, m) && forall k | 0 <= k < |w.slots| :: Descending(w.slots[k], stamp)
    requires x in Exact(w.slots[i % |w.slots|], i) && y in Schedule(w.slots, i + 1, now)
    ensures Before(m, stamp, x, y)
  {
    var k := i % |w.slots|;
    assert SlotHolds(w.slots[k], k, |w.slots|, m);
    ExactFrom(w.slots[k], i, x);
    ScheduleFrom(w, m, i + 1, now, y);
    ScheduleInStamp(w, stamp, i + 1, now, y);
  }

  lemma {:induction false} ScheduleSorted<E>(w: Wheel<E>, m: map<E, nat>, stamp: map<E, nat>, i: nat, now: nat)
    requires Represents(w, m) && forall k | 0 <= k < |w.slots| :: Descending(w.slots[k], stamp)
    ensures Sorted(m, stamp, Schedule(w.slots, i, now))
    decreases if i <= now then now + 1 - i else 0
  {
    if i > now {
    } else {
      var k := i % |w.slots|;
      var a, b := Exact(w.slots[k], i), Schedule(w.slots, i + 1, now);
      assert SlotHolds(w.slots[k], k, |w.slots|, m);
      ExactSorted(w.slots[k], i, m, stamp);
      ScheduleSorted(w, m, stamp, i + 1, now);
      forall p, r | 0 <= p < |a| && 0 <= r < |b|
        ensures Before(m, stamp, a[p], b[r])
      {
        NowBeforeLater(w, m, stamp, i, now, a[p], b[r]);
      }
    }
  }

  /** Ordered drain: by deadline, and last in first out among equal deadlines. */
  lemma OrderedDrain<E>(w: Wheel<E>, m: map<E, nat>, stamp: map<E, nat>, now: nat)
    requires Represents(w, m) && Timely(w.hand, m) && now < w.hand + |w.slots|
    requires forall k | 0 <= k < |w.slots| :: Descending(w.slots[k], stamp)
    ensures Sorted(m, stamp, Drain(w, now).1)
  {
    DrainFollowsSchedule(w, m, now);
    ScheduleSorted(w, m, stamp, w.hand, now);
  }

  /** Inside one revolution the hand rests on the very deadline it returns. */
  lemma HandOnDeadline<E>(w: Wheel<E>, m: map<E, nat>, now: nat)
    requires Represents(w, m) && Timely(w.hand, m) && now < w.hand + |w.slots|
    requires Remove(w, now).1.Some?
    ensures Remove(w, now).1.value in m && m[Remove(w, now).1.value] == Remove(w, now).0.hand
  {
    var (v, r) := Remove(w, now);
    RemoveRepresents(w, m, now);
    RemovesNearest(w, m, now);
    NextVisitLeast(w.hand, m[r.value], |w.slots|, m[r.value]);
    CloseCongruent(m[r.value], v.hand, |w.slots|);
  }

  lemma RemoveHead<E>(w: Wheel<E>, now: nat)
    requires |w.slots| > 0 && w.hand <= now && SlotAt(w, w.hand) != [] && SlotAt(w, w.hand)[0].t <= now
    ensures Remove(w, now) == (Unlink(w, SlotAt(w, w.hand)[0].e), Some(SlotAt(w, w.hand)[0].e))
  {
    assert Stop(w, now) == w.hand && w.(hand := w.hand) == w;
  }

  lemma DrainEmpty<E>(w: Wheel<E>, now: nat)
    requires Represents(w, map[])
    ensures Drain(w, now).1 == []
  {
    NullExactly(w, map[], now);
  }

  /** The bound is sharp: one index further, and two timely entries can come back in the wrong order. */
  lemma DisorderBeyondOneTurn<E>(a: E, b: E, hand: nat, n: nat, now: nat)
    requires a != b && n > 0 && hand + n <= now
    ensures var e := Wheel(hand, seq(n, _ => []));
            var w := Add(Add(e, b, hand), a, hand + n);
            var m := map[b := hand, a := hand + n];
            Represents(w, m) && Timely(hand, m) && Drain(w, now).1 == [a, b]
  {
    var e: Wheel<E> := Wheel(hand, seq(n, _ => []));
    var w1 := Add(e, b, hand);
    var w := Add(w1, a, hand + n);
    var m := map[b := hand, a := hand + n];
    var k := hand % n;
    ModShift(hand, 1, n);
    AddRepresents(e, map[], b, hand);
    AddRepresents(w1, map[][b := hand], a, hand + n);
    assert map[][b := hand][a := hand + n] == m;
    assert w1.slots[k] == [Item(b, hand)];
    assert Without([Item(b, hand)], a) == [Item(b, hand)] + Without([], a);
    assert w.slots[k] == [Item(a, hand + n), Item(b, hand)];
    DisorderedPair(w, m, a, b, now);
  }

  lemma DisorderedPair<E>(w: Wheel<E>, m: map<E, nat>, a: E, b: E, now: nat)
    requires Represents(w, m) && m.Keys == {a, b} && a != b && w.hand <= now
    requires |SlotAt(w, w.hand)| == 2 && SlotAt(w, w.hand)[0].e == a && SlotAt(w, w.hand)[1].e == b
    requires SlotAt(w, w.hand)[0].t <= now && SlotAt(w, w.hand)[1].t <= now
    ensures Drain(w, now).1 == [a, b]
  {
    var q := SlotAt(w, w.hand);
    var v := Unlink(w, a);
    RemoveHead(w, now);
    DrainHere(w, now, a);
    WithoutAt(q, 0);
    assert SlotAt(v, v.hand) == q[..0] + q[1..] == [q[1]];
    RemoveHead(v, now);
    DrainHere(v, now, b);
    UnlinkRepresents(w, m, a);
    UnlinkRepresents(v, m - {a}, b);
    assert m - {a} - {b} == map[];
    DrainEmpty(Unlink(v, b), now);
  }
}
