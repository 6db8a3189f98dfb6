/** What the wheel promises: it is a map with "give me something expired". */
module WheelLaws {
  import opened Modular
  import opened TimingWheel
  import opened Wrappers

  // ---------- the map ----------

  lemma UnlinkRepresents<E>(w: Wheel<E>, m: map<E, nat>, e: E)
    requires Represents(w, m)
    ensures Represents(Unlink(w, e), m - {e})
  {
    var u, n := Unlink(w, e), |w.slots|;
    forall k | 0 <= k < n
      ensures SlotHolds(u.slots[k], k, n, m - {e})
    {
      WithoutDistinct(w.slots[k], e);
      forall i | 0 <= i < |u.slots[k]|
        ensures u.slots[k][i] in w.slots[k] && u.slots[k][i].e != e
      {
        WithoutMembers(w.slots[k], e, u.slots[k][i]);
      }
    }
    forall x | x in m - {e}
      ensures Item(x, m[x]) in u.slots[m[x] % n]
    {
      WithoutMembers(w.slots[m[x] % n], e, Item(x, m[x]));
    }
  }

  /** Adding sets one binding, and moves an entry that was already linked. */
  lemma AddRepresents<E>(w: Wheel<E>, m: map<E, nat>, e: E, t: nat)
    requires Represents(w, m)
    ensures Represents(Add(w, e, t), m[e := t])
  {
    UnlinkRepresents(w, m, e);
    var u, n, m' := Unlink(w, e), |w.slots|, m[e := t];
    var a := Add(w, e, t);
    forall k | 0 <= k < n
      ensures SlotHolds(a.slots[k], k, n, m')
    {
      assert SlotHolds(u.slots[k], k, n, m - {e});
    }
    forall x | x in m'
      ensures Item(x, m'[x]) in a.slots[m'[x] % n]
    {
      if x == e {
        assert a.slots[t % n][0] == Item(e, t);
      } else {
        assert x in m - {e};
        var q := u.slots[m[x] % n];
        var j :| 0 <= j < |q| && q[j] == Item(x, m[x]);
        if m[x] % n == t % n {
          assert a.slots[t % n][j + 1] == Item(x, m[x]);
        }
      }
    }
  }

  lemma UnlinkAbsent<E>(w: Wheel<E>, m: map<E, nat>, e: E)
    requires Represents(w, m) && e !in m
    ensures Unlink(w, e) == w
  {
    forall k | 0 <= k < |w.slots|
      ensures Without(w.slots[k], e) == w.slots[k]
    {
      assert SlotHolds(w.slots[k], k, |w.slots|, m);
      WithoutAbsent(w.slots[k], e);
    }
  }

  /** A wheel represents one map only. */
  lemma RepresentsUnique<E>(w: Wheel<E>, m: map<E, nat>, m': map<E, nat>)
    requires Represents(w, m) && Represents(w, m')
    ensures m == m'
  {}

  // ---------- one removal ----------

  /** What timeouts_remove may return, and what it leaves. */
  lemma RemoveRepresents<E>(w: Wheel<E>, m: map<E, nat>, now: nat)
    requires Represents(w, m)
    ensures var (v, r) := Remove(w, now);
            match r
            case None => Represents(v, m) && v == w.(hand := if w.hand <= now then now + 1 else w.hand)
            case Some(e) => e in m && m[e] <= now && v.hand % |w.slots| == m[e] % |w.slots| &&
                            v.hand <= now && Represents(v, m - {e})
  {
    var h := Stop(w, now);
    if h <= now {
      StopFinds(w, now);
      var q := SlotAt(w, h);
      var j := FirstExpired(q, now);
      assert SlotHolds(q, h % |w.slots|, |w.slots|, m);
      UnlinkRepresents(w.(hand := h), m, q[j].e);
    }
  }

  /** A deadline already reached keeps the hand from passing its slot. */
  lemma HandStopsFor<E>(w: Wheel<E>, m: map<E, nat>, now: nat, e: E)
    requires Represents(w, m) && e in m && m[e] <= now
    ensures NextVisit(w.hand, m[e], |w.slots|) >= Remove(w, now).0.hand
  {
    var i := NextVisit(w.hand, m[e], |w.slots|);
    NextVisitCongruent(w.hand, m[e], |w.slots|);
    if i < Stop(w, now) {
      StopPassed(w, now, i, Item(e, m[e]));
    }
  }

  /** NULL comes back exactly when the hand meets nothing expired on its way past `now`. */
  lemma NullExactly<E>(w: Wheel<E>, m: map<E, nat>, now: nat)
    requires Represents(w, m)
    ensures Remove(w, now).1 == None <==> forall e | e in m :: !Due(w.hand, m[e], now, |w.slots|)
  {
    var n := |w.slots|;
    var (v, r) := Remove(w, now);
    RemoveRepresents(w, m, now);
    if r == None {
      forall e | e in m
        ensures !Due(w.hand, m[e], now, n)
      {
        if m[e] <= now {
          HandStopsFor(w, m, now, e);
        }
      }
    } else {
      var e := r.value;
      NextVisitLeast(w.hand, m[e], n, v.hand);
      assert Due(w.hand, m[e], now, n);
    }
  }

  /** What is removed is what the hand meets first; the hand rests on that visit. */
  lemma RemovesNearest<E>(w: Wheel<E>, m: map<E, nat>, now: nat)
    requires Represents(w, m) && Remove(w, now).1.Some?
    ensures var (v, r) := Remove(w, now);
            r.value in m && Due(w.hand, m[r.value], now, |w.slots|) &&
            v.hand == NextVisit(w.hand, m[r.value], |w.slots|) &&
            forall x | x in m && m[x] <= now :: NextVisit(w.hand, m[x], |w.slots|) >= v.hand
  {
    var (v, r) := Remove(w, now);
    RemoveRepresents(w, m, now);
    NextVisitLeast(w.hand, m[r.value], |w.slots|, v.hand);
    forall x | x in m && m[x] <= now
      ensures NextVisit(w.hand, m[x], |w.slots|) >= v.hand
    {
      HandStopsFor(w, m, now, x);
    }
  }

  /** For a deadline at or after the hand, "met by the hand" is just "reached". */
  lemma TimelyDue(hand: nat, t: nat, now: nat, n: nat)
    requires n > 0 && hand <= t
    ensures Due(hand, t, now, n) <==> t <= now
  {
    NextVisitLeast(hand, t, n, t);
  }

  /** Completeness of NULL: with timely deadlines nothing reached is ever withheld. */
  lemma NullWhenTimely<E>(w: Wheel<E>, m: map<E, nat>, now: nat)
    requires Represents(w, m) && Timely(w.hand, m)
    ensures Remove(w, now).1 == None <==> forall e | e in m :: m[e] > now
    ensures forall e | e in m && Remove(w, now).1 != Some(e) :: Remove(w, now).0.hand <= m[e]
  {
    NullExactly(w, m, now);
    var n := |w.slots|;
    forall e | e in m
      ensures Due(w.hand, m[e], now, n) <==> m[e] <= now
      ensures Remove(w, now).0.hand <= m[e] || m[e] > now
    {
      TimelyDue(w.hand, m[e], now, n);
      NextVisitLeast(w.hand, m[e], n, m[e]);
      if m[e] <= now {
        HandStopsFor(w, m, now, e);
      }
    }
    RemoveRepresents(w, m, now);
  }

  // ---------- draining ----------

  /** The bindings a drain at `now` takes. */
  ghost function DueSet<E>(hand: nat, m: map<E, nat>, now: nat, n: nat): set<E>
    requires n > 0
  {
    set e | e in m && Due(hand, m[e], now, n)
  }

  /** Moving the hand up to, but not past, a visit does not change that visit. */
  lemma NextVisitStable(h: nat, h': nat, t: nat, n: nat)
    requires n > 0 && h <= h'
    ensures NextVisit(h, t, n) <= NextVisit(h', t, n)
    ensures h' <= NextVisit(h, t, n) ==> NextVisit(h', t, n) == NextVisit(h, t, n)
  {
    NextVisitCongruent(h, t, n);
    NextVisitCongruent(h', t, n);
    NextVisitLeast(h, t, n, NextVisit(h', t, n));
    if h' <= NextVisit(h, t, n) {
      NextVisitLeast(h', t, n, NextVisit(h, t, n));
    }
  }

  /** After one removal, what remains due is what was due, minus what was returned. */
  lemma DueSetShrinks<E>(w: Wheel<E>, m: map<E, nat>, now: nat)
    requires Represents(w, m) && Remove(w, now).1.Some?
    ensures var (v, r) := Remove(w, now);
            r.value in DueSet(w.hand, m, now, |w.slots|) &&
            DueSet(v.hand, m - {r.value}, now, |w.slots|) == DueSet(w.hand, m, now, |w.slots|) - {r.value}
  {
    var (v, r) := Remove(w, now);
    RemovesNearest(w, m, now);
    forall x | x in m && x != r.value
      ensures Due(v.hand, m[x], now, |w.slots|) <==> Due(w.hand, m[x], now, |w.slots|)
    {
      NextVisitStable(w.hand, v.hand, m[x], |w.slots|);
    }
  }

  ghost predicate NoRepeat<E>(s: seq<E>)
  {
    forall i, j | 0 <= i < j < |s| :: s[i] != s[j]
  }

  /** es lists the set exactly, without repetition. */
  ghost predicate Enumerates<E>(es: seq<E>, s: set<E>)
  {
    NoRepeat(es) && (set e | e in es) == s && |es| == |s|
  }

  lemma EnumeratesCons<E>(e: E, es: seq<E>, s: set<E>)
    requires e in s && Enumerates(es, s - {e})
    ensures Enumerates([e] + es, s)
  {
    var es' := [e] + es;
    assert (set x | x in es') == {e} + (set x | x in es);
    assert e !in es by {
      assert e !in (set x | x in es);
    }
    forall i, j | 0 <= i < j < |es'|
      ensures es'[i] != es'[j]
    {
      assert es'[j] == es[j - 1] && es[j - 1] in es;
    }
  }

  /** Drain conservation: each due entry is returned once, nothing else is, and the rest stays bound. */
  lemma {:induction false} DrainExact<E>(w: Wheel<E>, m: map<E, nat>, now: nat)
    requires Represents(w, m)
    ensures Enumerates(Drain(w, now).1, DueSet(w.hand, m, now, |w.slots|))
    ensures Represents(Drain(w, now).0, m - DueSet(w.hand, m, now, |w.slots|))
    ensures Drain(w, now).0.hand == if w.hand <= now then now + 1 else w.hand
    decreases if w.hand <= now then now + 1 - w.hand else 0, |SlotAt(w, w.hand)|
  {
    hide Represents, Remove, Enumerates, DueSet, SlotAt;
    SomeSlots(w, m);
    var (v, r) := Remove(w, now);
    var due := DueSet(w.hand, m, now, |w.slots|);
    RemoveRepresents(w, m, now);
    if r == None {
      NothingDue(w, m, now);
    } else {
      var e := r.value;
      RemoveShrinks(w, now);
      DueSetShrinks(w, m, now);
      DrainExact(v, m - {e}, now);
      EnumeratesCons(e, Drain(v, now).1, due);
      assert m - {e} - (due - {e}) == m - due;
    }
  }

  lemma SomeSlots<E>(w: Wheel<E>, m: map<E, nat>)
    requires Represents(w, m)
    ensures |w.slots| > 0
  {}

  lemma NothingDue<E>(w: Wheel<E>, m: map<E, nat>, now: nat)
    requires Represents(w, m) && Remove(w, now).1 == None
    ensures var due := DueSet(w.hand, m, now, |w.slots|); Enumerates([], due) && m - due == m
  {
    NullExactly(w, m, now);
    assert DueSet(w.hand, m, now, |w.slots|) == {};
    assert m - {} == m;
  }

  /** With timely deadlines a drain takes exactly what `now` has reached. */
  lemma DrainTimely<E>(w: Wheel<E>, m: map<E, nat>, now: nat)
    requires Represents(w, m) && Timely(w.hand, m)
    ensures var (v, es) := Drain(w, now);
            Enumerates(es, set e | e in m && m[e] <= now) &&
            Represents(v, map e | e in m && m[e] > now :: m[e]) &&
            Timely(v.hand, map e | e in m && m[e] > now :: m[e])
  {
    var n := |w.slots|;
    DrainExact(w, m, now);
    forall e | e in m
      ensures Due(w.hand, m[e], now, n) <==> m[e] <= now
    {
      TimelyDue(w.hand, m[e], now, n);
    }
    assert DueSet(w.hand, m, now, n) == (set e | e in m && m[e] <= now);
    assert m - DueSet(w.hand, m, now, n) == map e | e in m && m[e] > now :: m[e];
  }

  /** Whatever the deadlines, a drain that moves the hand a full turn leaves nothing reached. */
  lemma FullTurnDrainsAll<E>(w: Wheel<E>, m: map<E, nat>, now: nat)
    requires Represents(w, m) && w.hand + |w.slots| <= now + 1
    ensures var (v, es) := Drain(w, now);
            Enumerates(es, set e | e in m && m[e] <= now) &&
            Represents(v, map e | e in m && m[e] > now :: m[e])
  {
    DrainExact(w, m, now);
    assert DueSet(w.hand, m, now, |w.slots|) == (set e | e in m && m[e] <= now);
    assert m - DueSet(w.hand, m, now, |w.slots|) == map e | e in m && m[e] > now :: m[e];
  }
}
