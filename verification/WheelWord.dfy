/** The hand is a 64-bit counter: when the scan of timeouts_remove ends, and what it does at the last value. */
module WheelWord {
  import opened Ticks
  import opened TimingWheel
  import opened Wrappers
  import opened WheelLaws

  /** Deadlines and hand fit their fields. */
  ghost predicate Fits<E>(w: Wheel<E>, m: map<E, nat>)
  {
    w.hand < WORD && forall e | e in m :: m[e] < WORD
  }

  /** `current_index++` on 64 bits. */
  function NextIndex(i: nat): (r: nat)
    requires i < WORD
    ensures r < WORD
  {
    if i + 1 == WORD then 0 else i + 1
  }

  /** The index examined in the k-th turn of the scan, if it gets that far. */
  function HandAfter(hand: nat, k: nat): nat
  {
    (hand + k) % WORD
  }

  /** The scan ends at its k-th turn. */
  predicate EndsAt<E>(w: Wheel<E>, now: nat, k: nat)
    requires |w.slots| > 0
  {
    var h := HandAfter(w.hand, k);
    h > now || FirstExpired(SlotAt(w, h), now) < |SlotAt(w, h)|
  }

  lemma PendingEndsScan<E>(w: Wheel<E>, m: map<E, nat>, e: E) returns (k: nat)
    requires Represents(w, m) && Fits(w, m) && e in m
    ensures EndsAt(w, WORD - 1, k)
  {
    k := if w.hand <= m[e] then m[e] - w.hand else m[e] + WORD - w.hand;
    assert HandAfter(w.hand, k) == m[e];
    assert Item(e, m[e]) in SlotAt(w, m[e]);
  }

  lemma HeadBound<E>(q: seq<Item<E>>, k: nat, n: nat, m: map<E, nat>)
    requires n > 0 && SlotHolds(q, k, n, m)
    ensures q == [] || q[0].e in m.Keys
  {}

  lemma EmptyNeverEnds<E>(w: Wheel<E>, m: map<E, nat>, k: nat)
    requires Represents(w, m) && m.Keys == {}
    ensures !EndsAt(w, WORD - 1, k)
  {
    var i := HandAfter(w.hand, k) % |w.slots|;
    assert SlotHolds(w.slots[i], i, |w.slots|, m);
    HeadBound(w.slots[i], i, |w.slots|, m);
  }

  /** The scan ends unless `now` is the last 64-bit value and nothing at all is pending. */
  lemma ScanEndsExactly<E>(w: Wheel<E>, m: map<E, nat>, now: nat)
    requires Represents(w, m) && Fits(w, m) && now < WORD
    ensures (exists k: nat :: EndsAt(w, now, k)) <==> now < WORD - 1 || m.Keys != {}
  {
    assert |w.slots| > 0;
    hide Represents, FirstExpired, SlotAt;
    if now < WORD - 1 {
      var k := if w.hand > now then 0 else now + 1 - w.hand;
      assert EndsAt(w, now, k);
    } else if m.Keys != {} {
      var e :| e in m;
      var k := PendingEndsScan(w, m, e);
    } else {
      forall k: nat
        ensures !EndsAt(w, now, k)
      {
        EmptyNeverEnds(w, m, k);
      }
    }
  }

  /** Nothing from the hand to the last 64-bit value, and no reason to stop there. */
  predicate WrapsScan<E>(w: Wheel<E>, now: nat)
    requires |w.slots| > 0
  {
    now == WORD - 1 && Stop(w, now) > now
  }

  /** timeouts_remove on the 64-bit counter, which starts over at 0 when it passes the last value. */
  function RemoveWord<E(==)>(w: Wheel<E>, now: nat): (Wheel<E>, Option<E>)
    requires |w.slots| > 0
  {
    if WrapsScan(w, now) then Remove(w.(hand := 0), now) else Remove(w, now)
  }

  /** Starting over at 0, the scan for the last value meets any pending entry. */
  lemma SecondRoundFinds<E>(w: Wheel<E>, m: map<E, nat>)
    requires Represents(w, m) && Fits(w, m) && m.Keys != {}
    ensures Stop(w.(hand := 0), WORD - 1) < WORD
  {
    var e :| e in m;
    var z := w.(hand := 0);
    if Stop(z, WORD - 1) >= WORD {
      assert Item(e, m[e]) in SlotAt(z, m[e]);
      StopPassed(z, WORD - 1, m[e], Item(e, m[e]));
    }
  }

  /** Whenever the scan ends, it leaves a 64-bit hand; at the last value it always finds an entry. */
  lemma RemoveWordFits<E>(w: Wheel<E>, m: map<E, nat>, now: nat)
    requires Represents(w, m) && Fits(w, m) && now < WORD && (now < WORD - 1 || m.Keys != {})
    ensures RemoveWord(w, now).0.hand < WORD
    ensures now == WORD - 1 ==> RemoveWord(w, now).1.Some?
    ensures now < WORD - 1 ==> RemoveWord(w, now) == Remove(w, now)
  {
    if now == WORD - 1 {
      SecondRoundFinds(w, m);
    }
  }

  lemma StopStep<E>(w: Wheel<E>, now: nat)
    requires |w.slots| > 0
    ensures w.hand > now ==> Stop(w, now) == w.hand
    ensures FirstExpired(SlotAt(w, w.hand), now) < |SlotAt(w, w.hand)| ==> Stop(w, now) == w.hand
    ensures w.hand <= now && FirstExpired(SlotAt(w, w.hand), now) == |SlotAt(w, w.hand)| ==>
              Stop(w, now) == Stop(w.(hand := w.hand + 1), now)
  {}

  /** The scan that began at w now stands at v: in its first round, or in its second, begun at 0. */
  ghost predicate Scanning<E>(w: Wheel<E>, v: Wheel<E>, now: nat, wrapped: bool)
  {
    |w.slots| > 0 && v == w.(hand := v.hand) && v.hand < WORD &&
    if wrapped then WrapsScan(w, now) && Stop(v, now) == Stop(w.(hand := 0), now)
    else Stop(v, now) == Stop(w, now)
  }

  /** One empty slot on. A second wrap cannot happen while anything is pending. */
  lemma ScanMoves<E>(w: Wheel<E>, v: Wheel<E>, m: map<E, nat>, now: nat, wrapped: bool)
    requires Represents(w, m) && Fits(w, m) && now < WORD && (now < WORD - 1 || m.Keys != {})
    requires Scanning(w, v, now, wrapped) && v.hand <= now
    requires FirstExpired(SlotAt(v, v.hand), now) == |SlotAt(v, v.hand)|
    ensures v.hand + 1 == NextIndex(v.hand) + if v.hand + 1 == WORD then WORD else 0
    ensures v.hand + 1 < WORD || !wrapped
    ensures Scanning(w, v.(hand := NextIndex(v.hand)), now, wrapped || v.hand + 1 == WORD)
  {
    StopStep(v, now);
    StopStep(v.(hand := v.hand + 1), now);
    if now == WORD - 1 {
      SecondRoundFinds(w, m);
    }
  }

  /** Where the scan stands still is what RemoveWord says. */
  lemma ScanEnds<E>(w: Wheel<E>, v: Wheel<E>, now: nat, wrapped: bool)
    requires Scanning(w, v, now, wrapped) && now < WORD
    ensures v.hand > now ==> RemoveWord(w, now) == (v, None) && wrapped == WrapsScan(w, now)
    ensures FirstExpired(SlotAt(v, v.hand), now) < |SlotAt(v, v.hand)| && v.hand <= now ==>
      var e := SlotAt(v, v.hand)[FirstExpired(SlotAt(v, v.hand), now)].e;
      RemoveWord(w, now) == (Unlink(v, e), Some(e)) && wrapped == WrapsScan(w, now)
  {
    StopStep(v, now);
  }

  /** In every case the map loses the entry returned, whose deadline has been reached, and nothing else. */
  lemma RemoveWordRepresents<E>(w: Wheel<E>, m: map<E, nat>, now: nat)
    requires Represents(w, m)
    ensures var (v, r) := RemoveWord(w, now);
            match r
            case None => Represents(v, m)
            case Some(e) => e in m && m[e] <= now && Represents(v, m - {e})
  {
    RemoveRepresents(w, m, now);
    RemoveRepresents(w.(hand := 0), m, now);
  }

  // ---------- how far the hand moves ----------

  /** How often one call of timeouts_remove moves the hand. */
  function Moves<E(==)>(w: Wheel<E>, now: nat): (k: nat)
    requires |w.slots| > 0 && w.hand < WORD
  {
    if WrapsScan(w, now) then WORD - w.hand + Stop(w.(hand := 0), now) else Stop(w, now) - w.hand
  }

  lemma {:induction false} StopUnexpired<E>(w: Wheel<E>, now: nat, i: nat)
    requires |w.slots| > 0 && w.hand <= i < Stop(w, now)
    ensures i <= now && FirstExpired(SlotAt(w, i), now) == |SlotAt(w, i)|
    decreases i - w.hand
  {
    if i == w.hand {
    } else {
      StopUnexpired(w.(hand := w.hand + 1), now, i);
    }
  }

  lemma StopEnds<E>(w: Wheel<E>, now: nat)
    requires |w.slots| > 0
    ensures Stop(w, now) > now || FirstExpired(SlotAt(w, Stop(w, now)), now) < |SlotAt(w, Stop(w, now))|
  {
    if Stop(w, now) <= now {
      StopFinds(w, now);
    }
  }

  lemma HandAfterIs(hand: nat, k: nat)
    requires hand < WORD
    ensures hand + k < WORD ==> HandAfter(hand, k) == hand + k
    ensures WORD <= hand + k < 2 * WORD ==> HandAfter(hand, k) == hand + k - WORD
  {}

  /** It is the first turn of the scan at which its loop condition or its search ends it. */
  lemma MovesLeast<E>(w: Wheel<E>, m: map<E, nat>, now: nat)
    requires Represents(w, m) && Fits(w, m) && now < WORD && (now < WORD - 1 || m.Keys != {})
    ensures |w.slots| > 0 && EndsAt(w, now, Moves(w, now))
    ensures forall j: nat | j < Moves(w, now) :: !EndsAt(w, now, j)
  {
    hide HandAfter, FirstExpired, SlotAt;
    SomeSlots(w, m);
    var z := w.(hand := 0);
    var moves := Moves(w, now);
    if WrapsScan(w, now) {
      SecondRoundFinds(w, m);
    }
    HandAfterIs(w.hand, moves);
    StopEnds(w, now);
    StopEnds(z, now);
    SameSlots(w, z);
    forall j: nat | j < moves
      ensures !EndsAt(w, now, j)
    {
      HandAfterIs(w.hand, j);
      if w.hand + j < WORD {
        StopUnexpired(w, now, w.hand + j);
      } else {
        StopUnexpired(z, now, w.hand + j - WORD);
      }
    }
  }

  lemma SameSlots<E>(w: Wheel<E>, z: Wheel<E>)
    requires |w.slots| > 0 && w.slots == z.slots
    ensures forall i: nat :: SlotAt(w, i) == SlotAt(z, i)
  {}

  /** The hand goes back exactly when the scan runs past the last 64-bit value. */
  lemma BackExactlyOnWrap<E>(w: Wheel<E>, m: map<E, nat>, now: nat)
    requires Represents(w, m) && Fits(w, m) && now < WORD && (now < WORD - 1 || m.Keys != {})
    ensures |w.slots| > 0
    ensures RemoveWord(w, now).0.hand < w.hand <==> WrapsScan(w, now)
  {
    SomeSlots(w, m);
    if WrapsScan(w, now) {
      var z := w.(hand := 0);
      SecondRoundFinds(w, m);
      StopFinds(z, now);
      var h := Stop(z, now);
      if h >= w.hand {
        StopUnexpired(w, now, h);
      }
    }
  }

  lemma MovesAre<E>(w: Wheel<E>, now: nat)
    requires |w.slots| > 0 && w.hand < WORD
    ensures w.hand + Moves(w, now) == RemoveWord(w, now).0.hand + if WrapsScan(w, now) then WORD else 0
  {}
}
