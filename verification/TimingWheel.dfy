/**
  The timing wheel of src/event-timeout.c as a value: a hand and, for each slot, the entries
  linked there with their deadlines, head of the list first.
*/
module TimingWheel {
  import opened Modular
  import opened Wrappers

  datatype Item<E> = Item(e: E, t: nat)

  datatype Wheel<E> = Wheel(hand: nat, slots: seq<seq<Item<E>>>)

  // ---------- operations ----------

  function Without<E(==)>(q: seq<Item<E>>, e: E): seq<Item<E>>
  {
    if q == [] then [] else
      (if q[0].e == e then [] else [q[0]]) + Without(q[1..], e)
  }

  /** timeout_unlink: the entry leaves whatever list holds it. */
  function Unlink<E(==)>(w: Wheel<E>, e: E): Wheel<E>
  {
    w.(slots := seq(|w.slots|, k requires 0 <= k < |w.slots| => Without(w.slots[k], e)))
  }

  /** timeouts_add: unlink, then insert at the head of the deadline's slot. */
  function Add<E(==)>(w: Wheel<E>, e: E, t: nat): Wheel<E>
    requires |w.slots| > 0
  {
    var k := t % |w.slots|;
    var u := Unlink(w, e);
    u.(slots := u.slots[k := [Item(e, t)] + u.slots[k]])
  }

  /** Position of the first item that `now` has reached, or the length. */
  function FirstExpired<E>(q: seq<Item<E>>, now: nat): (j: nat)
    ensures j <= |q|
    ensures forall i | 0 <= i < j :: q[i].t > now
    ensures j < |q| ==> q[j].t <= now
  {
    if q == [] || q[0].t <= now then 0 else 1 + FirstExpired(q[1..], now)
  }

  function SlotAt<E>(w: Wheel<E>, i: nat): seq<Item<E>>
    requires |w.slots| > 0
  {
    w.slots[i % |w.slots|]
  }

  /** Where the hand comes to rest: at the first slot with something expired, or past `now`. */
  function Stop<E>(w: Wheel<E>, now: nat): (h: nat)
    requires |w.slots| > 0
    ensures w.hand <= h
    ensures h <= now || h == if w.hand <= now then now + 1 else w.hand
    decreases if w.hand <= now then now + 1 - w.hand else 0
  {
    if w.hand > now || FirstExpired(SlotAt(w, w.hand), now) < |SlotAt(w, w.hand)| then w.hand
    else Stop(w.(hand := w.hand + 1), now)
  }

  /** timeouts_remove */
  function Remove<E(==)>(w: Wheel<E>, now: nat): (Wheel<E>, Option<E>)
    requires |w.slots| > 0
  {
    var v := w.(hand := Stop(w, now));
    if v.hand > now then (v, None)
    else
      StopFinds(w, now);
      var q := SlotAt(v, v.hand);
      var e := q[FirstExpired(q, now)].e;
      (Unlink(v, e), Some(e))
  }

  /** timeouts_remove called until it returns NULL; the second result lists what it returned. */
  function Drain<E(==)>(w: Wheel<E>, now: nat): (Wheel<E>, seq<E>)
    requires |w.slots| > 0
    decreases if w.hand <= now then now + 1 - w.hand else 0, |SlotAt(w, w.hand)|
  {
    var (v, r) := Remove(w, now);
    match r
    case None => (v, [])
    case Some(e) =>
      RemoveShrinks(w, now);
      var (v', es) := Drain(v, now);
      (v', [e] + es)
  }

  // ---------- the map a wheel stands for ----------

  ghost predicate Distinct<E>(q: seq<Item<E>>)
  {
    forall i, j | 0 <= i < j < |q| :: q[i].e != q[j].e
  }

  /** Slot k of n holds only bindings of m that belong there, each once. */
  ghost predicate SlotHolds<E>(q: seq<Item<E>>, k: nat, n: nat, m: map<E, nat>)
    requires n > 0
  {
    Distinct(q) &&
    forall i | 0 <= i < |q| :: q[i].e in m && m[q[i].e] == q[i].t && q[i].t % n == k
  }

  /** The wheel holds exactly the bindings of m, each in the slot of its deadline. */
  ghost predicate Represents<E>(w: Wheel<E>, m: map<E, nat>)
  {
    var n := |w.slots|;
    n > 0 &&
    (forall k | 0 <= k < n :: SlotHolds(w.slots[k], k, n, m)) &&
    (forall e | e in m :: Item(e, m[e]) in w.slots[m[e] % n])
  }

  /** The hand will meet deadline t, already reached by `now`, before it passes `now`. */
  predicate Due(hand: nat, t: nat, now: nat, n: nat)
    requires n > 0
  {
    t <= now && NextVisit(hand, t, n) <= now
  }

  ghost predicate Timely<E>(hand: nat, m: map<E, nat>)
  {
    forall e | e in m :: hand <= m[e]
  }

  // ---------- list lemmas ----------

  lemma {:induction false} WithoutMembers<E>(q: seq<Item<E>>, e: E, it: Item<E>)
    ensures it in Without(q, e) <==> it in q && it.e != e
  {
    if q == [] {
    } else {
      assert q == [q[0]] + q[1..];
      WithoutMembers(q[1..], e, it);
    }
  }

  lemma {:induction false} WithoutAbsent<E>(q: seq<Item<E>>, e: E)
    requires forall i | 0 <= i < |q| :: q[i].e != e
    ensures Without(q, e) == q
  {
    if q == [] {
    } else {
      WithoutAbsent(q[1..], e);
    }
  }

  /** With distinct entries, removal closes the gap and keeps the order of the rest. */
  lemma {:induction false} WithoutAt<E>(q: seq<Item<E>>, j: nat)
    requires j < |q| && Distinct(q)
    ensures Without(q, q[j].e) == q[..j] + q[j + 1..]
  {
    if j == 0 {
      WithoutAbsent(q[1..], q[0].e);
    } else {
      WithoutAt(q[1..], j - 1);
      assert q[..j] == [q[0]] + q[1..][..j - 1];
      assert q[1..][j..] == q[j + 1..];
    }
  }

  lemma WithoutDistinct<E>(q: seq<Item<E>>, e: E)
    requires Distinct(q)
    ensures Distinct(Without(q, e))
    ensures |Without(q, e)| <= |q|
    ensures (exists i | 0 <= i < |q| :: q[i].e == e) ==> |Without(q, e)| == |q| - 1
  {
    if i :| 0 <= i < |q| && q[i].e == e {
      WithoutAt(q, i);
    } else {
      WithoutAbsent(q, e);
    }
  }

  lemma {:induction false} WithoutShorter<E>(q: seq<Item<E>>, e: E)
    ensures |Without(q, e)| <= |q|
    ensures (exists i | 0 <= i < |q| :: q[i].e == e) ==> |Without(q, e)| < |q|
  {
    if q == [] {
    } else {
      WithoutShorter(q[1..], e);
      if i :| 0 <= i < |q| && q[i].e == e {
        if i > 0 {
          assert q[1..][i - 1].e == e;
        }
      }
    }
  }

  // ---------- the scan ----------

  lemma {:induction false} StopFinds<E>(w: Wheel<E>, now: nat)
    requires |w.slots| > 0 && Stop(w, now) <= now
    ensures FirstExpired(SlotAt(w, Stop(w, now)), now) < |SlotAt(w, Stop(w, now))|
    decreases if w.hand <= now then now + 1 - w.hand else 0
  {
    if FirstExpired(SlotAt(w, w.hand), now) < |SlotAt(w, w.hand)| {
    } else {
      StopFinds(w.(hand := w.hand + 1), now);
    }
  }

  /** Every index the hand has left behind was a slot with nothing expired. */
  lemma {:induction false} StopPassed<E>(w: Wheel<E>, now: nat, i: nat, it: Item<E>)
    requires |w.slots| > 0 && w.hand <= i < Stop(w, now) && it in SlotAt(w, i)
    ensures it.t > now
    decreases i - w.hand
  {
    if i == w.hand {
      assert FirstExpired(SlotAt(w, i), now) == |SlotAt(w, i)|;
    } else {
      StopPassed(w.(hand := w.hand + 1), now, i, it);
    }
  }

  lemma RemoveShrinks<E>(w: Wheel<E>, now: nat)
    requires |w.slots| > 0
    requires Remove(w, now).1.Some?
    ensures var v := Remove(w, now).0;
            w.hand <= v.hand <= now && |v.slots| == |w.slots| &&
            (v.hand == w.hand ==> |SlotAt(v, v.hand)| < |SlotAt(w, w.hand)|)
  {
    StopFinds(w, now);
    var h := Stop(w, now);
    var q := SlotAt(w, h);
    WithoutShorter(q, q[FirstExpired(q, now)].e);
  }
}
