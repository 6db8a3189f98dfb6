/** The ring of src/event-timeout.c on the heap, proved against the wheel as a value. */
module TimeoutRing {
  import opened Bits
  import opened Ticks
  import opened TimingWheel
  import opened Wrappers
  import opened WheelLaws
  import opened WheelWord
  import opened IntrusiveList

  const OFFSET_RANGE: nat := 0x1_0000_0000

  class Timeouts {
    const slots: array<Entry?>
    var currentIndex: nat
    var mask: nat

    ghost const bits: nat
    ghost var view: Wheel<Entry>
    ghost var deadlines: map<Entry, nat>

    ghost predicate Valid()
      reads this, slots, deadlines.Keys
    {
      bits <= 32 && slots.Length == |view.slots| == Pow2(bits) == mask + 1 &&
      currentIndex == view.hand &&
      Represents(view, deadlines) && Fits(view, deadlines) &&
      Members(view.slots) == deadlines.Keys &&
      Heads(slots, view.slots)
    }

    ghost function Footprint(): set<object>
      reads this
    {
      {this, slots} + deadlines.Keys
    }

    /** timeouts_create, for a ring of 2^bits slots. */
    constructor (secs: int, usecs: nat, bits: nat)
      requires bits <= 32
      ensures Valid() && fresh(slots) && deadlines == map[] && this.bits == bits
      ensures view == Wheel(TimestampFromTv(secs, usecs), seq(Pow2(bits), _ => []))
    {
      slots := new Entry?[Pow2(bits)](_ => null);
      mask := Pow2(bits) - 1;
      currentIndex := TimestampFromTv(secs, usecs);
      this.bits := bits;
      view := Wheel(TimestampFromTv(secs, usecs), seq(Pow2(bits), _ => []));
      deadlines := map[];
    }

    /**
      timeouts_add. The entry may be linked already, in this ring or in another; `from` names that
      ring to the proof.
    */
    method Add(entry: Entry, offset: nat, expires: nat, ghost from: Timeouts?)
      requires Valid() && expires < WORD
      requires from == null ==> entry.Unlinked()
      requires from != null ==> from.Valid() && (entry in from.deadlines || entry.Unlinked())
      requires from != null && from != this ==> from.Footprint() !! Footprint()
      modifies Footprint(), entry, if from == null then {} else from.Footprint()
      ensures Valid() && view == old(TimingWheel.Add(view, entry, expires))
      ensures deadlines == old(deadlines)[entry := expires]
      ensures entry.offset == offset % OFFSET_RANGE
      ensures forall e | e in old(deadlines) && e != entry :: e.offset == old(e.offset)
      ensures from != null && from != this ==>
                from.Valid() && from.view == old(Unlink(from.view, entry)) &&
                from.deadlines == old(from.deadlines) - {entry}
    {
      hide Represents, Heads, Members, Unlink, TimingWheel.Add, Pow2, BitAnd, Pushed, Fits;
      ghost var w, m := view, deadlines;
      ghost var u := Unlink(w, entry);
      if from != this {
        NotHere(this, entry, from);
      }
      TimeoutUnlink(entry, from);
      assert entry.prev == Nowhere; // so the change message of timeouts_add is never printed
      entry.timestamp := expires;
      entry.offset := offset % OFFSET_RANGE;
      var index := BitAnd(expires, mask);
      MaskIsMod(expires, bits);
      AddIsPush(w, m, entry, expires);
      Push(entry, slots, index, u.slots);
      view := TimingWheel.Add(w, entry, expires);
      deadlines := m[entry := expires];
    }

    /**
      timeouts_remove, on every input on which its scan ends. The entry found is returned as the
      address of the structure around it; `found` names it to the proof, and `advances` counts how
      often the hand moved.
    */
    method Remove(now: nat) returns (r: Option<int>, ghost found: Option<Entry>, ghost advances: nat)
      requires Valid() && now < WORD && (now < WORD - 1 || deadlines.Keys != {})
      modifies Footprint()
      ensures Valid() && (view, found) == RemoveWord(old(view), now)
      ensures deadlines == if found.Some? then old(deadlines) - {found.value} else old(deadlines)
      ensures r == if found.Some? then Some(found.value.address - found.value.offset) else None
      ensures found.Some? ==> found.value in old(deadlines) && old(deadlines)[found.value] <= now &&
                              found.value.Unlinked()
      ensures forall e | e in old(deadlines) :: e.offset == old(e.offset)
      ensures advances == Moves(old(view), now)
    {
      hide Represents, Heads, Members, Unlink, Pow2, BitAnd, Stop, RemoveWord, Fits, Scanning,
           WrapsScan, SlotAt, FirstExpired, NextIndex, Moves;
      ghost var w, m := view, deadlines;
      ghost var wrapped := false;
      advances := 0;
      var entry: Entry? := null;
      ScanStarts(w, m, now);
      MovesAre(w, now);
      while currentIndex <= now
        invariant entry == null && Valid() && unchanged(slots) && deadlines == m
        invariant view.slots == w.slots && Scanning(w, view, now, wrapped)
        invariant forall e | e in m :: unchanged(e)
        invariant w.hand + advances == currentIndex + if wrapped then WORD else 0
        decreases !wrapped, now + 1 - currentIndex
      {
        SlotFacts(this, currentIndex);
        entry := slots[BitAnd(currentIndex, mask)];
        ghost var q := SlotAt(view, currentIndex);
        ghost var j := 0;
        while entry != null && entry.timestamp > now
          invariant j <= |q| && entry == (if j < |q| then q[j].e else null)
          invariant forall i | 0 <= i < j :: q[i].t > now
          decreases |q| - j
        {
          entry := entry.next;
          j := j + 1;
        }
        if entry != null {
          assert entry == q[FirstExpired(q, now)].e;
          break;
        }
        ghost var v := view.(hand := NextIndex(view.hand));
        ScanMoves(w, view, m, now, wrapped);
        MoveRepresents(view, m, v.hand);
        wrapped := wrapped || view.hand + 1 == WORD;
        view := v;
        currentIndex := NextIndex(currentIndex);
        advances := advances + 1;
      }
      ScanEnds(w, view, now, wrapped);
      if entry == null {
        return None, None, advances;
      }
      TimeoutUnlink(entry, this);
      return Some(entry.address - entry.offset), Some(entry), advances;
    }
  }

  lemma ScanStarts(w: Wheel<Entry>, m: map<Entry, nat>, now: nat)
    requires Represents(w, m) && Fits(w, m)
    ensures Scanning(w, w, now, false)
  {}

  lemma MoveRepresents(w: Wheel<Entry>, m: map<Entry, nat>, hand: nat)
    requires Represents(w, m) && Fits(w, m) && hand < WORD
    ensures Represents(w.(hand := hand), m) && Fits(w.(hand := hand), m)
  {}

  /** What Valid says of the slot at index i. */
  lemma SlotFacts(ring: Timeouts, i: nat)
    requires ring.Valid()
    ensures var k, q := BitAnd(i, ring.mask), SlotAt(ring.view, i);
            k < ring.slots.Length && Chain(ring.slots[k], SlotHead(ring.slots, k), q) &&
            forall j | 0 <= j < |q| :: q[j].e in ring.deadlines && ring.deadlines[q[j].e] == q[j].t
  {
    MaskIsMod(i, ring.bits);
    var w := ring.view;
    assert SlotHolds(w.slots[i % |w.slots|], i % |w.slots|, |w.slots|, ring.deadlines);
  }

  /** On the lists, adding is unlinking and then pushing at the head of the deadline's slot. */
  lemma AddIsPush(w: Wheel<Entry>, m: map<Entry, nat>, e: Entry, t: nat)
    requires Represents(w, m) && Fits(w, m) && t < WORD
    ensures var u, v := Unlink(w, e), TimingWheel.Add(w, e, t);
            |w.slots| > 0 && |u.slots| == |w.slots| && u.hand == w.hand &&
            Members(u.slots) == m.Keys - {e} &&
            v == u.(slots := Pushed(u.slots, t % |w.slots|, Item(e, t))) &&
            Represents(v, m[e := t]) && Fits(v, m[e := t]) && Members(v.slots) == m.Keys + {e}
  {
    UnlinkRepresents(w, m, e);
    MembersAre(Unlink(w, e), m - {e});
    AddRepresents(w, m, e, t);
    MembersAre(TimingWheel.Add(w, e, t), m[e := t]);
  }

  /** The stored offset leads back to the structure exactly when it survived the cast to unsigned. */
  lemma ContainerExactly(address: int, offset: nat)
    ensures address - offset % OFFSET_RANGE == address - offset <==> offset < OFFSET_RANGE
  {}

  /**
    A user of the ring: an entry added with the offset at which it lies in its structure, and a removal
    that returns it. The removal gives back the structure exactly when the offset survived the cast.
  */
  method AddThenRemove(ring: Timeouts, entry: Entry, offset: nat, expires: nat, now: nat)
    returns (r: Option<int>, ghost found: Option<Entry>)
    requires ring.Valid() && entry.Unlinked() && expires < WORD && now < WORD
    modifies ring.Footprint(), entry
    ensures ring.Valid() && |old(ring.view).slots| > 0
    ensures (ring.view, found) == RemoveWord(old(TimingWheel.Add(ring.view, entry, expires)), now)
    ensures found == Some(entry) ==> (r == Some(entry.address - offset) <==> offset < 0x1_0000_0000)
  {
    hide Timeouts.Valid, RemoveWord, TimingWheel.Add, Moves;
    NotEmpty(ring);
    ring.Add(entry, offset, expires, null);
    assert entry in ring.deadlines.Keys;
    ghost var advances;
    r, found, advances := ring.Remove(now);
    ContainerExactly(entry.address, offset);
  }

  lemma NotEmpty(ring: Timeouts)
    requires ring.Valid()
    ensures |ring.view.slots| > 0
  {}

  // ---------- unlinking ----------

  /** Unlinking a linked entry changes one slot, where it closes the gap. */
  lemma UnlinkAt(w: Wheel<Entry>, m: map<Entry, nat>, entry: Entry) returns (k: nat, j: nat)
    requires Represents(w, m) && entry in m
    ensures k < |w.slots| && j < |w.slots[k]| && w.slots[k][j].e == entry
    ensures Unlink(w, entry) == w.(slots := Gap(w.slots, k, j))
  {
    k := m[entry] % |w.slots|;
    j :| 0 <= j < |w.slots[k]| && w.slots[k][j] == Item(entry, m[entry]);
    assert SlotHolds(w.slots[k], k, |w.slots|, m);
    WithoutAt(w.slots[k], j);
    forall i | 0 <= i < |w.slots| && i != k
      ensures Without(w.slots[i], entry) == w.slots[i]
    {
      assert SlotHolds(w.slots[i], i, |w.slots|, m);
      WithoutAbsent(w.slots[i], entry);
    }
  }

  lemma MembersAre(w: Wheel<Entry>, m: map<Entry, nat>)
    requires Represents(w, m)
    ensures Members(w.slots) == m.Keys
  {}

  lemma LinkedIsNotNull(ring: Timeouts, entry: Entry)
    requires ring.Valid() && entry in ring.deadlines
    ensures entry.prev != Nowhere
  {
    var k, j := UnlinkAt(ring.view, ring.deadlines, entry);
    BackLink(ring.slots[k], SlotHead(ring.slots, k), ring.view.slots[k], j);
  }

  /** An entry that is unlinked, or linked in another ring, is not in this one. */
  lemma NotHere(ring: Timeouts, entry: Entry, from: Timeouts?)
    requires ring.Valid()
    requires from == null ==> entry.Unlinked()
    requires from != null ==> (entry in from.deadlines || entry.Unlinked()) && from.Footprint() !! ring.Footprint()
    ensures entry !in ring.deadlines && Unlink(ring.view, entry) == ring.view
  {
    hide Timeouts.Valid, Unlink, Represents;
    RingRepresents(ring);
    if entry in ring.deadlines {
      LinkedIsNotNull(ring, entry);
    } else {
      UnlinkAbsent(ring.view, ring.deadlines, entry);
    }
  }

  lemma RingRepresents(ring: Timeouts)
    requires ring.Valid()
    ensures Represents(ring.view, ring.deadlines)
  {}

  /** timeout_unlink, given only the entry. The ring that holds it, if any, is known to the proof alone. */
  method TimeoutUnlink(entry: Entry, ghost ring: Timeouts?)
    requires ring == null ==> entry.Unlinked()
    requires ring != null ==> ring.Valid() && (entry in ring.deadlines || entry.Unlinked())
    modifies if ring == null then {} else ring.Footprint()
    ensures entry.Unlinked()
    ensures ring != null ==> ring.Valid() && ring.view == old(Unlink(ring.view, entry)) &&
                             ring.deadlines == old(ring.deadlines) - {entry} &&
                             ring.currentIndex == old(ring.currentIndex)
    ensures ring != null && old(entry in ring.deadlines) ==> entry.timestamp == 0
    ensures old(entry.Unlinked()) ==> unchanged(entry)
    ensures ring != null ==> forall e | e in old(ring.deadlines) :: e.offset == old(e.offset)
  {
    hide Represents, Heads, Unlink;
    if ring != null && entry in ring.deadlines {
      LinkedIsNotNull(ring, entry);
    }
    if entry.prev == Nowhere && entry.next == null {
      if ring != null {
        UnlinkAbsent(ring.view, ring.deadlines, entry);
        assert ring.deadlines - {entry} == ring.deadlines;
      }
      return;
    }
    ghost var w, m := ring.view, ring.deadlines;
    ghost var k, j := UnlinkAt(w, m, entry);
    UnlinkRepresents(w, m, entry);
    MembersAre(Unlink(w, entry), m - {entry});
    SpliceIn(entry, ring.slots, w.slots, k, j);
    ring.view := Unlink(w, entry);
    ring.deadlines := m - {entry};
  }

  /** Several rings at once: the entry leaves whichever list of whichever ring holds it, and nothing else moves. */
  method TimeoutUnlinkAmong(entry: Entry, ghost rings: set<Timeouts>)
    requires forall r | r in rings :: r.Valid()
    requires forall r, r' | r in rings && r' in rings && r != r' :: r.Footprint() !! r'.Footprint()
    requires entry.Unlinked() || exists r | r in rings :: entry in r.deadlines
    modifies set r, o | r in rings && o in r.Footprint() :: o
    ensures entry.Unlinked()
    ensures forall r | r in rings :: r.Valid() && r.view == old(Unlink(r.view, entry)) &&
                                     r.deadlines == old(r.deadlines) - {entry}
    ensures old(entry.Unlinked()) ==> unchanged(entry) && forall r | r in rings :: unchanged(r, r.slots)
  {
    hide Represents, Heads, Unlink, Members, Fits;
    ghost var ring: Timeouts? := null;
    if r :| r in rings && entry in r.deadlines {
      ring := r;
      LinkedIsNotNull(r, entry);
    }
    forall r | r in rings && r != ring
      ensures Unlink(r.view, entry) == r.view && r.deadlines - {entry} == r.deadlines
    {
      assert ring != null ==> r.Footprint() !! ring.Footprint();
      UnlinkAbsent(r.view, r.deadlines, entry);
    }
    TimeoutUnlink(entry, ring);
  }
}
