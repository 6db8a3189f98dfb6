/**
  The lists of src/event-timeout.h on the heap: an array of list heads, and entries linked through
  `next` and a back link that designates whichever pointer points at them.
*/
module IntrusiveList {
  import opened TimingWheel

  /** C's `struct TimeoutEntry **prev`: null, the address of a slot, or the address of a `next` field. */
  datatype Link = Nowhere | SlotHead(ring: array<Entry?>, k: nat) | NextField(e: Entry)

  /** TimeoutEntry. `address` is where the structure lies in memory. */
  class Entry {
    const address: nat
    var timestamp: nat
    var next: Entry?
    var prev: Link
    var offset: nat

    /** Zeroed memory, which is also what timeout_init leaves of the links. */
    constructor (address: nat)
      ensures Unlinked() && this.address == address && timestamp == offset == 0
    {
      this.address := address;
      timestamp, next, prev, offset := 0, null, Nowhere, 0;
    }

    ghost predicate Unlinked()
      reads this
    {
      next == null && prev == Nowhere
    }
  }

  /** The list that starts at `head`, whose first entry points back to `home`, is q. */
  ghost predicate Chain(head: Entry?, home: Link, q: seq<Item<Entry>>)
    reads set it | it in q :: it.e
  {
    head == (if q == [] then null else q[0].e) &&
    (forall i | 0 <= i < |q| :: q[i].e.timestamp == q[i].t) &&
    (forall i {:trigger q[i].e.next} | 0 <= i < |q| ::
      q[i].e.next == if i + 1 < |q| then q[i + 1].e else null) &&
    (forall i {:trigger q[i].e.prev} | 0 <= i < |q| ::
      q[i].e.prev == if i == 0 then home else NextField(q[i - 1].e))
  }

  ghost function Entries(q: seq<Item<Entry>>): set<Entry>
  {
    set it | it in q :: it.e
  }

  ghost function Members(lists: seq<seq<Item<Entry>>>): set<Entry>
  {
    set q, it | q in lists && it in q :: it.e
  }

  /** No entry occurs twice, in one list or in two. */
  ghost predicate Separate(lists: seq<seq<Item<Entry>>>)
  {
    (forall k | 0 <= k < |lists| :: Distinct(lists[k])) &&
    forall k, k' | 0 <= k < k' < |lists| :: Entries(lists[k]) !! Entries(lists[k'])
  }

  /** The array heads exactly these lists. */
  ghost predicate Heads(slots: array<Entry?>, lists: seq<seq<Item<Entry>>>)
    reads slots, Members(lists)
  {
    slots.Length == |lists| && Separate(lists) &&
    forall k | 0 <= k < |lists| ::
      Entries(lists[k]) <= Members(lists) && Chain(slots[k], SlotHead(slots, k), lists[k])
  }

  /** In a chain the back link of an entry designates the pointer that points at it. */
  lemma BackLink(head: Entry?, home: Link, q: seq<Item<Entry>>, j: nat)
    requires Chain(head, home, q) && j < |q|
    ensures j == 0 ==> q[j].e.prev == home && head == q[j].e
    ensures j > 0 ==> q[j].e.prev == NextField(q[j - 1].e) && q[j - 1].e.next == q[j].e
    ensures q[j].e.next == if j + 1 < |q| then q[j + 1].e else null
  {
    assert j > 0 ==> q[j - 1].e.next == q[j].e;
  }

  /** A chain but for one entry that its neighbours no longer mention. */
  lemma ClosedGap(head: Entry?, home: Link, q: seq<Item<Entry>>, j: nat)
    requires j < |q|
    requires head == if j > 0 then q[0].e else if |q| > 1 then q[1].e else null
    requires forall i | 0 <= i < |q| && i != j :: q[i].e.timestamp == q[i].t
    requires forall i {:trigger q[i].e.next} | 0 <= i < |q| && i != j ::
      q[i].e.next == var r := if i + 1 == j then j + 1 else i + 1; if r < |q| then q[r].e else null
    requires forall i {:trigger q[i].e.prev} | 0 <= i < |q| && i != j ::
      q[i].e.prev == var l := if i - 1 == j then j - 1 else i - 1; if l >= 0 then NextField(q[l].e) else home
    ensures Chain(head, home, q[..j] + q[j + 1..])
  {}

  function Gap<E>(lists: seq<seq<Item<E>>>, k: nat, j: nat): seq<seq<Item<E>>>
    requires k < |lists| && j < |lists[k]|
  {
    lists[k := lists[k][..j] + lists[k][j + 1..]]
  }

  /** The writes of timeout_unlink on a linked entry close the gap in its list. */
  method Splice(entry: Entry, ghost ring: array<Entry?>, ghost home: Link, ghost k: nat,
                ghost q: seq<Item<Entry>>, ghost j: nat)
    requires k < ring.Length && home == SlotHead(ring, k) && Chain(ring[k], home, q)
    requires Distinct(q) && j < |q| && q[j].e == entry
    modifies ring, Entries(q)
    ensures Chain(ring[k], home, q[..j] + q[j + 1..])
    ensures entry.Unlinked() && entry.timestamp == 0
    ensures forall i | 0 <= i < ring.Length && i != k :: ring[i] == old(ring[i])
    ensures forall e | e in Entries(q) :: e.offset == old(e.offset)
  {
    BackLink(ring[k], home, q, j);
    match entry.prev {
      case SlotHead(slots, i) => slots[i] := entry.next;
      case NextField(e) => e.next := entry.next;
    }
    if entry.next != null {
      entry.next.prev := entry.prev;
    }
    entry.next := null;
    entry.prev := Nowhere;
    entry.timestamp := 0;
    ClosedGap(ring[k], home, q, j);
  }

  lemma GapSeparate(lists: seq<seq<Item<Entry>>>, k: nat, j: nat)
    requires k < |lists| && j < |lists[k]| && Separate(lists)
    ensures Separate(Gap(lists, k, j))
    ensures forall i | 0 <= i < |lists| && i != k :: Entries(lists[i]) !! Entries(lists[k])
    ensures forall i | 0 <= i < |lists| :: Entries(Gap(lists, k, j)[i]) <= Members(Gap(lists, k, j))
    ensures forall i | 0 <= i < |lists| && i != k :: Gap(lists, k, j)[i] == lists[i]
    ensures Entries(lists[k]) <= Members(lists)
  {}

  /** The linked case of timeout_unlink, among all the lists of a ring. */
  method SpliceIn(entry: Entry, ghost slots: array<Entry?>, ghost lists: seq<seq<Item<Entry>>>,
                  ghost k: nat, ghost j: nat)
    requires Heads(slots, lists) && k < |lists| && j < |lists[k]| && lists[k][j].e == entry
    modifies slots, Members(lists)
    ensures Heads(slots, Gap(lists, k, j))
    ensures entry.Unlinked() && entry.timestamp == 0
    ensures forall e | e in Members(lists) :: e.offset == old(e.offset)
  {
    ghost var r := Gap(lists, k, j);
    GapSeparate(lists, k, j);
    assert Chain(slots[k], SlotHead(slots, k), lists[k]);
    Splice(entry, slots, SlotHead(slots, k), k, lists[k], j);
    forall i | 0 <= i < |lists|
      ensures Chain(slots[i], SlotHead(slots, i), r[i])
    {
      if i != k {
        assert old(Chain(slots[i], SlotHead(slots, i), lists[i]));
      }
    }
  }

  function Pushed<E>(lists: seq<seq<Item<E>>>, k: nat, it: Item<E>): seq<seq<Item<E>>>
    requires k < |lists|
  {
    lists[k := [it] + lists[k]]
  }

  lemma PushSeparate(lists: seq<seq<Item<Entry>>>, k: nat, it: Item<Entry>)
    requires k < |lists| && Separate(lists) && it.e !in Members(lists)
    ensures Separate(Pushed(lists, k, it))
    ensures forall i | 0 <= i < |lists| :: Entries(Pushed(lists, k, it)[i]) <= Members(Pushed(lists, k, it))
    ensures forall i | 0 <= i < |lists| && i != k ::
              Pushed(lists, k, it)[i] == lists[i] && Entries(lists[i]) !! Entries(lists[k])
    ensures Members(Pushed(lists, k, it)) == Members(lists) + {it.e}
  {
    var r := Pushed(lists, k, it);
    assert Entries(r[k]) == {it.e} + Entries(lists[k]);
    assert Entries(lists[k]) <= Members(lists);
    assert forall i | 0 <= i < |lists| && i != k :: r[i] == lists[i] && Entries(lists[i]) <= Members(lists);
    assert r[k] in r;
    forall q, x | q in lists && x in q
      ensures x.e in Members(r)
    {
      var i :| 0 <= i < |lists| && lists[i] == q;
      assert r[i] in r && x in r[i];
    }
  }

  /** Linking an entry at the head of slot k, as timeouts_add does. */
  method Push(entry: Entry, slots: array<Entry?>, k: nat, ghost lists: seq<seq<Item<Entry>>>)
    requires Heads(slots, lists) && k < |lists| && entry !in Members(lists)
    modifies slots, entry, Members(lists)
    ensures Heads(slots, Pushed(lists, k, Item(entry, entry.timestamp)))
    ensures entry.timestamp == old(entry.timestamp) && entry.offset == old(entry.offset)
    ensures forall e | e in Members(lists) :: e.offset == old(e.offset)
  {
    ghost var it := Item(entry, entry.timestamp);
    ghost var r := Pushed(lists, k, it);
    PushSeparate(lists, k, it);
    assert Chain(slots[k], SlotHead(slots, k), lists[k]);
    entry.next := slots[k];
    slots[k] := entry;
    entry.prev := SlotHead(slots, k);
    if entry.next != null {
      entry.next.prev := NextField(entry);
    }
    forall i | 0 <= i < |lists|
      ensures Chain(slots[i], SlotHead(slots, i), r[i])
    {
      if i != k {
        assert old(Chain(slots[i], SlotHead(slots, i), lists[i]));
      } else {
        Prefixed(slots[k], SlotHead(slots, k), entry, lists[k]);
      }
    }
  }

  /** An entry in front of a chain whose first back link has been turned to it. */
  lemma Prefixed(head: Entry?, home: Link, entry: Entry, q: seq<Item<Entry>>)
    requires head == entry && entry.prev == home && Chain(entry.next, NextField(entry), q)
    ensures Chain(head, home, [Item(entry, entry.timestamp)] + q)
  {}
}
