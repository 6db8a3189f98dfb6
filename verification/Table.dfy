/**
  The dispatcher of src/dispatch.c as a state machine over values: live connections, their records,
  the inactivity wheel, and a trace of callbacks and descriptors.
*/
module Table {
  import opened TimingWheel
  import opened WheelLaws

  datatype Callback = NewConnection | Received | TimedOut | Ended

  datatype Effect<C> = Called(c: C, cb: Callback) | Accepted(fd: int) | Closed(fd: int)

  /** The fields of a connection that the dispatcher relies on; the deadline is its inactivity timer's. */
  datatype Record = Record(index: nat, fd: int, deadline: nat)

  datatype Table<C> = Table(conns: seq<C>, records: map<C, Record>, wheel: Wheel<C>, trace: seq<Effect<C>>)

  /** What select() and recv() report for the connection under the cursor. */
  datatype Outcome = NotReady | Failed | Eof | Data

  function Deadlines<C(==)>(records: map<C, Record>): map<C, nat>
  {
    map c | c in records :: records[c].deadline
  }

  // ---------- operations ----------

  /** connection_add */
  function AddConnection<C(==)>(s: Table<C>, c: C, fd: int, deadline: nat): Table<C>
    requires |s.wheel.slots| > 0
  {
    Table(s.conns + [c], s.records[c := Record(|s.conns|, fd, deadline)], Add(s.wheel, c, deadline),
          s.trace + [Called(c, NewConnection)])
  }

  /** What connection_remove reports and closes. */
  function Farewell<C(==)>(c: C, fd: int): seq<Effect<C>>
  {
    [Called(c, Ended)] + if fd > 0 then [Closed(fd)] else []
  }

  /** The swap-remove of connection_remove on the array of connections. */
  function SwapOut<C(==)>(conns: seq<C>, i: nat): seq<C>
    requires i < |conns|
  {
    conns[i := conns[|conns| - 1]][..|conns| - 1]
  }

  /** connection_remove */
  function RemoveAt<C(==)>(s: Table<C>, i: nat): Table<C>
    requires i < |s.conns| && s.conns[i] in s.records && s.conns[|s.conns| - 1] in s.records
  {
    var c, last := s.conns[i], s.conns[|s.conns| - 1];
    Table(SwapOut(s.conns, i), s.records[last := s.records[last].(index := i)] - {c}, Unlink(s.wheel, c),
          s.trace + Farewell(c, s.records[c].fd))
  }

  // ---------- the structural invariant ----------

  /**
    Connections are distinct, each knows its own index, and the wheel holds exactly the inactivity
    timers of the live connections, but for those in `missing`.
  */
  ghost predicate Linked<C>(s: Table<C>, missing: set<C>)
  {
    NoRepeat(s.conns) &&
    s.records.Keys == (set c | c in s.conns) &&
    (forall k | 0 <= k < |s.conns| :: s.records[s.conns[k]].index == k) &&
    Represents(s.wheel, Deadlines(s.records) - missing)
  }

  ghost predicate Inv<C>(s: Table<C>)
  {
    Linked(s, {})
  }

  lemma AddKeepsInv<C>(s: Table<C>, c: C, fd: int, deadline: nat)
    requires Inv(s) && c !in s.records
    ensures Inv(AddConnection(s, c, fd, deadline))
  {
    var s' := AddConnection(s, c, fd, deadline);
    AddRepresents(s.wheel, Deadlines(s.records) - {}, c, deadline);
    assert Deadlines(s'.records) - {} == (Deadlines(s.records) - {})[c := deadline];
    assert forall k | 0 <= k < |s.conns| :: s.conns[k] in s.records;
  }

  /** Swap-remove takes one element out, wherever it is, and keeps the rest. */
  lemma SwapOutElements<C>(conns: seq<C>, i: nat)
    requires NoRepeat(conns) && i < |conns|
    ensures NoRepeat(SwapOut(conns, i))
    ensures (set c | c in SwapOut(conns, i)) == (set c | c in conns) - {conns[i]}
    ensures |SwapOut(conns, i)| == |conns| - 1
    ensures forall k | 0 <= k < |conns| - 1 :: SwapOut(conns, i)[k] == if k == i then conns[|conns| - 1] else conns[k]
  {
    var r, n := SwapOut(conns, i), |conns|;
    forall c | c in conns && c != conns[i]
      ensures c in r
    {
      var k :| 0 <= k < n && conns[k] == c;
      if k == n - 1 {
        assert r[i] == c;
      } else {
        assert r[k] == c;
      }
    }
  }

  /** Removal repairs the one index it disturbs, and may find the timer already unlinked. */
  lemma RemoveAtKeepsInv<C>(s: Table<C>, i: nat, missing: set<C>)
    requires Linked(s, missing) && i < |s.conns| && missing <= {s.conns[i]}
    ensures s.conns[i] in s.records && s.conns[|s.conns| - 1] in s.records
    ensures Inv(RemoveAt(s, i))
  {
    hide Represents, Unlink, SwapOut;
    assert forall k | 0 <= k < |s.conns| :: s.conns[k] in s.records;
    var c := s.conns[i];
    var s' := RemoveAt(s, i);
    SwapOutElements(s.conns, i);
    UnlinkRepresents(s.wheel, Deadlines(s.records) - missing, c);
    assert Deadlines(s'.records) - {} == Deadlines(s.records) - missing - {c};
  }

  // ---------- the receive loop ----------

  /**
    The loop over connections that receives, from cursor i; one observation per turn, NotReady once
    they run out. The second result lists the connections examined.
  */
  function Scan<C(==)>(s: Table<C>, i: nat, obs: seq<Outcome>): (Table<C>, seq<C>)
    requires Inv(s) && i <= |s.conns|
    decreases |s.conns| - i
  {
    if i == |s.conns| then (s, []) else
      var c := s.conns[i];
      var (o, rest) := if obs == [] then (NotReady, []) else (obs[0], obs[1..]);
      match o
      case Eof =>
        RemoveAtKeepsInv(s, i, {});
        var (s', cs) := Scan(RemoveAt(s, i), i, rest);
        (s', [c] + cs)
      case Data =>
        var (s', cs) := Scan(s.(trace := s.trace + [Called(c, Received)]), i + 1, rest);
        (s', [c] + cs)
      case _ =>
        var (s', cs) := Scan(s, i + 1, rest);
        (s', [c] + cs)
  }

  // ---------- the inactivity sweep ----------

  /** c's own index leads to it. */
  predicate Indexed<C(==)>(s: Table<C>, c: C)
  {
    c in s.records && s.records[c].index < |s.conns| &&
    s.conns[s.records[c].index] == c && s.conns[|s.conns| - 1] in s.records
  }

  /** One turn of timeout_inactivity after timeouts_remove returned c. */
  function Expire<C(==)>(s: Table<C>, v: Wheel<C>, c: C): Table<C>
    requires Indexed(s, c)
  {
    RemoveAt(s.(wheel := v, trace := s.trace + [Called(c, TimedOut)]), s.records[c].index)
  }

  lemma Find<C>(s: Table<C>, c: C)
    requires Inv(s) && c in s.records
    ensures Indexed(s, c)
  {}

  /** The timer that was returned belongs to a live connection, and expiring it keeps the invariant. */
  lemma ExpireKeepsInv<C>(s: Table<C>, now: nat)
    requires Inv(s) && Remove(s.wheel, now).1.Some?
    ensures var (v, r) := Remove(s.wheel, now);
            Indexed(s, r.value) &&
            Inv(Expire(s, v, r.value)) && |Expire(s, v, r.value).conns| == |s.conns| - 1 &&
            Expire(s, v, r.value).wheel == v
  {
    var (v, r) := Remove(s.wheel, now);
    var c := r.value;
    var m := Deadlines(s.records) - {};
    assert m == Deadlines(s.records);
    RemoveRepresents(s.wheel, m, now);
    Find(s, c);
    RemoveAtKeepsInv(s.(wheel := v, trace := s.trace + [Called(c, TimedOut)]), s.records[c].index, {c});
    UnlinkAbsent(v, m - {c}, c);
  }

  /** timeout_inactivity */
  function Sweep<C(==)>(s: Table<C>, now: nat): Table<C>
    requires Inv(s)
    decreases |s.conns|
  {
    var (v, r) := Remove(s.wheel, now);
    match r
    case None => s.(wheel := v)
    case Some(c) =>
      ExpireKeepsInv(s, now);
      Sweep(Expire(s, v, c), now)
  }
}
