/** What the receive loop and the inactivity sweep of src/dispatch.c do to the table. */
module TableLaws {
  import opened TimingWheel
  import opened Wrappers
  import opened WheelLaws
  import opened Table

  // ---------- the sweep ----------

  function Fds<C(==)>(records: map<C, Record>): map<C, int>
  {
    map c | c in records :: records[c].fd
  }

  /** For each expired connection in turn: the timeout callback, then the end, then the close. */
  function ExpiryTrace<C(==)>(fds: map<C, int>, cs: seq<C>): seq<Effect<C>>
    requires forall c | c in cs :: c in fds
  {
    if cs == [] then [] else
      [Called(cs[0], TimedOut)] + Farewell(cs[0], fds[cs[0]]) + ExpiryTrace(fds, cs[1..])
  }

  lemma {:induction false} ExpiryTraceAgrees<C>(a: map<C, int>, b: map<C, int>, cs: seq<C>)
    requires forall c | c in cs :: c in a && c in b && a[c] == b[c]
    ensures ExpiryTrace(a, cs) == ExpiryTrace(b, cs)
  {
    if cs == [] {
    } else {
      ExpiryTraceAgrees(a, b, cs[1..]);
    }
  }

  /** The records of `after` are those of `before` for some connections, but for their indices. */
  ghost predicate KeepsRecords<C>(after: map<C, Record>, before: map<C, Record>)
  {
    forall c | c in after :: c in before && after[c].fd == before[c].fd && after[c].deadline == before[c].deadline
  }

  /** s' is what remains of s after the connections cs, in that order, were expired. */
  ghost predicate SweepDone<C>(s: Table<C>, cs: seq<C>, s': Table<C>)
  {
    (forall c | c in cs :: c in s.records) &&
    s'.records.Keys == s.records.Keys - (set c | c in cs) &&
    KeepsRecords(s'.records, s.records) &&
    s'.trace == s.trace + ExpiryTrace(Fds(s.records), cs)
  }

  lemma RemovedRecords<C>(s: Table<C>, i: nat)
    requires Inv(s) && i < |s.conns|
    ensures s.conns[i] in s.records && s.conns[|s.conns| - 1] in s.records
    ensures var e := RemoveAt(s, i);
            e.records.Keys == s.records.Keys - {s.conns[i]} && KeepsRecords(e.records, s.records) &&
            e.trace == s.trace + Farewell(s.conns[i], s.records[s.conns[i]].fd) &&
            e.wheel.hand == s.wheel.hand && |e.conns| == |s.conns| - 1
  {}

  lemma ExpireRecords<C>(s: Table<C>, now: nat)
    requires Inv(s) && Remove(s.wheel, now).1.Some?
    ensures var (v, r) := Remove(s.wheel, now);
            var c := r.value;
            Indexed(s, c) &&
            var e := Expire(s, v, c);
            Inv(e) && |e.conns| < |s.conns| && e.wheel == v &&
            e.records.Keys == s.records.Keys - {c} && KeepsRecords(e.records, s.records) &&
            e.trace == s.trace + [Called(c, TimedOut)] + Farewell(c, s.records[c].fd)
  {
    hide Represents, Unlink, Remove, NoRepeat, Farewell;
    ExpireKeepsInv(s, now);
  }

  lemma ExpiryTraceCons<C>(fds: map<C, int>, c: C, cs: seq<C>)
    requires c in fds && forall x | x in cs :: x in fds
    ensures (set x | x in [c] + cs) == {c} + (set x | x in cs)
    ensures ExpiryTrace(fds, [c] + cs) == [Called(c, TimedOut)] + Farewell(c, fds[c]) + ExpiryTrace(fds, cs)
  {
    hide Farewell;
    var cs' := [c] + cs;
    assert cs'[1..] == cs;
    assert forall x :: x in cs' <==> x == c || x in cs;
  }

  /** One expiry followed by the rest, in terms of the table before it. */
  lemma SweepJoins<C>(s: Table<C>, e: Table<C>, c: C, cs: seq<C>, s': Table<C>)
    requires c in s.records && e.records.Keys == s.records.Keys - {c} && KeepsRecords(e.records, s.records)
    requires e.trace == s.trace + [Called(c, TimedOut)] + Farewell(c, s.records[c].fd)
    requires SweepDone(e, cs, s')
    ensures SweepDone(s, [c] + cs, s')
  {
    hide Farewell, ExpiryTrace;
    ExpiryTraceAgrees(Fds(e.records), Fds(s.records), cs);
    ExpiryTraceCons(Fds(s.records), c, cs);
    var head, farewell, rest := [Called(c, TimedOut)], Farewell(c, s.records[c].fd), ExpiryTrace(Fds(s.records), cs);
    assert s.trace + head + farewell + rest == s.trace + (head + farewell + rest);
  }

  /**
    The sweep is the wheel's drain: the connections drained, in that order, are each told of the
    timeout, ended and closed; the others keep descriptor and deadline.
  */
  lemma {:induction false} SweepFollowsDrain<C>(s: Table<C>, now: nat)
    requires Inv(s)
    ensures Inv(Sweep(s, now)) && Sweep(s, now).wheel == Drain(s.wheel, now).0
    ensures SweepDone(s, Drain(s.wheel, now).1, Sweep(s, now))
    decreases |s.conns|
  {
    assert |s.wheel.slots| > 0;
    hide Represents, Remove, Unlink, KeepsRecords, Expire, NoRepeat;
    var (v, r) := Remove(s.wheel, now);
    match r {
      case None => NothingSwept(s, v, now);
      case Some(c) =>
        ExpireRecords(s, now);
        RemoveShrinks(s.wheel, now);
        var e := Expire(s, v, c);
        SweepFollowsDrain(e, now);
        SweepJoins(s, e, c, Drain(v, now).1, Sweep(e, now));
    }
  }

  lemma NothingSwept<C>(s: Table<C>, v: Wheel<C>, now: nat)
    requires Inv(s) && Remove(s.wheel, now) == (v, None)
    ensures Inv(s.(wheel := v)) && SweepDone(s, [], s.(wheel := v))
  {
    RemoveRepresents(s.wheel, Deadlines(s.records) - {}, now);
  }

  /** Sweep exactness: with timely deadlines the sweep ends the connections `now` has reached, and no other. */
  lemma SweepTimely<C>(s: Table<C>, now: nat)
    requires Inv(s) && Timely(s.wheel.hand, Deadlines(s.records))
    ensures var s' := Sweep(s, now);
            Inv(s') && KeepsRecords(s'.records, s.records) &&
            Enumerates(Drain(s.wheel, now).1, set c | c in s.records && s.records[c].deadline <= now) &&
            s'.records.Keys == (set c | c in s.records && s.records[c].deadline > now) &&
            s'.wheel.hand == (if s.wheel.hand <= now then now + 1 else s.wheel.hand) &&
            Timely(s'.wheel.hand, Deadlines(s'.records))
  {
    hide Represents, Sweep, Drain, Due, NoRepeat, ExpiryTrace;
    var m := Deadlines(s.records);
    assert m - {} == m;
    SweepFollowsDrain(s, now);
    DrainExact(s.wheel, m, now);
    DrainTimely(s.wheel, m, now);
    assert (set c | c in s.records && s.records[c].deadline <= now) == set c | c in m && m[c] <= now;
  }

  /** Without timeliness: a sweep a full turn of the wheel later leaves nothing expired. */
  lemma SweepFullTurn<C>(s: Table<C>, now: nat)
    requires Inv(s) && s.wheel.hand + |s.wheel.slots| <= now + 1
    ensures Sweep(s, now).records.Keys == set c | c in s.records && s.records[c].deadline > now
  {
    hide Represents, Sweep, Drain, Due, NoRepeat, ExpiryTrace;
    var m := Deadlines(s.records);
    assert m - {} == m;
    SweepFollowsDrain(s, now);
    FullTurnDrainsAll(s.wheel, m, now);
    assert (set c | c in s.records && s.records[c].deadline <= now) == set c | c in m && m[c] <= now;
  }

  /** After timeouts_remove only the timer it returned is missing from the ring. */
  lemma RemovalLinked<C>(s: Table<C>, now: nat)
    requires Inv(s)
    ensures |s.wheel.slots| > 0
    ensures var (v, r) := Remove(s.wheel, now);
            match r
            case None => Linked(s.(wheel := v), {})
            case Some(e) => Indexed(s, e) && Linked(s.(wheel := v), {e}) &&
                            Deadlines(s.records) - {} - {e} == Deadlines(s.records) - {e}
  {
    hide NoRepeat;
    RemoveRepresents(s.wheel, Deadlines(s.records) - {}, now);
    var (v, r) := Remove(s.wheel, now);
    if r.Some? {
      Find(s, r.value);
      assert Deadlines(s.records) - {} - {r.value} == Deadlines(s.records) - {r.value};
    }
  }

  /** Sweep, one turn unrolled. */
  lemma SweepTurn<C>(s: Table<C>, now: nat)
    requires Inv(s)
    ensures |s.wheel.slots| > 0
    ensures var (v, r) := Remove(s.wheel, now);
            match r
            case None => Sweep(s, now) == s.(wheel := v)
            case Some(e) =>
              Indexed(s, e) && Inv(Expire(s, v, e)) && Sweep(s, now) == Sweep(Expire(s, v, e), now) &&
              Expire(s, v, e) ==
                RemoveAt(s.(wheel := v).(trace := s.trace + [Called(e, TimedOut)]), s.records[e].index)
  {
    hide Represents, NoRepeat, RemoveAt;
    RemovalLinked(s, now);
    if Remove(s.wheel, now).1.Some? {
      ExpireKeepsInv(s, now);
    }
  }

  // ---------- the receive loop ----------

  /** What the loop reports, given the connections in the order examined. */
  function ScanTrace<C(==)>(fds: map<C, int>, cs: seq<C>, obs: seq<Outcome>): seq<Effect<C>>
    requires forall c | c in cs :: c in fds
  {
    if cs == [] || obs == [] then [] else
      (match obs[0]
       case Eof => Farewell(cs[0], fds[cs[0]])
       case Data => [Called(cs[0], Received)]
       case _ => [])
      + ScanTrace(fds, cs[1..], obs[1..])
  }

  /** The connections for which the loop saw end of file. */
  function Ending<C(==)>(cs: seq<C>, obs: seq<Outcome>): set<C>
  {
    if cs == [] || obs == [] then {} else
      (if obs[0] == Eof then {cs[0]} else {}) + Ending(cs[1..], obs[1..])
  }

  function Rest(obs: seq<Outcome>): seq<Outcome>
  {
    if obs == [] then [] else obs[1..]
  }

  lemma {:induction false} ScanTraceAgrees<C>(a: map<C, int>, b: map<C, int>, cs: seq<C>, obs: seq<Outcome>)
    requires forall c | c in cs :: c in a && c in b && a[c] == b[c]
    ensures ScanTrace(a, cs, obs) == ScanTrace(b, cs, obs)
  {
    if cs == [] || obs == [] {
    } else {
      ScanTraceAgrees(a, b, cs[1..], obs[1..]);
    }
  }

  ghost function Elements<C>(q: seq<C>): set<C>
  {
    set c | c in q
  }

  /** The connections at or after the cursor. */
  ghost function Ahead<C>(s: Table<C>, i: nat): set<C>
    requires i <= |s.conns|
  {
    Elements(s.conns[i..])
  }

  lemma TailStep<C>(conns: seq<C>, i: nat)
    requires NoRepeat(conns) && i < |conns|
    ensures conns[i] !in Elements(conns[i + 1..])
    ensures Elements(conns[i..]) == {conns[i]} + Elements(conns[i + 1..])
    ensures Elements(SwapOut(conns, i)[i..]) == Elements(conns[i + 1..])
  {
    var n := |conns|;
    assert conns[i..] == [conns[i]] + conns[i + 1..];
    var r := SwapOut(conns, i)[i..];
    if i < n - 1 {
      assert r == [conns[n - 1]] + conns[i + 1..n - 1];
      assert conns[i + 1..] == conns[i + 1..n - 1] + [conns[n - 1]];
    }
  }

  lemma AheadStep<C>(s: Table<C>, i: nat)
    requires Inv(s) && i < |s.conns|
    ensures s.conns[i] in s.records && s.conns[|s.conns| - 1] in s.records
    ensures s.conns[i] !in Ahead(s, i + 1) && Ahead(s, i) == {s.conns[i]} + Ahead(s, i + 1)
    ensures Ahead(RemoveAt(s, i), i) == Ahead(s, i + 1)
  {
    hide Represents, Unlink, NoRepeat;
    assert s.conns[i] in s.conns && s.conns[|s.conns| - 1] in s.conns;
    TailStep(s.conns, i);
  }

  /** s' is what remains of s after the loop examined the connections cs, in that order. */
  ghost predicate ScanDone<C>(s: Table<C>, obs: seq<Outcome>, s': Table<C>, cs: seq<C>)
  {
    (forall c | c in cs :: c in s.records) && s'.wheel.hand == s.wheel.hand &&
    s'.records.Keys == s.records.Keys - Ending(cs, obs) &&
    KeepsRecords(s'.records, s.records) &&
    s'.trace == s.trace + ScanTrace(Fds(s.records), cs, obs)
  }

  /** One turn that ends the connection under the cursor, then the rest. */
  lemma ScanEofJoins<C>(s: Table<C>, e: Table<C>, c: C, obs: seq<Outcome>, s': Table<C>, cs: seq<C>)
    requires obs != [] && obs[0] == Eof && c in s.records
    requires e.records.Keys == s.records.Keys - {c} && KeepsRecords(e.records, s.records)
    requires e.trace == s.trace + Farewell(c, s.records[c].fd) && e.wheel.hand == s.wheel.hand
    requires ScanDone(e, obs[1..], s', cs)
    ensures ScanDone(s, obs, s', [c] + cs)
  {
    hide Farewell;
    ScanTraceAgrees(Fds(e.records), Fds(s.records), cs, obs[1..]);
    var cs' := [c] + cs;
    assert cs'[1..] == cs;
    assert e.trace + ScanTrace(Fds(s.records), cs, obs[1..])
        == s.trace + (Farewell(c, s.records[c].fd) + ScanTrace(Fds(s.records), cs, obs[1..]));
  }

  /** One turn that keeps the connection under the cursor, then the rest. */
  lemma ScanKeepJoins<C>(s: Table<C>, e: Table<C>, c: C, obs: seq<Outcome>, s': Table<C>, cs: seq<C>)
    requires (obs == [] || obs[0] != Eof) && c in s.records
    requires e == if obs != [] && obs[0] == Data then s.(trace := s.trace + [Called(c, Received)]) else s
    requires ScanDone(e, Rest(obs), s', cs)
    ensures ScanDone(s, obs, s', [c] + cs)
  {}

  lemma {:induction false} ScanComplete<C>(s: Table<C>, i: nat, obs: seq<Outcome>)
    requires Inv(s) && i <= |s.conns|
    ensures Enumerates(Scan(s, i, obs).1, Ahead(s, i)) && Inv(Scan(s, i, obs).0)
    ensures ScanDone(s, obs, Scan(s, i, obs).0, Scan(s, i, obs).1)
    decreases |s.conns| - i
  {
    hide Represents, RemoveAt, KeepsRecords, NoRepeat, Linked, Scan, ScanDone, Enumerates;
    ScanTurn(s, i, obs);
    if i < |s.conns| {
      var c := s.conns[i];
      AheadStep(s, i);
      assert Ahead(s, i) - {c} == Ahead(s, i + 1);
      if obs != [] && obs[0] == Eof {
        RemoveAtKeepsInv(s, i, {});
        RemovedRecords(s, i);
        var e := RemoveAt(s, i);
        ScanComplete(e, i, obs[1..]);
        EnumeratesCons(c, Scan(e, i, obs[1..]).1, Ahead(s, i));
        ScanEofJoins(s, e, c, obs, Scan(e, i, obs[1..]).0, Scan(e, i, obs[1..]).1);
      } else {
        var e := if obs != [] && obs[0] == Data then s.(trace := s.trace + [Called(c, Received)]) else s;
        ScanComplete(e, i + 1, Rest(obs));
        EnumeratesCons(c, Scan(e, i + 1, Rest(obs)).1, Ahead(s, i));
        ScanKeepJoins(s, e, c, obs, Scan(e, i + 1, Rest(obs)).0, Scan(e, i + 1, Rest(obs)).1);
      }
    } else {
      ScanNothing(s, obs);
    }
  }

  /** Scan, one turn unrolled. */
  lemma ScanTurn<C>(s: Table<C>, i: nat, obs: seq<Outcome>)
    requires Inv(s) && i <= |s.conns|
    ensures i == |s.conns| ==> Scan(s, i, obs) == (s, [])
    ensures i < |s.conns| && obs != [] && obs[0] == Eof ==>
      s.conns[i] in s.records && s.conns[|s.conns| - 1] in s.records &&
      var e := RemoveAt(s, i);
      Inv(e) && i <= |e.conns| && Scan(s, i, obs) == (Scan(e, i, obs[1..]).0, [s.conns[i]] + Scan(e, i, obs[1..]).1)
    ensures i < |s.conns| && (obs == [] || obs[0] != Eof) ==>
      var e := if obs != [] && obs[0] == Data then s.(trace := s.trace + [Called(s.conns[i], Received)]) else s;
      Inv(e) && Scan(s, i, obs) == (Scan(e, i + 1, Rest(obs)).0, [s.conns[i]] + Scan(e, i + 1, Rest(obs)).1)
  {
    hide Represents, Unlink, NoRepeat;
    if i < |s.conns| {
      RemoveAtKeepsInv(s, i, {});
    }
  }

  lemma ScanNothing<C>(s: Table<C>, obs: seq<Outcome>)
    ensures ScanDone(s, obs, s, []) && Enumerates([], Ahead(s, |s.conns|))
  {}

  /** The receive loop examines every connection present at its start exactly once, whichever it removes. */
  lemma ReceiveVisitsAll<C>(s: Table<C>, obs: seq<Outcome>)
    requires Inv(s)
    ensures var (s', cs) := Scan(s, 0, obs);
            Enumerates(cs, s.records.Keys) && Inv(s') &&
            s'.records.Keys == s.records.Keys - Ending(cs, obs) &&
            KeepsRecords(s'.records, s.records) &&
            s'.trace == s.trace + ScanTrace(Fds(s.records), cs, obs)
  {
    ScanComplete(s, 0, obs);
    assert s.conns[0..] == s.conns;
  }
}
