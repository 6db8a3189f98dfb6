/** Descriptors in every run of the dispatcher of src/dispatch.c. */
module TableFds {
  import opened Ticks
  import opened TimingWheel
  import opened WheelLaws
  import opened Table
  import opened TableLaws
  import opened TableRuns

  function AfterEffect<C>(fds: set<int>, e: Effect<C>): set<int>
  {
    match e
    case Accepted(fd) => fds + {fd}
    case Closed(fd) => fds - {fd}
    case Called(_, _) => fds
  }

  /** No descriptor is accepted while open, or closed while not open. */
  predicate Allowed<C>(fds: set<int>, e: Effect<C>)
  {
    match e
    case Accepted(fd) => fd !in fds
    case Closed(fd) => fd in fds
    case Called(_, _) => true
  }

  /** The descriptors accepted and not closed since. */
  function Open<C(==)>(trace: seq<Effect<C>>): set<int>
  {
    if trace == [] then {} else AfterEffect(Open(trace[..|trace| - 1]), trace[|trace| - 1])
  }

  predicate Sound<C(==)>(trace: seq<Effect<C>>)
  {
    trace == [] || (Sound(trace[..|trace| - 1]) && Allowed(Open(trace[..|trace| - 1]), trace[|trace| - 1]))
  }

  lemma TraceThen<C>(trace: seq<Effect<C>>, e: Effect<C>)
    ensures Open(trace + [e]) == AfterEffect(Open(trace), e)
    ensures Sound(trace + [e]) <==> Sound(trace) && Allowed(Open(trace), e)
  {
    assert (trace + [e])[..|trace|] == trace;
  }

  function Count<C(==)>(trace: seq<Effect<C>>, e: Effect<C>): nat
  {
    if trace == [] then 0 else
      Count(trace[..|trace| - 1], e) + if trace[|trace| - 1] == e then 1 else 0
  }

  /** In a sound trace each descriptor was closed as often as accepted, less one if it is open. */
  lemma {:induction false} Conservation<C>(trace: seq<Effect<C>>, fd: int)
    requires Sound(trace)
    ensures Count(trace, Accepted(fd)) == Count(trace, Closed(fd)) + if fd in Open(trace) then 1 else 0
  {
    if trace == [] {
    } else {
      Conservation(trace[..|trace| - 1], fd);
    }
  }

  // ---------- the invariant of runs ----------

  /**
    Live connections hold distinct open descriptors, and every open descriptor but 0 is held by one.
    Descriptor 0 is special: connection_remove does not close it.
  */
  ghost predicate FdsOk<C>(records: map<C, Record>, trace: seq<Effect<C>>)
  {
    Sound(trace) &&
    (forall c | c in records :: records[c].fd >= 0 && records[c].fd in Open(trace)) &&
    (forall c, c' | c in records && c' in records && c != c' :: records[c].fd != records[c'].fd) &&
    forall fd | fd in Open(trace) :: fd == 0 || fd in Fds(records).Values
  }

  ghost predicate Held<C>(s: Table<C>)
  {
    Inv(s) && FdsOk(s.records, s.trace)
  }

  // ---------- removal ----------

  lemma FarewellOpen<C>(trace: seq<Effect<C>>, x: C, fd: int)
    requires Sound(trace) && fd in Open(trace)
    ensures Sound(trace + Farewell(x, fd))
    ensures Open(trace + Farewell(x, fd)) == if fd > 0 then Open(trace) - {fd} else Open(trace)
  {
    TraceThen(trace, Called(x, Ended));
    if fd > 0 {
      TraceThen(trace + [Called(x, Ended)], Closed(fd));
      assert trace + Farewell(x, fd) == trace + [Called(x, Ended)] + [Closed(fd)];
    }
  }

  lemma FarewellFds<C>(records: map<C, Record>, records': map<C, Record>, trace: seq<Effect<C>>, x: C)
    requires FdsOk(records, trace) && x in records
    requires records'.Keys == records.Keys - {x} && KeepsRecords(records', records)
    ensures FdsOk(records', trace + Farewell(x, records[x].fd))
  {
    var fd := records[x].fd;
    FarewellOpen(trace, x, fd);
    var trace' := trace + Farewell(x, fd);
    forall f | f in Open(trace')
      ensures f == 0 || f in Fds(records').Values
    {
      if f != 0 {
        var c :| c in Fds(records) && Fds(records)[c] == f;
        assert c in records && c in Fds(records');
      }
    }
  }

  /** The end of a connection closes its descriptor, unless that is 0, which stays open for good. */
  lemma RemovalClosesUnlessZero<C>(s: Table<C>, i: nat)
    requires Held(s) && i < |s.conns|
    ensures s.conns[i] in s.records && s.conns[|s.conns| - 1] in s.records
    ensures Held(RemoveAt(s, i))
    ensures s.records[s.conns[i]].fd in Open(RemoveAt(s, i).trace) <==> s.records[s.conns[i]].fd == 0
  {
    hide Represents, Unlink, NoRepeat, KeepsRecords, FdsOk, RemoveAt;
    var x := s.conns[i];
    RemovedRecords(s, i);
    RemoveAtKeepsInv(s, i, {});
    FarewellFds(s.records, RemoveAt(s, i).records, s.trace, x);
    HeldIsOpen(s.records, s.trace, x);
    FarewellOpen(s.trace, x, s.records[x].fd);
  }

  lemma HeldIsOpen<C>(records: map<C, Record>, trace: seq<Effect<C>>, x: C)
    requires FdsOk(records, trace) && x in records
    ensures Sound(trace) && records[x].fd >= 0 && records[x].fd in Open(trace)
  {}

  // ---------- the steps ----------

  lemma FdsAfterCall<C>(records: map<C, Record>, trace: seq<Effect<C>>, e: Effect<C>)
    requires FdsOk(records, trace) && e.Called?
    ensures FdsOk(records, trace + [e])
  {
    TraceThen(trace, e);
  }

  lemma {:induction false} ScanFds<C>(s: Table<C>, i: nat, obs: seq<Outcome>)
    requires Held(s) && i <= |s.conns|
    ensures Held(Scan(s, i, obs).0)
    decreases |s.conns| - i
  {
    hide Linked, RemoveAt, FdsOk, Scan;
    ScanTurn(s, i, obs);
    if i == |s.conns| {
    } else if obs != [] && obs[0] == Eof {
      RemovalClosesUnlessZero(s, i);
      RemovedRecords(s, i);
      ScanFds(RemoveAt(s, i), i, obs[1..]);
    } else if obs != [] && obs[0] == Data {
      FdsAfterCall(s.records, s.trace, Called(s.conns[i], Received));
      ScanFds(s.(trace := s.trace + [Called(s.conns[i], Received)]), i + 1, obs[1..]);
    } else {
      ScanFds(s, i + 1, Rest(obs));
    }
  }

  lemma {:induction false} SweepFds<C>(s: Table<C>, now: nat)
    requires Held(s)
    ensures Held(Sweep(s, now))
    decreases |s.conns|
  {
    hide Linked, Remove, Expire, FdsOk, KeepsRecords, Sweep, Farewell;
    SweepTurn(s, now);
    var (v, r) := Remove(s.wheel, now);
    match r {
      case None => SweepFollowsDrain(s, now);
      case Some(x) =>
        ExpireRecords(s, now);
        FdsAfterCall(s.records, s.trace, Called(x, TimedOut));
        FarewellFds(s.records, Expire(s, v, x).records, s.trace + [Called(x, TimedOut)], x);
        SweepFds(Expire(s, v, x), now);
    }
  }

  lemma AcceptFds<C>(records: map<C, Record>, trace: seq<Effect<C>>, x: C, r: Record)
    requires FdsOk(records, trace) && x !in records && r.fd >= 0 && r.fd !in Open(trace)
    ensures FdsOk(records[x := r], trace + [Accepted(r.fd)] + [Called(x, NewConnection)])
  {
    TraceThen(trace, Accepted(r.fd));
    TraceThen(trace + [Accepted(r.fd)], Called(x, NewConnection));
    var after := records[x := r];
    assert x in Fds(after) && Fds(after)[x] == r.fd;
    forall f | f in Open(trace) && f != 0
      ensures f in Fds(after).Values
    {
      var c :| c in Fds(records) && Fds(records)[c] == f;
      assert c in Fds(after) && Fds(after)[c] == f;
    }
  }

  lemma UnnamedFds<C>(records: map<C, Record>, trace: seq<Effect<C>>, fd: int)
    requires FdsOk(records, trace) && fd !in Open(trace)
    ensures FdsOk(records, trace + [Accepted(fd)] + [Closed(fd)])
    ensures Open(trace + [Accepted(fd)] + [Closed(fd)]) == Open(trace)
  {
    TraceThen(trace, Accepted(fd));
    TraceThen(trace + [Accepted(fd)], Closed(fd));
    assert Open(trace + [Accepted(fd)] + [Closed(fd)]) == Open(trace);
  }

  // ---------- runs ----------

  /** accept() returns a descriptor, and one that is not open. */
  ghost predicate FdNew<C>(s: Table<C>, input: Input<C>)
  {
    match input
    case Accept(_, fd, _, _) => fd >= 0 && fd !in Open(s.trace)
    case AcceptUnnamed(fd) => fd >= 0 && fd !in Open(s.trace)
    case _ => true
  }

  ghost predicate FdsNew<C>(s: Table<C>, inputs: seq<Input<C>>)
    decreases inputs
  {
    inputs == [] || (Inv(s) && FdNew(s, inputs[0]) && FdsNew(Step(s, inputs[0]), inputs[1..]))
  }

  lemma StepFds<C>(s: Table<C>, input: Input<C>)
    requires Held(s) && FdNew(s, input) && (input.Accept? ==> input.c !in s.records)
    ensures Held(Step(s, input))
  {
    hide Represents, NoRepeat, FdsOk, Scan, Sweep, Open, TimestampFromTv, Add;
    match input {
      case Accept(x, fd, clock, timeout) =>
        SomeSlots(s.wheel, Deadlines(s.records) - {});
        AddKeepsInv(s.(trace := s.trace + [Accepted(fd)]), x, fd, TimestampFromTv(clock + timeout, 0));
        AcceptFds(s.records, s.trace, x, Record(|s.conns|, fd, TimestampFromTv(clock + timeout, 0)));
      case AcceptUnnamed(fd) => UnnamedFds(s.records, s.trace, fd);
      case Receive(obs) => ScanFds(s, 0, obs);
      case Expiry(clock) => SweepFds(s, TimestampFromTv(clock, 0));
    }
  }

  lemma {:induction false} RunFds<C>(s: Table<C>, inputs: seq<Input<C>>, s': Table<C>)
    requires Held(s) && Leads(s, inputs, s') && FdsNew(s, inputs)
    ensures Held(s')
    decreases inputs
  {
    if inputs == [] {
    } else {
      StepFds(s, inputs[0]);
      RunFds(Step(s, inputs[0]), inputs[1..], s');
    }
  }

  /** The connections that hold descriptor fd. */
  ghost function Holders<C>(s: Table<C>, fd: int): set<C>
  {
    set c | c in s.records && s.records[c].fd == fd
  }

  /**
    Descriptor conservation. After every run a positive descriptor was closed as often as accepted,
    but for one that a live connection holds; and no two connections hold the same.
  */
  lemma DescriptorConservation<C>(n: nat, clock: int, inputs: seq<Input<C>>, s: Table<C>, fd: int)
    requires n > 0 && fd > 0 && Leads(Created<C>(n, clock), inputs, s) && FdsNew(Created<C>(n, clock), inputs)
    ensures |Holders(s, fd)| <= 1
    ensures Count(s.trace, Accepted(fd)) == Count(s.trace, Closed(fd)) + |Holders(s, fd)|
  {
    CreatedInv<C>(n, clock);
    RunFds(Created<C>(n, clock), inputs, s);
    Conservation(s.trace, fd);
    HeldExactlyWhenOpen(s, fd);
  }

  lemma HeldExactlyWhenOpen<C>(s: Table<C>, fd: int)
    requires FdsOk(s.records, s.trace) && fd > 0
    ensures |Holders(s, fd)| == if fd in Open(s.trace) then 1 else 0
  {
    var held := Holders(s, fd);
    if fd in Open(s.trace) {
      var x :| x in Fds(s.records) && Fds(s.records)[x] == fd;
      assert held == {x};
    } else {
      assert held == {};
    }
  }
}
