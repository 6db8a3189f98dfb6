/** In what order the dispatcher of src/dispatch.c tells services of connections and closes descriptors. */
module TableTrace {
  import opened Ticks
  import opened TimingWheel
  import opened Wrappers
  import opened WheelLaws
  import opened Table
  import opened TableLaws
  import opened TableRuns
  import opened TableFds

  /** The descriptor accepted for a connection, directly before its service was told of it last. */
  function FdOf<C(==)>(trace: seq<Effect<C>>, c: C): Option<int>
  {
    if |trace| < 2 then None else
      var n := |trace| - 1;
      if trace[n] == Called(c, NewConnection) && trace[n - 1].Accepted? then Some(trace[n - 1].fd)
      else FdOf(trace[..n], c)
  }

  /** What must come next to the k-th effect. */
  ghost predicate InPlace<C>(trace: seq<Effect<C>>, k: nat)
    requires k < |trace|
  {
    match trace[k]
    case Accepted(fd) =>
      k + 1 < |trace| &&
      (trace[k + 1] == Closed(fd) || (trace[k + 1].Called? && trace[k + 1].cb == NewConnection))
    case Called(c, NewConnection) => k > 0 && trace[k - 1].Accepted?
    case Called(c, Received) => true
    case Called(c, TimedOut) => k + 1 < |trace| && trace[k + 1] == Called(c, Ended)
    case Called(c, Ended) =>
      FdOf(trace[..k], c).Some? &&
      (FdOf(trace[..k], c).value > 0 ==> k + 1 < |trace| && trace[k + 1] == Closed(FdOf(trace[..k], c).value))
    case Closed(fd) =>
      k > 0 &&
      (trace[k - 1] == Accepted(fd) ||
       (fd > 0 && trace[k - 1].Called? && trace[k - 1].cb == Ended && FdOf(trace[..k - 1], trace[k - 1].c) == Some(fd)))
  }

  ghost predicate Ordered<C>(trace: seq<Effect<C>>)
  {
    forall k | 0 <= k < |trace| :: InPlace(trace, k)
  }

  ghost predicate FdsTold<C>(s: Table<C>)
  {
    forall c | c in s.records :: FdOf(s.trace, c) == Some(s.records[c].fd)
  }

  ghost predicate Told<C>(s: Table<C>)
  {
    Inv(s) && Ordered(s.trace) && FdsTold(s)
  }

  // ---------- appending to a trace ----------

  lemma FdOfThen<C>(trace: seq<Effect<C>>, e: Effect<C>, c: C)
    ensures FdOf(trace + [e], c) ==
              if e == Called(c, NewConnection) && trace != [] && trace[|trace| - 1].Accepted?
              then Some(trace[|trace| - 1].fd) else FdOf(trace, c)
  {
    assert (trace + [e])[..|trace|] == trace;
  }

  /** An ordered trace stays ordered when what is appended is in place. */
  lemma OrderedThen<C>(a: seq<Effect<C>>, b: seq<Effect<C>>)
    requires Ordered(a) && forall k | |a| <= k < |a + b| :: InPlace(a + b, k)
    ensures Ordered(a + b)
  {
    hide FdOf;
    var t := a + b;
    forall k | 0 <= k < |t|
      ensures InPlace(t, k)
    {
      if k < |a| {
        assert InPlace(a, k);
        assert t[..k] == a[..k];
        assert k > 0 ==> t[..k - 1] == a[..k - 1];
      }
    }
  }

  lemma AcceptOrdered<C>(trace: seq<Effect<C>>, fd: int, c: C)
    requires Ordered(trace)
    ensures Ordered(trace + [Accepted(fd)] + [Called(c, NewConnection)])
    ensures forall x :: FdOf(trace + [Accepted(fd)] + [Called(c, NewConnection)], x) ==
                        if x == c then Some(fd) else FdOf(trace, x)
  {
    var b := [Accepted(fd), Called(c, NewConnection)];
    assert trace + [Accepted(fd)] + [Called(c, NewConnection)] == trace + b;
    OrderedThen(trace, b);
    forall x
      ensures FdOf(trace + [Accepted(fd)] + [Called(c, NewConnection)], x) ==
                if x == c then Some(fd) else FdOf(trace, x)
    {
      FdOfThen(trace, Accepted(fd), x);
      FdOfThen(trace + [Accepted(fd)], Called(c, NewConnection), x);
    }
  }

  lemma UnnamedOrdered<C>(trace: seq<Effect<C>>, fd: int)
    requires Ordered(trace)
    ensures Ordered(trace + [Accepted(fd)] + [Closed(fd)])
    ensures forall x :: FdOf(trace + [Accepted(fd)] + [Closed(fd)], x) == FdOf(trace, x)
  {
    var b := [Accepted(fd), Closed(fd)];
    assert trace + [Accepted(fd)] + [Closed(fd)] == trace + b;
    OrderedThen(trace, b);
    forall x
      ensures FdOf(trace + [Accepted(fd)] + [Closed(fd)], x) == FdOf(trace, x)
    {
      FdOfThen(trace, Accepted(fd), x);
      FdOfThen(trace + [Accepted(fd)], Closed(fd), x);
    }
  }

  lemma ReceivedOrdered<C>(trace: seq<Effect<C>>, c: C)
    requires Ordered(trace)
    ensures Ordered(trace + [Called(c, Received)])
    ensures forall x :: FdOf(trace + [Called(c, Received)], x) == FdOf(trace, x)
  {
    OrderedThen(trace, [Called(c, Received)]);
    forall x
      ensures FdOf(trace + [Called(c, Received)], x) == FdOf(trace, x)
    {
      FdOfThen(trace, Called(c, Received), x);
    }
  }

  lemma FarewellFdOf<C>(trace: seq<Effect<C>>, c: C, fd: int, x: C)
    ensures FdOf(trace + Farewell(c, fd), x) == FdOf(trace, x)
  {
    FdOfThen(trace, Called(c, Ended), x);
    if fd > 0 {
      FdOfThen(trace + [Called(c, Ended)], Closed(fd), x);
      assert trace + Farewell(c, fd) == trace + [Called(c, Ended)] + [Closed(fd)];
    }
  }

  lemma FarewellOrdered<C>(trace: seq<Effect<C>>, c: C, fd: int)
    requires Ordered(trace) && FdOf(trace, c) == Some(fd)
    ensures Ordered(trace + Farewell(c, fd))
  {
    hide FdOf;
    var b := Farewell(c, fd);
    assert (trace + b)[..|trace|] == trace;
    OrderedThen(trace, b);
  }

  lemma TimeoutOrdered<C>(trace: seq<Effect<C>>, c: C, fd: int)
    requires Ordered(trace) && FdOf(trace, c) == Some(fd)
    ensures Ordered(trace + [Called(c, TimedOut)] + Farewell(c, fd))
    ensures forall x :: FdOf(trace + [Called(c, TimedOut)] + Farewell(c, fd), x) == FdOf(trace, x)
  {
    hide FdOf;
    var b := [Called(c, TimedOut)] + Farewell(c, fd);
    var t := trace + [Called(c, TimedOut)];
    assert t + Farewell(c, fd) == trace + b;
    assert (trace + b)[..|trace| + 1] == t;
    FdOfThen(trace, Called(c, TimedOut), c);
    OrderedThen(trace, b);
    forall x
      ensures FdOf(t + Farewell(c, fd), x) == FdOf(trace, x)
    {
      FdOfThen(trace, Called(c, TimedOut), x);
      FarewellFdOf(t, c, fd, x);
    }
  }

  // ---------- every run ----------

  lemma RemovalTold<C>(s: Table<C>, i: nat)
    requires Told(s) && i < |s.conns|
    ensures s.conns[i] in s.records && s.conns[|s.conns| - 1] in s.records
    ensures Told(RemoveAt(s, i))
  {
    hide Represents, Unlink, NoRepeat, RemoveAt, FdOf, Ordered, Farewell;
    RemovedRecords(s, i);
    RemoveAtKeepsInv(s, i, {});
    var x := s.conns[i];
    FarewellOrdered(s.trace, x, s.records[x].fd);
    forall c | c in s.records
      ensures FdOf(s.trace + Farewell(x, s.records[x].fd), c) == FdOf(s.trace, c)
    {
      FarewellFdOf(s.trace, x, s.records[x].fd, c);
    }
  }

  lemma ReceivedTold<C>(s: Table<C>, c: C)
    requires Told(s)
    ensures Told(s.(trace := s.trace + [Called(c, Received)]))
  {
    hide Represents, NoRepeat, FdOf, Ordered;
    ReceivedOrdered(s.trace, c);
  }

  lemma {:induction false} ScanTold<C>(s: Table<C>, i: nat, obs: seq<Outcome>)
    requires Told(s) && i <= |s.conns|
    ensures Told(Scan(s, i, obs).0)
    decreases |s.conns| - i
  {
    hide Linked, RemoveAt, Ordered, FdsTold, Scan;
    ScanTurn(s, i, obs);
    if i == |s.conns| {
    } else if obs != [] && obs[0] == Eof {
      RemovalTold(s, i);
      RemovedRecords(s, i);
      ScanTold(RemoveAt(s, i), i, obs[1..]);
    } else if obs != [] && obs[0] == Data {
      ReceivedTold(s, s.conns[i]);
      ScanTold(s.(trace := s.trace + [Called(s.conns[i], Received)]), i + 1, obs[1..]);
    } else {
      ScanTold(s, i + 1, Rest(obs));
    }
  }

  lemma ExpireTold<C>(s: Table<C>, now: nat)
    requires Told(s) && Remove(s.wheel, now).1.Some?
    ensures var (v, r) := Remove(s.wheel, now);
            Indexed(s, r.value) && Told(Expire(s, v, r.value)) && |Expire(s, v, r.value).conns| < |s.conns|
  {
    hide Linked, Remove, Expire, Ordered, FdOf, Farewell;
    SweepTurn(s, now);
    ExpireRecords(s, now);
    var x := Remove(s.wheel, now).1.value;
    TimeoutOrdered(s.trace, x, s.records[x].fd);
  }

  lemma {:induction false} SweepTold<C>(s: Table<C>, now: nat)
    requires Told(s)
    ensures Told(Sweep(s, now))
    decreases |s.conns|
  {
    hide Linked, Remove, Expire, Ordered, Sweep, FdOf;
    SweepTurn(s, now);
    var (v, r) := Remove(s.wheel, now);
    match r {
      case None => SweepFollowsDrain(s, now);
      case Some(x) =>
        ExpireTold(s, now);
        SweepTold(Expire(s, v, x), now);
    }
  }

  lemma AcceptTold<C>(s: Table<C>, c: C, fd: int, deadline: nat)
    requires Told(s) && c !in s.records
    ensures |s.wheel.slots| > 0
    ensures Told(AddConnection(s.(trace := s.trace + [Accepted(fd)]), c, fd, deadline))
  {
    hide Represents, Add, Ordered, FdOf, NoRepeat;
    SomeSlots(s.wheel, Deadlines(s.records) - {});
    AddKeepsInv(s.(trace := s.trace + [Accepted(fd)]), c, fd, deadline);
    AcceptOrdered(s.trace, fd, c);
  }

  lemma StepTold<C>(s: Table<C>, input: Input<C>)
    requires Told(s) && (input.Accept? ==> input.c !in s.records)
    ensures Told(Step(s, input))
  {
    hide Linked, Ordered, Scan, Sweep, AddConnection, FdOf, TimestampFromTv;
    match input {
      case Accept(c, fd, clock, timeout) => AcceptTold(s, c, fd, TimestampFromTv(clock + timeout, 0));
      case AcceptUnnamed(fd) => UnnamedTold(s, fd);
      case Receive(obs) => ScanTold(s, 0, obs);
      case Expiry(clock) => SweepTold(s, TimestampFromTv(clock, 0));
    }
  }

  lemma UnnamedTold<C>(s: Table<C>, fd: int)
    requires Told(s)
    ensures Told(s.(trace := s.trace + [Accepted(fd)] + [Closed(fd)]))
  {
    hide Represents, NoRepeat, FdOf, Ordered;
    UnnamedOrdered(s.trace, fd);
  }

  lemma {:induction false} RunTold<C>(s: Table<C>, inputs: seq<Input<C>>, s': Table<C>)
    requires Told(s) && Leads(s, inputs, s')
    ensures Told(s')
    decreases inputs
  {
    hide Told;
    if inputs == [] {
    } else {
      StepTold(s, inputs[0]);
      RunTold(Step(s, inputs[0]), inputs[1..], s');
    }
  }

  /**
    The service is told of the end first, and then the descriptor is closed. After every run each end of a
    connection with a positive descriptor is followed directly by the close of that descriptor, a
    descriptor is closed only then or when a peer has no name, and a timeout is followed directly by the end.
  */
  lemma TellsThenCloses<C>(n: nat, clock: int, inputs: seq<Input<C>>, s: Table<C>, k: nat)
    requires n > 0 && Leads(Created<C>(n, clock), inputs, s) && k < |s.trace|
    ensures s.trace[k].Called? && s.trace[k].cb == Ended ==>
              var fd := FdOf(s.trace[..k], s.trace[k].c);
              fd.Some? && (fd.value > 0 ==> k + 1 < |s.trace| && s.trace[k + 1] == Closed(fd.value))
    ensures s.trace[k].Closed? ==>
              k > 0 &&
              (s.trace[k - 1] == Accepted(s.trace[k].fd) ||
               (s.trace[k - 1].Called? && s.trace[k - 1].cb == Ended &&
                FdOf(s.trace[..k - 1], s.trace[k - 1].c) == Some(s.trace[k].fd) && s.trace[k].fd > 0))
    ensures s.trace[k].Called? && s.trace[k].cb == TimedOut ==>
              k + 1 < |s.trace| && s.trace[k + 1] == Called(s.trace[k].c, Ended)
    ensures s.trace[k].Called? && s.trace[k].cb == NewConnection ==> k > 0 && s.trace[k - 1].Accepted?
    ensures s.trace[k].Accepted? ==>
              k + 1 < |s.trace| &&
              (s.trace[k + 1] == Closed(s.trace[k].fd) ||
               (s.trace[k + 1].Called? && s.trace[k + 1].cb == NewConnection))
    ensures forall c | c in s.records :: FdOf(s.trace, c) == Some(s.records[c].fd)
  {
    hide Linked, FdOf;
    CreatedInv<C>(n, clock);
    RunTold(Created<C>(n, clock), inputs, s);
    assert InPlace(s.trace, k);
  }

  // ---------- one sweep, one receive loop ----------

  lemma {:induction false} CountThen<C>(a: seq<Effect<C>>, b: seq<Effect<C>>, e: Effect<C>)
    ensures Count(a + b, e) == Count(a, e) + Count(b, e)
  {
    if b == [] {
      assert a + b == a;
    } else {
      assert (a + b)[..|a + b| - 1] == a + b[..|b| - 1];
      CountThen(a, b[..|b| - 1], e);
    }
  }

  lemma CountOne<C>(x: Effect<C>, e: Effect<C>)
    ensures Count([x], e) == if x == e then 1 else 0
  {
    assert [x][..0] == [];
  }

  lemma CountFarewell<C>(c: C, fd: int, x: C, cb: Callback)
    ensures Count(Farewell(c, fd), Called(x, cb)) == if x == c && cb == Ended then 1 else 0
  {
    CountOne(Called(c, Ended), Called(x, cb));
    if fd > 0 {
      CountThen([Called(c, Ended)], [Closed(fd)], Called(x, cb));
      CountOne(Closed(fd), Called(x, cb));
    }
  }

  /** The k-th effect is a timeout, an end directly after the timeout of the same connection, or a close. */
  ghost predicate OfTimeout<C>(tr: seq<Effect<C>>, k: nat)
    requires k < |tr|
  {
    match tr[k]
    case Called(c, Ended) => k > 0 && tr[k - 1] == Called(c, TimedOut)
    case Called(_, cb) => cb == TimedOut
    case Closed(_) => true
    case Accepted(_) => false
  }

  ghost predicate EndsTimedOut<C>(tr: seq<Effect<C>>)
  {
    forall k | 0 <= k < |tr| :: OfTimeout(tr, k)
  }

  lemma {:induction false} ExpiryTells<C>(fds: map<C, int>, cs: seq<C>, c: C)
    requires NoRepeat(cs) && forall x | x in cs :: x in fds
    ensures EndsTimedOut(ExpiryTrace(fds, cs))
    ensures Count(ExpiryTrace(fds, cs), Called(c, TimedOut)) == if c in cs then 1 else 0
    ensures Count(ExpiryTrace(fds, cs), Called(c, Ended)) == if c in cs then 1 else 0
  {
    hide Count;
    if cs == [] {
      CountNothing(Called(c, TimedOut));
      CountNothing(Called(c, Ended));
    } else {
      var x := cs[0];
      var head, farewell, rest := [Called(x, TimedOut)], Farewell(x, fds[x]), ExpiryTrace(fds, cs[1..]);
      ExpiryTells(fds, cs[1..], c);
      EndsTimedOutThen(x, fds[x], rest);
      forall cb | cb in {TimedOut, Ended}
        ensures Count(head + farewell + rest, Called(c, cb)) ==
                  (if c == x then 1 else 0) + Count(rest, Called(c, cb))
      {
        CountThen(head + farewell, rest, Called(c, cb));
        CountThen(head, farewell, Called(c, cb));
        CountOne(Called(x, TimedOut), Called(c, cb));
        CountFarewell(x, fds[x], c, cb);
      }
      assert cs == [x] + cs[1..];
    }
  }

  lemma CountNothing<C>(e: Effect<C>)
    ensures Count([], e) == 0
  {}

  lemma EndsTimedOutThen<C>(x: C, fd: int, rest: seq<Effect<C>>)
    requires EndsTimedOut(rest)
    ensures EndsTimedOut([Called(x, TimedOut)] + Farewell(x, fd) + rest)
  {
    var a := [Called(x, TimedOut)] + Farewell(x, fd);
    var t := a + rest;
    forall k | 0 <= k < |t|
      ensures OfTimeout(t, k)
    {
      if k < |a| {
        assert t[0] == Called(x, TimedOut) && t[1] == Called(x, Ended) && (k > 1 ==> t[k] == Closed(fd));
      } else {
        assert OfTimeout(rest, k - |a|);
      }
    }
  }

  /** A sweep tells each connection that it ends of the timeout and then of the end, once, and no other. */
  lemma SweepTells<C>(s: Table<C>, now: nat, c: C)
    requires Inv(s)
    ensures var s' := Sweep(s, now);
            s.trace <= s'.trace &&
            var tr := s'.trace[|s.trace|..];
            EndsTimedOut(tr) &&
            Count(tr, Called(c, TimedOut)) == Count(tr, Called(c, Ended)) &&
            Count(tr, Called(c, Ended)) == if c in s.records && c !in s'.records then 1 else 0
  {
    hide Represents, Sweep, Drain, DueSet, NoRepeat, ExpiryTrace, EndsTimedOut, Count;
    var m := Deadlines(s.records);
    assert m - {} == m;
    SomeSlots(s.wheel, m);
    SweepFollowsDrain(s, now);
    DrainExact(s.wheel, m, now);
    var cs := Drain(s.wheel, now).1;
    ExpiryTells(Fds(s.records), cs, c);
    assert Sweep(s, now).trace[|s.trace|..] == ExpiryTrace(Fds(s.records), cs);
    assert c in cs <==> c in (set x | x in cs);
  }

  lemma {:induction false} ScanCounts<C>(fds: map<C, int>, cs: seq<C>, obs: seq<Outcome>, c: C, cb: Callback)
    requires NoRepeat(cs) && forall x | x in cs :: x in fds
    ensures c !in cs ==> Count(ScanTrace(fds, cs, obs), Called(c, cb)) == 0
    ensures forall k | 0 <= k < |cs| && cs[k] == c ::
              Count(ScanTrace(fds, cs, obs), Called(c, cb)) ==
                if k < |obs| && ((obs[k] == Data && cb == Received) || (obs[k] == Eof && cb == Ended)) then 1 else 0
  {
    hide Count;
    CountNothing(Called(c, cb));
    if cs == [] || obs == [] {
    } else {
      var x := cs[0];
      var head := match obs[0] case Eof => Farewell(x, fds[x]) case Data => [Called(x, Received)] case _ => [];
      var rest := ScanTrace(fds, cs[1..], obs[1..]);
      ScanCounts(fds, cs[1..], obs[1..], c, cb);
      CountThen(head, rest, Called(c, cb));
      CountFarewell(x, fds[x], c, cb);
      CountOne(Called(x, Received), Called(c, cb));
      assert cs == [x] + cs[1..];
      forall k | 0 <= k < |cs| && cs[k] == c
        ensures Count(head + rest, Called(c, cb)) ==
                  if k < |obs| && ((obs[k] == Data && cb == Received) || (obs[k] == Eof && cb == Ended)) then 1 else 0
      {
        assert k > 0 ==> cs[1..][k - 1] == c && c in cs[1..];
        assert k == 0 ==> c !in cs[1..];
      }
    }
  }

  /**
    The receive loop reports data to exactly the connections for which recv() gave some and the end to
    exactly those at end of file, once each; the k-th connection examined has the k-th observation.
  */
  lemma ReceiveTells<C>(s: Table<C>, obs: seq<Outcome>, c: C, cb: Callback)
    requires Inv(s)
    ensures var (s', cs) := Scan(s, 0, obs);
            Enumerates(cs, s.records.Keys) && s.trace <= s'.trace &&
            (c !in s.records ==> Count(s'.trace[|s.trace|..], Called(c, cb)) == 0) &&
            forall k | 0 <= k < |cs| && cs[k] == c ::
              Count(s'.trace[|s.trace|..], Called(c, cb)) ==
                if k < |obs| && ((obs[k] == Data && cb == Received) || (obs[k] == Eof && cb == Ended)) then 1 else 0
  {
    hide Linked, Scan, ScanTrace, Count, NoRepeat;
    ReceiveVisitsAll(s, obs);
    var (s', cs) := Scan(s, 0, obs);
    assert s'.trace[|s.trace|..] == ScanTrace(Fds(s.records), cs, obs);
    forall x | x in cs
      ensures x in Fds(s.records)
    {
      assert x in (set y | y in cs);
    }
    assert c in cs ==> c in (set y | y in cs);
    ScanCounts(Fds(s.records), cs, obs, c, cb);
  }
}
