/** Every run of the dispatcher of src/dispatch.c: its inputs, and the callbacks of each connection. */
module TableRuns {
  import opened Ticks
  import opened TimingWheel
  import opened WheelLaws
  import opened Table
  import opened TableLaws

  // ---------- the callbacks of one connection ----------

  datatype Phase = Unborn | Live | Expired | Dead | Broken

  /** NEW (RECV)* (TIMEOUT)? END, and nothing after. */
  function Advance<C(==)>(p: Phase, e: Effect<C>, c: C): Phase
  {
    if !e.Called? || e.c != c then p else
      match (p, e.cb)
      case (Unborn, NewConnection) => Live
      case (Live, Received) => Live
      case (Live, TimedOut) => Expired
      case (Live, Ended) => Dead
      case (Expired, Ended) => Dead
      case _ => Broken
  }

  function PhaseOf<C(==)>(trace: seq<Effect<C>>, c: C): Phase
  {
    if trace == [] then Unborn else Advance(PhaseOf(trace[..|trace| - 1], c), trace[|trace| - 1], c)
  }

  lemma PhaseThen<C>(trace: seq<Effect<C>>, e: Effect<C>, c: C)
    ensures PhaseOf(trace + [e], c) == Advance(PhaseOf(trace, c), e, c)
  {
    assert (trace + [e])[..|trace|] == trace;
  }

  // ---------- runs ----------

  /** What can happen between two states of the dispatcher. Clocks are readings of time(0), in seconds. */
  datatype Input<C> =
    | Accept(c: C, fd: int, clock: int, timeout: nat)
    | AcceptUnnamed(fd: int)
    | Receive(obs: seq<Outcome>)
    | Expiry(clock: int)

  ghost function Step<C>(s: Table<C>, input: Input<C>): Table<C>
    requires Inv(s)
  {
    match input
    case Accept(c, fd, clock, timeout) =>
      AddConnection(s.(trace := s.trace + [Accepted(fd)]), c, fd, TimestampFromTv(clock + timeout, 0))
    case AcceptUnnamed(fd) => s.(trace := s.trace + [Accepted(fd)] + [Closed(fd)])
    case Receive(obs) => Scan(s, 0, obs).0
    case Expiry(clock) => Sweep(s, TimestampFromTv(clock, 0))
  }

  /** These inputs take s to s'. A connection accepted is a structure that is not in the table. */
  ghost predicate Leads<C>(s: Table<C>, inputs: seq<Input<C>>, s': Table<C>)
    decreases inputs
  {
    if inputs == [] then s' == s
    else Inv(s) && (inputs[0].Accept? ==> inputs[0].c !in s.records) && Leads(Step(s, inputs[0]), inputs[1..], s')
  }

  /** The connections accepted have not been connections before. */
  ghost predicate NamesNew<C>(s: Table<C>, inputs: seq<Input<C>>)
    decreases inputs
  {
    inputs == [] ||
    (Inv(s) && (inputs[0].Accept? ==> PhaseOf(s.trace, inputs[0].c) == Unborn) &&
     NamesNew(Step(s, inputs[0]), inputs[1..]))
  }

  lemma {:induction false} LeadsThen<C>(s: Table<C>, a: seq<Input<C>>, s': Table<C>, b: seq<Input<C>>, s'': Table<C>)
    requires Leads(s, a, s') && Leads(s', b, s'')
    ensures Leads(s, a + b, s'')
    decreases a
  {
    hide Step, Linked, PhaseOf;
    if a == [] {
      assert a + b == b;
    } else {
      LeadsThen(Step(s, a[0]), a[1..], s', b, s'');
      assert (a + b)[1..] == a[1..] + b;
    }
  }

  lemma {:induction false} NamesNewThen<C>(s: Table<C>, a: seq<Input<C>>, s': Table<C>, b: seq<Input<C>>)
    requires Leads(s, a, s') && NamesNew(s, a) && NamesNew(s', b)
    ensures NamesNew(s, a + b)
    decreases a
  {
    hide Step, Linked, PhaseOf;
    if a == [] {
      assert a + b == b;
    } else {
      NamesNewThen(Step(s, a[0]), a[1..], s', b);
      assert (a + b)[1..] == a[1..] + b;
    }
  }

  /** A run of one input more passes through the state before it. */
  lemma {:induction false} LeadsLast<C>(s: Table<C>, a: seq<Input<C>>, last: Input<C>, s'': Table<C>)
    returns (s': Table<C>)
    requires Leads(s, a + [last], s'')
    ensures Leads(s, a, s') && Inv(s') && s'' == Step(s', last)
    decreases a
  {
    if a == [] {
      s' := s;
      assert Leads(Step(s, last), (a + [last])[1..], s'');
    } else {
      assert (a + [last])[1..] == a[1..] + [last];
      s' := LeadsLast(Step(s, a[0]), a[1..], last, s'');
    }
  }

  lemma LeadsOne<C>(s: Table<C>, input: Input<C>)
    requires Inv(s) && (input.Accept? ==> input.c !in s.records)
    ensures Leads(s, [input], Step(s, input))
  {
    assert [input][1..] == [];
  }

  lemma NamesNewOne<C>(s: Table<C>, input: Input<C>)
    requires Inv(s) && (input.Accept? ==> PhaseOf(s.trace, input.c) == Unborn)
    ensures NamesNew(s, [input])
  {
    assert [input][1..] == [];
  }

  /** dispatcher_create, with a ring of n slots. */
  function Created<C(==)>(n: nat, clock: int): Table<C>
  {
    Table([], map[], Wheel(TimestampFromTv(clock, 0), seq(n, _ => [])), [])
  }

  lemma CreatedInv<C>(n: nat, clock: int)
    requires n > 0
    ensures Inv(Created<C>(n, clock)) && Deadlines(Created<C>(n, clock).records) == map[]
  {
    assert Deadlines(Created<C>(n, clock).records) - {} == map[];
  }

  // ---------- the callback protocol ----------

  /** c is in the table exactly while its callbacks have begun and not ended. */
  ghost predicate CallsOk<C>(s: Table<C>, c: C)
  {
    if c in s.records then PhaseOf(s.trace, c) == Live
    else PhaseOf(s.trace, c) == Unborn || PhaseOf(s.trace, c) == Dead
  }

  ghost predicate Spoken<C>(s: Table<C>, c: C)
  {
    Inv(s) && CallsOk(s, c)
  }

  lemma FarewellPhase<C>(trace: seq<Effect<C>>, x: C, fd: int, c: C)
    ensures PhaseOf(trace + Farewell(x, fd), c) == Advance(PhaseOf(trace, c), Called(x, Ended), c)
  {
    PhaseThen(trace, Called(x, Ended), c);
    if fd > 0 {
      PhaseThen(trace + [Called(x, Ended)], Closed(fd), c);
      assert trace + Farewell(x, fd) == trace + [Called(x, Ended)] + [Closed(fd)];
    }
  }

  lemma RemovalCalls<C>(s: Table<C>, i: nat, c: C)
    requires Spoken(s, c) && i < |s.conns|
    ensures s.conns[i] in s.records && s.conns[|s.conns| - 1] in s.records
    ensures Spoken(RemoveAt(s, i), c)
  {
    hide Represents, Unlink, NoRepeat, KeepsRecords, RemoveAt;
    RemovedRecords(s, i);
    RemoveAtKeepsInv(s, i, {});
    FarewellPhase(s.trace, s.conns[i], s.records[s.conns[i]].fd, c);
  }

  lemma ReceivedCalls<C>(s: Table<C>, x: C, c: C)
    requires Spoken(s, c) && x in s.records
    ensures Spoken(s.(trace := s.trace + [Called(x, Received)]), c)
  {
    hide Represents, PhaseOf;
    PhaseThen(s.trace, Called(x, Received), c);
  }

  lemma {:induction false} ScanCalls<C>(s: Table<C>, i: nat, obs: seq<Outcome>, c: C)
    requires Spoken(s, c) && i <= |s.conns|
    ensures Spoken(Scan(s, i, obs).0, c)
    decreases |s.conns| - i
  {
    hide Linked, RemoveAt, CallsOk, Scan;
    ScanTurn(s, i, obs);
    if i == |s.conns| {
    } else if obs != [] && obs[0] == Eof {
      RemovalCalls(s, i, c);
      RemovedRecords(s, i);
      ScanCalls(RemoveAt(s, i), i, obs[1..], c);
    } else if obs != [] && obs[0] == Data {
      AheadStep(s, i);
      ReceivedCalls(s, s.conns[i], c);
      ScanCalls(s.(trace := s.trace + [Called(s.conns[i], Received)]), i + 1, obs[1..], c);
    } else {
      ScanCalls(s, i + 1, Rest(obs), c);
    }
  }

  /** A timeout callback and then the end, as far as the callbacks go. */
  lemma ExpireCalls<C>(s: Table<C>, e: Table<C>, x: C, fd: int, c: C)
    requires CallsOk(s, c) && x in s.records && e.records.Keys == s.records.Keys - {x}
    requires e.trace == s.trace + [Called(x, TimedOut)] + Farewell(x, fd)
    ensures CallsOk(e, c)
  {
    PhaseThen(s.trace, Called(x, TimedOut), c);
    FarewellPhase(s.trace + [Called(x, TimedOut)], x, fd, c);
  }

  lemma {:induction false} SweepCalls<C>(s: Table<C>, now: nat, c: C)
    requires Spoken(s, c)
    ensures Spoken(Sweep(s, now), c)
    decreases |s.conns|
  {
    hide Linked, Remove, Expire, CallsOk, KeepsRecords, Sweep, Farewell;
    SweepTurn(s, now);
    var (v, r) := Remove(s.wheel, now);
    match r {
      case None => SweepFollowsDrain(s, now); SameCalls(s, s.(wheel := v), c);
      case Some(x) =>
        ExpireRecords(s, now);
        ExpireCalls(s, Expire(s, v, x), x, s.records[x].fd, c);
        SweepCalls(Expire(s, v, x), now, c);
    }
  }

  lemma SameCalls<C>(s: Table<C>, s': Table<C>, c: C)
    requires CallsOk(s, c) && s'.records == s.records && s'.trace == s.trace
    ensures CallsOk(s', c)
  {}

  lemma AcceptCalls<C>(s: Table<C>, x: C, fd: int, deadline: nat, c: C)
    requires Spoken(s, c) && x !in s.records && (x == c ==> PhaseOf(s.trace, x) == Unborn)
    ensures |s.wheel.slots| > 0
    ensures Spoken(AddConnection(s.(trace := s.trace + [Accepted(fd)]), x, fd, deadline), c)
  {
    hide Represents, Add, PhaseOf;
    SomeSlots(s.wheel, Deadlines(s.records) - {});
    var t := s.(trace := s.trace + [Accepted(fd)]);
    AddKeepsInv(t, x, fd, deadline);
    PhaseThen(s.trace, Accepted(fd), c);
    PhaseThen(t.trace, Called(x, NewConnection), c);
  }

  lemma UnnamedCalls<C>(s: Table<C>, fd: int, c: C)
    requires Spoken(s, c)
    ensures Spoken(s.(trace := s.trace + [Accepted(fd)] + [Closed(fd)]), c)
  {
    hide Represents, PhaseOf;
    PhaseThen(s.trace, Accepted(fd), c);
    PhaseThen(s.trace + [Accepted(fd)], Closed(fd), c);
  }

  lemma StepCalls<C>(s: Table<C>, input: Input<C>, c: C)
    requires Spoken(s, c)
    requires input.Accept? ==> input.c !in s.records && PhaseOf(s.trace, input.c) == Unborn
    ensures Spoken(Step(s, input), c)
  {
    hide Linked, CallsOk, Scan, Sweep, AddConnection, PhaseOf, TimestampFromTv;
    match input {
      case Accept(x, fd, clock, timeout) => AcceptCalls(s, x, fd, TimestampFromTv(clock + timeout, 0), c);
      case AcceptUnnamed(fd) => UnnamedCalls(s, fd, c);
      case Receive(obs) => ScanCalls(s, 0, obs, c);
      case Expiry(clock) => SweepCalls(s, TimestampFromTv(clock, 0), c);
    }
  }

  /** Every run keeps structure and protocol, whatever descriptors accept() hands out. */
  lemma {:induction false} RunCalls<C>(s: Table<C>, inputs: seq<Input<C>>, s': Table<C>, c: C)
    requires Spoken(s, c) && Leads(s, inputs, s') && NamesNew(s, inputs)
    ensures Spoken(s', c)
    decreases inputs
  {
    if inputs == [] {
    } else {
      StepCalls(s, inputs[0], c);
      RunCalls(Step(s, inputs[0]), inputs[1..], s', c);
    }
  }

  /**
    No forgotten connection. After every run the wheel's entries are exactly the timers of the live
    connections, the indices agree, and each connection's callbacks keep to the protocol.
  */
  lemma NoForgottenConnection<C>(n: nat, clock: int, inputs: seq<Input<C>>, s: Table<C>, c: C)
    requires n > 0 && Leads(Created<C>(n, clock), inputs, s) && NamesNew(Created<C>(n, clock), inputs)
    ensures Represents(s.wheel, Deadlines(s.records))
    ensures NoRepeat(s.conns) && s.records.Keys == (set x | x in s.conns)
    ensures forall k | 0 <= k < |s.conns| :: s.conns[k] in s.records && s.records[s.conns[k]].index == k
    ensures PhaseOf(s.trace, c) != Broken
    ensures c in s.records <==> PhaseOf(s.trace, c) == Live
    ensures c !in s.records <==> PhaseOf(s.trace, c) in {Unborn, Dead}
  {
    CreatedInv<C>(n, clock);
    RunCalls(Created<C>(n, clock), inputs, s, c);
    assert Deadlines(s.records) - {} == Deadlines(s.records);
  }
}
