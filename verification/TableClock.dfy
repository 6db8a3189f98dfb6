/** The clock of the dispatcher of src/dispatch.c: when its timers are set in time. */
module TableClock {
  import opened Ticks
  import opened TimingWheel
  import opened WheelLaws
  import opened Table
  import opened TableLaws
  import opened TableRuns

  /** Seconds that convert to ticks without wrapping. */
  const CLOCK_LIMIT: nat := WORD / TICKS_PER_SECOND

  /** Everything pending is at or after the hand, which is no further than the latest reading allows. */
  ghost predicate ClockOk<C>(s: Table<C>, top: nat)
  {
    Inv(s) && top < CLOCK_LIMIT &&
    s.wheel.hand <= TimestampFromTv(top, 0) + 1 && Timely(s.wheel.hand, Deadlines(s.records))
  }

  /**
    `top` is the latest of the creation time and the sweep times so far. Timers may be set from an
    earlier reading, as long as they end after `top`.
  */
  ghost predicate ClockAdmits<C>(top: nat, input: Input<C>)
  {
    match input
    case Accept(_, _, clock, timeout) => top < clock + timeout < CLOCK_LIMIT
    case Expiry(clock) => 0 <= clock < CLOCK_LIMIT
    case _ => true
  }

  function Later<C>(top: nat, input: Input<C>): nat
  {
    if input.Expiry? && input.clock > top then input.clock else top
  }

  lemma SecondsToTicks(secs: nat)
    requires secs < CLOCK_LIMIT
    ensures TimestampFromTv(secs, 0) == secs * TICKS_PER_SECOND
  {}

  /** Once a sweep has been made at `top`, a timer is timely exactly when it ends after `top`. */
  lemma TimelyExactly(hand: nat, top: nat, ends: nat)
    requires top < CLOCK_LIMIT && ends < CLOCK_LIMIT && hand == TimestampFromTv(top, 0) + 1
    ensures hand <= TimestampFromTv(ends, 0) <==> top < ends
  {}

  lemma ScanKeepsClock<C>(s: Table<C>, obs: seq<Outcome>, top: nat)
    requires ClockOk(s, top)
    ensures ClockOk(Scan(s, 0, obs).0, top)
  {
    hide Represents, Scan, ScanTrace, Enumerates, TimestampFromTv;
    ScanComplete(s, 0, obs);
    var s' := Scan(s, 0, obs).0;
    assert forall c | c in s'.records :: c in s.records && Deadlines(s'.records)[c] == Deadlines(s.records)[c];
  }

  lemma SweepKeepsClock<C>(s: Table<C>, clock: nat, top: nat)
    requires ClockOk(s, top) && clock < CLOCK_LIMIT
    ensures ClockOk(Sweep(s, TimestampFromTv(clock, 0)), if clock > top then clock else top)
  {
    SweepTimely(s, TimestampFromTv(clock, 0));
    SecondsToTicks(clock);
    SecondsToTicks(top);
  }

  lemma AcceptKeepsClock<C>(s: Table<C>, c: C, fd: int, ends: nat, top: nat)
    requires ClockOk(s, top) && c !in s.records && top < ends < CLOCK_LIMIT
    ensures ClockOk(AddConnection(s.(trace := s.trace + [Accepted(fd)]), c, fd, TimestampFromTv(ends, 0)), top)
  {
    AddKeepsInv(s.(trace := s.trace + [Accepted(fd)]), c, fd, TimestampFromTv(ends, 0));
    TimelyExactly(TimestampFromTv(top, 0) + 1, top, ends);
    var s' := AddConnection(s.(trace := s.trace + [Accepted(fd)]), c, fd, TimestampFromTv(ends, 0));
    assert Deadlines(s'.records) == Deadlines(s.records)[c := TimestampFromTv(ends, 0)];
  }

  /** The readings of the clock along these inputs keep every timer timely. */
  ghost predicate InTime<C>(top: nat, inputs: seq<Input<C>>)
    decreases inputs
  {
    inputs == [] || (ClockAdmits(top, inputs[0]) && InTime(Later(top, inputs[0]), inputs[1..]))
  }

  lemma StepKeepsClock<C>(s: Table<C>, input: Input<C>, top: nat)
    requires ClockOk(s, top) && ClockAdmits(top, input) && (input.Accept? ==> input.c !in s.records)
    ensures ClockOk(Step(s, input), Later(top, input))
  {
    hide Linked, Scan, Sweep, AddConnection, TimestampFromTv, Timely;
    match input {
      case Accept(c, fd, clock, timeout) => AcceptKeepsClock(s, c, fd, clock + timeout, top);
      case AcceptUnnamed(fd) => TraceIsNothing(s, s.trace + [Accepted(fd)] + [Closed(fd)]);
      case Receive(obs) => ScanKeepsClock(s, obs, top);
      case Expiry(clock) => SweepKeepsClock(s, clock, top);
    }
  }

  lemma TraceIsNothing<C>(s: Table<C>, trace: seq<Effect<C>>)
    requires Inv(s)
    ensures Inv(s.(trace := trace))
  {}

  lemma {:induction false} ReachesTimely<C>(s: Table<C>, top: nat, inputs: seq<Input<C>>, s': Table<C>)
    requires ClockOk(s, top) && Leads(s, inputs, s') && InTime(top, inputs)
    ensures Inv(s') && Timely(s'.wheel.hand, Deadlines(s'.records))
    decreases inputs
  {
    hide Linked, Step, ClockAdmits, TimestampFromTv, Timely;
    if inputs == [] {
    } else {
      StepKeepsClock(s, inputs[0], top);
      ReachesTimely(Step(s, inputs[0]), Later(top, inputs[0]), inputs[1..], s');
    }
  }

  /** After every such run, a sweep ends exactly the connections whose time has come. */
  lemma SweepExactInTime<C>(n: nat, clock: nat, inputs: seq<Input<C>>, s: Table<C>, now: nat)
    requires n > 0 && clock < CLOCK_LIMIT && Leads(Created<C>(n, clock), inputs, s) && InTime(clock, inputs)
    ensures Inv(s) && Sweep(s, now).records.Keys == set c | c in s.records && s.records[c].deadline > now
  {
    var z := Created<C>(n, clock);
    CreatedClock<C>(n, clock);
    ReachesTimely(z, clock, inputs, s);
    SweepTimely(s, now);
  }

  lemma {:induction false} InTimeBefore<C>(top: nat, a: seq<Input<C>>, last: Input<C>)
    requires InTime(top, a + [last])
    ensures InTime(top, a)
    decreases a
  {
    if a == [] {
    } else {
      assert (a + [last])[1..] == a[1..] + [last];
      InTimeBefore(Later(top, a[0]), a[1..], last);
    }
  }

  /** A run that ends in a sweep has ended exactly the connections whose time had come by its clock. */
  lemma LastSweepInTime<C>(n: nat, clock: nat, inputs: seq<Input<C>>, last: int, s: Table<C>)
    returns (before: Table<C>)
    requires n > 0 && clock < CLOCK_LIMIT && Leads(Created<C>(n, clock), inputs + [Expiry(last)], s)
    requires InTime(clock, inputs + [Expiry(last)])
    ensures Leads(Created<C>(n, clock), inputs, before) && KeepsRecords(s.records, before.records)
    ensures s.records.Keys == set c | c in before.records && before.records[c].deadline > TimestampFromTv(last, 0)
  {
    hide Leads, InTime, Sweep, TimestampFromTv;
    var z := Created<C>(n, clock);
    before := LeadsLast(z, inputs, Expiry(last), s);
    InTimeBefore(clock, inputs, Expiry(last));
    CreatedClock<C>(n, clock);
    ReachesTimely(z, clock, inputs, before);
    SweepTimely(before, TimestampFromTv(last, 0));
  }

  lemma CreatedClock<C>(n: nat, clock: nat)
    requires n > 0 && clock < CLOCK_LIMIT
    ensures ClockOk(Created<C>(n, clock), clock)
  {
    CreatedInv<C>(n, clock);
  }
}
