/**
  The loop of src/main.c on one dispatcher. As the code stands it makes any number of turns in which
  nothing is ready and one in which something is; with the sleep ring created it makes any number of both.
*/
module ServerLoop {
  import opened Bits
  import opened TimingWheel
  import opened WheelLaws
  import opened IntrusiveList
  import opened Table
  import opened TableRuns
  import opened TableFds
  import opened TableClock
  import opened TableTrace
  import opened TableSweeps
  import opened Ticks
  import opened TableLaws
  import opened Dispatch

  class Server {
    const dispatcher: Dispatcher

    /** Whether the loop can take another turn. */
    var running: bool

    /** The clock at creation, and everything that has happened since. */
    ghost const created: int
    ghost var inputs: seq<Input<Entry>>

    ghost function Repr(): set<object>
      reads this, dispatcher, dispatcher.sleep
    {
      {this} + dispatcher.Repr() + dispatcher.SleepRepr()
    }

    ghost predicate Valid()
      reads this, dispatcher, dispatcher.sleep, dispatcher.Repr(), dispatcher.SleepRepr()
    {
      this !in dispatcher.Repr() + dispatcher.SleepRepr() && dispatcher.Valid() && dispatcher.SleepEmpty() &&
      (running <==> inputs == [] || dispatcher.sleep != null) &&
      (inputs == [] || inputs[|inputs| - 1].Expiry?) &&
      Leads(Created(Pow2(RING_BITS), created), inputs, dispatcher.table) &&
      NamesNew(Created(Pow2(RING_BITS), created), inputs)
    }

    constructor (clock: int)
      ensures Valid() && fresh(Repr()) && created == clock && inputs == [] && running
      ensures dispatcher.sleep == null
    {
      hide Dispatcher.Valid, Pow2;
      dispatcher := new Dispatcher(clock);
      running, created, inputs := true, clock, [];
    }

    /** The server as it would be if dispatcher_create made the sleep ring. */
    constructor WithSleep(clock: int)
      ensures Valid() && fresh(Repr()) && created == clock && inputs == [] && running
      ensures dispatcher.sleep != null
    {
      hide Dispatcher.Valid, Dispatcher.SleepEmpty, Pow2;
      dispatcher := new Dispatcher.WithSleep(clock);
      running, created, inputs := true, clock, [];
    }

    /**
      One turn of the loop. Its inputs join those of the turns before; no status it reports ends the loop.
      Another turn follows exactly if nothing was ready or the sleep ring exists.
    */
    method Turn(ready: int, obs: seq<Outcome>, services: seq<Service>, arrivals: seq<Arrival>,
                clock: int, sleepClock: int, receiveClock: int)
      returns (exit: Exit, ghost accepts: seq<Input<Entry>>)
      requires Valid() && running && |services| == |arrivals|
      requires ready != 0 ==> dispatcher.RoomFor(obs, arrivals)
      modifies Repr()
      ensures Valid() && fresh(Repr() - old(Repr()))
      ensures running <==> exit.Returned?
      ensures running <==> ready == 0 || dispatcher.sleep != null
      ensures exit.Returned? ==> exit.status >= 0
      ensures ready == 0 ==> inputs == old(inputs)
      ensures ready != 0 ==>
                Matches(services, arrivals, accepts) &&
                inputs == old(inputs) + ([Receive(obs)] + accepts + [Expiry(clock)])
    {
      hide Dispatcher.Valid, Dispatcher.RoomFor, Dispatcher.SleepEmpty, Pow2, Leads, NamesNew, Matches;
      ghost var s := dispatcher.table;
      exit, accepts := dispatcher.Dispatch(ready, obs, services, arrivals, clock, sleepClock, receiveClock);
      assert this !in dispatcher.Repr() + dispatcher.SleepRepr();
      if ready != 0 {
        ghost var round := [Receive(obs)] + accepts + [Expiry(clock)];
        RunMore(Created(Pow2(RING_BITS), created), inputs, s, round, dispatcher.table);
        inputs := inputs + round;
      }
      running := exit.Returned?;
      assert dispatcher.Valid() && dispatcher.SleepEmpty();
    }

    /** No forgotten connection, and callbacks in order, after any number of turns. */
    lemma EveryTurnKeepsProtocol(c: Entry)
      requires Valid()
      ensures var s := dispatcher.table;
              Represents(s.wheel, Deadlines(s.records)) &&
              NoRepeat(s.conns) && s.records.Keys == (set x | x in s.conns) &&
              (forall k | 0 <= k < |s.conns| :: s.conns[k] in s.records && s.records[s.conns[k]].index == k) &&
              PhaseOf(s.trace, c) != Broken &&
              (c in s.records <==> PhaseOf(s.trace, c) == Live) &&
              (c !in s.records <==> PhaseOf(s.trace, c) in {Unborn, Dead})
    {
      hide Dispatcher.Valid, Dispatcher.SleepEmpty, Pow2, Leads, NamesNew, PhaseOf, Represents, NoRepeat;
      Pow2Grows(RING_BITS);
      NoForgottenConnection(Pow2(RING_BITS), created, inputs, dispatcher.table, c);
    }

    /** Descriptors are conserved if accept() returns none that is open. */
    lemma EveryTurnConservesDescriptors(fd: int)
      requires Valid() && fd > 0 && FdsNew(Created(Pow2(RING_BITS), created), inputs)
      ensures var s := dispatcher.table;
              |Holders(s, fd)| <= 1 &&
              Count(s.trace, Accepted(fd)) == Count(s.trace, Closed(fd)) + |Holders(s, fd)|
    {
      hide Dispatcher.Valid, Dispatcher.SleepEmpty, Pow2, Leads, FdsNew, Count;
      Pow2Grows(RING_BITS);
      DescriptorConservation(Pow2(RING_BITS), created, inputs, dispatcher.table, fd);
    }

    /**
      If the clock has set no timer too late, the last turn in which something was ready has ended exactly
      the connections whose time had come by the clock it read.
    */
    lemma EveryTurnSweepsInTime() returns (before: Table<Entry>)
      requires Valid() && inputs != [] && 0 <= created < CLOCK_LIMIT && InTime(created, inputs)
      ensures inputs[|inputs| - 1].Expiry?
      ensures Leads(Created(Pow2(RING_BITS), created), inputs[..|inputs| - 1], before)
      ensures KeepsRecords(dispatcher.table.records, before.records)
      ensures var now := TimestampFromTv(inputs[|inputs| - 1].clock, 0);
              dispatcher.table.records.Keys == set c | c in before.records && before.records[c].deadline > now
    {
      hide Dispatcher.Valid, Dispatcher.SleepEmpty, Pow2, Leads, InTime, Sweep, TimestampFromTv;
      Pow2Grows(RING_BITS);
      assert inputs == inputs[..|inputs| - 1] + [inputs[|inputs| - 1]];
      before := LastSweepInTime(Pow2(RING_BITS), created, inputs[..|inputs| - 1], inputs[|inputs| - 1].clock,
                                dispatcher.table);
    }

    /** And whenever the next sweep comes, it will end exactly those whose time has come by then. */
    lemma NextSweepInTime(now: nat)
      requires Valid() && 0 <= created < CLOCK_LIMIT && InTime(created, inputs)
      ensures var s := dispatcher.table;
              Inv(s) && Sweep(s, now).records.Keys == set c | c in s.records && s.records[c].deadline > now
    {
      hide Dispatcher.Valid, Dispatcher.SleepEmpty, Pow2, Leads, InTime, Sweep;
      Pow2Grows(RING_BITS);
      SweepExactInTime(Pow2(RING_BITS), created, inputs, dispatcher.table, now);
    }

    /** The ring of 1024*1024 slots has its hand at the creation time, and then one past the latest sweep. */
    lemma EveryTurnHandInSeconds()
      requires Valid() && 0 <= created < CLOCK_LIMIT && ClocksConvert(inputs)
      ensures |dispatcher.table.wheel.slots| == 1024 * 1024
      ensures (forall k | 0 <= k < |inputs| && inputs[k].Expiry? :: inputs[k].clock < created) ==>
                dispatcher.table.wheel.hand == created * 16384
      ensures forall k | 0 <= k < |inputs| && inputs[k].Expiry? && created <= inputs[k].clock &&
                         (forall j | 0 <= j < |inputs| && inputs[j].Expiry? :: inputs[j].clock <= inputs[k].clock) ::
                dispatcher.table.wheel.hand == inputs[k].clock * 16384 + 1
    {
      hide Dispatcher.Valid, Dispatcher.SleepEmpty, Pow2, Leads, ClocksConvert;
      RingSlots();
      HandInSeconds(Pow2(RING_BITS), created, inputs, dispatcher.table);
    }

    /** A next sweep less than 64 seconds after the latest tells of timeouts in order, and moves the hand no further. */
    lemma EveryTurnSweepsInOrder(top: nat, now: nat, i: nat, j: nat)
      requires Valid() && 0 <= created < CLOCK_LIMIT && InTime(created, inputs)
      requires LatestSecond(created, inputs, top) && now < top + 64 && now < CLOCK_LIMIT
      ensures Inv(dispatcher.table)
      ensures var s := dispatcher.table;
              var s' := Sweep(s, now * 16384);
              s.trace <= s'.trace &&
              (var tr := s'.trace[|s.trace|..];
               i < j < |tr| && tr[i].Called? && tr[i].cb == TimedOut && tr[j].Called? && tr[j].cb == TimedOut ==>
                 Sooner(inputs, tr[i].c, tr[j].c)) &&
              s'.wheel.hand - s.wheel.hand <= if now < top then 0 else (now - top) * 16384 + 1
    {
      hide Dispatcher.Valid, Dispatcher.SleepEmpty, Pow2, Leads, InTime, Sweep, Sooner, LatestSecond;
      RingSlots();
      SweepsInOrder(created, inputs, dispatcher.table, top, now, i, j);
    }

    /** Each end is told before the descriptor is closed, and the close comes next. */
    lemma EveryTurnTellsThenCloses(k: nat)
      requires Valid() && k < |dispatcher.table.trace|
      ensures var tr := dispatcher.table.trace;
              (tr[k].Called? && tr[k].cb == Ended ==>
                FdOf(tr[..k], tr[k].c).Some? &&
                (FdOf(tr[..k], tr[k].c).value > 0 ==>
                  k + 1 < |tr| && tr[k + 1] == Closed(FdOf(tr[..k], tr[k].c).value))) &&
              (tr[k].Called? && tr[k].cb == TimedOut ==> k + 1 < |tr| && tr[k + 1] == Called(tr[k].c, Ended))
    {
      hide Dispatcher.Valid, Dispatcher.SleepEmpty, Pow2, Leads, FdOf;
      Pow2Grows(RING_BITS);
      TellsThenCloses(Pow2(RING_BITS), created, inputs, dispatcher.table, k);
    }
  }
}
