/** When and in what order the sweeps of src/dispatch.c end connections, in seconds of the clock. */
module TableSweeps {
  import opened Ticks
  import opened TimingWheel
  import opened Wrappers
  import opened WheelLaws
  import opened WheelOrder
  import opened Table
  import opened TableLaws
  import opened TableRuns
  import opened TableClock

  // ---------- where the hand is ----------

  ghost predicate ClocksConvert<C>(inputs: seq<Input<C>>)
  {
    forall k | 0 <= k < |inputs| && inputs[k].Expiry? :: 0 <= inputs[k].clock < CLOCK_LIMIT
  }

  lemma StepHand<C>(s: Table<C>, input: Input<C>)
    requires Inv(s) && (input.Expiry? ==> 0 <= input.clock < CLOCK_LIMIT) && (input.Accept? ==> input.c !in s.records)
    ensures |s.wheel.slots| > 0 && |Step(s, input).wheel.slots| == |s.wheel.slots|
    ensures Step(s, input).wheel.hand ==
              if input.Expiry? && s.wheel.hand <= input.clock * 16384 then input.clock * 16384 + 1 else s.wheel.hand
  {
    hide Linked, Scan, Sweep, ScanTrace, Enumerates, TimestampFromTv, Drain, DueSet, KeepsRecords;
    InvSlots(s);
    match input {
      case Accept(c, fd, clock, timeout) =>
      case AcceptUnnamed(fd) =>
      case Receive(obs) => ScanComplete(s, 0, obs); ScanSlots(s, 0, obs);
      case Expiry(clock) =>
        var now := TimestampFromTv(clock, 0);
        SecondsToTicks(clock);
        SweepFollowsDrain(s, now);
        DrainHand(s, now);
    }
  }

  lemma InvSlots<C>(s: Table<C>)
    requires Inv(s)
    ensures |s.wheel.slots| > 0
  {}

  lemma DrainHand<C>(s: Table<C>, now: nat)
    requires Inv(s)
    ensures |s.wheel.slots| > 0
    ensures Drain(s.wheel, now).0.hand == if s.wheel.hand <= now then now + 1 else s.wheel.hand
    ensures |Drain(s.wheel, now).0.slots| == |s.wheel.slots|
  {
    hide Represents, DueSet, NoRepeat;
    SomeSlots(s.wheel, Deadlines(s.records) - {});
    DrainExact(s.wheel, Deadlines(s.records) - {}, now);
    DrainSlots(s.wheel, now);
  }

  lemma {:induction false} DrainSlots<E>(w: Wheel<E>, now: nat)
    requires |w.slots| > 0
    ensures |Drain(w, now).0.slots| == |w.slots|
    decreases if w.hand <= now then now + 1 - w.hand else 0, |SlotAt(w, w.hand)|
  {
    if Remove(w, now).1 == None {
    } else {
      RemoveShrinks(w, now);
      DrainSlots(Remove(w, now).0, now);
    }
  }

  lemma {:induction false} ScanSlots<C>(s: Table<C>, i: nat, obs: seq<Outcome>)
    requires Inv(s) && i <= |s.conns|
    ensures |Scan(s, i, obs).0.wheel.slots| == |s.wheel.slots|
    decreases |s.conns| - i
  {
    hide Linked, Scan;
    ScanTurn(s, i, obs);
    if i == |s.conns| {
    } else if obs != [] && obs[0] == Eof {
      RemovedRecords(s, i);
      ScanSlots(RemoveAt(s, i), i, obs[1..]);
    } else {
      var e := if obs != [] && obs[0] == Data then s.(trace := s.trace + [Called(s.conns[i], Received)]) else s;
      ScanSlots(e, i + 1, Rest(obs));
    }
  }

  /** The hand is past every sweep, and where the first or the latest of them put it. */
  lemma {:induction false} RunHand<C>(s: Table<C>, inputs: seq<Input<C>>, s': Table<C>)
    requires Inv(s) && Leads(s, inputs, s') && ClocksConvert(inputs)
    ensures Inv(s) && |s'.wheel.slots| == |s.wheel.slots| && s.wheel.hand <= s'.wheel.hand
    ensures forall k | 0 <= k < |inputs| && inputs[k].Expiry? :: s'.wheel.hand > inputs[k].clock * 16384
    ensures s'.wheel.hand == s.wheel.hand ||
            exists k :: 0 <= k < |inputs| && inputs[k].Expiry? && s'.wheel.hand == inputs[k].clock * 16384 + 1
    decreases inputs
  {
    hide Linked, Step;
    if inputs == [] {
    } else {
      var t := Step(s, inputs[0]);
      StepHand(s, inputs[0]);
      StepInv(s, inputs[0]);
      RunHand(t, inputs[1..], s');
      assert forall k | 0 < k < |inputs| :: inputs[k] == inputs[1..][k - 1];
      if s'.wheel.hand != s.wheel.hand {
        if s'.wheel.hand == t.wheel.hand {
          assert inputs[0].Expiry? && s'.wheel.hand == inputs[0].clock * 16384 + 1;
        } else {
          var k :| 0 <= k < |inputs[1..]| && inputs[1..][k].Expiry? &&
                   s'.wheel.hand == inputs[1..][k].clock * 16384 + 1;
          assert inputs[k + 1].Expiry? && s'.wheel.hand == inputs[k + 1].clock * 16384 + 1;
        }
      }
    }
  }

  lemma StepInv<C>(s: Table<C>, input: Input<C>)
    requires Inv(s) && (input.Accept? ==> input.c !in s.records)
    ensures Inv(Step(s, input))
  {
    hide Represents, NoRepeat, Scan, Sweep, ScanTrace, Enumerates, TimestampFromTv, Add, Drain, DueSet, KeepsRecords;
    match input {
      case Accept(c, fd, clock, timeout) =>
        SomeSlots(s.wheel, Deadlines(s.records) - {});
        AddKeepsInv(s.(trace := s.trace + [Accepted(fd)]), c, fd, TimestampFromTv(clock + timeout, 0));
      case AcceptUnnamed(fd) => TraceIsNothing(s, s.trace + [Accepted(fd)] + [Closed(fd)]);
      case Receive(obs) => ScanComplete(s, 0, obs);
      case Expiry(clock) => SweepFollowsDrain(s, TimestampFromTv(clock, 0));
    }
  }

  /**
    From creation at `clock` on, the hand is at 16384 ticks a second for that time until a sweep reaches
    it, and then one past the tick of the latest sweep. The ring has as many slots as at creation.
  */
  lemma HandInSeconds<C>(n: nat, clock: nat, inputs: seq<Input<C>>, s: Table<C>)
    requires n > 0 && clock < CLOCK_LIMIT && Leads(Created<C>(n, clock), inputs, s) && ClocksConvert(inputs)
    ensures |s.wheel.slots| == n
    ensures (forall k | 0 <= k < |inputs| && inputs[k].Expiry? :: inputs[k].clock < clock) ==>
              s.wheel.hand == clock * 16384
    ensures forall k | 0 <= k < |inputs| && inputs[k].Expiry? && clock <= inputs[k].clock &&
                       (forall j | 0 <= j < |inputs| && inputs[j].Expiry? :: inputs[j].clock <= inputs[k].clock) ::
              s.wheel.hand == inputs[k].clock * 16384 + 1
  {
    hide Linked, Leads;
    var z := Created<C>(n, clock);
    CreatedInv<C>(n, clock);
    SecondsToTicks(clock);
    RunHand(z, inputs, s);
  }

  // ---------- what the inputs say of a connection ----------

  /** The input that accepted the connection last, or -1. */
  function AcceptedAt<C(==)>(inputs: seq<Input<C>>, c: C): (k: int)
    ensures -1 <= k < |inputs|
    ensures k >= 0 ==> inputs[k].Accept? && inputs[k].c == c
  {
    if inputs == [] then -1 else
      var n := |inputs| - 1;
      if inputs[n].Accept? && inputs[n].c == c then n else AcceptedAt(inputs[..n], c)
  }

  /** The second at which its timer runs out: the reading of the clock and the service's timeout. */
  function EndsAt<C(==)>(inputs: seq<Input<C>>, c: C): int
    requires AcceptedAt(inputs, c) >= 0
  {
    inputs[AcceptedAt(inputs, c)].clock + inputs[AcceptedAt(inputs, c)].timeout
  }

  lemma AcceptedThen<C>(inputs: seq<Input<C>>, last: Input<C>, c: C)
    ensures AcceptedAt(inputs + [last], c) ==
              if last.Accept? && last.c == c then |inputs| else AcceptedAt(inputs, c)
  {
    assert (inputs + [last])[..|inputs|] == inputs;
  }

  /** The latest accepted first. */
  ghost predicate StackedBy<C>(q: seq<Item<C>>, inputs: seq<Input<C>>)
  {
    (forall i | 0 <= i < |q| :: AcceptedAt(inputs, q[i].e) >= 0) &&
    forall i, j | 0 <= i < j < |q| :: AcceptedAt(inputs, q[i].e) > AcceptedAt(inputs, q[j].e)
  }

  ghost predicate Stacked<C>(w: Wheel<C>, inputs: seq<Input<C>>)
  {
    forall k | 0 <= k < |w.slots| :: StackedBy(w.slots[k], inputs)
  }

  /** Descriptor and deadline are those of the input that accepted the connection. */
  ghost predicate AsAccepted<C>(s: Table<C>, inputs: seq<Input<C>>)
  {
    forall c | c in s.records ::
      AcceptedAt(inputs, c) >= 0 && s.records[c].fd == inputs[AcceptedAt(inputs, c)].fd &&
      s.records[c].deadline == TimestampFromTv(EndsAt(inputs, c), 0)
  }

  ghost predicate Accounted<C>(s: Table<C>, inputs: seq<Input<C>>)
  {
    Inv(s) && Stacked(s.wheel, inputs) && AsAccepted(s, inputs)
  }

  // ---------- the lists stay in that order ----------

  lemma WithoutStacked<C>(q: seq<Item<C>>, e: C, inputs: seq<Input<C>>)
    requires StackedBy(q, inputs)
    ensures StackedBy(Without(q, e), inputs)
  {
    hide AcceptedAt;
    if j :| 0 <= j < |q| && q[j].e == e {
      WithoutAt(q, j);
    } else {
      WithoutAbsent(q, e);
    }
  }

  lemma UnlinkStacked<C>(w: Wheel<C>, e: C, inputs: seq<Input<C>>)
    requires Stacked(w, inputs)
    ensures Stacked(Unlink(w, e), inputs)
  {
    hide StackedBy;
    forall k | 0 <= k < |w.slots|
      ensures StackedBy(Without(w.slots[k], e), inputs)
    {
      WithoutStacked(w.slots[k], e, inputs);
    }
  }

  lemma {:induction false} DrainStacked<C>(w: Wheel<C>, now: nat, inputs: seq<Input<C>>)
    requires |w.slots| > 0 && Stacked(w, inputs)
    ensures Stacked(Drain(w, now).0, inputs)
    decreases if w.hand <= now then now + 1 - w.hand else 0, |SlotAt(w, w.hand)|
  {
    hide StackedBy, Unlink;
    var (v, r) := Remove(w, now);
    if r == None {
    } else {
      UnlinkStacked(w.(hand := Stop(w, now)), r.value, inputs);
      RemoveShrinks(w, now);
      DrainStacked(v, now, inputs);
    }
  }

  lemma {:induction false} ScanStacked<C>(s: Table<C>, i: nat, obs: seq<Outcome>, inputs: seq<Input<C>>)
    requires Inv(s) && i <= |s.conns| && Stacked(s.wheel, inputs)
    ensures Stacked(Scan(s, i, obs).0.wheel, inputs)
    decreases |s.conns| - i
  {
    hide Linked, Scan, Stacked, Unlink;
    ScanTurn(s, i, obs);
    if i == |s.conns| {
    } else if obs != [] && obs[0] == Eof {
      RemovedRecords(s, i);
      UnlinkStacked(s.wheel, s.conns[i], inputs);
      ScanStacked(RemoveAt(s, i), i, obs[1..], inputs);
    } else {
      var e := if obs != [] && obs[0] == Data then s.(trace := s.trace + [Called(s.conns[i], Received)]) else s;
      ScanStacked(e, i + 1, Rest(obs), inputs);
    }
  }

  lemma StackedThen<C>(w: Wheel<C>, inputs: seq<Input<C>>, last: Input<C>)
    requires Stacked(w, inputs)
    requires last.Accept? ==> forall k, i | 0 <= k < |w.slots| && 0 <= i < |w.slots[k]| :: w.slots[k][i].e != last.c
    ensures Stacked(w, inputs + [last])
  {
    hide AcceptedAt;
    forall k | 0 <= k < |w.slots|
      ensures StackedBy(w.slots[k], inputs + [last])
    {
      var q := w.slots[k];
      assert StackedBy(q, inputs);
      forall i | 0 <= i < |q|
        ensures AcceptedAt(inputs + [last], q[i].e) == AcceptedAt(inputs, q[i].e)
      {
        AcceptedThen(inputs, last, q[i].e);
      }
    }
  }

  /** The entry that joins a list was accepted after all that are in it. */
  lemma PushStacked<C>(q: seq<Item<C>>, t: nat, inputs: seq<Input<C>>, last: Input<C>)
    requires last.Accept? && StackedBy(q, inputs) && forall i | 0 <= i < |q| :: q[i].e != last.c
    ensures StackedBy([Item(last.c, t)] + q, inputs + [last])
  {
    hide AcceptedAt;
    var r := [Item(last.c, t)] + q;
    AcceptedThen(inputs, last, last.c);
    forall i | 0 <= i < |q|
      ensures AcceptedAt(inputs + [last], q[i].e) == AcceptedAt(inputs, q[i].e) < |inputs|
    {
      AcceptedThen(inputs, last, q[i].e);
    }
    assert forall i | 0 < i < |r| :: r[i] == q[i - 1];
  }

  lemma AddStacked<C>(w: Wheel<C>, m: map<C, nat>, t: nat, inputs: seq<Input<C>>, last: Input<C>)
    requires Represents(w, m) && last.Accept? && last.c !in m && Stacked(w, inputs)
    ensures |w.slots| > 0 && Stacked(Add(w, last.c, t), inputs + [last])
  {
    hide StackedBy;
    UnlinkAbsent(w, m, last.c);
    forall k, i | 0 <= k < |w.slots| && 0 <= i < |w.slots[k]|
      ensures w.slots[k][i].e != last.c
    {
      assert SlotHolds(w.slots[k], k, |w.slots|, m);
    }
    StackedThen(w, inputs, last);
    PushStacked(w.slots[t % |w.slots|], t, inputs, last);
  }

  // ---------- every run ----------

  /** What the inputs say of a connection does not change unless it is accepted again. */
  lemma SameAccepted<C>(inputs: seq<Input<C>>, last: Input<C>, c: C)
    requires AcceptedAt(inputs, c) >= 0 && (last.Accept? ==> last.c != c)
    ensures AcceptedAt(inputs + [last], c) == AcceptedAt(inputs, c) && EndsAt(inputs + [last], c) == EndsAt(inputs, c)
    ensures (inputs + [last])[AcceptedAt(inputs, c)] == inputs[AcceptedAt(inputs, c)]
  {
    AcceptedThen(inputs, last, c);
  }

  lemma KeptAccepted<C>(s: Table<C>, s': Table<C>, inputs: seq<Input<C>>, last: Input<C>)
    requires AsAccepted(s, inputs) && KeepsRecords(s'.records, s.records) && !last.Accept?
    ensures AsAccepted(s', inputs + [last])
  {
    hide AcceptedAt, EndsAt, TimestampFromTv;
    forall c | c in s'.records
      ensures AcceptedAt(inputs + [last], c) == AcceptedAt(inputs, c) >= 0
      ensures EndsAt(inputs + [last], c) == EndsAt(inputs, c)
      ensures (inputs + [last])[AcceptedAt(inputs, c)] == inputs[AcceptedAt(inputs, c)]
    {
      SameAccepted(inputs, last, c);
    }
  }

  lemma NewAccepted<C>(s: Table<C>, inputs: seq<Input<C>>, last: Input<C>)
    requires AsAccepted(s, inputs) && Inv(s) && last.Accept? && last.c !in s.records
    ensures AsAccepted(Step(s, last), inputs + [last])
  {
    hide AcceptedAt, TimestampFromTv, Represents, NoRepeat, Unlink;
    AcceptedThen(inputs, last, last.c);
    forall c | c in s.records
      ensures AcceptedAt(inputs + [last], c) == AcceptedAt(inputs, c) >= 0
      ensures EndsAt(inputs + [last], c) == EndsAt(inputs, c)
      ensures (inputs + [last])[AcceptedAt(inputs, c)] == inputs[AcceptedAt(inputs, c)]
    {
      SameAccepted(inputs, last, c);
    }
  }

  lemma StepAccounted<C>(s: Table<C>, inputs: seq<Input<C>>, last: Input<C>)
    requires Accounted(s, inputs) && (last.Accept? ==> last.c !in s.records)
    ensures Accounted(Step(s, last), inputs + [last])
  {
    hide Linked, Scan, Sweep, Stacked, AsAccepted, TimestampFromTv, Drain, AddConnection;
    StepInv(s, last);
    if last.Accept? {
      NewAccepted(s, inputs, last);
      AcceptStacked(s, inputs, last);
    } else {
      StepKeepsRecords(s, last);
      StepStacked(s, last, inputs);
      StackedThen(Step(s, last).wheel, inputs, last);
      KeptAccepted(s, Step(s, last), inputs, last);
    }
  }

  lemma AcceptStacked<C>(s: Table<C>, inputs: seq<Input<C>>, last: Input<C>)
    requires Inv(s) && Stacked(s.wheel, inputs) && last.Accept? && last.c !in s.records
    ensures Stacked(Step(s, last).wheel, inputs + [last])
  {
    hide Represents, Stacked, NoRepeat, TimestampFromTv, Add;
    AddStacked(s.wheel, Deadlines(s.records) - {}, TimestampFromTv(last.clock + last.timeout, 0), inputs, last);
  }

  lemma StepKeepsRecords<C>(s: Table<C>, input: Input<C>)
    requires Inv(s) && !input.Accept?
    ensures KeepsRecords(Step(s, input).records, s.records)
  {
    hide Linked, Scan, Sweep, TimestampFromTv, ScanTrace, ExpiryTrace, Enumerates, Drain;
    match input {
      case AcceptUnnamed(fd) =>
      case Receive(obs) => ScanComplete(s, 0, obs);
      case Expiry(clock) => SweepFollowsDrain(s, TimestampFromTv(clock, 0));
    }
  }

  lemma StepStacked<C>(s: Table<C>, input: Input<C>, inputs: seq<Input<C>>)
    requires Inv(s) && Stacked(s.wheel, inputs) && !input.Accept?
    ensures Stacked(Step(s, input).wheel, inputs)
  {
    hide Linked, Scan, Sweep, TimestampFromTv, SweepDone, Drain, Stacked;
    InvSlots(s);
    match input {
      case AcceptUnnamed(fd) =>
      case Receive(obs) => ScanStacked(s, 0, obs, inputs);
      case Expiry(clock) =>
        SweepFollowsDrain(s, TimestampFromTv(clock, 0));
        DrainStacked(s.wheel, TimestampFromTv(clock, 0), inputs);
    }
  }

  lemma {:induction false} RunAccounted<C>(s: Table<C>, past: seq<Input<C>>, inputs: seq<Input<C>>, s': Table<C>)
    requires Accounted(s, past) && Leads(s, inputs, s')
    ensures Accounted(s', past + inputs)
    decreases inputs
  {
    hide Accounted;
    if inputs == [] {
      assert past + inputs == past;
    } else {
      StepAccounted(s, past, inputs[0]);
      RunAccounted(Step(s, inputs[0]), past + [inputs[0]], inputs[1..], s');
      assert past + [inputs[0]] + inputs[1..] == past + inputs;
    }
  }

  /** After every run: each connection has the descriptor accept() gave, and the lists are in order of acceptance. */
  lemma EveryRunAccounted<C>(n: nat, clock: int, inputs: seq<Input<C>>, s: Table<C>)
    requires n > 0 && Leads(Created<C>(n, clock), inputs, s)
    ensures Accounted(s, inputs)
  {
    CreatedInv<C>(n, clock);
    RunAccounted(Created<C>(n, clock), [], inputs, s);
    assert [] + inputs == inputs;
  }

  // ---------- in seconds ----------

  lemma {:induction false} InTimeEnds<C>(top: nat, inputs: seq<Input<C>>)
    requires InTime(top, inputs)
    ensures ClocksConvert(inputs)
    ensures forall k | 0 <= k < |inputs| && inputs[k].Accept? ::
              0 <= inputs[k].clock + inputs[k].timeout < CLOCK_LIMIT
    decreases inputs
  {
    if inputs == [] {
    } else {
      InTimeEnds(Later(top, inputs[0]), inputs[1..]);
      assert forall k | 0 < k < |inputs| :: inputs[k] == inputs[1..][k - 1];
    }
  }

  /**
    After every run in time a connection has the descriptor that accept() gave, and its timer runs out at
    16384 ticks a second for the reading of the clock at its acceptance plus the timeout of its service.
  */
  lemma TimerInSeconds<C>(n: nat, clock: nat, inputs: seq<Input<C>>, s: Table<C>, c: C)
    requires n > 0 && Leads(Created<C>(n, clock), inputs, s) && InTime(clock, inputs) && c in s.records
    ensures AcceptedAt(inputs, c) >= 0 && s.records[c].fd == inputs[AcceptedAt(inputs, c)].fd
    ensures EndsAt(inputs, c) >= 0 && s.records[c].deadline == EndsAt(inputs, c) * 16384
  {
    hide Linked, Leads, InTime, Stacked, AcceptedAt, TimestampFromTv;
    EveryRunAccounted(n, clock, inputs, s);
    InTimeEnds(clock, inputs);
    SecondsToTicks(EndsAt(inputs, c));
  }

  /** A sweep at second `now` then ends a connection if and only if that is when its timer runs out, or later. */
  lemma EndsInSeconds<C>(n: nat, clock: nat, inputs: seq<Input<C>>, s: Table<C>, now: nat, c: C)
    requires n > 0 && clock < CLOCK_LIMIT && Leads(Created<C>(n, clock), inputs, s) && InTime(clock, inputs)
    requires now < CLOCK_LIMIT && c in s.records
    ensures Inv(s) && AcceptedAt(inputs, c) >= 0
    ensures c in Sweep(s, TimestampFromTv(now, 0)).records <==> now < EndsAt(inputs, c)
  {
    hide Linked, Leads, InTime, Sweep, AcceptedAt, TimestampFromTv, EndsAt;
    SweepExactInTime(n, clock, inputs, s, TimestampFromTv(now, 0));
    TimerInSeconds(n, clock, inputs, s, c);
    SecondsToTicks(now);
  }

  /** x's timer runs out before y's, or at the same second and x was accepted later. */
  ghost predicate Sooner<C>(inputs: seq<Input<C>>, x: C, y: C)
  {
    AcceptedAt(inputs, x) >= 0 && AcceptedAt(inputs, y) >= 0 &&
    (EndsAt(inputs, x) < EndsAt(inputs, y) ||
     (EndsAt(inputs, x) == EndsAt(inputs, y) && AcceptedAt(inputs, x) > AcceptedAt(inputs, y)))
  }

  ghost function Stamps<C>(s: Table<C>, inputs: seq<Input<C>>): map<C, nat>
    requires AsAccepted(s, inputs)
  {
    map c | c in s.records :: AcceptedAt(inputs, c)
  }

  lemma StackedDescends<C>(s: Table<C>, inputs: seq<Input<C>>)
    requires Accounted(s, inputs)
    ensures forall k | 0 <= k < |s.wheel.slots| :: Descending(s.wheel.slots[k], Stamps(s, inputs))
  {
    hide AcceptedAt, NoRepeat;
    var m := Deadlines(s.records) - {};
    forall k | 0 <= k < |s.wheel.slots|
      ensures Descending(s.wheel.slots[k], Stamps(s, inputs))
    {
      assert SlotHolds(s.wheel.slots[k], k, |s.wheel.slots|, m);
      assert StackedBy(s.wheel.slots[k], inputs);
    }
  }

  /** The connections that a sweep ends, in the order of the ring, each sooner than those after it. */
  lemma DrainSooner<C>(s: Table<C>, top: nat, inputs: seq<Input<C>>, now: nat, i: nat, j: nat)
    requires Accounted(s, inputs) && InTime(top, inputs) && Timely(s.wheel.hand, Deadlines(s.records))
    requires now < s.wheel.hand + |s.wheel.slots|
    requires |s.wheel.slots| > 0 && i < j < |Drain(s.wheel, now).1|
    ensures Sooner(inputs, Drain(s.wheel, now).1[i], Drain(s.wheel, now).1[j])
  {
    hide AcceptedAt, Drain, Represents, NoRepeat, Stacked, InTime, TimestampFromTv, Descending, EndsAt;
    var m, stamp := Deadlines(s.records), Stamps(s, inputs);
    assert m - {} == m;
    StackedDescends(s, inputs);
    OrderedDrain(s.wheel, m, stamp, now);
    var x, y := Drain(s.wheel, now).1[i], Drain(s.wheel, now).1[j];
    assert Before(m, stamp, x, y);
    InTimeEnds(top, inputs);
    EndsBound(inputs, x);
    EndsBound(inputs, y);
    SecondsToTicks(EndsAt(inputs, x));
    SecondsToTicks(EndsAt(inputs, y));
  }

  lemma EndsBound<C>(inputs: seq<Input<C>>, c: C)
    requires AcceptedAt(inputs, c) >= 0
    requires forall k | 0 <= k < |inputs| && inputs[k].Accept? ::
               0 <= inputs[k].clock + inputs[k].timeout < CLOCK_LIMIT
    ensures 0 <= EndsAt(inputs, c) < CLOCK_LIMIT
  {}

  /** Timeouts are told in the order of the connections expired. */
  lemma {:induction false} ToldInOrder<C>(fds: map<C, int>, cs: seq<C>, i: nat) returns (a: nat)
    requires forall c | c in cs :: c in fds
    requires i < |ExpiryTrace(fds, cs)|
    requires ExpiryTrace(fds, cs)[i].Called? && ExpiryTrace(fds, cs)[i].cb == TimedOut
    ensures a < |cs| && ExpiryTrace(fds, cs)[i].c == cs[a] && i == |ExpiryTrace(fds, cs[..a])|
  {
    var block := [Called(cs[0], TimedOut)] + Farewell(cs[0], fds[cs[0]]);
    if i < |block| {
      a := 0;
      assert ExpiryTrace(fds, cs)[i] == block[i];
      assert cs[..0] == [];
    } else {
      assert ExpiryTrace(fds, cs)[i] == ExpiryTrace(fds, cs[1..])[i - |block|];
      a := ToldInOrder(fds, cs[1..], i - |block|);
      a := a + 1;
      assert cs[..a][1..] == cs[1..][..a - 1] && cs[..a][0] == cs[0];
    }
  }

  lemma {:induction false} ExpiryGrows<C>(fds: map<C, int>, cs: seq<C>, a: nat, b: nat)
    requires b <= a <= |cs| && forall c | c in cs :: c in fds
    ensures |ExpiryTrace(fds, cs[..b])| <= |ExpiryTrace(fds, cs[..a])|
    decreases |cs|
  {
    if b == 0 {
      assert cs[..0] == [];
    } else {
      ExpiryGrows(fds, cs[1..], a - 1, b - 1);
      assert cs[..a][1..] == cs[1..][..a - 1] && cs[..b][1..] == cs[1..][..b - 1];
    }
  }

  /** `top` is the latest of the creation time and the seconds swept. */
  ghost predicate LatestSecond<C>(clock: nat, inputs: seq<Input<C>>, top: nat)
  {
    clock <= top && (forall k | 0 <= k < |inputs| && inputs[k].Expiry? :: inputs[k].clock <= top) &&
    (top == clock || exists k :: 0 <= k < |inputs| && inputs[k].Expiry? && inputs[k].clock == top)
  }

  /**
    On a ring of 2^20 slots, a sweep less than 64 seconds after the latest before it tells of timeouts in
    the order in which timers run out, and of the latest accepted first among those of the same second.
    It moves the hand by no more than the seconds that have passed.
  */
  lemma SweepsInOrder<C>(clock: nat, inputs: seq<Input<C>>, s: Table<C>, top: nat, now: nat, i: nat, j: nat)
    requires clock < CLOCK_LIMIT && Leads(Created<C>(1024 * 1024, clock), inputs, s) && InTime(clock, inputs)
    requires LatestSecond(clock, inputs, top) && now < top + 64 && now < CLOCK_LIMIT
    ensures Inv(s)
    ensures var s' := Sweep(s, now * 16384);
            s.trace <= s'.trace &&
            var tr := s'.trace[|s.trace|..];
            i < j < |tr| && tr[i].Called? && tr[i].cb == TimedOut && tr[j].Called? && tr[j].cb == TimedOut ==>
              Sooner(inputs, tr[i].c, tr[j].c)
    ensures var s' := Sweep(s, now * 16384);
            s.wheel.hand <= s'.wheel.hand <= s.wheel.hand + (if now < top then 0 else (now - top) * 16384 + 1)
  {
    hide Linked, Leads, InTime, Sweep, Drain, ExpiryTrace, Sooner, Accounted, AcceptedAt, TimestampFromTv, KeepsRecords;
    var n := 1024 * 1024;
    var z, ticks := Created<C>(n, clock), now * 16384;
    CreatedInv<C>(n, clock);
    CreatedClock<C>(n, clock);
    ReachesTimely(z, clock, inputs, s);
    InTimeEnds(clock, inputs);
    SecondsToTicks(clock);
    RunHand(z, inputs, s);
    EveryRunAccounted(n, clock, inputs, s);
    SweepFollowsDrain(s, ticks);
    DrainHand(s, ticks);
    var cs, fds := Drain(s.wheel, ticks).1, Fds(s.records);
    var tr := ExpiryTrace(fds, cs);
    assert Sweep(s, ticks).trace[|s.trace|..] == tr;
    if i < j < |tr| && tr[i].Called? && tr[i].cb == TimedOut && tr[j].Called? && tr[j].cb == TimedOut {
      var a := ToldInOrder(fds, cs, i);
      var b := ToldInOrder(fds, cs, j);
      if b <= a {
        ExpiryGrows(fds, cs, a, b);
      }
      DrainSooner(s, clock, inputs, ticks, a, b);
    }
  }
}
