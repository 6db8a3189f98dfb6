/** Every run of the ring on its 64-bit counter: where the hand is, how often it moved, when it goes back. */
module WheelWordRuns {
  import opened Ticks
  import opened TimingWheel
  import opened WheelLaws
  import opened WheelWord
  import WheelRuns

  /** The ring, the map it should be, and the moves and wraps of the hand so far. */
  datatype Clockwork<E> = Clockwork(w: Wheel<E>, m: map<E, nat>, moves: nat, wraps: nat)

  /** Arguments are 64-bit values, and the one scan that would not end is not begun. */
  ghost predicate Allowed<E>(h: Clockwork<E>, op: WheelRuns.Op<E>)
  {
    match op
    case AddOp(e, t) => t < WORD
    case UnlinkOp(e) => true
    case RemoveOp(now) => now < WORD && (now < WORD - 1 || h.m.Keys != {})
  }

  ghost function Step<E>(h: Clockwork<E>, op: WheelRuns.Op<E>): Clockwork<E>
    requires |h.w.slots| > 0 && h.w.hand < WORD
  {
    match op
    case AddOp(e, t) => h.(w := Add(h.w, e, t), m := h.m[e := t])
    case UnlinkOp(e) => h.(w := Unlink(h.w, e), m := h.m - {e})
    case RemoveOp(now) =>
      var (v, r) := RemoveWord(h.w, now);
      Clockwork(v, if r.Some? then h.m - {r.value} else h.m, h.moves + Moves(h.w, now),
                h.wraps + if WrapsScan(h.w, now) then 1 else 0)
  }

  /** These operations lead from h to h'. */
  ghost predicate Leads<E>(h: Clockwork<E>, ops: seq<WheelRuns.Op<E>>, h': Clockwork<E>)
    decreases ops
  {
    if ops == [] then h' == h
    else
      |h.w.slots| > 0 && h.w.hand < WORD && Allowed(h, ops[0]) && Leads(Step(h, ops[0]), ops[1..], h')
  }

  ghost predicate Inv<E>(h: Clockwork<E>)
  {
    Represents(h.w, h.m) && Fits(h.w, h.m)
  }

  lemma StepKeeps<E>(h: Clockwork<E>, op: WheelRuns.Op<E>)
    requires Inv(h) && |h.w.slots| > 0 && Allowed(h, op)
    ensures Inv(Step(h, op))
    ensures h.moves <= Step(h, op).moves && h.wraps <= Step(h, op).wraps
    ensures h.w.hand + Step(h, op).moves + WORD * h.wraps == Step(h, op).w.hand + h.moves + WORD * Step(h, op).wraps
  {
    hide Represents, Stop;
    match op {
      case AddOp(e, t) => AddRepresents(h.w, h.m, e, t);
      case UnlinkOp(e) => UnlinkRepresents(h.w, h.m, e);
      case RemoveOp(now) =>
        RemoveWordFits(h.w, h.m, now);
        RemoveWordRepresents(h.w, h.m, now);
    }
  }

  /**
    After every run on 64 bits the ring is the map, deadlines and hand fit their fields, and the moves
    of the hand are its way from first to last position, a full 2^64 for each wrap.
  */
  lemma {:induction false} EveryWordRun<E>(h: Clockwork<E>, ops: seq<WheelRuns.Op<E>>, h': Clockwork<E>)
    requires Inv(h) && Leads(h, ops, h')
    ensures Represents(h'.w, h'.m) && Fits(h'.w, h'.m)
    ensures h.w.hand + h'.moves + WORD * h.wraps == h'.w.hand + h.moves + WORD * h'.wraps
    ensures h.wraps == h'.wraps ==> h.w.hand <= h'.w.hand
    ensures h.moves <= h'.moves && h.wraps <= h'.wraps
    decreases ops
  {
    hide Represents, Fits, Step, Allowed;
    if ops == [] {
    } else {
      StepKeeps(h, ops[0]);
      EveryWordRun(Step(h, ops[0]), ops[1..], h');
    }
  }

  /** No bound is the last 64-bit value. */
  predicate BelowLast<E>(ops: seq<WheelRuns.Op<E>>)
  {
    forall k | 0 <= k < |ops| && ops[k].RemoveOp? :: ops[k].now < WORD - 1
  }

  /** While no bound is the last value, a run on 64 bits is the run over the unbounded hand, without wraps. */
  lemma {:induction false} WordRunIsRun<E>(h: Clockwork<E>, ops: seq<WheelRuns.Op<E>>, h': Clockwork<E>,
                                           g: WheelRuns.History<E>)
    requires Leads(h, ops, h') && BelowLast(ops) && g.w == h.w && |g.w.slots| > 0
    ensures WheelRuns.Run(g, ops).w == h'.w && h'.wraps == h.wraps
    decreases ops
  {
    hide Stop, Remove, Add, Unlink;
    if ops == [] {
    } else {
      WheelRuns.StepRing(g, ops[0]);
      WordRunIsRun(Step(h, ops[0]), ops[1..], h', WheelRuns.Step(g, ops[0]));
    }
  }
}
