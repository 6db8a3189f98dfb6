/**
  The echo handler of src/builtin-echo.c under the poll loop of src/dispatcher.c: what each handler
  asks of the loop is what the loop delivers to it, pass after pass.
*/
module EchoRuns {
  import opened Wrappers
  import opened PollModel
  import opened PollLaws
  import opened EchoModel
  import PollRuns

  /**
    What the system calls of one handler call return. `listener` is what the handler does if it is not
    the echo handler: the descriptors that it adds become echo connections.
  */
  datatype Result = Result(arrived: Arrival, count: int, listener: Reply)

  /** The poll dispatcher with the echo connections it has had, by identity. */
  datatype System = System(poll: Poll, conns: map<nat, Conn>)

  datatype Act = Listen(fd: int) | Connect(fd: int) | Pass(reported: seq<set<Flag>>, results: seq<Result>)

  const ERRORS: set<Flag> := {POLLERR, POLLHUP, POLLOTHER}

  const START := System(EMPTY, map[])

  // ---------- what the system may answer ----------

  /** send() takes between nothing and everything, or fails. */
  function Taken(count: int, len: nat): (r: int)
    ensures -1 <= r <= len
    ensures -1 <= count <= len ==> r == count
  {
    if count < 0 then -1 else if count > len then len else count
  }

  /** recv() fills at most the buffer. */
  function Filling(arrived: Arrival): (a: Arrival)
    ensures a.Bytes? ==> |a.data| <= CAPACITY
    ensures arrived == Failed || |arrived.data| <= CAPACITY ==> a == arrived
  {
    if arrived.Bytes? && |arrived.data| > CAPACITY then Bytes(arrived.data[..CAPACITY]) else arrived
  }

  /** poll() reports what was asked for, and errors. */
  function Masked(list: seq<Slot>, reported: seq<set<Flag>>): (bits: seq<set<Flag>>)
    ensures |bits| == |list|
    ensures forall k | 0 <= k < |list| && k < |reported| &&
                       reported[k] <= list[k].events + {POLLERR, POLLHUP, POLLOTHER} ::
              bits[k] == reported[k]
  {
    seq(|list|, k requires 0 <= k < |list| => if k < |reported| then reported[k] * (list[k].events + ERRORS) else {})
  }

  // ---------- the handler ----------

  /** What an event and the results of the system calls amount to for the connection. */
  function InputFor(c: Conn, b: Branch, r: Result): Input
    requires b == In || b == Out
  {
    if b == Out then OnWriteable(Taken(r.count, |c.pending|))
    else
      var a := Filling(r.arrived);
      OnReadable(a, if a.Bytes? then Taken(r.count, |a.data|) else 0)
  }

  /** The handler's effect on its own connection. */
  function Handled(c: Conn, b: Branch, r: Result): Conn
  {
    match b
    case In => var e := InputFor(c, b, r); Read(c, e.arrived, e.count)
    case Out => Write(c, InputFor(c, b, r).count)
    case _ => c
  }

  /** What the handler asks of the loop: its own event set anew, or to be closed. */
  function ReplyOf(c: Conn, b: Branch, r: Result): Reply
  {
    if b != In && b != Out then Reply([], None, false)
    else
      var c' := Handled(c, b, r);
      Reply([], if c'.closing then None else Some(c'.interest), c'.closing)
  }

  function NextResult(results: seq<Result>): Result
  {
    if results == [] then Result(Failed, -1, First([])) else results[0]
  }

  function LaterResults(results: seq<Result>, n: nat): seq<Result>
  {
    if n <= |results| then results[n..] else []
  }

  /** The replies of the handler calls that entry i's branch makes. */
  function RepliesFor(s: System, i: nat, results: seq<Result>): (replies: seq<Reply>)
    requires i < |s.poll.list|
    ensures |replies| == |CallsOf(s.poll.list[i].id, BranchOf(s.poll.list[i].revents))|
  {
    var slot, r := s.poll.list[i], NextResult(results);
    var b := BranchOf(slot.revents);
    var echo := slot.id in s.conns;
    var first := if echo then ReplyOf(s.conns[slot.id], b, r) else r.listener;
    if b != Error then [first]
    else [first, if echo then First([]) else NextResult(LaterResults(results, 1)).listener]
  }

  /** The connections after entry i's turn, in which the list grew to identities below `next`. */
  function ConnsAfter(s: System, i: nat, r: Result, next: nat): map<nat, Conn>
    requires i < |s.poll.list|
  {
    var slot := s.poll.list[i];
    map id: nat | id < next && (id in s.conns || id >= s.poll.nextId) ::
      if id !in s.conns then CREATED
      else if id == slot.id then Handled(s.conns[id], BranchOf(slot.revents), r)
      else s.conns[id]
  }

  /** The loop from cursor i, and the replies that the handlers gave. */
  function EchoLoop(s: System, i: nat, results: seq<Result>): (System, seq<Reply>)
    requires i <= |s.poll.list|
    decreases Pending(s.poll.list, i), |s.poll.list| - i
  {
    if i == |s.poll.list| then (s, [])
    else if s.poll.list[i].revents == {} then EchoLoop(s, i + 1, results)
    else
      var replies := RepliesFor(s, i, results);
      var (q, _, removed) := Serve(s.poll, i, replies);
      ServeShrinks(s.poll, i, replies);
      var (s', more) := EchoLoop(System(q, ConnsAfter(s, i, NextResult(results), q.nextId)),
                                 if removed then i else i + 1, LaterResults(results, |replies|));
      (s', replies + more)
  }

  function Reporting(p: Poll, reported: seq<set<Flag>>): Poll
  {
    p.(list := WithReported(p.list, Masked(p.list, reported)))
  }

  function Step(s: System, act: Act): System
  {
    match act
    case Listen(fd) => s.(poll := Append(s.poll, fd))
    case Connect(fd) => System(Append(s.poll, fd), s.conns[s.poll.nextId := CREATED])
    case Pass(reported, results) => EchoLoop(s.(poll := Reporting(s.poll, reported)), 0, results).0
  }

  function Run(s: System, acts: seq<Act>): System
    decreases acts
  {
    if acts == [] then s else Run(Step(s, acts[0]), acts[1..])
  }

  // ---------- the composed loop is the poll loop ----------

  /** A turn looks at its own replies only. */
  lemma ServePrefix(p: Poll, i: nat, replies: seq<Reply>, more: seq<Reply>)
    requires i < |p.list| && |replies| == |CallsOf(p.list[i].id, BranchOf(p.list[i].revents))|
    ensures var (q, _, removed) := Serve(p, i, replies);
            Serve(p, i, replies + more) == (q, more, removed)
  {
    hide Invoke, PollModel.RemoveAt;
    assert First(replies + more) == First(replies);
    if |replies| == 1 {
      assert Rest(replies + more) == more;
    } else {
      assert Rest(replies + more) == Rest(replies) + more;
      assert Rest(Rest(replies) + more) == more;
    }
  }

  lemma {:induction false} EchoLoopIsLoop(s: System, i: nat, results: seq<Result>)
    requires i <= |s.poll.list|
    ensures EchoLoop(s, i, results).0.poll == Loop(s.poll, i, EchoLoop(s, i, results).1).0
    decreases Pending(s.poll.list, i), |s.poll.list| - i
  {
    hide Serve, RepliesFor, ConnsAfter;
    if i == |s.poll.list| {
    } else if s.poll.list[i].revents == {} {
      EchoLoopIsLoop(s, i + 1, results);
    } else {
      var replies := RepliesFor(s, i, results);
      var (q, _, removed) := Serve(s.poll, i, replies);
      ServeShrinks(s.poll, i, replies);
      var t, j := System(q, ConnsAfter(s, i, NextResult(results), q.nextId)), if removed then i else i + 1;
      var rest := LaterResults(results, |replies|);
      EchoLoopIsLoop(t, j, rest);
      ServePrefix(s.poll, i, replies, EchoLoop(t, j, rest).1);
    }
  }

  /** The run of the poll dispatcher alone in which the handlers reply as the echo handler does. */
  function PollActs(s: System, acts: seq<Act>): seq<PollRuns.Act>
    decreases acts
  {
    if acts == [] then [] else
      [match acts[0]
       case Listen(fd) => PollRuns.Add(fd)
       case Connect(fd) => PollRuns.Add(fd)
       case Pass(reported, results) =>
         PollRuns.Pass(Masked(s.poll.list, reported),
                       EchoLoop(s.(poll := Reporting(s.poll, reported)), 0, results).1)]
      + PollActs(Step(s, acts[0]), acts[1..])
  }

  lemma {:induction false} RunIsPollRun(s: System, acts: seq<Act>)
    ensures Run(s, acts).poll == PollRuns.Run(s.poll, PollActs(s, acts))
    decreases acts
  {
    hide EchoLoop, Loop;
    if acts == [] {
    } else {
      if acts[0].Pass? {
        EchoLoopIsLoop(s.(poll := Reporting(s.poll, acts[0].reported)), 0, acts[0].results);
      }
      RunIsPollRun(Step(s, acts[0]), acts[1..]);
      assert PollActs(s, acts)[1..] == PollActs(Step(s, acts[0]), acts[1..]);
    }
  }

  // ---------- what the loop keeps ----------

  /** The loop watches for what the connection waits for, and reports no more than that and errors. */
  predicate Live(slot: Slot, c: Conn)
  {
    !c.closing && slot.events == EventsFor(c.interest) && slot.revents <= slot.events + ERRORS
  }

  ghost predicate Watched(s: System)
  {
    Distinct(s.poll) &&
    (forall id | id in s.conns :: id < s.poll.nextId) &&
    forall k | 0 <= k < |s.poll.list| && s.poll.list[k].id in s.conns ::
      Live(s.poll.list[k], s.conns[s.poll.list[k].id])
  }

  /** The connection has come about by admissible inputs alone. */
  ghost predicate Reached(c: Conn)
  {
    exists inputs :: AdmissibleRun(CREATED, inputs) && c == EchoModel.Run(CREATED, inputs)
  }

  lemma {:induction false} RunOneMore(c: Conn, inputs: seq<Input>, last: Input)
    requires AdmissibleRun(c, inputs) && Admissible(EchoModel.Run(c, inputs), last)
    ensures AdmissibleRun(c, inputs + [last])
    ensures EchoModel.Run(c, inputs + [last]) == EchoModel.Step(EchoModel.Run(c, inputs), last)
    decreases inputs
  {
    if inputs == [] {
      assert ([] + [last])[1..] == [];
    } else {
      RunOneMore(EchoModel.Step(c, inputs[0]), inputs[1..], last);
      assert (inputs + [last])[1..] == inputs[1..] + [last];
    }
  }

  /** What the loop delivers to a live connection is admissible, so the connection stays reached. */
  lemma HandledReached(slot: Slot, c: Conn, r: Result)
    requires Live(slot, c) && Reached(c)
    ensures Reached(Handled(c, BranchOf(slot.revents), r))
  {
    var b := BranchOf(slot.revents);
    var inputs :| AdmissibleRun(CREATED, inputs) && c == EchoModel.Run(CREATED, inputs);
    DeliveredAsAsked(c.interest, slot.revents);
    if b == In || b == Out {
      var last := InputFor(c, b, r);
      assert Admissible(c, last) && Handled(c, b, r) == EchoModel.Step(c, last);
      RunOneMore(CREATED, inputs, last);
    }
  }

  /** A connection that stays is watched for what it now waits for. */
  lemma KeptLive(s: System, i: nat, results: seq<Result>, x: Poll)
    requires i < |s.poll.list| && s.poll.list[i].id in s.conns
    requires Live(s.poll.list[i], s.conns[s.poll.list[i].id])
    requires BranchOf(s.poll.list[i].revents) == In ==>
               x == Invoke(s.poll, i, READABLE, First(RepliesFor(s, i, results)))
    requires BranchOf(s.poll.list[i].revents) == Out ==>
               x == Invoke(s.poll, i, WRITEABLE, First(RepliesFor(s, i, results)))
    requires Extends(x, s.poll, i) && !Serve(s.poll, i, RepliesFor(s, i, results)).2
    ensures Live(x.list[i], Handled(s.conns[s.poll.list[i].id], BranchOf(s.poll.list[i].revents), NextResult(results)))
  {
    hide Invoke;
    var reply := First(RepliesFor(s, i, results));
    InvokeKeeps(s.poll, i, READABLE, reply);
    InvokeKeeps(s.poll, i, WRITEABLE, reply);
  }

  lemma ServeWatched(s: System, i: nat, results: seq<Result>)
    requires Watched(s) && i < |s.poll.list| && s.poll.list[i].revents != {}
    ensures var q := Serve(s.poll, i, RepliesFor(s, i, results)).0;
            Watched(System(q, ConnsAfter(s, i, NextResult(results), q.nextId)))
  {
    hide Serve, RepliesFor, Handled, Invoke, Live;
    var p, replies := s.poll, RepliesFor(s, i, results);
    var x := ServeIs(p, i, replies);
    var (q, _, removed) := Serve(p, i, replies);
    var conns := ConnsAfter(s, i, NextResult(results), q.nextId);
    TurnReported(p, i, replies);
    forall j | 0 <= j < |x.list| && x.list[j].id in conns && (j == i ==> !removed)
      ensures Live(x.list[j], conns[x.list[j].id])
    {
      if j == i {
        KeptLive(s, i, results, x);
      } else if j >= |p.list| {
        NewLive(x.list[j]);
      } else {
        assert x.list[j] == p.list[j] && p.list[j].id != p.list[i].id;
      }
    }
  }

  lemma NewLive(slot: Slot)
    requires slot.events == {POLLIN} && slot.revents == {}
    ensures Live(slot, CREATED)
  {}

  ghost predicate AllReached(s: System)
  {
    forall id | id in s.conns :: Reached(s.conns[id])
  }

  lemma ServeReached(s: System, i: nat, r: Result, next: nat)
    requires Watched(s) && AllReached(s) && i < |s.poll.list|
    ensures forall id | id in ConnsAfter(s, i, r, next) :: Reached(ConnsAfter(s, i, r, next)[id])
  {
    hide Reached, Live, Handled;
    var slot := s.poll.list[i];
    NewReached();
    if slot.id in s.conns {
      HandledReached(slot, s.conns[slot.id], r);
    }
  }

  lemma NewReached()
    ensures Reached(CREATED)
  {
    assert AdmissibleRun(CREATED, []) && CREATED == EchoModel.Run(CREATED, []);
  }

  lemma {:induction false} LoopWatched(s: System, i: nat, results: seq<Result>)
    requires Watched(s) && AllReached(s) && i <= |s.poll.list|
    ensures Watched(EchoLoop(s, i, results).0) && AllReached(EchoLoop(s, i, results).0)
    decreases Pending(s.poll.list, i), |s.poll.list| - i
  {
    hide Serve, RepliesFor, ConnsAfter, Watched, Reached;
    if i == |s.poll.list| {
    } else if s.poll.list[i].revents == {} {
      LoopWatched(s, i + 1, results);
    } else {
      var replies := RepliesFor(s, i, results);
      var (q, _, removed) := Serve(s.poll, i, replies);
      ServeShrinks(s.poll, i, replies);
      ServeWatched(s, i, results);
      ServeReached(s, i, NextResult(results), q.nextId);
      LoopWatched(System(q, ConnsAfter(s, i, NextResult(results), q.nextId)), if removed then i else i + 1,
                  LaterResults(results, |replies|));
    }
  }

  lemma ReportingWatched(s: System, reported: seq<set<Flag>>)
    requires Watched(s)
    ensures Watched(s.(poll := Reporting(s.poll, reported)))
  {}

  lemma AddedWatched(s: System, fd: int)
    requires Watched(s) && AllReached(s)
    ensures Watched(Step(s, Listen(fd))) && AllReached(Step(s, Listen(fd)))
    ensures Watched(Step(s, Connect(fd))) && AllReached(Step(s, Connect(fd)))
  {
    hide Reached;
    NewReached();
  }

  lemma {:induction false} RunWatched(s: System, acts: seq<Act>)
    requires Watched(s) && AllReached(s)
    ensures Watched(Run(s, acts)) && AllReached(Run(s, acts))
    decreases acts
  {
    hide Watched, EchoLoop, Reporting, Reached;
    if acts == [] {
    } else {
      match acts[0] {
        case Listen(fd) => AddedWatched(s, fd);
        case Connect(fd) => AddedWatched(s, fd);
        case Pass(reported, results) =>
          ReportingWatched(s, reported);
          ReportingKeeps(s, reported);
          LoopWatched(s.(poll := Reporting(s.poll, reported)), 0, results);
      }
      RunWatched(Step(s, acts[0]), acts[1..]);
    }
  }

  lemma ReportingKeeps(s: System, reported: seq<set<Flag>>)
    requires AllReached(s)
    ensures AllReached(s.(poll := Reporting(s.poll, reported)))
  {}

  // ---------- over any number of passes ----------

  /**
    Every connection echoes: over any number of additions and passes, whatever recv(), send(), poll()
    and the listeners do, what each connection has sent is what it received, in order, but for the bytes
    in its buffer, and while it is listed the loop watches it for what it waits for.
  */
  lemma EveryConnectionEchoes(acts: seq<Act>)
    ensures var s := Run(START, acts);
            (forall id | id in s.conns ::
              var c := s.conns[id];
              c.sent <= c.received && c.received == c.sent + c.pending && |c.pending| <= CAPACITY) &&
            forall k | 0 <= k < |s.poll.list| && s.poll.list[k].id in s.conns ::
              var c := s.conns[s.poll.list[k].id];
              !c.closing && s.poll.list[k].events == if c.sent == c.received then {POLLIN} else {POLLOUT}
  {
    hide Run, Reached;
    RunWatched(START, acts);
    var s := Run(START, acts);
    forall id | id in s.conns
      ensures var c := s.conns[id];
              c.sent <= c.received && c.received == c.sent + c.pending && |c.pending| <= CAPACITY &&
              (!c.closing ==> (c.interest == Readable <==> c.received == c.sent))
    {
      ReachedEchoes(s.conns[id]);
    }
  }

  lemma ReachedEchoes(c: Conn)
    requires Reached(c)
    ensures c.sent <= c.received && c.received == c.sent + c.pending && |c.pending| <= CAPACITY
    ensures !c.closing ==> (c.interest == Readable <==> c.received == c.sent)
  {
    var inputs :| AdmissibleRun(CREATED, inputs) && c == EchoModel.Run(CREATED, inputs);
    EchoesPrefix(inputs);
  }

  /** Each of these runs is a run of the poll dispatcher, so descriptors are conserved too. */
  lemma EchoRunConserves(acts: seq<Act>, fd: int)
    requires fd > 0
    ensures var p := Run(START, acts).poll;
            p == PollRuns.Run(EMPTY, PollActs(START, acts)) &&
            multiset(p.added)[fd] == multiset(PollRuns.Fds(p.list))[fd] + multiset(p.closed)[fd]
  {
    RunIsPollRun(START, acts);
    PollRuns.EveryRunConserves(PollActs(START, acts), fd);
  }
}
