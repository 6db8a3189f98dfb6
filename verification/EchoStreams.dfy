/**
  The echo connections of src/builtin-echo.c under the poll loop, by the handler calls that the loop
  made and what the system calls in them returned.
*/
module EchoStreams {
  import opened PollModel
  import opened PollLaws
  import opened PollPass
  import opened EchoModel
  import opened EchoRuns

  /** A handler call, and what the system calls in it returned. */
  datatype Exchange = Exchange(call: Call, result: Result)

  /** The n-th handler call of a pass has the n-th result. */
  function ResultAt(results: seq<Result>, n: nat): Result
  {
    if n < |results| then results[n] else NextResult([])
  }

  function Exchanges(calls: seq<Call>, results: seq<Result>): seq<Exchange>
  {
    seq(|calls|, k requires 0 <= k < |calls| => Exchange(calls[k], ResultAt(results, k)))
  }

  function MadeSince(before: seq<Call>, after: seq<Call>): seq<Call>
  {
    if |before| <= |after| then after[|before|..] else []
  }

  /** All exchanges of a run, from the calls recorded and the results given. */
  function Log(s: System, acts: seq<Act>): seq<Exchange>
    decreases acts
  {
    if acts == [] then [] else
      var s' := EchoRuns.Step(s, acts[0]);
      (if acts[0].Pass? then Exchanges(MadeSince(s.poll.calls, s'.poll.calls), acts[0].results) else []) +
      Log(s', acts[1..])
  }

  /** What recv() put into the buffer of 2048 bytes. */
  function Data(r: Result): seq<Byte>
  {
    if r.arrived == Failed then [] else if |r.arrived.data| > 2048 then r.arrived.data[..2048] else r.arrived.data
  }

  /** What send() took of n bytes. */
  function Part(count: int, n: int): nat
  {
    if count < 0 || n < 0 then 0 else if count > n then n else count
  }

  /** The bytes received for a connection. */
  function Received(log: seq<Exchange>, id: nat): seq<Byte>
  {
    if log == [] then [] else
      var (front, last) := (log[..|log| - 1], log[|log| - 1]);
      Received(front, id) + if last.call == Call(id, READABLE) then Data(last.result) else []
  }

  /** How many of them send() has taken. */
  function SentOf(log: seq<Exchange>, id: nat): nat
  {
    if log == [] then 0 else
      var (front, last) := (log[..|log| - 1], log[|log| - 1]);
      SentOf(front, id) +
      if last.call == Call(id, READABLE) then Part(last.result.count, |Data(last.result)|)
      else if last.call == Call(id, WRITEABLE) then
        Part(last.result.count, |Received(front, id)| - SentOf(front, id))
      else 0
  }

  /** The last of its receives and sends failed, or met the end of the stream. */
  predicate Broken(log: seq<Exchange>, id: nat)
  {
    log != [] &&
    var (front, last) := (log[..|log| - 1], log[|log| - 1]);
    if last.call == Call(id, READABLE) then Data(last.result) == [] || last.result.count < 0
    else if last.call == Call(id, WRITEABLE) then last.result.count < 0
    else Broken(front, id)
  }

  lemma LogThen(log: seq<Exchange>, x: Exchange, id: nat)
    ensures Received(log + [x], id) ==
              Received(log, id) + if x.call == Call(id, READABLE) then Data(x.result) else []
    ensures SentOf(log + [x], id) ==
              SentOf(log, id) +
              if x.call == Call(id, READABLE) then Part(x.result.count, |Data(x.result)|)
              else if x.call == Call(id, WRITEABLE) then Part(x.result.count, |Received(log, id)| - SentOf(log, id))
              else 0
    ensures Broken(log + [x], id) <==>
              if x.call == Call(id, READABLE) then Data(x.result) == [] || x.result.count < 0
              else if x.call == Call(id, WRITEABLE) then x.result.count < 0
              else Broken(log, id)
  {
    assert (log + [x])[..|log|] == log;
  }

  /** What the log says of a connection. */
  ghost predicate IsLogged(c: Conn, log: seq<Exchange>, id: nat)
  {
    c.received == Received(log, id) && |c.sent| == SentOf(log, id) && (c.closing <==> Broken(log, id))
  }

  ghost predicate Logged(s: System, log: seq<Exchange>)
  {
    (forall id | id in s.conns :: IsLogged(s.conns[id], log, id)) &&
    forall x | x in log :: x.call.id < s.poll.nextId
  }

  lemma ExchangesThen(a: seq<Call>, b: seq<Call>, results: seq<Result>)
    ensures Exchanges(a + b, results) == Exchanges(a, results) + Exchanges(b, LaterResults(results, |a|))
  {
    forall k | 0 <= k < |b|
      ensures ResultAt(results, |a| + k) == ResultAt(LaterResults(results, |a|), k)
    {}
  }

  /** Exchanges of others leave a connection's streams alone. */
  lemma {:induction false} OthersLogged(log: seq<Exchange>, more: seq<Exchange>, id: nat)
    requires forall x | x in more :: x.call.id != id || x.call.event in {ERRORED, CLOSED}
    ensures Received(log + more, id) == Received(log, id) && SentOf(log + more, id) == SentOf(log, id)
    ensures Broken(log + more, id) <==> Broken(log, id)
  {
    if more == [] {
      assert log + more == log;
    } else {
      var front, last := more[..|more| - 1], more[|more| - 1];
      OthersLogged(log, front, id);
      assert log + more == (log + front) + [last];
      LogThen(log + front, last, id);
    }
  }

  lemma {:induction false} NeverLogged(log: seq<Exchange>, id: nat)
    requires forall x | x in log :: x.call.id != id
    ensures Received(log, id) == [] && SentOf(log, id) == 0 && !Broken(log, id)
  {
    if log == [] {
    } else {
      NeverLogged(log[..|log| - 1], id);
    }
  }

  /** The handler does to its connection what the exchange says. */
  lemma HandledLogged(slot: Slot, c: Conn, r: Result, log: seq<Exchange>, id: nat)
    requires Live(slot, c) && Reached(c) && IsLogged(c, log, id)
    ensures var b := BranchOf(slot.revents);
            b == In ==> IsLogged(Handled(c, b, r), log + [Exchange(Call(id, READABLE), r)], id)
    ensures var b := BranchOf(slot.revents);
            b == Out ==> IsLogged(Handled(c, b, r), log + [Exchange(Call(id, WRITEABLE), r)], id)
  {
    hide Reached, Received, SentOf, Broken;
    ReachedEchoes(c);
    DeliveredAsAsked(c.interest, slot.revents);
    LogThen(log, Exchange(Call(id, READABLE), r), id);
    LogThen(log, Exchange(Call(id, WRITEABLE), r), id);
  }

  lemma ExchangesOf(id: nat, b: Branch, results: seq<Result>)
    ensures forall x | x in Exchanges(CallsOf(id, b), results) :: x.call.id == id
    ensures b == In ==> Exchanges(CallsOf(id, b), results) == [Exchange(Call(id, READABLE), NextResult(results))]
    ensures b == Out ==> Exchanges(CallsOf(id, b), results) == [Exchange(Call(id, WRITEABLE), NextResult(results))]
    ensures b != In && b != Out ==>
              forall x | x in Exchanges(CallsOf(id, b), results) :: x.call.event in {ERRORED, CLOSED}
  {}

  lemma TurnLogged(s: System, i: nat, results: seq<Result>, next: nat, log: seq<Exchange>)
    requires Watched(s) && AllReached(s) && Logged(s, log) && i < |s.poll.list| && s.poll.nextId <= next
    ensures var b := BranchOf(s.poll.list[i].revents);
            var conns := ConnsAfter(s, i, NextResult(results), next);
            var log' := log + Exchanges(CallsOf(s.poll.list[i].id, b), results);
            (forall id | id in conns :: IsLogged(conns[id], log', id)) &&
            forall x | x in log' :: x.call.id < next
  {
    hide Live, Reached, Handled, IsLogged, BranchOf, CallsOf, Exchanges;
    var slot := s.poll.list[i];
    var b := BranchOf(slot.revents);
    var conns := ConnsAfter(s, i, NextResult(results), next);
    var more := Exchanges(CallsOf(slot.id, b), results);
    ExchangesOf(slot.id, b, results);
    forall id | id in conns
      ensures IsLogged(conns[id], log + more, id)
    {
      if id !in s.conns {
        assert id >= s.poll.nextId && slot.id < s.poll.nextId;
        BornLogged(log + more, id);
      } else if id == slot.id {
        OwnLogged(slot, s.conns[id], results, log);
      } else {
        OtherLogged(s.conns[id], log, more, id);
      }
    }
  }

  lemma BornLogged(log: seq<Exchange>, id: nat)
    requires forall x | x in log :: x.call.id != id
    ensures IsLogged(CREATED, log, id)
  {
    NeverLogged(log, id);
  }

  lemma OtherLogged(c: Conn, log: seq<Exchange>, more: seq<Exchange>, id: nat)
    requires IsLogged(c, log, id)
    requires forall x | x in more :: x.call.id != id || x.call.event in {ERRORED, CLOSED}
    ensures IsLogged(c, log + more, id)
  {
    OthersLogged(log, more, id);
  }

  lemma OwnLogged(slot: Slot, c: Conn, results: seq<Result>, log: seq<Exchange>)
    requires Live(slot, c) && Reached(c) && IsLogged(c, log, slot.id)
    ensures var b := BranchOf(slot.revents);
            IsLogged(Handled(c, b, NextResult(results)), log + Exchanges(CallsOf(slot.id, b), results), slot.id)
  {
    hide Live, Reached, IsLogged, BranchOf, CallsOf, Exchanges, Read, Write;
    var b := BranchOf(slot.revents);
    ExchangesOf(slot.id, b, results);
    if b == In || b == Out {
      HandledLogged(slot, c, NextResult(results), log, slot.id);
    } else {
      OtherLogged(c, log, Exchanges(CallsOf(slot.id, b), results), slot.id);
    }
  }

  /** The loop leaves every connection as the exchanges it makes say. */
  lemma {:induction false} LoopLogged(s: System, i: nat, results: seq<Result>, log: seq<Exchange>)
    requires Watched(s) && AllReached(s) && Logged(s, log) && i <= |s.poll.list|
    ensures var s' := EchoLoop(s, i, results).0;
            s.poll.calls <= s'.poll.calls &&
            Logged(s', log + Exchanges(s'.poll.calls[|s.poll.calls|..], results))
    decreases Pending(s.poll.list, i), |s.poll.list| - i
  {
    hide Serve, RepliesFor, ConnsAfter, Watched, Reached, IsLogged, CallsOf, BranchOf, Exchanges;
    if i == |s.poll.list| {
      NothingLogged(log, results);
      assert s.poll.calls[|s.poll.calls|..] == [];
    } else if s.poll.list[i].revents == {} {
      LoopLogged(s, i + 1, results, log);
    } else {
      var replies := RepliesFor(s, i, results);
      var (q, _, removed) := Serve(s.poll, i, replies);
      var calls := CallsOf(s.poll.list[i].id, BranchOf(s.poll.list[i].revents));
      ServeShrinks(s.poll, i, replies);
      ServeWatched(s, i, results);
      ServeReached(s, i, NextResult(results), q.nextId);
      ServeGrows(s.poll, i, replies);
      TurnLogged(s, i, results, q.nextId, log);
      var t, j := System(q, ConnsAfter(s, i, NextResult(results), q.nextId)), if removed then i else i + 1;
      var rest := LaterResults(results, |replies|);
      var log' := log + Exchanges(calls, results);
      LoopLogged(t, j, rest, log');
      var s' := EchoLoop(t, j, rest).0;
      var more := s'.poll.calls[|q.calls|..];
      assert s'.poll.calls == s.poll.calls + (calls + more);
      assert s'.poll.calls[|s.poll.calls|..] == calls + more;
      ExchangesThen(calls, more, results);
      assert log' + Exchanges(more, rest) == log + (Exchanges(calls, results) + Exchanges(more, rest));
    }
  }

  lemma NothingLogged(log: seq<Exchange>, results: seq<Result>)
    ensures log + Exchanges([], results) == log
  {}

  lemma ServeGrows(p: Poll, i: nat, replies: seq<Reply>)
    requires i < |p.list|
    ensures Serve(p, i, replies).0.calls == p.calls + CallsOf(p.list[i].id, BranchOf(p.list[i].revents))
    ensures Serve(p, i, replies).0.nextId >= p.nextId
  {
    var x := ServeIs(p, i, replies);
  }

  lemma StepLogged(s: System, act: Act, log: seq<Exchange>)
    requires Watched(s) && AllReached(s) && Logged(s, log)
    ensures s.poll.calls <= EchoRuns.Step(s, act).poll.calls
    ensures act.Pass? ==>
              var s' := EchoRuns.Step(s, act);
              Logged(s', log + Exchanges(MadeSince(s.poll.calls, s'.poll.calls), act.results))
    ensures !act.Pass? ==> Logged(EchoRuns.Step(s, act), log)
  {
    hide Watched, Reached, EchoLoop, IsLogged, Exchanges;
    match act {
      case Listen(fd) =>
      case Connect(fd) => BornNext(s, log);
      case Pass(reported, results) =>
        ReportingWatched(s, reported);
        LoopLogged(s.(poll := Reporting(s.poll, reported)), 0, results, log);
    }
  }

  lemma BornNext(s: System, log: seq<Exchange>)
    requires Logged(s, log)
    ensures IsLogged(CREATED, log, s.poll.nextId)
  {
    BornLogged(log, s.poll.nextId);
  }

  lemma {:induction false} RunLogged(s: System, acts: seq<Act>, log: seq<Exchange>)
    requires Watched(s) && AllReached(s) && Logged(s, log)
    ensures Logged(EchoRuns.Run(s, acts), log + Log(s, acts))
    decreases acts
  {
    hide Watched, AllReached, Logged, EchoRuns.Step, Exchanges;
    if acts == [] {
      assert log + [] == log;
    } else {
      var s' := EchoRuns.Step(s, acts[0]);
      var x := if acts[0].Pass? then Exchanges(MadeSince(s.poll.calls, s'.poll.calls), acts[0].results) else [];
      StepLogged(s, acts[0], log);
      assert log + [] == log;
      StepWatched(s, acts[0]);
      RunLogged(s', acts[1..], log + x);
      assert log + x + Log(s', acts[1..]) == log + (x + Log(s', acts[1..]));
    }
  }

  lemma StepWatched(s: System, act: Act)
    requires Watched(s) && AllReached(s)
    ensures Watched(EchoRuns.Step(s, act)) && AllReached(EchoRuns.Step(s, act))
  {
    hide Watched, AllReached;
    RunWatched(s, [act]);
    assert [act][1..] == [];
    assert EchoRuns.Run(s, [act]) == EchoRuns.Run(EchoRuns.Step(s, act), []);
  }

  // ---------- which entries are connections ----------

  /** The identities of the listeners that a run adds. */
  function Listening(s: System, acts: seq<Act>): set<nat>
    decreases acts
  {
    if acts == [] then {} else
      (if acts[0].Listen? then {s.poll.nextId} else {}) + Listening(EchoRuns.Step(s, acts[0]), acts[1..])
  }

  lemma {:induction false} LoopConnections(s: System, i: nat, results: seq<Result>)
    requires Watched(s) && i <= |s.poll.list|
    ensures var s' := EchoLoop(s, i, results).0;
            s.poll.nextId <= s'.poll.nextId &&
            forall id: nat :: id in s'.conns <==> id in s.conns || s.poll.nextId <= id < s'.poll.nextId
    decreases Pending(s.poll.list, i), |s.poll.list| - i
  {
    hide Serve, RepliesFor, Watched, Handled, CallsOf;
    if i == |s.poll.list| {
    } else if s.poll.list[i].revents == {} {
      LoopConnections(s, i + 1, results);
    } else {
      var replies := RepliesFor(s, i, results);
      var (q, _, removed) := Serve(s.poll, i, replies);
      ServeShrinks(s.poll, i, replies);
      ServeWatched(s, i, results);
      ServeGrows(s.poll, i, replies);
      IdsBelow(s);
      LoopConnections(System(q, ConnsAfter(s, i, NextResult(results), q.nextId)), if removed then i else i + 1,
                      LaterResults(results, |replies|));
    }
  }

  lemma IdsBelow(s: System)
    requires Watched(s)
    ensures forall id | id in s.conns :: id < s.poll.nextId
  {}

  lemma StepConnections(s: System, act: Act)
    requires Watched(s)
    ensures var s' := EchoRuns.Step(s, act);
            s.poll.nextId <= s'.poll.nextId &&
            (act.Listen? ==> s'.poll.nextId == s.poll.nextId + 1) &&
            forall id: nat :: id in s'.conns <==>
              id in s.conns || (s.poll.nextId <= id < s'.poll.nextId && !act.Listen?)
  {
    hide Watched, EchoLoop;
    if act.Pass? {
      ReportingWatched(s, act.reported);
      LoopConnections(s.(poll := Reporting(s.poll, act.reported)), 0, act.results);
    }
  }

  lemma {:induction false} ListenersAhead(s: System, acts: seq<Act>)
    requires Watched(s) && AllReached(s)
    ensures forall id | id in Listening(s, acts) :: id >= s.poll.nextId
    decreases acts
  {
    hide Watched, AllReached, EchoRuns.Step;
    if acts == [] {
    } else {
      StepWatched(s, acts[0]);
      StepConnections(s, acts[0]);
      ListenersAhead(EchoRuns.Step(s, acts[0]), acts[1..]);
    }
  }

  lemma {:induction false} RunConnections(s: System, acts: seq<Act>)
    requires Watched(s) && AllReached(s)
    ensures var s' := EchoRuns.Run(s, acts);
            s.poll.nextId <= s'.poll.nextId &&
            forall id: nat :: id in s'.conns <==>
              id in s.conns || (s.poll.nextId <= id < s'.poll.nextId && id !in Listening(s, acts))
    decreases acts
  {
    hide Watched, AllReached, EchoRuns.Step;
    if acts == [] {
    } else {
      var s' := EchoRuns.Step(s, acts[0]);
      IdsBelow(s);
      StepConnections(s, acts[0]);
      StepWatched(s, acts[0]);
      RunConnections(s', acts[1..]);
      ListenersAhead(s', acts[1..]);
    }
  }

  lemma {:induction false} LogCalls(s: System, acts: seq<Act>)
    requires Watched(s) && AllReached(s)
    ensures var s' := EchoRuns.Run(s, acts);
            |s'.poll.calls| == |s.poll.calls| + |Log(s, acts)| && s.poll.calls <= s'.poll.calls &&
            forall k | 0 <= k < |Log(s, acts)| :: Log(s, acts)[k].call == s'.poll.calls[|s.poll.calls| + k]
    decreases acts
  {
    hide Watched, AllReached, EchoRuns.Step;
    if acts == [] {
    } else {
      StepCalls(s, acts[0]);
      StepWatched(s, acts[0]);
      LogCalls(EchoRuns.Step(s, acts[0]), acts[1..]);
    }
  }

  lemma StepCalls(s: System, act: Act)
    requires Watched(s) && AllReached(s)
    ensures s.poll.calls <= EchoRuns.Step(s, act).poll.calls
    ensures !act.Pass? ==> EchoRuns.Step(s, act).poll.calls == s.poll.calls
  {
    hide Watched, AllReached, EchoLoop;
    if act.Pass? {
      LoopCalls(s, act);
    }
  }

  lemma LoopCalls(s: System, act: Act)
    requires Watched(s) && act.Pass?
    ensures s.poll.calls <= EchoRuns.Step(s, act).poll.calls
  {
    hide EchoLoop;
    var start := s.(poll := Reporting(s.poll, act.reported));
    EchoLoopIsLoop(start, 0, act.results);
    ReportingWatched(s, act.reported);
    LoopServes(start.poll, 0, EchoLoop(start, 0, act.results).1);
  }

  // ---------- who answers what ----------

  lemma RepliesAre(s: System, i: nat, results: seq<Result>)
    requires i < |s.poll.list|
    ensures var replies := RepliesFor(s, i, results);
            forall n | 0 <= n < |replies| ::
              if s.poll.list[i].id in s.conns then replies[n].appends == []
              else replies[n] == ResultAt(results, n).listener
  {}

  lemma CallsAre(id: nat, b: Branch)
    ensures forall n | 0 <= n < |CallsOf(id, b)| :: CallsOf(id, b)[n].id == id
  {}

  /** What waits for its turn has an identity below `bound`, and is an echo connection or not as `echoes` says. */
  ghost predicate Divided(s: System, i: nat, echoes: set<nat>, bound: nat)
    requires i <= |s.poll.list|
  {
    bound <= s.poll.nextId && (forall id: nat | id < bound :: id in s.conns <==> id in echoes) &&
    forall e | e in Reported(s.poll.list, i) :: e.id < bound
  }

  /** The n-th handler call gets the n-th result; an echo connection adds nothing, a listener what it likes. */
  lemma {:induction false} LoopReplies(s: System, i: nat, results: seq<Result>, echoes: set<nat>, bound: nat)
    requires Watched(s) && i <= |s.poll.list| && Divided(s, i, echoes, bound)
    ensures var (s', replies) := EchoLoop(s, i, results);
            s.poll.calls <= s'.poll.calls &&
            var made := s'.poll.calls[|s.poll.calls|..];
            |replies| == |made| &&
            forall n | 0 <= n < |made| ::
              if made[n].id in echoes then replies[n].appends == [] else replies[n] == ResultAt(results, n).listener
    decreases Pending(s.poll.list, i), |s.poll.list| - i
  {
    hide Serve, RepliesFor, ConnsAfter, Watched, Reported, CallsOf, BranchOf, ResultAt;
    if i == |s.poll.list| {
    } else if s.poll.list[i].revents == {} {
      QuietNext(s.poll, i);
      LoopReplies(s, i + 1, results, echoes, bound);
    } else {
      var replies := RepliesFor(s, i, results);
      var (q, _, removed) := Serve(s.poll, i, replies);
      var calls := CallsOf(s.poll.list[i].id, BranchOf(s.poll.list[i].revents));
      WatchedDistinct(s);
      ServeShrinks(s.poll, i, replies);
      ServeWatched(s, i, results);
      ServeGrows(s.poll, i, replies);
      TurnReported(s.poll, i, replies);
      ReportedNext(s.poll, i);
      ConnsBelow(s, i, NextResult(results), q.nextId);
      RepliesAre(s, i, results);
      CallsAre(s.poll.list[i].id, BranchOf(s.poll.list[i].revents));
      var t, j := System(q, ConnsAfter(s, i, NextResult(results), q.nextId)), if removed then i else i + 1;
      var rest := LaterResults(results, |replies|);
      LoopReplies(t, j, rest, echoes, bound);
      var (s', more) := EchoLoop(t, j, rest);
      var made := s'.poll.calls[|q.calls|..];
      assert s'.poll.calls == s.poll.calls + (calls + made);
      assert s'.poll.calls[|s.poll.calls|..] == calls + made;
      forall n | 0 <= n < |calls + made|
        ensures if (calls + made)[n].id in echoes then (replies + more)[n].appends == []
                else (replies + more)[n] == ResultAt(results, n).listener
      {
        if n >= |calls| {
          LaterResultAt(results, |replies|, n - |calls|);
        }
      }
    }
  }

  lemma LaterResultAt(results: seq<Result>, m: nat, k: nat)
    ensures ResultAt(LaterResults(results, m), k) == ResultAt(results, m + k)
  {}

  lemma ConnsBelow(s: System, i: nat, r: Result, next: nat)
    requires Watched(s) && i < |s.poll.list| && s.poll.nextId <= next
    ensures forall id: nat | id < s.poll.nextId :: id in ConnsAfter(s, i, r, next) <==> id in s.conns
  {
    hide Handled;
  }

  /**
    In every pass of every run the handler calls are given the results in order: those of listeners are
    answered as their results say, so the descriptors they add join the list in order, and those of echo
    connections add none.
  */
  lemma EveryPassAnswers(acts: seq<Act>, reported: seq<set<Flag>>, results: seq<Result>) returns (replies: seq<Reply>)
    ensures var s := EchoRuns.Run(START, acts);
            var s' := EchoRuns.Step(s, Pass(reported, results));
            s.poll.calls <= s'.poll.calls &&
            s'.poll == Loop(Reporting(s.poll, reported), 0, replies).0 &&
            s'.poll.added == s.poll.added + AppendsOf(replies, |s'.poll.calls| - |s.poll.calls|) &&
            var made := s'.poll.calls[|s.poll.calls|..];
            |replies| == |made| &&
            forall n | 0 <= n < |made| ::
              if made[n].id in s.conns then replies[n].appends == [] else replies[n] == ResultAt(results, n).listener
  {
    hide EchoRuns.Run, Watched, Loop, ByBits, AppendsOf, EchoLoop;
    StartWatched();
    RunWatched(START, acts);
    var s := EchoRuns.Run(START, acts);
    var start := s.(poll := Reporting(s.poll, reported));
    ReportingWatched(s, reported);
    WatchedDistinct(start);
    AllDivided(start);
    LoopReplies(start, 0, results, s.conns.Keys, s.poll.nextId);
    EchoLoopIsLoop(start, 0, results);
    replies := EchoLoop(start, 0, results).1;
    PassByBits(start.poll, replies);
  }

  lemma StartWatched()
    ensures Watched(START) && AllReached(START)
  {}

  lemma AllDivided(s: System)
    requires Watched(s)
    ensures Divided(s, 0, s.conns.Keys, s.poll.nextId)
  {}

  // ---------- every run ----------

  /**
    After every run, for every entry ever added but the listeners: what the connection has received is
    what recv() gave in the READABLE calls made for it, it has sent as much of that, from the start, as
    send() took in its calls, and it asks to be closed exactly if the last of them failed.
  */
  lemma StreamsOfEveryRun(acts: seq<Act>)
    ensures var s, log := EchoRuns.Run(START, acts), Log(START, acts);
            |log| == |s.poll.calls| && (forall k | 0 <= k < |log| :: log[k].call == s.poll.calls[k]) &&
            (forall id: nat :: id in s.conns <==> id < s.poll.nextId && id !in Listening(START, acts)) &&
            forall id | id in s.conns ::
              SentOf(log, id) <= |Received(log, id)| <= SentOf(log, id) + 2048 &&
              s.conns[id].received == Received(log, id) &&
              s.conns[id].sent == Received(log, id)[..SentOf(log, id)] &&
              s.conns[id].pending == Received(log, id)[SentOf(log, id)..] &&
              (s.conns[id].closing <==> Broken(log, id))
  {
    hide EchoRuns.Run, Log, Received, SentOf, Broken, Listening;
    RunLogged(START, acts, []);
    assert [] + Log(START, acts) == Log(START, acts);
    LogCalls(START, acts);
    RunConnections(START, acts);
    EveryConnectionEchoes(acts);
  }

  // ---------- one pass ----------

  ghost predicate Listed(p: Poll, id: nat)
  {
    exists e | e in p.list :: e.id == id
  }

  /** The loop does nothing to a connection that has left the list. */
  lemma {:induction false} UnlistedSame(s: System, i: nat, results: seq<Result>, id: nat)
    requires Watched(s) && i <= |s.poll.list| && id in s.conns && !Listed(s.poll, id)
    ensures id in EchoLoop(s, i, results).0.conns && EchoLoop(s, i, results).0.conns[id] == s.conns[id]
    decreases Pending(s.poll.list, i), |s.poll.list| - i
  {
    hide Serve, RepliesFor, Watched, Handled, Listed;
    if i == |s.poll.list| {
    } else if s.poll.list[i].revents == {} {
      UnlistedSame(s, i + 1, results, id);
    } else {
      var replies := RepliesFor(s, i, results);
      var (q, _, removed) := Serve(s.poll, i, replies);
      ServeShrinks(s.poll, i, replies);
      ServeWatched(s, i, results);
      ServeGrows(s.poll, i, replies);
      IdsBelow(s);
      ServeLists(s.poll, i, replies, id);
      assert s.poll.list[i].id != id by { ListedAt(s.poll, i); }
      UnlistedSame(System(q, ConnsAfter(s, i, NextResult(results), q.nextId)), if removed then i else i + 1,
                   LaterResults(results, |replies|), id);
    }
  }

  lemma ListedAt(p: Poll, i: nat)
    requires i < |p.list|
    ensures Listed(p, p.list[i].id)
  {}

  /** A turn lists nothing old anew. */
  lemma ServeLists(p: Poll, i: nat, replies: seq<Reply>, id: nat)
    requires i < |p.list| && id < p.nextId && !Listed(p, id)
    ensures !Listed(Serve(p, i, replies).0, id)
  {
    hide Serve;
    var x := ServeIs(p, i, replies);
  }

  /** An entry that its turn removes is listed no more. */
  lemma ServeUnlists(p: Poll, i: nat, replies: seq<Reply>)
    requires Distinct(p) && i < |p.list| && Serve(p, i, replies).2
    ensures !Listed(Serve(p, i, replies).0, p.list[i].id)
  {
    hide Serve;
    var x := ServeIs(p, i, replies);
    DistinctExtended(p, x, i);
  }

  /** An entry whose turn is still to come is found again in the list at or after the cursor. */
  lemma ServePasses(p: Poll, i: nat, replies: seq<Reply>, k: nat) returns (k': nat)
    requires i < k < |p.list|
    ensures var (q, _, removed) := Serve(p, i, replies);
            (if removed then i else i + 1) <= k' < |q.list| && q.list[k'] == p.list[k]
  {
    hide Serve;
    var x := ServeIs(p, i, replies);
    k' := if Serve(p, i, replies).2 && k == |x.list| - 1 then i else k;
  }

  /** A connection that was not hung up or in error leaves the list only by its own request. */
  lemma {:induction false} LoopKeepsOpen(s: System, i: nat, results: seq<Result>, k: nat)
    requires Watched(s) && i <= k < |s.poll.list| && s.poll.list[k].id in s.conns
    requires s.poll.list[k].revents == {} || !Ends(BranchOf(s.poll.list[k].revents))
    ensures var s', id := EchoLoop(s, i, results).0, s.poll.list[k].id;
            id in s'.conns && (Listed(s'.poll, id) || s'.conns[id].closing)
    decreases Pending(s.poll.list, i), |s.poll.list| - i
  {
    hide Serve, RepliesFor, Watched, Handled, Listed;
    var id := s.poll.list[k].id;
    if s.poll.list[i].revents == {} {
      if i == k {
        StaysListed(s, i + 1, results, k);
      } else {
        LoopKeepsOpen(s, i + 1, results, k);
      }
    } else {
      var replies := RepliesFor(s, i, results);
      var (q, _, removed) := Serve(s.poll, i, replies);
      ServeShrinks(s.poll, i, replies);
      ServeWatched(s, i, results);
      ServeGrows(s.poll, i, replies);
      IdsBelow(s);
      var t, j := System(q, ConnsAfter(s, i, NextResult(results), q.nextId)), if removed then i else i + 1;
      var rest := LaterResults(results, |replies|);
      if i < k {
        var k' := ServePasses(s.poll, i, replies, k);
        LoopKeepsOpen(t, j, rest, k');
      } else if removed {
        WatchedDistinct(s);
        ServeUnlists(s.poll, i, replies);
        RemovedCloses(s, i, results);
        UnlistedSame(t, j, rest, id);
      } else {
        ServeKeepsAt(s.poll, i, replies);
        StaysListed(t, j, rest, i);
      }
    }
  }

  lemma WatchedDistinct(s: System)
    requires Watched(s)
    ensures Distinct(s.poll)
  {}

  lemma ServeKeepsAt(p: Poll, i: nat, replies: seq<Reply>)
    requires i < |p.list| && !Serve(p, i, replies).2
    ensures i < |Serve(p, i, replies).0.list| && Serve(p, i, replies).0.list[i].id == p.list[i].id
  {
    var x := ServeIs(p, i, replies);
  }

  /** The loop never goes back to what the cursor has passed. */
  lemma StaysListed(s: System, i: nat, results: seq<Result>, k: nat)
    requires Watched(s) && k < i <= |s.poll.list| && s.poll.list[k].id in s.conns
    ensures var s' := EchoLoop(s, i, results).0; s.poll.list[k].id in s'.conns && Listed(s'.poll, s.poll.list[k].id)
  {
    hide EchoLoop, Loop, Watched;
    EchoLoopIsLoop(s, i, results);
    QuietStay(s.poll, i, EchoLoop(s, i, results).1);
    LoopConnections(s, i, results);
    assert EchoLoop(s, i, results).0.poll.list[k] == s.poll.list[k];
  }

  lemma RemovedCloses(s: System, i: nat, results: seq<Result>)
    requires i < |s.poll.list| && s.poll.list[i].id in s.conns && !Ends(BranchOf(s.poll.list[i].revents))
    requires Serve(s.poll, i, RepliesFor(s, i, results)).2
    ensures Handled(s.conns[s.poll.list[i].id], BranchOf(s.poll.list[i].revents), NextResult(results)).closing
  {
    hide Invoke, RemoveAt, Read, Write;
  }

  lemma {:induction false} CallsToMembers(calls: seq<Call>, id: nat)
    ensures forall c | c in calls && c.id == id :: c.event in CallsTo(calls, id)
  {
    if calls == [] {
    } else {
      CallsToMembers(calls[1..], id);
    }
  }

  /** One call for the connection in a pass is as one exchange. */
  lemma OneExchange(log: seq<Exchange>, calls: seq<Call>, results: seq<Result>, id: nat, event: Event, n: nat)
    requires CallsTo(calls, id) == [event] && n < |calls| && calls[n] == Call(id, event)
    ensures var one := log + [Exchange(calls[n], ResultAt(results, n))];
            Received(log + Exchanges(calls, results), id) == Received(one, id) &&
            SentOf(log + Exchanges(calls, results), id) == SentOf(one, id) &&
            (Broken(log + Exchanges(calls, results), id) <==> Broken(one, id))
  {
    hide Received, SentOf, Broken, CallsTo;
    var x := Exchange(calls[n], ResultAt(results, n));
    var all := Exchanges(calls, results);
    assert calls == calls[..n] + [calls[n]] + calls[n + 1..];
    CallsToThen(calls[..n] + [calls[n]], calls[n + 1..], id);
    CallsToThen(calls[..n], [calls[n]], id);
    CallsToMembers([calls[n]], id);
    CallsToMembers(calls[..n], id);
    CallsToMembers(calls[n + 1..], id);
    OthersLogged(log, all[..n], id);
    LogThen(log, x, id);
    LogThen(log + all[..n], x, id);
    OthersLogged(log + all[..n] + [x], all[n + 1..], id);
    assert log + all == log + all[..n] + [x] + all[n + 1..];
  }

  /** What one pass does to an open connection, by the bits reported for it and the results of its call. */
  ghost predicate PassDone(c: Conn, c': Conn, id: nat, bits: set<Flag>, made: seq<Call>, results: seq<Result>,
                           after: Poll)
  {
    (bits == {} ==>
      c'.received == c.received && c'.sent == c.sent && !c'.closing && Listed(after, id)) &&
    (POLLHUP in bits || POLLERR in bits || bits == {POLLOTHER} ==>
      c'.received == c.received && c'.sent == c.sent && !c'.closing && !Listed(after, id)) &&
    (bits !! {POLLHUP, POLLERR} && POLLIN in bits ==>
      CallsTo(made, id) == [READABLE] &&
      exists n :: 0 <= n < |made| && made[n] == Call(id, READABLE) &&
        var r := ResultAt(results, n);
        c'.received == c.received + Data(r) && |c'.sent| == |c.sent| + Part(r.count, |Data(r)|) &&
        (c'.closing <==> Data(r) == [] || r.count < 0) && (Listed(after, id) <==> !c'.closing)) &&
    (bits !! {POLLHUP, POLLERR, POLLIN} && POLLOUT in bits ==>
      CallsTo(made, id) == [WRITEABLE] &&
      exists n :: 0 <= n < |made| && made[n] == Call(id, WRITEABLE) &&
        var r := ResultAt(results, n);
        c'.received == c.received && |c'.sent| == |c.sent| + Part(r.count, |c.received| - |c.sent|) &&
        (c'.closing <==> r.count < 0) && (Listed(after, id) <==> !c'.closing))
  }

  /** The streams after a pass, given the calls that the bits led to. */
  lemma PassStreams(c: Conn, c': Conn, e: Slot, log: seq<Exchange>, results: seq<Result>, p: Poll, q: Poll,
                    replies: seq<Reply>)
    requires p.calls <= q.calls && ByBits(e, p, q, replies) && !c.closing
    requires IsLogged(c, log, e.id) && IsLogged(c', log + Exchanges(q.calls[|p.calls|..], results), e.id)
    requires c.sent <= c.received && c'.sent <= c'.received
    requires Listed(q, e.id) ==> !c'.closing
    requires e.revents == {} || !Ends(BranchOf(e.revents)) ==> Listed(q, e.id) || c'.closing
    ensures PassDone(c, c', e.id, e.revents, q.calls[|p.calls|..], results, q)
  {
    hide Received, SentOf, Broken, CallsTo, Exchanges, ResultAt, ReplyAt, Answered, Data, Part;
    var made := q.calls[|p.calls|..];
    CallsToMembers(made, e.id);
    ExchangeCalls(made, results);
    if e.revents !! {POLLHUP, POLLERR} && POLLIN in e.revents {
      var n :| 0 <= n < |made| && made[n] == Call(e.id, READABLE);
      OneExchange(log, made, results, e.id, READABLE, n);
      LogThen(log, Exchange(made[n], ResultAt(results, n)), e.id);
    } else if e.revents !! {POLLHUP, POLLERR, POLLIN} && POLLOUT in e.revents {
      var n :| 0 <= n < |made| && made[n] == Call(e.id, WRITEABLE);
      OneExchange(log, made, results, e.id, WRITEABLE, n);
      LogThen(log, Exchange(made[n], ResultAt(results, n)), e.id);
    } else {
      OtherAlone(e.revents);
      OthersLogged(log, Exchanges(made, results), e.id);
    }
  }

  lemma ExchangeCalls(calls: seq<Call>, results: seq<Result>)
    ensures forall x | x in Exchanges(calls, results) :: x.call in calls
  {}

  lemma ListedOpen(s: System, id: nat)
    requires Watched(s) && id in s.conns && Listed(s.poll, id)
    ensures !s.conns[id].closing
  {}

  lemma ReachedSends(s: System, id: nat)
    requires AllReached(s) && id in s.conns
    ensures s.conns[id].sent <= s.conns[id].received
  {
    ReachedEchoes(s.conns[id]);
  }

  /** One pass on one listed connection, from any state that keeps the invariants. */
  lemma PassOn(s: System, reported: seq<set<Flag>>, results: seq<Result>, k: nat, log: seq<Exchange>)
    requires Watched(s) && AllReached(s) && Logged(s, log) && k < |s.poll.list| && s.poll.list[k].id in s.conns
    ensures var s', id := EchoRuns.Step(s, Pass(reported, results)), s.poll.list[k].id;
            id in s'.conns && s.poll.calls <= s'.poll.calls &&
            PassDone(s.conns[id], s'.conns[id], id, Masked(s.poll.list, reported)[k],
                     s'.poll.calls[|s.poll.calls|..], results, s'.poll)
  {
    hide Watched, AllReached, IsLogged, EchoLoop, Loop, ByBits, PassDone, Listed, Masked, Exchanges;
    var act, id := Pass(reported, results), s.poll.list[k].id;
    var start, s' := s.(poll := Reporting(s.poll, reported)), EchoRuns.Step(s, act);
    var replies := EchoLoop(start, 0, results).1;
    var e := start.poll.list[k];
    ReportingWatched(s, reported);
    StepWatched(s, act);
    StepConnections(s, act);
    StepLogged(s, act, log);
    EchoLoopIsLoop(start, 0, results);
    WatchedDistinct(start);
    EntryByBits(start.poll, replies, e);
    ListedAt(s.poll, k);
    ListedOpen(s, id);
    ReachedSends(s, id);
    ReachedSends(s', id);
    if Listed(s'.poll, id) {
      ListedOpen(s', id);
    }
    if e.revents == {} || !Ends(BranchOf(e.revents)) {
      LoopKeepsOpen(start, 0, results, k);
    }
    PassStreams(s.conns[id], s'.conns[id], e, log, results, start.poll, s'.poll, replies);
  }

  /**
    In every pass of every run, for every connection in the list. With data and no hang-up or error it
    receives what recv() gave in its one call, sends at once what send() took, and stays in the list
    unless one of them failed; writeable, it sends more of what is pending; hung up, in error or for an
    unknown event it leaves the list with its streams as they were; and otherwise it is left alone.
  */
  lemma EveryPassEchoes(acts: seq<Act>, reported: seq<set<Flag>>, results: seq<Result>, k: nat)
    requires k < |EchoRuns.Run(START, acts).poll.list|
    requires EchoRuns.Run(START, acts).poll.list[k].id in EchoRuns.Run(START, acts).conns
    ensures var s := EchoRuns.Run(START, acts);
            var s', id := EchoRuns.Step(s, Pass(reported, results)), s.poll.list[k].id;
            id in s'.conns && s.poll.calls <= s'.poll.calls &&
            PassDone(s.conns[id], s'.conns[id], id, Masked(s.poll.list, reported)[k],
                     s'.poll.calls[|s.poll.calls|..], results, s'.poll)
  {
    hide EchoRuns.Run, EchoRuns.Step, PassDone, Masked, Log;
    RunWatched(START, acts);
    RunLogged(START, acts, []);
    PassOn(EchoRuns.Run(START, acts), reported, results, k, [] + Log(START, acts));
  }
}
