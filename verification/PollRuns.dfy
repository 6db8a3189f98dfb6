/** Every run of the poll dispatcher of src/dispatcher.c, and what becomes of the descriptors added. */
module PollRuns {
  import opened PollModel
  import opened PollLaws

  /** dispatcher_add_connection, or a pass of dispatcher_dispatch in which poll() reported something. */
  datatype Act = Add(fd: int) | Pass(reported: seq<set<Flag>>, replies: seq<Reply>)

  function Step(p: Poll, act: Act): Poll
  {
    match act
    case Add(fd) => Append(p, fd)
    case Pass(reported, replies) => Loop(p.(list := WithReported(p.list, reported)), 0, replies).0
  }

  function Run(p: Poll, acts: seq<Act>): Poll
    decreases acts
  {
    if acts == [] then p else Run(Step(p, acts[0]), acts[1..])
  }

  /** dispatcher_destroy: removal from the end until nothing is left. */
  function Destroy(p: Poll): Poll
    decreases |p.list|
  {
    if p.list == [] then p else Destroy(RemoveAt(p, |p.list| - 1))
  }

  // ---------- conservation ----------

  function Fds(list: seq<Slot>): seq<int>
  {
    seq(|list|, k requires 0 <= k < |list| => list[k].fd)
  }

  /** Each positive descriptor has been added as often as it is in the list or has been closed. */
  ghost predicate Conserved(p: Poll)
  {
    forall fd: int | fd > 0 :: multiset(p.added)[fd] == multiset(Fds(p.list))[fd] + multiset(p.closed)[fd]
  }

  lemma AppendConserves(p: Poll, fd: int)
    requires Conserved(p)
    ensures Conserved(Append(p, fd))
  {
    assert Fds(Append(p, fd).list) == Fds(p.list) + [fd];
  }

  lemma {:induction false} AppendAllConserves(p: Poll, fds: seq<int>)
    requires Conserved(p)
    ensures Conserved(AppendAll(p, fds))
    decreases fds
  {
    if fds == [] {
    } else {
      AppendConserves(p, fds[0]);
      AppendAllConserves(Append(p, fds[0]), fds[1..]);
    }
  }

  lemma SameFdsConserves(p: Poll, q: Poll)
    requires Conserved(p) && Fds(q.list) == Fds(p.list) && q.added == p.added && q.closed == p.closed
    ensures Conserved(q)
  {}

  lemma InvokeConserves(p: Poll, i: nat, event: Event, r: Reply)
    requires Conserved(p) && i < |p.list|
    ensures Conserved(Invoke(p, i, event, r))
  {
    var q := p.(calls := p.calls + [Call(p.list[i].id, event)]);
    var q' := match r.interest case None => q case Some(s) => SetEvent(q, i, s);
    assert Fds(q'.list) == Fds(p.list);
    SameFdsConserves(p, q');
    AppendAllConserves(q', r.appends);
  }

  /** Moving the last one into the place of entry i takes out one, and one only. */
  lemma SwapTakesOne(a: seq<int>, i: nat)
    requires i < |a|
    ensures multiset(a) == multiset(a[i := a[|a| - 1]][..|a| - 1]) + multiset{a[i]}
  {
    var n := |a| - 1;
    var b := a[i := a[n]][..n];
    if i == n {
      assert b == a[..n] && a == a[..n] + [a[n]];
    } else {
      assert b == a[..i] + [a[n]] + a[i + 1..n];
      assert a == a[..i] + [a[i]] + a[i + 1..n] + [a[n]];
    }
  }

  lemma RemoveConserves(p: Poll, i: nat)
    requires Conserved(p) && i < |p.list|
    ensures Conserved(RemoveAt(p, i))
  {
    var a := Fds(p.list);
    SwapTakesOne(a, i);
    assert Fds(RemoveAt(p, i).list) == a[i := a[|a| - 1]][..|a| - 1];
  }

  lemma ServeConserves(p: Poll, i: nat, replies: seq<Reply>)
    requires Conserved(p) && i < |p.list|
    ensures Conserved(Serve(p, i, replies).0)
  {
    hide Conserved, Invoke, RemoveAt;
    var r := First(replies);
    match BranchOf(p.list[i].revents) {
      case Error =>
        var q := Invoke(p, i, ERRORED, r);
        InvokeKeeps(p, i, ERRORED, r);
        InvokeConserves(p, i, ERRORED, r);
        InvokeKeeps(q, i, CLOSED, First(Rest(replies)));
        InvokeConserves(q, i, CLOSED, First(Rest(replies)));
        RemoveConserves(Invoke(q, i, CLOSED, First(Rest(replies))), i);
      case In =>
        InvokeKeeps(p, i, READABLE, r);
        InvokeConserves(p, i, READABLE, r);
        RemoveConserves(Invoke(p, i, READABLE, r), i);
      case Out =>
        InvokeKeeps(p, i, WRITEABLE, r);
        InvokeConserves(p, i, WRITEABLE, r);
        RemoveConserves(Invoke(p, i, WRITEABLE, r), i);
      case _ =>
        InvokeKeeps(p, i, CLOSED, r);
        InvokeConserves(p, i, CLOSED, r);
        RemoveConserves(Invoke(p, i, CLOSED, r), i);
    }
  }

  lemma {:induction false} LoopConserves(p: Poll, i: nat, replies: seq<Reply>)
    requires Conserved(p) && i <= |p.list|
    ensures Conserved(Loop(p, i, replies).0)
    decreases Pending(p.list, i), |p.list| - i
  {
    hide Conserved, Serve;
    if i == |p.list| {
    } else if p.list[i].revents == {} {
      LoopConserves(p, i + 1, replies);
    } else {
      var (q, rest, removed) := Serve(p, i, replies);
      ServeShrinks(p, i, replies);
      ServeConserves(p, i, replies);
      LoopConserves(q, if removed then i else i + 1, rest);
    }
  }

  lemma ReportedConserves(p: Poll, reported: seq<set<Flag>>)
    requires Conserved(p)
    ensures Conserved(p.(list := WithReported(p.list, reported)))
  {
    assert Fds(WithReported(p.list, reported)) == Fds(p.list);
  }

  lemma {:induction false} RunConserves(p: Poll, acts: seq<Act>)
    requires Conserved(p)
    ensures Conserved(Run(p, acts))
    decreases acts
  {
    hide Conserved;
    if acts == [] {
    } else {
      match acts[0] {
        case Add(fd) => AppendConserves(p, fd);
        case Pass(reported, replies) =>
          ReportedConserves(p, reported);
          LoopConserves(p.(list := WithReported(p.list, reported)), 0, replies);
      }
      RunConserves(Step(p, acts[0]), acts[1..]);
    }
  }

  /** Descriptor conservation, over any number of additions and passes and whatever the handlers do. */
  lemma EveryRunConserves(acts: seq<Act>, fd: int)
    requires fd > 0
    ensures var p := Run(EMPTY, acts);
            multiset(p.added)[fd] == multiset(Fds(p.list))[fd] + multiset(p.closed)[fd]
  {
    assert Conserved(EMPTY);
    RunConserves(EMPTY, acts);
  }

  lemma {:induction false} DestroyConserves(p: Poll)
    requires Conserved(p)
    ensures Conserved(Destroy(p)) && Destroy(p).list == [] && Destroy(p).added == p.added
    decreases |p.list|
  {
    if p.list == [] {
    } else {
      RemoveConserves(p, |p.list| - 1);
      DestroyConserves(RemoveAt(p, |p.list| - 1));
    }
  }

  /** After the dispatcher is destroyed, each positive descriptor has been closed as often as it was added. */
  lemma DestroyClosesAll(acts: seq<Act>, fd: int)
    requires fd > 0
    ensures var p := Destroy(Run(EMPTY, acts));
            multiset(p.closed)[fd] == multiset(Run(EMPTY, acts).added)[fd]
  {
    assert Conserved(EMPTY);
    RunConserves(EMPTY, acts);
    DestroyConserves(Run(EMPTY, acts));
  }

  // ---------- every pass ----------

  lemma {:induction false} RunDistinct(p: Poll, acts: seq<Act>)
    requires Distinct(p)
    ensures Distinct(Run(p, acts))
    decreases acts
  {
    if acts == [] {
    } else {
      match acts[0] {
        case Add(fd) =>
        case Pass(reported, replies) => LoopServes(p.(list := WithReported(p.list, reported)), 0, replies);
      }
      RunDistinct(Step(p, acts[0]), acts[1..]);
    }
  }

  /**
    After any additions and passes, the next pass dispatches each entry with something reported exactly
    once, in the branch its bits select, and removes it for its event or at its handler's request.
  */
  lemma EveryPassServes(acts: seq<Act>, reported: seq<set<Flag>>, replies: seq<Reply>)
    ensures var p := Run(EMPTY, acts);
            var q := p.(list := WithReported(p.list, reported));
            var (q', vs) := Loop(q, 0, replies);
            ServesExactly(vs, Reported(q.list, 0)) && RemovedAsAsked(vs, replies) &&
            q'.calls == p.calls + CallsFor(vs)
  {
    hide Run, Loop, ServesExactly, RemovedAsAsked, Reported;
    RunDistinct(EMPTY, acts);
    var p := Run(EMPTY, acts);
    var q := p.(list := WithReported(p.list, reported));
    LoopServes(q, 0, replies);
    LoopRemoves(q, 0, replies);
  }
}
