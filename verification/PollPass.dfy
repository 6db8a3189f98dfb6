/**
  One pass of the poll loop of src/dispatcher.c, entry by entry, in terms of the bits that poll() set
  and of what the handlers asked for.
*/
module PollPass {
  import opened Wrappers
  import opened PollModel
  import opened PollLaws
  import PollRuns

  /** The events delivered to one handler, in order. */
  function CallsTo(calls: seq<Call>, id: nat): seq<Event>
  {
    if calls == [] then [] else (if calls[0].id == id then [calls[0].event] else []) + CallsTo(calls[1..], id)
  }

  /** The descriptors that the first n handler calls add. */
  function AppendsOf(replies: seq<Reply>, n: nat): seq<int>
  {
    if n == 0 then [] else First(replies).appends + AppendsOf(Rest(replies), n - 1)
  }

  /** The entry has left the list, and its descriptor has been closed if it is positive. */
  ghost predicate Left(e: Slot, p: Poll, q: Poll)
  {
    (forall s | s in q.list :: s.id != e.id) &&
    (e.fd > 0 ==> |p.closed| <= |q.closed| && e.fd in q.closed[|p.closed|..])
  }

  /** The entry as its handler leaves it. */
  function Answered(e: Slot, r: Reply): Slot
  {
    if r.interest == Some(Readable) then Slot(e.id, e.fd, {POLLIN}, {})
    else if r.interest == Some(Writeable) then Slot(e.id, e.fd, {POLLOUT}, {})
    else e
  }

  /** Its handler was called once, with this event, and the reply to that call decided. */
  ghost predicate Asked(e: Slot, event: Event, p: Poll, q: Poll, replies: seq<Reply>)
    requires p.calls <= q.calls
  {
    var made := q.calls[|p.calls|..];
    CallsTo(made, e.id) == [event] &&
    exists n :: 0 <= n < |made| && made[n] == Call(e.id, event) &&
      if ReplyAt(replies, n).closing then Left(e, p, q) else Answered(e, ReplyAt(replies, n)) in q.list
  }

  // ---------- calls ----------

  lemma {:induction false} CallsToThen(a: seq<Call>, b: seq<Call>, id: nat)
    ensures CallsTo(a + b, id) == CallsTo(a, id) + CallsTo(b, id)
  {
    if a == [] {
      assert a + b == b;
    } else {
      assert (a + b)[1..] == a[1..] + b;
      var head := if a[0].id == id then [a[0].event] else [];
      calc {
        CallsTo(a + b, id);
        head + CallsTo(a[1..] + b, id);
        { CallsToThen(a[1..], b, id); }
        head + (CallsTo(a[1..], id) + CallsTo(b, id));
        (head + CallsTo(a[1..], id)) + CallsTo(b, id);
        CallsTo(a, id) + CallsTo(b, id);
      }
    }
  }

  lemma CallsToOf(id: nat, b: Branch, id': nat)
    ensures CallsTo(CallsOf(id, b), id') ==
              if id != id' then []
              else match b
                   case HangUp => [CLOSED]
                   case Error => [ERRORED, CLOSED]
                   case In => [READABLE]
                   case Out => [WRITEABLE]
                   case Unknown => [CLOSED]
  {
    var calls := CallsOf(id, b);
    if b == Error {
      assert calls[1..] == [Call(id, CLOSED)];
      assert CallsTo([Call(id, CLOSED)], id') == if id == id' then [CLOSED] else [];
    }
  }

  lemma {:induction false} NoCallsTo(vs: seq<Served>, id: nat)
    requires forall k | 0 <= k < |vs| :: vs[k].id != id
    ensures CallsTo(CallsFor(vs), id) == []
  {
    if vs == [] {
    } else {
      NoCallsTo(vs[1..], id);
      CallsToThen(CallsOf(vs[0].id, vs[0].branch), CallsFor(vs[1..]), id);
      CallsToOf(vs[0].id, vs[0].branch, id);
    }
  }

  /** The k-th entry served is told what its branch says, from the call at CallOf on. */
  lemma {:induction false} CallsToServed(vs: seq<Served>, k: nat)
    requires k < |vs| && forall i, j | 0 <= i < j < |vs| :: vs[i].id != vs[j].id
    ensures CallsTo(CallsFor(vs), vs[k].id) == CallsTo(CallsOf(vs[k].id, vs[k].branch), vs[k].id)
    ensures CallOf(vs, k) < |CallsFor(vs)| && CallsFor(vs)[CallOf(vs, k)] == CallsOf(vs[k].id, vs[k].branch)[0]
  {
    hide CallsOf, CallsTo, CallOf;
    var v, more := vs[0], vs[1..];
    CallsToThen(CallsOf(v.id, v.branch), CallsFor(more), vs[k].id);
    CallsToOf(v.id, v.branch, vs[k].id);
    assert vs == [v] + more;
    CallsSome(v.id, v.branch);
    if k == 0 {
      NoCallsTo(more, v.id);
      CallOfMore(v, more, 0);
    } else {
      CallsToServed(more, k - 1);
      CallOfMore(v, more, k - 1);
    }
  }

  lemma CallsSome(id: nat, b: Branch)
    ensures |CallsOf(id, b)| > 0
  {}

  lemma CallOfMore(v: Served, more: seq<Served>, k: nat)
    requires k <= |more|
    ensures CallOf([v] + more, 0) == 0
    ensures CallOf([v] + more, k + 1) == |CallsOf(v.id, v.branch)| + CallOf(more, k)
  {
    var vs := [v] + more;
    assert vs[..0] == [] && vs[..k + 1] == [v] + more[..k];
    CallsMore(v, more[..k], []);
  }

  // ---------- the entries that stay ----------

  lemma ServeAnswers(p: Poll, i: nat, replies: seq<Reply>)
    requires i < |p.list| && !Serve(p, i, replies).2
    ensures i < |Serve(p, i, replies).0.list|
    ensures Serve(p, i, replies).0.list[i] == Answered(p.list[i], First(replies))
  {
    hide Invoke, RemoveAt;
    InvokeKeeps(p, i, READABLE, First(replies));
    InvokeKeeps(p, i, WRITEABLE, First(replies));
  }

  /** Among these entries, the one with this identity is in the list as its handler's reply leaves it. */
  ghost predicate StaysAs(id: nat, r: Reply, slots: set<Slot>, list: seq<Slot>)
  {
    exists e | e in slots :: e.id == id && Answered(e, r) in list
  }

  ghost predicate StayAsAnswered(vs: seq<Served>, replies: seq<Reply>, slots: set<Slot>, list: seq<Slot>)
  {
    forall k | 0 <= k < |vs| && !vs[k].removed :: StaysAs(vs[k].id, ReplyAt(replies, CallOf(vs, k)), slots, list)
  }

  lemma AnsweredMore(v: Served, more: seq<Served>, e: Slot, slots: set<Slot>, replies: seq<Reply>, rest: seq<Reply>,
                     list: seq<Slot>)
    requires e in slots && v.id == e.id && (!v.removed ==> Answered(e, ReplyAt(replies, 0)) in list)
    requires forall n: nat :: ReplyAt(rest, n) == ReplyAt(replies, |CallsOf(v.id, v.branch)| + n)
    requires StayAsAnswered(more, rest, slots - {e}, list)
    ensures StayAsAnswered([v] + more, replies, slots, list)
  {
    hide CallsOf, ReplyAt, Answered;
    var vs := [v] + more;
    forall k | 0 <= k < |vs| && !vs[k].removed
      ensures StaysAs(vs[k].id, ReplyAt(replies, CallOf(vs, k)), slots, list)
    {
      if k == 0 {
        CallOfMore(v, more, 0);
      } else {
        CallOfMore(v, more, k - 1);
        assert ReplyAt(rest, CallOf(more, k - 1)) == ReplyAt(replies, CallOf(vs, k));
        assert vs[k] == more[k - 1];
      }
    }
  }

  lemma {:induction false} LoopAnswers(p: Poll, i: nat, replies: seq<Reply>)
    requires Distinct(p) && i <= |p.list|
    ensures StayAsAnswered(Loop(p, i, replies).1, replies, Reported(p.list, i), Loop(p, i, replies).0.list)
    decreases Pending(p.list, i), |p.list| - i
  {
    hide Serve, Reported, Distinct, StayAsAnswered, CallsOf, ReplyAt, Answered;
    if i == |p.list| {
      NothingStays(replies, Reported(p.list, i), p.list);
    } else if p.list[i].revents == {} {
      QuietNext(p, i);
      LoopAnswers(p, i + 1, replies);
    } else {
      var (q, rest, removed) := Serve(p, i, replies);
      ServeShrinks(p, i, replies);
      TurnReported(p, i, replies);
      ReportedNext(p, i);
      var j := if removed then i else i + 1;
      LoopAnswers(q, j, rest);
      forall n: nat
        ensures ReplyAt(rest, n) == ReplyAt(replies, |CallsOf(p.list[i].id, BranchOf(p.list[i].revents))| + n)
      {
        ServeTakes(p, i, replies, n);
      }
      var list := Loop(q, j, rest).0.list;
      if !removed {
        ServeAnswers(p, i, replies);
        QuietStay(q, j, rest);
        FirstReply(replies);
        assert list[i] == q.list[i];
      }
      AnsweredMore(Served(p.list[i].id, p.list[i].fd, BranchOf(p.list[i].revents), removed), Loop(q, j, rest).1,
                   p.list[i], Reported(p.list, i), replies, rest, list);
    }
  }

  lemma NothingStays(replies: seq<Reply>, slots: set<Slot>, list: seq<Slot>)
    ensures StayAsAnswered([], replies, slots, list)
  {}

  lemma FirstReply(replies: seq<Reply>)
    ensures ReplyAt(replies, 0) == First(replies)
  {}

  // ---------- the entries that are added ----------

  /** q's additions to p are these descriptors, each in q's list from position `from` on, as new. */
  ghost predicate Adds(p: Poll, q: Poll, from: nat, fds: seq<int>)
  {
    q.added == p.added + fds && q.nextId == p.nextId + |fds| && from <= |q.list| &&
    forall k | 0 <= k < |fds| :: Slot(p.nextId + k, fds[k], {POLLIN}, {}) in q.list[from..]
  }

  lemma {:induction false} AppendsThen(replies: seq<Reply>, rest: seq<Reply>, m: nat, n: nat)
    requires forall k: nat :: ReplyAt(rest, k) == ReplyAt(replies, m + k)
    ensures AppendsOf(replies, m + n) == AppendsOf(replies, m) + AppendsOf(rest, n)
    decreases m
  {
    FirstReply(replies);
    if m == 0 {
      SameAppends(replies, rest, n);
    } else {
      forall k: nat
        ensures ReplyAt(rest, k) == ReplyAt(Rest(replies), m - 1 + k)
      {
        RestReply(replies, m - 1 + k);
      }
      AppendsThen(Rest(replies), rest, m - 1, n);
    }
  }

  lemma RestReply(replies: seq<Reply>, k: nat)
    ensures ReplyAt(Rest(replies), k) == ReplyAt(replies, k + 1)
  {}

  lemma {:induction false} SameAppends(a: seq<Reply>, b: seq<Reply>, n: nat)
    requires forall k: nat :: ReplyAt(b, k) == ReplyAt(a, k)
    ensures AppendsOf(a, n) == AppendsOf(b, n)
  {
    FirstReply(a);
    FirstReply(b);
    if n == 0 {
    } else {
      assert ReplyAt(b, 0) == ReplyAt(a, 0);
      forall k: nat
        ensures ReplyAt(Rest(b), k) == ReplyAt(Rest(a), k)
      {
        RestReply(a, k);
        RestReply(b, k);
      }
      SameAppends(Rest(a), Rest(b), n - 1);
    }
  }

  lemma TurnAdds(p: Poll, i: nat, replies: seq<Reply>)
    requires i < |p.list|
    ensures var (q, _, removed) := Serve(p, i, replies);
            Adds(p, q, if removed then i else i + 1,
                 AppendsOf(replies, |CallsOf(p.list[i].id, BranchOf(p.list[i].revents))|))
  {
    hide Serve, AppendsOf, Extends, CallsOf, RemoveAt, BranchOf, Invoke, First;
    var x := ServeIs(p, i, replies);
    var (q, _, removed) := Serve(p, i, replies);
    var j := if removed then i else i + 1;
    TurnAppends(p, i, replies);
    var fds := AppendsOf(replies, |CallsOf(p.list[i].id, BranchOf(p.list[i].revents))|);
    ExtendsBy(x, p, i, fds);
    RemovedList(x, i);
    AddsInside(p, x, q, i, removed, fds);
  }

  lemma AddsInside(p: Poll, x: Poll, q: Poll, i: nat, removed: bool, fds: seq<int>)
    requires i < |p.list| && |x.list| == |p.list| + |fds| && q.nextId == p.nextId + |fds| && q.added == p.added + fds
    requires forall k | 0 <= k < |fds| :: x.list[|p.list| + k] == Slot(p.nextId + k, fds[k], {POLLIN}, {})
    requires q.list == if removed then x.list[i := x.list[|x.list| - 1]][..|x.list| - 1] else x.list
    ensures Adds(p, q, if removed then i else i + 1, fds)
  {
    forall k | 0 <= k < |fds|
      ensures Slot(p.nextId + k, fds[k], {POLLIN}, {}) in q.list[if removed then i else i + 1..]
    {
      StillIn(x.list, q.list, i, removed, |p.list| + k);
    }
  }

  lemma RemovedList(x: Poll, i: nat)
    requires i < |x.list|
    ensures RemoveAt(x, i).list == x.list[i := x.list[|x.list| - 1]][..|x.list| - 1]
  {}

  lemma ExtendsBy(x: Poll, p: Poll, i: nat, fds: seq<int>)
    requires Extends(x, p, i) && x.added == p.added + fds
    ensures i < |p.list| && |x.list| == |p.list| + |fds| && x.nextId == p.nextId + |fds|
    ensures forall k | 0 <= k < |fds| :: x.list[|p.list| + k] == Slot(p.nextId + k, fds[k], {POLLIN}, {})
  {
    forall k | 0 <= k < |fds|
      ensures x.list[|p.list| + k] == Slot(p.nextId + k, fds[k], {POLLIN}, {})
    {
      assert x.added[|p.added| + k] == fds[k];
    }
  }

  /** What comes after entry i is still at or after the cursor, whether or not the entry goes. */
  lemma StillIn(a: seq<Slot>, b: seq<Slot>, i: nat, removed: bool, m: nat)
    requires i < m < |a| && b == if removed then a[i := a[|a| - 1]][..|a| - 1] else a
    ensures (if removed then i else i + 1) <= |b| && a[m] in b[if removed then i else i + 1..]
  {
    var j, at := if removed then i else i + 1, if removed && m == |a| - 1 then i else m;
    assert b[at] == a[m];
    assert b[j..][at - j] == b[at];
  }

  lemma TurnAppends(p: Poll, i: nat, replies: seq<Reply>)
    requires i < |p.list|
    ensures Serve(p, i, replies).0.added ==
              p.added + AppendsOf(replies, |CallsOf(p.list[i].id, BranchOf(p.list[i].revents))|)
  {
    hide Invoke;
    var r := First(replies);
    assert AppendsOf(replies, 1) == r.appends + AppendsOf(Rest(replies), 0) == r.appends;
    match BranchOf(p.list[i].revents) {
      case Error =>
        var q := Invoke(p, i, ERRORED, r);
        InvokeKeeps(p, i, ERRORED, r);
        InvokeKeeps(q, i, CLOSED, First(Rest(replies)));
        assert AppendsOf(Rest(replies), 1) == First(Rest(replies)).appends + AppendsOf(Rest(Rest(replies)), 0);
        assert AppendsOf(replies, 2) == r.appends + AppendsOf(Rest(replies), 1);
      case In => InvokeKeeps(p, i, READABLE, r);
      case Out => InvokeKeeps(p, i, WRITEABLE, r);
      case _ => InvokeKeeps(p, i, CLOSED, r);
    }
  }

  /** What a turn adds, and then the rest of the loop. */
  lemma AddsThen(p: Poll, q: Poll, j: nat, a: seq<int>, q': Poll, b: seq<int>)
    requires Adds(p, q, j, a) && Adds(q, q', 0, b)
    requires forall s | s in q.list[j..] && s.revents == {} :: s in q'.list
    ensures Adds(p, q', 0, a + b)
  {
    assert q'.list[0..] == q'.list;
    forall k | 0 <= k < |a + b|
      ensures Slot(p.nextId + k, (a + b)[k], {POLLIN}, {}) in q'.list[0..]
    {
      if k >= |a| {
        assert Slot(q.nextId + (k - |a|), b[k - |a|], {POLLIN}, {}) in q'.list[0..];
      }
    }
  }

  /** The calls of the loop add what they ask for, in order, and all of that is in the list at the end. */
  lemma {:induction false} LoopAdds(p: Poll, i: nat, replies: seq<Reply>)
    requires i <= |p.list|
    ensures Adds(p, Loop(p, i, replies).0, 0, AppendsOf(replies, |CallsFor(Loop(p, i, replies).1)|))
    decreases Pending(p.list, i), |p.list| - i
  {
    hide Serve, Adds, AppendsOf, CallsOf, BranchOf;
    if i == |p.list| {
      NothingAdded(p, replies);
    } else if p.list[i].revents == {} {
      LoopAdds(p, i + 1, replies);
    } else {
      var (q, rest, removed) := Serve(p, i, replies);
      ServeShrinks(p, i, replies);
      var j := if removed then i else i + 1;
      LoopAdds(q, j, rest);
      TurnAdds(p, i, replies);
      QuietStay(q, j, rest);
      var v := Served(p.list[i].id, p.list[i].fd, BranchOf(p.list[i].revents), removed);
      var (q', more) := Loop(q, j, rest);
      var m := |CallsOf(v.id, v.branch)|;
      forall n: nat
        ensures ReplyAt(rest, n) == ReplyAt(replies, m + n)
      {
        ServeTakes(p, i, replies, n);
      }
      AppendsThen(replies, rest, m, |CallsFor(more)|);
      CallsMore(v, more, []);
      AddsThen(p, q, j, AppendsOf(replies, m), q', AppendsOf(rest, |CallsFor(more)|));
    }
  }

  lemma NothingAdded(p: Poll, replies: seq<Reply>)
    ensures Adds(p, p, 0, AppendsOf(replies, |CallsFor([])|))
  {}

  // ---------- the whole pass ----------

  /** What poll() reported for the entry decides which events its handler gets, and whether it stays. */
  ghost predicate ByBits(e: Slot, p: Poll, q: Poll, replies: seq<Reply>)
    requires p.calls <= q.calls
  {
    var made := q.calls[|p.calls|..];
    (e.revents == {} ==> CallsTo(made, e.id) == [] && e in q.list) &&
    (POLLHUP in e.revents ==> CallsTo(made, e.id) == [CLOSED] && Left(e, p, q)) &&
    (POLLHUP !in e.revents && POLLERR in e.revents ==> CallsTo(made, e.id) == [ERRORED, CLOSED] && Left(e, p, q)) &&
    (e.revents !! {POLLHUP, POLLERR} && POLLIN in e.revents ==> Asked(e, READABLE, p, q, replies)) &&
    (e.revents !! {POLLHUP, POLLERR, POLLIN} && POLLOUT in e.revents ==> Asked(e, WRITEABLE, p, q, replies)) &&
    (e.revents == {POLLOTHER} ==> CallsTo(made, e.id) == [CLOSED] && Left(e, p, q))
  }

  lemma {:induction false} ClosedOne(vs: seq<Served>, k: nat)
    requires k < |vs| && vs[k].removed && vs[k].fd > 0
    ensures vs[k].fd in ClosedBy(vs)
  {
    if k == 0 {
    } else {
      ClosedOne(vs[1..], k - 1);
    }
  }

  lemma RemovedLeft(p: Poll, q: Poll, vs: seq<Served>, k: nat, e: Slot)
    requires Distinct(p) && e in p.list && k < |vs| && vs[k].removed && vs[k].id == e.id && vs[k].fd == e.fd
    requires Old(q.list, p.nextId) == Old(p.list, p.nextId) - Gone(vs) && q.closed == p.closed + ClosedBy(vs)
    ensures Left(e, p, q)
  {
    assert vs[k] in vs && (e.id, e.fd) in Gone(vs);
    forall s | s in q.list
      ensures s.id != e.id
    {
      if s.id < p.nextId {
        assert (s.id, s.fd) in Old(q.list, p.nextId);
        assert (s.id, s.fd) !in Gone(vs);
        var x :| x in p.list && (x.id, x.fd) == (s.id, s.fd);
      }
    }
    if e.fd > 0 {
      ClosedOne(vs, k);
      assert q.closed[|p.closed|..] == ClosedBy(vs);
    }
  }

  /** Where the reported entry e is served. */
  lemma ServedAt(p: Poll, vs: seq<Served>, e: Slot) returns (k: nat)
    requires ServesExactly(vs, Reported(p.list, 0)) && e in p.list && e.revents != {}
    ensures k < |vs| && vs[k].id == e.id && vs[k].fd == e.fd && vs[k].branch == BranchOf(e.revents)
  {
    assert p.list[0..] == p.list;
    assert (e.id, e.fd, BranchOf(e.revents)) in Due(Reported(p.list, 0));
    assert (e.id, e.fd, BranchOf(e.revents)) in Done(vs);
    k :| 0 <= k < |vs| && (vs[k].id, vs[k].fd, vs[k].branch) == (e.id, e.fd, BranchOf(e.revents));
  }

  lemma StaysAlone(p: Poll, e: Slot, r: Reply, list: seq<Slot>)
    requires Distinct(p) && e in p.list && StaysAs(e.id, r, Reported(p.list, 0), list)
    ensures Answered(e, r) in list
  {
    assert p.list[0..] == p.list;
  }

  /** What happens to a reported entry, by its branch. */
  lemma ReportedEntry(p: Poll, replies: seq<Reply>, e: Slot)
    requires Distinct(p) && e in p.list && e.revents != {}
    ensures var q := Loop(p, 0, replies).0;
            var b := BranchOf(e.revents);
            p.calls <= q.calls &&
            CallsTo(q.calls[|p.calls|..], e.id) == CallsTo(CallsOf(e.id, b), e.id) &&
            (Ends(b) ==> Left(e, p, q)) &&
            (!Ends(b) ==>
              exists n :: 0 <= n < |q.calls[|p.calls|..]| && q.calls[|p.calls|..][n] == CallsOf(e.id, b)[0] &&
                if ReplyAt(replies, n).closing then Left(e, p, q) else Answered(e, ReplyAt(replies, n)) in q.list)
  {
    hide Loop, Reported, Distinct, Left, BranchOf, CallsTo, CallsOf, CallOf, Answered, ReplyAt, StaysAs, Old, Gone,
         ClosedBy;
    var (q, vs) := Loop(p, 0, replies);
    LoopServes(p, 0, replies);
    LoopRemoves(p, 0, replies);
    LoopKeeps(p, 0, replies, p.nextId);
    LoopAnswers(p, 0, replies);
    var k := ServedAt(p, vs, e);
    CallsToServed(vs, k);
    assert q.calls[|p.calls|..] == CallsFor(vs);
    var n := CallOf(vs, k);
    if vs[k].removed {
      RemovedLeft(p, q, vs, k, e);
    } else {
      assert StaysAs(e.id, ReplyAt(replies, n), Reported(p.list, 0), q.list);
      StaysAlone(p, e, ReplyAt(replies, n), q.list);
    }
  }

  lemma QuietEntry(p: Poll, replies: seq<Reply>, id: nat)
    requires Distinct(p) && forall e | e in p.list && e.id == id :: e.revents == {}
    ensures var q := Loop(p, 0, replies).0;
            p.calls <= q.calls && CallsTo(q.calls[|p.calls|..], id) == []
  {
    hide Loop, Distinct, CallsTo, CallsOf, BranchOf;
    var (q, vs) := Loop(p, 0, replies);
    LoopServes(p, 0, replies);
    assert q.calls[|p.calls|..] == CallsFor(vs);
    forall k | 0 <= k < |vs|
      ensures vs[k].id != id
    {
      assert (vs[k].id, vs[k].fd, vs[k].branch) in Done(vs);
      assert (vs[k].id, vs[k].fd, vs[k].branch) in Due(Reported(p.list, 0));
    }
    NoCallsTo(vs, id);
  }

  lemma EntryByBits(p: Poll, replies: seq<Reply>, e: Slot)
    requires Distinct(p) && e in p.list
    ensures p.calls <= Loop(p, 0, replies).0.calls && ByBits(e, p, Loop(p, 0, replies).0, replies)
  {
    hide Loop, Distinct, Left, CallsTo, Answered, ReplyAt;
    if e.revents == {} {
      OneOfIdentity(p, e);
      QuietEntry(p, replies, e.id);
      QuietStay(p, 0, replies);
    } else {
      ReportedEntry(p, replies, e);
      CallsToOf(e.id, BranchOf(e.revents), e.id);
      OtherAlone(e.revents);
    }
  }

  lemma OneOfIdentity(p: Poll, e: Slot)
    requires Distinct(p) && e in p.list
    ensures forall x | x in p.list && x.id == e.id :: x == e
  {}

  lemma OtherAlone(bits: set<Flag>)
    ensures bits == {POLLOTHER} <==> bits != {} && bits !! {POLLHUP, POLLERR, POLLIN, POLLOUT}
  {
    if bits != {} && bits !! {POLLHUP, POLLERR, POLLIN, POLLOUT} {
      assert forall b | b in bits :: b == POLLOTHER;
      var b :| b in bits;
    }
  }

  /**
    A pass does to each entry what its bits say, calls no handler of an entry that it did not find
    reported, and leaves the entries that handlers add, in the order of their calls, as new ones.
  */
  lemma PassByBits(p: Poll, replies: seq<Reply>)
    requires Distinct(p)
    ensures var q := Loop(p, 0, replies).0;
            p.calls <= q.calls &&
            (forall e | e in p.list :: ByBits(e, p, q, replies)) &&
            (forall id: nat | forall e | e in p.list :: e.id != id :: CallsTo(q.calls[|p.calls|..], id) == []) &&
            q.added == p.added + AppendsOf(replies, |q.calls| - |p.calls|) &&
            forall k | |p.added| <= k < |q.added| ::
              Slot(p.nextId + (k - |p.added|), q.added[k], {POLLIN}, {}) in q.list
  {
    hide Loop, Distinct, ByBits, CallsTo, AppendsOf;
    var (q, vs) := Loop(p, 0, replies);
    LoopServes(p, 0, replies);
    LoopAdds(p, 0, replies);
    AddedSlots(p, q, AppendsOf(replies, |CallsFor(vs)|));
    forall e | e in p.list
      ensures ByBits(e, p, q, replies)
    {
      EntryByBits(p, replies, e);
    }
    forall id: nat | forall e | e in p.list :: e.id != id
      ensures CallsTo(q.calls[|p.calls|..], id) == []
    {
      QuietEntry(p, replies, id);
    }
  }

  lemma AddedSlots(p: Poll, q: Poll, fds: seq<int>)
    requires Adds(p, q, 0, fds)
    ensures forall k | |p.added| <= k < |q.added| ::
              Slot(p.nextId + (k - |p.added|), q.added[k], {POLLIN}, {}) in q.list
  {
    assert q.list[0..] == q.list;
    forall k | |p.added| <= k < |q.added|
      ensures Slot(p.nextId + (k - |p.added|), q.added[k], {POLLIN}, {}) in q.list
    {
      assert q.added[k] == fds[k - |p.added|];
    }
  }

  /** So does every pass, after any additions and passes from creation on. */
  lemma EveryPassByBits(acts: seq<PollRuns.Act>, reported: seq<set<Flag>>, replies: seq<Reply>)
    ensures var before := PollRuns.Run(EMPTY, acts);
            var p := before.(list := WithReported(before.list, reported));
            var q := PollRuns.Step(before, PollRuns.Pass(reported, replies));
            p.calls <= q.calls &&
            (forall k | 0 <= k < |p.list| ::
              p.list[k].revents == (if k < |reported| then reported[k] else {}) && ByBits(p.list[k], p, q, replies)) &&
            q.added == p.added + AppendsOf(replies, |q.calls| - |p.calls|) &&
            forall k | |p.added| <= k < |q.added| ::
              Slot(p.nextId + (k - |p.added|), q.added[k], {POLLIN}, {}) in q.list
  {
    hide Loop, Distinct, ByBits, AppendsOf, PollRuns.Run;
    PollRuns.RunDistinct(EMPTY, acts);
    var before := PollRuns.Run(EMPTY, acts);
    ReportedSameIds(before, reported);
    PassByBits(before.(list := WithReported(before.list, reported)), replies);
  }

  lemma ReportedSameIds(p: Poll, reported: seq<set<Flag>>)
    requires Distinct(p)
    ensures Distinct(p.(list := WithReported(p.list, reported)))
  {}
}
