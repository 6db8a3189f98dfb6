/** What one pass of the poll loop of src/dispatcher.c does, whatever the handlers do. */
module PollLaws {
  import opened PollModel

  /** Identities are distinct and below the next one to be given. */
  ghost predicate Distinct(p: Poll)
  {
    (forall k | 0 <= k < |p.list| :: p.list[k].id < p.nextId) &&
    forall j, k | 0 <= j < k < |p.list| :: p.list[j].id != p.list[k].id
  }

  /** The entries from i on with something reported, as they stand. */
  ghost function Reported(list: seq<Slot>, i: nat): set<Slot>
    requires i <= |list|
  {
    set s | s in list[i..] && s.revents != {}
  }

  ghost function Due(slots: set<Slot>): set<(nat, int, Branch)>
  {
    set s | s in slots :: (s.id, s.fd, BranchOf(s.revents))
  }

  ghost function Done(vs: seq<Served>): set<(nat, int, Branch)>
  {
    set v | v in vs :: (v.id, v.fd, v.branch)
  }

  /** vs serves each of these entries exactly once, by the branch its reported bits select, and nothing else. */
  ghost predicate ServesExactly(vs: seq<Served>, slots: set<Slot>)
  {
    (forall j, k | 0 <= j < k < |vs| :: vs[j].id != vs[k].id) && Done(vs) == Due(slots)
  }

  function CallsFor(vs: seq<Served>): seq<Call>
  {
    if vs == [] then [] else CallsOf(vs[0].id, vs[0].branch) + CallsFor(vs[1..])
  }

  // ---------- one turn ----------

  lemma ReportedFrom(list: seq<Slot>, i: nat, s: Slot)
    requires i <= |list|
    ensures s in Reported(list, i) <==> s.revents != {} && exists k :: i <= k < |list| && list[k] == s
  {}

  lemma ReportedSame(a: seq<Slot>, b: seq<Slot>, i: nat)
    requires i <= |a| <= |b|
    requires forall k | i <= k < |a| :: b[k] == a[k]
    requires forall k | |a| <= k < |b| :: b[k].revents == {}
    ensures Reported(b, i) == Reported(a, i)
  {
    forall s
      ensures s in Reported(b, i) <==> s in Reported(a, i)
    {
      hide Reported;
      ReportedFrom(a, i, s);
      ReportedFrom(b, i, s);
    }
  }

  lemma ReportedSwap(a: seq<Slot>, i: nat)
    requires i < |a|
    ensures Reported(a[i := a[|a| - 1]][..|a| - 1], i) == Reported(a, i + 1)
  {
    var n := |a| - 1;
    var b := a[i := a[n]][..n];
    forall s
      ensures s in Reported(b, i) <==> s in Reported(a, i + 1)
    {
      hide Reported;
      ReportedFrom(a, i + 1, s);
      ReportedFrom(b, i, s);
      if k :| i + 1 <= k < |a| && a[k] == s {
        assert b[if k == n then i else k] == s;
      }
      if k :| i <= k < |b| && b[k] == s {
        assert a[if k == i then n else k] == s;
      }
    }
  }

  lemma ReportedNext(p: Poll, i: nat)
    requires Distinct(p) && i < |p.list|
    ensures Reported(p.list, i + 1) == Reported(p.list, i) - {p.list[i]}
    ensures p.list[i].revents != {} ==> p.list[i] in Reported(p.list, i)
  {
    assert p.list[i..] == [p.list[i]] + p.list[i + 1..];
  }

  lemma QuietNext(p: Poll, i: nat)
    requires i < |p.list| && p.list[i].revents == {}
    ensures Reported(p.list, i + 1) == Reported(p.list, i)
  {
    assert p.list[i..] == [p.list[i]] + p.list[i + 1..];
  }

  lemma DistinctExtended(p: Poll, x: Poll, i: nat)
    requires Distinct(p) && Extends(x, p, i)
    ensures Distinct(x)
  {}

  lemma DistinctSwapped(x: Poll, i: nat)
    requires Distinct(x) && i < |x.list|
    ensures Distinct(RemoveAt(x, i))
  {}

  /** The list after a turn: entry i gone or kept, the others as they were, new entries quiet. */
  lemma TurnReported(p: Poll, i: nat, replies: seq<Reply>)
    requires Distinct(p) && i < |p.list| && p.list[i].revents != {}
    ensures var (q, _, removed) := Serve(p, i, replies);
            var j := if removed then i else i + 1;
            j <= |q.list| && Distinct(q) && Reported(q.list, j) == Reported(p.list, i) - {p.list[i]}
  {
    hide Serve, Reported, Distinct;
    var x := ServeIs(p, i, replies);
    DistinctExtended(p, x, i);
    DistinctSwapped(x, i);
    ReportedNext(p, i);
    ReportedSame(p.list, x.list, i + 1);
    ReportedSwap(x.list, i);
    DistinctParts(Serve(p, i, replies).0, if Serve(p, i, replies).2 then RemoveAt(x, i) else x);
  }

  lemma DistinctParts(q: Poll, x: Poll)
    requires q.list == x.list && q.nextId == x.nextId && Distinct(x)
    ensures Distinct(q)
  {}

  lemma ServesMore(s: Slot, v: Served, vs: seq<Served>, slots: set<Slot>)
    requires s in slots && ServesExactly(vs, slots - {s})
    requires v.id == s.id && v.fd == s.fd && v.branch == BranchOf(s.revents)
    requires forall x | x in slots && x.id == s.id :: x == s
    ensures ServesExactly([v] + vs, slots)
  {
    var vs' := [v] + vs;
    forall k | 0 <= k < |vs|
      ensures vs[k].id != v.id
    {
      assert (vs[k].id, vs[k].fd, vs[k].branch) in Done(vs);
    }
    assert Done(vs') == {(v.id, v.fd, v.branch)} + Done(vs) by {
      assert forall y :: y in vs' <==> y == v || y in vs;
    }
    assert Due(slots) == {(v.id, v.fd, v.branch)} + Due(slots - {s});
  }

  /**
    Every entry for which poll() reported something is dispatched exactly once, in the one branch its
    bits select, wherever swap-removal carries it meanwhile; entries appended on the way are not.
  */
  lemma {:induction false} LoopServes(p: Poll, i: nat, replies: seq<Reply>)
    requires Distinct(p) && i <= |p.list|
    ensures Distinct(Loop(p, i, replies).0)
    ensures ServesExactly(Loop(p, i, replies).1, Reported(p.list, i))
    ensures Loop(p, i, replies).0.calls == p.calls + CallsFor(Loop(p, i, replies).1)
    decreases Pending(p.list, i), |p.list| - i
  {
    hide Serve, Reported, Distinct, ServesExactly, CallsOf;
    if i == |p.list| {
      NothingServed(p);
    } else if p.list[i].revents == {} {
      QuietNext(p, i);
      LoopServes(p, i + 1, replies);
    } else {
      var (q, rest, removed) := Serve(p, i, replies);
      ServeShrinks(p, i, replies);
      TurnReported(p, i, replies);
      var j := if removed then i else i + 1;
      LoopServes(q, j, rest);
      var v := Served(p.list[i].id, p.list[i].fd, BranchOf(p.list[i].revents), removed);
      var more := Loop(q, j, rest).1;
      ReportedNext(p, i);
      OneOfEach(p, i);
      ServesMore(p.list[i], v, more, Reported(p.list, i));
      var x := ServeIs(p, i, replies);
      CallsMore(v, more, p.calls);
    }
  }

  lemma NothingServed(p: Poll)
    ensures ServesExactly([], Reported(p.list, |p.list|)) && p.calls + CallsFor([]) == p.calls
  {}

  lemma OneOfEach(p: Poll, i: nat)
    requires Distinct(p) && i < |p.list|
    ensures forall x | x in Reported(p.list, i) && x.id == p.list[i].id :: x == p.list[i]
  {}

  lemma CallsMore(v: Served, more: seq<Served>, calls: seq<Call>)
    ensures calls + CallsFor([v] + more) == calls + CallsOf(v.id, v.branch) + CallsFor(more)
  {
    assert ([v] + more)[1..] == more;
  }

  // ---------- what is left ----------

  /** The entries that were there before, by identity and descriptor. */
  ghost function Old(list: seq<Slot>, bound: nat): set<(nat, int)>
  {
    set s | s in list && s.id < bound :: (s.id, s.fd)
  }

  ghost function Gone(vs: seq<Served>): set<(nat, int)>
  {
    set v | v in vs && v.removed :: (v.id, v.fd)
  }

  function ClosedBy(vs: seq<Served>): seq<int>
  {
    if vs == [] then [] else (if vs[0].removed && vs[0].fd > 0 then [vs[0].fd] else []) + ClosedBy(vs[1..])
  }

  function CountRemoved(vs: seq<Served>): nat
  {
    if vs == [] then 0 else (if vs[0].removed then 1 else 0) + CountRemoved(vs[1..])
  }

  lemma OldExtended(x: Poll, p: Poll, i: nat, bound: nat)
    requires Extends(x, p, i) && bound <= p.nextId
    ensures Old(x.list, bound) == Old(p.list, bound)
  {}

  lemma OldSwapped(x: Poll, i: nat, bound: nat)
    requires Distinct(x) && i < |x.list|
    ensures Old(RemoveAt(x, i).list, bound) == Old(x.list, bound) - {(x.list[i].id, x.list[i].fd)}
  {
    var n, y := |x.list| - 1, RemoveAt(x, i).list;
    forall e | e in Old(x.list, bound) - {(x.list[i].id, x.list[i].fd)}
      ensures e in Old(y, bound)
    {
      var k :| 0 <= k < |x.list| && (x.list[k].id, x.list[k].fd) == e;
      assert y[if k == n then i else k] == x.list[k];
    }
    forall e | e in Old(y, bound)
      ensures e in Old(x.list, bound) - {(x.list[i].id, x.list[i].fd)}
    {
      var k :| 0 <= k < |y| && (y[k].id, y[k].fd) == e;
      assert x.list[if k == i then n else k] == y[k];
    }
  }

  /** One turn, as far as what remains goes. */
  lemma TurnKeeps(p: Poll, i: nat, replies: seq<Reply>, bound: nat)
    requires Distinct(p) && i < |p.list| && bound <= p.nextId
    ensures var (q, _, removed) := Serve(p, i, replies);
            var e := p.list[i];
            p.nextId <= q.nextId &&
            Old(q.list, bound) == (if removed then Old(p.list, bound) - {(e.id, e.fd)} else Old(p.list, bound)) &&
            q.closed == p.closed + (if removed && e.fd > 0 then [e.fd] else []) &&
            |q.list| == |p.list| + (q.nextId - p.nextId) - (if removed then 1 else 0)
  {
    hide Serve, Old, Distinct;
    var x := ServeIs(p, i, replies);
    DistinctExtended(p, x, i);
    OldExtended(x, p, i, bound);
    OldSwapped(x, i, bound);
  }

  lemma GoneMore(v: Served, more: seq<Served>, closed: seq<int>)
    ensures Gone([v] + more) == Gone(more) + if v.removed then {(v.id, v.fd)} else {}
    ensures closed + ClosedBy([v] + more) == closed + (if v.removed && v.fd > 0 then [v.fd] else []) + ClosedBy(more)
    ensures CountRemoved([v] + more) == CountRemoved(more) + if v.removed then 1 else 0
  {
    var vs := [v] + more;
    assert vs[1..] == more;
    assert forall x :: x in vs <==> x == v || x in more;
  }

  /**
    The entries there before stay, with their descriptors, but for those whose turn removed them; the
    positive descriptors of the latter are closed, each once and in that order; the rest of the list
    is what handlers added.
  */
  lemma {:induction false} LoopKeeps(p: Poll, i: nat, replies: seq<Reply>, bound: nat)
    requires Distinct(p) && i <= |p.list| && bound <= p.nextId
    ensures var (p', vs) := Loop(p, i, replies);
            Old(p'.list, bound) == Old(p.list, bound) - Gone(vs) &&
            p'.closed == p.closed + ClosedBy(vs) && p.nextId <= p'.nextId &&
            |p'.list| + CountRemoved(vs) == |p.list| + (p'.nextId - p.nextId)
    decreases Pending(p.list, i), |p.list| - i
  {
    hide Serve, Old, Distinct, Gone;
    if i == |p.list| {
      NothingGone();
    } else if p.list[i].revents == {} {
      LoopKeeps(p, i + 1, replies, bound);
    } else {
      var (q, rest, removed) := Serve(p, i, replies);
      ServeShrinks(p, i, replies);
      TurnReported(p, i, replies);
      TurnKeeps(p, i, replies, bound);
      var j := if removed then i else i + 1;
      LoopKeeps(q, j, rest, bound);
      GoneMore(Served(p.list[i].id, p.list[i].fd, BranchOf(p.list[i].revents), removed), Loop(q, j, rest).1, p.closed);
    }
  }

  lemma NothingGone()
    ensures Gone([]) == {}
  {}

  /** An entry with nothing reported is left exactly as it is. */
  lemma {:induction false} QuietStay(p: Poll, i: nat, replies: seq<Reply>)
    requires i <= |p.list|
    ensures i <= |Loop(p, i, replies).0.list|
    ensures forall k | 0 <= k < i :: Loop(p, i, replies).0.list[k] == p.list[k]
    ensures forall k | i <= k < |p.list| && p.list[k].revents == {} :: p.list[k] in Loop(p, i, replies).0.list
    decreases Pending(p.list, i), |p.list| - i
  {
    hide Serve;
    if i == |p.list| {
    } else if p.list[i].revents == {} {
      QuietStay(p, i + 1, replies);
    } else {
      var (q, rest, removed) := Serve(p, i, replies);
      var x := ServeIs(p, i, replies);
      ServeShrinks(p, i, replies);
      var j := if removed then i else i + 1;
      QuietStay(q, j, rest);
      forall k | i <= k < |p.list| && p.list[k].revents == {}
        ensures p.list[k] in Loop(q, j, rest).0.list
      {
        var n := |x.list| - 1;
        assert q.list[if removed && k == n then i else k] == p.list[k];
      }
    }
  }

  predicate Ends(b: Branch) { b != In && b != Out }

  /** What the n-th call of a handler does. */
  function ReplyAt(replies: seq<Reply>, n: nat): Reply
  {
    if n < |replies| then replies[n] else First([])
  }

  /** A turn takes its own replies and leaves the rest. */
  lemma ServeTakes(p: Poll, i: nat, replies: seq<Reply>, n: nat)
    requires i < |p.list|
    ensures var (_, rest, removed) := Serve(p, i, replies);
            var b := BranchOf(p.list[i].revents);
            (removed <==> Ends(b) || ReplyAt(replies, 0).closing) &&
            ReplyAt(rest, n) == ReplyAt(replies, |CallsOf(p.list[i].id, b)| + n)
  {
    hide Invoke, RemoveAt;
  }

  /** The handler call that the k-th entry served begins with. */
  function CallOf(vs: seq<Served>, k: nat): nat
    requires k <= |vs|
  {
    |CallsFor(vs[..k])|
  }

  /** Each entry served was removed for its event, or on the request of the handler call it began with. */
  ghost predicate RemovedAsAsked(vs: seq<Served>, replies: seq<Reply>)
  {
    forall k | 0 <= k < |vs| :: vs[k].removed <==> Ends(vs[k].branch) || ReplyAt(replies, CallOf(vs, k)).closing
  }

  lemma AskedMore(v: Served, more: seq<Served>, replies: seq<Reply>, rest: seq<Reply>)
    requires v.removed <==> Ends(v.branch) || ReplyAt(replies, 0).closing
    requires forall n: nat :: ReplyAt(rest, n) == ReplyAt(replies, |CallsOf(v.id, v.branch)| + n)
    requires RemovedAsAsked(more, rest)
    ensures RemovedAsAsked([v] + more, replies)
  {
    hide CallsOf, ReplyAt;
    var vs := [v] + more;
    forall k | 0 <= k < |vs|
      ensures vs[k].removed <==> Ends(vs[k].branch) || ReplyAt(replies, CallOf(vs, k)).closing
    {
      if k == 0 {
        assert vs[..0] == [];
      } else {
        assert vs[..k] == [v] + more[..k - 1];
        CallsMore(v, more[..k - 1], []);
        assert ReplyAt(rest, CallOf(more, k - 1)) == ReplyAt(replies, CallOf(vs, k));
        assert vs[k] == more[k - 1];
      }
    }
  }

  /**
    Hang-up, error and unknown events remove their entry; any other exactly on the request of the very
    handler call it led to.
  */
  lemma {:induction false} LoopRemoves(p: Poll, i: nat, replies: seq<Reply>)
    requires i <= |p.list|
    ensures RemovedAsAsked(Loop(p, i, replies).1, replies)
    decreases Pending(p.list, i), |p.list| - i
  {
    hide Serve, RemovedAsAsked, CallsOf, ReplyAt;
    if i == |p.list| {
      NothingAsked(replies);
    } else if p.list[i].revents == {} {
      LoopRemoves(p, i + 1, replies);
    } else {
      var (q, rest, removed) := Serve(p, i, replies);
      ServeShrinks(p, i, replies);
      var j := if removed then i else i + 1;
      LoopRemoves(q, j, rest);
      forall n: nat
        ensures ReplyAt(rest, n) == ReplyAt(replies, |CallsOf(p.list[i].id, BranchOf(p.list[i].revents))| + n)
      {
        ServeTakes(p, i, replies, n);
      }
      ServeTakes(p, i, replies, 0);
      AskedMore(Served(p.list[i].id, p.list[i].fd, BranchOf(p.list[i].revents), removed), Loop(q, j, rest).1,
                replies, rest);
    }
  }

  lemma NothingAsked(replies: seq<Reply>)
    ensures RemovedAsAsked([], replies)
  {}
}
