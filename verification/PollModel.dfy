/** The poll loop of src/dispatcher.c over values. Entries carry an identity that the C list lacks. */
module PollModel {
  import opened Wrappers

  /** A bit of `events` or `revents`; POLLOTHER stands for the bits the loop does not test. */
  datatype Flag = POLLIN | POLLOUT | POLLERR | POLLHUP | POLLOTHER

  datatype Interest = Readable | Writeable

  datatype Event = READABLE | WRITEABLE | ERRORED | CLOSED

  /** What a call of the handler does: connections it adds, the event it sets for itself, a request to close. */
  datatype Reply = Reply(appends: seq<int>, interest: Option<Interest>, closing: bool)

  datatype Slot = Slot(id: nat, fd: int, events: set<Flag>, revents: set<Flag>)

  datatype Call = Call(id: nat, event: Event)

  /** The list, with every call made, descriptor added and descriptor closed so far. */
  datatype Poll = Poll(list: seq<Slot>, nextId: nat, calls: seq<Call>, added: seq<int>, closed: seq<int>)

  /** dispatcher_create */
  const EMPTY := Poll([], 0, [], [], [])

  /** The branches of the loop, in the order in which the bits are tested. */
  datatype Branch = HangUp | Error | In | Out | Unknown

  /** An entry taken through a branch, and whether that removed it. */
  datatype Served = Served(id: nat, fd: int, branch: Branch, removed: bool)

  function BranchOf(revents: set<Flag>): Branch
  {
    if POLLHUP in revents then HangUp
    else if POLLERR in revents then Error
    else if POLLIN in revents then In
    else if POLLOUT in revents then Out
    else Unknown
  }

  function EventsFor(interest: Interest): set<Flag>
  {
    match interest
    case Readable => {POLLIN}
    case Writeable => {POLLOUT}
  }

  // ---------- operations ----------

  /** dispatcher_add_connection: watched for reading, nothing reported yet. */
  function Append(p: Poll, fd: int): Poll
  {
    p.(list := p.list + [Slot(p.nextId, fd, {POLLIN}, {})], nextId := p.nextId + 1, added := p.added + [fd])
  }

  function AppendAll(p: Poll, fds: seq<int>): Poll
    decreases fds
  {
    if fds == [] then p else AppendAll(Append(p, fds[0]), fds[1..])
  }

  /** dispatcher_set_event */
  function SetEvent(p: Poll, i: nat, interest: Interest): Poll
    requires i < |p.list|
  {
    p.(list := p.list[i := p.list[i].(events := EventsFor(interest), revents := {})])
  }

  /** One call of the handler of entry i. */
  function Invoke(p: Poll, i: nat, event: Event, r: Reply): Poll
    requires i < |p.list|
  {
    var q := p.(calls := p.calls + [Call(p.list[i].id, event)]);
    AppendAll(match r.interest case None => q case Some(s) => SetEvent(q, i, s), r.appends)
  }

  /** dispatcher_remove_at */
  function RemoveAt(p: Poll, i: nat): Poll
    requires i < |p.list|
  {
    var last := |p.list| - 1;
    p.(list := p.list[i := p.list[last]][..last],
       closed := p.closed + if p.list[i].fd > 0 then [p.list[i].fd] else [])
  }

  /** What poll() writes; no bits where it has nothing to say. */
  function WithReported(list: seq<Slot>, reported: seq<set<Flag>>): seq<Slot>
  {
    seq(|list|, k requires 0 <= k < |list| =>
          list[k].(revents := if k < |reported| then reported[k] else {}))
  }

  function First(replies: seq<Reply>): Reply
  {
    if replies == [] then Reply([], None, false) else replies[0]
  }

  function Rest(replies: seq<Reply>): seq<Reply>
  {
    if replies == [] then [] else replies[1..]
  }

  /** One turn of the loop on an entry with something reported: new state, replies left, removed or not. */
  function Serve(p: Poll, i: nat, replies: seq<Reply>): (Poll, seq<Reply>, bool)
    requires i < |p.list|
  {
    var r := First(replies);
    match BranchOf(p.list[i].revents)
    case HangUp =>
      var q := Invoke(p, i, CLOSED, r);
      InvokeKeeps(p, i, CLOSED, r);
      (RemoveAt(q, i), Rest(replies), true)
    case Error =>
      var q := Invoke(p, i, ERRORED, r);
      InvokeKeeps(p, i, ERRORED, r);
      var q' := Invoke(q, i, CLOSED, First(Rest(replies)));
      InvokeKeeps(q, i, CLOSED, First(Rest(replies)));
      (RemoveAt(q', i), Rest(Rest(replies)), true)
    case In =>
      var q := Invoke(p, i, READABLE, r);
      InvokeKeeps(p, i, READABLE, r);
      (if r.closing then RemoveAt(q, i) else q, Rest(replies), r.closing)
    case Out =>
      var q := Invoke(p, i, WRITEABLE, r);
      InvokeKeeps(p, i, WRITEABLE, r);
      (if r.closing then RemoveAt(q, i) else q, Rest(replies), r.closing)
    case Unknown =>
      var q := Invoke(p, i, CLOSED, r);
      InvokeKeeps(p, i, CLOSED, r);
      (RemoveAt(q, i), Rest(replies), true)
  }

  /** How many entries from i on have something reported. */
  function Pending(list: seq<Slot>, i: nat): nat
    requires i <= |list|
    decreases |list| - i
  {
    if i == |list| then 0 else (if list[i].revents == {} then 0 else 1) + Pending(list, i + 1)
  }

  /** The loop from cursor i, and what it served. Nothing pending and no entry left: the measure. */
  function Loop(p: Poll, i: nat, replies: seq<Reply>): (Poll, seq<Served>)
    requires i <= |p.list|
    decreases Pending(p.list, i), |p.list| - i
  {
    if i == |p.list| then (p, [])
    else if p.list[i].revents == {} then Loop(p, i + 1, replies)
    else
      var (q, rest, removed) := Serve(p, i, replies);
      ServeShrinks(p, i, replies);
      var (p', more) := Loop(q, if removed then i else i + 1, rest);
      (p', [Served(p.list[i].id, p.list[i].fd, BranchOf(p.list[i].revents), removed)] + more)
  }

  // ---------- what a handler and a removal leave alone ----------

  /** q extends p's list by entries with nothing reported, and differs in entry i at most by its events. */
  ghost predicate Extends(q: Poll, p: Poll, i: nat)
  {
    i < |p.list| <= |q.list| && q.nextId == p.nextId + (|q.list| - |p.list|) && q.closed == p.closed &&
    q.list[i].id == p.list[i].id && q.list[i].fd == p.list[i].fd &&
    (forall k | 0 <= k < |p.list| && k != i :: q.list[k] == p.list[k]) &&
    p.added <= q.added && |q.added| - |p.added| == |q.list| - |p.list| &&
    forall k | |p.list| <= k < |q.list| ::
      q.list[k] == Slot(p.nextId + (k - |p.list|), q.added[|p.added| + (k - |p.list|)], {POLLIN}, {})
  }

  lemma {:induction false} AppendAllKeeps(p: Poll, fds: seq<int>)
    ensures var q := AppendAll(p, fds);
            |q.list| == |p.list| + |fds| && p.list <= q.list && q.nextId == p.nextId + |fds| &&
            q.closed == p.closed && q.calls == p.calls && q.added == p.added + fds &&
            forall k | |p.list| <= k < |q.list| ::
              q.list[k] == Slot(p.nextId + (k - |p.list|), fds[k - |p.list|], {POLLIN}, {})
    decreases fds
  {
    if fds == [] {
    } else {
      AppendAllKeeps(Append(p, fds[0]), fds[1..]);
    }
  }

  lemma InvokeKeeps(p: Poll, i: nat, event: Event, r: Reply)
    requires i < |p.list|
    ensures Extends(Invoke(p, i, event, r), p, i)
    ensures |Invoke(p, i, event, r).list| == |p.list| + |r.appends|
    ensures r.interest.Some? ==>
              Invoke(p, i, event, r).list[i].events == EventsFor(r.interest.value) &&
              Invoke(p, i, event, r).list[i].revents == {}
    ensures r.interest.None? ==> Invoke(p, i, event, r).list[i] == p.list[i]
    ensures Invoke(p, i, event, r).added == p.added + r.appends
    ensures Invoke(p, i, event, r).calls == p.calls + [Call(p.list[i].id, event)]
  {
    var q := p.(calls := p.calls + [Call(p.list[i].id, event)]);
    var q' := match r.interest case None => q case Some(s) => SetEvent(q, i, s);
    AppendAllKeeps(q', r.appends);
  }

  /** The calls that a branch makes. */
  function CallsOf(id: nat, b: Branch): seq<Call>
  {
    match b
    case HangUp => [Call(id, CLOSED)]
    case Error => [Call(id, ERRORED), Call(id, CLOSED)]
    case In => [Call(id, READABLE)]
    case Out => [Call(id, WRITEABLE)]
    case Unknown => [Call(id, CLOSED)]
  }

  /** A turn is the branch's calls on an extended list, then perhaps the removal of entry i. */
  lemma ServeIs(p: Poll, i: nat, replies: seq<Reply>) returns (q: Poll)
    requires i < |p.list|
    ensures Extends(q, p, i)
    ensures BranchOf(p.list[i].revents) == In ==> q == Invoke(p, i, READABLE, First(replies))
    ensures BranchOf(p.list[i].revents) == Out ==> q == Invoke(p, i, WRITEABLE, First(replies))
    ensures var (q', _, removed) := Serve(p, i, replies);
            q'.calls == p.calls + CallsOf(p.list[i].id, BranchOf(p.list[i].revents)) &&
            q'.nextId == q.nextId && q'.added == q.added && q'.list == (if removed then RemoveAt(q, i) else q).list &&
            q'.closed == (if removed then RemoveAt(q, i) else q).closed
  {
    var r := First(replies);
    match BranchOf(p.list[i].revents) {
      case Error =>
        InvokeKeeps(p, i, ERRORED, r);
        InvokeKeeps(Invoke(p, i, ERRORED, r), i, CLOSED, First(Rest(replies)));
        q := Invoke(Invoke(p, i, ERRORED, r), i, CLOSED, First(Rest(replies)));
      case In =>
        InvokeKeeps(p, i, READABLE, r);
        q := Invoke(p, i, READABLE, r);
      case Out =>
        InvokeKeeps(p, i, WRITEABLE, r);
        q := Invoke(p, i, WRITEABLE, r);
      case _ =>
        InvokeKeeps(p, i, CLOSED, r);
        q := Invoke(p, i, CLOSED, r);
    }
  }

  // ---------- termination ----------

  lemma {:induction false} PendingSame(a: seq<Slot>, b: seq<Slot>, i: nat)
    requires i <= |a| <= |b|
    requires forall k | i <= k < |a| :: a[k].revents == b[k].revents
    requires forall k | |a| <= k < |b| :: b[k].revents == {}
    ensures Pending(b, i) == Pending(a, i)
    decreases |b| - i
  {
    if i == |a| {
      PendingNone(b, i);
    } else {
      PendingSame(a, b, i + 1);
    }
  }

  lemma {:induction false} PendingNone(b: seq<Slot>, i: nat)
    requires i <= |b| && forall k | i <= k < |b| :: b[k].revents == {}
    ensures Pending(b, i) == 0
    decreases |b| - i
  {
    if i == |b| {
    } else {
      PendingNone(b, i + 1);
    }
  }

  lemma {:induction false} PendingLast(a: seq<Slot>, i: nat)
    requires i < |a|
    ensures Pending(a, i) == Pending(a[..|a| - 1], i) + if a[|a| - 1].revents == {} then 0 else 1
    decreases |a| - i
  {
    if i == |a| - 1 {
    } else {
      PendingLast(a, i + 1);
    }
  }

  /** Dropping entry i by moving the last one there takes one off the count. */
  lemma PendingSwap(a: seq<Slot>, i: nat)
    requires i < |a|
    ensures Pending(a[i := a[|a| - 1]][..|a| - 1], i) == Pending(a, i + 1)
  {
    var n := |a| - 1;
    var b := a[i := a[n]][..n];
    if i < n {
      PendingLast(a, i + 1);
      PendingSame(a[..n], b, i + 1);
    }
  }

  /** Serving an entry leaves one less to serve. */
  lemma ServeShrinks(p: Poll, i: nat, replies: seq<Reply>)
    requires i < |p.list| && p.list[i].revents != {}
    ensures var (q, _, removed) := Serve(p, i, replies);
            (if removed then i else i + 1) <= |q.list| &&
            Pending(q.list, if removed then i else i + 1) < Pending(p.list, i)
  {
    var q := ServeIs(p, i, replies);
    PendingSame(p.list, q.list, i + 1);
    PendingSwap(q.list, i);
  }
}
