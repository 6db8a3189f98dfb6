/** The poll dispatcher of src/dispatcher.c with its own fields, proved against the loop over values. */
module PollLoop {
  import opened PollModel
  import opened PollLaws
  import PollRuns

  /** struct pollfd */
  datatype PollFd = PollFd(fd: int, events: set<Flag>, revents: set<Flag>)

  /** `count`, `max` and the cursor are 32-bit unsigned. */
  const UNSIGNED: nat := 0x1_0000_0000

  /** `i++` and `i--` on a 32-bit unsigned. */
  function Next(i: nat): nat { if i + 1 == UNSIGNED then 0 else i + 1 }

  function Previous(i: nat): nat { if i == 0 then UNSIGNED - 1 else i - 1 }

  /** How many entries the handler calls of one turn add. */
  function TurnAppends(b: Branch, replies: seq<Reply>): nat
  {
    |First(replies).appends| + if b == Error then |First(Rest(replies)).appends| else 0
  }

  /** No entry that the loop adds from cursor i on makes the capacity wrap around. */
  ghost predicate LoopFits(p: Poll, i: nat, replies: seq<Reply>)
    requires i <= |p.list|
    decreases Pending(p.list, i), |p.list| - i
  {
    if i == |p.list| then true
    else if p.list[i].revents == {} then LoopFits(p, i + 1, replies)
    else
      var (q, rest, removed) := Serve(p, i, replies);
      ServeShrinks(p, i, replies);
      |p.list| + TurnAppends(BranchOf(p.list[i].revents), replies) + 1 < UNSIGNED &&
      LoopFits(q, if removed then i else i + 1, rest)
  }

  function Filled(list: seq<PollFd>, reported: seq<set<Flag>>): seq<PollFd>
    requires |reported| <= |list|
  {
    seq(|reported|, k requires 0 <= k < |reported| => list[k].(revents := reported[k])) + list[|reported|..]
  }

  class Dispatcher {
    var list: seq<PollFd>
    var count: nat
    var max: nat
    ghost var view: Poll

    /** There is always room for one entry more, so that adding one never writes past the end. */
    ghost predicate Valid()
      reads this
    {
      |list| == max < UNSIGNED && count < max && |view.list| == count && Distinct(view) &&
      forall k | 0 <= k < count ::
        list[k] == PollFd(view.list[k].fd, view.list[k].events, view.list[k].revents)
    }

    /** dispatcher_create */
    constructor (junk: PollFd)
      ensures Valid() && view == EMPTY && max == 1
    {
      max, count := 1, 0;
      list := [junk];
      view := EMPTY;
    }

    /** dispatcher_add_connection, as far as the poll list goes; `junk` is what realloc() leaves in new memory. */
    method AddConnection(fd: int, junk: PollFd)
      requires Valid() && count + 2 < 0x1_0000_0000
      modifies this
      ensures Valid() && view == Append(old(view), fd) && count == old(count) + 1
      ensures max == if old(count) + 1 < old(max) then old(max) else old(max) + 1
    {
      list := list[count := PollFd(fd, {POLLIN}, {})];
      count := count + 1;
      if count >= max {
        max := max + 1;
        list := list + [junk];
      }
      view := Append(view, fd);
    }

    /** dispatcher_set_event */
    method SetEvent(index: nat, state: Interest)
      requires Valid() && index < count
      modifies this`list, this`view
      ensures Valid() && view == PollModel.SetEvent(old(view), index, state)
    {
      match state {
        case Readable => list := list[index := list[index].(events := {POLLIN}, revents := {})];
        case Writeable => list := list[index := list[index].(events := {POLLOUT}, revents := {})];
      }
      view := PollModel.SetEvent(view, index, state);
    }

    /** dispatcher_remove_at */
    method RemoveAt(index: nat)
      requires Valid() && index < count
      modifies this
      ensures Valid() && view == PollModel.RemoveAt(old(view), index) && max == old(max)
    {
      ghost var closed := view.closed;
      if list[index].fd > 0 {
        closed := closed + [list[index].fd];
        list := list[index := list[index].(fd := -1)];
      }
      var end := count - 1;
      if end > index {
        list := list[index := list[end]];
      }
      count := count - 1;
      DistinctSwapped(view, index);
      view := PollModel.RemoveAt(view, index);
      assert view.closed == closed;
    }

    /** dispatcher_destroy, up to the freeing of the dispatcher itself. */
    method Destroy()
      requires Valid()
      modifies this
      ensures Valid() && count == 0 && view == PollRuns.Destroy(old(view))
    {
      while count > 0
        invariant Valid() && PollRuns.Destroy(view) == PollRuns.Destroy(old(view))
      {
        RemoveAt(count - 1);
      }
    }

    /** A call of entry i's handler, which acts on the dispatcher through the two operations above. */
    method Invoke(i: nat, event: Event, r: Reply, junk: PollFd)
      requires Valid() && i < count && count + |r.appends| + 1 < UNSIGNED
      modifies this
      ensures Valid() && view == PollModel.Invoke(old(view), i, event, r)
      ensures count == old(count) + |r.appends|
    {
      ghost var goal := PollModel.Invoke(view, i, event, r);
      view := view.(calls := view.calls + [Call(view.list[i].id, event)]);
      if r.interest.Some? {
        SetEvent(i, r.interest.value);
      }
      var k := 0;
      while k < |r.appends|
        invariant k <= |r.appends| && Valid() && count == old(count) + k
        invariant AppendAll(view, r.appends[k..]) == goal
      {
        AddConnection(r.appends[k], junk);
        k := k + 1;
      }
    }

    /** The branch taken for entry i; tells whether the entry was removed. */
    method Handle(i: nat, replies: seq<Reply>, junk: PollFd) returns (rest: seq<Reply>, removed: bool)
      requires Valid() && i < count && list[i].revents != {}
      requires count + TurnAppends(BranchOf(list[i].revents), replies) + 1 < UNSIGNED
      modifies this
      ensures Valid() && (view, rest, removed) == Serve(old(view), i, replies)
    {
      hide PollModel.Invoke, PollModel.RemoveAt, Distinct;
      var r := First(replies);
      rest := Rest(replies);
      ghost var p := view;
      var revents := list[i].revents;
      if POLLHUP in revents {
        InvokeKeeps(p, i, CLOSED, r);
        Invoke(i, CLOSED, r, junk);
        RemoveAt(i);
        removed := true;
      } else if POLLERR in revents {
        InvokeKeeps(p, i, ERRORED, r);
        Invoke(i, ERRORED, r, junk);
        InvokeKeeps(view, i, CLOSED, First(rest));
        Invoke(i, CLOSED, First(rest), junk);
        RemoveAt(i);
        removed, rest := true, Rest(rest);
      } else if POLLIN in revents {
        InvokeKeeps(p, i, READABLE, r);
        Invoke(i, READABLE, r, junk);
        if r.closing {
          RemoveAt(i);
        }
        removed := r.closing;
      } else if POLLOUT in revents {
        InvokeKeeps(p, i, WRITEABLE, r);
        Invoke(i, WRITEABLE, r, junk);
        if r.closing {
          RemoveAt(i);
        }
        removed := r.closing;
      } else {
        InvokeKeeps(p, i, CLOSED, r);
        Invoke(i, CLOSED, r, junk);
        RemoveAt(i);
        removed := true;
      }
    }

    /**
      dispatcher_dispatch. `err` and `reported` are what poll() returns and writes, `interrupted`
      whether errno is EINTR, and `replies` what the handlers do, call by call.
    */
    method Dispatch(err: int, interrupted: bool, reported: seq<set<Flag>>, replies: seq<Reply>, junk: PollFd)
      returns (status: int, ghost served: seq<Served>)
      requires Valid() && |reported| == count
      requires err != -1 && err != 0 ==> LoopFits(view.(list := WithReported(view.list, reported)), 0, replies)
      modifies this
      ensures Valid()
      ensures status == if old(count) == 0 || (err == -1 && !interrupted) then -1 else 0
      ensures old(count) == 0 || err == -1 ==> view == old(view) && served == []
      ensures old(count) > 0 && err != -1 ==>
                var start := old(view).(list := WithReported(old(view).list, reported));
                (view, served) == if err == 0 then (start, []) else Loop(start, 0, replies)
    {
      hide Loop, LoopFits, TurnAppends, Serve, Pending, Distinct, Reported, BranchOf;
      served := [];
      if count == 0 {
        return -1, served;
      }
      if err == -1 {
        return if interrupted then 0 else -1, served;
      }
      ReportedDistinct(view, reported);
      list := Filled(list, reported);
      view := view.(list := WithReported(view.list, reported));
      if err == 0 {
        return 0, served;
      }
      ghost var start := view;
      assert [] + Loop(start, 0, replies).1 == Loop(start, 0, replies).1;
      var i: nat, rest := 0, replies;
      while i < count
        invariant Valid() && i <= count && LoopFits(view, i, rest)
        invariant Loop(start, 0, replies).0 == Loop(view, i, rest).0
        invariant Loop(start, 0, replies).1 == served + Loop(view, i, rest).1
        decreases Pending(view.list, i), count - i
      {
        LoopTurn(view, i, rest);
        if list[i].revents != {} {
          ghost var s := view.list[i];
          var removed;
          rest, removed := Handle(i, rest, junk);
          served := served + [Served(s.id, s.fd, BranchOf(s.revents), removed)];
          if removed {
            i := Previous(i);
          }
        }
        i := Next(i);
      }
      LoopTurn(view, i, rest);
      assert served + [] == served;
      status := 0;
    }
  }

  /** Loop and LoopFits, one turn unrolled. */
  lemma LoopTurn(p: Poll, i: nat, replies: seq<Reply>)
    requires i <= |p.list|
    ensures i == |p.list| ==> Loop(p, i, replies) == (p, [])
    ensures i < |p.list| && p.list[i].revents == {} ==>
              Loop(p, i, replies) == Loop(p, i + 1, replies) && Pending(p.list, i + 1) == Pending(p.list, i) &&
              LoopFits(p, i, replies) == LoopFits(p, i + 1, replies)
    ensures i < |p.list| && p.list[i].revents != {} ==>
      var (q, rest, removed) := Serve(p, i, replies);
      var j := if removed then i else i + 1;
      j <= |q.list| && Pending(q.list, j) < Pending(p.list, i) &&
      (LoopFits(p, i, replies) <==>
        |p.list| + TurnAppends(BranchOf(p.list[i].revents), replies) + 1 < UNSIGNED && LoopFits(q, j, rest)) &&
      Loop(p, i, replies).0 == Loop(q, j, rest).0 &&
      Loop(p, i, replies).1 ==
        [Served(p.list[i].id, p.list[i].fd, BranchOf(p.list[i].revents), removed)] + Loop(q, j, rest).1
  {
    hide Serve, BranchOf;
    if i < |p.list| && p.list[i].revents != {} {
      ServeShrinks(p, i, replies);
    }
  }

  lemma ReportedDistinct(p: Poll, reported: seq<set<Flag>>)
    requires Distinct(p) && |p.list| == |reported|
    ensures Distinct(p.(list := WithReported(p.list, reported)))
  {}
}
