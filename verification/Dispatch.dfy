/** The dispatcher of src/dispatch.c on the heap, proved against the table as a value. */
module Dispatch {
  import opened Bits
  import opened Ticks
  import opened TimingWheel
  import opened Wrappers
  import opened WheelLaws
  import opened WheelWord
  import opened IntrusiveList
  import opened TimeoutRing
  import opened Table
  import opened TableLaws
  import opened TableRuns
  import AllocGuard

  /** offsetof() the three timers inside struct dispatcher_connection, with 64-bit pointers. */
  const OFFSET_INACTIVITY: nat := 48
  const OFFSET_SLEEP: nat := 80
  const OFFSET_RECEIVE: nat := 112

  /** sizeof() an element of the array of connections. */
  const ELEMENT_SIZE: nat := 8

  /** The ring of event-timeout.c has 1024*1024 slots. */
  const RING_BITS: nat := 20

  /** dispatcher_connection. In the table a connection goes by its inactivity timer. */
  class Connection {
    const address: nat
    var index: nat
    var fd: int
    const inactivity: Entry
    const sleep: Entry
    const receive: Entry

    constructor (address: nat)
      ensures this.address == address && index == fd == 0
      ensures fresh(inactivity) && fresh(sleep) && fresh(receive)
      ensures inactivity != sleep && inactivity != receive && sleep != receive
      ensures inactivity.Unlinked() && sleep.Unlinked() && receive.Unlinked()
      ensures inactivity.address == address + OFFSET_INACTIVITY
    {
      this.address := address;
      index, fd := 0, 0;
      inactivity := new Entry(address + OFFSET_INACTIVITY);
      sleep := new Entry(address + OFFSET_SLEEP);
      receive := new Entry(address + OFFSET_RECEIVE);
    }

    ghost function Parts(): set<object>
    {
      {this, inactivity, sleep, receive}
    }

    ghost predicate Within(parts: set<object>)
    {
      this in parts && inactivity in parts && sleep in parts && receive in parts
    }
  }

  /** How dispatcher_dispatch ends: with a status, or at the first use of a ring that was never created. */
  datatype Exit = Returned(status: int) | NullRing

  /** dispatcher_service: what the dispatcher reads of it here is the timeout, in seconds. */
  datatype Service = Service(timeout: nat)

  /**
    What select(), accept(), getnameinfo(), the allocator and the clock report for one listening
    service: nothing to do, no descriptor, a peer without a name, or a peer with one.
  */
  datatype Arrival = Quiet | Refused | Unnamed(fd: int) | Named(fd: int, address: nat, clock: int)

  /** The inputs that these arrivals at these services amount to, in order. */
  ghost predicate Matches(services: seq<Service>, arrivals: seq<Arrival>, inputs: seq<Input<Entry>>)
    requires |services| == |arrivals|
    decreases |arrivals|
  {
    if arrivals == [] then inputs == [] else
      var n, m := |arrivals| - 1, |inputs| - 1;
      match arrivals[n]
      case Unnamed(fd) =>
        m >= 0 && inputs[m] == AcceptUnnamed(fd) && Matches(services[..n], arrivals[..n], inputs[..m])
      case Named(fd, _, clock) =>
        m >= 0 && inputs[m].Accept? && inputs[m] == Accept(inputs[m].c, fd, clock, services[n].timeout) &&
        Matches(services[..n], arrivals[..n], inputs[..m])
      case _ => Matches(services[..n], arrivals[..n], inputs)
  }

  /** How many of these arrivals have a descriptor. */
  function AdmittedCount(arrivals: seq<Arrival>): nat
  {
    if arrivals == [] then 0 else
      var n := |arrivals| - 1;
      AdmittedCount(arrivals[..n]) + if arrivals[n].Named? || arrivals[n].Unnamed? then 1 else 0
  }

  /** Each arrival with a descriptor is one input: an unnamed one, or one with the timeout of its own service. */
  lemma {:induction false} EachArrival(services: seq<Service>, arrivals: seq<Arrival>, inputs: seq<Input<Entry>>,
                                       i: nat)
    requires |services| == |arrivals| && Matches(services, arrivals, inputs) && i < |arrivals|
    ensures |inputs| == AdmittedCount(arrivals)
    ensures arrivals[i].Unnamed? ==>
              AdmittedCount(arrivals[..i]) < |inputs| &&
              inputs[AdmittedCount(arrivals[..i])] == AcceptUnnamed(arrivals[i].fd)
    ensures arrivals[i].Named? ==>
              AdmittedCount(arrivals[..i]) < |inputs| &&
              var x := inputs[AdmittedCount(arrivals[..i])];
              x.Accept? && x.fd == arrivals[i].fd && x.clock == arrivals[i].clock && x.timeout == services[i].timeout
    decreases |arrivals|
  {
    var n := |arrivals| - 1;
    var rest := if arrivals[n].Named? || arrivals[n].Unnamed? then inputs[..|inputs| - 1] else inputs;
    if n == 0 {
      assert arrivals[..0] == [];
    } else {
      EachArrival(services[..n], arrivals[..n], rest, if i < n then i else 0);
      if i < n {
        assert arrivals[..n][..i] == arrivals[..i];
      }
    }
  }

  /** How many of these arrivals become connections. */
  function NamedCount(arrivals: seq<Arrival>): nat
  {
    if arrivals == [] then 0 else (if arrivals[0].Named? then 1 else 0) + NamedCount(arrivals[1..])
  }

  /** One arrival more. */
  lemma MatchesMore(services: seq<Service>, arrivals: seq<Arrival>, inputs: seq<Input<Entry>>,
                    svc: Service, a: Arrival, more: seq<Input<Entry>>)
    requires |services| == |arrivals| && Matches(services, arrivals, inputs)
    requires match a
             case Unnamed(fd) => more == [AcceptUnnamed(fd)]
             case Named(fd, _, clock) =>
               |more| == 1 && more[0].Accept? && more[0] == Accept(more[0].c, fd, clock, svc.timeout)
             case _ => more == []
    ensures Matches(services + [svc], arrivals + [a], inputs + more)
  {
    assert (services + [svc])[..|services|] == services && (arrivals + [a])[..|arrivals|] == arrivals;
    assert more == [] ==> inputs + more == inputs;
    assert (inputs + more)[..|inputs|] == inputs;
  }

  /**
    Connection c is row k of the table, can be found again from the address of its timer, and its
    two other timers are idle.
  */
  ghost predicate Row(c: Connection, k: nat, s: Table<Entry>, timers: set<Entry>, memory: map<nat, Connection>)
    reads c, c.inactivity, c.sleep, c.receive
  {
    k < |s.conns| && s.conns[k] == c.inactivity && c.inactivity in timers &&
    c.inactivity in s.records && s.records[c.inactivity].index == c.index == k && s.records[c.inactivity].fd == c.fd &&
    c.address in memory && memory[c.address] == c &&
    c.inactivity.address == c.address + OFFSET_INACTIVITY && c.inactivity.offset == OFFSET_INACTIVITY &&
    c.sleep !in timers && c.receive !in timers && c.sleep.Unlinked() && c.receive.Unlinked()
  }

  ghost predicate Rows(rows: seq<Connection>, s: Table<Entry>, timers: set<Entry>, memory: map<nat, Connection>,
                       parts: set<object>)
    reads parts
  {
    |rows| == |s.conns| &&
    forall k | 0 <= k < |rows| :: rows[k].Within(parts) && Row(rows[k], k, s, timers, memory)
  }

  /** Rows are distinct connections at distinct addresses. */
  lemma RowsDistinct(rows: seq<Connection>, s: Table<Entry>, timers: set<Entry>, memory: map<nat, Connection>,
                     parts: set<object>)
    requires Rows(rows, s, timers, memory, parts)
    ensures forall k, j | 0 <= k < |rows| && 0 <= j < |rows| && k != j ::
              rows[k] != rows[j] && rows[k].address != rows[j].address && rows[k].inactivity != rows[j].inactivity
  {}

  /** RemoveAt, part by part. */
  lemma RemovedParts(s: Table<Entry>, i: nat, missing: set<Entry>)
    requires Linked(s, missing) && i < |s.conns| && missing <= {s.conns[i]}
    ensures s.conns[i] in s.records && s.conns[|s.conns| - 1] in s.records
    ensures var s' := RemoveAt(s, i);
            |s'.conns| == |s.conns| - 1 && s'.wheel == Unlink(s.wheel, s.conns[i]) &&
            s'.trace == s.trace + Farewell(s.conns[i], s.records[s.conns[i]].fd) &&
            s'.records.Keys == s.records.Keys - {s.conns[i]} &&
            Deadlines(s.records) - missing - {s.conns[i]} == Deadlines(s'.records) - {}
  {
    hide Represents, Unlink, Farewell;
    assert forall k | 0 <= k < |s.conns| :: s.conns[k] in s.records;
    var s' := RemoveAt(s, i);
    assert Deadlines(s.records) - missing - {s.conns[i]} == Deadlines(s'.records) - {};
  }

  /** RemoveAt, row by row. */
  lemma RemovedRow(s: Table<Entry>, i: nat, missing: set<Entry>)
    requires Linked(s, missing) && i < |s.conns| && missing <= {s.conns[i]}
    ensures s.conns[i] in s.records && s.conns[|s.conns| - 1] in s.records
    ensures var s' := RemoveAt(s, i);
            |s'.conns| == |s.conns| - 1 && s'.records.Keys == s.records.Keys - {s.conns[i]} &&
            forall k | 0 <= k < |s'.conns| ::
              s'.conns[k] == (if k == i then s.conns[|s.conns| - 1] else s.conns[k]) &&
              s'.conns[k] in s'.records &&
              s'.records[s'.conns[k]].index == k && s'.records[s'.conns[k]].fd == s.records[s'.conns[k]].fd
  {}

  /** The structures allocated are exactly those of these connections. */
  ghost predicate Allocated(m: map<nat, Connection>, rows: seq<Connection>)
  {
    m.Values == (set c | c in rows) && forall a | a in m :: m[a].address == a
  }

  /** AddConnection, part by part. */
  lemma AddedParts(s: Table<Entry>, e: Entry, fd: int, deadline: nat)
    requires Inv(s) && e !in s.records
    ensures |s.wheel.slots| > 0
    ensures var s' := AddConnection(s, e, fd, deadline);
            Inv(s') && |s'.conns| == |s.conns| + 1 && s'.wheel == TimingWheel.Add(s.wheel, e, deadline) &&
            s'.trace == s.trace + [Called(e, NewConnection)] && s'.records.Keys == s.records.Keys + {e} &&
            Deadlines(s'.records) - {} == (Deadlines(s.records) - {})[e := deadline]
  {
    assert |s.wheel.slots| > 0;
    hide Represents;
    AddKeepsInv(s, e, fd, deadline);
    var s' := AddConnection(s, e, fd, deadline);
    assert Deadlines(s'.records) - {} == (Deadlines(s.records) - {})[e := deadline];
  }

  /** Freeing one structure leaves the others. */
  lemma MemoryWithout(rows: seq<Connection>, i: nat, m: map<nat, Connection>)
    requires NoRepeat(rows) && i < |rows| && Allocated(m, rows)
    requires forall c | c in rows :: c.address in m && m[c.address] == c
    ensures Allocated(m - {rows[i].address}, SwapOut(rows, i))
  {
    SwapOutElements(rows, i);
    var m' := m - {rows[i].address};
    forall c | c in SwapOut(rows, i)
      ensures c in m'.Values
    {
      assert c in (set x | x in rows) - {rows[i]};
      assert c.address in m' && m'[c.address] == c;
    }
    forall c | c in m'.Values
      ensures c in (set x | x in SwapOut(rows, i))
    {
      var a :| a in m' && m'[a] == c;
      assert m[a] in m.Values;
    }
  }

  /**
    The last steps of connection_remove: forget the descriptor and drop the three timers, linked or
    not. The rows of the other connections stand.
  */
  method Release(conn: Connection, ghost ring: Timeouts, ghost rows: seq<Connection>, ghost s: Table<Entry>,
                 ghost timers: set<Entry>, ghost memory: map<nat, Connection>, ghost parts: set<object>)
    requires ring.Valid() && (conn.inactivity in ring.deadlines || conn.inactivity.Unlinked())
    requires conn.sleep.Unlinked() && conn.receive.Unlinked()
    requires conn.sleep !in timers && conn.receive !in timers
    requires ring.deadlines.Keys <= timers && conn.inactivity in timers
    requires Rows(rows, s, timers, memory, parts) && conn !in rows && s.records.Keys <= timers - {conn.inactivity}
    requires s.records.Keys <= ring.deadlines.Keys
    modifies conn`fd, ring.Footprint()
    ensures ring.Valid() && ring.view == old(Unlink(ring.view, conn.inactivity))
    ensures ring.deadlines == old(ring.deadlines) - {conn.inactivity}
    ensures Rows(rows, s, s.records.Keys, memory, parts)
  {
    hide Represents, Heads, Members, Unlink, Timeouts.Valid;
    conn.fd := -1;
    TimeoutUnlink(conn.inactivity, ring);
    TimeoutUnlink(conn.sleep, null);
    TimeoutUnlink(conn.receive, null);
    forall k | 0 <= k < |rows|
      ensures Row(rows[k], k, s, s.records.Keys, memory)
    {
      assert old(Row(rows[k], k, s, timers, memory));
    }
  }

  /** Arming the inactivity timer of a new connection leaves the rows of the others standing. */
  method Arm(conn: Connection, ring: Timeouts, expires: nat, ghost rows: seq<Connection>, ghost s: Table<Entry>,
             ghost timers: set<Entry>, ghost memory: map<nat, Connection>, ghost parts: set<object>)
    requires ring.Valid() && conn.inactivity.Unlinked() && conn.inactivity !in ring.deadlines && expires < WORD
    requires conn !in parts && conn.inactivity !in parts
    requires ring.deadlines.Keys == s.records.Keys == timers && Rows(rows, s, timers, memory, parts)
    modifies ring.Footprint(), conn.inactivity
    ensures ring.Valid() && ring.view == old(TimingWheel.Add(ring.view, conn.inactivity, expires))
    ensures ring.deadlines == old(ring.deadlines)[conn.inactivity := expires]
    ensures conn.inactivity.offset == OFFSET_INACTIVITY
    ensures Rows(rows, s, timers, memory, parts)
  {
    hide Represents, Heads, Members, Unlink, TimingWheel.Add, Timeouts.Valid;
    ring.Add(conn.inactivity, OFFSET_INACTIVITY, expires, null);
    forall k | 0 <= k < |rows|
      ensures Row(rows[k], k, s, timers, memory)
    {
      assert old(Row(rows[k], k, s, timers, memory));
    }
  }

  /** timeouts_remove leaves every row standing, that of the connection whose timer it returns included. */
  method TakeExpired(ring: Timeouts, now: nat, ghost rows: seq<Connection>, ghost s: Table<Entry>,
                     ghost timers: set<Entry>, ghost memory: map<nat, Connection>, ghost parts: set<object>)
    returns (r: Option<int>, ghost found: Option<Entry>, ghost moves: nat)
    requires ring.Valid() && now < WORD - 1 && ring.view == s.wheel
    requires ring.deadlines.Keys == timers && Rows(rows, s, timers, memory, parts)
    modifies ring.Footprint()
    ensures |s.wheel.slots| > 0
    ensures ring.Valid() && (ring.view, found) == TimingWheel.Remove(s.wheel, now)
    ensures ring.deadlines == if found.Some? then old(ring.deadlines) - {found.value} else old(ring.deadlines)
    ensures found.Some? ==> found.value.Unlinked()
    ensures r == if found.Some? then Some(found.value.address - found.value.offset) else None
    ensures s.wheel.hand + moves == ring.view.hand
    ensures Rows(rows, s, timers, memory, parts)
  {
    hide Represents, Heads, Members, Unlink, TimingWheel.Remove, Timeouts.Valid, RemoveWord, WrapsScan, Moves;
    NotEmpty(ring);
    RemoveWordIs(s.wheel, now);
    MovesBelowLast(s.wheel, now, ring);
    r, found, moves := ring.Remove(now);
    assert Rows(rows, s, timers, memory, parts) by {
      forall k | 0 <= k < |rows|
        ensures Row(rows[k], k, s, timers, memory)
      {
        assert old(Row(rows[k], k, s, timers, memory));
      }
    }
  }

  lemma MovesBelowLast(w: Wheel<Entry>, now: nat, ring: Timeouts)
    requires ring.Valid() && ring.view == w && now < WORD - 1
    ensures |w.slots| > 0 && w.hand < WORD && w.hand + Moves(w, now) == TimingWheel.Remove(w, now).0.hand
  {
    MovesAre(w, now);
  }

  lemma RemoveWordIs(w: Wheel<Entry>, now: nat)
    requires |w.slots| > 0 && now < WORD - 1
    ensures RemoveWord(w, now) == TimingWheel.Remove(w, now)
  {}

  /** The connection around a timer is found at the timer's address less its offset. */
  lemma ContainerOf(rows: seq<Connection>, s: Table<Entry>, memory: map<nat, Connection>, parts: set<object>, e: Entry)
    requires Rows(rows, s, s.records.Keys, memory, parts) && Indexed(s, e)
    ensures e.address >= e.offset && e.address - e.offset in memory
    ensures var c := memory[e.address - e.offset];
            c.inactivity == e && c.index == s.records[e].index < |rows| && rows[c.index] == c
  {
    var k := s.records[e].index;
    assert Row(rows[k], k, s, s.records.Keys, memory);
  }

  lemma RowsLength(rows: seq<Connection>, s: Table<Entry>, timers: set<Entry>, memory: map<nat, Connection>,
                   parts: set<object>)
    requires Rows(rows, s, timers, memory, parts)
    ensures |rows| == |s.conns|
  {}

  /** One row more. */
  lemma RowsMore(rows: seq<Connection>, conn: Connection, s: Table<Entry>, deadline: nat,
                 memory: map<nat, Connection>, parts: set<object>)
    requires |s.wheel.slots| > 0 && Rows(rows, s, s.records.Keys, memory, parts)
    requires conn.address !in memory && conn.Parts() !! parts && s.records.Keys <= parts
    requires conn.index == |rows| && conn.inactivity.offset == OFFSET_INACTIVITY
    requires conn.inactivity.address == conn.address + OFFSET_INACTIVITY
    requires conn.inactivity != conn.sleep && conn.inactivity != conn.receive
    requires conn.sleep.Unlinked() && conn.receive.Unlinked()
    ensures var s' := AddConnection(s, conn.inactivity, conn.fd, deadline);
            Rows(rows + [conn], s', s'.records.Keys, memory[conn.address := conn], parts + conn.Parts())
  {}

  lemma MemoryMore(m: map<nat, Connection>, rows: seq<Connection>, conn: Connection)
    requires Allocated(m, rows) && conn.address !in m
    ensures Allocated(m[conn.address := conn], rows + [conn])
  {
    var m' := m[conn.address := conn];
    forall c | c in rows + [conn]
      ensures c in m'.Values
    {
      if c == conn {
        assert m'[conn.address] == c;
      } else {
        assert c in m.Values;
        var a :| a in m && m[a] == c;
        assert m'[a] == c;
      }
    }
    assert forall c | c in m'.Values :: c == conn || c in m.Values;
  }

  /** The structures of m, at the same addresses, are among those of m'. */
  ghost predicate KeptIn(m: map<nat, Connection>, m': map<nat, Connection>)
  {
    forall a | a in m :: a in m' && m[a] == m'[a]
  }

  /** No two named arrivals are given the same address. */
  predicate Apart(arrivals: seq<Arrival>)
  {
    forall i, j | 0 <= i < j < |arrivals| && arrivals[i].Named? && arrivals[j].Named? ::
      arrivals[i].address != arrivals[j].address
  }

  /** A timer that the trace does not mention has had no callback. */
  lemma {:induction false} Unheard(trace: seq<Effect<Entry>>, c: Entry)
    requires forall k | 0 <= k < |trace| && trace[k].Called? :: trace[k].c != c
    ensures PhaseOf(trace, c) == Unborn
  {
    if trace == [] {
    } else {
      Unheard(trace[..|trace| - 1], c);
    }
  }

  lemma RingSlots()
    ensures Pow2(RING_BITS) == 1024 * 1024
  {
    hide Pow2;
    Pow2Nibble();
    Pow2Add(4, 4);
    Pow2Add(8, 8);
    Pow2Add(16, 4);
  }

  /** The guard stops an array of pointers from the size on that a size_t holds just so. */
  lemma ArrayLimit(count: nat)
    ensures AllocGuard.Aborts(32, count, ELEMENT_SIZE) <==> count >= 0x1FFF_FFFF_FFFF_FFFF
  {
    AllocGuard.Limits64();
  }

  lemma RingFields(ring: Timeouts)
    requires ring.Valid()
    ensures ring.slots.Length == ring.mask + 1 == Pow2(ring.bits) && ring.currentIndex == ring.view.hand
  {}

  lemma InSeconds(clock: int)
    ensures 0 <= clock < 0x4_0000_0000_0000 ==> TimestampFromTv(clock, 0) == clock * 16384
  {
    WrappedTicks(clock, 0);
  }

  /** No connections take no room. */
  lemma NoneFits()
    ensures !AllocGuard.Aborts(32, 0, ELEMENT_SIZE)
  {
    Pow2Grows(32);
  }

  class Dispatcher {
    var connections: seq<Connection>
    var connectionCount: nat
    const inactivity: Timeouts

    /** The ring that timeout_sleep and timeout_receive both pass to timeouts_remove. */
    const sleep: Timeouts?

    /** The connection structures allocated and not freed, by address. */
    var memory: map<nat, Connection>

    ghost var table: Table<Entry>
    ghost var trace: seq<Effect<Entry>>

    /** The connection structures in use, their timers included. */
    ghost var parts: set<object>

    ghost function Repr(): set<object>
      reads this
    {
      {this, inactivity, inactivity.slots} + parts
    }

    /** Everything in order, but that the timers in `missing` have already left the ring. */
    ghost predicate ValidBut(missing: set<Entry>)
      reads this, Repr()
    {
      parts !! {this, inactivity, inactivity.slots} && inactivity.deadlines.Keys <= parts &&
      !AllocGuard.Aborts(32, connectionCount, ELEMENT_SIZE) &&
      connectionCount <= |connections| && Allocated(memory, connections[..connectionCount]) &&
      Rows(connections[..connectionCount], table, table.records.Keys, memory, parts) &&
      inactivity.Valid() && table.wheel == inactivity.view && table.trace == trace &&
      inactivity.deadlines == Deadlines(table.records) - missing &&
      Linked(table, missing)
    }

    ghost predicate Valid()
      reads this, Repr()
    {
      ValidBut({})
    }

    ghost function SleepRepr(): set<object>
      reads this, sleep
    {
      if sleep == null then {} else sleep.Footprint()
    }

    /** No timer is ever set in the sleep ring. */
    ghost predicate SleepEmpty()
      reads this, sleep, SleepRepr()
    {
      SleepRepr() !! Repr() && (sleep != null ==> sleep.Valid() && sleep.deadlines == map[])
    }

    /** dispatcher_create, which leaves the sleep ring null. */
    constructor (clock: int)
      ensures Valid() && table == Created(Pow2(RING_BITS), clock)
      ensures inactivity.slots.Length == 1024 * 1024 && inactivity.mask == 1024 * 1024 - 1
      ensures 0 <= clock < 0x4_0000_0000_0000 ==> inactivity.currentIndex == clock * 16384
      ensures fresh(Repr()) && sleep == null
    {
      hide Pow2;
      sleep := null;
      connections, connectionCount, memory := [], 0, map[];
      inactivity := new Timeouts(clock, 0, RING_BITS);
      table, trace := Created(Pow2(RING_BITS), clock), [];
      new;
      parts := {};
      CreatedInv<Entry>(Pow2(RING_BITS), clock);
      NoneFits();
      RingSlots();
      RingFields(inactivity);
      InSeconds(clock);
    }

    /** The same, had it created the sleep ring as well. */
    constructor WithSleep(clock: int)
      ensures Valid() && table == Created(Pow2(RING_BITS), clock)
      ensures inactivity.slots.Length == 1024 * 1024 && inactivity.mask == 1024 * 1024 - 1
      ensures 0 <= clock < 0x4_0000_0000_0000 ==> inactivity.currentIndex == clock * 16384
      ensures fresh(Repr()) && sleep != null && fresh(SleepRepr()) && SleepEmpty()
    {
      hide Pow2, Timeouts.Valid, Linked, AllocGuard.Aborts;
      connections, connectionCount, memory := [], 0, map[];
      inactivity := new Timeouts(clock, 0, RING_BITS);
      sleep := new Timeouts(clock, 0, RING_BITS);
      table, trace := Created(Pow2(RING_BITS), clock), [];
      new;
      parts := {};
      CreatedInv<Entry>(Pow2(RING_BITS), clock);
      NoneFits();
      RingSlots();
      RingFields(inactivity);
      InSeconds(clock);
    }

    /** The first step of connection_remove: the last connection takes the place of the one removed. */
    method TakeOut(i: nat, ghost missing: set<Entry>) returns (conn: Connection)
      requires connectionCount <= |connections| && i < connectionCount
      requires Rows(connections[..connectionCount], table, table.records.Keys, memory, parts)
      requires Linked(table, missing) && missing <= {table.conns[i]}
      modifies this`connections, this`connectionCount, {connections[connectionCount - 1]}
      ensures conn == old(connections[i]) && connectionCount == old(connectionCount) - 1
      ensures connectionCount <= |connections|
      ensures connections[..connectionCount] == SwapOut(old(connections[..connectionCount]), i)
      ensures table.conns[i] in table.records && table.conns[|table.conns| - 1] in table.records
      ensures Rows(connections[..connectionCount], RemoveAt(table, i), table.records.Keys,
                   memory - {conn.address}, parts)
      ensures conn !in connections[..connectionCount]
      ensures conn.fd == old(conn.fd)
    {
      hide Represents, NoRepeat, Unlink, RemoveAt, Farewell, Deadlines, Linked;
      RemovedRow(table, i, missing);
      ghost var rows, n, s' := connections[..connectionCount], connectionCount, RemoveAt(table, i);
      RowsDistinct(rows, table, table.records.Keys, memory, parts);
      conn := connections[i];
      connections := connections[i := connections[connectionCount - 1]];
      connections[i].index := i;
      connectionCount := connectionCount - 1;
      assert connections[..connectionCount] == SwapOut(rows, i);
      forall k | 0 <= k < connectionCount
        ensures Row(connections[k], k, s', table.records.Keys, memory - {conn.address})
      {
        ghost var k' := if k == i then n - 1 else k;
        assert connections[k] == rows[k'];
        assert old(Row(rows[k'], k', table, table.records.Keys, memory));
      }
    }

    /** What the rows say of one connection. */
    lemma OpenedRow(i: nat, missing: set<Entry>)
      requires ValidBut(missing) && i < connectionCount
      ensures table.conns[i] == connections[i].inactivity && connectionCount == |table.conns|
      ensures connections[i] in parts && connections[i].inactivity in parts
      ensures connections[i].sleep.Unlinked() && connections[i].receive.Unlinked()
      ensures connections[i].sleep !in table.records && connections[i].receive !in table.records
      ensures table.conns[i] in table.records && table.records[table.conns[i]].fd == connections[i].fd
      ensures connections[connectionCount - 1] in parts
      ensures Allocated(memory - {connections[i].address}, SwapOut(connections[..connectionCount], i))
    {
      hide Represents, Timeouts.Valid, SwapOut, Linked, Deadlines, Allocated;
      var rows := connections[..connectionCount];
      RowsDistinct(rows, table, table.records.Keys, memory, parts);
      assert Row(rows[i], i, table, table.records.Keys, memory);
      assert rows[connectionCount - 1].Within(parts);
      assert forall k | 0 <= k < |rows| :: Row(rows[k], k, table, table.records.Keys, memory);
      MemoryWithout(rows, i, memory);
    }

    /** What the invariant says, given row i. */
    lemma Opened(i: nat, missing: set<Entry>)
      requires ValidBut(missing) && i < connectionCount && missing <= {table.conns[i]}
      ensures table.conns[i] in table.records && i < |table.conns| && connectionCount <= |connections|
      ensures inactivity.deadlines.Keys == table.records.Keys - missing
      ensures missing == {} ==> table.conns[i] in inactivity.deadlines
      ensures Linked(table, missing) && inactivity.Valid() && table.wheel == inactivity.view && table.trace == trace
      ensures inactivity.deadlines == Deadlines(table.records) - missing
      ensures parts !! {this, inactivity, inactivity.slots} && inactivity.deadlines.Keys <= parts
      ensures !AllocGuard.Aborts(32, connectionCount, ELEMENT_SIZE)
      ensures Rows(connections[..connectionCount], table, table.records.Keys, memory, parts)
    {
      hide Represents, Timeouts.Valid, Linked, Allocated, Row;
      OpenedRow(i, missing);
    }

    lemma InOrderBut(missing: set<Entry>)
      requires parts !! {this, inactivity, inactivity.slots} && inactivity.deadlines.Keys <= parts
      requires !AllocGuard.Aborts(32, connectionCount, ELEMENT_SIZE)
      requires connectionCount <= |connections| && Allocated(memory, connections[..connectionCount])
      requires Rows(connections[..connectionCount], table, table.records.Keys, memory, parts)
      requires inactivity.Valid() && table.wheel == inactivity.view && table.trace == trace
      requires inactivity.deadlines == Deadlines(table.records) - missing && Linked(table, missing)
      ensures ValidBut(missing)
    {
      hide Represents, Timeouts.Valid, Rows, Allocated, AllocGuard.Aborts, Deadlines, Linked;
    }

    lemma InOrder()
      requires parts !! {this, inactivity, inactivity.slots} && inactivity.deadlines.Keys <= parts
      requires !AllocGuard.Aborts(32, connectionCount, ELEMENT_SIZE)
      requires connectionCount <= |connections| && Allocated(memory, connections[..connectionCount])
      requires Rows(connections[..connectionCount], table, table.records.Keys, memory, parts)
      requires inactivity.Valid() && table.wheel == inactivity.view && table.trace == trace
      requires inactivity.deadlines == Deadlines(table.records) - {} && Linked(table, {})
      ensures Valid()
    {
      hide ValidBut, Timeouts.Valid, Rows, Allocated, AllocGuard.Aborts, Deadlines, Linked;
      InOrderBut({});
    }

    /** `conn` has left the array, the table and the service, but not yet the ring and the memory. */
    ghost predicate Detached(conn: Connection, timers: set<Entry>)
      reads this, Repr(), conn.sleep, conn.receive, conn.inactivity
    {
      parts !! {this, inactivity, inactivity.slots} && inactivity.deadlines.Keys <= parts && conn in parts &&
      !AllocGuard.Aborts(32, connectionCount, ELEMENT_SIZE) &&
      connectionCount <= |connections| && conn !in connections[..connectionCount] &&
      Allocated(memory - {conn.address}, connections[..connectionCount]) &&
      Rows(connections[..connectionCount], table, timers, memory - {conn.address}, parts) &&
      inactivity.Valid() && table.wheel == Unlink(inactivity.view, conn.inactivity) && table.trace == trace &&
      inactivity.deadlines - {conn.inactivity} == Deadlines(table.records) - {} && Linked(table, {}) &&
      inactivity.deadlines.Keys <= timers && conn.inactivity in timers &&
      table.records.Keys <= timers - {conn.inactivity} && table.records.Keys <= inactivity.deadlines.Keys &&
      (conn.inactivity in inactivity.deadlines || conn.inactivity.Unlinked()) &&
      conn.sleep.Unlinked() && conn.receive.Unlinked() && conn.sleep !in timers && conn.receive !in timers
    }

    /** The first half of connection_remove: out of the array, then tell the service and close the socket. */
    method Detach(i: nat, ghost missing: set<Entry>) returns (conn: Connection)
      requires ValidBut(missing) && i < connectionCount
      requires missing <= {table.conns[i]} && (missing != {} ==> table.conns[i].Unlinked())
      modifies this`connections, this`connectionCount, this`trace, this`table, {connections[connectionCount - 1]}
      ensures Detached(conn, old(table).records.Keys)
      ensures parts == old(parts) && memory == old(memory)
      ensures conn == old(connections[i]) && connectionCount == old(connectionCount) - 1
      ensures i < |old(table).conns| && old(table).conns[i] in old(table).records
      ensures old(table).conns[|old(table).conns| - 1] in old(table).records
      ensures table == RemoveAt(old(table), i)
    {
      hide Represents, NoRepeat, Unlink, RemoveAt, AllocGuard.Aborts, Timeouts.Valid, Deadlines, Linked,
           SwapOut, Rows, Row, ValidBut, Allocated;
      Opened(i, missing);
      OpenedRow(i, missing);
      RemoveAtKeepsInv(table, i, missing);
      RemovedParts(table, i, missing);
      AllocGuard.GuardMonotone(32, connectionCount - 1, connectionCount, ELEMENT_SIZE);
      ghost var s' := RemoveAt(table, i);
      conn := TakeOut(i, missing);
      ghost var effects := [Called(conn.inactivity, Ended)];
      if conn.fd > 0 {
        effects := effects + [Closed(conn.fd)];
      }
      assert effects == Farewell(conn.inactivity, conn.fd);
      trace := trace + effects;
      table := s';
    }

    /**
      connection_remove. A timeout may have taken the timer out of the ring before: `missing` then
      holds it.
    */
    method ConnectionRemove(i: nat, ghost missing: set<Entry>)
      requires ValidBut(missing) && i < connectionCount
      requires missing <= {table.conns[i]} && (missing != {} ==> table.conns[i].Unlinked())
      modifies Repr()
      ensures Valid() && parts == old(parts) && connectionCount == old(connectionCount) - 1
      ensures i < |old(table).conns| && old(table).conns[i] in old(table).records
      ensures old(table).conns[|old(table).conns| - 1] in old(table).records
      ensures table == RemoveAt(old(table), i)
      ensures memory == old(memory) - {old(connections[i]).address}
    {
      hide Represents, NoRepeat, Unlink, RemoveAt, AllocGuard.Aborts, Timeouts.Valid, Deadlines, Linked,
           SwapOut, Rows, Row, ValidBut, Allocated;
      Opened(i, missing);
      OpenedRow(i, missing);
      ghost var timers := table.records.Keys;
      var conn := Detach(i, missing);
      Release(conn, inactivity, connections[..connectionCount], table, timers, memory - {conn.address}, parts);
      memory := memory - {conn.address};
      InOrder();
    }

    /** The second half of connection_add, once the timer is armed: append, and tell the service. */
    method Append(conn: Connection, ghost deadline: nat)
      requires connectionCount <= |connections| && inactivity.Valid() && trace == table.trace && Inv(table)
      requires |table.wheel.slots| > 0
      requires parts !! {this, inactivity, inactivity.slots}
      requires conn.Parts() !! parts + {this, inactivity, inactivity.slots}
      requires table.records.Keys <= parts && conn.address !in memory
      requires !AllocGuard.Aborts(32, connectionCount + 1, ELEMENT_SIZE)
      requires Rows(connections[..connectionCount], table, table.records.Keys, memory, parts)
      requires Allocated(memory, connections[..connectionCount])
      requires inactivity.view == TimingWheel.Add(table.wheel, conn.inactivity, deadline)
      requires inactivity.deadlines == (Deadlines(table.records) - {})[conn.inactivity := deadline]
      requires inactivity.deadlines.Keys == table.records.Keys + {conn.inactivity}
      requires conn.inactivity.offset == OFFSET_INACTIVITY
      requires conn.inactivity.address == conn.address + OFFSET_INACTIVITY
      requires conn.inactivity != conn.sleep && conn.inactivity != conn.receive
      requires conn.sleep.Unlinked() && conn.receive.Unlinked()
      modifies this, conn`index
      ensures Valid() && parts == old(parts) + conn.Parts()
      ensures connectionCount == old(connectionCount) + 1 && memory == old(memory)[conn.address := conn]
      ensures table == AddConnection(old(table), conn.inactivity, conn.fd, deadline)
    {
      hide Represents, NoRepeat, TimingWheel.Add, AllocGuard.Aborts, Timeouts.Valid, Deadlines, Linked, Rows, Row,
           ValidBut, Allocated, AddConnection;
      ghost var s, rows, m, p := table, connections[..connectionCount], memory, parts;
      RowsLength(rows, s, s.records.Keys, m, p);
      AddedParts(s, conn.inactivity, conn.fd, deadline);
      MemoryMore(m, rows, conn);
      conn.index := connectionCount;
      RowsMore(rows, conn, s, deadline, m, p);
      connections := connections[..connectionCount] + [conn];
      connectionCount := connectionCount + 1;
      assert connections[..connectionCount] == rows + [conn];
      memory := memory[conn.address := conn];
      trace := trace + [Called(conn.inactivity, NewConnection)];
      table := AddConnection(s, conn.inactivity, conn.fd, deadline);
      parts := parts + conn.Parts();
      InOrder();
    }

    /** connection_add. The allocator returns an address not in use. */
    method ConnectionAdd(fd2: int, address: nat, clock: int, timeout: nat) returns (conn: Connection)
      requires Valid() && address !in memory
      requires !AllocGuard.Aborts(32, connectionCount + 1, ELEMENT_SIZE)
      modifies Repr()
      ensures Valid() && fresh(parts - old(parts)) && fresh(conn) && fresh(conn.inactivity)
      ensures connectionCount == old(connectionCount) + 1 && memory == old(memory)[address := conn]
      ensures |old(table).wheel.slots| > 0 && conn.inactivity !in old(table).records
      ensures PhaseOf(old(table).trace, conn.inactivity) == Unborn
      ensures table == AddConnection(old(table), conn.inactivity, fd2, TimestampFromTv(clock + timeout, 0))
    {
      hide Represents, NoRepeat, Unlink, TimingWheel.Add, AllocGuard.Aborts, Timeouts.Valid, Deadlines, Linked,
           Rows, Row, ValidBut, Allocated, TimestampFromTv, AddConnection, PhaseOf;
      OpenedAll();
      conn := new Connection(address);
      Unheard(table.trace, conn.inactivity);
      conn.fd := fd2;
      Arm(conn, inactivity, TimestampFromTv(clock + timeout, 0), connections[..connectionCount], table,
          table.records.Keys, memory, parts);
      Append(conn, TimestampFromTv(clock + timeout, 0));
    }

    /**
      One call of timeouts_remove on the inactivity ring, and the cast of what it returns. The timer
      returned has left the ring; its connection has not yet left the table.
    */
    method NextExpired(now: nat) returns (conn: Connection?, ghost moves: nat)
      requires Valid() && now < WORD - 1
      modifies Repr()
      ensures |old(table).wheel.slots| > 0
      ensures connectionCount == old(connectionCount) && connectionCount <= |connections| && parts == old(parts)
      ensures memory == old(memory)
      ensures table == old(table).(wheel := TimingWheel.Remove(old(table).wheel, now).0)
      ensures old(table).wheel.hand + moves == table.wheel.hand
      ensures conn == null ==> Valid() && TimingWheel.Remove(old(table).wheel, now).1 == None
      ensures conn != null ==>
                TimingWheel.Remove(old(table).wheel, now).1 == Some(conn.inactivity) && ValidBut({conn.inactivity}) &&
                conn.inactivity.Unlinked() && Indexed(table, conn.inactivity) && conn.index < connectionCount &&
                conn.index == table.records[conn.inactivity].index && table.conns[conn.index] == conn.inactivity
    {
      hide Represents, NoRepeat, Unlink, TimingWheel.Remove, AllocGuard.Aborts, Timeouts.Valid, Deadlines, Linked,
           Rows, Row, ValidBut, Allocated;
      OpenedAll();
      RemovalLinked(table, now);
      ghost var s := table;
      ghost var found;
      var r;
      r, found, moves := TakeExpired(inactivity, now, connections[..connectionCount], table, table.records.Keys, memory,
                                     parts);
      table := table.(wheel := inactivity.view);
      RowsOtherWheel(connections[..connectionCount], s, inactivity.view, memory, parts);
      if r == None {
        InOrderBut({});
        return null, moves;
      }
      ContainerOf(connections[..connectionCount], s, memory, parts, found.value);
      InOrderBut({found.value});
      return memory[r.value], moves;
    }

    /** A callback or a descriptor event, of no other consequence to the table. */
    ghost method Report(effects: seq<Effect<Entry>>, missing: set<Entry>)
      requires ValidBut(missing)
      modifies this`table, this`trace
      ensures ValidBut(missing) && table == old(table).(trace := old(table).trace + effects)
    {
      hide Represents, Timeouts.Valid, Allocated, AllocGuard.Aborts, Deadlines, NoRepeat, Row;
      trace := trace + effects;
      table := table.(trace := trace);
      RowsOtherTrace(connections[..connectionCount], old(table), trace, memory, parts);
    }

    /** timeout_inactivity; `moves` counts how often the hand of the ring moved. */
    method TimeoutInactivity(clock: int) returns (ghost moves: nat)
      requires Valid()
      modifies Repr()
      ensures Valid() && parts == old(parts)
      ensures Inv(old(table)) && table == Sweep(old(table), TimestampFromTv(clock, 0))
      ensures old(table).wheel.hand + moves == table.wheel.hand
    {
      hide Represents, ValidBut, Linked, Sweep, Expire, TimestampFromTv, RemoveAt, TimingWheel.Remove,
           Rows, Row, Allocated, AllocGuard.Aborts, Deadlines, Timeouts.Valid, NoRepeat, Inv, Indexed;
      var timestamp := TimestampFromTv(clock, 0);
      WholeSecondsBelowMax(clock);
      OpenedAll();
      ghost var s := table;
      moves := 0;
      while true
        invariant Valid() && parts == old(parts) && s.wheel.hand + moves == table.wheel.hand
        invariant Inv(s) && Inv(table) && Sweep(table, timestamp) == Sweep(s, timestamp)
        decreases connectionCount
      {
        ghost var t := table;
        SweepTurn(t, timestamp);
        var conn;
        ghost var more;
        conn, more := NextExpired(timestamp);
        moves := moves + more;
        if conn == null {
          break;
        }
        Report([Called(conn.inactivity, TimedOut)], {conn.inactivity});
        ghost var u, i := table, conn.index;
        ConnectionRemove(conn.index, {conn.inactivity});
        RemoveAtHand(u, i);
        OpenedAll();
      }
    }

    /**
      The loop of dispatcher_dispatch that receives. `obs` is what select() and recv() report, one
      observation per turn. The cursor is a size_t: stepping back from 0 wraps.
    */
    method ReceiveLoop(obs: seq<Outcome>) returns (ghost visited: seq<Entry>)
      requires Valid()
      modifies Repr()
      ensures Valid() && parts == old(parts) && KeptIn(memory, old(memory))
      ensures Inv(old(table)) && (table, visited) == Scan(old(table), 0, obs)
    {
      hide Represents, ValidBut, Linked, Scan, RemoveAt, Inv, AllocGuard.Aborts, NextIndex, Pow2,
           Rows, Row, Allocated, Deadlines, Timeouts.Valid, NoRepeat;
      OpenedAll();
      CountFits();
      ghost var s := table;
      var i: nat, rest := 0, obs;
      visited := [];
      assert [] + Scan(s, 0, obs).1 == Scan(s, 0, obs).1;
      while i < connectionCount
        invariant Valid() && parts == old(parts) && i <= connectionCount <= old(connectionCount) < WORD
        invariant KeptIn(memory, old(memory))
        invariant Inv(s) && Inv(table) && connectionCount == |table.conns|
        invariant Scan(s, 0, obs).0 == Scan(table, i, rest).0
        invariant Scan(s, 0, obs).1 == visited + Scan(table, i, rest).1
        decreases connectionCount - i
      {
        OpenedAll();
        ScanTurn(table, i, rest);
        ghost var t := table;
        var conn := connections[i];
        NextInRange(i);
        var o := if rest == [] then NotReady else rest[0];
        OpenedRowAt(i);
        if o == Eof {
          ConnectionRemove(i, {});
          OpenedAll();
          i := PreviousIndex(i);
        } else if o == Data {
          Report([Called(conn.inactivity, Received)], {});
        }
        visited := visited + [conn.inactivity];
        rest := Rest(rest);
        i := NextIndex(i);
      }
      ScanTurn(table, i, rest);
      assert visited + [] == visited;
    }

    /** The loop of dispatcher_dispatch that accepts, one arrival per service. */
    method AcceptLoop(services: seq<Service>, arrivals: seq<Arrival>) returns (ghost inputs: seq<Input<Entry>>)
      requires Valid() && |services| == |arrivals|
      requires !AllocGuard.Aborts(32, connectionCount + NamedCount(arrivals), ELEMENT_SIZE)
      requires forall i | 0 <= i < |arrivals| && arrivals[i].Named? :: arrivals[i].address !in memory
      requires Apart(arrivals)
      modifies Repr()
      ensures Valid() && fresh(parts - old(parts))
      ensures Leads(old(table), inputs, table) && NamesNew(old(table), inputs) && Matches(services, arrivals, inputs)
    {
      hide Represents, ValidBut, Linked, Inv, AddConnection, AllocGuard.Aborts, Rows, Row, Allocated, Deadlines,
           Timeouts.Valid, NoRepeat, Leads, NamesNew, Matches, TimestampFromTv, PhaseOf;
      ghost var s, n := table, connectionCount + NamedCount(arrivals);
      assert arrivals[0..] == arrivals;
      inputs := [];
      NothingYet(s, services, arrivals);
      for i := 0 to |services|
        invariant Valid() && fresh(parts - old(parts)) && connectionCount + NamedCount(arrivals[i..]) == n
        invariant forall j | i <= j < |arrivals| && arrivals[j].Named? :: arrivals[j].address !in memory
        invariant Leads(s, inputs, table) && NamesNew(s, inputs) && Matches(services[..i], arrivals[..i], inputs)
      {
        OpenedAll();
        assert arrivals[i..][1..] == arrivals[i + 1..];
        ghost var t, more := table, [];
        match arrivals[i] {
          case Quiet =>
          case Refused =>
          case Unnamed(fd) =>
            Report([Accepted(fd)] + [Closed(fd)], {});
            more := [AcceptUnnamed(fd)];
            UnnamedStep(t, fd);
          case Named(fd, address, clock) =>
            AllocGuard.GuardMonotone(32, connectionCount + 1, n, ELEMENT_SIZE);
            Report([Accepted(fd)], {});
            var conn := ConnectionAdd(fd, address, clock, services[i].timeout);
            more := [Accept(conn.inactivity, fd, clock, services[i].timeout)];
            PhaseThen(t.trace, Accepted(fd), conn.inactivity);
            NamedStep(t, conn.inactivity, fd, clock, services[i].timeout);
        }
        RunMore(s, inputs, t, more, table);
        MatchesMore(services[..i], arrivals[..i], inputs, services[i], arrivals[i], more);
        assert services[..i + 1] == services[..i] + [services[i]] && arrivals[..i + 1] == arrivals[..i] + [arrivals[i]];
        inputs := inputs + more;
      }
      assert services[..|services|] == services && arrivals[..|arrivals|] == arrivals;
    }

    /**
      What the allocator grants when the accept loop is reached: the array has grown by the named
      arrivals, and each structure is at an address then not in use, perhaps one that the receive loop
      has just freed.
    */
    ghost predicate RoomFor(obs: seq<Outcome>, arrivals: seq<Arrival>)
      reads this
    {
      Inv(table) && Apart(arrivals) &&
      !AllocGuard.Aborts(32, |Scan(table, 0, obs).0.conns| + NamedCount(arrivals), ELEMENT_SIZE) &&
      forall i | 0 <= i < |arrivals| && arrivals[i].Named? ::
        arrivals[i].address !in memory ||
        memory[arrivals[i].address].inactivity in Ending(Scan(table, 0, obs).1, obs)
    }

    /** A structure in use is that of a connection in the table. */
    lemma InUse()
      requires Valid()
      ensures forall a | a in memory :: memory[a].inactivity in table.records
    {
      hide Timeouts.Valid, Linked;
      ghost var rows := connections[..connectionCount];
      forall a | a in memory
        ensures memory[a].inactivity in table.records
      {
        assert memory[a] in memory.Values;
        var k :| 0 <= k < |rows| && rows[k] == memory[a];
        assert Row(rows[k], k, table, table.records.Keys, memory);
      }
    }

    /** After the receive loop the addresses promised to the new structures are free. */
    lemma FreedAddresses(s: Table<Entry>, m: map<nat, Connection>, obs: seq<Outcome>, arrivals: seq<Arrival>)
      requires Valid() && Inv(s) && table == Scan(s, 0, obs).0 && KeptIn(memory, m)
      requires forall i | 0 <= i < |arrivals| && arrivals[i].Named? ::
                 arrivals[i].address !in m || m[arrivals[i].address].inactivity in Ending(Scan(s, 0, obs).1, obs)
      ensures forall i | 0 <= i < |arrivals| && arrivals[i].Named? :: arrivals[i].address !in memory
    {
      hide Scan, Ending, ScanTrace, ValidBut, Linked, Enumerates;
      InUse();
      ReceiveVisitsAll(s, obs);
    }

    /**
      timeout_sleep, and timeout_receive, which passes the same ring. On the null ring timeouts_remove
      reads through a null pointer; on an empty ring it returns NULL and the loop ends.
    */
    method TimeoutSleep(clock: int) returns (ok: bool)
      requires Valid() && SleepEmpty()
      modifies SleepRepr()
      ensures Valid() && SleepEmpty() && SleepRepr() == old(SleepRepr()) && (ok <==> sleep != null)
    {
      hide Timeouts.Valid, TimestampFromTv, RemoveWord, Moves;
      if sleep == null {
        return false;
      }
      WholeSecondsBelowMax(clock);
      ghost var found, advances;
      var r;
      r, found, advances := sleep.Remove(TimestampFromTv(clock, 0));
      assert r == None;
      return true;
    }

    /** dispatcher_dispatch once select() has reported something, up to the inactivity sweep and with it. */
    method Process(obs: seq<Outcome>, services: seq<Service>, arrivals: seq<Arrival>, clock: int)
      returns (ghost accepts: seq<Input<Entry>>)
      requires Valid() && |services| == |arrivals| && RoomFor(obs, arrivals)
      modifies Repr()
      ensures Valid() && fresh(parts - old(parts)) && Matches(services, arrivals, accepts)
      ensures Leads(old(table), [Receive(obs)] + accepts + [Expiry(clock)], table)
      ensures NamesNew(old(table), [Receive(obs)] + accepts + [Expiry(clock)])
    {
      hide Represents, ValidBut, Linked, Inv, AddConnection, AllocGuard.Aborts, Rows, Row, Allocated, Deadlines,
           Timeouts.Valid, NoRepeat, Leads, NamesNew, Matches, TimestampFromTv, PhaseOf, Scan, Sweep;
      OpenedAll();
      ghost var s, m := table, memory;
      ghost var visited := ReceiveLoop(obs);
      ghost var s1 := table;
      OpenedAll();
      FreedAddresses(s, m, obs, arrivals);
      accepts := AcceptLoop(services, arrivals);
      OpenedAll();
      ghost var s2 := table;
      ghost var moves := TimeoutInactivity(clock);
      WholeStep(s, obs, s1, accepts, s2, clock);
    }

    /**
      dispatcher_dispatch from the return of select() on. `ready` is what select() returned; a
      negative value is reported and otherwise ignored. The clocks are the three readings at its end.
      It returns exactly when nothing was ready or the sleep ring exists, and dispatcher_create makes none.
    */
    method Dispatch(ready: int, obs: seq<Outcome>, services: seq<Service>, arrivals: seq<Arrival>,
                    clock: int, sleepClock: int, receiveClock: int)
      returns (exit: Exit, ghost accepts: seq<Input<Entry>>)
      requires Valid() && SleepEmpty() && |services| == |arrivals| && (ready != 0 ==> RoomFor(obs, arrivals))
      modifies Repr(), SleepRepr()
      ensures Valid() && SleepEmpty() && SleepRepr() == old(SleepRepr()) && fresh(parts - old(parts))
      ensures exit.Returned? <==> ready == 0 || sleep != null
      ensures exit.Returned? ==> exit.status == if ready == 0 then 0 else 1
      ensures ready == 0 ==> table == old(table)
      ensures ready != 0 ==>
                Matches(services, arrivals, accepts) &&
                Leads(old(table), [Receive(obs)] + accepts + [Expiry(clock)], table) &&
                NamesNew(old(table), [Receive(obs)] + accepts + [Expiry(clock)])
    {
      hide ValidBut, RoomFor, Timeouts.Valid, Leads, NamesNew, Matches;
      if ready == 0 {
        return Returned(0), [];
      }
      accepts := Process(obs, services, arrivals, clock);
      assert SleepEmpty();
      var ok := TimeoutSleep(sleepClock);
      if !ok {
        return NullRing, accepts;
      }
      ok := TimeoutSleep(receiveClock);
      exit := Returned(1);
    }

    lemma CountFits()
      requires Valid()
      ensures connectionCount < WORD
    {
      AllocGuard.GuardTwoSided(32, connectionCount, ELEMENT_SIZE);
      Pow2Word();
    }

    lemma OpenedRowAt(i: nat)
      requires Valid() && i < connectionCount
      ensures i < |table.conns| && table.conns[i] == connections[i].inactivity
    {
      OpenedRow(i, {});
    }

    lemma OpenedAll()
      requires Valid()
      ensures connectionCount == |table.conns| <= |connections|
      ensures inactivity.deadlines.Keys == table.records.Keys
      ensures Linked(table, {}) && Inv(table) && |table.wheel.slots| > 0
      ensures inactivity.Valid() && table.wheel == inactivity.view && table.trace == trace
      ensures inactivity.deadlines == Deadlines(table.records) - {}
      ensures parts !! {this, inactivity, inactivity.slots} && inactivity.deadlines.Keys <= parts
      ensures Rows(connections[..connectionCount], table, table.records.Keys, memory, parts)
      ensures Allocated(memory, connections[..connectionCount])
      ensures !AllocGuard.Aborts(32, connectionCount, ELEMENT_SIZE)
    {
      hide Timeouts.Valid, Allocated, Row;
    }
  }

  lemma RemoveAtHand(s: Table<Entry>, i: nat)
    requires i < |s.conns| && s.conns[i] in s.records && s.conns[|s.conns| - 1] in s.records
    ensures RemoveAt(s, i).wheel.hand == s.wheel.hand
  {}

  lemma RowsOtherWheel(rows: seq<Connection>, s: Table<Entry>, w: Wheel<Entry>, memory: map<nat, Connection>,
                       parts: set<object>)
    requires Rows(rows, s, s.records.Keys, memory, parts)
    ensures Rows(rows, s.(wheel := w), s.records.Keys, memory, parts)
  {}

  lemma RowsOtherTrace(rows: seq<Connection>, s: Table<Entry>, t: seq<Effect<Entry>>, memory: map<nat, Connection>,
                       parts: set<object>)
    requires Rows(rows, s, s.records.Keys, memory, parts)
    ensures Rows(rows, s.(trace := t), s.records.Keys, memory, parts)
  {}

  /** `i--` on a size_t. */
  function PreviousIndex(i: nat): (r: nat)
    requires i < WORD
    ensures r < WORD && NextIndex(r) == i
  {
    if i == 0 then WORD - 1 else i - 1
  }

  lemma NothingYet(s: Table<Entry>, services: seq<Service>, arrivals: seq<Arrival>)
    requires |services| == |arrivals|
    ensures Leads(s, [], s) && NamesNew(s, []) && Matches(services[..0], arrivals[..0], [])
  {}

  lemma UnnamedStep(s: Table<Entry>, fd: int)
    requires Inv(s)
    ensures Leads(s, [AcceptUnnamed(fd)], s.(trace := s.trace + ([Accepted(fd)] + [Closed(fd)])))
    ensures NamesNew(s, [AcceptUnnamed(fd)])
  {
    LeadsOne(s, AcceptUnnamed(fd));
    NamesNewOne(s, AcceptUnnamed(fd));
  }

  lemma NamedStep(s: Table<Entry>, c: Entry, fd: int, clock: int, timeout: nat)
    requires Inv(s) && c !in s.records && PhaseOf(s.trace, c) == Unborn
    ensures |s.wheel.slots| > 0
    ensures Leads(s, [Accept(c, fd, clock, timeout)],
                  AddConnection(s.(trace := s.trace + [Accepted(fd)]), c, fd, TimestampFromTv(clock + timeout, 0)))
    ensures NamesNew(s, [Accept(c, fd, clock, timeout)])
  {
    hide NoRepeat, Represents, AddConnection, TimestampFromTv, Leads, NamesNew, PhaseOf;
    SomeSlots(s.wheel, Deadlines(s.records) - {});
    LeadsOne(s, Accept(c, fd, clock, timeout));
    NamesNewOne(s, Accept(c, fd, clock, timeout));
  }

  lemma RunMore(s: Table<Entry>, a: seq<Input<Entry>>, t: Table<Entry>, b: seq<Input<Entry>>, t': Table<Entry>)
    requires Leads(s, a, t) && NamesNew(s, a)
    requires (Leads(t, b, t') && NamesNew(t, b)) || (b == [] && t == t')
    ensures Leads(s, a + b, t') && NamesNew(s, a + b)
  {
    LeadsThen(s, a, t, b, t');
    NamesNewThen(s, a, t, b);
  }

  /** The three stages of dispatcher_dispatch, one after the other. */
  lemma WholeStep(s: Table<Entry>, obs: seq<Outcome>, s1: Table<Entry>, accepts: seq<Input<Entry>>, s2: Table<Entry>,
                  clock: int)
    requires Inv(s) && s1 == Scan(s, 0, obs).0 && Leads(s1, accepts, s2) && NamesNew(s1, accepts) && Inv(s2)
    ensures Leads(s, [Receive(obs)] + accepts + [Expiry(clock)], Sweep(s2, TimestampFromTv(clock, 0)))
    ensures NamesNew(s, [Receive(obs)] + accepts + [Expiry(clock)])
  {
    hide Linked, Leads, NamesNew, Scan, Sweep, TimestampFromTv;
    LeadsOne(s, Receive(obs));
    NamesNewOne(s, Receive(obs));
    RunMore(s, [Receive(obs)], s1, accepts, s2);
    LeadsOne(s2, Expiry(clock));
    NamesNewOne(s2, Expiry(clock));
    RunMore(s, [Receive(obs)] + accepts, s2, [Expiry(clock)], Sweep(s2, TimestampFromTv(clock, 0)));
  }

  lemma NextInRange(i: nat)
    requires i + 1 < WORD
    ensures NextIndex(i) == i + 1
  {}
}
