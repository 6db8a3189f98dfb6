# A verified model of scanme's timers and event loops

This project models the event machinery of scanme, a honeypot written in C, and proves what its
parts promise each other. Three subsystems are covered, each twice: as a transition function over
values, about which the theorems are stated, and as Dafny classes and methods that keep the fields,
loops and pointer writes of the C code and are proved to do what the functions say.

**The timing wheel** (`src/event-timeout.h`, `src/event-timeout.c`). A ring of list heads with a
64-bit hand. Entries are linked through `next` and a pointer-to-pointer `prev`, which the model keeps
as "the address of slot k" or "the address of e's next field". A slot mixes deadlines of all
revolutions of the ring.

- `Modular`, `Bits`, `Ticks`: residues, `t & mask`, the conversion of seconds to ticks.
- `TimingWheel`: the wheel as a value; `WheelLaws`: it is a map, and what removal and draining
  return; `WheelOrder`: in which order; `WheelRuns`: every run of adds, unlinks and removals, with no
  assumption on deadlines; `WheelWord`: the 64-bit counter, when the scan ends and how far the hand
  moves; `WheelWordRuns`: every run on the 64-bit counter.
- `IntrusiveList`, `TimeoutRing`: the linked entries on the heap and the ring's operations.

**The connection table** (`src/dispatch.c`). Live connections in an array with swap-remove and back
indices, an inactivity timer inside each, a receive loop that removes while it iterates, a sweep that
removes through the back index, callbacks and descriptors.

- `Table`, `TableLaws`: the state machine, its receive loop and sweep. A connection goes by its
  inactivity timer, one to one.
- `TableRuns`, `TableFds`, `TableClock`: what every run keeps, in three independent parts: structure and
  callbacks, descriptors, and timers set in time.
- `TableTrace`: in what order callbacks and closes come, read off the trace alone; `TableSweeps`: where
  the hand is, when timers run out and in what order sweeps end connections, in seconds.
- `Dispatch`: the same on the heap. Allocated structures are a map from address to structure, so the
  cast of what `timeouts_remove` returns is a lookup at the timer's address less its stored offset,
  and following a link to a freed structure would be a lookup that fails. An address freed by the
  receive loop may be handed out again by the accept loop of the same dispatch.
- `ServerLoop`: the loop of `src/main.c` on one dispatcher, where the theorems about runs hold with no
  assumption left about connections. As the code stands the loop stops at its first busy dispatch (see
  below); with the missing ring created it goes on, and the theorems cover both.

**The poll loop and the echo handler** (`src/dispatcher.c`, `src/builtin-echo.c`).

- `PollModel`, `PollLaws`, `PollLoop`: a loop over a list that handlers append to while entries are
  swap-removed under the cursor; `PollRuns`: any number of passes, and what becomes of descriptors;
  `PollPass`: what a pass does to each entry, by the bits reported for it.
- `EchoModel`, `Echo`: the connection handler with partial sends, the "TCP Based Echo Service"
  section of RFC 862.
- `EchoRuns`: the two together. Handlers reply to the loop, and the loop delivers events to handlers,
  over any number of passes and connections. `EchoStreams`: what each connection has received and sent,
  by the calls made and what the system calls in them returned.

**The allocation guard** (`src/util-malloc.c`): `AllocGuard`.

Results of system calls (`select`, `poll`, `recv`, `send`, `accept`, `getnameinfo`), the clock and
addresses chosen by the allocator are parameters. Callbacks are recorded in a trace; they are taken
not to call back into the dispatcher except where the poll loop's handlers add connections, set their
own event or ask to be closed. `hide` statements keep definitions out of a proof's sight; they assume
nothing.

## Where the code and its comments differ

The model follows the code; where it also says what a repaired version would do, a constructor says so by its name.

- The header gives timestamps in units of 1/16384 s, but microseconds are divided by 16384. The two
  agree exactly below 62 microseconds (`Ticks.MicrosecondScale`).
- The comment in `connection_add` says that the inactivity timer is refreshed on every send and
  receive. No code does so: the deadline is fixed when the connection is added. Re-arming is proved
  for the wheel itself (`TimeoutRing.Timeouts.Add`).
- `timeouts_remove(t, 2^64 - 1)` on an empty ring does not return: the counter wraps before it can
  pass the bound. The scan ends in every other case (`WheelWord.ScanEndsExactly`).
- Entries come back in the order of their deadlines only inside one revolution of the ring
  (`WheelOrder.OrderedDrain`, `WheelOrder.DisorderBeyondOneTurn`).
- `connection_remove` closes a descriptor only when it is positive, so descriptor 0 stays open
  (`TableFds.RemovalClosesUnlessZero`).
- `dispatcher_create` makes the inactivity ring only, and `dispatcher_dispatch` ends by draining the
  sleep ring too (and drains it again where it should drain the receive ring). So the C function
  returns if and only if `select()` returned 0; otherwise it dereferences a null ring at
  src/dispatch.c:644, and src/main.c never takes another turn (`Dispatch.Dispatcher.Dispatch`,
  `ServerLoop.Server.Turn`). Statements about states hold of what the code does up to there. Runs with
  several busy dispatches are those of the dispatcher with the sleep ring created
  (`Dispatch.Dispatcher.WithSleep`).
- The message about a changed timeout in `timeouts_add` is never printed: the entry has just been
  unlinked.

## Model

| member | source | states |
|---|---|---|
| Bits.MaskIsMod | src/event-timeout.c:122 | for a ring of any power-of-two size, masking a timestamp gives its remainder by the ring size |
| Modular.NextVisitLeast | src/event-timeout.c:139-152 | no index at or after the hand with a deadline's residue comes before the visit computed for it |
| Ticks.SecondsAndOrder | src/event-timeout.h:123-132 | ticks give back the seconds and keep the order of clock readings, below the range where they wrap |
| Ticks.WrappedTicks | src/event-timeout.h:123-132 | a timestamp is 16384 ticks a second, modulo 2^64, whatever the clock says |
| Ticks.MicrosecondScale | src/event-timeout.h:17-22 | the microsecond part has the documented scale of 1/16384 s exactly below 62 microseconds |
| Ticks.HalfSecond | src/event-timeout.h:123-126 | half a second converts to 30 units where the documented scale gives 8192 |
| Ticks.WholeSecondsBelowMax | src/dispatch.c:356 | a clock reading in whole seconds never becomes the one bound for which a scan of the ring can run forever |
| AllocGuard.GuardTwoSided | src/util-malloc.c:7-19 | what passes the guard is below 2^(2h) and so fits in a size_t of 2h bits; what aborts would not fit with one element more |
| AllocGuard.RefusedThoughFitting | src/util-malloc.c:37-42 | exactly which requests that would fit are refused |
| AllocGuard.Limits64 | src/util-malloc.c:7-17 | on 64 bits the shortcut ends at 2^32 and the limit is 2^64 - 1 |
| Dispatch.ArrayLimit | src/dispatch.c:329 | the array of connections aborts exactly from 2^61 - 1 elements on |
| WheelLaws.AddRepresents | src/event-timeout.c:103-128 | adding sets one binding of the map entry to deadline, moving an entry already linked, and the entry is in the slot of its deadline only |
| WheelLaws.UnlinkRepresents | src/event-timeout.h:38-49 | unlinking deletes one binding and no other |
| TimingWheel.WithoutAt | src/event-timeout.h:43-48 | in a list unlinking closes the gap and keeps the order of the rest |
| WheelLaws.RepresentsUnique | src/event-timeout.c:34-42 | the slots determine the map |
| WheelLaws.RemoveRepresents | src/event-timeout.c:133-165 | what is returned was bound to a deadline that has been reached, its binding alone disappears, and NULL leaves the slots alone with the hand just past the bound |
| WheelLaws.NullExactly | src/event-timeout.c:139-158 | with no assumption on deadlines: NULL exactly when the hand would meet no reached deadline on its way past the bound |
| WheelLaws.RemovesNearest | src/event-timeout.c:139-152 | the entry returned is one the hand meets first, and the hand rests on that visit |
| WheelLaws.NullWhenTimely | src/event-timeout.c:139-158 | with deadlines at or after the hand: NULL exactly when no deadline has been reached, and the pending ones are still at or after the new hand |
| WheelLaws.DrainExact | src/event-timeout.h:100-114 | calling until NULL returns each entry due once and nothing else, in one call more than there are such entries, leaves the rest bound, and puts the hand just past the bound |
| WheelLaws.DrainTimely | src/event-timeout.h:100-114 | with timely deadlines that is exactly the entries whose deadline has been reached |
| WheelLaws.FullTurnDrainsAll | src/event-timeout.c:139-152 | whatever the deadlines, a drain that moves the hand a full turn leaves none that has been reached |
| WheelOrder.DrainFollowsSchedule | src/event-timeout.c:133-165 | inside one revolution a drain of timely deadlines is the concatenation, deadline by deadline, of the entries with that deadline |
| WheelOrder.OrderedDrain | src/event-timeout.c:123-148 | inside one revolution entries come back by deadline, and last inserted first among equal deadlines |
| WheelOrder.HandOnDeadline | src/event-timeout.c:142-148 | inside one revolution the hand stands on the deadline returned |
| WheelOrder.DisorderBeyondOneTurn | src/event-timeout.c:139-148 | for every ring and hand, one index beyond a revolution two timely entries can come back in the wrong order |
| WheelRuns.EveryRunIsTheMap | src/event-timeout.c:103-165 | after every sequence of operations the ring holds exactly the plain map those operations describe, lists headed by the latest insertion |
| WheelRuns.LatenessBound | src/event-timeout.c:122-152 | after every run, a pending entry either has a deadline at or after the hand or was added late and the hand has made less than a turn since |
| WheelRuns.NullAfterTimelyRun | src/event-timeout.c:139-158 | after every run with timely adds NULL means that nothing is pending up to the bound |
| WheelRuns.DrainAfterTimelyRun | src/event-timeout.h:100-114 | after every such run a drain returns exactly what has been reached, each once |
| WheelRuns.OrderAfterTimelyRun | src/event-timeout.c:123-148 | after every such run, inside one revolution, by deadline and then last in first out |
| WheelRuns.HandMonotone | src/event-timeout.c:44-48 | no run moves the hand back while the counter does not wrap (the hand here is unbounded) |
| WheelWord.BackExactlyOnWrap | src/event-timeout.c:44-152 | on 64 bits a removal moves the hand back if and only if its scan runs past the last value |
| WheelWord.MovesLeast | src/event-timeout.c:139-152 | the number of moves is the first turn of the 64-bit scan at which it ends |
| WheelWordRuns.EveryWordRun | src/event-timeout.c:103-165 | after every run on 64 bits the ring is the map, all values fit their fields, and the moves of the hand add up to its final less its initial position plus 2^64 a wrap; a run without a wrap does not move it back |
| WheelWordRuns.WordRunIsRun | src/event-timeout.c:139-152 | a run on 64 bits whose bounds are below the last value is the run over the unbounded hand |
| WheelWord.ScanEndsExactly | src/event-timeout.c:139-152 | on 64 bits the scan ends if and only if the bound is not the last value or something is pending |
| WheelWord.RemoveWordFits | src/event-timeout.c:139-165 | whenever it ends the hand fits its field, and at the last value an entry is always found |
| WheelWord.RemoveWordRepresents | src/event-timeout.c:133-165 | also when the counter wraps, the map loses exactly the entry returned |
| IntrusiveList.BackLink | src/event-timeout.h:25-27 | `prev` designates the pointer that points at the entry |
| IntrusiveList.SpliceIn | src/event-timeout.h:38-49 | the pointer writes of an unlink close the gap in the one list concerned, keep its order and leave every other list as it was |
| IntrusiveList.Push | src/event-timeout.c:121-127 | the pointer writes of an insertion put the entry at the head of one list and leave every other as it was |
| TimeoutRing.Timeouts.constructor | src/event-timeout.c:67-97 | a new ring is empty with its hand at the given time |
| TimeoutRing.TimeoutUnlink | src/event-timeout.h:38-49 | given only the entry, the ring that holds it loses it and nothing else; on an unlinked entry nothing changes |
| TimeoutRing.TimeoutUnlinkAmong | src/event-timeout.h:38-49 | among any number of rings, whichever holds the entry loses it and every other is as before |
| TimeoutRing.Timeouts.Add | src/event-timeout.c:103-128 | adds or moves an entry, also from another ring, with the heap as the value says and all other offsets kept |
| TimeoutRing.Timeouts.Remove | src/event-timeout.c:133-165 | returns the container of the entry the value says, on every input on which the scan ends, and terminates, after exactly as many moves of the hand as the scan has turns to make |
| TimeoutRing.AddThenRemove | src/event-timeout.c:103-165 | after an add, a removal that returns the entry gives back its structure if and only if the offset survives the cast to unsigned |
| Table.RemoveAtKeepsInv | src/dispatch.c:269-306 | swap-remove keeps connections distinct, indices right and the timers in the ring equal to the live connections, also when the timer has been taken out before |
| Table.SwapOutElements | src/dispatch.c:276-278 | swap-remove takes out exactly the element at its index |
| Table.AddKeepsInv | src/dispatch.c:310-346 | a connection added is last, knows its index and has its timer in the ring |
| Table.ExpireKeepsInv | src/dispatch.c:366-385 | what the ring returns is a live connection's timer, and removing it through its own index restores the invariant |
| TableLaws.SweepFollowsDrain | src/dispatch.c:353-387 | the sweep ends exactly the connections the ring drains, in that order, each told of the timeout, then the end, then closed; the others keep descriptor and deadline |
| TableLaws.SweepTimely | src/dispatch.c:353-387 | with timely deadlines it ends exactly the connections whose deadline has been reached and leaves the others timely |
| TableLaws.SweepFullTurn | src/dispatch.c:353-387 | with any deadlines, a sweep a full turn later leaves no connection whose deadline has been reached |
| TableLaws.ReceiveVisitsAll | src/dispatch.c:513-549 | the receive loop examines every connection present at its start once, ends exactly those at end of file, and reports the data of the others |
| TableRuns.NoForgottenConnection | src/event-timeout.c:20-24 | after every run the ring holds exactly the timers of the live connections, indices agree, and a connection is live exactly between its first and last callback |
| TableRuns.RunCalls | src/dispatch.c:291-380 | in every run, whatever descriptors come, the callbacks of each connection form a prefix of NEW, any number of RECV, at most one TIMEOUT, END, and it is in the table from NEW to END |
| TableFds.DescriptorConservation | src/dispatch.c:294-317 | after every run a positive descriptor has been closed as often as accepted, but for the one live connection that may hold it |
| TableFds.RemovalClosesUnlessZero | src/dispatch.c:294-296 | ending a connection closes its descriptor if and only if it is not 0 |
| TableFds.UnnamedFds | src/dispatch.c:600-608 | a peer whose name lookup fails has its descriptor closed and leaves nothing behind |
| TableTrace.TellsThenCloses | src/dispatch.c:291-380 | in every run each end of a connection is followed directly by the close of the descriptor accepted for it, if positive; nothing else is closed but the descriptor of a peer without a name, directly after its accept; a timeout is followed directly by the end, and an accept directly by NEW or the close |
| TableTrace.SweepTells | src/dispatch.c:353-387 | a sweep tells exactly the connections it ends, of the timeout and directly after it of the end, once each |
| TableTrace.ReceiveTells | src/dispatch.c:513-549 | of the connections examined, exactly those with data are told of data and exactly those at end of file of the end, once each, by the observation made for each |
| TableClock.TimelyExactly | src/dispatch.c:324-327 | after a sweep a timer is timely if and only if it ends after the second swept |
| TableClock.ReachesTimely | src/dispatch.c:95-327 | along clock readings that never set a timer to end by the latest sweep, every pending deadline stays at or after the hand |
| TableClock.LastSweepInTime | src/dispatch.c:353-387 | a run that ends in a sweep has ended exactly the connections whose time had come by its clock |
| TableClock.SweepExactInTime | src/dispatch.c:353-387 | after every such run a sweep ends exactly the connections whose time has come |
| TableSweeps.HandInSeconds | src/dispatch.c:88-387 | from creation on the hand is at 16384 ticks a second for the creation time, and from the first sweep that reaches it one past the tick of the latest sweep |
| TableSweeps.EveryRunAccounted | src/event-timeout.c:121-127 | in every run each connection has the descriptor accept() gave, and in each list the latest accepted comes first |
| TableSweeps.TimerInSeconds | src/dispatch.c:324-327 | in every run in time a timer runs out 16384 ticks a second after the clock at acceptance plus the timeout of the service |
| TableSweeps.EndsInSeconds | src/dispatch.c:353-387 | a sweep then ends a connection if and only if that second has come |
| TableSweeps.SweepsInOrder | src/dispatch.c:353-387 | with 2^20 slots, a sweep less than 64 seconds after the latest tells of timeouts in the order in which timers run out, the latest accepted first within a second, and moves the hand no further than the seconds passed |
| Dispatch.Dispatcher.constructor | src/dispatch.c:88-98 | the dispatcher starts empty, with a ring of 1024*1024 slots whose hand is at 16384 ticks a second for the clock |
| Dispatch.Dispatcher.TakeOut | src/dispatch.c:276-278 | the array step of removal, with every other row of the table standing |
| Dispatch.Release | src/dispatch.c:294-305 | the three unlinks are safe on timers linked or not and disturb no other connection |
| Dispatch.Dispatcher.ConnectionRemove | src/dispatch.c:269-306 | does to the fields, the ring and the trace what the table says; the structures in use are again exactly those of the live connections |
| Dispatch.Dispatcher.ConnectionAdd | src/dispatch.c:310-346 | likewise for a new connection, given that the array's growth passes the allocation guard |
| Dispatch.Dispatcher.InUse | src/dispatch.c:305-316 | every structure in use is that of a connection in the table |
| Dispatch.ContainerOf | src/dispatch.c:366-385 | a timer's address less its offset is the address of a structure in use, whose index leads to it |
| Dispatch.Dispatcher.NextExpired | src/dispatch.c:366-374 | returns the connection around the timer that the ring gives up, which is still in the table |
| Dispatch.Dispatcher.TimeoutInactivity | src/dispatch.c:353-387 | the sweep terminates with the table that the sweep over values gives, on every clock reading, and moves the hand just from the old position to the new |
| Dispatch.Dispatcher.ReceiveLoop | src/dispatch.c:513-549 | the loop with its wrapping cursor terminates with the table and the visits of the scan over values |
| Dispatch.Dispatcher.AcceptLoop | src/dispatch.c:578-614 | each service's arrival becomes the corresponding input to the table, in order, and each connection accepted is one the trace has not mentioned |
| Dispatch.EachArrival | src/dispatch.c:578-614 | the k-th arrival with a descriptor is the k-th input, with that descriptor, the clock read for it and the timeout of its own service |
| Dispatch.Dispatcher.Process | src/dispatch.c:512-643 | what a dispatch does before the null ring matters: a receive, the accepts and a sweep, in that order; a new structure may have the address of one that the same dispatch freed |
| Dispatch.Dispatcher.TimeoutSleep | src/dispatch.c:391-453 | draining the sleep ring succeeds if and only if the ring exists; it is empty and stays so |
| Dispatch.Dispatcher.Dispatch | src/dispatch.c:497-648 | the call returns if and only if `select()` returned 0 or the sleep ring exists, which `dispatcher_create` never makes; otherwise it stops at the null ring, after the receive, the accepts and the sweep have been done in full |
| ServerLoop.Server.Turn | src/main.c:59-67 | a turn adds the inputs of one dispatch to the run so far; another turn follows if and only if nothing was ready or the sleep ring exists, so the code as it stands makes idle turns and then at most one busy one, while more busy turns are those of the server with that ring created |
| ServerLoop.Server.EveryTurnKeepsProtocol | src/dispatch.c:291-380 | after the turns made, with or without the sleep ring, no connection is forgotten and every connection's callbacks keep to the protocol |
| ServerLoop.Server.EveryTurnConservesDescriptors | src/dispatch.c:294-317 | likewise for descriptors, if accept() returns none that is open |
| ServerLoop.Server.EveryTurnTellsThenCloses | src/dispatch.c:291-380 | after the turns made, each end was told before its descriptor was closed, which came next, and each timeout before its end |
| ServerLoop.Server.EveryTurnHandInSeconds | src/event-timeout.c:59-93 | after the turns made, the ring has 1024*1024 slots and its hand is where creation or the latest sweep put it |
| ServerLoop.Server.EveryTurnSweepsInOrder | src/dispatch.c:353-387 | a next sweep less than 64 seconds after the latest ends connections in the order in which their timers run out |
| ServerLoop.Server.EveryTurnSweepsInTime | src/dispatch.c:353-387 | if the clock sets no timer to end by the latest sweep, the last turn in which something was ready has ended exactly the connections whose time had come by the clock it read, and left every other its descriptor and deadline |
| ServerLoop.Server.NextSweepInTime | src/dispatch.c:353-387 | under the same condition a sweep made next, at any time, ends exactly those whose time has come by then |
| PollModel.ServeShrinks | src/dispatcher.c:174-216 | serving an entry leaves one less to serve, whatever its handler appends |
| PollLaws.LoopServes | src/dispatcher.c:174-216 | each entry with something reported is dispatched once, in the one branch its bits select, with that branch's calls in order; entries appended meanwhile are not |
| PollLaws.LoopKeeps | src/dispatcher.c:119-216 | entries present before stay unless their own turn removed them, the descriptors of those removed are closed in that order, and the rest is what handlers added |
| PollPass.PassByBits | src/dispatcher.c:174-216 | by the reported bits: POLLHUP makes one CLOSED call and removes the entry; else POLLERR makes ERRORED and CLOSED and removes it; else POLLIN makes one READABLE, else POLLOUT one WRITEABLE, and the reply to that call decides whether the entry goes and what it is watched for; any other bit makes one CLOSED and removes it; handlers of other entries are not called, and what the calls add is in the list in order |
| PollPass.EveryPassByBits | src/dispatcher.c:145-219 | so does every pass after any additions and passes from creation on |
| PollLaws.LoopRemoves | src/dispatcher.c:182-215 | an entry served is removed if and only if its event is a hang-up, an error or unknown, or the very handler call it led to asked for it |
| PollLaws.QuietStay | src/dispatcher.c:177-180 | an entry with nothing reported is left exactly as it was |
| PollRuns.EveryRunConserves | src/dispatcher.c:119-291 | over any number of additions and passes, whatever the handlers do, each positive descriptor was added as often as it is in the list or has been closed |
| PollRuns.EveryPassServes | src/dispatcher.c:174-216 | from creation on, after any additions and passes, the next pass dispatches each entry with something reported exactly once and removes it for its event or at its own handler's request |
| PollRuns.DestroyClosesAll | src/dispatcher.c:295-302 | destroying the dispatcher after any run leaves each positive descriptor closed as often as it was added |
| PollLoop.Dispatcher.Destroy | src/dispatcher.c:295-302 | removal from the end empties the list with the closes that the value says |
| PollLoop.Dispatcher.AddConnection | src/dispatcher.c:251-291 | appends one entry; there is always room for it, and the capacity grows exactly when that entry fills the list |
| PollLoop.Dispatcher.SetEvent | src/dispatcher.c:223-239 | sets the interest of one entry and clears what was reported for it |
| PollLoop.Dispatcher.RemoveAt | src/dispatcher.c:119-140 | removes one entry by moving the last into its place and closes its descriptor if positive |
| PollLoop.Dispatcher.Dispatch | src/dispatcher.c:145-219 | the loop with its wrapping 32-bit cursor terminates with the list, calls and removals of the loop over values |
| EchoModel.EchoesPrefix | src/builtin-echo.c:83-119 | after every run of partial sends what was sent is a prefix of what was received, short of it by the buffer, which is empty exactly when the connection waits to read |
| EchoModel.StreamsExactly | src/builtin-echo.c:83-119 | after every run, by the results of the system calls alone: received is all that recv() gave, sent is as much of it from the start as send() took, the rest is pending, and the connection asks to be closed if and only if the last recv() or send() failed or met the end |
| EchoModel.FillExactly | src/builtin-echo.c:85 | receiving into the buffer loses nothing if and only if nothing was pending |
| EchoModel.EndedStreamIsEchoed | src/builtin-echo.c:86-92 | when the peer ends the stream, or receiving fails, everything received has been sent |
| EchoRuns.EveryConnectionEchoes | src/builtin-echo.c:36-123 | under the poll loop, over any number of passes and whatever the system calls return, each connection has sent what it received, in order, but for the bytes in its buffer, and its entry is watched for reading exactly when the buffer is empty |
| EchoStreams.StreamsOfEveryRun | src/builtin-echo.c:83-119 | under the poll loop, every entry ever added but the listeners has received what recv() gave in the READABLE calls made for it and sent what send() took in its calls |
| EchoStreams.EveryPassEchoes | src/builtin-echo.c:83-119 | in each pass of each run, by the bits reported: an open connection receives and sends what its one call's results say and stays listed unless one of them failed; hung up or in error it leaves with its streams as they were |
| EchoStreams.EveryPassAnswers | src/dispatcher.c:174-291 | in each pass the handler calls have the results in order, listeners answer as theirs say, and what they add joins the list in order |
| EchoRuns.HandledReached | src/dispatcher.c:197-239 | what the loop delivers to a connection is what its interest asked for, and nothing after it asked to be closed |
| EchoRuns.EchoLoopIsLoop | src/dispatcher.c:174-216 | the loop with echo handlers is the poll loop given the replies they make |
| EchoRuns.EchoRunConserves | src/dispatcher.c:119-291 | its runs are runs of the poll dispatcher, so descriptors are conserved |
| Echo.EchoConnection.OnReadable | src/builtin-echo.c:83-98 | the READABLE case on the buffer does what the value says, going on to write |
| Echo.EchoConnection.OnWriteable | src/builtin-echo.c:100-119 | the WRITEABLE case keeps the unsent rest at the front of the buffer |

## Left out

- Socket creation, bind, listen, address lookup and socket options: calls into the system whose results are parameters where they matter.
- `timeout_sleep` and `timeout_receive` on a sleep ring with timers in it: no code sets such a timer. The ring is null in the model, as in the code, or empty; the two timers of a connection are entries that are never linked.
- The loops over `errset` and all printing: no state.
- `dispatcher_add_listener` of src/dispatch.c beyond the timeout of a service, which is a parameter of each service here (the code sets 5 seconds).
- Connection records of src/dispatcher.c: the code allocates the first one only and leaves stale pointers behind; the model has the poll list, and a handler's request to close is part of its reply.
- `builtin_echo_listen` and the CREATED event: the listener registers the descriptor it listens on and CREATED is never delivered; the echo connection starts in the state that CREATED is meant to establish.
- Services without a receive callback: data is recorded as reported to the service whether or not it has one.
- PollLoop.Dispatcher.AddConnection: the poll list only; the writes to the connection record and the growth of the array of records are not modelled, because from the second entry on the code writes through a pointer it never set.
- PollLoop.Dispatcher.RemoveAt: the poll list only; freeing the record and moving the record's pointer are not modelled, for the same reason.
- Handlers that act on other entries than their own, and callbacks that call the dispatcher again.
- Allocation failure: a request that passes the guard succeeds, and one that does not ends the program, so the growth of the array of connections is a precondition.
- TimeoutRing.Timeouts.Remove: requires that the scan ends, as it does unless the bound is 2^64 - 1 and the ring is empty; on that input the C function does not return.
- PollLoop.Dispatcher.Dispatch: requires that no append of the pass, where it happens, carries the 32-bit capacity around to 0; what the C code then does with a list of no elements is undefined.
- WheelRuns.EveryRunIsTheMap: runs over an unbounded hand; runs on the 64-bit counter, wraps included, are in WheelWordRuns, without the order of insertion.
- WheelRuns.HandMonotone: speaks of the unbounded hand; WheelWord.BackExactlyOnWrap says when the 64-bit hand goes back.
- TableRuns.NoForgottenConnection: a structure freed and allocated again at the same address counts as a new connection.
- src/main.c beyond its loop: the telnet callbacks have no effect on the dispatcher.
- src/logger.c, src/mymalloc.c, src/stub-lua.c and the platform wrappers: no part of these subsystems.
