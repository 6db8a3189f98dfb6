/** The echo connection of src/builtin-echo.c over values: the "TCP Based Echo Service" of RFC 862. */
module EchoModel {
  import opened PollModel

  type Byte = x: int | 0 <= x < 256

  const CAPACITY: nat := 2048

  /** What recv() gives: an error, or bytes; no bytes is the end of the stream. */
  datatype Arrival = Failed | Bytes(data: seq<Byte>)

  /** A connection: what waits in the buffer, and the two streams so far. */
  datatype Conn = Conn(pending: seq<Byte>, interest: Interest, closing: bool, received: seq<Byte>, sent: seq<Byte>)

  /** An event with the results of the system calls it leads to; `count` is what send() returns. */
  datatype Input = OnReadable(arrived: Arrival, count: int) | OnWriteable(count: int)

  /** The state DISPATCH_CREATED is meant to establish. */
  const CREATED := Conn([], Readable, false, [], [])

  /** The DISPATCH_WRITEABLE case. */
  function Write(c: Conn, count: int): Conn
    requires count <= |c.pending|
  {
    if count < 0 then c.(closing := true)
    else if count < |c.pending| then
      c.(pending := c.pending[count..], sent := c.sent + c.pending[..count], interest := Writeable)
    else
      c.(pending := [], sent := c.sent + c.pending, interest := Readable)
  }

  /** recv() into the buffer, whatever was there. */
  function Fill(c: Conn, data: seq<Byte>): Conn
  {
    c.(pending := data, received := c.received + data)
  }

  /** The DISPATCH_READABLE case; with data it goes on to write. */
  function Read(c: Conn, arrived: Arrival, count: int): Conn
    requires arrived.Bytes? && arrived.data != [] ==> count <= |arrived.data|
  {
    if arrived == Failed || arrived.data == [] then c.(pending := [], closing := true)
    else Write(Fill(c, arrived.data), count)
  }

  /**
    poll() reports only what was asked for, and nothing once the connection is closing; recv() fills at
    most the buffer and send() takes at most what it is given.
  */
  predicate Admissible(c: Conn, input: Input)
  {
    !c.closing &&
    match input
    case OnReadable(arrived, count) =>
      c.interest == Readable && (arrived.Bytes? ==> |arrived.data| <= CAPACITY && -1 <= count <= |arrived.data|)
    case OnWriteable(count) => c.interest == Writeable && -1 <= count <= |c.pending|
  }

  function Step(c: Conn, input: Input): Conn
    requires Admissible(c, input)
  {
    match input
    case OnReadable(arrived, count) => Read(c, arrived, count)
    case OnWriteable(count) => Write(c, count)
  }

  /**
    The branch that the poll loop takes for an entry watched with this interest is the one Admissible
    asks for: poll() sets bits that were asked for, and the bits for errors.
  */
  lemma DeliveredAsAsked(interest: Interest, revents: set<Flag>)
    requires revents <= EventsFor(interest) + {POLLERR, POLLHUP, POLLOTHER}
    ensures BranchOf(revents) == In ==> interest == Readable
    ensures BranchOf(revents) == Out ==> interest == Writeable
  {}

  predicate AdmissibleRun(c: Conn, inputs: seq<Input>)
    decreases inputs
  {
    inputs == [] || (Admissible(c, inputs[0]) && AdmissibleRun(Step(c, inputs[0]), inputs[1..]))
  }

  function Run(c: Conn, inputs: seq<Input>): Conn
    requires AdmissibleRun(c, inputs)
    decreases inputs
  {
    if inputs == [] then c else Run(Step(c, inputs[0]), inputs[1..])
  }

  /** Nothing is lost, doubled or reordered, and the buffer is watched for writing exactly while it holds something. */
  ghost predicate Inv(c: Conn)
  {
    c.received == c.sent + c.pending && |c.pending| <= CAPACITY &&
    (!c.closing ==> (c.interest == Readable <==> c.pending == []))
  }

  /** Filling the buffer loses nothing exactly when nothing was pending. */
  lemma FillExactly(c: Conn, data: seq<Byte>)
    requires c.received == c.sent + c.pending
    ensures Fill(c, data).received == Fill(c, data).sent + Fill(c, data).pending <==> c.pending == []
  {}

  lemma StepKeeps(c: Conn, input: Input)
    requires Inv(c) && Admissible(c, input)
    ensures Inv(Step(c, input))
  {}

  lemma {:induction false} RunKeeps(c: Conn, inputs: seq<Input>)
    requires Inv(c) && AdmissibleRun(c, inputs)
    ensures Inv(Run(c, inputs))
    decreases inputs
  {
    if inputs == [] {
    } else {
      StepKeeps(c, inputs[0]);
      RunKeeps(Step(c, inputs[0]), inputs[1..]);
    }
  }

  /** Echo correctness: after every run what was sent is a prefix of what was received, short of it by the buffer. */
  lemma EchoesPrefix(inputs: seq<Input>)
    requires AdmissibleRun(CREATED, inputs)
    ensures var c := Run(CREATED, inputs);
            c.sent <= c.received && c.received == c.sent + c.pending && |c.pending| <= CAPACITY &&
            (!c.closing ==> (c.interest == Readable <==> c.received == c.sent))
  {
    RunKeeps(CREATED, inputs);
    var c := Run(CREATED, inputs);
    assert c.received == c.sent <==> c.pending == [];
  }

  // ---------- what the system calls returned ----------

  /** The bytes that recv() gave. */
  function Got(input: Input): seq<Byte>
  {
    if input.OnReadable? && input.arrived.Bytes? then input.arrived.data else []
  }

  /** send() is called when the socket can take bytes, and at once when some have come. */
  predicate Sends(input: Input)
  {
    input.OnWriteable? || Got(input) != []
  }

  /** How many bytes send() took. */
  function Took(input: Input): nat
  {
    if Sends(input) && input.count > 0 then input.count else 0
  }

  /** recv() failed or met the end of the stream, or send() failed. */
  predicate Fails(input: Input)
  {
    if Sends(input) then input.count < 0 else true
  }

  function AllGot(inputs: seq<Input>): seq<Byte>
  {
    if inputs == [] then [] else Got(inputs[0]) + AllGot(inputs[1..])
  }

  function AllTook(inputs: seq<Input>): nat
  {
    if inputs == [] then 0 else Took(inputs[0]) + AllTook(inputs[1..])
  }

  lemma StepCounts(c: Conn, input: Input)
    requires Inv(c) && Admissible(c, input)
    ensures Step(c, input).received == c.received + Got(input)
    ensures |Step(c, input).sent| == |c.sent| + Took(input)
    ensures Step(c, input).closing <==> Fails(input)
  {}

  lemma {:induction false} RunCounts(c: Conn, inputs: seq<Input>)
    requires Inv(c) && AdmissibleRun(c, inputs)
    ensures Run(c, inputs).received == c.received + AllGot(inputs)
    ensures |Run(c, inputs).sent| == |c.sent| + AllTook(inputs)
    ensures Run(c, inputs).closing <==> if inputs == [] then c.closing else Fails(inputs[|inputs| - 1])
    decreases inputs
  {
    hide Inv, Step, Admissible;
    if inputs == [] {
    } else {
      var d := Step(c, inputs[0]);
      StepKeeps(c, inputs[0]);
      StepCounts(c, inputs[0]);
      RunCounts(d, inputs[1..]);
      assert c.received + Got(inputs[0]) + AllGot(inputs[1..]) == c.received + (Got(inputs[0]) + AllGot(inputs[1..]));
    }
  }

  /**
    What a connection is after every run, by the results of the system calls alone: it has received all
    that recv() gave, it has sent as much of that, from the start, as send() took, the rest is in the
    buffer of 2048 bytes, and it asks to be closed exactly if the last call to recv() or send() failed.
  */
  lemma StreamsExactly(inputs: seq<Input>)
    requires AdmissibleRun(CREATED, inputs)
    ensures AllTook(inputs) <= |AllGot(inputs)| <= AllTook(inputs) + 2048
    ensures var c := Run(CREATED, inputs);
            c.received == AllGot(inputs) && c.sent == AllGot(inputs)[..AllTook(inputs)] &&
            c.pending == AllGot(inputs)[AllTook(inputs)..] &&
            (c.closing <==> inputs != [] && Fails(inputs[|inputs| - 1])) &&
            (!c.closing ==> (c.interest == Readable <==> AllTook(inputs) == |AllGot(inputs)|))
  {
    hide Inv, Run, AllGot, AllTook;
    EchoesPrefix(inputs);
    CreatedKeeps();
    RunCounts(CREATED, inputs);
    var c := Run(CREATED, inputs);
    assert [] + AllGot(inputs) == AllGot(inputs);
    assert c.received == c.sent <==> c.pending == [];
  }

  lemma CreatedKeeps()
    ensures Inv(CREATED)
  {}

  /** A stream that the peer ends, or whose receipt fails, has been echoed to the last byte. */
  lemma EndedStreamIsEchoed(inputs: seq<Input>, last: Input)
    requires AdmissibleRun(CREATED, inputs) && Admissible(Run(CREATED, inputs), last)
    requires last.OnReadable? && (last.arrived == Failed || last.arrived.data == [])
    ensures var c := Step(Run(CREATED, inputs), last); c.closing && c.sent == c.received
  {
    EchoesPrefix(inputs);
  }
}
