/** The handler of src/builtin-echo.c with its buffer, proved against the connection over values. */
module Echo {
  import opened EchoModel
  import opened PollModel

  /** struct echo_data, with the poll interest and the closing flag that the dispatcher keeps for it. */
  class EchoConnection {
    const buf: array<Byte>
    var len: int
    var interest: Interest
    var closing: bool
    ghost var received: seq<Byte>
    ghost var sent: seq<Byte>

    ghost predicate Valid()
      reads this, buf
    {
      buf.Length == CAPACITY && -1 <= len <= CAPACITY
    }

    ghost function View(): Conn
      reads this, buf
      requires Valid()
    {
      Conn(if len > 0 then buf[..len] else [], interest, closing, received, sent)
    }

    constructor ()
      ensures Valid() && View() == CREATED && fresh(buf)
    {
      buf := new Byte[CAPACITY](_ => 0);
      len, interest, closing := 0, Readable, false;
      received, sent := [], [];
    }

    /** DISPATCH_WRITEABLE. send() returned `count`. */
    method OnWriteable(count: int)
      requires Valid() && len >= 0 && -1 <= count <= len
      modifies this, buf
      ensures Valid() && View() == Write(old(View()), count)
    {
      ghost var was := View();
      if count < 0 {
        closing := true;
      } else if count < len {
        sent := sent + was.pending[..count];
        forall k | 0 <= k < len - count {
          buf[k] := buf[k + count];
        }
        len := len - count;
        interest := Writeable;
      } else {
        sent := sent + was.pending;
        len := 0;
        interest := Readable;
      }
    }

    /** DISPATCH_READABLE. recv() returned `arrived`; `count` is what send() will return, if called. */
    method OnReadable(arrived: Arrival, count: int)
      requires Valid()
      requires arrived.Bytes? ==> |arrived.data| <= CAPACITY
      requires arrived.Bytes? && arrived.data != [] ==> -1 <= count <= |arrived.data|
      modifies this, buf
      ensures Valid() && View() == Read(old(View()), arrived, count)
    {
      if arrived == Failed {
        len := -1;
      } else {
        forall k | 0 <= k < |arrived.data| {
          buf[k] := arrived.data[k];
        }
        len := |arrived.data|;
        received := received + arrived.data;
      }
      if len <= 0 {
        assert arrived != Failed ==> received == old(received);
        closing := true;
      } else {
        assert buf[..len] == arrived.data;
        OnWriteable(count);
      }
    }
  }
}
