/**
  `k_recv` and its helpers (`cmd_load.c`) as an object whose fields are the
  source's globals, proved against module `KermitSpec`.
 */
module KermitReceiver {
  import opened KermitData
  import opened KermitSpec

  const SEND_DATA_SIZE := 20

  class Receiver {
    var mem: seq<Byte>            // memory from bin_start_address up
    var addr: nat                 // os_data_addr
    var savedAddr: nat            // os_data_addr_saved
    var escape: bool              // k_data_escape
    var savedEscape: bool         // k_data_escape_saved
    var quote: Byte               // his_quote
    var lastN: int                // last_n
    var done: bool
    const sendParms: array<Byte>  // send_parms
    var sendPtr: nat              // send_ptr

    constructor ()
      ensures State() == INIT && Valid() && fresh(sendParms)
    {
      mem, addr, savedAddr, escape, savedEscape := [], 0, 0, false, false;
      quote, lastN, done, sendPtr := K_ESCAPE, -1, false, 0;
      sendParms := new Byte[SEND_DATA_SIZE](_ => 0);
    }

    function State(): Rx
      reads this
    {
      Rx(mem, addr, escape, savedAddr, savedEscape, quote, lastN, done)
    }

    ghost predicate Valid()
      reads this
    {
      Inv(State()) && sendParms.Length == SEND_DATA_SIZE
    }

    /** `bin_data_char`: store one byte in memory. */
    method BinDataChar(c: Byte)
      requires Valid()
      modifies this`mem, this`addr
      ensures Valid() && mem == Store(old(mem), old(addr), c) && addr == old(addr) + 1
    {
      mem := Store(mem, addr, c);
      addr := addr + 1;
    }

    /** `k_data_char`: undo control prefixing, one character at a time. */
    method KDataChar(c: Byte)
      requires Valid()
      modifies this`mem, this`addr, this`escape
      ensures Valid() && State() == PutChar(old(State()), c)
    {
      if escape {
        BinDataChar(KTrans(c));
        escape := false;
      } else if c == quote {
        escape := true;
      } else {
        BinDataChar(c);
      }
    }

    method KDataSave()
      requires Valid()
      modifies this`savedAddr, this`savedEscape
      ensures Valid() && savedAddr == addr && savedEscape == escape
    {
      savedAddr, savedEscape := addr, escape;
    }

    method KDataRestore()
      requires Valid()
      modifies this`addr, this`escape
      ensures Valid() && State() == Restore(old(State()))
    {
      addr, escape := savedAddr, savedEscape;
    }

    /** Decide by sequence number: a repeated one goes back to the checkpoint, a new one takes one. */
    method CheckSequence(n: nat)
      requires Valid()
      modifies this`addr, this`escape, this`lastN, this`savedAddr, this`savedEscape
      ensures Valid() && State() == Checkpoint(old(State()), n)
    {
      if n == lastN {
        KDataRestore();
      } else {
        lastN := n;
        KDataSave();
      }
    }

    /** Payload of a data frame, written to memory as it comes in. */
    method TakeData(payload: seq<Byte>)
      requires Valid()
      modifies this`mem, this`addr, this`escape
      ensures Valid() && State() == PutText(old(State()), payload)
    {
      var i := 0;
      while i < |payload|
        invariant 0 <= i <= |payload|
        invariant Valid() && State() == PutText(old(State()), payload[..i])
      {
        assert payload[..i + 1][..i] == payload[..i];
        KDataChar(payload[i]);
        i := i + 1;
      }
      assert payload[..i] == payload;
    }

    /** Payload of a send-initiate frame: kept in a fixed buffer whose last cell absorbs any excess. */
    method TakeParms(payload: seq<Byte>)
      requires Valid() && sendPtr == 0
      modifies this`sendPtr, sendParms
      ensures sendPtr == if |payload| < SEND_DATA_SIZE then |payload| else SEND_DATA_SIZE - 1
      ensures forall k :: 0 <= k < sendPtr && k < SEND_DATA_SIZE - 1 ==> sendParms[k] == payload[k]
    {
      var i := 0;
      while i < |payload|
        invariant 0 <= i <= |payload|
        invariant sendPtr == if i < SEND_DATA_SIZE then i else SEND_DATA_SIZE - 1
        invariant forall k :: 0 <= k < sendPtr && k < SEND_DATA_SIZE - 1 ==> sendParms[k] == payload[k]
      {
        sendParms[sendPtr] := payload[i];
        sendPtr := sendPtr + 1;
        if sendPtr >= SEND_DATA_SIZE {
          sendPtr := sendPtr - 1;
        }
        i := i + 1;
      }
    }

    /** The part of `handle_send_packet` that matters to the data: the sixth parameter is the prefix. */
    method HandleSendPacket()
      requires Valid() && sendPtr < SEND_DATA_SIZE
      modifies this`quote
      ensures quote == if sendPtr >= 6 then sendParms[5] else K_ESCAPE
      ensures Valid()
    {
      quote := K_ESCAPE;
      var bytes := if sendPtr == SEND_DATA_SIZE - 1 then sendPtr - 1 else sendPtr;
      if bytes >= 6 {
        quote := sendParms[5];
      }
    }

    /** One pass of the receive loop. */
    method ReceiveFrame(f: Frame)
      requires Valid()
      modifies this, sendParms
      ensures Valid() && State() == Receive(old(State()), f)
    {
      sendPtr := 0;
      CheckSequence(f.n);
      if f.kind == DATA_TYPE {
        PutTextFrame(State(), f.payload);
        TakeData(f.payload);
      } else if f.kind == SEND_TYPE {
        TakeParms(f.payload);
      }
      if !f.good {
        KDataRestore();
      } else if f.kind == SEND_TYPE {
        HandleSendPacket();
      } else if f.kind == BREAK_TYPE {
        done := true;
      }
    }

    /** `k_recv` on a trace of frames and bad headers: stops after a good break frame and returns the image size; a
        control-C in place of a further packet makes it return 0, with the image left in memory. */
    method KRecv(events: seq<Event>, interrupted: bool) returns (size: nat, used: nat)
      requires sendParms.Length == SEND_DATA_SIZE
      modifies this, sendParms
      ensures Valid() && used <= |events| && State() == ReceiveEvents(events[..used])
      ensures forall i :: 0 <= i < used - 1 ==> !IsBreak(events[i])
      ensures used < |events| ==> used > 0 && IsBreak(events[used - 1])
      ensures mem[..addr] == Delivered(AsFrames(events[..used])).out
      ensures var ended := used > 0 && IsBreak(events[used - 1]);
              size == if interrupted && !ended then 0 else |Delivered(AsFrames(events[..used])).out|
    {
      hide Receive, Delivered, AsFrames, IsBreak, ReceiveEvents;
      NoEvents();
      mem, addr, savedAddr, escape, savedEscape := [], 0, 0, false, false;
      quote, lastN, done := K_ESCAPE, -1, false;
      used := 0;
      while !done && used < |events|
        invariant used <= |events| && Valid()
        invariant State() == ReceiveEvents(events[..used])
        invariant forall i :: 0 <= i < used - 1 ==> !IsBreak(events[i])
        invariant done <==> used > 0 && IsBreak(events[used - 1])
      {
        OneEvent(events, used);
        if events[used].Got? {
          ReceiveFrame(events[used].frame);
        } else {
          KDataRestore();
        }
        used := used + 1;
      }
      EventsDelivered(events[..used]);
      if interrupted && !done {
        return 0, used;
      }
      size := addr;
    }
  }

  lemma NoEvents()
    ensures ReceiveEvents([]) == INIT
  {
  }

  /** One more event, and whether it ends the transfer. */
  lemma OneEvent(events: seq<Event>, i: nat)
    requires i < |events|
    ensures var s, e := ReceiveEvents(events[..i]), events[i];
            && ReceiveEvents(events[..i + 1]) == (if e.Got? then Receive(s, e.frame) else HeaderError(s))
            && (ReceiveEvents(events[..i + 1]).done <==> s.done || IsBreak(e))
  {
    hide Receive;
    assert events[..i + 1][..i] == events[..i];
    LastEvent(ReceiveEvents(events[..i]), events[i]);
  }
}
