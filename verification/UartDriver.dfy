/** The UART driver's methods over its static variables, proved to take the steps of `Uart`. */
module UartDriver {
  import opened Words
  import opened Uart

  class Driver {
    const transfers: array<Transfer>   // static struct transfer_info transfers[NVMACHINES]
    const blocked: array<bool>         // vcpu->state == VCPU_BLOCKED, by id - 1
    var active: int                    // active_transfer
    var irqEnabled: bool               // UART_IRQ_TX in IEC
    var wire: seq<Byte>                // what was written to UARTTXREG

    ghost var submitted: seq<Buffer>
    ghost var finished: seq<Buffer>

    ghost function Now(): State
      reads this, transfers, blocked
    {
      State(transfers[..], active, irqEnabled, blocked[..], wire, submitted, finished)
    }

    constructor (n: nat)
      ensures Now() == Init(n) && fresh(transfers) && fresh(blocked)
    {
      transfers := new Transfer[n](_ => Transfer([], 0, 0, false));
      blocked := new bool[n](_ => false);
      active, irqEnabled, wire, submitted, finished := -1, false, [], [], [];
      new;
      assert transfers[..] == Init(n).transfers && blocked[..] == Init(n).blocked;
    }

    /** Lines 66-81. */
    method SchedulerTransferInterrupt(j: nat, buf: Buffer, next: nat)
      requires j < transfers.Length == blocked.Length
      modifies this`active, this`irqEnabled, transfers, blocked
      ensures active == (if old(active) < 0 then j else old(active))
        && irqEnabled == (old(irqEnabled) || old(active) < 0)
      ensures transfers[..] == old(transfers[..])[j := Transfer(buf, next, |buf|, true)]
      ensures blocked[..] == old(blocked[..])[j := true]
    {
      if active < 0 {
        irqEnabled := true;
        active := j;
      }
      transfers[j] := Transfer(buf, next, |buf|, true);
      blocked[j] := true;
    }

    /** Lines 123-145: `j` is the calling VCPU; the transmit queue turns full after `room` bytes. */
    method SendCall(j: nat, buf: Buffer, room: nat)
      requires j < transfers.Length == blocked.Length
      modifies this, transfers, blocked
      ensures Now() == Send(old(Now()), j, buf, room)
    {
      var i := 0;
      if active < 0 {
        while i < |buf| && i < room
          invariant i <= Min(|buf|, room)
          invariant wire == old(wire) + buf[..i]
          invariant Now() == old(Now()).(wire := wire)
        {
          wire := wire + [buf[i]];
          i := i + 1;
        }
      }
      submitted := submitted + [buf];
      if i < |buf| {
        SchedulerTransferInterrupt(j, buf, i);
      } else {
        finished := finished + [buf];
      }
    }

    /** Lines 86-116: the transmit queue turns full after `room` more bytes. */
    method TransferTxDone(room: nat)
      requires Transmitting(Now())
      modifies this, transfers, blocked
      ensures Now() == TxDone(old(Now()), room)
    {
      var j: nat := active;
      Transmit(j, room);
      if transfers[j].next >= transfers[j].size {
        ghost var t := transfers[j];
        finished := finished + [transfers[j].buf];
        blocked[j] := false;
        transfers[j] := transfers[j].(pending := false);
        assert transfers[..] == old(transfers[..])[j := t.(pending := false)];
        assert blocked[..] == old(blocked[..])[j := false];
        ActivateNext();
      }
    }

    /** Lines 92-96. */
    method Transmit(j: nat, room: nat)
      requires j < transfers.Length && transfers[j].next <= transfers[j].size == |transfers[j].buf|
      modifies this`wire, transfers
      ensures var t := old(transfers[j]);
        var next := Min(t.size, t.next + room);
        wire == old(wire) + t.buf[t.next..next] && transfers[..] == old(transfers[..])[j := t.(next := next)]
    {
      ghost var t := transfers[j];
      var sent := 0;
      while transfers[j].next < transfers[j].size && sent < room
        invariant sent <= room && transfers[j] == t.(next := t.next + sent) && t.next + sent <= t.size
        invariant wire == old(wire) + t.buf[t.next..t.next + sent]
        invariant transfers[..] == old(transfers[..])[j := transfers[j]]
        decreases t.size - transfers[j].next
      {
        wire := wire + [transfers[j].buf[transfers[j].next]];
        transfers[j] := transfers[j].(next := transfers[j].next + 1);
        sent := sent + 1;
      }
    }

    /** Lines 106-114. */
    method ActivateNext()
      modifies this`active, this`irqEnabled
      ensures active == FirstPending(transfers[..], 0) && irqEnabled == (old(irqEnabled) && 0 <= active)
    {
      var j := 0;
      while j < transfers.Length
        invariant j <= transfers.Length && FirstPending(transfers[..], 0) == FirstPending(transfers[..], j)
      {
        if transfers[j].pending {
          active := j;
          return;
        }
        j := j + 1;
      }
      irqEnabled := false;
      active := -1;
    }
  }
}
