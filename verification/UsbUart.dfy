/** The driver of `usbcdc.c` and `usb_uart.c` as an object that its calls, the endpoint interrupt
    and the scheduler update; every method is a step of the machine in UsbCdc. */
module UsbUart {
  import opened Common
  import opened Seqs
  import opened Words
  import opened UsbCdc

  lemma InvParts(s: State)
    requires Inv(s)
    ensures Transfer(s) && Settled(s)
  {
  }

  class Driver {
    var lenToSend: nat
    var lastSendIndex: nat
    var txBuf: Option<Buffer>
    var callbacks: seq<Buffer>
    var pending: seq<Buffer>
    var wire: seq<seq<byte>>
    ghost var submitted: multiset<Buffer>
    ghost var sent: seq<Buffer>
    ghost var freed: multiset<Buffer>

    ghost function View(): State
      reads this
    {
      State(lenToSend, lastSendIndex, txBuf, callbacks, pending, wire, submitted, sent, freed)
    }

    constructor ()
      ensures View() == Init()
    {
      lenToSend, lastSendIndex, txBuf, callbacks, pending, wire := 0, 0, None, [], [], [];
      submitted, sent, freed := multiset{}, [], multiset{};
    }

    // usbcdc_sendBulkData; busy says how it finds the endpoint.
    method SendBulkData(busy: bool) returns (len: nat)
      requires Transfer(View())
      modifies this
      ensures View() == SendBulk(old(View()), busy)
      ensures len == if busy then 0 else Min(EPSIZE, old(lenToSend))
    {
      hide Transfer;
      if busy {
        return 0;
      }
      len := if lenToSend > EPSIZE then EPSIZE else lenToSend;
      if len == 0 {
        return 0;
      }
      Sending(View());
      var b := txBuf.value;
      lenToSend := lenToSend - len;
      CopyChunk(b.data, len);
      if lenToSend == 0 {
        lastSendIndex := 0;
        callbacks := callbacks + [b];
        sent := sent + [b];
        txBuf := None;
      }
    }

    // The bytes go into the endpoint one by one.
    method CopyChunk(data: seq<byte>, len: nat)
      requires lastSendIndex + len <= |data|
      modifies this`lastSendIndex, this`wire
      ensures lastSendIndex == old(lastSendIndex) + len
      ensures wire == old(wire) + [data[old(lastSendIndex)..lastSendIndex]]
    {
      ghost var at := lastSendIndex;
      var chunk := [];
      var i: nat := 0;
      while i < len
        invariant i <= len && lastSendIndex == at + i && wire == old(wire)
        invariant chunk == data[at..at + i]
      {
        chunk := chunk + [data[lastSendIndex]];
        lastSendIndex := lastSendIndex + 1;
        i := i + 1;
      }
      wire := wire + [chunk];
    }

    method SendData(b: Buffer, busy: bool) returns (status: Status)
      requires Transfer(View())
      modifies this
      ensures View() == UsbCdc.SendData(old(View()), b, busy)
      ensures status == if old(txBuf).Some? then USB_BUSY else SUCCESS
    {
      hide Transfer;
      if txBuf.Some? {
        return USB_BUSY;
      }
      Started(View(), b);
      lenToSend := |b.data|;
      txBuf := Some(b);
      lastSendIndex := 0;
      var _ := SendBulkData(busy);
      status := SUCCESS;
    }

    // A write made now would not have to wait, and nothing is in transfer.
    method IsAvailable() returns (available: bool)
      ensures Transfer(View()) ==> forall b, busy ::
        available <==> UsbCdc.Write(View(), b, busy).pending == View().pending
      ensures available <==> InFlight(View()) == []
      ensures Transfer(View()) && available ==> lenToSend == 0 && wire == AllChunks(sent)
    {
      available := txBuf.None?;
    }

    method WriteOrQueue(b: Buffer, busy: bool) returns (status: Status)
      requires Transfer(View())
      modifies this
      ensures View() == UsbCdc.Write(old(View()), b, busy)
      ensures status == SUCCESS || status == USB_MULTIBLOCK
      ensures status == SUCCESS <==> pending == old(pending)
      ensures status == USB_MULTIBLOCK <==> pending == old(pending) + [b]
      ensures status == USB_MULTIBLOCK ==> txBuf == old(txBuf) && wire == old(wire) && callbacks == old(callbacks)
      ensures status == SUCCESS <==> old(txBuf).None?
    {
      hide Transfer, UsbCdc.SendData;
      var available := IsAvailable();
      if available {
        status := SendData(b, busy);
      } else {
        pending := pending + [b];
        status := USB_MULTIBLOCK;
      }
    }

    // usb_uart_write, called by the application
    method Write(b: Buffer, busy: bool) returns (status: Status)
      requires Inv(View())
      modifies this
      ensures Inv(View()) && View() == Submit(old(View()), b, busy)
      ensures submitted == old(submitted) + multiset{b}
      ensures status == SUCCESS || status == USB_MULTIBLOCK
      ensures status == SUCCESS <==> pending == old(pending)
      ensures status == USB_MULTIBLOCK <==> pending == old(pending) + [b]
      ensures status == SUCCESS <==> old(txBuf).None?
    {
      hide Inv, Transfer, UsbCdc.Write, Owned;
      SubmitKeeps(View(), b, busy);
      ReadyToWrite(View(), b, busy);
      submitted := submitted + multiset{b};
      status := WriteOrQueue(b, busy);
    }

    // usb_uart_tXFinishCb for the i-th scheduled callback
    method TxFinishCb(i: nat, j: nat, busy: bool)
      requires Inv(View()) && i < |callbacks| && (pending != [] ==> j < |pending|)
      modifies this
      ensures Inv(View()) && View() == Finish(old(View()), i, j, busy)
    {
      hide Inv, Transfer, Settled, Without, UsbCdc.Write;
      FinishKeeps(View(), i, j, busy);
      InvParts(View());
      FreeKeeps(View(), i);
      freed := freed + multiset{callbacks[i]};
      callbacks := Without(callbacks, i);
      if |pending| != 0 {
        PopKeeps(View(), j);
        var b := pending[j];
        pending := Without(pending, j);
        var _ := WriteOrQueue(b, busy);
      }
    }

    method Perform(a: Action)
      requires Inv(View()) && Enabled(View(), a)
      modifies this
      ensures Inv(View()) && View() == Step(old(View()), a)
    {
      hide Inv, Submit, Finish, SendBulk;
      match a {
        case WriteAction(b, busy) => var _ := Write(b, busy);
        case Interrupt(busy) => OnInterrupt(busy);
        case Callback(i, j, busy) => TxFinishCb(i, j, busy);
      }
    }

    method OnInterrupt(busy: bool)
      requires Inv(View())
      modifies this
      ensures Inv(View()) && View() == SendBulk(old(View()), busy)
    {
      hide SendBulk;
      SendBulkKeeps(View(), busy);
      var _ := SendBulkData(busy);
    }

    // Any run of writes, interrupts and callbacks
    method Execute(run: seq<Action>)
      requires Inv(View()) && Legal(View(), run)
      modifies this
      ensures Inv(View()) && View() == Run(old(View()), run)
    {
      hide Inv, Step, Enabled;
      ghost var s0 := View();
      for k := 0 to |run|
        invariant Inv(View()) && Legal(View(), run[k..])
        invariant Run(View(), run[k..]) == Run(s0, run)
      {
        assert run[k..][0] == run[k] && run[k..][1..] == run[k + 1..];
        Perform(run[k]);
      }
    }
  }
}
