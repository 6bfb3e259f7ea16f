/**
 The firmware and the driver, as the classes that update their buffers in place, joined by the
 bus and the interrupt line.  Every method is one step of `Link`, so what is proved about the
 runs of `Link` is proved about this code.
 */
module LinkMachine {
  import opened Bytes
  import opened Frame
  import opened SpiSlave
  import opened HostDriver
  import opened Link

  /** The state after a transfer, field by field. */
  ghost function AfterTransfer(s: Sys, late: bool): Sys
    requires s.fw.Shape() && s.dev.Shape() && s.submitted > 0
  {
    var fw := TransferDone(s.fw, s.dev.command);
    Sys(fw, Clocked(s.dev, s.fw.tx, late), s.submitted - 1, s.finished + 1,
        s.edge || (!s.fw.pin && fw.pin), s.rechecks)
  }

  lemma TransferStep(s: Sys, late: bool)
    requires Sound(s) && s.submitted > 0
    ensures Step(s, Transfer(late)) == AfterTransfer(s, late)
  {
  }

  class Machine {
    const cop: Coprocessor
    const dev: Device
    /** Transfers the bus has carried out, completions that have run, and pin re-checks made. */
    var carried: nat
    var completed: nat
    var rechecked: nat
    var edge: bool

    ghost function Footprint(): set<object> {
      {this, cop, cop.queue, cop.queue.slots, cop.tx, cop.rx,
       dev, dev.commandBuffer, dev.dataBuffer, dev.userBuffer}
    }

    ghost predicate Valid()
      reads Footprint()
    {
      && cop.Valid() && dev.Valid()
      && {cop.tx, cop.rx} !! {dev.commandBuffer, dev.dataBuffer, dev.userBuffer}
      && rechecked <= completed <= carried <= dev.submitted
    }

    ghost function Value(): Sys
      requires Valid()
      reads Footprint()
    {
      Sys(cop.State(), dev.State(), dev.submitted - carried, carried - completed, edge, completed - rechecked)
    }

    /** Messages submitted that the bus has not carried out. */
    function Outstanding(): int
      reads this, dev
    {
      dev.submitted - carried
    }

    constructor ()
      ensures Valid() && Value() == START
      ensures fresh(Footprint())
    {
      cop := new Coprocessor();
      dev := new Device();
      carried, completed, rechecked, edge := 0, 0, 0, false;
    }

    method OnAdvert(report: Report)
      requires Valid() && Sound(Value())
      modifies this, cop, cop.queue, cop.queue.slots, cop.tx
      ensures Valid() && Value() == Step(old(Value()), Advert(report))
    {
      var pinBefore := cop.pin;
      var ok := cop.OnAdvertisement(report);
      edge := edge || (!pinBefore && cop.pin);
    }

    /** 40 bytes each way: the firmware's transmit buffer in, the driver's command buffer out. */
    method ClockBytes(late: bool)
      requires Valid() && Clocked(dev.State(), cop.State().tx, late).Shape()
      modifies cop.rx, dev.dataBuffer
      ensures Valid()
      ensures cop.State() == old(cop.State()) && cop.rx[0] == dev.commandBuffer[0]
      ensures dev.State() == old(Clocked(dev.State(), cop.State().tx, late))
    {
      forall i | 0 <= i < TRANSFER_LEN {
        dev.dataBuffer[i] := if !late then cop.tx[i] else if i == 0 then 0 else cop.tx[i - 1];
      }
      assert dev.dataBuffer[..] == old(Clocked(dev.State(), cop.State().tx, late)).data;
      forall i | 0 <= i < TRANSFER_LEN {
        cop.rx[i] := dev.commandBuffer[i];
      }
      assert cop.queue.slots[..] == old(cop.queue.slots[..]);
    }

    /** The oldest message is carried out, and the firmware's handler runs. */
    method OnTransfer(late: bool)
      requires Valid() && Sound(Value())
      modifies this, cop, cop.queue, cop.tx, cop.rx, dev.dataBuffer
      ensures Valid() && Value() == Step(old(Value()), Transfer(late))
    {
      ghost var before := Value();
      if carried < dev.submitted {
        ClockedDecodable(before.dev, before.fw, late);
        TransferStep(before, late);
        CarryOut(late);
      }
    }

    method CarryOut(late: bool)
      requires Valid() && carried < dev.submitted && Clocked(dev.State(), cop.State().tx, late).Shape()
      modifies this, cop, cop.queue, cop.tx, cop.rx, dev.dataBuffer
      ensures Valid() && Value() == AfterTransfer(old(Value()), late)
    {
      ClockBytes(late);
      HandleTransfer();
      carried := carried + 1;
    }

    /** The firmware's handler, with the host latching the edge it may cause. */
    method HandleTransfer()
      requires Valid()
      modifies this`edge, cop, cop.queue, cop.tx
      ensures Valid()
      ensures cop.State() == TransferDone(old(cop.State()), cop.rx[0])
      ensures dev.State() == old(dev.State())
      ensures edge == (old(edge) || (!old(cop.pin) && cop.pin))
    {
      var pinBefore := cop.pin;
      cop.OnTransferDone();
      edge := edge || (!pinBefore && cop.pin);
    }

    method OnComplete()
      requires Valid() && Sound(Value())
      modifies this, dev, dev.userBuffer
      ensures Valid() && Value() == Step(old(Value()), Complete)
    {
      if completed < carried {
        if dev.complete == ReadIrqDone {
          dev.OnReadIrqDone();
        } else {
          var received := dev.OnCommandDone();
        }
        completed := completed + 1;
      }
    }

    method OnRecheck()
      requires Valid() && Sound(Value())
      modifies this, dev, dev.commandBuffer
      ensures Valid() && Value() == Step(old(Value()), Recheck)
    {
      if rechecked < completed {
        dev.RecheckPin(cop.pin);
        rechecked := rechecked + 1;
      }
    }

    method OnInterrupt()
      requires Valid() && Sound(Value())
      modifies this, dev, dev.commandBuffer
      ensures Valid() && Value() == Step(old(Value()), Interrupt)
    {
      if edge {
        edge := false;
        dev.StartReadIrq();
      }
    }

    /** A user's ioctl; it is told busy exactly when the SPI is taken. */
    method OnCommand(command: byte) returns (busy: bool)
      requires Valid() && Sound(Value())
      modifies dev, dev.commandBuffer
      ensures Valid() && Value() == Step(old(Value()), Command(command))
      ensures busy == old(Value()).dev.pending
    {
      busy := dev.IssueSimpleCommand(command);
    }

    method OnRead(faults: bool) returns (r: ReadResult)
      requires Valid() && Sound(Value())
      modifies dev
      ensures Valid() && Value() == Step(old(Value()), Read(faults))
      ensures r == if faults then Fault else Got(HostDriver.Read(old(dev.State()), faults).1)
    {
      r := dev.ReadToUser(faults);
    }

    /** Whatever happens next at this link. */
    method Do(action: Action)
      requires Valid() && Sound(Value())
      modifies Footprint()
      ensures Valid() && Value() == Step(old(Value()), action)
    {
      match action
      case Advert(report) => OnAdvert(report);
      case Transfer(late) => OnTransfer(late);
      case Complete => OnComplete();
      case Recheck => OnRecheck();
      case Interrupt => OnInterrupt();
      case Command(command) => var busy := OnCommand(command);
      case Read(faults) => var r := OnRead(faults);
    }
  }
}
