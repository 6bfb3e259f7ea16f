/**
 The host half of the link: the kernel driver's per-radio device.

 `Dev` is the device's state as a value; the class `Device` runs the same steps on its buffers
 in place.  `pending` is the ownership flag of the SPI buffers and of the device's one message.
 The completion handlers are cut in two, as other code can run between them: `Finish` copies
 and releases, and the re-check of the interrupt pin comes later.
 */
module HostDriver {
  import opened Bytes
  import opened Frame

  const COMMAND_READ_IRQ: byte := 1

  datatype Completion = ReadIrqDone | CommandDone

  /** The copy a completion makes stays inside the receive buffer. */
  predicate Decodable(data: seq<byte>) {
    |data| == HOST_BUF && CopyLen(data) <= HOST_BUF
  }

  datatype Dev = Dev(
    pending: bool, command: byte, complete: Completion,
    data: seq<byte>, user: seq<byte>, userLen: nat)
  {
    ghost predicate Shape() {
      Decodable(data) && |user| == USER_BUF && userLen <= USER_BUF
    }
  }

  const PROBED := Dev(false, 0, ReadIrqDone, Zeros(HOST_BUF), Zeros(USER_BUF), 0)

  /** Claims the SPI and fills in the message, or does nothing when it is taken. */
  ghost function Claim(dev: Dev, command: byte, complete: Completion): (r: (Dev, bool))
    requires dev.Shape()
    ensures r.0.Shape()
  {
    if dev.pending then (dev, false)
    else (dev.(pending := true, command := command, complete := complete), true)
  }

  ghost function ReadIrq(dev: Dev): (r: (Dev, bool))
    requires dev.Shape()
    ensures r.0.Shape()
  {
    Claim(dev, COMMAND_READ_IRQ, ReadIrqDone)
  }

  ghost function CheckIrq(dev: Dev, pinHigh: bool): (r: (Dev, bool))
    requires dev.Shape()
    ensures r.0.Shape()
  {
    if pinHigh then ReadIrq(dev) else (dev, false)
  }

  ghost function IssueCommand(dev: Dev, command: byte): (r: (Dev, bool))
    requires dev.Shape()
    ensures r.0.Shape()
  {
    Claim(dev, command, CommandDone)
  }

  /** Both completions: move a valid frame to the user buffer, then release the SPI. */
  ghost function Finish(dev: Dev): (r: Dev)
    requires dev.Shape()
    ensures r.Shape()
  {
    if Invalid(dev.data) then dev.(pending := false)
    else
      dev.(pending := false,
           user := Overwrite(dev.user, 0, Decode(dev.data)),
           userLen := CopyLen(dev.data))
  }

  /** What `read()` hands to the user, and what is left; a faulting copy leaves everything. */
  ghost function Read(dev: Dev, faults: bool): (r: (Dev, seq<byte>))
    requires dev.Shape()
    ensures r.0.Shape()
  {
    if faults then (dev, []) else (dev.(userLen := 0), dev.user[..dev.userLen])
  }

  datatype ReadResult = Got(data: seq<byte>) | Fault

  class Device {
    const commandBuffer: array<byte>
    const dataBuffer: array<byte>
    const userBuffer: array<byte>
    var userLen: nat
    var spiPending: bool
    var complete: Completion
    /** Messages handed to the SPI core so far. */
    var submitted: nat

    ghost predicate Valid()
      reads this, commandBuffer, dataBuffer, userBuffer
    {
      && commandBuffer != dataBuffer && commandBuffer != userBuffer && dataBuffer != userBuffer
      && commandBuffer.Length == HOST_BUF && userBuffer.Length == USER_BUF
      && Decodable(dataBuffer[..])
      && userLen <= USER_BUF
    }

    ghost function State(): (dev: Dev)
      requires Valid()
      reads this, commandBuffer, dataBuffer, userBuffer
      ensures dev.Shape()
    {
      Dev(spiPending, commandBuffer[0], complete, dataBuffer[..], userBuffer[..], userLen)
    }

    constructor ()
      ensures Valid() && State() == PROBED && submitted == 0
      ensures fresh(commandBuffer) && fresh(dataBuffer) && fresh(userBuffer)
    {
      commandBuffer := new byte[HOST_BUF](_ => 0);
      dataBuffer := new byte[HOST_BUF](_ => 0);
      userBuffer := new byte[USER_BUF](_ => 0);
      userLen, spiPending, complete, submitted := 0, false, ReadIrqDone, 0;
      new;
      assert dataBuffer[..] == Zeros(HOST_BUF) && userBuffer[..] == Zeros(USER_BUF);
    }

    /** `nrf51822_read_irq`, which is also all that the interrupt handler does. */
    method StartReadIrq()
      requires Valid()
      modifies this, commandBuffer
      ensures Valid()
      ensures (State(), submitted != old(submitted)) == ReadIrq(old(State()))
      ensures old(submitted) <= submitted <= old(submitted) + 1
    {
      if spiPending {
        return;
      }
      spiPending := true;
      commandBuffer[0] := COMMAND_READ_IRQ;
      complete := ReadIrqDone;
      submitted := submitted + 1;
    }

    /** `nrf51822_check_irq` */
    method RecheckPin(pinHigh: bool)
      requires Valid()
      modifies this, commandBuffer
      ensures Valid()
      ensures (State(), submitted != old(submitted)) == CheckIrq(old(State()), pinHigh)
      ensures old(submitted) <= submitted <= old(submitted) + 1
    {
      if pinHigh {
        StartReadIrq();
      }
    }

    /** `nrf51822_issue_simple_command`; `busy` is its -EINTR. */
    method IssueSimpleCommand(command: byte) returns (busy: bool)
      requires Valid()
      modifies this, commandBuffer
      ensures Valid()
      ensures (State(), !busy) == IssueCommand(old(State()), command)
      ensures submitted == old(submitted) + if busy then 0 else 1
    {
      if spiPending {
        return true;
      }
      spiPending := true;
      commandBuffer[0] := command;
      complete := CommandDone;
      submitted := submitted + 1;
      return false;
    }

    /** `memcpy` to the user buffer, of as many bytes as the frame's length byte says. */
    method CopyToUser(len: nat)
      requires Valid() && len <= HOST_BUF
      modifies this`userLen, userBuffer
      ensures Valid()
      ensures State() == old(State()).(user := Overwrite(old(userBuffer[..]), 0, old(dataBuffer[..len])),
                                       userLen := len)
    {
      forall i | 0 <= i < len {
        userBuffer[i] := dataBuffer[i];
      }
      userLen := len;
    }

    /** `nrf51822_read_irq_done` up to its re-check of the pin. */
    method OnReadIrqDone()
      requires Valid()
      modifies this`userLen, this`spiPending, userBuffer
      ensures Valid()
      ensures State() == Finish(old(State()))
    {
      if dataBuffer[0] == 0 && dataBuffer[1] == 0 {
        spiPending := false;
        return;
      } else if dataBuffer[0] == 0 {
        CopyToUser(dataBuffer[1] + 1);
      } else {
        CopyToUser(dataBuffer[0] + 1);
      }
      spiPending := false;
    }

    /** `nrf51822_issue_simple_command_done` up to its re-check of the pin. */
    method OnCommandDone() returns (receivedValidData: bool)
      requires Valid()
      modifies this`userLen, this`spiPending, userBuffer
      ensures Valid()
      ensures State() == Finish(old(State()))
      ensures receivedValidData == !Invalid(old(dataBuffer[..]))
    {
      receivedValidData := false;
      if dataBuffer[0] == 0 && dataBuffer[1] == 0 {
      } else {
        receivedValidData := true;
        if dataBuffer[0] == 0 {
          CopyToUser(dataBuffer[1] + 1);
        } else {
          CopyToUser(dataBuffer[0] + 1);
        }
      }
      spiPending := false;
    }

    /** `nrf51822_read`; with nothing to read, only a signal gets it past its wait. */
    method ReadToUser(faults: bool) returns (r: ReadResult)
      requires Valid()
      modifies this`userLen
      ensures Valid()
      ensures State() == Read(old(State()), faults).0
      ensures r == if faults then Fault else Got(Read(old(State()), faults).1)
    {
      if faults {
        return Fault;
      }
      r := Got(userBuffer[..userLen]);
      userLen := 0;
    }
  }
}
