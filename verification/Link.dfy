/**
 The whole link as a step system: radio, SPI bus, interrupt line, driver and user, interleaved
 in any order.  An action that is not possible in a state leaves the state alone.

 What this module proves is about control: who owns the SPI, that no wake-up is lost, and
 that without new work every schedule of the host drains the firmware.
 */
module Link {
  import opened Bytes
  import opened EventQueue
  import opened Frame
  import opened SpiSlave
  import opened HostDriver

  type Report = r: seq<byte> | 1 <= |r| <= 62 witness [0]

  datatype Action =
    | Advert(report: Report)    // the radio received an advertisement
    | Transfer(late: bool)      // the bus carries out a submitted message; the firmware reacts
    | Complete                  // its completion handler copies and releases the SPI
    | Recheck                   // ... and later looks at the interrupt pin again
    | Interrupt                 // the interrupt handler runs for a latched rising edge
    | Command(command: byte)    // a user's ioctl
    | Read(faults: bool)        // a user's read

  /**
   `submitted` and `finished` count messages handed to the SPI core and not yet carried out, and
   carried out with the completion still to run; `edge` latches a rising edge of the pin.
   */
  datatype Sys = Sys(fw: Fw, dev: Dev, submitted: nat, finished: nat, edge: bool, rechecks: nat)

  const START := Sys(BOOTED, PROBED, 0, 0, false, 0)

  /**
   The firmware is a FIFO with the pin telling the truth about it, every copy stays inside its
   buffer, and the transmit buffer holds a frame, sent or unsent, unless nothing was ever staged.
   */
  ghost predicate Sound(s: Sys) {
    && s.fw.Good() && s.dev.Shape()
    && (s.fw.full || s.fw.tx == Zeros(FIRMWARE_BUF) || 2 <= s.fw.tx[0] <= MAX_PAYLOAD + 1)
  }

  ghost function ToEvent(report: Report): (e: Event)
    ensures Proper(e)
  {
    Event(RSP_ADVERTISEMENT, |report|, report)
  }

  /** The pin's next level reaches the host as a latched edge if it rose. */
  ghost function WithFirmware(s: Sys, fw: Fw): Sys {
    s.(fw := fw, edge := s.edge || (!s.fw.pin && fw.pin))
  }

  ghost function WithClaim(s: Sys, r: (Dev, bool)): Sys {
    s.(dev := r.0, submitted := s.submitted + if r.1 then 1 else 0)
  }

  /** The 40 bytes clocked in land at the start of the receive buffer. */
  ghost function Clocked(dev: Dev, tx: seq<byte>, late: bool): (r: Dev)
    requires dev.Shape() && |tx| == FIRMWARE_BUF
  {
    dev.(data := Overwrite(dev.data, 0, OnTheWire(tx, late)))
  }

  /** The radio's half of a transfer: the command arrives and the handler runs. */
  ghost function RadioSide(s: Sys, command: byte): Sys
    requires s.fw.Shape()
  {
    WithFirmware(s, TransferDone(s.fw, command))
  }

  /** The host's half: the bytes of some transmit buffer arrive and the message is finished. */
  ghost function HostSide(s: Sys, tx: seq<byte>, late: bool): Sys
    requires s.dev.Shape() && |tx| == FIRMWARE_BUF && s.submitted > 0
  {
    s.(dev := Clocked(s.dev, tx, late), submitted := s.submitted - 1, finished := s.finished + 1)
  }

  ghost predicate Enabled(s: Sys, a: Action) {
    match a
    case Transfer(_) => s.submitted > 0
    case Complete => s.finished > 0
    case Recheck => s.rechecks > 0
    case Interrupt => s.edge
    case _ => true
  }

  ghost function Step(s: Sys, a: Action): (r: Sys)
    requires Sound(s)
    ensures Sound(r)
  {
    StepKeepsSound(s, a);
    RawStep(s, a)
  }

  ghost function RawStep(s: Sys, a: Action): (r: Sys)
    requires Sound(s)
  {
    if !Enabled(s, a) then s else
    match a
    case Advert(report) => WithFirmware(s, SpiSlave.Advert(s.fw, ToEvent(report)).0)
    case Transfer(late) => HostSide(RadioSide(s, s.dev.command), s.fw.tx, late)
    case Complete => s.(dev := Finish(s.dev), finished := s.finished - 1, rechecks := s.rechecks + 1)
    case Recheck => WithClaim(s.(rechecks := s.rechecks - 1), CheckIrq(s.dev, s.fw.pin))
    case Interrupt => WithClaim(s.(edge := false), ReadIrq(s.dev))
    case Command(command) => WithClaim(s, IssueCommand(s.dev, command))
    case Read(faults) => s.(dev := HostDriver.Read(s.dev, faults).0)
  }

  lemma ClockedDecodable(dev: Dev, fw: Fw, late: bool)
    requires dev.Shape() && fw.Shape()
    requires fw.tx == Zeros(FIRMWARE_BUF) || 2 <= fw.tx[0] <= MAX_PAYLOAD + 1
    ensures Clocked(dev, fw.tx, late).Shape()
  {
    var data := Clocked(dev, fw.tx, late).data;
    assert data[0] == OnTheWire(fw.tx, late)[0] && data[1] == OnTheWire(fw.tx, late)[1];
    if late {
      assert data[0] == 0 && data[1] == fw.tx[0];
    } else {
      assert data[0] == fw.tx[0] && data[1] == fw.tx[1];
    }
  }

  lemma StepKeepsSound(s: Sys, a: Action)
    requires Sound(s)
    ensures Sound(RawStep(s, a))
  {
    match a
    case Advert(report) => AddPushes(s.fw, ToEvent(report));
    case Transfer(late) =>
      TransferPops(s.fw, s.dev.command);
      ClockedDecodable(s.dev, s.fw, late);
    case _ =>
  }

  ghost function Run(acts: seq<Action>): (s: Sys)
    ensures Sound(s)
  {
    if acts == [] then START else Step(Run(acts[..|acts| - 1]), acts[|acts| - 1])
  }

  // ---------------------------------------------------------------- ownership and wake-ups

  /** At most one transfer exists, exactly while the SPI is claimed. */
  ghost predicate Exclusive(s: Sys) {
    s.submitted + s.finished == if s.dev.pending then 1 else 0
  }

  /** A high pin is never forgotten: something that will look at it is still to come. */
  ghost predicate WakeupComing(s: Sys) {
    s.fw.pin ==> s.edge || s.dev.pending || s.rechecks > 0
  }

  ghost predicate Control(s: Sys) {
    Sound(s) && Exclusive(s) && WakeupComing(s)
  }

  lemma StepKeepsControl(s: Sys, a: Action)
    requires Control(s)
    ensures Control(Step(s, a))
  {
    if a.Transfer? {
      TransferPops(s.fw, s.dev.command);
    }
  }

  lemma {:induction false} RunKeepsControl(acts: seq<Action>)
    ensures Control(Run(acts))
  {
    if acts != [] {
      RunKeepsControl(acts[..|acts| - 1]);
      StepKeepsControl(Run(acts[..|acts| - 1]), acts[|acts| - 1]);
    }
  }

  /** In every run the SPI has one owner at most. */
  lemma {:induction false} OneTransferAtATime(acts: seq<Action>)
    ensures var s := Run(acts);
            s.submitted + s.finished <= 1 && (s.dev.pending <==> s.submitted + s.finished == 1)
  {
    RunKeepsControl(acts);
  }

  /** In every run a high pin means a wake-up is still to come, although interrupts get dropped. */
  lemma {:induction false} NoLostWakeup(acts: seq<Action>)
    ensures var s := Run(acts);
            s.fw.pin ==> s.edge || s.dev.pending || s.rechecks > 0
  {
    RunKeepsControl(acts);
  }

  ghost function RunFrom(s: Sys, acts: seq<Action>): (r: Sys)
    requires Sound(s)
    ensures Sound(r)
    decreases |acts|
  {
    if acts == [] then s else RunFrom(Step(s, acts[0]), acts[1..])
  }

  /**
   From claim to release nobody else touches the transfer: whatever interrupts, commands, reads
   and advertisements come in between, the message and its command byte stay, and once the
   bytes are in, the receive buffer stays too.
   */
  lemma {:induction false} OwnedUntilComplete(s: Sys, acts: seq<Action>)
    requires Control(s) && s.dev.pending
    requires Complete !in acts
    ensures var r := RunFrom(s, acts);
            && r.dev.pending
            && r.dev.command == s.dev.command && r.dev.complete == s.dev.complete
            && (s.finished == 1 ==> r.finished == 1 && r.dev.data == s.dev.data)
    decreases |acts|
  {
    if acts != [] {
      assert acts[0] in acts;
      var next := Step(s, acts[0]);
      StepKeepsControl(s, acts[0]);
      assert next.dev.pending && next.dev.command == s.dev.command && next.dev.complete == s.dev.complete;
      OwnedUntilComplete(next, acts[1..]);
    }
  }

  // ------------------------------------------------------------------------------ draining

  /** Host actions: everything but new advertisements, new commands and reads. */
  predicate IsHostWork(a: Action) {
    a.Transfer? || a.Complete? || a.Recheck? || a.Interrupt?
  }

  ghost predicate Quiet(s: Sys) {
    s.submitted == 0 && s.finished == 0 && s.rechecks == 0 && !s.edge
  }

  /** Frames no transfer has been claimed for yet. */
  ghost function Unclaimed(s: Sys): int
    requires Sound(s)
  {
    |s.fw.Pending()| - if s.submitted > 0 && s.fw.pin then s.submitted else 0
  }

  /** How many host actions can still happen without new work. */
  ghost function WorkLeft(s: Sys): int
    requires Sound(s)
  {
    4 * Unclaimed(s) + 3 * s.submitted + 2 * s.finished + s.rechecks + if s.edge then 4 else 0
  }

  lemma WorkLeftIsNatural(s: Sys)
    requires Control(s)
    ensures WorkLeft(s) >= 0
  {
  }

  /** Every host action there is to do uses up work, and a transfer with the pin high one frame. */
  lemma HostWorkDecreases(s: Sys, a: Action)
    requires Control(s) && IsHostWork(a) && Enabled(s, a)
    ensures WorkLeft(Step(s, a)) < WorkLeft(s)
    ensures a.Transfer? && s.fw.pin ==> |Step(s, a).fw.Pending()| == |s.fw.Pending()| - 1
    ensures !(a.Transfer? && s.fw.pin) ==> |Step(s, a).fw.Pending()| == |s.fw.Pending()|
  {
    TransferPops(s.fw, s.dev.command);
  }

  /** A schedule of host actions each of which is possible when its turn comes. */
  ghost predicate IsSchedule(s: Sys, acts: seq<Action>)
    requires Sound(s)
    decreases |acts|
  {
    acts != [] ==> IsHostWork(acts[0]) && Enabled(s, acts[0]) && IsSchedule(Step(s, acts[0]), acts[1..])
  }

  /** No host schedule can go on for longer than the work that is left when it starts. */
  lemma {:induction false} SchedulesAreBounded(s: Sys, acts: seq<Action>)
    requires Control(s) && IsSchedule(s, acts)
    ensures |acts| <= WorkLeft(s)
    ensures Control(RunFrom(s, acts))
    decreases |acts|
  {
    if acts == [] {
      WorkLeftIsNatural(s);
    } else {
      HostWorkDecreases(s, acts[0]);
      StepKeepsControl(s, acts[0]);
      SchedulesAreBounded(Step(s, acts[0]), acts[1..]);
    }
  }

  /** A schedule stops only when there is nothing left to fetch. */
  lemma StuckMeansDrained(s: Sys)
    requires Control(s)
    requires forall a | IsHostWork(a) :: !Enabled(s, a)
    ensures Quiet(s) && !s.dev.pending && !s.fw.pin && s.fw.Pending() == []
  {
    assert !Enabled(s, Transfer(false)) && !Enabled(s, Complete);
    assert !Enabled(s, Recheck) && !Enabled(s, Interrupt);
  }

  /**
   Draining: after any run, however the host's actions are scheduled from there, they stop
   within the work that is left, and where none is possible any more the firmware is empty,
   the pin low and the SPI free.
   */
  lemma EveryScheduleDrains(acts: seq<Action>, schedule: seq<Action>)
    requires IsSchedule(Run(acts), schedule)
    ensures |schedule| <= WorkLeft(Run(acts))
    ensures var s := RunFrom(Run(acts), schedule);
            (forall a | IsHostWork(a) :: !Enabled(s, a)) ==>
              !s.fw.pin && s.fw.Pending() == [] && !s.dev.pending && Quiet(s)
  {
    RunKeepsControl(acts);
    SchedulesAreBounded(Run(acts), schedule);
    var s := RunFrom(Run(acts), schedule);
    if forall a | IsHostWork(a) :: !Enabled(s, a) {
      StuckMeansDrained(s);
    }
  }

  lemma {:induction false} RunThenRunFrom(acts: seq<Action>, more: seq<Action>)
    ensures RunFrom(Run(acts), more) == Run(acts + more)
    decreases |more|
  {
    if more == [] {
      assert acts + more == acts;
    } else {
      var longer := acts + [more[0]];
      assert longer[..|acts|] == acts;
      assert longer + more[1..] == acts + more;
      RunThenRunFrom(longer, more[1..]);
    }
  }
}
