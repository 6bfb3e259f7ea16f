/**
 Which command byte each transfer carries.  Whoever finds the SPI free when it asks for a transfer
 gets the next one, with its own byte: 1 for reading after an interrupt or a look at the pin, and
 for an ioctl the user's.  Everybody else is turned away.
 */
module Requests {
  import opened Bytes
  import opened Frame
  import opened SpiSlave
  import opened HostDriver
  import opened Link
  import opened Delivery

  /** The byte that the action asks to have transferred, if it asks and the SPI is free. */
  ghost function Granted(s: Sys, a: Action): seq<byte> {
    if s.dev.pending then [] else
    match a
    case Command(command) => [command]
    case Interrupt => if s.edge then [1] else []
    case Recheck => if s.rechecks > 0 && s.fw.pin then [1] else []
    case _ => []
  }

  /** The bytes of all requests granted in a run, in order. */
  ghost function AllGranted(acts: seq<Action>): seq<byte> {
    if acts == [] then []
    else AllGranted(acts[..|acts| - 1]) + Granted(Run(acts[..|acts| - 1]), acts[|acts| - 1])
  }

  ghost function Commands(xs: seq<Exchange>): (commands: seq<byte>)
    ensures |commands| == |xs|
    ensures forall k | 0 <= k < |xs| :: commands[k] == xs[k].command
  {
    seq(|xs|, k requires 0 <= k < |xs| => xs[k].command)
  }

  /** The byte of the transfer that is under way but has not crossed the bus. */
  ghost function Waiting(s: Sys): seq<byte> {
    if s.submitted > 0 then [s.dev.command] else []
  }

  lemma ClaimTakesGranted(s: Sys, a: Action)
    requires Control(s) && (a.Command? || a.Interrupt? || a.Recheck?)
    ensures Waiting(Step(s, a)) == Waiting(s) + Granted(s, a)
    ensures Granted(s, a) != [] ==> !s.dev.pending && Step(s, a).submitted == 1
    ensures Granted(s, a) != [] ==> Step(s, a).dev.complete == if a.Command? then CommandDone else ReadIrqDone
  {
  }

  lemma OtherLeavesWaiting(s: Sys, a: Action)
    requires Sound(s) && (a.Advert? || a.Complete? || a.Read?)
    ensures Waiting(Step(s, a)) == Waiting(s)
  {
  }

  lemma OnlyTransfersExchange(w: World, a: Action)
    requires Sound(w.s) && !a.Transfer?
    ensures Record(w, a).exchanges == w.log.exchanges
  {
  }

  lemma TransferTakesWaiting(w: World, late: bool)
    requires Control(w.s) && w.s.submitted > 0
    ensures var r := Advance(w, Transfer(late));
            && Waiting(r.s) == []
            && Commands(r.log.exchanges) == Commands(w.log.exchanges) + Waiting(w.s)
            && r.s.fw.sniffing == (w.s.fw.sniffing || w.s.dev.command == 2)
  {
    WireIsMiso(w.s, late);
    TransferMade(w, Exchange(OnTheWire(w.s.fw.tx, late), w.s.fw.pin, late, w.s.dev.command));
    TransferPops(w.s.fw, w.s.dev.command);
  }

  lemma AdvanceTakesGranted(w: World, a: Action)
    requires Control(w.s)
    ensures var r := Advance(w, a);
            Commands(r.log.exchanges) + Waiting(r.s)
              == Commands(w.log.exchanges) + Waiting(w.s) + Granted(w.s, a)
  {
    if a.Transfer? {
      if w.s.submitted > 0 {
        TransferTakesWaiting(w, a.late);
      }
    } else {
      OnlyTransfersExchange(w, a);
      if a.Command? || a.Interrupt? || a.Recheck? {
        ClaimTakesGranted(w.s, a);
      } else {
        OtherLeavesWaiting(w.s, a);
      }
    }
  }

  /**
   In every run the bytes the transfers carried, and that of the one still waiting for the bus, are
   exactly the bytes of the requests granted: each once, in order, and nothing else.
   */
  lemma {:induction false} TransfersCarryRequests(acts: seq<Action>)
    ensures Commands(Logged(acts).log.exchanges) + Waiting(Run(acts)) == AllGranted(acts)
  {
    if acts != [] {
      var front, last := acts[..|acts| - 1], acts[|acts| - 1];
      TransfersCarryRequests(front);
      RunKeepsControl(front);
      AdvanceTakesGranted(Logged(front), last);
    }
  }

  lemma {:induction false} WaitsUnchanged(acts: seq<Action>, more: seq<Action>)
    requires Run(acts).submitted > 0
    requires forall a | a in more :: !a.Transfer?
    ensures var s := Run(acts + more);
            && s.submitted > 0 && s.dev.command == Run(acts).dev.command
            && s.fw.sniffing == Run(acts).fw.sniffing
            && Logged(acts + more).log.exchanges == Logged(acts).log.exchanges
    decreases |more|
  {
    if more == [] {
      assert acts + more == acts;
    } else {
      var n, last := |more| - 1, more[|more| - 1];
      var front := acts + more[..n];
      assert acts + more == front + [last] && (front + [last])[..|front|] == front;
      assert last in more;
      WaitsUnchanged(acts, more[..n]);
      RunKeepsControl(front);
      WaitingStaysWaiting(Run(front), last);
      OnlyTransfersExchange(Logged(front), last);
    }
  }

  lemma WaitingStaysWaiting(s: Sys, a: Action)
    requires Control(s) && s.submitted > 0 && !a.Transfer?
    ensures var r := Step(s, a);
            r.submitted > 0 && r.dev.command == s.dev.command && r.fw.sniffing == s.fw.sniffing
  {
    if a.Advert? {
      AddPushes(s.fw, ToEvent(a.report));
    }
  }

  lemma GrantedWaits(acts: seq<Action>, request: Action)
    requires Granted(Run(acts), request) != []
    ensures var asked := acts + [request];
            && Run(asked).submitted > 0 && Waiting(Run(asked)) == Granted(Run(acts), request)
            && Logged(asked).log.exchanges == Logged(acts).log.exchanges
            && Run(asked).fw.sniffing == Run(acts).fw.sniffing
            && Run(asked).dev.complete == if request.Command? then CommandDone else ReadIrqDone
  {
    assert (acts + [request])[..|acts|] == acts;
    RunKeepsControl(acts);
    ClaimTakesGranted(Run(acts), request);
    OnlyTransfersExchange(Logged(acts), request);
  }

  /**
   A request that is granted reaches the radio: whatever comes between it and the next transfer,
   that transfer carries its byte, and the radio sniffs afterwards if it did so before or the byte
   is 2.
   */
  lemma RequestCrosses(acts: seq<Action>, request: Action, more: seq<Action>, late: bool)
    requires Granted(Run(acts), request) != []
    requires forall a | a in more :: !a.Transfer?
    ensures var before, after := Logged(acts), Logged(acts + [request] + more + [Transfer(late)]);
            && Commands(after.log.exchanges) == Commands(before.log.exchanges) + Granted(Run(acts), request)
            && after.s.fw.sniffing == (before.s.fw.sniffing || Granted(Run(acts), request) == [2])
  {
    var all := acts + [request] + more;
    assert (all + [Transfer(late)])[..|all|] == all;
    GrantedWaits(acts, request);
    WaitsUnchanged(acts + [request], more);
    RunKeepsControl(all);
    TransferTakesWaiting(Logged(all), late);
  }

  /** In particular a user's command that finds the SPI free is the next byte the radio gets. */
  lemma CommandCrosses(acts: seq<Action>, command: byte, more: seq<Action>, late: bool)
    requires !Run(acts).dev.pending
    requires forall a | a in more :: !a.Transfer?
    ensures var before, after := Logged(acts), Logged(acts + [Command(command)] + more + [Transfer(late)]);
            && |after.log.exchanges| == |before.log.exchanges| + 1
            && after.log.exchanges[|before.log.exchanges|].command == command
            && (command == 2 ==> after.s.fw.sniffing)
  {
    RequestCrosses(acts, Command(command), more, late);
    var before, after := Logged(acts), Logged(acts + [Command(command)] + more + [Transfer(late)]);
    assert Commands(after.log.exchanges)[|before.log.exchanges|] == command;
  }
}
