/**
 What gets through the link.  A log rides along with every run: the events the firmware's queue
 accepted, the bytes of every bus transfer, the frames completions put into the user buffer and
 the byte strings reads returned.  The log only observes; `Link.Step` decides what happens.
 */
module Delivery {
  import opened Bytes
  import opened EventQueue
  import opened Frame
  import opened SpiSlave
  import opened HostDriver
  import opened Link

  type Miso = m: seq<byte> | |m| == TRANSFER_LEN && Decodable(Received(m)) witness Zeros(TRANSFER_LEN)

  datatype Exchange = Exchange(miso: Miso, pinHigh: bool, late: bool, command: byte)
  datatype Reception = Reception(bytes: seq<byte>, exchange: int)
  datatype Returned = Returned(bytes: seq<byte>, reception: int)

  datatype Log = Log(
    accepted: seq<Event>,       // what the queue took
    exchanges: seq<Exchange>,   // every transfer, with the pin's level then and the command
    received: seq<Reception>,   // every frame put into the user buffer, with its transfer
    returned: seq<Returned>,    // every non-empty read, with the newest frame at that time
    overwritten: nat)           // frames that were replaced before they were read

  datatype World = World(s: Sys, log: Log)

  const DAWN := World(START, Log([], [], [], [], 0))

  /** In any sound state what comes over the bus can be cut out of the receive buffer. */
  lemma WireIsMiso(s: Sys, late: bool)
    requires Sound(s)
    ensures Decodable(Received(OnTheWire(s.fw.tx, late)))
  {
    if s.fw.full {
      StagedIsPrefix(s.fw);
    }
    var rx := Received(OnTheWire(s.fw.tx, late));
    if late {
      assert rx[0] == 0 && rx[1] == s.fw.tx[0];
    } else {
      assert rx[0] == s.fw.tx[0] && rx[1] == s.fw.tx[1];
    }
  }

  ghost function Record(w: World, a: Action): Log
    requires Sound(w.s)
  {
    var s, log := w.s, w.log;
    if !Enabled(s, a) then log else
    match a
    case Advert(report) =>
      if SpiSlave.Advert(s.fw, ToEvent(report)).1 then log.(accepted := log.accepted + [ToEvent(report)]) else log
    case Transfer(late) =>
      WireIsMiso(s, late);
      log.(exchanges := log.exchanges + [Exchange(OnTheWire(s.fw.tx, late), s.fw.pin, late, s.dev.command)])
    case Complete =>
      if Invalid(s.dev.data) then log
      else log.(received := log.received + [Reception(Decode(s.dev.data), |log.exchanges| - 1)],
                overwritten := log.overwritten + if s.dev.userLen > 0 then 1 else 0)
    case Read(faults) =>
      var out := HostDriver.Read(s.dev, faults).1;
      if out == [] then log else log.(returned := log.returned + [Returned(out, |log.received| - 1)])
    case _ => log
  }

  ghost function Advance(w: World, a: Action): (r: World)
    requires Sound(w.s)
    ensures Sound(r.s)
  {
    World(Step(w.s, a), Record(w, a))
  }

  /** The logged run; its state is the state of the plain run. */
  ghost function Logged(acts: seq<Action>): (w: World)
    ensures w.s == Run(acts)
  {
    if acts == [] then DAWN else Advance(Logged(acts[..|acts| - 1]), acts[|acts| - 1])
  }

  // -------------------------------------------------------------------- firmware to bus

  /** How many transfers were made with the pin high. */
  ghost function Fresh(xs: seq<Exchange>): (n: nat)
    ensures n <= |xs|
  {
    if xs == [] then 0 else Fresh(xs[..|xs| - 1]) + if xs[|xs| - 1].pinHigh then 1 else 0
  }

  /** The accepted event whose frame transfer `k` carried; -1 while nothing was ever staged. */
  ghost function Source(xs: seq<Exchange>, k: nat): int
    requires k < |xs|
  {
    Fresh(xs[..k + 1]) - 1
  }

  /** Transfer `k` carried exactly its source event, or nothing if it has none. */
  ghost predicate Carries(accepted: seq<Event>, xs: seq<Exchange>, k: nat)
    requires k < |xs|
  {
    var rx, i := Received(xs[k].miso), Source(xs, k);
    if i < 0 then Invalid(rx)
    else i < |accepted| && Fits(accepted[i]) && !Invalid(rx) && Decode(rx) == View(accepted[i], xs[k].late)
  }

  /** The transmit buffer holds the frame of event number `c - 1`, or nothing yet if `c` is 0. */
  ghost predicate Loaded(tx: seq<byte>, accepted: seq<Event>, c: nat) {
    && |tx| == FIRMWARE_BUF && c <= |accepted|
    && if c == 0 then tx == Zeros(FIRMWARE_BUF)
       else Proper(accepted[c - 1]) && Encode(accepted[c - 1]) <= tx
  }

  /**
   What was accepted is what was handed over followed by what is pending, in order; every
   transfer carried its source event; and an idle transmit buffer still holds the last frame.
   */
  ghost predicate Sent(fw: Fw, accepted: seq<Event>, xs: seq<Exchange>) {
    && fw.Good()
    && (forall e | e in accepted :: Proper(e))
    && Fresh(xs) <= |accepted|
    && fw.Pending() == accepted[Fresh(xs)..]
    && (!fw.full ==> Loaded(fw.tx, accepted, Fresh(xs)))
    && forall k | 0 <= k < |xs| :: Carries(accepted, xs, k)
  }

  lemma AcceptKeepsSent(fw: Fw, accepted: seq<Event>, xs: seq<Exchange>, e: Event)
    requires Sent(fw, accepted, xs) && Proper(e)
    ensures var (next, ok) := SpiSlave.Advert(fw, e);
            Sent(next, if ok then accepted + [e] else accepted, xs)
  {
    AddPushes(fw, e);
    var (next, ok) := SpiSlave.Advert(fw, e);
    if ok {
      var longer := accepted + [e];
      forall k | 0 <= k < |xs| ensures Carries(longer, xs, k) {
        assert Carries(accepted, xs, k);
      }
    }
  }

  /** The frame in the transmit buffer is that of the event the coming transfer will count for. */
  lemma NextFrame(fw: Fw, accepted: seq<Event>, xs: seq<Exchange>)
    requires Sent(fw, accepted, xs)
    ensures Loaded(fw.tx, accepted, Fresh(xs) + if fw.pin then 1 else 0)
  {
    if fw.full {
      StagedIsPrefix(fw);
      assert accepted[Fresh(xs)] == fw.Pending()[0] == Staged(fw.tx);
    } else if Fresh(xs) > 0 {
      assert accepted[Fresh(xs) - 1] in accepted;
    }
  }

  lemma OldTransfersCarry(accepted: seq<Event>, xs: seq<Exchange>, x: Exchange)
    requires forall k | 0 <= k < |xs| :: Carries(accepted, xs, k)
    ensures Source(xs + [x], |xs|) + 1 == Fresh(xs + [x]) == Fresh(xs) + if x.pinHigh then 1 else 0
    ensures forall k | 0 <= k < |xs| :: Carries(accepted, xs + [x], k)
  {
    var ys := xs + [x];
    assert ys[..|xs|] == xs && ys[..|xs| + 1] == ys;
    forall k | 0 <= k < |xs| ensures Carries(accepted, ys, k) {
      assert ys[..k + 1] == xs[..k + 1];
      assert Carries(accepted, xs, k);
    }
  }

  lemma LoadedArrives(tx: seq<byte>, accepted: seq<Event>, c: nat, late: bool)
    requires Loaded(tx, accepted, c)
    ensures var rx := Received(OnTheWire(tx, late));
            if c == 0 then Invalid(rx)
            else !Invalid(rx) && Decodable(rx) && Decode(rx) == View(accepted[c - 1], late)
  {
    if c == 0 {
      NothingStagedIsInvalid(late);
    } else {
      DecodeOfStaged(tx, accepted[c - 1], late);
    }
  }

  lemma NewTransferCarries(tx: seq<byte>, accepted: seq<Event>, xs: seq<Exchange>, x: Exchange)
    requires Loaded(tx, accepted, Source(xs + [x], |xs|) + 1) && x.miso == OnTheWire(tx, x.late)
    ensures Carries(accepted, xs + [x], |xs|)
  {
    LoadedArrives(tx, accepted, Source(xs + [x], |xs|) + 1, x.late);
  }

  lemma PendingAfterTransfer(fw: Fw, accepted: seq<Event>, sent: nat, command: byte)
    requires fw.Good() && sent <= |accepted| && fw.Pending() == accepted[sent..]
    requires Loaded(fw.tx, accepted, sent + if fw.pin then 1 else 0)
    ensures var next, c := TransferDone(fw, command), sent + if fw.pin then 1 else 0;
            && next.Good() && c <= |accepted| && next.Pending() == accepted[c..]
            && (!next.full ==> Loaded(next.tx, accepted, c))
  {
    TransferPops(fw, command);
  }

  lemma ExchangeKeepsSent(fw: Fw, accepted: seq<Event>, xs: seq<Exchange>, x: Exchange, command: byte)
    requires Sent(fw, accepted, xs)
    requires x.pinHigh == fw.pin && x.miso == OnTheWire(fw.tx, x.late)
    ensures Sent(TransferDone(fw, command), accepted, xs + [x])
  {
    NextFrame(fw, accepted, xs);
    PendingAfterTransfer(fw, accepted, Fresh(xs), command);
    OldTransfersCarry(accepted, xs, x);
    NewTransferCarries(fw.tx, accepted, xs, x);
  }

  // ------------------------------------------------------------------------ bus to user

  /** The frames that completed transfers put into the user buffer: all but the invalid ones. */
  ghost function Receptions(xs: seq<Exchange>): seq<Reception> {
    if xs == [] then []
    else
      var rx := Received(xs[|xs| - 1].miso);
      Receptions(xs[..|xs| - 1]) + if Invalid(rx) then [] else [Reception(Decode(rx), |xs| - 1)]
  }

  /** `r` is the frame that transfer number `r.exchange` brought. */
  ghost predicate Brought(xs: seq<Exchange>, r: Reception) {
    && 0 <= r.exchange < |xs|
    && !Invalid(Received(xs[r.exchange].miso))
    && r.bytes == Decode(Received(xs[r.exchange].miso))
  }

  lemma {:induction false} ReceptionsInOrder(xs: seq<Exchange>)
    ensures var rs := Receptions(xs);
            && (forall r | r in rs :: Brought(xs, r))
            && (forall q, r | 0 <= q < r < |rs| :: rs[q].exchange < rs[r].exchange)
  {
    if xs != [] {
      var front := xs[..|xs| - 1];
      ReceptionsInOrder(front);
      forall r | r in Receptions(front) ensures Brought(xs, r) && r.exchange < |front| {
        assert Brought(front, r);
      }
      var rs := Receptions(xs);
      forall r | r in rs ensures Brought(xs, r) {
        assert r in Receptions(front) || r.exchange == |front|;
      }
      forall q, r | 0 <= q < r < |rs| ensures rs[q].exchange < rs[r].exchange {
        assert rs[q] in Receptions(front);
        assert r < |Receptions(front)| || rs[r].exchange == |front|;
      }
    }
  }

  lemma {:induction false} ReceptionOf(xs: seq<Exchange>, k: nat) returns (r: nat)
    requires k < |xs| && !Invalid(Received(xs[k].miso))
    ensures r < |Receptions(xs)| && Receptions(xs)[r].exchange == k
  {
    if k == |xs| - 1 {
      r := |Receptions(xs)| - 1;
    } else {
      r := ReceptionOf(xs[..|xs| - 1], k);
    }
  }

  /** The receive buffer holds what the last transfer brought. */
  ghost predicate Landed(data: seq<byte>, xs: seq<Exchange>) {
    data == if xs == [] then Zeros(HOST_BUF) else Received(xs[|xs| - 1].miso)
  }

  /** Completions have dealt with all transfers but the `waiting` newest ones. */
  ghost predicate Collected(waiting: nat, xs: seq<Exchange>, received: seq<Reception>) {
    waiting <= |xs| && received == Receptions(xs[..|xs| - waiting])
  }

  ghost function Unread(dev: Dev): nat {
    if dev.userLen > 0 then 1 else 0
  }

  /**
   The user buffer holds the newest frame while it is unread.  Reads returned received frames,
   each one once, in the order of their reception, and all the others were overwritten.
   */
  ghost predicate Kept(dev: Dev, received: seq<Reception>, returned: seq<Returned>, overwritten: nat) {
    && dev.Shape()
    && (dev.userLen > 0 ==>
          received != [] && dev.user[..dev.userLen] == received[|received| - 1].bytes)
    && (forall k | 0 <= k < |returned| :: ReturnedOk(returned[k], received, |received| - Unread(dev)))
    && (forall j, k | 0 <= j < k < |returned| :: returned[j].reception < returned[k].reception)
    && |received| == |returned| + overwritten + Unread(dev)
  }

  ghost predicate ReturnedOk(ret: Returned, received: seq<Reception>, read: int) {
    0 <= ret.reception < read <= |received| && ret.bytes == received[ret.reception].bytes
  }

  lemma LandedAfterTransfer(data: seq<byte>, xs: seq<Exchange>, x: Exchange)
    requires |data| == HOST_BUF && Landed(data, xs)
    ensures Landed(Overwrite(data, 0, x.miso), xs + [x])
  {
    assert Overwrite(data, 0, x.miso) == Received(x.miso);
  }

  lemma CollectedAfterTransfer(xs: seq<Exchange>, received: seq<Reception>, x: Exchange)
    requires Collected(0, xs, received)
    ensures Collected(1, xs + [x], received)
  {
    assert xs[..|xs|] == xs == (xs + [x])[..|xs|];
  }

  lemma CollectedAfterComplete(xs: seq<Exchange>, received: seq<Reception>)
    requires xs != [] && Collected(1, xs, received)
    ensures var rx := Received(xs[|xs| - 1].miso);
            Collected(0, xs, received + if Invalid(rx) then [] else [Reception(Decode(rx), |xs| - 1)])
  {
    assert xs[..|xs|] == xs;
  }

  lemma KeptAfterComplete(dev: Dev, received: seq<Reception>, returned: seq<Returned>, overwritten: nat, x: int)
    requires Kept(dev, received, returned, overwritten) && !Invalid(dev.data)
    ensures Kept(Finish(dev), received + [Reception(Decode(dev.data), x)], returned, overwritten + Unread(dev))
  {
    var longer := received + [Reception(Decode(dev.data), x)];
    assert Finish(dev).user[..CopyLen(dev.data)] == Decode(dev.data);
    forall k | 0 <= k < |returned| ensures ReturnedOk(returned[k], longer, |longer| - 1) {
      assert ReturnedOk(returned[k], received, |received| - Unread(dev));
    }
  }

  lemma KeptAfterRead(dev: Dev, received: seq<Reception>, returned: seq<Returned>, overwritten: nat)
    requires Kept(dev, received, returned, overwritten) && dev.userLen > 0
    ensures Kept(dev.(userLen := 0), received,
                 returned + [Returned(dev.user[..dev.userLen], |received| - 1)], overwritten)
  {
    var longer := returned + [Returned(dev.user[..dev.userLen], |received| - 1)];
    forall k | 0 <= k < |longer| ensures ReturnedOk(longer[k], received, |received|) {
      assert k < |returned| ==> ReturnedOk(returned[k], received, |received| - Unread(dev));
    }
  }

  // ------------------------------------------------------------------------------- runs

  ghost predicate Fetched(w: World) {
    && Landed(w.s.dev.data, w.log.exchanges)
    && Collected(w.s.finished, w.log.exchanges, w.log.received)
    && Kept(w.s.dev, w.log.received, w.log.returned, w.log.overwritten)
  }

  lemma TransferMade(w: World, x: Exchange)
    requires Sound(w.s) && w.s.submitted > 0
    requires x == Exchange(OnTheWire(w.s.fw.tx, x.late), w.s.fw.pin, x.late, w.s.dev.command)
    ensures var r := Advance(w, Transfer(x.late));
            && r.s.dev == w.s.dev.(data := Overwrite(w.s.dev.data, 0, x.miso))
            && r.s.finished == w.s.finished + 1
            && r.log == w.log.(exchanges := w.log.exchanges + [x])
  {
  }

  lemma TransferKeepsFetched(w: World, late: bool)
    requires Sound(w.s) && w.s.submitted > 0 && w.s.finished == 0 && Fetched(w)
    ensures Fetched(Advance(w, Transfer(late)))
  {
    WireIsMiso(w.s, late);
    var x := Exchange(OnTheWire(w.s.fw.tx, late), w.s.fw.pin, late, w.s.dev.command);
    TransferMade(w, x);
    LandedAfterTransfer(w.s.dev.data, w.log.exchanges, x);
    CollectedAfterTransfer(w.log.exchanges, w.log.received, x);
  }

  lemma CompletionMade(w: World)
    requires Sound(w.s) && w.s.finished > 0
    ensures var r, dev := Advance(w, Complete), w.s.dev;
            && r.s.dev == Finish(dev) && r.s.dev.data == dev.data && r.s.finished == w.s.finished - 1
            && r.log == if Invalid(dev.data) then w.log
                        else w.log.(received := w.log.received +
                                                [Reception(Decode(dev.data), |w.log.exchanges| - 1)],
                                    overwritten := w.log.overwritten + Unread(dev))
  {
  }

  lemma CompleteKeepsFetched(w: World)
    requires Sound(w.s) && w.s.finished == 1 && Fetched(w)
    ensures Fetched(Advance(w, Complete))
  {
    CompletionMade(w);
    CollectedAfterComplete(w.log.exchanges, w.log.received);
    if !Invalid(w.s.dev.data) {
      KeptAfterComplete(w.s.dev, w.log.received, w.log.returned, w.log.overwritten, |w.log.exchanges| - 1);
    }
  }

  lemma NothingRead(w: World, faults: bool)
    requires Sound(w.s) && (faults || w.s.dev.userLen == 0)
    ensures Advance(w, Read(faults)) == w
  {
  }

  lemma FrameRead(w: World)
    requires Sound(w.s) && w.s.dev.userLen > 0
    ensures var dev := w.s.dev;
            Advance(w, Read(false)) ==
              World(w.s.(dev := dev.(userLen := 0)),
                    w.log.(returned := w.log.returned +
                                       [Returned(dev.user[..dev.userLen], |w.log.received| - 1)]))
  {
  }

  lemma ReadKeepsFetched(w: World, faults: bool)
    requires Sound(w.s) && Fetched(w)
    ensures Fetched(Advance(w, Read(faults)))
  {
    if faults || w.s.dev.userLen == 0 {
      NothingRead(w, faults);
    } else {
      FrameRead(w);
      KeptAfterRead(w.s.dev, w.log.received, w.log.returned, w.log.overwritten);
    }
  }

  lemma OtherLeavesBuffers(w: World, a: Action)
    requires Sound(w.s) && (a.Advert? || a.Recheck? || a.Interrupt? || a.Command?)
    ensures var r := Advance(w, a);
            && r.s.dev.data == w.s.dev.data && r.s.dev.user == w.s.dev.user
            && r.s.dev.userLen == w.s.dev.userLen && r.s.finished == w.s.finished
            && r.log == w.log.(accepted := r.log.accepted)
  {
  }

  lemma OtherKeepsFetched(w: World, a: Action)
    requires Sound(w.s) && (a.Advert? || a.Recheck? || a.Interrupt? || a.Command?) && Fetched(w)
    ensures Fetched(Advance(w, a))
  {
    OtherLeavesBuffers(w, a);
    var r := Advance(w, a);
    assert Unread(r.s.dev) == Unread(w.s.dev);
    KeptByBuffers(w.s.dev, r.s.dev, w.log.received, w.log.returned, w.log.overwritten);
  }

  lemma KeptByBuffers(dev: Dev, next: Dev, received: seq<Reception>, returned: seq<Returned>, overwritten: nat)
    requires Kept(dev, received, returned, overwritten) && next.Shape()
    requires next.user == dev.user && next.userLen == dev.userLen
    ensures Kept(next, received, returned, overwritten)
  {
  }

  lemma AdvanceKeepsFetched(w: World, a: Action)
    requires Control(w.s) && Fetched(w)
    ensures Fetched(Advance(w, a))
  {
    if Enabled(w.s, a) {
      match a
      case Transfer(late) => TransferKeepsFetched(w, late);
      case Complete => CompleteKeepsFetched(w);
      case Read(faults) => ReadKeepsFetched(w, faults);
      case _ => OtherKeepsFetched(w, a);
    } else {
      assert Advance(w, a) == w;
    }
  }

  ghost predicate SentIn(w: World) {
    Sent(w.s.fw, w.log.accepted, w.log.exchanges)
  }

  lemma AdvanceKeepsSent(w: World, a: Action)
    requires Control(w.s) && SentIn(w)
    ensures SentIn(Advance(w, a))
  {
    if Enabled(w.s, a) {
      match a
      case Advert(report) => AcceptKeepsSent(w.s.fw, w.log.accepted, w.log.exchanges, ToEvent(report));
      case Transfer(late) =>
        WireIsMiso(w.s, late);
        var x := Exchange(OnTheWire(w.s.fw.tx, late), w.s.fw.pin, late, w.s.dev.command);
        ExchangeKeepsSent(w.s.fw, w.log.accepted, w.log.exchanges, x, w.s.dev.command);
      case _ =>
    }
  }

  lemma {:induction false} RunKeepsInv(acts: seq<Action>)
    ensures SentIn(Logged(acts)) && Fetched(Logged(acts))
  {
    if acts != [] {
      var front := acts[..|acts| - 1];
      RunKeepsInv(front);
      RunKeepsControl(front);
      AdvanceKeepsSent(Logged(front), acts[|acts| - 1]);
      AdvanceKeepsFetched(Logged(front), acts[|acts| - 1]);
    }
  }

  // --------------------------------------------------------------------------- theorems

  /** Sources step by one when the pin was high and repeat when it was low. */
  lemma SourceSteps(xs: seq<Exchange>, k: nat)
    requires k < |xs|
    ensures Source(xs, k) == (if k == 0 then -1 else Source(xs, k - 1)) + if xs[k].pinHigh then 1 else 0
  {
    assert xs[..k + 1][..k] == xs[..k];
  }

  lemma {:induction false} SourcesAscend(xs: seq<Exchange>, j: nat, k: nat)
    requires j <= k < |xs|
    ensures Source(xs, j) <= Source(xs, k)
    decreases k
  {
    if j < k {
      SourceSteps(xs, k);
      SourcesAscend(xs, j, k - 1);
    }
  }

  /**
   The bus delivers in order and without gaps: every transfer carries its source event, sources
   never skip, a source repeats only over a transfer made with the pin low, and the events
   handed over are exactly the accepted ones that are no longer pending.
   */
  lemma BusIsInOrder(acts: seq<Action>)
    ensures var w := Logged(acts); var xs, accepted := w.log.exchanges, w.log.accepted;
            && (forall k | 0 <= k < |xs| :: Carries(accepted, xs, k))
            && (forall k | 0 < k < |xs| ::
                  Source(xs, k) == Source(xs, k - 1) + if xs[k].pinHigh then 1 else 0)
            && Fresh(xs) <= |accepted|
            && accepted[Fresh(xs)..] == w.s.fw.Pending()
  {
    RunKeepsInv(acts);
    var xs := Logged(acts).log.exchanges;
    forall k | 0 < k < |xs|
      ensures Source(xs, k) == Source(xs, k - 1) + if xs[k].pinHigh then 1 else 0
    {
      SourceSteps(xs, k);
    }
  }

  lemma {:induction false} FreshTransferOf(xs: seq<Exchange>, i: nat) returns (k: nat)
    requires i < Fresh(xs)
    ensures k < |xs| && xs[k].pinHigh && Source(xs, k) == i
  {
    var n := |xs| - 1;
    assert xs[..n + 1] == xs;
    if xs[n].pinHigh && Fresh(xs) == i + 1 {
      k := n;
    } else {
      k := FreshTransferOf(xs[..n], i);
      assert xs[..n][..k + 1] == xs[..k + 1];
    }
  }

  /** Reception `r` is what the user sees of accepted event `i`. */
  ghost predicate Shows(log: Log, r: int, i: int) {
    && 0 <= r < |log.received| && 0 <= i < |log.accepted| && Fits(log.accepted[i])
    && 0 <= log.received[r].exchange < |log.exchanges|
    && Source(log.exchanges, log.received[r].exchange) == i
    && log.received[r].bytes == View(log.accepted[i], log.exchanges[log.received[r].exchange].late)
  }

  /** Every event handed over in a completed transfer reached the user buffer. */
  lemma HandedOverIsReceived(w: World, i: nat) returns (r: nat)
    requires SentIn(w) && Fetched(w) && w.s.finished == 0
    requires i < Fresh(w.log.exchanges)
    ensures Shows(w.log, r, i)
  {
    var xs := w.log.exchanges;
    var k := FreshTransferOf(xs, i);
    assert Carries(w.log.accepted, xs, k);
    assert xs[..|xs|] == xs;
    r := ReceptionOf(xs, k);
    ReceptionsInOrder(xs);
    assert w.log.received[r] in w.log.received;
  }

  /**
   Nothing is lost on the way to the host: once a schedule of host actions has run until none
   is possible, every event the queue ever accepted has been put into the user buffer.
   */
  lemma DrainedMeansReceived(acts: seq<Action>, schedule: seq<Action>, i: nat) returns (r: nat)
    requires IsSchedule(Run(acts), schedule)
    requires forall a | IsHostWork(a) :: !Enabled(Run(acts + schedule), a)
    requires i < |Logged(acts + schedule).log.accepted|
    ensures Shows(Logged(acts + schedule).log, r, i)
  {
    RunThenRunFrom(acts, schedule);
    EveryScheduleDrains(acts, schedule);
    RunKeepsInv(acts + schedule);
    r := HandedOverIsReceived(Logged(acts + schedule), i);
  }

  /** The accepted event that a returned frame came from. */
  ghost function EventOf(log: Log, r: int): int
    requires 0 <= r < |log.received| && 0 <= log.received[r].exchange < |log.exchanges|
  {
    Source(log.exchanges, log.received[r].exchange)
  }

  lemma CollectedInOrder(waiting: nat, xs: seq<Exchange>, received: seq<Reception>)
    requires Collected(waiting, xs, received)
    ensures forall r | 0 <= r < |received| :: Brought(xs, received[r])
    ensures forall q, r | 0 <= q < r < |received| :: received[q].exchange < received[r].exchange
  {
    var front := xs[..|xs| - waiting];
    ReceptionsInOrder(front);
    forall r | 0 <= r < |received| ensures Brought(xs, received[r]) {
      assert Brought(front, received[r]);
    }
  }

  lemma ReceptionShowsItsEvent(w: World, r: int)
    requires SentIn(w) && Fetched(w)
    requires 0 <= r < |w.log.received|
    ensures 0 <= w.log.received[r].exchange < |w.log.exchanges|
    ensures Shows(w.log, r, EventOf(w.log, r))
  {
    CollectedInOrder(w.s.finished, w.log.exchanges, w.log.received);
    assert Brought(w.log.exchanges, w.log.received[r]);
    assert Carries(w.log.accepted, w.log.exchanges, w.log.received[r].exchange);
  }

  lemma ReceptionsAscend(w: World, q: int, r: int)
    requires SentIn(w) && Fetched(w)
    requires 0 <= q < r < |w.log.received|
    ensures 0 <= w.log.received[q].exchange < w.log.received[r].exchange < |w.log.exchanges|
    ensures EventOf(w.log, q) <= EventOf(w.log, r)
  {
    CollectedInOrder(w.s.finished, w.log.exchanges, w.log.received);
    assert Brought(w.log.exchanges, w.log.received[q]) && Brought(w.log.exchanges, w.log.received[r]);
    SourcesAscend(w.log.exchanges, w.log.received[q].exchange, w.log.received[r].exchange);
  }

  /** Read `k` returned exactly what the user sees of accepted event `i`. */
  ghost predicate ReadShows(log: Log, k: int, i: int) {
    && 0 <= k < |log.returned|
    && Shows(log, log.returned[k].reception, i)
    && log.returned[k].bytes == log.received[log.returned[k].reception].bytes
  }

  /** End to end: in every run every non-empty read returns the view of an accepted event. */
  lemma ReadsReturnAcceptedEvents(acts: seq<Action>, k: nat) returns (i: nat)
    requires k < |Logged(acts).log.returned|
    ensures ReadShows(Logged(acts).log, k, i)
  {
    RunKeepsInv(acts);
    i := EventOfRead(Logged(acts), k);
  }

  lemma EventOfRead(w: World, k: nat) returns (i: nat)
    requires SentIn(w) && Fetched(w) && k < |w.log.returned|
    ensures ReadShows(w.log, k, i)
  {
    assert ReturnedOk(w.log.returned[k], w.log.received, |w.log.received| - Unread(w.s.dev));
    var r := w.log.returned[k].reception;
    ReceptionShowsItsEvent(w, r);
    i := EventOf(w.log, r);
  }

  /** Successive reads never go back: not in the frames they return, nor in the events shown. */
  lemma {:induction false} ReadsNeverGoBack(acts: seq<Action>, j: nat, k: nat)
    requires j < k < |Logged(acts).log.returned|
    ensures var log := Logged(acts).log;
            && log.returned[j].reception < log.returned[k].reception
            && forall h, i | ReadShows(log, j, h) && ReadShows(log, k, i) :: h <= i
  {
    RunKeepsInv(acts);
    EventsOfReadsAscend(Logged(acts), j, k);
  }

  lemma EventsOfReadsAscend(w: World, j: nat, k: nat)
    requires SentIn(w) && Fetched(w) && j < k < |w.log.returned|
    ensures 0 <= w.log.returned[j].reception < w.log.returned[k].reception < |w.log.received|
    ensures forall h, i | ReadShows(w.log, j, h) && ReadShows(w.log, k, i) :: h <= i
  {
    assert ReturnedOk(w.log.returned[k], w.log.received, |w.log.received| - Unread(w.s.dev));
    assert ReturnedOk(w.log.returned[j], w.log.received, |w.log.received| - Unread(w.s.dev));
    ReceptionsAscend(w, w.log.returned[j].reception, w.log.returned[k].reception);
  }

  /** What the log holds comes from the actions of the run and from nowhere else. */
  ghost predicate FromActions(log: Log, acts: seq<Action>) {
    && (forall k | 0 <= k < |log.accepted| ::
          exists report :: Advert(report) in acts && log.accepted[k] == ToEvent(report))
    && (forall x | x in log.exchanges :: Transfer(x.late) in acts)
  }

  lemma AdvanceFromActions(w: World, acts: seq<Action>, a: Action)
    requires Sound(w.s) && FromActions(w.log, acts)
    ensures FromActions(Record(w, a), acts + [a])
  {
    var longer := acts + [a];
    assert a in longer && forall b | b in acts :: b in longer;
    var log := Record(w, a);
    forall k | 0 <= k < |log.accepted|
      ensures exists report :: Advert(report) in longer && log.accepted[k] == ToEvent(report)
    {
      if k < |w.log.accepted| {
        var report :| Advert(report) in acts && w.log.accepted[k] == ToEvent(report);
        assert Advert(report) in longer && log.accepted[k] == ToEvent(report);
      } else {
        assert Advert(a.report) in longer && log.accepted[k] == ToEvent(a.report);
      }
    }
  }

  lemma {:induction false} LogIsOfRun(acts: seq<Action>)
    ensures FromActions(Logged(acts).log, acts)
  {
    if acts != [] {
      var n := |acts| - 1;
      LogIsOfRun(acts[..n]);
      AdvanceFromActions(Logged(acts[..n]), acts[..n], acts[n]);
      assert acts[..n] + [acts[n]] == acts;
    }
  }

  /** The transfer whose frame read `k` returned came late. */
  ghost predicate WasLate(log: Log, k: nat, i: int)
    requires ReadShows(log, k, i)
  {
    log.exchanges[log.received[log.returned[k].reception].exchange].late
  }

  /**
   When a read returns a report exactly: in every run, for every read, if and only if its own
   transfer was not late and the report has no non-zero byte beyond its 38th.  What other reports
   and transfers of the run were like does not matter.
   */
  lemma ReadIsFrameIff(acts: seq<Action>, k: nat) returns (i: nat, report: Report)
    requires k < |Logged(acts).log.returned|
    ensures ReadShows(Logged(acts).log, k, i)
    ensures Advert(report) in acts && Logged(acts).log.accepted[i] == ToEvent(report)
    ensures Logged(acts).log.returned[k].bytes == [|report| + 1, 1] + report <==>
              !WasLate(Logged(acts).log, k, i) && forall n | 38 <= n < |report| :: report[n] == 0
  {
    i := ReadsReturnAcceptedEvents(acts, k);
    LogIsOfRun(acts);
    report := ReportOfRead(Logged(acts).log, acts, k, i);
  }

  lemma ViewOfReport(report: Report, late: bool)
    ensures View(ToEvent(report), late) == [|report| + 1, 1] + report <==>
              !late && forall n | 38 <= n < |report| :: report[n] == 0
  {
    ViewIsFrameIff(ToEvent(report), late);
  }

  lemma ReportOfRead(log: Log, acts: seq<Action>, k: nat, i: nat) returns (report: Report)
    requires ReadShows(log, k, i) && FromActions(log, acts)
    ensures Advert(report) in acts && log.accepted[i] == ToEvent(report)
    ensures log.returned[k].bytes == [|report| + 1, 1] + report <==>
              !WasLate(log, k, i) && forall n | 38 <= n < |report| :: report[n] == 0
  {
    report :| Advert(report) in acts && log.accepted[i] == ToEvent(report);
    var late := WasLate(log, k, i);
    assert log.returned[k].bytes == View(ToEvent(report), late);
    ViewOfReport(report, late);
  }

  /** So without late transfers and with at most 38 bytes a report, every read is exact. */
  lemma ShortReportsArriveExactly(acts: seq<Action>, k: nat)
    requires k < |Logged(acts).log.returned|
    requires Transfer(true) !in acts
    requires forall a | a in acts && a.Advert? :: |a.report| <= 38
    ensures exists report :: Advert(report) in acts &&
              Logged(acts).log.returned[k].bytes == [|report| + 1, 1] + report
  {
    var i, report := ReadIsFrameIff(acts, k);
    LogIsOfRun(acts);
    NeverLate(Logged(acts).log, acts, k, i);
    assert |Advert(report).report| <= 38;
  }

  lemma NeverLate(log: Log, acts: seq<Action>, k: nat, i: nat)
    requires ReadShows(log, k, i) && FromActions(log, acts) && Transfer(true) !in acts
    ensures !WasLate(log, k, i)
  {
    var x := log.exchanges[log.received[log.returned[k].reception].exchange];
    assert x in log.exchanges;
  }

  /** Every frame put into the user buffer is returned once, overwritten unread, or still there. */
  lemma {:induction false} UserBufferConserves(acts: seq<Action>)
    ensures var w := Logged(acts);
            |w.log.received| == |w.log.returned| + w.log.overwritten + Unread(w.s.dev)
  {
    RunKeepsInv(acts);
  }

  ghost predicate Unasked(w: World) {
    && !w.s.fw.sniffing && w.s.dev.command != CMD_SNIFF_ADVERTISEMENTS
    && w.log.accepted == []
  }

  lemma AdvanceKeepsUnasked(w: World, a: Action)
    requires Sound(w.s) && Unasked(w) && a != Command(CMD_SNIFF_ADVERTISEMENTS)
    ensures Unasked(Advance(w, a))
  {
    if a.Transfer? {
      TransferPops(w.s.fw, w.s.dev.command);
    }
  }

  /** Nothing is accepted before the host has sent the command that asks for advertisements. */
  lemma {:induction false} NothingUnasked(acts: seq<Action>)
    requires Command(CMD_SNIFF_ADVERTISEMENTS) !in acts
    ensures Unasked(Logged(acts))
  {
    if acts != [] {
      var n := |acts| - 1;
      assert acts[n] in acts && forall a | a in acts[..n] :: a in acts;
      NothingUnasked(acts[..n]);
      AdvanceKeepsUnasked(Logged(acts[..n]), acts[n]);
    }
  }

  /** The firmware takes advertisements exactly when a transfer has brought it that command. */
  ghost predicate AskedFor(xs: seq<Exchange>) {
    exists x :: x in xs && x.command == CMD_SNIFF_ADVERTISEMENTS
  }

  lemma AdvanceKeepsAsked(w: World, a: Action)
    requires Sound(w.s) && w.s.fw.sniffing == AskedFor(w.log.exchanges)
    ensures var r := Advance(w, a); r.s.fw.sniffing == AskedFor(r.log.exchanges)
  {
    if a.Transfer? && Enabled(w.s, a) {
      TransferPops(w.s.fw, w.s.dev.command);
      WireIsMiso(w.s, a.late);
      var x := Exchange(OnTheWire(w.s.fw.tx, a.late), w.s.fw.pin, a.late, w.s.dev.command);
      assert forall y :: y in w.log.exchanges + [x] <==> y in w.log.exchanges || y == x;
    } else if a.Advert? {
      AddPushes(w.s.fw, ToEvent(a.report));
    }
  }

  lemma {:induction false} SniffingMeansAsked(acts: seq<Action>)
    ensures Logged(acts).s.fw.sniffing == AskedFor(Logged(acts).log.exchanges)
  {
    if acts != [] {
      SniffingMeansAsked(acts[..|acts| - 1]);
      AdvanceKeepsAsked(Logged(acts[..|acts| - 1]), acts[|acts| - 1]);
    }
  }

  /**
   Which advertisements are accepted: in every run, the next one is appended to the accepted
   events if and only if the host's command has arrived and fewer than five frames are pending.
   */
  lemma AcceptedIff(acts: seq<Action>, report: Report)
    ensures var w := Logged(acts);
            Advance(w, Advert(report)).log.accepted ==
              w.log.accepted +
              if AskedFor(w.log.exchanges) && |w.s.fw.Pending()| < 5 then [ToEvent(report)] else []
  {
    SniffingMeansAsked(acts);
    AcceptedStep(Logged(acts), report);
  }

  lemma AcceptedStep(w: World, report: Report)
    requires Sound(w.s)
    ensures Advance(w, Advert(report)).log.accepted ==
              w.log.accepted +
              if w.s.fw.sniffing && |w.s.fw.Pending()| < 5 then [ToEvent(report)] else []
  {
    AddPushes(w.s.fw, ToEvent(report));
  }
}
