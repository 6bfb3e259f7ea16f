/**
 The link with one step cut in two: the bytes of a transfer cross the bus, and the firmware's
 handler runs some time later.  In the gap the radio may queue more events and the driver may
 complete the transfer, look at the pin and claim the SPI again.  That the bytes of the next
 transfer wait for the handler is an assumption: the driver pauses before a read that its look at
 the pin leads to, but not before one that an interrupt or a user's command leads to.

 Control survives the cut unchanged.  Delivery survives it with one exception: an event accepted
 into an idle transmit buffer during a gap, called exposed here, may never be carried.
 `SplitDelivery` says which exposed events are.
 */
module SplitLink {
  import opened Bytes
  import opened EventQueue
  import opened Frame
  import opened SpiSlave
  import opened HostDriver
  import opened Link
  import opened Delivery

  /** A gap is open from a transfer's bytes crossing until the firmware has handled its command. */
  datatype Gap = NoGap | Gap(command: byte, frameWaited: bool)

  datatype SplitAction =
    | Plain(action: Action)   // anything but a transfer
    | Cross(isLate: bool)     // the bytes of a transfer cross the bus
    | Handle                  // the firmware handles the transfer

  /**
   `sources` names, for every transfer, the accepted event last staged when it was made, or -1;
   `exposed` holds the events accepted into an idle buffer during a gap.
   */
  datatype Split = Split(w: World, gap: Gap, sources: seq<int>, exposed: set<int>)

  const SPLIT_DAWN := Split(DAWN, NoGap, [], {})

  ghost predicate CanDo(x: Split, a: SplitAction) {
    match a
    case Plain(action) => !action.Transfer? && Enabled(x.w.s, action)
    case Cross(_) => x.gap.NoGap? && x.w.s.submitted > 0
    case Handle => x.gap.Gap?
  }

  /** How many accepted events have left the queue for the transmit buffer. */
  ghost function StagedCount(w: World): int {
    |w.log.accepted| - |w.s.fw.queue|
  }

  ghost function Crossed(w: World, late: bool): World
    requires Sound(w.s) && w.s.submitted > 0
  {
    WireIsMiso(w.s, late);
    World(HostSide(w.s, w.s.fw.tx, late),
          w.log.(exchanges := w.log.exchanges +
                              [Exchange(OnTheWire(w.s.fw.tx, late), w.s.fw.pin, late, w.s.dev.command)]))
  }

  ghost function SplitStep(x: Split, a: SplitAction): (r: Split)
    requires Sound(x.w.s)
    ensures Sound(r.w.s)
  {
    if !CanDo(x, a) then x else
    match a
    case Plain(action) =>
      var next := Advance(x.w, action);
      var accepted := |x.w.log.accepted|;
      x.(w := next,
         exposed := if |next.log.accepted| > accepted && x.gap.Gap? && !x.w.s.fw.full
                    then x.exposed + {accepted} else x.exposed)
    case Cross(late) =>
      ClockedDecodable(x.w.s.dev, x.w.s.fw, late);
      x.(w := Crossed(x.w, late),
         gap := Gap(x.w.s.dev.command, x.w.s.fw.full),
         sources := x.sources + [StagedCount(x.w) - 1])
    case Handle =>
      TransferPops(x.w.s.fw, x.gap.command);
      x.(w := World(RadioSide(x.w.s, x.gap.command), x.w.log), gap := NoGap)
  }

  ghost function SplitRun(acts: seq<SplitAction>): (x: Split)
    ensures Sound(x.w.s)
  {
    if acts == [] then SPLIT_DAWN else SplitStep(SplitRun(acts[..|acts| - 1]), acts[|acts| - 1])
  }

  /** With nothing in the gap this is the link as it was: crossing and handling are one transfer. */
  lemma CrossThenHandleIsTransfer(x: Split, late: bool)
    requires Sound(x.w.s) && x.gap.NoGap? && x.w.s.submitted > 0
    ensures SplitStep(SplitStep(x, Cross(late)), Handle).w == Advance(x.w, Transfer(late))
  {
  }

  // ---------------------------------------------------------------- ownership and wake-ups

  lemma HandleKeepsControl(s: Sys, command: byte)
    requires Control(s)
    ensures Control(RadioSide(s, command))
  {
    TransferPops(s.fw, command);
  }

  lemma SplitStepKeepsControl(x: Split, a: SplitAction)
    requires Control(x.w.s)
    ensures Control(SplitStep(x, a).w.s)
  {
    if CanDo(x, a) {
      match a
      case Plain(action) => StepKeepsControl(x.w.s, action);
      case Cross(late) => ClockedDecodable(x.w.s.dev, x.w.s.fw, late);
      case Handle => HandleKeepsControl(x.w.s, x.gap.command);
    }
  }

  /** In every run with gaps, too, the SPI has one owner at most and no wake-up is lost. */
  lemma {:induction false} SplitRunKeepsControl(acts: seq<SplitAction>)
    ensures Control(SplitRun(acts).w.s)
  {
    if acts != [] {
      SplitRunKeepsControl(acts[..|acts| - 1]);
      SplitStepKeepsControl(SplitRun(acts[..|acts| - 1]), acts[|acts| - 1]);
    }
  }

  // ------------------------------------------------------------------------------ delivery

  /** The transfer carried exactly accepted event `i`, or nothing if `i` is -1. */
  ghost predicate CarriesEvent(accepted: seq<Event>, t: Exchange, i: int) {
    var rx := Received(t.miso);
    if i < 0 then i == -1 && Invalid(rx)
    else i < |accepted| && Fits(accepted[i]) && !Invalid(rx) && Decode(rx) == View(accepted[i], t.late)
  }

  ghost predicate CarriedInOrder(accepted: seq<Event>, xs: seq<Exchange>, sources: seq<int>, staged: int) {
    && |sources| == |xs|
    && (forall k | 0 <= k < |xs| :: CarriesEvent(accepted, xs[k], sources[k]))
    && (forall k | 0 <= k < |xs| :: sources[k] < staged)
    && forall j, k | 0 <= j < k < |xs| :: sources[j] <= sources[k]
  }

  /** The queue holds the accepted events that were not staged, the buffer the last one that was. */
  ghost predicate Lined(fw: Fw, accepted: seq<Event>) {
    && fw.Good()
    && (forall e | e in accepted :: Proper(e))
    && |fw.queue| <= |accepted|
    && fw.queue == accepted[|accepted| - |fw.queue|..]
    && Loaded(fw.tx, accepted, |accepted| - |fw.queue|)
    && (fw.full ==> |fw.queue| < |accepted|)
  }

  ghost predicate Accounted(i: int, sources: seq<int>, exposed: set<int>) {
    i in sources || i in exposed
  }

  /**
   Every staged event but the last was carried or had been exposed; and so was the last one, if a
   gap is open or no frame waits, since then the next event may take its place in the buffer.
   */
  ghost predicate SkipsExposedOnly(fw: Fw, gap: Gap, staged: int, sources: seq<int>, exposed: set<int>) {
    && (forall i | 0 <= i < staged - 1 :: Accounted(i, sources, exposed))
    && (gap.Gap? || !fw.full ==> staged == 0 || Accounted(staged - 1, sources, exposed))
  }

  ghost predicate SentParts(
    fw: Fw, gap: Gap, accepted: seq<Event>, xs: seq<Exchange>, sources: seq<int>, exposed: set<int>)
  {
    var staged := |accepted| - |fw.queue|;
    && Lined(fw, accepted)
    && CarriedInOrder(accepted, xs, sources, staged)
    && SkipsExposedOnly(fw, gap, staged, sources, exposed)
  }

  ghost predicate SplitSent(x: Split) {
    SentParts(x.w.s.fw, x.gap, x.w.log.accepted, x.w.log.exchanges, x.sources, x.exposed)
  }

  lemma AddWhileFullKeepsLined(fw: Fw, accepted: seq<Event>, e: Event)
    requires Lined(fw, accepted) && Proper(e) && fw.full && |fw.queue| < QUEUE_LEN
    ensures var (next, ok) := SpiSlave.Add(fw, e);
            ok && Lined(next, accepted + [e]) && next.queue == fw.queue + [e] && next.full
  {
    AddPushes(fw, e);
    LoadedExtends(fw.tx, accepted, |accepted| - |fw.queue|, e);
  }

  lemma AddWhileIdleKeepsLined(fw: Fw, accepted: seq<Event>, e: Event)
    requires Lined(fw, accepted) && Proper(e) && !fw.full
    ensures var (next, ok) := SpiSlave.Add(fw, e);
            ok && Lined(next, accepted + [e]) && next.queue == [] && next.full
  {
    AddPushes(fw, e);
    StagedOfEncode(fw.tx, e);
    assert (accepted + [e])[|accepted| + 1..] == [];
  }

  lemma LoadedExtends(tx: seq<byte>, accepted: seq<Event>, c: nat, e: Event)
    requires Loaded(tx, accepted, c)
    ensures Loaded(tx, accepted + [e], c)
  {
    if c > 0 {
      assert (accepted + [e])[c - 1] == accepted[c - 1];
    }
  }

  lemma HandleKeepsLined(fw: Fw, accepted: seq<Event>, command: byte)
    requires Lined(fw, accepted)
    ensures var next := TransferDone(fw, command);
            && Lined(next, accepted)
            && next.full == (fw.queue != [])
            && |next.queue| == |fw.queue| - if fw.queue == [] then 0 else 1
  {
    TransferPops(fw, command);
    if fw.queue != [] {
      StagedOfEncode(fw.tx, fw.queue[0]);
    }
  }

  lemma CarriedExtends(accepted: seq<Event>, e: Event, xs: seq<Exchange>, sources: seq<int>, staged: int, more: int)
    requires CarriedInOrder(accepted, xs, sources, staged) && staged <= more
    ensures CarriedInOrder(accepted + [e], xs, sources, more)
  {
    forall k | 0 <= k < |xs| ensures CarriesEvent(accepted + [e], xs[k], sources[k]) {
      assert CarriesEvent(accepted, xs[k], sources[k]);
    }
  }

  lemma CrossKeepsCarried(fw: Fw, accepted: seq<Event>, xs: seq<Exchange>, sources: seq<int>, t: Exchange)
    requires Lined(fw, accepted) && t.miso == OnTheWire(fw.tx, t.late)
    requires CarriedInOrder(accepted, xs, sources, |accepted| - |fw.queue|)
    ensures var n := |accepted| - |fw.queue|; CarriedInOrder(accepted, xs + [t], sources + [n - 1], n)
  {
    var n := |accepted| - |fw.queue|;
    LoadedArrives(fw.tx, accepted, n, t.late);
    assert CarriesEvent(accepted, t, n - 1);
  }

  /** An event added to an idle buffer takes the place of one that is accounted for. */
  lemma SkipsAfterAdd(fw: Fw, gap: Gap, accepted: int, sources: seq<int>, exposed: set<int>, next: Fw)
    requires SkipsExposedOnly(fw, gap, accepted - |fw.queue|, sources, exposed)
    requires fw.full ==> next.full && |next.queue| == |fw.queue| + 1
    requires !fw.full ==> next.full && next.queue == fw.queue == []
    ensures SkipsExposedOnly(next, gap, accepted + 1 - |next.queue|, sources,
                             if gap.Gap? && !fw.full then exposed + {accepted} else exposed)
  {
    var more := if gap.Gap? && !fw.full then exposed + {accepted} else exposed;
    forall i | Accounted(i, sources, exposed) ensures Accounted(i, sources, more) {
    }
  }

  lemma PartsAfterAdd(fw: Fw, gap: Gap, accepted: seq<Event>, xs: seq<Exchange>, sources: seq<int>,
                      exposed: set<int>, e: Event)
    requires SentParts(fw, gap, accepted, xs, sources, exposed) && Proper(e) && |fw.queue| < QUEUE_LEN
    ensures var (next, ok) := SpiSlave.Add(fw, e);
            ok && SentParts(next, gap, accepted + [e], xs, sources,
                            if gap.Gap? && !fw.full then exposed + {|accepted|} else exposed)
  {
    if fw.full {
      AddWhileFullKeepsLined(fw, accepted, e);
    } else {
      AddWhileIdleKeepsLined(fw, accepted, e);
    }
    var next := SpiSlave.Add(fw, e).0;
    CarriedExtends(accepted, e, xs, sources, |accepted| - |fw.queue|, |accepted| + 1 - |next.queue|);
    SkipsAfterAdd(fw, gap, |accepted|, sources, exposed, next);
  }

  lemma AcceptStepParts(x: Split, report: Report)
    requires Sound(x.w.s)
    ensures var r, fw := SplitStep(x, Plain(Action.Advert(report))), x.w.s.fw;
            && r.gap == x.gap && r.sources == x.sources && r.w.log.exchanges == x.w.log.exchanges
            && if fw.sniffing && |fw.queue| < QUEUE_LEN then
                 && r.w.s.fw == SpiSlave.Add(fw, ToEvent(report)).0
                 && r.w.log.accepted == x.w.log.accepted + [ToEvent(report)]
                 && r.exposed == if x.gap.Gap? && !fw.full then x.exposed + {|x.w.log.accepted|} else x.exposed
               else r.w.s.fw == fw && r.w.log.accepted == x.w.log.accepted && r.exposed == x.exposed
  {
  }

  lemma AcceptKeepsSplitSent(x: Split, report: Report)
    requires Sound(x.w.s) && SplitSent(x)
    ensures SplitSent(SplitStep(x, Plain(Action.Advert(report))))
  {
    AcceptStepParts(x, report);
    if x.w.s.fw.sniffing && |x.w.s.fw.queue| < QUEUE_LEN {
      PartsAfterAdd(x.w.s.fw, x.gap, x.w.log.accepted, x.w.log.exchanges, x.sources, x.exposed, ToEvent(report));
    }
  }

  lemma SkipsAfterCross(fw: Fw, gap: Gap, staged: int, sources: seq<int>, exposed: set<int>, next: Gap)
    requires staged >= 0 && SkipsExposedOnly(fw, gap, staged, sources, exposed)
    ensures SkipsExposedOnly(fw, next, staged, sources + [staged - 1], exposed)
  {
    var longer := sources + [staged - 1];
    assert longer[|sources|] == staged - 1;
    forall i | Accounted(i, sources, exposed) ensures Accounted(i, longer, exposed) {
    }
  }

  lemma CrossLeavesFirmware(x: Split, t: Exchange)
    requires Sound(x.w.s) && CanDo(x, Cross(t.late))
    requires t == Exchange(OnTheWire(x.w.s.fw.tx, t.late), x.w.s.fw.pin, t.late, x.w.s.dev.command)
    ensures var r := SplitStep(x, Cross(t.late));
            && r.w.s.fw == x.w.s.fw && r.w.log == x.w.log.(exchanges := x.w.log.exchanges + [t])
            && r.sources == x.sources + [StagedCount(x.w) - 1] && r.exposed == x.exposed && r.gap.Gap?
  {
  }

  lemma PartsAfterCross(fw: Fw, gap: Gap, accepted: seq<Event>, xs: seq<Exchange>, sources: seq<int>,
                        exposed: set<int>, t: Exchange, next: Gap)
    requires SentParts(fw, gap, accepted, xs, sources, exposed) && t.miso == OnTheWire(fw.tx, t.late)
    ensures SentParts(fw, next, accepted, xs + [t], sources + [|accepted| - |fw.queue| - 1], exposed)
  {
    CrossKeepsCarried(fw, accepted, xs, sources, t);
    SkipsAfterCross(fw, gap, |accepted| - |fw.queue|, sources, exposed, next);
  }

  lemma CrossKeepsSplitSent(x: Split, late: bool)
    requires Sound(x.w.s) && SplitSent(x) && CanDo(x, Cross(late))
    ensures SplitSent(SplitStep(x, Cross(late)))
  {
    WireIsMiso(x.w.s, late);
    var t := Exchange(OnTheWire(x.w.s.fw.tx, late), x.w.s.fw.pin, late, x.w.s.dev.command);
    CrossLeavesFirmware(x, t);
    PartsAfterCross(x.w.s.fw, x.gap, x.w.log.accepted, x.w.log.exchanges, x.sources, x.exposed,
                    t, SplitStep(x, Cross(late)).gap);
  }

  lemma CarriedWidens(accepted: seq<Event>, xs: seq<Exchange>, sources: seq<int>, staged: int, more: int)
    requires CarriedInOrder(accepted, xs, sources, staged) && staged <= more
    ensures CarriedInOrder(accepted, xs, sources, more)
  {
  }

  /** The handler may put the next event in the place of the last one, which is accounted for. */
  lemma SkipsAfterHandle(fw: Fw, gap: Gap, staged: int, sources: seq<int>, exposed: set<int>, next: Fw, more: int)
    requires SkipsExposedOnly(fw, gap, staged, sources, exposed) && gap.Gap? && staged >= 0
    requires more == staged + if next.full then 1 else 0
    ensures SkipsExposedOnly(next, NoGap, more, sources, exposed)
  {
  }

  lemma PartsAfterHandle(fw: Fw, gap: Gap, accepted: seq<Event>, xs: seq<Exchange>, sources: seq<int>,
                         exposed: set<int>, command: byte)
    requires SentParts(fw, gap, accepted, xs, sources, exposed) && gap.Gap?
    ensures SentParts(TransferDone(fw, command), NoGap, accepted, xs, sources, exposed)
  {
    HandleKeepsLined(fw, accepted, command);
    var next, staged := TransferDone(fw, command), |accepted| - |fw.queue|;
    var more := |accepted| - |next.queue|;
    CarriedWidens(accepted, xs, sources, staged, more);
    SkipsAfterHandle(fw, gap, staged, sources, exposed, next, more);
  }

  lemma HandleStepParts(x: Split)
    requires Sound(x.w.s) && CanDo(x, Handle)
    ensures var r := SplitStep(x, Handle);
            && r.w.s.fw == TransferDone(x.w.s.fw, x.gap.command) && r.w.log == x.w.log
            && r.gap == NoGap && r.sources == x.sources && r.exposed == x.exposed
  {
  }

  lemma HandleKeepsSplitSent(x: Split)
    requires Sound(x.w.s) && SplitSent(x) && CanDo(x, Handle)
    ensures SplitSent(SplitStep(x, Handle))
  {
    HandleStepParts(x);
    PartsAfterHandle(x.w.s.fw, x.gap, x.w.log.accepted, x.w.log.exchanges, x.sources, x.exposed, x.gap.command);
  }

  lemma OtherLeavesFirmware(x: Split, a: Action)
    requires Sound(x.w.s) && !a.Advert? && !a.Transfer?
    ensures var r := SplitStep(x, Plain(a));
            && r.w.s.fw == x.w.s.fw && r.w.log.accepted == x.w.log.accepted
            && r.w.log.exchanges == x.w.log.exchanges
            && r.gap == x.gap && r.sources == x.sources && r.exposed == x.exposed
  {
  }

  lemma OtherKeepsSplitSent(x: Split, a: Action)
    requires Sound(x.w.s) && SplitSent(x) && !a.Advert? && !a.Transfer?
    ensures SplitSent(SplitStep(x, Plain(a)))
  {
    OtherLeavesFirmware(x, a);
  }

  lemma SplitStepKeepsSent(x: Split, a: SplitAction)
    requires Sound(x.w.s) && SplitSent(x)
    ensures SplitSent(SplitStep(x, a))
  {
    if CanDo(x, a) {
      match a
      case Plain(action) =>
        if action.Advert? {
          AcceptKeepsSplitSent(x, action.report);
        } else {
          OtherKeepsSplitSent(x, action);
        }
      case Cross(late) => CrossKeepsSplitSent(x, late);
      case Handle => HandleKeepsSplitSent(x);
    }
  }

  /** What the host gets and hands on does not depend on when the firmware handles a transfer. */
  lemma SplitStepKeepsFetched(x: Split, a: SplitAction)
    requires Control(x.w.s) && Fetched(x.w)
    ensures Fetched(SplitStep(x, a).w)
  {
    if CanDo(x, a) {
      match a
      case Plain(action) => AdvanceKeepsFetched(x.w, action);
      case Cross(late) =>
        TransferKeepsFetched(x.w, late);
        CrossThenHandleIsTransfer(x, late);
      case Handle =>
    }
  }

  ghost predicate SplitInv(x: Split) {
    Control(x.w.s) && SplitSent(x) && Fetched(x.w)
  }

  lemma SplitStepKeepsInv(x: Split, a: SplitAction)
    requires SplitInv(x)
    ensures SplitInv(SplitStep(x, a))
  {
    SplitStepKeepsControl(x, a);
    SplitStepKeepsSent(x, a);
    SplitStepKeepsFetched(x, a);
  }

  lemma BootedIsLined()
    ensures Lined(BOOTED, [])
  {
    assert BOOTED.queue == [] && !BOOTED.full;
    assert Loaded(BOOTED.tx, [], 0);
  }

  lemma DawnIsSent()
    ensures SplitSent(SPLIT_DAWN)
  {
    BootedIsLined();
  }

  lemma {:induction false} SplitRunKeepsInv(acts: seq<SplitAction>)
    ensures SplitInv(SplitRun(acts))
  {
    if acts == [] {
      DawnIsSent();
      RunKeepsInv([]);
      RunKeepsControl([]);
    } else {
      SplitRunKeepsInv(acts[..|acts| - 1]);
      SplitStepKeepsInv(SplitRun(acts[..|acts| - 1]), acts[|acts| - 1]);
    }
  }

  /** Queued events, the last one staged, and the others: carried, or exposed. */
  ghost predicate NothingElseSkipped(x: Split) {
    var staged := StagedCount(x.w);
    && 0 <= staged <= |x.w.log.accepted|
    && x.w.s.fw.queue == x.w.log.accepted[staged..]
    && (forall i | 0 <= i < staged - 1 :: i in x.sources || i in x.exposed)
    && (!x.w.s.fw.pin && staged > 0 ==> staged - 1 in x.sources || staged - 1 in x.exposed)
  }

  /**
   Delivery with gaps, for every run: each transfer carries its source event, sources never go
   back, and every event that has left the queue was carried by a transfer, or is the one whose
   frame waits, or was accepted into an idle buffer during a gap.
   */
  lemma {:induction false} SplitBusIsInOrder(acts: seq<SplitAction>)
    ensures var x := SplitRun(acts);
            && CarriedInOrder(x.w.log.accepted, x.w.log.exchanges, x.sources, StagedCount(x.w))
            && NothingElseSkipped(x)
  {
    SplitRunKeepsInv(acts);
    SentMeansNothingElseSkipped(SplitRun(acts));
  }

  lemma SentMeansNothingElseSkipped(x: Split)
    requires SplitSent(x)
    ensures NothingElseSkipped(x)
  {
    forall i | 0 <= i < StagedCount(x.w) - 1 ensures i in x.sources || i in x.exposed {
      assert Accounted(i, x.sources, x.exposed);
    }
  }

  /** Read `k` returned exactly what the user sees of accepted event `i`. */
  ghost predicate SplitReadShows(x: Split, k: int, i: int) {
    var log := x.w.log;
    && 0 <= k < |log.returned| && 0 <= log.returned[k].reception < |log.received|
    && 0 <= i < |log.accepted| && Fits(log.accepted[i])
    && var at := log.received[log.returned[k].reception].exchange;
       && 0 <= at < |log.exchanges| && at < |x.sources| && x.sources[at] == i
       && log.returned[k].bytes == View(log.accepted[i], log.exchanges[at].late)
  }

  /** End to end with gaps: every non-empty read still returns the view of an accepted event. */
  lemma SplitReadsReturnAcceptedEvents(acts: seq<SplitAction>, k: nat) returns (i: nat)
    requires k < |SplitRun(acts).w.log.returned|
    ensures SplitReadShows(SplitRun(acts), k, i)
  {
    SplitRunKeepsInv(acts);
    i := SplitEventOfRead(SplitRun(acts), k);
  }

  lemma SplitEventOfRead(x: Split, k: nat) returns (i: nat)
    requires SplitSent(x) && Fetched(x.w) && k < |x.w.log.returned|
    ensures SplitReadShows(x, k, i)
  {
    var log := x.w.log;
    assert ReturnedOk(log.returned[k], log.received, |log.received| - Unread(x.w.s.dev));
    var r := log.returned[k].reception;
    CollectedInOrder(x.w.s.finished, log.exchanges, log.received);
    assert Brought(log.exchanges, log.received[r]);
    var at := log.received[r].exchange;
    assert CarriesEvent(log.accepted, log.exchanges[at], x.sources[at]);
    i := x.sources[at];
  }

  /** ... and successive reads still never go back. */
  lemma {:induction false} SplitReadsNeverGoBack(acts: seq<SplitAction>, j: nat, k: nat)
    requires j < k < |SplitRun(acts).w.log.returned|
    ensures var x := SplitRun(acts);
            forall h, i | SplitReadShows(x, j, h) && SplitReadShows(x, k, i) :: h <= i
  {
    SplitRunKeepsInv(acts);
    SplitEventsOfReadsAscend(SplitRun(acts), j, k);
  }

  lemma SplitEventsOfReadsAscend(x: Split, j: nat, k: nat)
    requires SplitSent(x) && Fetched(x.w) && j < k < |x.w.log.returned|
    ensures forall h, i | SplitReadShows(x, j, h) && SplitReadShows(x, k, i) :: h <= i
  {
    var log := x.w.log;
    assert ReturnedOk(log.returned[j], log.received, |log.received| - Unread(x.w.s.dev));
    assert ReturnedOk(log.returned[k], log.received, |log.received| - Unread(x.w.s.dev));
    CollectedInOrder(x.w.s.finished, log.exchanges, log.received);
  }

  // -------------------------------------------------------------------- the exception is real

  lemma Extends(acts: seq<SplitAction>, a: SplitAction)
    ensures SplitRun(acts + [a]) == SplitStep(SplitRun(acts), a)
  {
    assert (acts + [a])[..|acts|] == acts;
  }

  /** Idle, advertisements turned on, and nothing accepted or carried so far. */
  ghost predicate Listening(x: Split) {
    && x.gap.NoGap? && x.w.s.submitted == 0 && !x.w.s.dev.pending
    && x.w.s.fw.sniffing && !x.w.s.fw.full && x.w.s.fw.queue == []
    && x.w.log.accepted == [] && (forall i | i in x.sources :: i == -1) && x.exposed == {}
  }

  ghost function Asking(): seq<SplitAction> {
    [] + [Plain(Action.Command(CMD_SNIFF_ADVERTISEMENTS))] + [Cross(false)] + [Handle] + [Plain(Action.Complete)]
  }

  lemma SniffCommandCrosses()
    ensures var x := SplitStep(SplitStep(SPLIT_DAWN, Plain(Action.Command(CMD_SNIFF_ADVERTISEMENTS))), Cross(false));
            && x.gap == Gap(CMD_SNIFF_ADVERTISEMENTS, false) && x.sources == [-1] && x.exposed == {}
            && x.w.s.fw == BOOTED && x.w.log.accepted == []
            && x.w.s.submitted == 0 && x.w.s.finished == 1
  {
    var x1 := SplitStep(SPLIT_DAWN, Plain(Action.Command(CMD_SNIFF_ADVERTISEMENTS)));
    assert x1.w.s.submitted == 1 && x1.w.s.dev.command == CMD_SNIFF_ADVERTISEMENTS && x1.w.s.fw == BOOTED;
  }

  lemma SniffCommandHandled(x: Split)
    requires Sound(x.w.s)
    requires && x.gap == Gap(CMD_SNIFF_ADVERTISEMENTS, false) && x.sources == [-1] && x.exposed == {}
             && x.w.s.fw == BOOTED && x.w.log.accepted == []
             && x.w.s.submitted == 0 && x.w.s.finished == 1
    ensures Listening(SplitStep(SplitStep(x, Handle), Plain(Action.Complete)))
  {
    var x3 := SplitStep(x, Handle);
    assert x3.w.s.fw == BOOTED.(sniffing := true) && x3.w.s.finished == 1;
  }

  lemma AskingListens()
    ensures Listening(SplitRun(Asking()))
  {
    var command := Plain(Action.Command(CMD_SNIFF_ADVERTISEMENTS));
    Extends([], command);
    Extends([] + [command], Cross(false));
    Extends([] + [command] + [Cross(false)], Handle);
    Extends([] + [command] + [Cross(false)] + [Handle], Plain(Action.Complete));
    SniffCommandCrosses();
    SniffCommandHandled(SplitRun([] + [command] + [Cross(false)]));
  }

  /**
   A run in which an exposed event is never carried: with advertisements on, the bytes of another
   command cross while no frame waits, and two reports arrive before the firmware handles it.
   */
  ghost function LossyRun(first: Report, second: Report): seq<SplitAction> {
    Asking() + [Plain(Action.Command(COMMAND_READ_IRQ))] + [Cross(false)]
    + [Plain(Action.Advert(first))] + [Plain(Action.Advert(second))] + [Handle]
  }

  /** The second report has taken the first one's place in the buffer. */
  ghost predicate Replaced(x: Split, first: Report, second: Report) {
    && x.w.log.accepted == [ToEvent(first), ToEvent(second)]
    && StagedCount(x.w) == 2 && (forall i | i in x.sources :: i == -1) && x.exposed == {0}
  }

  /** In a gap, with no frame waiting and nothing accepted so far. */
  ghost predicate IdleInGap(x: Split) {
    && x.gap.Gap? && x.w.s.fw.sniffing && !x.w.s.fw.full && x.w.s.fw.queue == []
    && x.w.log.accepted == [] && (forall i | i in x.sources :: i == -1) && x.exposed == {}
  }

  lemma CommandOpensGap(x: Split)
    requires Sound(x.w.s) && Listening(x)
    ensures IdleInGap(SplitStep(SplitStep(x, Plain(Action.Command(COMMAND_READ_IRQ))), Cross(false)))
  {
    var claimed := SplitStep(x, Plain(Action.Command(COMMAND_READ_IRQ)));
    assert claimed.w.s.submitted == 1 && claimed.w.s.fw == x.w.s.fw && claimed.w.log == x.w.log;
  }

  /** One report is staged and exposed, a second queued behind it. */
  ghost predicate TwoInGap(x: Split, first: Report, second: Report) {
    && x.gap.Gap? && x.w.s.fw.queue == [ToEvent(second)]
    && x.w.log.accepted == [ToEvent(first), ToEvent(second)]
    && (forall i | i in x.sources :: i == -1) && x.exposed == {0}
  }

  lemma ReportsInGap(x: Split, first: Report, second: Report)
    requires Sound(x.w.s) && IdleInGap(x)
    ensures TwoInGap(SplitStep(SplitStep(x, Plain(Action.Advert(first))), Plain(Action.Advert(second))),
                     first, second)
  {
    AddPushes(x.w.s.fw, ToEvent(first));
    var one := SplitStep(x, Plain(Action.Advert(first)));
    assert one.w.log.accepted == [ToEvent(first)] && one.exposed == {0} && one.gap == x.gap;
    assert one.w.s.fw.full && one.w.s.fw.queue == [] && one.w.s.fw.sniffing;
  }

  lemma HandledInGap(x: Split, first: Report, second: Report)
    requires Sound(x.w.s) && TwoInGap(x, first, second)
    ensures Replaced(SplitStep(x, Handle), first, second)
  {
    TransferPops(x.w.s.fw, x.gap.command);
    assert SplitStep(x, Handle).w.s.fw.queue == [];
  }

  lemma LossyRunReplaces(first: Report, second: Report)
    ensures Replaced(SplitRun(LossyRun(first, second)), first, second)
  {
    var command := Plain(Action.Command(COMMAND_READ_IRQ));
    var acts := Asking();
    var crossed := acts + [command] + [Cross(false)];
    AskingListens();
    Extends(acts, command);
    Extends(acts + [command], Cross(false));
    CommandOpensGap(SplitRun(acts));
    TwoReportsReplace(crossed, first, second);
  }

  lemma TwoReportsReplace(acts: seq<SplitAction>, first: Report, second: Report)
    requires IdleInGap(SplitRun(acts))
    ensures Replaced(SplitRun(acts + [Plain(Action.Advert(first))] + [Plain(Action.Advert(second))] + [Handle]),
                     first, second)
  {
    var advert1, advert2 := Plain(Action.Advert(first)), Plain(Action.Advert(second));
    Extends(acts, advert1);
    Extends(acts + [advert1], advert2);
    Extends(acts + [advert1] + [advert2], Handle);
    ReportsInGap(SplitRun(acts), first, second);
    HandledInGap(SplitRun(acts + [advert1] + [advert2]), first, second);
  }

  /** Sources of later transfers are events staged later. */
  lemma SplitStepSources(x: Split, a: SplitAction, least: int)
    requires Sound(x.w.s) && least < StagedCount(x.w)
    ensures var r := SplitStep(x, a);
            && least < StagedCount(r.w)
            && forall i | i in r.sources && i !in x.sources :: i >= least
  {
    if CanDo(x, a) {
      match a
      case Plain(action) =>
        if action.Advert? {
          AddPushes(x.w.s.fw, ToEvent(action.report));
        }
      case Cross(late) =>
      case Handle => TransferPops(x.w.s.fw, x.gap.command);
    }
  }

  /** Whatever follows that run, its first report is never carried, though it was accepted. */
  lemma {:induction false} ExposedEventIsLost(first: Report, second: Report, more: seq<SplitAction>)
    ensures var x := SplitRun(LossyRun(first, second) + more);
            && 1 < StagedCount(x.w) && 0 !in x.sources
            && x.w.log.accepted != [] && x.w.log.accepted[0] == ToEvent(first)
    decreases |more|
  {
    var acts := LossyRun(first, second);
    if more == [] {
      LossyRunReplaces(first, second);
      assert acts + more == acts;
    } else {
      var front, last := more[..|more| - 1], more[|more| - 1];
      ExposedEventIsLost(first, second, front);
      assert acts + more == acts + front + [last];
      Extends(acts + front, last);
      SplitStepSources(SplitRun(acts + front), last, 1);
      AcceptedOnlyGrows(SplitRun(acts + front), last);
    }
  }

  lemma AcceptedOnlyGrows(x: Split, a: SplitAction)
    requires Sound(x.w.s)
    ensures x.w.log.accepted <= SplitStep(x, a).w.log.accepted
  {
  }

  // ------------------------------------------------------------------------------ draining

  predicate IsSplitWork(a: SplitAction) {
    a.Cross? || a.Handle? || (a.Plain? && IsHostWork(a.action))
  }

  /** Frames whose bytes have not crossed and that wait to be sent or to be discarded. */
  ghost function Uncrossed(x: Split): int
    requires Sound(x.w.s)
  {
    |x.w.s.fw.Pending()| - if x.gap.Gap? && x.gap.frameWaited then 1 else 0
  }

  /** A claimed transfer that will carry a waiting frame. */
  ghost predicate Fetching(x: Split) {
    x.w.s.submitted > 0 && x.w.s.fw.pin && x.gap.NoGap?
  }

  /** In a gap the pin may still be high for a frame that has crossed and invite one claim in vain. */
  ghost predicate Tempting(x: Split) {
    x.gap.Gap? && x.w.s.fw.pin && x.w.s.submitted == 0
  }

  ghost function SplitWorkLeft(x: Split): int
    requires Sound(x.w.s)
  {
    var s := x.w.s;
    8 * (Uncrossed(x) - if Fetching(x) then 1 else 0)
    + (if Tempting(x) then 4 else 0)
    + (if Fetching(x) then 8 else if s.submitted > 0 then 4 else 0)
    + 2 * s.finished + s.rechecks
    + (if s.edge then 5 else 0)
    + (if x.gap.Gap? then 1 else 0)
  }

  /** A frame that waited when the bytes crossed still occupies the buffer until it is handled. */
  ghost predicate GapOk(x: Split) {
    x.gap.Gap? && x.gap.frameWaited ==> x.w.s.fw.full
  }

  lemma SplitStepKeepsGapOk(x: Split, a: SplitAction)
    requires Control(x.w.s) && GapOk(x)
    ensures GapOk(SplitStep(x, a))
  {
    if CanDo(x, a) && a.Plain? && a.action.Advert? {
      AddPushes(x.w.s.fw, ToEvent(a.action.report));
    }
  }

  lemma SplitWorkIsNatural(x: Split)
    requires Control(x.w.s) && GapOk(x)
    ensures SplitWorkLeft(x) >= 0
  {
  }

  lemma CrossWorks(x: Split, late: bool)
    requires Control(x.w.s) && GapOk(x) && CanDo(x, Cross(late))
    ensures SplitWorkLeft(SplitStep(x, Cross(late))) < SplitWorkLeft(x)
  {
    assert SplitStep(x, Cross(late)).w.s.fw == x.w.s.fw;
  }

  lemma HandleWorks(x: Split)
    requires Control(x.w.s) && GapOk(x) && CanDo(x, Handle)
    ensures SplitWorkLeft(SplitStep(x, Handle)) < SplitWorkLeft(x)
  {
    TransferPops(x.w.s.fw, x.gap.command);
  }

  lemma DriverWorks(x: Split, a: Action)
    requires Control(x.w.s) && GapOk(x) && (a.Complete? || a.Recheck? || a.Interrupt?) && Enabled(x.w.s, a)
    ensures SplitWorkLeft(SplitStep(x, Plain(a))) < SplitWorkLeft(x)
  {
    OtherLeavesFirmware(x, a);
  }

  /** Every step that driver or handler can take uses up work. */
  lemma SplitWorkDecreases(x: Split, a: SplitAction)
    requires Control(x.w.s) && GapOk(x) && IsSplitWork(a) && CanDo(x, a)
    ensures SplitWorkLeft(SplitStep(x, a)) < SplitWorkLeft(x)
  {
    match a
    case Plain(action) => DriverWorks(x, action);
    case Cross(late) => CrossWorks(x, late);
    case Handle => HandleWorks(x);
  }

  ghost function From(x: Split, acts: seq<SplitAction>): (r: Split)
    requires Sound(x.w.s)
    ensures Sound(r.w.s)
    decreases |acts|
  {
    if acts == [] then x else From(SplitStep(x, acts[0]), acts[1..])
  }

  ghost predicate IsSplitSchedule(x: Split, acts: seq<SplitAction>)
    requires Sound(x.w.s)
    decreases |acts|
  {
    acts != [] ==>
      IsSplitWork(acts[0]) && CanDo(x, acts[0]) && IsSplitSchedule(SplitStep(x, acts[0]), acts[1..])
  }

  /** With gaps, too, driver and firmware run out of work within a stated number of steps. */
  lemma {:induction false} SplitSchedulesAreBounded(x: Split, acts: seq<SplitAction>)
    requires Control(x.w.s) && GapOk(x) && IsSplitSchedule(x, acts)
    ensures |acts| <= SplitWorkLeft(x)
    ensures Control(From(x, acts).w.s)
    decreases |acts|
  {
    if acts == [] {
      SplitWorkIsNatural(x);
    } else {
      SplitWorkDecreases(x, acts[0]);
      SplitStepKeepsControl(x, acts[0]);
      SplitStepKeepsGapOk(x, acts[0]);
      SplitSchedulesAreBounded(SplitStep(x, acts[0]), acts[1..]);
    }
  }

  lemma {:induction false} SplitRunKeepsGapOk(acts: seq<SplitAction>)
    ensures GapOk(SplitRun(acts))
  {
    if acts != [] {
      SplitRunKeepsGapOk(acts[..|acts| - 1]);
      SplitRunKeepsControl(acts[..|acts| - 1]);
      SplitStepKeepsGapOk(SplitRun(acts[..|acts| - 1]), acts[|acts| - 1]);
    }
  }

  lemma SplitStuckMeansDrained(x: Split)
    requires Control(x.w.s)
    requires forall a | IsSplitWork(a) :: !CanDo(x, a)
    ensures x.gap.NoGap? && Quiet(x.w.s) && !x.w.s.dev.pending && !x.w.s.fw.pin && x.w.s.fw.Pending() == []
  {
    assert !CanDo(x, Handle) && !CanDo(x, Cross(false)) && !CanDo(x, Plain(Action.Complete));
    assert !CanDo(x, Plain(Action.Recheck)) && !CanDo(x, Plain(Action.Interrupt));
  }

  /**
   Draining with gaps: after any run every schedule of the driver and the firmware's handler ends
   within the work that is left, and where it can go no further the firmware is empty, the pin
   low and the SPI free.
   */
  lemma {:induction false} EverySplitScheduleDrains(acts: seq<SplitAction>, schedule: seq<SplitAction>)
    requires IsSplitSchedule(SplitRun(acts), schedule)
    ensures |schedule| <= SplitWorkLeft(SplitRun(acts))
    ensures var x := From(SplitRun(acts), schedule);
            (forall a | IsSplitWork(a) :: !CanDo(x, a)) ==>
              x.gap.NoGap? && !x.w.s.fw.pin && x.w.s.fw.Pending() == [] && !x.w.s.dev.pending
  {
    SplitRunKeepsControl(acts);
    SplitRunKeepsGapOk(acts);
    SplitSchedulesAreBounded(SplitRun(acts), schedule);
    var x := From(SplitRun(acts), schedule);
    if forall a | IsSplitWork(a) :: !CanDo(x, a) {
      SplitStuckMeansDrained(x);
    }
  }
}
