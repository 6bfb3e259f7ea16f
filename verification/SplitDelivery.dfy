/**
 Exactly which events get through when a transfer's bytes and its handler are two steps, and what
 the user buffer has seen of them once driver and firmware have run out of work.
 */
module SplitDelivery {
  import opened Bytes
  import opened EventQueue
  import opened Frame
  import opened SpiSlave
  import opened HostDriver
  import opened Link
  import opened Delivery
  import opened SplitLink

  /** A transfer crossed after event `i` had been accepted and before the next event was. */
  ghost predicate CrossedWhileNewest(acts: seq<SplitAction>, i: int) {
    exists k :: 0 <= k < |acts| && CrossesAt(acts, k) && |SplitRun(acts[..k]).w.log.accepted| == i + 1
  }

  ghost predicate CrossesAt(acts: seq<SplitAction>, k: nat)
    requires k < |acts|
  {
    acts[k].Cross? && CanDo(SplitRun(acts[..k]), acts[k])
  }

  lemma CrossedExtends(acts: seq<SplitAction>, a: SplitAction, i: int)
    ensures CrossedWhileNewest(acts + [a], i) <==>
              || CrossedWhileNewest(acts, i)
              || (a.Cross? && CanDo(SplitRun(acts), a) && |SplitRun(acts).w.log.accepted| == i + 1)
  {
    var longer, n := acts + [a], |acts|;
    assert longer[..n] == acts && longer[n] == a;
    forall k | 0 <= k < n
      ensures longer[..k] == acts[..k] && CrossesAt(longer, k) == CrossesAt(acts, k)
    {
      assert longer[..k] == acts[..k] && longer[k] == acts[k];
    }
    assert CrossesAt(longer, n) <==> a.Cross? && CanDo(SplitRun(acts), a);
    if CrossedWhileNewest(acts, i) {
      var k :| 0 <= k < n && CrossesAt(acts, k) && |SplitRun(acts[..k]).w.log.accepted| == i + 1;
      assert CrossesAt(longer, k);
    }
  }

  /** No transfer can have crossed while an event not yet accepted was the newest. */
  lemma {:induction false} NotYetNewest(acts: seq<SplitAction>, i: int)
    requires i >= |SplitRun(acts).w.log.accepted|
    ensures !CrossedWhileNewest(acts, i)
  {
    if acts != [] {
      var front, last := acts[..|acts| - 1], acts[|acts| - 1];
      assert front + [last] == acts;
      AcceptedOnlyGrows(SplitRun(front), last);
      NotYetNewest(front, i);
      CrossedExtends(front, last, i);
    }
  }

  /** An exposed event is staged at once; out of a gap it is the last one staged only if idle. */
  ghost predicate ExposedOk(fw: Fw, gap: Gap, staged: int, exposed: set<int>) {
    && (forall i | i in exposed :: 0 <= i < staged)
    && (gap.NoGap? && staged - 1 in exposed ==> fw.queue == [] && !fw.full)
  }

  lemma ExposedAfterAccept(x: Split, report: Report)
    requires Sound(x.w.s) && SplitSent(x) && ExposedOk(x.w.s.fw, x.gap, StagedCount(x.w), x.exposed)
    ensures var r := SplitStep(x, Plain(Action.Advert(report)));
            ExposedOk(r.w.s.fw, r.gap, StagedCount(r.w), r.exposed)
  {
    AcceptStepParts(x, report);
    var fw, e := x.w.s.fw, ToEvent(report);
    if fw.sniffing && |fw.queue| < QUEUE_LEN {
      if fw.full {
        AddWhileFullKeepsLined(fw, x.w.log.accepted, e);
      } else {
        AddWhileIdleKeepsLined(fw, x.w.log.accepted, e);
      }
    }
  }

  lemma ExposedAfterHandle(x: Split)
    requires Sound(x.w.s) && SplitSent(x) && CanDo(x, Handle)
    requires ExposedOk(x.w.s.fw, x.gap, StagedCount(x.w), x.exposed)
    ensures var r := SplitStep(x, Handle); ExposedOk(r.w.s.fw, r.gap, StagedCount(r.w), r.exposed)
  {
    HandleStepParts(x);
    HandleKeepsLined(x.w.s.fw, x.w.log.accepted, x.gap.command);
  }

  lemma ExposedAfterCross(x: Split, late: bool)
    requires Sound(x.w.s) && CanDo(x, Cross(late))
    requires ExposedOk(x.w.s.fw, x.gap, StagedCount(x.w), x.exposed)
    ensures var r := SplitStep(x, Cross(late)); ExposedOk(r.w.s.fw, r.gap, StagedCount(r.w), r.exposed)
  {
    WireIsMiso(x.w.s, late);
    CrossLeavesFirmware(x, Exchange(OnTheWire(x.w.s.fw.tx, late), x.w.s.fw.pin, late, x.w.s.dev.command));
  }

  lemma StepKeepsExposedOk(x: Split, a: SplitAction)
    requires Sound(x.w.s) && SplitSent(x) && ExposedOk(x.w.s.fw, x.gap, StagedCount(x.w), x.exposed)
    ensures var r := SplitStep(x, a); ExposedOk(r.w.s.fw, r.gap, StagedCount(r.w), r.exposed)
  {
    if CanDo(x, a) {
      match a
      case Plain(action) =>
        if action.Advert? {
          ExposedAfterAccept(x, action.report);
        } else {
          OtherLeavesFirmware(x, action);
        }
      case Cross(late) => ExposedAfterCross(x, late);
      case Handle => ExposedAfterHandle(x);
    }
  }

  /** What is known of the exposed events of a run. */
  ghost predicate ExposedKnown(acts: seq<SplitAction>, x: Split) {
    && ExposedOk(x.w.s.fw, x.gap, StagedCount(x.w), x.exposed)
    && forall i | i in x.exposed :: i in x.sources <==> CrossedWhileNewest(acts, i)
  }

  lemma KnownAfterCross(acts: seq<SplitAction>, x: Split, late: bool)
    requires x == SplitRun(acts) && SplitSent(x) && ExposedKnown(acts, x) && CanDo(x, Cross(late))
    ensures ExposedKnown(acts + [Cross(late)], SplitStep(x, Cross(late)))
  {
    ExposedAfterCross(x, late);
    WireIsMiso(x.w.s, late);
    CrossLeavesFirmware(x, Exchange(OnTheWire(x.w.s.fw.tx, late), x.w.s.fw.pin, late, x.w.s.dev.command));
    var r := SplitStep(x, Cross(late));
    forall i | i in r.exposed ensures i in r.sources <==> CrossedWhileNewest(acts + [Cross(late)], i) {
      CrossedExtends(acts, Cross(late), i);
      SourceOfNewest(x, i);
      assert i in r.sources <==> i in x.sources || i == StagedCount(x.w) - 1;
    }
  }

  /** When a transfer can cross, an exposed event is in the buffer exactly if it is the newest. */
  lemma SourceOfNewest(x: Split, i: int)
    requires SplitSent(x) && x.gap.NoGap? && i in x.exposed
    requires ExposedOk(x.w.s.fw, x.gap, StagedCount(x.w), x.exposed)
    ensures i == StagedCount(x.w) - 1 <==> |x.w.log.accepted| == i + 1
  {
  }

  lemma KnownAfterAccept(acts: seq<SplitAction>, x: Split, report: Report)
    requires x == SplitRun(acts) && SplitSent(x) && ExposedKnown(acts, x)
    ensures var a := Plain(Action.Advert(report)); ExposedKnown(acts + [a], SplitStep(x, a))
  {
    var a := Plain(Action.Advert(report));
    ExposedAfterAccept(x, report);
    AcceptStepParts(x, report);
    var r := SplitStep(x, a);
    forall i | i in r.exposed ensures i in r.sources <==> CrossedWhileNewest(acts + [a], i) {
      CrossedExtends(acts, a, i);
      if i !in x.exposed {
        assert i == |x.w.log.accepted|;
        NotYetNewest(acts, i);
        assert i !in x.sources by {
          assert forall k | 0 <= k < |x.sources| :: x.sources[k] < StagedCount(x.w);
        }
      }
    }
  }

  /** Steps that neither accept nor cross change nothing that is known. */
  lemma KnownAfterOther(acts: seq<SplitAction>, x: Split, a: SplitAction)
    requires x == SplitRun(acts) && SplitSent(x) && ExposedKnown(acts, x)
    requires CanDo(x, a) ==> a.Handle? || (a.Plain? && !a.action.Advert?)
    ensures ExposedKnown(acts + [a], SplitStep(x, a))
  {
    StepKeepsExposedOk(x, a);
    var r := SplitStep(x, a);
    assert r.exposed == x.exposed && r.sources == x.sources by {
      if CanDo(x, a) {
        if a.Handle? {
          HandleStepParts(x);
        } else {
          OtherLeavesFirmware(x, a.action);
        }
      }
    }
    forall i | i in r.exposed ensures i in r.sources <==> CrossedWhileNewest(acts + [a], i) {
      CrossedExtends(acts, a, i);
    }
  }

  lemma {:induction false} RunKnowsExposed(acts: seq<SplitAction>)
    ensures SplitSent(SplitRun(acts)) && ExposedKnown(acts, SplitRun(acts))
  {
    SplitRunKeepsInv(acts);
    if acts != [] {
      var front, last := acts[..|acts| - 1], acts[|acts| - 1];
      assert front + [last] == acts;
      RunKnowsExposed(front);
      KnownAfterStep(front, SplitRun(front), last);
    }
  }

  lemma KnownAfterStep(acts: seq<SplitAction>, x: Split, a: SplitAction)
    requires x == SplitRun(acts) && SplitSent(x) && ExposedKnown(acts, x)
    ensures ExposedKnown(acts + [a], SplitStep(x, a))
  {
    if CanDo(x, a) && a.Cross? {
      KnownAfterCross(acts, x, a.isLate);
    } else if a.Plain? && a.action.Advert? {
      KnownAfterAccept(acts, x, a.action.report);
    } else {
      KnownAfterOther(acts, x, a);
    }
  }

  /**
   Which events are carried: in every run, every event whose place in the transmit buffer has been
   taken by another, or has become free to take, was carried by a transfer if and only if it was
   not accepted into an idle buffer during a gap, or a transfer crossed before the next event was
   accepted.
   */
  lemma CarriedIff(acts: seq<SplitAction>, i: int)
    requires var x := SplitRun(acts); 0 <= i < StagedCount(x.w) - if x.gap.NoGap? && x.w.s.fw.full then 1 else 0
    ensures var x := SplitRun(acts);
            i in x.sources <==> i !in x.exposed || CrossedWhileNewest(acts, i)
  {
    RunKnowsExposed(acts);
    StagedAreAccounted(SplitRun(acts), i);
  }

  lemma StagedAreAccounted(x: Split, i: int)
    requires SplitSent(x) && 0 <= i < StagedCount(x.w) - if x.gap.NoGap? && x.w.s.fw.full then 1 else 0
    ensures i in x.sources || i in x.exposed
  {
    assert Accounted(i, x.sources, x.exposed);
  }

  // ------------------------------------------------------------ drained, and in the user buffer

  /** Reception `r` is what the user sees of accepted event `i`. */
  ghost predicate SplitShows(x: Split, r: int, i: int) {
    var log := x.w.log;
    && 0 <= r < |log.received| && 0 <= i < |log.accepted| && Fits(log.accepted[i])
    && 0 <= log.received[r].exchange < |log.exchanges| && log.received[r].exchange < |x.sources|
    && x.sources[log.received[r].exchange] == i
    && log.received[r].bytes == View(log.accepted[i], log.exchanges[log.received[r].exchange].late)
  }

  ghost predicate WasReceived(x: Split, i: int) {
    exists r :: SplitShows(x, r, i)
  }

  /** With no completion outstanding, carried and received are the same. */
  lemma CarriedIsReceived(x: Split, i: int)
    requires SplitSent(x) && Fetched(x.w) && x.w.s.finished == 0 && i >= 0
    ensures i in x.sources <==> WasReceived(x, i)
  {
    if i in x.sources {
      var xs := x.w.log.exchanges;
      var k :| 0 <= k < |x.sources| && x.sources[k] == i;
      assert CarriesEvent(x.w.log.accepted, xs[k], i);
      assert xs[..|xs|] == xs;
      var r := ReceptionOf(xs, k);
      CollectedInOrder(0, xs, x.w.log.received);
      assert Brought(xs, x.w.log.received[r]);
      assert SplitShows(x, r, i);
    }
  }

  lemma {:induction false} FromContinuesRun(acts: seq<SplitAction>, more: seq<SplitAction>)
    ensures From(SplitRun(acts), more) == SplitRun(acts + more)
    decreases |more|
  {
    if more == [] {
      assert acts + more == acts;
    } else {
      Extends(acts, more[0]);
      assert acts + [more[0]] + more[1..] == acts + more;
      FromContinuesRun(acts + [more[0]], more[1..]);
    }
  }

  /**
   What the user buffer has seen: once any schedule of driver and handler has run until none of
   their steps is possible, an accepted event has been put into the user buffer if and only if it
   was not accepted into an idle buffer during a gap, or a transfer crossed before the next one.
   */
  lemma SplitDrainedReceivedIff(acts: seq<SplitAction>, schedule: seq<SplitAction>, i: int)
    requires IsSplitSchedule(SplitRun(acts), schedule)
    requires forall a | IsSplitWork(a) :: !CanDo(SplitRun(acts + schedule), a)
    requires 0 <= i < |SplitRun(acts + schedule).w.log.accepted|
    ensures var x := SplitRun(acts + schedule);
            WasReceived(x, i) <==> i !in x.exposed || CrossedWhileNewest(acts + schedule, i)
  {
    var all := acts + schedule;
    SplitRunKeepsInv(all);
    SplitStuckMeansDrained(SplitRun(all));
    CarriedIff(all, i);
    CarriedIsReceived(SplitRun(all), i);
  }
}
