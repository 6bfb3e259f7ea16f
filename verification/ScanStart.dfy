/**
 Starting the radio's scan.  It must not start while flash operations are outstanding; then a flag
 defers it to the system event that reports a finished operation.
 */
module ScanStart {
  /** `starts` counts the calls that start scanning; `outstanding` is the storage module's count. */
  datatype Radio = Radio(memoryAccess: bool, starts: nat, outstanding: nat)

  datatype SysEvent = FlashSuccess | FlashError | Other

  datatype Action =
    | Request                                      // somebody asks for a flash operation
    | System(event: SysEvent, remaining: nat)      // a system event; the storage module sees it first

  /** `scan_start` reads the count first and acts on what it read later. */
  ghost function ActOn(r: Radio, count: nat): Radio {
    if count != 0 then r.(memoryAccess := true) else r.(starts := r.starts + 1)
  }

  /** Run from the event handler, it has nothing come in between. */
  ghost function TryStart(r: Radio): Radio {
    ActOn(r, r.outstanding)
  }

  ghost function OnSystem(r: Radio, event: SysEvent): Radio {
    if event != Other && r.memoryAccess then TryStart(r.(memoryAccess := false)) else r
  }

  class ScanControl {
    var memoryAccess: bool
    var starts: nat
    var outstanding: nat

    ghost function State(): Radio
      reads this
    {
      Radio(memoryAccess, starts, outstanding)
    }

    constructor (outstanding: nat)
      ensures State() == Radio(false, 0, outstanding)
    {
      memoryAccess, starts, this.outstanding := false, 0, outstanding;
    }

    /** The part of `scan_start` after it has read the count of outstanding operations. */
    method FinishStart(count: nat)
      modifies this`memoryAccess, this`starts
      ensures State() == ActOn(old(State()), count)
    {
      if count != 0 {
        memoryAccess := true;
        return;
      }
      starts := starts + 1;
    }

    /** `scan_start` */
    method StartScan()
      modifies this`memoryAccess, this`starts
      ensures State() == TryStart(old(State()))
    {
      var count := outstanding;
      FinishStart(count);
    }

    /** `on_sys_evt` */
    method OnSysEvt(event: SysEvent)
      modifies this`memoryAccess, this`starts
      ensures State() == OnSystem(old(State()), event)
    {
      match event
      case FlashSuccess | FlashError =>
        if memoryAccess {
          memoryAccess := false;
          StartScan();
        }
      case Other =>
    }
  }

  /** One step; only a flash event can make the outstanding count fall, to any value. */
  ghost function Step(r: Radio, a: Action): Radio {
    match a
    case Request => r.(outstanding := r.outstanding + 1)
    case System(event, remaining) =>
      OnSystem(if event == Other then r else r.(outstanding := remaining), event)
  }

  ghost function Steps(r: Radio, acts: seq<Action>): Radio {
    if acts == [] then r else Step(Steps(r, acts[..|acts| - 1]), acts[|acts| - 1])
  }

  /** The state when `main` has read the count and the `gap` has gone by before it acts on it. */
  ghost function AfterGap(atBoot: nat, gap: seq<Action>): Radio {
    Steps(Radio(false, 0, atBoot), gap)
  }

  /**
   A run from power-up.  `main` calls for the scan once, and as it runs below the interrupt that
   delivers system events, any of them can come between its reading the count and acting on it.
   */
  ghost function Run(atBoot: nat, gap: seq<Action>, acts: seq<Action>): Radio {
    Steps(ActOn(AfterGap(atBoot, gap), atBoot), acts)
  }

  /** Some flash event left nothing outstanding. */
  ghost predicate CameToRest(acts: seq<Action>) {
    exists a :: a in acts && a.System? && a.event != Other && a.remaining == 0
  }

  /** Nothing but events that have nothing to do with flash. */
  ghost predicate FlashIdle(acts: seq<Action>) {
    forall a | a in acts :: a.System? && a.event == Other
  }

  /** Before `main` acts, no event starts the scan or sets the flag. */
  lemma {:induction false} GapOnlyCounts(atBoot: nat, gap: seq<Action>)
    ensures var r := AfterGap(atBoot, gap); !r.memoryAccess && r.starts == 0
  {
    if gap != [] {
      GapOnlyCounts(atBoot, gap[..|gap| - 1]);
    }
  }

  /**
   When the scan starts: in every run, whatever comes in the gap, exactly once if the count read
   at boot was zero or a flash event since has left nothing outstanding; and otherwise it has
   not been started and the flag is set.
   */
  lemma {:induction false} ScanStartsOnceIff(atBoot: nat, gap: seq<Action>, acts: seq<Action>)
    ensures var r := Run(atBoot, gap, acts);
            if atBoot == 0 || CameToRest(acts) then r.starts == 1 && !r.memoryAccess
            else r.starts == 0 && r.memoryAccess
  {
    if acts == [] {
      GapOnlyCounts(atBoot, gap);
    } else {
      var front, last := acts[..|acts| - 1], acts[|acts| - 1];
      ScanStartsOnceIff(atBoot, gap, front);
      assert forall a :: a in acts <==> a in front || a == last;
    }
  }

  /**
   What the deferral is for: a scan that an event starts finds the flash at rest, in every run; the
   one `main` starts itself does not if and only if it read zero and the gap left something
   outstanding.
   */
  lemma StartsAtRestIff(atBoot: nat, gap: seq<Action>, acts: seq<Action>, a: Action)
    ensures var r := Run(atBoot, gap, acts); Step(r, a).starts > r.starts ==> Step(r, a).outstanding == 0
    ensures var r := Run(atBoot, gap, []);
            r.starts > 0 && r.outstanding > 0 <==> atBoot == 0 && AfterGap(atBoot, gap).outstanding > 0
  {
    GapOnlyCounts(atBoot, gap);
  }

  /** The scan was called for and not started, and no flash operation is left to start it. */
  ghost predicate Stranded(r: Radio) {
    r.starts == 0 && r.outstanding == 0
  }

  /**
   When the deferred scan is lost: if and only if operations were outstanding when the count was
   read, none was left when `main` set the flag, and no flash operation has come up since.
   */
  lemma {:induction false} ScanStrandedIff(atBoot: nat, gap: seq<Action>, acts: seq<Action>)
    ensures Stranded(Run(atBoot, gap, acts)) <==>
              atBoot > 0 && AfterGap(atBoot, gap).outstanding == 0 && FlashIdle(acts)
  {
    if acts == [] {
      GapOnlyCounts(atBoot, gap);
    } else {
      var front, last := acts[..|acts| - 1], acts[|acts| - 1];
      assert forall a :: a in acts <==> a in front || a == last;
      ScanStrandedIff(atBoot, gap, front);
      ScanStartsOnceIff(atBoot, gap, front);
    }
  }

  /** The shortest such run: the one outstanding operation ends in the gap. */
  lemma FlashEndingInGapStrands(event: SysEvent)
    requires event != Other
    ensures var r := Run(1, [System(event, 0)], []); Stranded(r) && r.memoryAccess
  {
    var gap := [System(event, 0)];
    assert gap[..0] == [] && Steps(Radio(false, 0, 1), []) == Radio(false, 0, 1);
    assert AfterGap(1, gap) == Step(Radio(false, 0, 1), gap[0]);
  }

  /** A flash operation that comes up later rescues it, as soon as nothing is outstanding again. */
  lemma NextFlashOperationRescues(atBoot: nat, gap: seq<Action>, acts: seq<Action>, event: SysEvent)
    requires event != Other && Stranded(Run(atBoot, gap, acts))
    ensures Run(atBoot, gap, acts + [Request, System(event, 0)]).starts == 1
  {
    var longer := acts + [Request, System(event, 0)];
    assert longer[|acts| + 1] == System(event, 0);
    ScanStartsOnceIff(atBoot, gap, longer);
  }

  /**
   With nothing in the gap the scan is never lost: in every run it has been started exactly once
   if the flash was at rest at boot or has come to rest since, and until then the flag is set and
   an operation is outstanding whose end will bring it up again.
   */
  lemma ScanStartsExactlyOnce(atBoot: nat, acts: seq<Action>)
    ensures var r := Run(atBoot, [], acts);
            if atBoot == 0 || CameToRest(acts) then r.starts == 1 && !r.memoryAccess
            else r.starts == 0 && r.memoryAccess && r.outstanding > 0
  {
    ScanStartsOnceIff(atBoot, [], acts);
    ScanStrandedIff(atBoot, [], acts);
    assert AfterGap(atBoot, []).outstanding == atBoot;
  }
}
