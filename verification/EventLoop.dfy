/**
 The tunnel server's event loop over an edge-triggered epoll set, as steps: the kernel reports a
 descriptor only when something new happens to it, so the loop has to read each reported
 descriptor until the kernel says there is no more.

 Arrivals interleave with every step of the loop.  A descriptor is stranded if there is something
 to read in it and it is neither going to be reported nor being dealt with.  The main results say
 exactly when that happens, and that the loop always gets to the end of everything else.
 */
module EventLoop {
  import opened Options

  const MAX_EVENTS := 64
  const READ_LEN := 4096

  /**
   `unread` maps each monitored descriptor but the listening socket to the bytes waiting in it, and
   `backlog` has the bytes waiting in each connection that has not been accepted; descriptors are
   below `limit`.  `ended` holds those whose peer has closed, `broken` those reset.
   `ready` is the kernel's ready set; `batch` is the unprocessed rest of what the last wait
   returned, `hung` the part of that it flagged as broken.
   */
  datatype Loop = Loop(
    listener: nat, limit: nat, backlog: seq<nat>,
    unread: map<nat, nat>, ended: set<nat>, broken: set<nat>,
    ready: set<nat>, batch: seq<nat>, hung: set<nat>, draining: Option<nat>)

  datatype Action =
    | Connect(waiting: nat)                    // a connection with this much waiting in it
    | Arrive(fd: nat, amount: nat)
    | PeerCloses(fd: nat)
    | Reset(fd: nat)
    | Wait(reported: seq<nat>)                 // epoll_wait returns some of the ready set
    | TakeEvent                                // the loop turns to the next event of the batch
    | Accept(newFd: nat)
    | OutOfDescriptors                         // accept fails, and the loop leaves the socket
    | ReadSome(amount: nat)
    | GotAgain                                 // nothing more to read or accept
    | GotEnd                                   // end of file, or an error: close the descriptor

  ghost predicate Readable(s: Loop, fd: nat) {
    if fd == s.listener then s.backlog != [] else fd in s.unread && (s.unread[fd] > 0 || fd in s.ended)
  }

  ghost predicate NoDuplicates(batch: seq<nat>) {
    forall i, j | 0 <= i < j < |batch| :: batch[i] != batch[j]
  }

  ghost function Elements(batch: seq<nat>): set<nat> {
    set fd | fd in batch
  }

  /** A number that accept can give to the next connection. */
  ghost predicate Free(s: Loop, fd: nat) {
    fd < s.limit && fd != s.listener && fd !in s.unread
  }

  ghost predicate Enabled(s: Loop, a: Action) {
    match a
    case Connect(_) => true
    case Arrive(fd, amount) => fd in s.unread && amount > 0 && fd !in s.ended
    case PeerCloses(fd) => fd in s.unread && fd !in s.ended
    case Reset(fd) => fd in s.unread && fd !in s.broken
    case Wait(reported) =>
      && s.batch == [] && s.draining == None
      && 0 < |reported| <= MAX_EVENTS && NoDuplicates(reported) && forall fd | fd in reported :: fd in s.ready
    case TakeEvent => s.draining == None && s.batch != []
    case Accept(newFd) => s.draining == Some(s.listener) && s.backlog != [] && Free(s, newFd)
    case OutOfDescriptors =>
      s.draining == Some(s.listener) && s.backlog != [] && forall fd | 0 <= fd < s.limit :: !Free(s, fd)
    case ReadSome(amount) =>
      && s.draining.Some? && s.draining.value in s.unread
      && 0 < amount <= s.unread[s.draining.value] && amount <= READ_LEN
    case GotAgain => s.draining.Some? && !Readable(s, s.draining.value)
    case GotEnd => s.draining.Some? && s.draining.value != s.listener
  }

  ghost function Step(s: Loop, a: Action): Loop {
    if !Enabled(s, a) then s else
    match a
    case Connect(waiting) => s.(backlog := s.backlog + [waiting], ready := s.ready + {s.listener})
    case Arrive(fd, amount) => s.(unread := s.unread[fd := s.unread[fd] + amount], ready := s.ready + {fd})
    case PeerCloses(fd) => s.(ended := s.ended + {fd}, ready := s.ready + {fd})
    case Reset(fd) => s.(ended := s.ended + {fd}, broken := s.broken + {fd}, ready := s.ready + {fd})
    case Wait(reported) =>
      var fds := Elements(reported);
      s.(ready := s.ready - fds, batch := reported, hung := fds * s.broken)
    case TakeEvent =>
      // An event with an error or hang-up flag is only logged.
      s.(draining := if s.batch[0] in s.hung then None else Some(s.batch[0]), batch := s.batch[1..])
    case Accept(newFd) =>
      // Adding a descriptor to the set reports it at once if something is waiting in it.
      s.(backlog := s.backlog[1..], unread := s.unread[newFd := s.backlog[0]],
         ready := if s.backlog[0] > 0 then s.ready + {newFd} else s.ready)
    case OutOfDescriptors => s.(draining := None)
    case ReadSome(amount) =>
      var fd := s.draining.value;
      s.(unread := s.unread[fd := s.unread[fd] - amount])
    case GotAgain => s.(draining := None)
    case GotEnd =>
      // Closing takes the descriptor out of the epoll set, whatever was still waiting in it.
      var fd := s.draining.value;
      s.(unread := s.unread - {fd}, ended := s.ended - {fd}, broken := s.broken - {fd},
         ready := s.ready - {fd}, draining := None)
  }

  /** Something can be read, but nothing will be until something else happens to the descriptor. */
  ghost predicate Stranded(s: Loop, fd: nat) {
    Readable(s, fd) && fd !in s.ready && fd !in s.batch && s.draining != Some(fd)
  }

  /** Whatever the loop still has to deal with is open, and the batch names it once. */
  ghost predicate EventsAreOpen(s: Loop) {
    && s.listener < s.limit && s.listener !in s.unread
    && (forall fd | fd in s.unread :: fd < s.limit)
    && s.broken <= s.ended <= s.unread.Keys && s.ready <= s.unread.Keys + {s.listener}
    && (forall fd | fd in s.batch :: fd == s.listener || fd in s.unread)
    && (forall fd | fd in s.batch && fd in s.hung :: fd in s.ended)
    && NoDuplicates(s.batch)
    && (s.draining.Some? ==>
          && (s.draining.value == s.listener || s.draining.value in s.unread)
          && s.draining.value !in s.batch)
  }

  lemma StepKeepsEventsOpen(s: Loop, a: Action)
    requires EventsAreOpen(s)
    ensures EventsAreOpen(Step(s, a))
  {
    if a.TakeEvent? && Enabled(s, a) {
      assert s.batch[0] in s.batch && s.batch[0] !in s.batch[1..];
    }
  }

  /**
   The loop turns away from a descriptor that is not going to be reported again: by passing over
   an event that is flagged as an error, or because there is no number for the next connection.
   */
  ghost predicate TurnsAway(s: Loop, a: Action, fd: nat) {
    && Enabled(s, a) && fd !in s.ready
    && ((a.TakeEvent? && s.batch[0] == fd && fd in s.hung) || (a.OutOfDescriptors? && fd == s.listener))
  }

  /** Something new happens to the descriptor, so the kernel will report it. */
  ghost predicate Notifies(s: Loop, a: Action, fd: nat) {
    && Enabled(s, a)
    && match a
       case Connect(_) => fd == s.listener
       case Arrive(other, _) => fd == other
       case PeerCloses(other) => fd == other
       case Reset(other) => fd == other
       case _ => false
  }

  /** The two are the only ways into being stranded and out of it. */
  lemma StepStrandsIff(s: Loop, a: Action, fd: nat)
    requires EventsAreOpen(s)
    ensures Stranded(Step(s, a), fd) <==> TurnsAway(s, a, fd) || (Stranded(s, fd) && !Notifies(s, a, fd))
  {
    if a.TakeEvent? && Enabled(s, a) {
      assert s.batch[0] in s.batch && s.batch[0] !in s.batch[1..];
      assert fd in s.batch <==> fd == s.batch[0] || fd in s.batch[1..];
    }
  }

  ghost function Run(start: Loop, acts: seq<Action>): Loop {
    if acts == [] then start else Step(Run(start, acts[..|acts| - 1]), acts[|acts| - 1])
  }

  /** The loop as it starts: the listening socket and the TUN device, nothing reported yet. */
  ghost predicate Starting(s: Loop, tun: nat) {
    && s.listener != tun && s.listener < s.limit && tun < s.limit
    && s.unread.Keys == {tun} && s.ended == {} && s.broken == {}
    && s.ready == (set fd | fd in {s.listener, tun} && Readable(s, fd))
    && s.batch == [] && s.draining == None
  }

  lemma {:induction false} RunKeepsEventsOpen(start: Loop, tun: nat, acts: seq<Action>)
    requires Starting(start, tun)
    ensures EventsAreOpen(Run(start, acts))
  {
    if acts != [] {
      RunKeepsEventsOpen(start, tun, acts[..|acts| - 1]);
      StepKeepsEventsOpen(Run(start, acts[..|acts| - 1]), acts[|acts| - 1]);
    }
  }

  /** Action `k` of the run is one that `on` picks out in the state it was taken in. */
  ghost predicate Happens(start: Loop, acts: seq<Action>, k: nat, on: (Loop, Action) -> bool)
    requires k < |acts|
  {
    on(Run(start, acts[..k]), acts[k])
  }

  /** One of the `on` actions was taken in the run, and none of the `off` actions after it. */
  ghost predicate Since(
    start: Loop, acts: seq<Action>, on: (Loop, Action) -> bool, off: (Loop, Action) -> bool)
  {
    exists k :: 0 <= k < |acts| && Happens(start, acts, k, on)
      && forall j | k < j < |acts| :: !Happens(start, acts, j, off)
  }

  lemma HappensExtends(start: Loop, acts: seq<Action>, a: Action, on: (Loop, Action) -> bool)
    ensures Happens(start, acts + [a], |acts|, on) == on(Run(start, acts), a)
    ensures forall k | 0 <= k < |acts| :: Happens(start, acts + [a], k, on) == Happens(start, acts, k, on)
  {
    var longer, n := acts + [a], |acts|;
    assert longer[..n] == acts && longer[n] == a;
    forall k | 0 <= k < n ensures Happens(start, longer, k, on) == Happens(start, acts, k, on) {
      assert longer[..k] == acts[..k] && longer[k] == acts[k];
    }
  }

  lemma SinceExtends(
      start: Loop, acts: seq<Action>, a: Action, on: (Loop, Action) -> bool, off: (Loop, Action) -> bool)
    ensures Since(start, acts + [a], on, off) <==>
              on(Run(start, acts), a) || (Since(start, acts, on, off) && !off(Run(start, acts), a))
  {
    HappensExtends(start, acts, a, on);
    HappensExtends(start, acts, a, off);
    assert on(Run(start, acts), a) ==> Happens(start, acts + [a], |acts|, on);
  }

  ghost function TurningAway(fd: nat): (Loop, Action) -> bool {
    (s: Loop, a: Action) => TurnsAway(s, a, fd)
  }

  ghost function Notifying(fd: nat): (Loop, Action) -> bool {
    (s: Loop, a: Action) => Notifies(s, a, fd)
  }

  /** The loop turned away from the descriptor at some point, and nothing has happened to it since. */
  ghost predicate TurnedAway(start: Loop, acts: seq<Action>, fd: nat) {
    Since(start, acts, TurningAway(fd), Notifying(fd))
  }

  /**
   In every run, for every way the kernel splits the ready set into batches and every arrival in
   the middle of a drain, a descriptor is stranded exactly if the loop has turned away from it.
   */
  lemma {:induction false} StrandedIff(start: Loop, tun: nat, acts: seq<Action>, fd: nat)
    requires Starting(start, tun)
    ensures Stranded(Run(start, acts), fd) <==> TurnedAway(start, acts, fd)
  {
    if acts != [] {
      var front, last := acts[..|acts| - 1], acts[|acts| - 1];
      assert front + [last] == acts;
      StrandedIff(start, tun, front, fd);
      RunKeepsEventsOpen(start, tun, front);
      StepStrandsIff(Run(start, front), last, fd);
      SinceExtends(start, front, last, TurningAway(fd), Notifying(fd));
    }
  }

  // How much the loop has left to do.

  ghost function SumBelow(unread: map<nat, nat>, n: nat): nat {
    if n == 0 then 0 else SumBelow(unread, n - 1) + At(unread, n - 1)
  }

  ghost function At(unread: map<nat, nat>, fd: nat): nat {
    if fd in unread then unread[fd] else 0
  }

  lemma {:induction false} SumOfUpdate(before: map<nat, nat>, after: map<nat, nat>, fd: nat, n: nat)
    requires forall other: nat | other != fd :: At(before, other) == At(after, other)
    ensures SumBelow(after, n) + (if fd < n then At(before, fd) else 0) ==
            SumBelow(before, n) + (if fd < n then At(after, fd) else 0)
  {
    if n > 0 {
      SumOfUpdate(before, after, fd, n - 1);
      assert n - 1 != fd ==> At(before, n - 1) == At(after, n - 1);
    }
  }

  /** The bytes in the connections that have not been accepted, and four steps for each. */
  ghost function BacklogWork(backlog: seq<nat>): nat {
    if backlog == [] then 0 else backlog[0] + 4 + BacklogWork(backlog[1..])
  }

  ghost function Work(s: Loop): nat {
    3 * |s.ready| + 2 * |s.batch| + (if s.draining.Some? then 1 else 0)
    + SumBelow(s.unread, s.limit) + BacklogWork(s.backlog)
  }

  ghost predicate OfLoop(a: Action) {
    !a.Connect? && !a.Arrive? && !a.PeerCloses? && !a.Reset?
  }

  lemma {:induction false} SizeOfSeq(s: seq<nat>)
    requires NoDuplicates(s)
    ensures |Elements(s)| == |s|
  {
    if s != [] {
      SizeOfSeq(s[1..]);
      assert s[0] !in Elements(s[1..]);
      assert Elements(s) == Elements(s[1..]) + {s[0]};
    }
  }

  lemma WaitReducesWork(s: Loop, reported: seq<nat>)
    requires Enabled(s, Wait(reported))
    ensures Work(Step(s, Wait(reported))) < Work(s)
  {
    var fds := Elements(reported);
    SizeOfSeq(reported);
    assert reported[0] in reported;
    assert s.ready == (s.ready - fds) + fds;
    assert |s.ready| == |s.ready - fds| + |fds|;
  }

  lemma AcceptReducesWork(s: Loop, newFd: nat)
    requires EventsAreOpen(s) && Enabled(s, Accept(newFd))
    ensures Work(Step(s, Accept(newFd))) < Work(s)
  {
    SumOfUpdate(s.unread, Step(s, Accept(newFd)).unread, newFd, s.limit);
    assert |s.ready + {newFd}| <= |s.ready| + 1;
  }

  lemma DrainReducesWork(s: Loop, a: Action)
    requires EventsAreOpen(s) && Enabled(s, a) && (a.ReadSome? || a.GotEnd?)
    ensures Work(Step(s, a)) < Work(s)
  {
    SumOfUpdate(s.unread, Step(s, a).unread, s.draining.value, s.limit);
    assert |s.ready - {s.draining.value}| <= |s.ready|;
  }

  lemma LoopReducesWork(s: Loop, a: Action)
    requires EventsAreOpen(s) && Enabled(s, a) && OfLoop(a)
    ensures Work(Step(s, a)) < Work(s)
  {
    match a
    case Wait(reported) => WaitReducesWork(s, reported);
    case Accept(newFd) => AcceptReducesWork(s, newFd);
    case ReadSome(_) => DrainReducesWork(s, a);
    case GotEnd => DrainReducesWork(s, a);
    case _ =>
  }

  /** The loop goes on by itself, every step being one it can take. */
  ghost predicate IsSchedule(s: Loop, schedule: seq<Action>)
    decreases |schedule|
  {
    schedule == []
    || (OfLoop(schedule[0]) && Enabled(s, schedule[0]) && IsSchedule(Step(s, schedule[0]), schedule[1..]))
  }

  lemma {:induction false} ScheduleIsShort(s: Loop, schedule: seq<Action>)
    requires EventsAreOpen(s) && IsSchedule(s, schedule)
    ensures |schedule| <= Work(s)
    decreases |schedule|
  {
    if schedule != [] {
      LoopReducesWork(s, schedule[0]);
      StepKeepsEventsOpen(s, schedule[0]);
      ScheduleIsShort(Step(s, schedule[0]), schedule[1..]);
    }
  }

  ghost predicate AtRest(s: Loop) {
    forall a | OfLoop(a) :: !Enabled(s, a)
  }

  lemma RestIsSleep(s: Loop)
    requires EventsAreOpen(s)
    ensures AtRest(s) <==> s.draining == None && s.batch == [] && s.ready == {}
  {
    if AtRest(s) && s.draining.Some? {
      var fd := s.draining.value;
      assert !Enabled(s, GotAgain) && !Enabled(s, GotEnd) && !Enabled(s, OutOfDescriptors);
      assert fd == s.listener && s.backlog != [];
      var free :| Free(s, free);
      assert Enabled(s, Accept(free));
      assert false;
    }
    if AtRest(s) {
      assert !Enabled(s, TakeEvent);
      if s.ready != {} {
        var fd :| fd in s.ready;
        assert Enabled(s, Wait([fd]));
        assert false;
      }
    }
    if s.draining == None && s.batch == [] && s.ready == {} {
      forall a | OfLoop(a) ensures !Enabled(s, a) {
        assert a.Wait? && a.reported != [] ==> a.reported[0] in a.reported;
      }
    }
  }

  /**
   After any run, the loop left to itself comes to rest in its wait within the work it has, however
   the kernel batches; and what is readable then is exactly what it has turned away from.
   */
  lemma EveryScheduleSleeps(start: Loop, tun: nat, acts: seq<Action>, schedule: seq<Action>)
    requires Starting(start, tun) && IsSchedule(Run(start, acts), schedule)
    ensures |schedule| <= Work(Run(start, acts))
    ensures var end := Run(start, acts + schedule);
            AtRest(end) ==>
              && end.draining == None && end.batch == [] && end.ready == {}
              && forall fd :: Readable(end, fd) <==> TurnedAway(start, acts + schedule, fd)
  {
    RunKeepsEventsOpen(start, tun, acts);
    ScheduleIsShort(Run(start, acts), schedule);
    var end := Run(start, acts + schedule);
    RunKeepsEventsOpen(start, tun, acts + schedule);
    if AtRest(end) {
      RestIsSleep(end);
      forall fd ensures Readable(end, fd) <==> TurnedAway(start, acts + schedule, fd) {
        StrandedIff(start, tun, acts + schedule, fd);
      }
    }
  }

  /** Where nothing is reset and accept never fails, there is nothing to turn away from. */
  lemma {:induction false} NothingBreaks(start: Loop, tun: nat, acts: seq<Action>)
    requires Starting(start, tun)
    requires forall a | a in acts :: !a.Reset? && !a.OutOfDescriptors?
    ensures Run(start, acts).broken == {}
    ensures Run(start, acts).batch != [] ==> Run(start, acts).hung == {}
  {
    if acts != [] {
      assert acts[|acts| - 1] in acts;
      NothingBreaks(start, tun, acts[..|acts| - 1]);
    }
  }

  lemma {:induction false} NothingTurnedAway(start: Loop, tun: nat, acts: seq<Action>, fd: nat)
    requires Starting(start, tun)
    requires forall a | a in acts :: !a.Reset? && !a.OutOfDescriptors?
    ensures !TurnedAway(start, acts, fd)
  {
    if acts != [] {
      var front, last := acts[..|acts| - 1], acts[|acts| - 1];
      assert front + [last] == acts && last in acts;
      NothingBreaks(start, tun, front);
      NothingTurnedAway(start, tun, front, fd);
      assert !TurnsAway(Run(start, front), last, fd);
      SinceExtends(start, front, last, TurningAway(fd), Notifying(fd));
    }
  }

  /** So with no connection reset and a number for each connection, nothing at all stays readable. */
  lemma SleepingMeansDrained(start: Loop, tun: nat, acts: seq<Action>, fd: nat)
    requires Starting(start, tun) && AtRest(Run(start, acts))
    requires forall a | a in acts :: !a.Reset? && !a.OutOfDescriptors?
    ensures !Readable(Run(start, acts), fd)
  {
    NothingTurnedAway(start, tun, acts, fd);
    StrandedIff(start, tun, acts, fd);
    RunKeepsEventsOpen(start, tun, acts);
    RestIsSleep(Run(start, acts));
  }

  /**
   The drain is what makes this work: had the loop turned away from a descriptor after one read,
   what was left in it would be stranded unless the kernel happened to have it ready again.
   */
  lemma StoppingEarlyStrandsIff(s: Loop, amount: nat)
    requires EventsAreOpen(s) && Enabled(s, ReadSome(amount))
    ensures var early := Step(s, ReadSome(amount)).(draining := None); var fd := s.draining.value;
            && (Stranded(early, fd) <==> (amount < s.unread[fd] || fd in s.ended) && fd !in s.ready)
            && forall other | other != fd :: Stranded(early, other) <==> Stranded(s, other)
  {
  }
}
