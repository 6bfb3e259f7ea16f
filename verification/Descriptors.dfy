/**
 The life of a descriptor in the tunnel server's event loop: when it is open, what becomes of the
 bytes that arrive in it, and what becomes of it when its peer goes away.
 */
module Descriptors {
  import opened Options
  import opened EventLoop

  // ------------------------------------------------------------------------ open and closed

  /** `accept` returns the descriptor. */
  ghost function Accepting(fd: nat): (Loop, Action) -> bool {
    (s: Loop, a: Action) => a == Accept(fd) && Enabled(s, a)
  }

  /** The loop gets to the end of the descriptor, or an error. */
  ghost function Ending(fd: nat): (Loop, Action) -> bool {
    (s: Loop, a: Action) => a.GotEnd? && Enabled(s, a) && s.draining == Some(fd)
  }

  /** The descriptor's peer closes or resets the connection. */
  ghost function Leaving(fd: nat): (Loop, Action) -> bool {
    (s: Loop, a: Action) => (a == PeerCloses(fd) || a == Reset(fd)) && Enabled(s, a)
  }

  ghost predicate NeverEnded(start: Loop, acts: seq<Action>, fd: nat) {
    forall k | 0 <= k < |acts| :: !Happens(start, acts, k, Ending(fd))
  }

  /** The TUN device is open from the start, anything else from being accepted; until its end. */
  ghost predicate ShouldBeOpen(start: Loop, tun: nat, acts: seq<Action>, fd: nat) {
    Since(start, acts, Accepting(fd), Ending(fd)) || (fd == tun && NeverEnded(start, acts, fd))
  }

  lemma StepOpens(s: Loop, a: Action, fd: nat)
    ensures fd in Step(s, a).unread <==> Accepting(fd)(s, a) || (fd in s.unread && !Ending(fd)(s, a))
  {
  }

  lemma NeverEndedExtends(start: Loop, acts: seq<Action>, a: Action, fd: nat)
    ensures NeverEnded(start, acts + [a], fd) <==>
              NeverEnded(start, acts, fd) && !Ending(fd)(Run(start, acts), a)
  {
    HappensExtends(start, acts, a, Ending(fd));
    if NeverEnded(start, acts + [a], fd) {
      assert !Happens(start, acts + [a], |acts|, Ending(fd));
      forall k | 0 <= k < |acts| ensures !Happens(start, acts, k, Ending(fd)) {
        assert !Happens(start, acts + [a], k, Ending(fd));
      }
    }
  }

  lemma {:induction false} OpenIffAccepted(start: Loop, tun: nat, acts: seq<Action>, fd: nat)
    requires Starting(start, tun)
    ensures fd in Run(start, acts).unread <==> ShouldBeOpen(start, tun, acts, fd)
  {
    if acts != [] {
      var front, last := acts[..|acts| - 1], acts[|acts| - 1];
      assert front + [last] == acts;
      OpenIffAccepted(start, tun, front, fd);
      SinceExtends(start, front, last, Accepting(fd), Ending(fd));
      NeverEndedExtends(start, front, last, fd);
      StepOpens(Run(start, front), last, fd);
    }
  }

  lemma {:induction false} SameNumbers(start: Loop, acts: seq<Action>)
    ensures Run(start, acts).listener == start.listener && Run(start, acts).limit == start.limit
  {
    if acts != [] {
      SameNumbers(start, acts[..|acts| - 1]);
    }
  }

  /**
   In every run a descriptor is open if and only if it is the TUN device or was accepted, and its
   end has not been reached since; all the other numbers are free to be given out again.
   */
  lemma OpenIff(start: Loop, tun: nat, acts: seq<Action>, fd: nat)
    requires Starting(start, tun)
    ensures fd in Run(start, acts).unread <==> ShouldBeOpen(start, tun, acts, fd)
    ensures Free(Run(start, acts), fd) <==>
              fd < start.limit && fd != start.listener && !ShouldBeOpen(start, tun, acts, fd)
  {
    OpenIffAccepted(start, tun, acts, fd);
    SameNumbers(start, acts);
  }

  /** Reaching the end of a descriptor closes it and touches nothing else. */
  lemma EndClosesOnly(start: Loop, tun: nat, acts: seq<Action>, other: nat)
    requires Starting(start, tun) && Enabled(Run(start, acts), GotEnd)
    ensures var s, r := Run(start, acts), Step(Run(start, acts), GotEnd);
            var fd := s.draining.value;
            && Free(r, fd) && !Readable(r, fd)
            && (other != fd ==>
                  && (other in r.unread <==> other in s.unread)
                  && At(r.unread, other) == At(s.unread, other)
                  && (Readable(r, other) <==> Readable(s, other))
                  && (other in r.ready <==> other in s.ready))
            && r.backlog == s.backlog && r.batch == s.batch
  {
    RunKeepsEventsOpen(start, tun, acts);
  }

  lemma StepEnds(s: Loop, a: Action, fd: nat)
    ensures fd in Step(s, a).ended <==> Leaving(fd)(s, a) || (fd in s.ended && !Ending(fd)(s, a))
  {
  }

  /** A descriptor is at its end in the kernel from its peer's leaving until the loop closes it. */
  lemma {:induction false} EndedIff(start: Loop, tun: nat, acts: seq<Action>, fd: nat)
    requires Starting(start, tun)
    ensures fd in Run(start, acts).ended <==> Since(start, acts, Leaving(fd), Ending(fd))
  {
    if acts != [] {
      var front, last := acts[..|acts| - 1], acts[|acts| - 1];
      assert front + [last] == acts;
      EndedIff(start, tun, front, fd);
      SinceExtends(start, front, last, Leaving(fd), Ending(fd));
      StepEnds(Run(start, front), last, fd);
    }
  }

  /**
   So whenever the loop has come to rest, every descriptor whose peer has left has been closed,
   but for those that the loop has turned away from.
   */
  lemma LeftPeersAreClosed(start: Loop, tun: nat, acts: seq<Action>, fd: nat)
    requires Starting(start, tun) && AtRest(Run(start, acts))
    requires Since(start, acts, Leaving(fd), Ending(fd))
    ensures TurnedAway(start, acts, fd)
  {
    RunKeepsEventsOpen(start, tun, acts);
    EndedIff(start, tun, acts, fd);
    RestIsSleep(Run(start, acts));
    StrandedIff(start, tun, acts, fd);
  }

  // --------------------------------------------------------------------------------- bytes

  /** The connections there have been, oldest first, with the bytes waiting in each. */
  ghost function Connections(start: Loop, acts: seq<Action>): seq<nat> {
    if acts == [] then start.backlog
    else
      var last := acts[|acts| - 1];
      Connections(start, acts[..|acts| - 1]) + if last.Connect? then [last.waiting] else []
  }

  /** How many of them have been accepted. */
  ghost function Accepted(start: Loop, acts: seq<Action>): nat {
    if acts == [] then 0
    else
      var front, last := acts[..|acts| - 1], acts[|acts| - 1];
      Accepted(start, front) + if last.Accept? && Enabled(Run(start, front), last) then 1 else 0
  }

  lemma StepMovesBacklog(s: Loop, a: Action)
    ensures Step(s, a).backlog ==
              if a.Connect? then s.backlog + [a.waiting]
              else if a.Accept? && Enabled(s, a) then s.backlog[1..]
              else s.backlog
  {
  }

  /** Connections are accepted in the order in which they came, and none is dropped. */
  lemma {:induction false} ConnectionsAreAcceptedInOrder(start: Loop, acts: seq<Action>)
    ensures Accepted(start, acts) <= |Connections(start, acts)|
    ensures Run(start, acts).backlog == Connections(start, acts)[Accepted(start, acts)..]
  {
    if acts != [] {
      var front, last := acts[..|acts| - 1], acts[|acts| - 1];
      ConnectionsAreAcceptedInOrder(start, front);
      StepMovesBacklog(Run(start, front), last);
      assert last.Accept? && Enabled(Run(start, front), last) ==> Run(start, front).backlog != [];
    }
  }

  /** Bytes that have come in on descriptor number `fd`, with those its connections brought along. */
  ghost function Came(start: Loop, acts: seq<Action>, fd: nat): nat {
    if acts == [] then At(start.unread, fd)
    else
      var front, last := acts[..|acts| - 1], acts[|acts| - 1];
      Came(start, front, fd) +
      if !Enabled(Run(start, front), last) then 0
      else if last.Arrive? && last.fd == fd then last.amount
      else if last == Accept(fd) then
        ConnectionsAreAcceptedInOrder(start, front);
        Connections(start, front)[Accepted(start, front)]
      else 0
  }

  /** Bytes that were read from it; closing it drops what is left. */
  ghost function Went(start: Loop, acts: seq<Action>, fd: nat): nat {
    if acts == [] then 0
    else
      var front, last := acts[..|acts| - 1], acts[|acts| - 1];
      var s := Run(start, front);
      if !Enabled(s, last) || s.draining != Some(fd) then Went(start, front, fd)
      else if last.ReadSome? then Went(start, front, fd) + last.amount
      else if last.GotEnd? then Came(start, front, fd)
      else Went(start, front, fd)
  }

  /** Where the bytes waiting in a descriptor change, and by how much. */
  lemma StepMovesBytes(s: Loop, a: Action, fd: nat)
    requires EventsAreOpen(s) && Enabled(s, a)
    ensures At(Step(s, a).unread, fd) ==
              if a.Arrive? && a.fd == fd then At(s.unread, fd) + a.amount
              else if a == Accept(fd) then s.backlog[0]
              else if s.draining == Some(fd) && a.ReadSome? then At(s.unread, fd) - a.amount
              else if s.draining == Some(fd) && a.GotEnd? then 0
              else At(s.unread, fd)
    ensures a == Accept(fd) ==> At(s.unread, fd) == 0
  {
  }

  /** Every byte that came in was read, or dropped at a close, or is still there. */
  lemma {:induction false} BytesAreConserved(start: Loop, tun: nat, acts: seq<Action>, fd: nat)
    requires Starting(start, tun)
    ensures Came(start, acts, fd) == Went(start, acts, fd) + At(Run(start, acts).unread, fd)
  {
    if acts != [] {
      var front, last := acts[..|acts| - 1], acts[|acts| - 1];
      BytesAreConserved(start, tun, front, fd);
      RunKeepsEventsOpen(start, tun, front);
      ConnectionsAreAcceptedInOrder(start, front);
      if Enabled(Run(start, front), last) {
        StepMovesBytes(Run(start, front), last, fd);
      }
    }
  }

  /** One wait can report up to 64 descriptors, one read fetch up to 4096 bytes, and no more. */
  lemma SizesOfBuffers(s: Loop, reported: seq<nat>, amount: nat)
    requires NoDuplicates(reported) && forall fd | fd in reported :: fd in s.ready
    ensures s.batch == [] && s.draining == None ==>
              (Enabled(s, Wait(reported)) <==> 1 <= |reported| <= 64)
    ensures s.draining.Some? && s.draining.value in s.unread && amount <= s.unread[s.draining.value] ==>
              (Enabled(s, ReadSome(amount)) <==> 1 <= amount <= 4096)
  {
  }

  // -------------------------------------------------------------------------- error events

  /** What is left of the last batch, and which of it the wait had flagged. */
  ghost predicate RestOfBatch(s: Loop, reported: seq<nat>, broken: set<nat>) {
    && |s.batch| <= |reported| && s.batch == reported[|reported| - |s.batch|..]
    && s.hung == Elements(reported) * broken
  }

  lemma {:induction false} BatchIsTakenInOrder(s: Loop, reported: seq<nat>, broken: set<nat>, more: seq<Action>)
    requires RestOfBatch(s, reported, broken)
    requires forall a | a in more :: !a.Wait?
    ensures RestOfBatch(Run(s, more), reported, broken)
  {
    if more != [] {
      var front, last := more[..|more| - 1], more[|more| - 1];
      assert last in more && forall a | a in front :: a in more;
      BatchIsTakenInOrder(s, reported, broken, front);
    }
  }

  /**
   The events of a batch are taken in the order reported, and each is drained if and only if its
   descriptor was not broken when the wait returned.  Breaking later makes no difference.
   */
  lemma {:induction false} DrainedIffUnbroken(s: Loop, reported: seq<nat>, more: seq<Action>)
    requires Enabled(s, Wait(reported))
    requires forall a | a in more :: !a.Wait?
    requires var now := Run(Step(s, Wait(reported)), more); now.draining == None && now.batch != []
    ensures var now := Run(Step(s, Wait(reported)), more);
            && |now.batch| <= |reported| && now.batch == reported[|reported| - |now.batch|..]
            && Step(now, TakeEvent).draining ==
                 if now.batch[0] in s.broken then None else Some(now.batch[0])
  {
    var now := Run(Step(s, Wait(reported)), more);
    BatchIsTakenInOrder(Step(s, Wait(reported)), reported, s.broken, more);
    assert now.batch[0] == reported[|reported| - |now.batch|];
  }

  lemma ResetIsPassedOver(s: Loop, fd: nat)
    requires EventsAreOpen(s) && s.batch == [] && s.draining == None
    requires fd in s.unread && fd !in s.broken
    ensures var r := Step(Step(Step(s, Reset(fd)), Wait([fd])), TakeEvent);
            EventsAreOpen(r) && Stranded(r, fd) && fd in r.broken
  {
    var reset := Step(s, Reset(fd));
    StepKeepsEventsOpen(s, Reset(fd));
    StepKeepsEventsOpen(reset, Wait([fd]));
    var waited := Step(reset, Wait([fd]));
    assert fd in [fd];
    assert waited.batch == [fd] && fd in waited.hung && fd !in waited.ready;
    StepKeepsEventsOpen(waited, TakeEvent);
  }

  lemma {:induction false} BrokenStaysStranded(s: Loop, fd: nat, more: seq<Action>)
    requires EventsAreOpen(s) && Stranded(s, fd) && fd in s.broken
    ensures var r := Run(s, more); EventsAreOpen(r) && Stranded(r, fd) && fd in r.broken
  {
    if more != [] {
      var front, last := more[..|more| - 1], more[|more| - 1];
      BrokenStaysStranded(s, fd, front);
      StepKeepsEventsOpen(Run(s, front), last);
      StepStrandsIff(Run(s, front), last, fd);
    }
  }

  /**
   A connection that is reset while the loop sleeps is never closed: its error event is passed over
   once, and whatever follows, its descriptor stays open and its number taken.
   */
  lemma ResetIsNeverClosed(start: Loop, tun: nat, acts: seq<Action>, fd: nat, more: seq<Action>)
    requires Starting(start, tun)
    requires var s := Run(start, acts);
             s.batch == [] && s.draining == None && fd in s.unread && fd !in s.broken
    ensures var reset := Step(Step(Step(Run(start, acts), Reset(fd)), Wait([fd])), TakeEvent);
            var r := Run(reset, more);
            Stranded(r, fd) && fd in r.unread && !Free(r, fd)
  {
    var s := Run(start, acts);
    RunKeepsEventsOpen(start, tun, acts);
    ResetIsPassedOver(s, fd);
    BrokenStaysStranded(Step(Step(Step(s, Reset(fd)), Wait([fd])), TakeEvent), fd, more);
  }
}
