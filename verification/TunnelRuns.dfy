/**
 Whole runs of the tunnel server.  Packets arrive from clients and from the TUN device, clients
 close, and between any two of these the assignment file may gain lines.

 Two results: each table entry remembers exactly the first link-local source seen on its
 present connection; and routing through the cached table agrees with looking the destination
 up in the current file.
 */
module TunnelRuns {
  import opened Ipv6
  import opened Options
  import opened RoutingTable

  type Slot = fd: nat | fd < TABLE_LEN

  datatype Event =
    | FromClient(fd: nat, buf: Buffer)
    | FromTun(buf: Buffer)
    | Closed(slot: Slot)
    | Assigned(lines: seq<Assignment>)   // somebody appends to the assignment file

  datatype Server = Server(table: seq<SocketPrefix>, file: seq<Assignment>)

  ghost function Started(): (s: Server)
    ensures |s.table| == TABLE_LEN && forall j | 0 <= j < TABLE_LEN :: s.table[j] == VACANT
  {
    Server(seq(TABLE_LEN, _ => VACANT), [])
  }

  ghost function Step(c: Config, s: Server, e: Event): (r: Server)
    ensures |s.table| == TABLE_LEN ==> |r.table| == TABLE_LEN
  {
    match e
    case FromClient(fd, buf) =>
      if fd < |s.table| then s.(table := s.table[fd := Learn(s.table[fd], buf)]) else s
    case FromTun(buf) =>
      if IsIpv6(buf) then s.(table := Route(c, s.table, DestAddress(buf), s.file).0) else s
    case Closed(fd) =>
      if fd < |s.table| then s.(table := s.table[fd := Forget(s.table[fd])]) else s
    case Assigned(lines) => s.(file := s.file + lines)
  }

  /** The descriptor a packet from the TUN device is written to. */
  ghost function SentTo(c: Config, s: Server, e: Event): Option<nat> {
    if e.FromTun? && IsIpv6(e.buf) then Route(c, s.table, DestAddress(e.buf), s.file).1 else None
  }

  ghost function Run(c: Config, events: seq<Event>): (s: Server)
    ensures |s.table| == TABLE_LEN
  {
    if events == [] then Started()
    else Step(c, Run(c, events[..|events| - 1]), events[|events| - 1])
  }

  // --------------------------------------------------- what an entry remembers of its client

  /** Client `fd` sent a packet with a link-local source address. */
  ghost predicate ShowsLinkLocal(e: Event, fd: nat) {
    e.FromClient? && e.fd == fd && IsIpv6(e.buf) && IsLinkLocal(SourceAddress(e.buf))
  }

  ghost predicate ClosedBetween(events: seq<Event>, fd: nat, from: int, to: int) {
    exists k | 0 <= k < |events| :: from < k < to && events[k].Closed? && events[k].slot == fd
  }

  /** Event `i` is the first link-local packet of the connection that descriptor `fd` now has. */
  ghost predicate IsFirstShown(events: seq<Event>, fd: nat, i: int) {
    && 0 <= i < |events| && ShowsLinkLocal(events[i], fd)
    && !ClosedBetween(events, fd, i, |events|)
    && forall h | 0 <= h < i && ShowsLinkLocal(events[h], fd) :: ClosedBetween(events, fd, h, i)
  }

  ghost predicate NothingShown(events: seq<Event>, fd: nat) {
    forall h | 0 <= h < |events| && ShowsLinkLocal(events[h], fd) :: ClosedBetween(events, fd, h, |events|)
  }

  /** The entry is what those events make it, whatever else went on at other descriptors. */
  ghost predicate Remembers(p: SocketPrefix, events: seq<Event>, fd: nat) {
    if p.plenLl == 0 then p.plenPd == 0 && NothingShown(events, fd)
    else
      && p.plenLl == LINK_LOCAL_PLEN && IsLinkLocal(p.ll)
      && (p.plenPd == 0 || p.plenPd == 62)
      && exists i :: IsFirstShown(events, fd, i) && p.ll == SourceAddress(events[i].buf)
  }

  lemma ClosedBetweenExtends(events: seq<Event>, e: Event, fd: nat, from: int, to: int)
    requires to <= |events|
    ensures ClosedBetween(events + [e], fd, from, to) == ClosedBetween(events, fd, from, to)
    ensures ClosedBetween(events, fd, from, |events|) ==> ClosedBetween(events + [e], fd, from, |events| + 1)
    ensures from < |events| && e.Closed? && e.slot == fd ==>
              ClosedBetween(events + [e], fd, from, |events| + 1)
    ensures !(e.Closed? && e.slot == fd) && ClosedBetween(events + [e], fd, from, |events| + 1) ==>
              ClosedBetween(events, fd, from, |events|)
  {
    var longer := events + [e];
    forall k | 0 <= k < |events| ensures longer[k] == events[k] {
    }
    if from < |events| && e.Closed? && e.slot == fd {
      assert longer[|events|] == e;
    }
    if ClosedBetween(events, fd, from, |events|) {
      var k :| 0 <= k < |events| && from < k < |events| && events[k].Closed? && events[k].slot == fd;
      assert longer[k].Closed?;
    }
    if ClosedBetween(events, fd, from, to) {
      var k :| 0 <= k < |events| && from < k < to && events[k].Closed? && events[k].slot == fd;
      assert longer[k].Closed?;
    }
  }

  /** An event that neither shows an address nor closes the connection changes no memory of it. */
  lemma MemoryExtends(p: SocketPrefix, events: seq<Event>, e: Event, fd: nat)
    requires Remembers(p, events, fd)
    requires !(e.Closed? && e.slot == fd)
    requires p.plenLl == 0 ==> !ShowsLinkLocal(e, fd)
    ensures Remembers(p, events + [e], fd)
  {
    var longer := events + [e];
    if p.plenLl == 0 {
      forall h | 0 <= h < |longer| && ShowsLinkLocal(longer[h], fd)
        ensures ClosedBetween(longer, fd, h, |longer|)
      {
        ClosedBetweenExtends(events, e, fd, h, |events|);
      }
    } else {
      var i :| IsFirstShown(events, fd, i) && p.ll == SourceAddress(events[i].buf);
      ClosedBetweenExtends(events, e, fd, i, |events|);
      forall h | 0 <= h < i && ShowsLinkLocal(longer[h], fd) ensures ClosedBetween(longer, fd, h, i) {
        ClosedBetweenExtends(events, e, fd, h, i);
      }
      assert IsFirstShown(longer, fd, i) && p.ll == SourceAddress(longer[i].buf);
    }
  }

  lemma MemoryAfterClose(p: SocketPrefix, events: seq<Event>, e: Event, fd: nat)
    requires Remembers(p, events, fd) && e.Closed? && e.slot == fd
    ensures Remembers(Forget(p), events + [e], fd)
  {
    var longer := events + [e];
    forall h | 0 <= h < |longer| && ShowsLinkLocal(longer[h], fd)
      ensures ClosedBetween(longer, fd, h, |longer|)
    {
      ClosedBetweenExtends(events, e, fd, h, |events|);
    }
  }

  lemma MemoryAfterLearning(p: SocketPrefix, events: seq<Event>, e: Event, fd: nat)
    requires Remembers(p, events, fd) && e.FromClient? && e.fd == fd
    ensures Remembers(Learn(p, e.buf), events + [e], fd)
  {
    if p.plenLl == 0 && ShowsLinkLocal(e, fd) {
      var longer, n := events + [e], |events|;
      assert longer[n] == e;
      forall h | 0 <= h < n && ShowsLinkLocal(longer[h], fd) ensures ClosedBetween(longer, fd, h, n) {
        ClosedBetweenExtends(events, e, fd, h, n);
      }
      assert IsFirstShown(longer, fd, n) && Learn(p, e.buf).ll == SourceAddress(longer[n].buf);
    } else {
      MemoryExtends(p, events, e, fd);
    }
  }

  /** Binding a block leaves an entry's memory alone, and only bound entries can get one. */
  lemma MemoryAfterReload(t: seq<SocketPrefix>, lines: seq<Assignment>, events: seq<Event>, fd: nat)
    requires fd < |t| && Remembers(t[fd], events, fd)
    ensures Remembers(Reload(t, lines)[fd], events, fd)
  {
    ReloadIsLastWriter(t, lines, fd);
  }

  lemma StepKeepsMemory(c: Config, s: Server, events: seq<Event>, e: Event, fd: Slot)
    requires |s.table| == TABLE_LEN && Remembers(s.table[fd], events, fd)
    ensures Remembers(Step(c, s, e).table[fd], events + [e], fd)
  {
    match e
    case FromClient(at, buf) =>
      if at == fd {
        MemoryAfterLearning(s.table[fd], events, e, fd);
      } else {
        MemoryExtends(s.table[fd], events, e, fd);
      }
    case FromTun(buf) =>
      MemoryAfterReload(s.table, s.file, events, fd);
      MemoryExtends(s.table[fd], events, e, fd);
      MemoryExtends(Reload(s.table, s.file)[fd], events, e, fd);
    case Closed(at) =>
      if at == fd {
        MemoryAfterClose(s.table[fd], events, e, fd);
      } else {
        MemoryExtends(s.table[fd], events, e, fd);
      }
    case Assigned(_) => MemoryExtends(s.table[fd], events, e, fd);
  }

  /**
   In every run, every entry is either vacant, with nothing shown since the last close of its
   descriptor, or holds the first link-local source of the present connection: learned once,
   kept until the close, never inherited from an earlier connection.
   */
  lemma {:induction false} EntriesRememberFirst(c: Config, events: seq<Event>, fd: Slot)
    ensures Remembers(Run(c, events).table[fd], events, fd)
  {
    if events != [] {
      var front, last := events[..|events| - 1], events[|events| - 1];
      assert front + [last] == events;
      EntriesRememberFirst(c, front, fd);
      StepKeepsMemory(c, Run(c, front), front, last, fd);
    } else {
      assert Run(c, events).table[fd] == VACANT;
    }
  }

  // ---------------------------------------------------------- the cache agrees with the file

  /** Every cached block is one the file gives to that client. */
  ghost predicate CacheFromFile(s: Server) {
    forall j | 0 <= j < |s.table| && s.table[j].plenPd != 0 ::
      s.table[j].plenLl != 0 && Assignment(s.table[j].ll, s.table[j].pd) in s.file
  }

  lemma ReloadKeepsCacheFromFile(s: Server)
    requires CacheFromFile(s)
    ensures CacheFromFile(s.(table := Reload(s.table, s.file)))
  {
    var r := Reload(s.table, s.file);
    forall j | 0 <= j < |r| && r[j].plenPd != 0
      ensures r[j].plenLl != 0 && Assignment(r[j].ll, r[j].pd) in s.file
    {
      ReloadIsLastWriter(s.table, s.file, j);
      LastBlockSomeIff(s.file, s.table[j].ll);
    }
  }

  lemma {:induction false} RunKeepsCacheFromFile(c: Config, events: seq<Event>)
    ensures CacheFromFile(Run(c, events))
  {
    if events != [] {
      var s := Run(c, events[..|events| - 1]);
      RunKeepsCacheFromFile(c, events[..|events| - 1]);
      ReloadKeepsCacheFromFile(s);
    }
  }

  /** Descriptor `j` is the lowest one of its client, and the file names that client. */
  ghost predicate HasBlock(s: Server, j: nat)
    requires j < |s.table|
  {
    IsLowest(s.table, j) && LastBlock(s.file, s.table[j].ll).Some?
  }

  /** The block the file gives the client of descriptor `j` now, its last line winning. */
  ghost function BlockOf(s: Server, j: nat): Address
    requires j < |s.table| && HasBlock(s, j)
  {
    LastBlock(s.file, s.table[j].ll).value
  }

  /** That block covers `dest`. */
  ghost predicate Claims(s: Server, dest: Address, j: nat) {
    j < |s.table| && HasBlock(s, j) && Same62(dest, BlockOf(s, j))
  }

  /** The file assigns `dest` to descriptor `j`, the lowest one that claims it. */
  ghost predicate AssignedTo(s: Server, dest: Address, j: nat) {
    Claims(s, dest, j) && forall i: nat | i < j :: !Claims(s, dest, i)
  }

  /** Routing does for `dest` what the file says: to its descriptor if there is one, else nowhere. */
  ghost predicate Agrees(c: Config, s: Server, dest: Address) {
    forall j: nat :: Route(c, s.table, dest, s.file).1 == Some(j) <==> AssignedTo(s, dest, j)
  }

  /** A cached entry holds the block the file gives its client now. */
  ghost predicate IsCurrent(s: Server, k: nat)
    requires k < |s.table|
  {
    HasBlock(s, k) && Same62(s.table[k].pd, BlockOf(s, k))
  }

  /** If the cache covers `dest`, the entry it hits is current and no lower client has that block. */
  ghost predicate HitIsRight(s: Server, dest: Address) {
    var k := First(s.table, Covers(dest));
    k < |s.table| ==>
      IsCurrent(s, k) && forall i: nat | i < k && HasBlock(s, i) :: !Same62(s.table[k].pd, BlockOf(s, i))
  }

  lemma AssignedIsUnique(s: Server, dest: Address, i: nat, j: nat)
    requires AssignedTo(s, dest, i) && AssignedTo(s, dest, j)
    ensures i == j
  {
  }

  /** Once the cache has missed, the reload makes exactly the claiming descriptors cover `dest`. */
  lemma MissedThenClaimsIffCovered(s: Server, dest: Address, j: nat)
    requires First(s.table, Covers(dest)) == |s.table| && j < |s.table|
    ensures Covers(dest)(Reload(s.table, s.file)[j]) <==> Claims(s, dest, j)
  {
    ReloadIsLastWriter(s.table, s.file, j);
    assert !Covers(dest)(s.table[j]);
  }

  /** A cache miss is always made good by the file. */
  lemma MissAgrees(c: Config, s: Server, dest: Address)
    requires Same52(dest, c.slash52) && First(s.table, Covers(dest)) == |s.table|
    ensures Agrees(c, s, dest)
  {
    var reread := Reload(s.table, s.file);
    var found := First(reread, Covers(dest));
    forall j: nat | j < |reread| ensures Covers(dest)(reread[j]) <==> Claims(s, dest, j) {
      MissedThenClaimsIffCovered(s, dest, j);
    }
    if found < |reread| {
      assert AssignedTo(s, dest, found);
    }
    forall j: nat ensures Route(c, s.table, dest, s.file).1 == Some(j) <==> AssignedTo(s, dest, j) {
      if AssignedTo(s, dest, j) {
        assert found <= j;
        AssignedIsUnique(s, dest, found, j);
      }
    }
  }

  /** Addresses sharing 62 bits with the same address agree on every block. */
  lemma SameBlock(dest: Address, pd: Address, block: Address)
    requires Same62(dest, pd)
    ensures Same62(dest, block) <==> Same62(pd, block)
  {
    PrefixesNest(dest, pd, block);
    PrefixesNest(pd, dest, block);
  }

  /** A cache hit is right if and only if the entry is still what the file says. */
  lemma HitAgreesIff(c: Config, s: Server, dest: Address)
    requires Same52(dest, c.slash52) && First(s.table, Covers(dest)) < |s.table|
    ensures Agrees(c, s, dest) <==> HitIsRight(s, dest)
  {
    var k := First(s.table, Covers(dest));
    assert Covers(dest)(s.table[k]);
    assert Route(c, s.table, dest, s.file).1 == Some(k);
    forall i: nat | i <= k && HasBlock(s, i)
      ensures Claims(s, dest, i) <==> Same62(s.table[k].pd, BlockOf(s, i))
    {
      SameBlock(dest, s.table[k].pd, BlockOf(s, i));
    }
    assert AssignedTo(s, dest, k) <==> HitIsRight(s, dest);
    if AssignedTo(s, dest, k) {
      forall j: nat ensures Some(k) == Some(j) <==> AssignedTo(s, dest, j) {
        if AssignedTo(s, dest, j) {
          AssignedIsUnique(s, dest, k, j);
        }
      }
    }
  }

  lemma AgreesIff(c: Config, s: Server, dest: Address)
    requires Same52(dest, c.slash52)
    ensures Agrees(c, s, dest) <==> HitIsRight(s, dest)
  {
    if First(s.table, Covers(dest)) < |s.table| {
      HitAgreesIff(c, s, dest);
    } else {
      MissAgrees(c, s, dest);
    }
  }

  /**
   When routing agrees with the file: after every run, whatever the clients and the file did, a
   destination in the /52 goes where the file says if and only if the cache does not cover it, or
   the entry it hits holds its client's present block and no lower client has that block.
   */
  lemma {:induction false} RoutingAgreesIff(c: Config, events: seq<Event>, dest: Address)
    requires Same52(dest, c.slash52)
    ensures Agrees(c, Run(c, events), dest) <==> HitIsRight(Run(c, events), dest)
  {
    AgreesIff(c, Run(c, events), dest);
  }

  /** No two connected clients have the same block at present. */
  ghost predicate BlocksDiffer(s: Server) {
    forall i, j | 0 <= i < j < |s.table| && HasBlock(s, i) && HasBlock(s, j) ::
      !Same62(BlockOf(s, i), BlockOf(s, j))
  }

  ghost predicate HitIsCurrent(s: Server, dest: Address) {
    var k := First(s.table, Covers(dest));
    k < |s.table| ==> IsCurrent(s, k)
  }

  lemma CurrentIsRight(s: Server, dest: Address)
    requires BlocksDiffer(s)
    ensures HitIsRight(s, dest) <==> HitIsCurrent(s, dest)
  {
    var k := First(s.table, Covers(dest));
    if k < |s.table| && IsCurrent(s, k) {
      forall i: nat | i < k && HasBlock(s, i) ensures !Same62(s.table[k].pd, BlockOf(s, i)) {
        SameBlock(s.table[k].pd, BlockOf(s, k), BlockOf(s, i));
        PrefixesNest(BlockOf(s, k), BlockOf(s, i), BlockOf(s, k));
      }
    }
  }

  /** With blocks that differ, as they should, only the entry's own client matters. */
  lemma {:induction false} RoutingAgreesIffCurrent(c: Config, events: seq<Event>, dest: Address)
    requires Same52(dest, c.slash52) && BlocksDiffer(Run(c, events))
    ensures Agrees(c, Run(c, events), dest) <==> HitIsCurrent(Run(c, events), dest)
  {
    AgreesIff(c, Run(c, events), dest);
    CurrentIsRight(Run(c, events), dest);
  }

  // ---------------------------------------------------- when the cache is and is not current

  /** Clients have blocks of their own, and keep them: equal client and equal block go together. */
  ghost predicate BlocksAreOwn(file: seq<Assignment>) {
    forall l, m | l in file && m in file :: l.local == m.local <==> Same62(l.block, m.block)
  }

  ghost predicate ClientsDiffer(t: seq<SocketPrefix>) {
    forall i, j | 0 <= i < j < |t| && t[i].plenLl != 0 && t[j].plenLl != 0 :: t[i].ll != t[j].ll
  }

  lemma OwnBlocksDiffer(s: Server)
    requires BlocksAreOwn(s.file)
    ensures BlocksDiffer(s)
  {
    forall i, j | 0 <= i < j < |s.table| && HasBlock(s, i) && HasBlock(s, j)
      ensures !Same62(BlockOf(s, i), BlockOf(s, j))
    {
      LastBlockSomeIff(s.file, s.table[i].ll);
      LastBlockSomeIff(s.file, s.table[j].ll);
      var l, m := Assignment(s.table[i].ll, BlockOf(s, i)), Assignment(s.table[j].ll, BlockOf(s, j));
      assert l in s.file && m in s.file && l.local != m.local;
    }
  }

  lemma OwnBlocksAreCurrent(s: Server, dest: Address)
    requires CacheFromFile(s) && BlocksAreOwn(s.file) && ClientsDiffer(s.table)
    ensures HitIsCurrent(s, dest)
  {
    var k := First(s.table, Covers(dest));
    if k < |s.table| {
      assert Covers(dest)(s.table[k]);
      var l := Assignment(s.table[k].ll, s.table[k].pd);
      assert l in s.file;
      LastBlockSomeIff(s.file, l.local);
      var m := Assignment(l.local, LastBlock(s.file, l.local).value);
      assert m in s.file && l.local == m.local && HasBlock(s, k);
    }
  }

  /**
   In particular, as long as every client keeps the block it was given and no two connections
   show the same link-local address, routing agrees with the file for every destination.
   */
  lemma RoutingAgreesWithFile(c: Config, events: seq<Event>, dest: Address)
    requires BlocksAreOwn(Run(c, events).file) && ClientsDiffer(Run(c, events).table)
    requires Same52(dest, c.slash52)
    ensures Agrees(c, Run(c, events), dest)
  {
    var s := Run(c, events);
    RunKeepsCacheFromFile(c, events);
    OwnBlocksDiffer(s);
    OwnBlocksAreCurrent(s, dest);
    CurrentIsRight(s, dest);
    AgreesIff(c, s, dest);
  }

  /** A reload changes neither who has which block nor who is the lowest of a client. */
  lemma ReloadKeepsBlocks(s: Server, j: nat)
    requires j < |s.table|
    ensures var after := s.(table := Reload(s.table, s.file));
            && after.table[j].ll == s.table[j].ll && after.table[j].plenLl == s.table[j].plenLl
            && HasBlock(after, j) == HasBlock(s, j)
            && (HasBlock(s, j) ==> BlockOf(after, j) == BlockOf(s, j) == after.table[j].pd
                                   && after.table[j].plenPd == BLOCK_PLEN)
  {
    var after := s.(table := Reload(s.table, s.file));
    forall i | 0 <= i <= j
      ensures after.table[i].ll == s.table[i].ll && after.table[i].plenLl == s.table[i].plenLl
    {
      ReloadIsLastWriter(s.table, s.file, i);
    }
    assert IsLowest(after.table, j) == IsLowest(s.table, j);
    ReloadIsLastWriter(s.table, s.file, j);
  }

  /** After a reload every hit is right, if clients show different link-local addresses. */
  lemma ReloadMakesHitsRight(s: Server, dest: Address)
    requires CacheFromFile(s) && ClientsDiffer(s.table)
    ensures HitIsRight(s.(table := Reload(s.table, s.file)), dest)
  {
    var after := s.(table := Reload(s.table, s.file));
    var k := First(after.table, Covers(dest));
    if k < |after.table| {
      assert Covers(dest)(after.table[k]);
      ReloadKeepsCacheFromFile(s);
      ReloadKeepsBlocks(s, k);
      LastBlockSomeIff(s.file, s.table[k].ll);
      assert HasBlock(s, k);
      var pd := after.table[k].pd;
      PrefixesNest(pd, pd, pd);
      forall i: nat | i < k && HasBlock(after, i) ensures !Same62(pd, BlockOf(after, i)) {
        ReloadKeepsBlocks(s, i);
        assert !Covers(dest)(after.table[i]);
        SameBlock(dest, pd, BlockOf(after, i));
      }
    }
  }

  /**
   And a single miss repairs the whole cache: after any run in which clients show different
   link-local addresses, a packet into the /52 that no entry covers makes every destination route
   as the file says.
   */
  lemma {:induction false} MissRestoresAgreement(c: Config, events: seq<Event>, missed: Buffer, dest: Address)
    requires var s := Run(c, events);
             ClientsDiffer(s.table) && First(s.table, Covers(DestAddress(missed))) == |s.table|
    requires IsIpv6(missed) && Same52(DestAddress(missed), c.slash52) && Same52(dest, c.slash52)
    ensures Agrees(c, Run(c, events + [FromTun(missed)]), dest)
  {
    var s := Run(c, events);
    var after := s.(table := Reload(s.table, s.file));
    RunAppend(c, events, FromTun(missed));
    assert Step(c, s, FromTun(missed)) == after;
    RunKeepsCacheFromFile(c, events);
    ReloadMakesHitsRight(s, dest);
    AgreesIff(c, after, dest);
  }

  lemma RunAppend(c: Config, events: seq<Event>, e: Event)
    ensures Run(c, events + [e]) == Step(c, Run(c, events), e)
  {
    assert (events + [e])[..|events|] == events;
  }

  // ------------------------------------------------------------- a run that ends agreement

  lemma {:induction false} LastBlockOfAppend(lines: seq<Assignment>, line: Assignment)
    ensures LastBlock(lines + [line], line.local) == Some(line.block)
  {
    if lines == [] {
      assert lines + [line] == [line];
    } else {
      assert (lines + [line])[1..] == lines[1..] + [line];
      LastBlockOfAppend(lines[1..], line);
    }
  }

  /**
   Giving the client of a covered destination another block ends agreement for that destination:
   the hit in the cache never looks at the file.
   */
  lemma ReassignmentEndsAgreement(c: Config, s: Server, dest: Address, block: Address)
    requires Same52(dest, c.slash52) && !Same62(dest, block)
    requires First(s.table, Covers(dest)) < |s.table|
    ensures var k := First(s.table, Covers(dest));
            var after := Step(c, s, Assigned([Assignment(s.table[k].ll, block)]));
            Route(c, after.table, dest, after.file).1 == Some(k) && !Agrees(c, after, dest)
  {
    var k := First(s.table, Covers(dest));
    var line := Assignment(s.table[k].ll, block);
    LastBlockOfAppend(s.file, line);
    assert !Claims(Step(c, s, Assigned([line])), dest, k);
  }

  /** The smallest such run, for any client, any two blocks and any destination in the first. */
  ghost function ReassigningRun(fd: nat, hello: Buffer, first: Address, packet: Buffer, second: Address)
    : seq<Event>
  {
    CachingRun(fd, hello, first, packet) + [Assigned([Assignment(SourceAddress(hello), second)])]
  }

  ghost function CachingRun(fd: nat, hello: Buffer, first: Address, packet: Buffer): seq<Event> {
    [] + [FromClient(fd, hello)] + [Assigned([Assignment(SourceAddress(hello), first)])] + [FromTun(packet)]
  }

  /** Only descriptor `fd` is live, with this link-local address and no block. */
  ghost predicate OnlyLearned(t: seq<SocketPrefix>, fd: nat, local: Address) {
    && fd < |t| == TABLE_LEN && t[fd] == VACANT.(ll := local, plenLl := LINK_LOCAL_PLEN)
    && forall j | 0 <= j < |t| && j != fd :: t[j] == VACANT
  }

  lemma FirstHello(c: Config, fd: Slot, hello: Buffer)
    requires IsIpv6(hello) && IsLinkLocal(SourceAddress(hello))
    ensures var s := Run(c, [] + [FromClient(fd, hello)]);
            OnlyLearned(s.table, fd, SourceAddress(hello)) && s.file == []
  {
    RunAppend(c, [], FromClient(fd, hello));
    assert Run(c, []) == Started();
  }

  lemma FirstLookup(c: Config, s: Server, fd: Slot, local: Address, block: Address, packet: Buffer)
    requires OnlyLearned(s.table, fd, local) && s.file == [Assignment(local, block)]
    requires IsIpv6(packet) && Same52(DestAddress(packet), c.slash52) && Same62(DestAddress(packet), block)
    ensures var t := Step(c, s, FromTun(packet)).table;
            && t == s.table[fd := s.table[fd].(pd := block, plenPd := BLOCK_PLEN)]
            && First(t, Covers(DestAddress(packet))) == fd
  {
    var dest := DestAddress(packet);
    FirstIs(s.table, Covers(dest), |s.table|);
    ReloadOfOne(s.table, s.file[0], fd);
    FirstIs(Step(c, s, FromTun(packet)).table, Covers(dest), fd);
  }

  lemma CachingRunCaches(c: Config, fd: Slot, hello: Buffer, first: Address, packet: Buffer)
    requires IsIpv6(hello) && IsLinkLocal(SourceAddress(hello)) && IsIpv6(packet)
    requires Same52(DestAddress(packet), c.slash52) && Same62(DestAddress(packet), first)
    ensures var s := Run(c, CachingRun(fd, hello, first, packet));
            s.table[fd].ll == SourceAddress(hello) && First(s.table, Covers(DestAddress(packet))) == fd
  {
    var local := SourceAddress(hello);
    var hellos := [] + [FromClient(fd, hello)];
    var line := Assigned([Assignment(local, first)]);
    FirstHello(c, fd, hello);
    RunAppend(c, hellos, line);
    RunAppend(c, hellos + [line], FromTun(packet));
    FirstLookup(c, Run(c, hellos + [line]), fd, local, first, packet);
  }

  lemma ReassignedBlockStaysCached(
      c: Config, fd: Slot, hello: Buffer, first: Address, packet: Buffer, second: Address)
    requires IsIpv6(hello) && IsLinkLocal(SourceAddress(hello)) && IsIpv6(packet)
    requires var dest := DestAddress(packet);
             Same52(dest, c.slash52) && Same62(dest, first) && !Same62(dest, second)
    ensures var s := Run(c, ReassigningRun(fd, hello, first, packet, second));
            && Route(c, s.table, DestAddress(packet), s.file).1 == Some(fd)
            && !Agrees(c, s, DestAddress(packet))
  {
    var caching := CachingRun(fd, hello, first, packet);
    CachingRunCaches(c, fd, hello, first, packet);
    RunAppend(c, caching, Assigned([Assignment(SourceAddress(hello), second)]));
    ReassignmentEndsAgreement(c, Run(c, caching), DestAddress(packet), second);
  }

  lemma ReloadOfOne(t: seq<SocketPrefix>, line: Assignment, j: nat)
    requires j < |t| && IsLowest(t, j) && t[j].ll == line.local
    ensures Reload(t, [line]) == t[j := t[j].(pd := line.block, plenPd := BLOCK_PLEN)]
  {
    FirstIs(t, HasLinkLocal(line.local), j);
    assert Reload(t, [line]) == Reload(Bind(t, line), []);
  }

  /** One concrete run of this kind, with the /52 of the all-zero address. */
  lemma ConcreteReassignment()
    ensures var zero := Unspecified();
            var hello := seq(HEADER_LEN, _ => 0)[0 := 0x60][8 := 0xfe][9 := 0x80];
            var packet := seq(HEADER_LEN, _ => 0)[0 := 0x60];
            var s := Run(Config(zero, zero), ReassigningRun(7, hello, zero, packet, zero[7 := 4]));
            !Agrees(Config(zero, zero), s, zero)
  {
    var zero := Unspecified();
    var hello: Buffer := seq(HEADER_LEN, _ => 0)[0 := 0x60][8 := 0xfe][9 := 0x80];
    var packet: Buffer := seq(HEADER_LEN, _ => 0)[0 := 0x60];
    assert SourceAddress(hello)[0] == hello[8] && SourceAddress(hello)[1] == hello[9];
    assert DestAddress(packet) == zero;
    ReassignedBlockStaysCached(Config(zero, zero), 7, hello, zero, packet, zero[7 := 4]);
  }

  // ------------------------------------------------------------------- the other destinations

  /** The first link-local source shown on descriptor `fd`'s present connection has this interface. */
  ghost predicate ShowedInterface(events: seq<Event>, fd: nat, dest: Address) {
    exists i :: IsFirstShown(events, fd, i) && InterfaceId(SourceAddress(events[i].buf)) == InterfaceId(dest)
  }

  lemma ClosedWidens(events: seq<Event>, fd: nat, from: int, to: int)
    requires to <= |events| && ClosedBetween(events, fd, from, to)
    ensures ClosedBetween(events, fd, from, |events|)
  {
    var k :| 0 <= k < |events| && from < k < to && events[k].Closed? && events[k].slot == fd;
  }

  lemma FirstShownIsUnique(events: seq<Event>, fd: nat, h: int, i: int)
    requires IsFirstShown(events, fd, h) && IsFirstShown(events, fd, i)
    ensures h == i
  {
    if ClosedBetween(events, fd, h, i) {
      ClosedWidens(events, fd, h, i);
    }
    if ClosedBetween(events, fd, i, h) {
      ClosedWidens(events, fd, i, h);
    }
  }

  /** An entry matches an interface exactly if its present connection showed it first. */
  lemma MatchesIffShowed(p: SocketPrefix, events: seq<Event>, fd: nat, dest: Address)
    requires Remembers(p, events, fd)
    ensures HasInterface(dest)(p) <==> ShowedInterface(events, fd, dest)
  {
    if p.plenLl == 0 {
      assert forall i :: !IsFirstShown(events, fd, i);
    } else {
      var i :| IsFirstShown(events, fd, i) && p.ll == SourceAddress(events[i].buf);
      SameInterfaceIsExact(dest, p.ll);
      forall h | IsFirstShown(events, fd, h) ensures h == i {
        FirstShownIsUnique(events, fd, h, i);
      }
    }
  }

  /**
   Outside the /52, in every run: a /64 or link-local destination goes to the lowest descriptor
   whose present connection first showed a link-local source with the destination's interface
   identifier, to none if there is no such connection, and the table stays as it is.
   */
  lemma {:induction false} InterfaceRouting(c: Config, events: seq<Event>, dest: Address, j: nat)
    requires !Same52(dest, c.slash52) && (Same64(dest, c.slash64) || IsLinkLocal(dest))
    ensures var s := Run(c, events);
            && Route(c, s.table, dest, s.file).0 == s.table
            && (Route(c, s.table, dest, s.file).1 == Some(j) <==>
                  && j < TABLE_LEN && ShowedInterface(events, j, dest)
                  && forall i: nat | i < j :: !ShowedInterface(events, i, dest))
  {
    var t := Run(c, events).table;
    forall i: Slot ensures HasInterface(dest)(t[i]) <==> ShowedInterface(events, i, dest) {
      EntriesRememberFirst(c, events, i);
      MatchesIffShowed(t[i], events, i, dest);
    }
    var hit := HasInterface(dest);
    if j < TABLE_LEN && ShowedInterface(events, j, dest) && forall i: nat | i < j :: !ShowedInterface(events, i, dest) {
      forall i | 0 <= i < j ensures !hit(t[i]) {
        var slot: Slot := i;
        assert HasInterface(dest)(t[slot]) <==> ShowedInterface(events, slot, dest);
      }
      FirstIs(t, hit, j);
    }
    var k := First(t, hit);
    if k < TABLE_LEN {
      forall i: nat | i < k ensures !ShowedInterface(events, i, dest) {
        var slot: Slot := i;
        assert HasInterface(dest)(t[slot]) <==> ShowedInterface(events, slot, dest);
      }
    }
  }
}
