/**
 The tunnel server's routing table: one entry per socket descriptor, holding the client's
 link-local address once traffic has shown it, and the block the assignment file gives it.

 The table as a value is a sequence; `Reload` and `Route` say what the class's loops compute.
 */
module RoutingTable {
  import opened Ipv6
  import opened Options

  const TABLE_LEN := 512
  const BLOCK_PLEN := 62
  const LINK_LOCAL_PLEN := 128

  /** A prefix length of 0 means that the address beside it is not set, whatever it still holds. */
  datatype SocketPrefix = SocketPrefix(pd: Address, plenPd: nat, ll: Address, plenLl: nat)

  const VACANT := SocketPrefix(Unspecified(), 0, Unspecified(), 0)

  /** A line of the assignment file: the client with this link-local address owns this block. */
  datatype Assignment = Assignment(local: Address, block: Address)

  /** Where a scan that stops at its first hit stops; at the end if there is none. */
  ghost function First<T(!new)>(s: seq<T>, hit: T -> bool): (i: nat)
    ensures i <= |s|
    ensures i < |s| ==> hit(s[i])
    ensures forall k | 0 <= k < i :: !hit(s[k])
  {
    if s == [] || hit(s[0]) then 0 else 1 + First(s[1..], hit)
  }

  lemma {:induction false} FirstIs<T(!new)>(s: seq<T>, hit: T -> bool, i: nat)
    requires i <= |s|
    requires i < |s| ==> hit(s[i])
    requires forall k | 0 <= k < i :: !hit(s[k])
    ensures First(s, hit) == i
  {
    if i > 0 {
      FirstIs(s[1..], hit, i - 1);
    }
  }

  function HasLinkLocal(local: Address): SocketPrefix -> bool {
    (p: SocketPrefix) => p.plenLl != 0 && p.ll == local
  }

  function Covers(dest: Address): SocketPrefix -> bool {
    (p: SocketPrefix) => p.plenPd != 0 && Same62(dest, p.pd)
  }

  function HasInterface(dest: Address): SocketPrefix -> bool {
    (p: SocketPrefix) => p.plenLl != 0 && SameInterface(dest, p.ll)
  }

  // ------------------------------------------------------------------------------ reload

  ghost function Bind(t: seq<SocketPrefix>, line: Assignment): (r: seq<SocketPrefix>)
    ensures |r| == |t|
  {
    var j := First(t, HasLinkLocal(line.local));
    if j < |t| then t[j := t[j].(pd := line.block, plenPd := BLOCK_PLEN)] else t
  }

  ghost function Reload(t: seq<SocketPrefix>, lines: seq<Assignment>): (r: seq<SocketPrefix>)
    ensures |r| == |t|
    decreases |lines|
  {
    if lines == [] then t else Reload(Bind(t, lines[0]), lines[1..])
  }

  /** The block of the last line that names `local`. */
  ghost function LastBlock(lines: seq<Assignment>, local: Address): Option<Address> {
    if lines == [] then None
    else
      var later := LastBlock(lines[1..], local);
      if later.Some? then later
      else if lines[0].local == local then Some(lines[0].block) else None
  }

  lemma {:induction false} LastBlockSomeIff(lines: seq<Assignment>, local: Address)
    ensures LastBlock(lines, local).Some? <==> exists l :: l in lines && l.local == local
    ensures LastBlock(lines, local).Some? ==> Assignment(local, LastBlock(lines, local).value) in lines
  {
    if lines != [] {
      LastBlockSomeIff(lines[1..], local);
      assert forall l :: l in lines <==> l == lines[0] || l in lines[1..];
    }
  }

  /** Slot `j` is the lowest one that holds its link-local address. */
  ghost predicate IsLowest(t: seq<SocketPrefix>, j: nat)
    requires j < |t|
  {
    t[j].plenLl != 0 && forall i | 0 <= i < j :: !(t[i].plenLl != 0 && t[i].ll == t[j].ll)
  }

  /** What reloading makes of slot `j`, said without following the lines one by one. */
  ghost function Reloaded(t: seq<SocketPrefix>, lines: seq<Assignment>, j: nat): SocketPrefix
    requires j < |t|
  {
    var block := LastBlock(lines, t[j].ll);
    if IsLowest(t, j) && block.Some? then t[j].(pd := block.value, plenPd := BLOCK_PLEN) else t[j]
  }

  lemma BindIsReloaded(t: seq<SocketPrefix>, line: Assignment, j: nat)
    requires j < |t|
    ensures Bind(t, line)[j].ll == t[j].ll && Bind(t, line)[j].plenLl == t[j].plenLl
    ensures Bind(t, line)[j] ==
              if IsLowest(t, j) && t[j].ll == line.local
              then t[j].(pd := line.block, plenPd := BLOCK_PLEN) else t[j]
  {
    var hit := HasLinkLocal(line.local);
    if IsLowest(t, j) && t[j].ll == line.local {
      FirstIs(t, hit, j);
    }
  }

  lemma BindKeepsLowest(t: seq<SocketPrefix>, line: Assignment, j: nat)
    requires j < |t|
    ensures IsLowest(Bind(t, line), j) == IsLowest(t, j)
  {
    forall i | 0 <= i <= j
      ensures Bind(t, line)[i].ll == t[i].ll && Bind(t, line)[i].plenLl == t[i].plenLl
    {
      BindIsReloaded(t, line, i);
    }
  }

  /**
   Reloading is a fold in which the last writer wins: the lowest slot with a link-local address
   gets the block of the last line naming that address, and nothing else changes.
   */
  lemma {:induction false} ReloadIsLastWriter(t: seq<SocketPrefix>, lines: seq<Assignment>, j: nat)
    requires j < |t|
    ensures Reload(t, lines)[j] == Reloaded(t, lines, j)
    decreases |lines|
  {
    if lines != [] {
      var next := Bind(t, lines[0]);
      BindIsReloaded(t, lines[0], j);
      BindKeepsLowest(t, lines[0], j);
      ReloadIsLastWriter(next, lines[1..], j);
    }
  }

  /** Reading the same file again changes nothing. */
  lemma ReloadIsIdempotent(t: seq<SocketPrefix>, lines: seq<Assignment>)
    ensures Reload(Reload(t, lines), lines) == Reload(t, lines)
  {
    var once := Reload(t, lines);
    forall j | 0 <= j < |t| ensures once[j].ll == t[j].ll && once[j].plenLl == t[j].plenLl {
      ReloadIsLastWriter(t, lines, j);
    }
    forall j | 0 <= j < |t| ensures Reload(once, lines)[j] == once[j] {
      ReloadIsLastWriter(t, lines, j);
      ReloadIsLastWriter(once, lines, j);
      assert IsLowest(once, j) == IsLowest(t, j);
    }
  }

  // ----------------------------------------------------------------------------- routing

  const HEADER_LEN := 40

  /** The receive buffer; only its first bytes are new, the header is read from it regardless. */
  type Buffer = b: seq<bv8> | |b| >= HEADER_LEN witness seq(HEADER_LEN, _ => 0)

  function IsIpv6(buf: Buffer): bool {
    buf[0] >> 4 == 6
  }

  function SourceAddress(buf: Buffer): Address {
    buf[8..24]
  }

  function DestAddress(buf: Buffer): Address {
    buf[24..40]
  }

  datatype Config = Config(slash52: Address, slash64: Address)

  ghost function Hit(t: seq<SocketPrefix>, j: nat): Option<nat> {
    if j < |t| then Some(j) else None
  }

  /** Where a packet from the TUN device goes, and the table afterwards. */
  ghost function Route(c: Config, t: seq<SocketPrefix>, dest: Address, lines: seq<Assignment>)
    : (r: (seq<SocketPrefix>, Option<nat>))
    ensures |r.0| == |t|
  {
    if Same52(dest, c.slash52) then
      var cached := First(t, Covers(dest));
      if cached < |t| then (t, Some(cached))
      else
        var reread := Reload(t, lines);
        (reread, Hit(reread, First(reread, Covers(dest))))
    else if Same64(dest, c.slash64) || IsLinkLocal(dest) then (t, Hit(t, First(t, HasInterface(dest))))
    else (t, None)
  }

  /** A client's link-local address is learned from the first packet that has one as its source. */
  ghost function Learn(p: SocketPrefix, buf: Buffer): SocketPrefix {
    if p.plenLl == 0 && IsIpv6(buf) && IsLinkLocal(SourceAddress(buf))
    then p.(ll := SourceAddress(buf), plenLl := LINK_LOCAL_PLEN)
    else p
  }

  ghost function Forget(p: SocketPrefix): SocketPrefix {
    p.(plenLl := 0, plenPd := 0)
  }

  class TunnelServer {
    const prefixes: array<SocketPrefix>
    const config: Config

    ghost predicate Valid() {
      prefixes.Length == TABLE_LEN
    }

    constructor (config: Config)
      ensures Valid() && fresh(prefixes) && this.config == config
      ensures forall j | 0 <= j < TABLE_LEN :: prefixes[j] == VACANT
    {
      this.config := config;
      prefixes := new SocketPrefix[TABLE_LEN](_ => VACANT);
    }

    /** The inner loop of `parse_prefixes`: bind one line to the first entry it matches. */
    method BindLine(line: Assignment)
      requires Valid()
      modifies prefixes
      ensures prefixes[..] == Bind(old(prefixes[..]), line)
    {
      ghost var hit := HasLinkLocal(line.local);
      for j := 0 to prefixes.Length
        invariant prefixes[..] == old(prefixes[..])
        invariant forall k | 0 <= k < j :: !hit(prefixes[k])
      {
        if prefixes[j].plenLl != 0 && prefixes[j].ll == line.local {
          FirstIs(prefixes[..], hit, j);
          prefixes[j] := prefixes[j].(pd := line.block, plenPd := BLOCK_PLEN);
          return;
        }
      }
      FirstIs(prefixes[..], hit, prefixes.Length);
    }

    /** `parse_prefixes`, from the lines of the file on. */
    method ParsePrefixes(lines: seq<Assignment>)
      requires Valid()
      modifies prefixes
      ensures prefixes[..] == Reload(old(prefixes[..]), lines)
    {
      for i := 0 to |lines|
        invariant Reload(prefixes[..], lines[i..]) == Reload(old(prefixes[..]), lines)
      {
        assert lines[i..][0] == lines[i] && lines[i..][1..] == lines[i + 1..];
        BindLine(lines[i]);
      }
    }

    /** The scan for a block that covers the destination. */
    method FindBlock(dest: Address) returns (j: nat)
      requires Valid()
      ensures j == First(prefixes[..], Covers(dest))
    {
      ghost var hit := Covers(dest);
      j := 0;
      while j < prefixes.Length
        invariant j <= prefixes.Length
        invariant forall k | 0 <= k < j :: !hit(prefixes[k])
      {
        if prefixes[j].plenPd != 0 && Same62(dest, prefixes[j].pd) {
          break;
        }
        j := j + 1;
      }
      FirstIs(prefixes[..], hit, j);
    }

    /** The scan for a client with the destination's interface identifier. */
    method FindInterface(dest: Address) returns (j: nat)
      requires Valid()
      ensures j == First(prefixes[..], HasInterface(dest))
    {
      ghost var hit := HasInterface(dest);
      j := 0;
      while j < prefixes.Length
        invariant j <= prefixes.Length
        invariant forall k | 0 <= k < j :: !hit(prefixes[k])
      {
        if prefixes[j].plenLl != 0 && SameInterface(dest, prefixes[j].ll) {
          break;
        }
        j := j + 1;
      }
      FirstIs(prefixes[..], hit, j);
    }

    /** A chunk read from the TUN device; `lines` is what the file holds if it gets read. */
    method OnTunPacket(buf: Buffer, lines: seq<Assignment>) returns (to: Option<nat>)
      requires Valid()
      modifies prefixes
      ensures (prefixes[..], to) ==
                if IsIpv6(buf) then Route(config, old(prefixes[..]), DestAddress(buf), lines)
                else (old(prefixes[..]), None)
    {
      to := None;
      if IsIpv6(buf) {
        var dest := DestAddress(buf);
        if Same52(dest, config.slash52) {
          var j := FindBlock(dest);
          if j == prefixes.Length {
            ParsePrefixes(lines);
            j := FindBlock(dest);
          }
          if j < prefixes.Length {
            to := Some(j);
          }
        } else if Same64(dest, config.slash64) || IsLinkLocal(dest) {
          var j := FindInterface(dest);
          if j < prefixes.Length {
            to := Some(j);
          }
        }
      }
    }

    /** A chunk read from a client's connection; all `count` bytes go on to the TUN device. */
    method OnClientData(fd: nat, buf: Buffer, count: nat) returns (toTun: seq<bv8>)
      requires Valid() && count <= |buf|
      modifies prefixes
      ensures toTun == buf[..count]
      ensures prefixes[..] ==
                if fd < TABLE_LEN then old(prefixes[..])[fd := Learn(old(prefixes[fd]), buf)]
                else old(prefixes[..])
    {
      if fd < TABLE_LEN && prefixes[fd].plenLl == 0 && IsIpv6(buf) {
        var source := SourceAddress(buf);
        if IsLinkLocal(source) {
          prefixes[fd] := prefixes[fd].(ll := source, plenLl := LINK_LOCAL_PLEN);
        }
      }
      return buf[..count];
    }

    /** The end of a connection. */
    method OnClosed(fd: nat)
      requires Valid() && fd < TABLE_LEN
      modifies prefixes
      ensures prefixes[..] == old(prefixes[..])[fd := Forget(old(prefixes[fd]))]
    {
      prefixes[fd] := prefixes[fd].(plenLl := 0);
      prefixes[fd] := prefixes[fd].(plenPd := 0);
    }
  }
}
