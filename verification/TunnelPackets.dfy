/**
 The tunnel server's treatment of packets by what is in them: a packet is put together from its
 header fields, and the addresses are compared as 128-bit numbers.
 */
module TunnelPackets {
  import opened Arithmetic
  import opened Ipv6
  import opened Options
  import opened RoutingTable
  import opened TunnelRuns

  /** Version, traffic class, flow label, payload length, next header and hop limit. */
  type Header = h: seq<bv8> | |h| == 8 witness seq(8, _ => 0)

  /** The IPv6 header of RFC 8200, section 3, and whatever follows it. */
  ghost function Packet(header: Header, source: Address, dest: Address, payload: seq<bv8>): Buffer {
    header + source + dest + payload
  }

  ghost predicate IsVersion6(header: Header) {
    header[0] as int / 16 == 6
  }

  /** The first `n` bits of an address, as a number. */
  ghost function Leading(a: Address, n: nat): int
    requires n <= ADDRESS_BITS
  {
    Value(Octets(a)) / Pow2(ADDRESS_BITS - n)
  }

  lemma UpperNibble(x: bv8)
    ensures x >> 4 == 6 <==> x as int / 16 == 6
  {
    assert (x >> 4) as int == x as int / 16;
  }

  lemma FieldsOfPacket(header: Header, source: Address, dest: Address, payload: seq<bv8>)
    ensures var p := Packet(header, source, dest, payload);
            IsIpv6(p) == IsVersion6(header) && SourceAddress(p) == source && DestAddress(p) == dest
  {
    var p := Packet(header, source, dest, payload);
    assert p[0] == header[0];
    UpperNibble(header[0]);
    assert p[8..24] == source && p[24..40] == dest;
  }

  /** There are no other packets. */
  lemma EveryBufferIsAPacket(buf: Buffer)
    ensures exists header, source, dest, payload :: buf == Packet(header, source, dest, payload)
  {
    assert buf == Packet(buf[..8], buf[8..24], buf[24..40], buf[40..]);
  }

  lemma PrefixesAreLeading(a: Address, b: Address)
    ensures Same52(a, b) <==> Leading(a, 52) == Leading(b, 52)
    ensures Same62(a, b) <==> Leading(a, 62) == Leading(b, 62)
    ensures Same64(a, b) <==> Leading(a, 64) == Leading(b, 64)
    ensures IsLinkLocal(a) <==> Leading(a, 16) == 0xfe80
  {
    Same52IsExact(a, b);
    Same62IsExact(a, b);
    Same64IsExact(a, b);
    IsLinkLocalIsExact(a);
  }

  /** The lowest descriptor whose present connection first showed the destination's interface. */
  ghost predicate IsInterfaceOwner(events: seq<Event>, dest: Address, j: nat) {
    && j < 512 && ShowedInterface(events, j, dest)
    && forall i: nat | i < j :: !ShowedInterface(events, i, dest)
  }

  /**
   Where packets from the TUN device go, after every run and whatever their source, payload and
   other header fields are.  Into the /52: where the file assigns the destination, if and only if
   the entry the cache hits is right.  Otherwise, to the /64 or to a link-local destination: to the
   owner of the interface.  Everything else, and what is not IPv6, goes nowhere; and only a packet
   into the /52 can change the table.
   */
  lemma {:induction false} TunPacketsGoByDestination(
      c: Config, events: seq<Event>, header: Header, source: Address, dest: Address, payload: seq<bv8>)
    ensures var s, e := Run(c, events), FromTun(Packet(header, source, dest, payload));
            var inside := Leading(dest, 52) == Leading(c.slash52, 52);
            var local := Leading(dest, 64) == Leading(c.slash64, 64) || Leading(dest, 16) == 0xfe80;
            if IsVersion6(header) && inside then
              (forall j: nat :: SentTo(c, s, e) == Some(j) <==> AssignedTo(s, dest, j)) <==> HitIsRight(s, dest)
            else
              && Step(c, s, e) == s
              && if IsVersion6(header) && local then
                   forall j: nat :: SentTo(c, s, e) == Some(j) <==> IsInterfaceOwner(events, dest, j)
                 else SentTo(c, s, e) == None
  {
    var s, e := Run(c, events), FromTun(Packet(header, source, dest, payload));
    FieldsOfPacket(header, source, dest, payload);
    PrefixesAreLeading(dest, c.slash52);
    PrefixesAreLeading(dest, c.slash64);
    if IsVersion6(header) {
      if Same52(dest, c.slash52) {
        RoutingAgreesIff(c, events, dest);
        assert SentTo(c, s, e) == Route(c, s.table, dest, s.file).1;
      } else if Same64(dest, c.slash64) || IsLinkLocal(dest) {
        forall j: nat ensures SentTo(c, s, e) == Some(j) <==> IsInterfaceOwner(events, dest, j) {
          InterfaceRouting(c, events, dest, j);
        }
        InterfaceRouting(c, events, dest, 0);
      }
    }
  }

  /** An entry is vacant exactly while its connection has shown no link-local source. */
  lemma VacantIff(c: Config, events: seq<Event>, fd: Slot)
    ensures var p := Run(c, events).table[fd];
            && (p.plenLl == 0 <==> NothingShown(events, fd))
            && (p.plenLl == 0 ==> p.plenPd == 0)
  {
    EntriesRememberFirst(c, events, fd);
    var p := Run(c, events).table[fd];
    if p.plenLl != 0 {
      var i :| IsFirstShown(events, fd, i) && p.ll == SourceAddress(events[i].buf);
    }
  }

  /**
   What packets from clients teach, after every run and whatever their destination, payload and
   other header fields are: descriptor `j` gets the packet's source, if and only if the packet came
   on it, is the first of its connection with such a source, and is IPv6 from a link-local address.
   Nothing else changes, and nothing is sent to a client.
   */
  lemma {:induction false} ClientPacketsTeachSource(
      c: Config, events: seq<Event>, fd: nat,
      header: Header, source: Address, dest: Address, payload: seq<bv8>, j: Slot)
    ensures var s, e := Run(c, events), FromClient(fd, Packet(header, source, dest, payload));
            && SentTo(c, s, e) == None && Step(c, s, e).file == s.file
            && Step(c, s, e).table[j] ==
                 if j == fd && NothingShown(events, fd) && IsVersion6(header) && Leading(source, 16) == 0xfe80
                 then SocketPrefix(s.table[j].pd, 0, source, 128)
                 else s.table[j]
  {
    FieldsOfPacket(header, source, dest, payload);
    PrefixesAreLeading(source, source);
    VacantIff(c, events, j);
  }
}
