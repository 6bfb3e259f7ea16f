/**
 All radios at once: each with its own link, sharing one SPI bus.  The main result is that with
 distinct chip-select indices the bus keeps them apart: what any radio and its driver go
 through is a run of a single link, so everything proved about one link holds for each.
 */
module SharedBus {
  import opened Arithmetic
  import opened Bytes
  import opened Frame
  import opened SpiSlave
  import opened HostDriver
  import opened Link
  import opened GapSpi
  import Delivery

  /** Radio `r` is wired to demultiplexer output `outputs[r]`, which is also its driver's index. */
  datatype Wiring = Wiring(numPins: nat, outputs: seq<nat>) {
    ghost predicate Distinct() {
      && (forall r | 0 <= r < |outputs| :: outputs[r] < Pow2(numPins))
      && forall q, r | 0 <= q < r < |outputs| :: outputs[q] != outputs[r]
    }
  }

  datatype Net = Net(radios: seq<Sys>, queue: seq<Message>)

  datatype NetAction =
    | Local(radio: nat, action: Action)   // anything but a transfer happens at one radio
    | BusTransfer(isLate: bool)           // the bus carries out its oldest message

  ghost predicate AllSound(radios: seq<Sys>) {
    forall r | 0 <= r < |radios| :: Sound(radios[r])
  }

  /** Every queued message carries its owner's index and is one of its owner's submissions. */
  ghost predicate NetSound(w: Wiring, net: Net) {
    && |net.radios| == |w.outputs|
    && AllSound(net.radios)
    && (forall m | m in net.queue :: m.owner < |net.radios| && m.state == w.outputs[m.owner])
    && forall r | 0 <= r < |net.radios| :: CountOf(net.queue, r) == net.radios[r].submitted
  }

  ghost function CountOf(queue: seq<Message>, r: nat): nat {
    if queue == [] then 0 else (if queue[0].owner == r then 1 else 0) + CountOf(queue[1..], r)
  }

  lemma {:induction false} CountOfAppend(queue: seq<Message>, m: Message, r: nat)
    ensures CountOf(queue + [m], r) == CountOf(queue, r) + if m.owner == r then 1 else 0
  {
    if queue == [] {
      assert queue + [m] == [m];
    } else {
      assert (queue + [m])[1..] == queue[1..] + [m];
      CountOfAppend(queue[1..], m, r);
    }
  }

  /** The radio on a demultiplexer output, or `|outputs|` if nothing is wired there. */
  function RadioAt(outputs: seq<nat>, output: int): (r: nat)
    ensures r <= |outputs|
    ensures r < |outputs| ==> outputs[r] == output
  {
    if outputs == [] then 0 else if outputs[0] == output then 0 else 1 + RadioAt(outputs[1..], output)
  }

  lemma {:induction false} RadioAtOwn(outputs: seq<nat>, r: nat)
    requires r < |outputs|
    requires forall p, q | 0 <= p < q < |outputs| :: outputs[p] != outputs[q]
    ensures RadioAt(outputs, outputs[r]) == r
  {
    if r > 0 {
      assert outputs[0] != outputs[r];
      RadioAtOwn(outputs[1..], r - 1);
    }
  }

  /** Every radio is addressed by its own messages exactly when the wiring is distinct. */
  lemma AddressedHomeIff(w: Wiring)
    ensures (forall r | 0 <= r < |w.outputs| ::
               RadioAt(w.outputs, w.outputs[r] % Pow2(w.numPins)) == r) <==> w.Distinct()
  {
    if w.Distinct() {
      forall r | 0 <= r < |w.outputs| ensures RadioAt(w.outputs, w.outputs[r] % Pow2(w.numPins)) == r {
        OwnOutputIff(w.outputs[r], w.numPins);
        RadioAtOwn(w.outputs, r);
      }
    }
    if forall r | 0 <= r < |w.outputs| :: RadioAt(w.outputs, w.outputs[r] % Pow2(w.numPins)) == r {
      forall r | 0 <= r < |w.outputs| ensures w.outputs[r] < Pow2(w.numPins) {
        assert RadioAt(w.outputs, w.outputs[r] % Pow2(w.numPins)) == r;
      }
      forall q, r | 0 <= q < r < |w.outputs| ensures w.outputs[q] != w.outputs[r] {
        assert RadioAt(w.outputs, w.outputs[q] % Pow2(w.numPins)) == q;
        assert RadioAt(w.outputs, w.outputs[r] % Pow2(w.numPins)) == r;
      }
    }
  }

  /**
   The host's driver `r` exchanges bytes with whatever radio the pins select; with nothing
   selected it clocks in zeros.
   */
  ghost function Carry(radios: seq<Sys>, r: nat, target: nat, late: bool): (result: seq<Sys>)
    requires r < |radios| && AllSound(radios)
    requires radios[r].submitted > 0
    ensures |result| == |radios|
  {
    if target < |radios| then
      var mid := radios[target := RadioSide(radios[target], radios[r].dev.command)];
      mid[r := HostSide(mid[r], radios[target].fw.tx, late)]
    else radios[r := HostSide(radios[r], Zeros(FIRMWARE_BUF), late)]
  }

  /** When the pins select the submitter, the exchange is a transfer of that radio's own link. */
  lemma CarryHome(radios: seq<Sys>, r: nat, late: bool)
    requires r < |radios| && AllSound(radios)
    requires radios[r].submitted > 0
    ensures Carry(radios, r, r, late) == radios[r := Step(radios[r], Transfer(late))]
  {
  }

  /** What a network action is for radio `r`: the actions of its own link it amounts to. */
  ghost function Own(net: Net, a: NetAction, r: nat): seq<Action> {
    match a
    case Local(q, action) => if q == r && !action.Transfer? then [action] else []
    case BusTransfer(late) => if net.queue != [] && net.queue[0].owner == r then [Transfer(late)] else []
  }

  ghost function NetStep(w: Wiring, net: Net, a: NetAction): (result: Net)
    requires NetSound(w, net)
  {
    match a
    case Local(r, action) =>
      if r >= |net.radios| || action.Transfer? then net
      else
        var next := Step(net.radios[r], action);
        Net(net.radios[r := next],
            net.queue + if next.submitted > net.radios[r].submitted then [Message(r, w.outputs[r])] else [])
    case BusTransfer(late) =>
      if net.queue == [] then net
      else
        var m := net.queue[0];
        assert m in net.queue && CountOf(net.queue, m.owner) > 0;
        Net(Carry(net.radios, m.owner, RadioAt(w.outputs, m.state % Pow2(w.numPins)), late), net.queue[1..])
  }

  /** A bus transfer takes place between the driver that submitted it and that driver's radio. */
  lemma TransferStaysHome(w: Wiring, net: Net, late: bool)
    requires NetSound(w, net) && w.Distinct() && net.queue != []
    ensures var r := net.queue[0].owner;
            && r < |net.radios|
            && RadioAt(w.outputs, net.queue[0].state % Pow2(w.numPins)) == r
            && net.radios[r].submitted > 0
            && NetStep(w, net, BusTransfer(late)) ==
                 Net(net.radios[r := Step(net.radios[r], Transfer(late))], net.queue[1..])
  {
    var r := net.queue[0].owner;
    assert net.queue[0] in net.queue && CountOf(net.queue, r) > 0;
    AddressedHomeIff(w);
    CarryHome(net.radios, r, late);
  }

  lemma LocalSubmitsAtMostOne(s: Sys, a: Action)
    requires Sound(s) && !a.Transfer?
    ensures s.submitted <= Step(s, a).submitted <= s.submitted + 1
  {
  }

  lemma LocalKeepsSound(w: Wiring, net: Net, r: nat, a: Action)
    requires NetSound(w, net) && r < |net.radios| && !a.Transfer?
    ensures NetSound(w, NetStep(w, net, Local(r, a)))
  {
    LocalSubmitsAtMostOne(net.radios[r], a);
    var result := NetStep(w, net, Local(r, a));
    forall q | 0 <= q < |net.radios| ensures CountOf(result.queue, q) == result.radios[q].submitted {
      CountOfAppend(net.queue, Message(r, w.outputs[r]), q);
      assert net.queue + [] == net.queue;
    }
  }

  lemma BusTransferKeepsSound(w: Wiring, net: Net, late: bool)
    requires NetSound(w, net) && w.Distinct() && net.queue != []
    ensures NetSound(w, NetStep(w, net, BusTransfer(late)))
  {
    TransferStaysHome(w, net, late);
    var result := NetStep(w, net, BusTransfer(late));
    forall m | m in result.queue ensures m in net.queue {
    }
    forall q | 0 <= q < |net.radios| ensures CountOf(result.queue, q) == result.radios[q].submitted {
      assert CountOf(net.queue, q) == net.radios[q].submitted;
    }
  }

  /** One network action leaves each radio where its own part of that action takes it. */
  lemma NetStepIsOwn(w: Wiring, net: Net, a: NetAction, r: nat)
    requires NetSound(w, net) && w.Distinct() && r < |net.radios|
    ensures NetSound(w, NetStep(w, net, a))
    ensures NetStep(w, net, a).radios[r] == RunFrom(net.radios[r], Own(net, a, r))
  {
    match a
    case Local(q, action) =>
      if q < |net.radios| && !action.Transfer? {
        LocalKeepsSound(w, net, q, action);
      }
    case BusTransfer(late) =>
      if net.queue != [] {
        TransferStaysHome(w, net, late);
        BusTransferKeepsSound(w, net, late);
      }
  }

  ghost function PoweredUp(w: Wiring): Net {
    Net(seq(|w.outputs|, _ => START), [])
  }

  ghost function NetRun(w: Wiring, acts: seq<NetAction>): (net: Net)
    requires w.Distinct()
    ensures NetSound(w, net)
  {
    if acts == [] then PoweredUp(w)
    else
      var net := NetRun(w, acts[..|acts| - 1]);
      var a := acts[|acts| - 1];
      if a.Local? && a.radio < |net.radios| && !a.action.Transfer? then
        LocalKeepsSound(w, net, a.radio, a.action);
        NetStep(w, net, a)
      else if a.BusTransfer? && net.queue != [] then
        BusTransferKeepsSound(w, net, a.isLate);
        NetStep(w, net, a)
      else NetStep(w, net, a)
  }

  /** What a network run is for radio `r`. */
  ghost function OwnRun(w: Wiring, acts: seq<NetAction>, r: nat): seq<Action>
    requires w.Distinct()
  {
    if acts == [] then []
    else
      var front := acts[..|acts| - 1];
      OwnRun(w, front, r) + Own(NetRun(w, front), acts[|acts| - 1], r)
  }

  /**
   Isolation: however the radios' actions and the bus are interleaved, each radio and its driver
   end up where a run of one link alone, made of their own actions, would take them.
   */
  lemma {:induction false} RadiosAreIsolated(w: Wiring, acts: seq<NetAction>, r: nat)
    requires w.Distinct() && r < |w.outputs|
    ensures NetRun(w, acts).radios[r] == Run(OwnRun(w, acts, r))
  {
    if acts != [] {
      var front := acts[..|acts| - 1];
      var net, a := NetRun(w, front), acts[|acts| - 1];
      RadiosAreIsolated(w, front, r);
      NetStepIsOwn(w, net, a, r);
      RunThenRunFrom(OwnRun(w, front, r), Own(net, a, r));
    }
  }

  /** So no radio's wake-up is lost and no driver has two transfers under way, on any shared bus. */
  lemma EveryRadioKeepsControl(w: Wiring, acts: seq<NetAction>, r: nat)
    requires w.Distinct() && r < |w.outputs|
    ensures Control(NetRun(w, acts).radios[r])
  {
    RadiosAreIsolated(w, acts, r);
    RunKeepsControl(OwnRun(w, acts, r));
  }

  lemma {:induction false} OwnRunIsOwn(w: Wiring, acts: seq<NetAction>, r: nat, a: Action)
    requires w.Distinct() && a in OwnRun(w, acts, r) && !a.Transfer?
    ensures Local(r, a) in acts
  {
    if acts != [] {
      var front := acts[..|acts| - 1];
      if a in OwnRun(w, front, r) {
        OwnRunIsOwn(w, front, r, a);
      }
    }
  }

  /** Driver `r`'s user buffer shows a report that radio `r` itself received. */
  ghost predicate ShowsOwnReport(dev: Dev, acts: seq<NetAction>, r: nat) {
    dev.Shape() &&
    exists report: Report, late ::
      Local(r, Action.Advert(report)) in acts && dev.user[..dev.userLen] == View(ToEvent(report), late)
  }

  /** No user ever reads another radio's report, whatever the bus carried in between. */
  lemma UsersSeeOwnReports(w: Wiring, acts: seq<NetAction>, r: nat)
    requires w.Distinct() && r < |w.outputs|
    ensures var dev := NetRun(w, acts).radios[r].dev; dev.userLen > 0 ==> ShowsOwnReport(dev, acts, r)
  {
    var own := OwnRun(w, acts, r);
    RadiosAreIsolated(w, acts, r);
    if Run(own).dev.userLen > 0 {
      var report, late := UnreadShows(own);
      OwnRunIsOwn(w, acts, r, Action.Advert(report));
    }
  }

  lemma UnreadShows(own: seq<Action>) returns (report: Report, late: bool)
    requires Run(own).dev.userLen > 0
    ensures Action.Advert(report) in own
    ensures var dev := Run(own).dev; dev.Shape() && dev.user[..dev.userLen] == View(ToEvent(report), late)
  {
    Delivery.RunKeepsInv(own);
    Delivery.LogIsOfRun(own);
    report, late := NewestShows(Delivery.Logged(own), own);
  }

  lemma NewestShows(world: Delivery.World, own: seq<Action>) returns (report: Report, late: bool)
    requires Delivery.SentIn(world) && Delivery.Fetched(world) && Delivery.FromActions(world.log, own)
    requires world.s.dev.userLen > 0
    ensures Action.Advert(report) in own
    ensures var dev := world.s.dev; dev.user[..dev.userLen] == View(ToEvent(report), late)
  {
    var last := |world.log.received| - 1;
    Delivery.ReceptionShowsItsEvent(world, last);
    var i := Delivery.EventOf(world.log, last);
    report :| Action.Advert(report) in own && world.log.accepted[i] == ToEvent(report);
    late := world.log.exchanges[world.log.received[last].exchange].late;
  }
}
