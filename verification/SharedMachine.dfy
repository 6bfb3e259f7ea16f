/**
 The bus as the class that queues messages and sets the demultiplexer's pins, together with the
 radios and drivers on it as the classes of their links.  Its two methods are the steps of
 `SharedBus`.
 */
module SharedMachine {
  import opened Arithmetic
  import opened Link
  import opened GapSpi
  import opened SharedBus
  import opened LinkMachine

  ghost predicate JustStarted(m: Machine)
    reads m.Footprint()
  {
    m.Valid() && m.Value() == START
  }

  /** The radio and the driver of one link, in objects of their own. */
  method StartLink() returns (m: Machine)
    ensures fresh(m.Footprint()) && JustStarted(m)
  {
    m := new Machine();
  }

  method StartLinks(n: nat) returns (ms: seq<Machine>, ghost parts: set<object>)
    ensures |ms| == n && fresh(parts)
    ensures forall r | 0 <= r < n :: ms[r].Footprint() <= parts && JustStarted(ms[r])
    ensures forall q, r | 0 <= q < r < n :: ms[q].Footprint() !! ms[r].Footprint()
  {
    ms, parts := [], {};
    for i := 0 to n
      invariant |ms| == i && fresh(parts)
      invariant forall r | 0 <= r < i :: ms[r].Footprint() <= parts && JustStarted(ms[r])
      invariant forall q, r | 0 <= q < r < i :: ms[q].Footprint() !! ms[r].Footprint()
    {
      var m := StartLink();
      assert m.Footprint() !! parts;
      ms, parts := ms + [m], parts + m.Footprint();
    }
  }

  lemma PoweredUpIsSound(w: Wiring)
    requires w.Distinct()
    ensures NetSound(w, PoweredUp(w))
  {
    assert NetRun(w, []) == PoweredUp(w);
  }

  class Gateway {
    const bus: Bus
    const outputs: seq<nat>
    const machines: seq<Machine>

    ghost function Wired(): Wiring {
      Wiring(bus.pins.Length, outputs)
    }

    ghost function Parts(): set<object> {
      set r, o | 0 <= r < |machines| && o in machines[r].Footprint() :: o
    }

    /** No two links share an object, and none has one of the bus. */
    ghost predicate Apart() {
      && (forall q, r | 0 <= q < r < |machines| :: machines[q].Footprint() !! machines[r].Footprint())
      && forall r | 0 <= r < |machines| :: machines[r].Footprint() !! {bus, bus.pins}
    }

    ghost predicate PartsValid()
      reads Parts()
    {
      forall r | 0 <= r < |machines| :: machines[r].Valid()
    }

    ghost function Value(): Net
      requires PartsValid()
      reads bus, Parts()
    {
      Net(seq(|machines|, r requires 0 <= r < |machines| && PartsValid() reads Parts() => machines[r].Value()), bus.queue)
    }

    ghost predicate Valid()
      reads bus, Parts()
    {
      Apart() && PartsValid() && NetSound(Wired(), Value())
    }

    constructor (numPins: nat, outputs: seq<nat>)
      requires Wiring(numPins, outputs).Distinct()
      ensures Valid() && Wired() == Wiring(numPins, outputs) && Value() == PoweredUp(Wired())
    {
      var b := new Bus(numPins);
      var links, parts := StartLinks(|outputs|);
      bus, machines, this.outputs := b, links, outputs;
      new;
      PoweredUpIsSound(Wired());
      assert PartsValid();
      assert Value() == PoweredUp(Wired());
      assert Apart();
    }

    /** Radio `r` or its driver does something; the others and the bus stay as they were. */
    method DoAt(r: nat, action: Action) returns (submitted: bool)
      requires Apart() && PartsValid() && r < |machines| && Sound(machines[r].Value())
      modifies machines[r].Footprint()
      ensures PartsValid()
      ensures Value() == Net(old(Value()).radios[r := Step(old(machines[r].Value()), action)], old(bus.queue))
      ensures submitted <==> Step(old(machines[r].Value()), action).submitted > old(machines[r].Value()).submitted
    {
      var before := machines[r].Outstanding();
      machines[r].Do(action);
      submitted := machines[r].Outstanding() > before;
    }

    /** Anything but a transfer happens at radio `r`; if its driver claims the SPI, it submits a message. */
    method OnLocal(r: nat, action: Action)
      requires Valid() && r < |machines| && !action.Transfer?
      modifies bus, machines[r].Footprint()
      ensures Valid()
      ensures Value() == NetStep(Wired(), old(Value()), Local(r, action))
    {
      LocalKeepsSound(Wired(), Value(), r, action);
      assert Value().radios[r] == machines[r].Value();
      var submitted := DoAt(r, action);
      if submitted {
        Submit(r);
      }
    }

    /** The driver's message, with its own chip-select index, joins the queue. */
    method Submit(r: nat)
      requires Apart() && PartsValid() && r < |machines| && |outputs| == |machines|
      modifies bus
      ensures PartsValid()
      ensures Value() == old(Value()).(queue := old(bus.queue) + [Message(r, outputs[r])])
    {
      bus.SubmitAsync(r, outputs[r]);
    }

    /** The oldest message leaves the queue, and the pins are set from its index. */
    method Pop() returns (message: Message, output: nat)
      requires Apart() && PartsValid() && bus.queue != []
      modifies bus, bus.pins
      ensures PartsValid()
      ensures Value() == old(Value()).(queue := old(bus.queue)[1..])
      ensures message == old(bus.queue)[0]
      ensures output == Selected(bus.pins[..]) == message.state % Pow2(bus.pins.Length)
    {
      message, output := bus.TransferOne();
    }

    /** The bus carries out its oldest message with whatever radio the pins select. */
    method OnBusTransfer(late: bool) returns (owner: nat, target: nat)
      requires Valid() && Wired().Distinct() && bus.queue != []
      modifies bus, bus.pins, Parts()
      ensures Valid()
      ensures target == owner == old(bus.queue)[0].owner
      ensures outputs[target] == Selected(bus.pins[..])
      ensures Value() == NetStep(Wired(), old(Value()), BusTransfer(late))
    {
      ghost var before := Value();
      BusTransferKeepsSound(Wired(), before, late);
      TransferStaysHome(Wired(), before, late);
      var message, output := Pop();
      owner, target := message.owner, RadioAt(outputs, output);
      assert Value().radios[target] == machines[target].Value();
      var submitted := DoAt(target, Transfer(late));
    }
  }
}
