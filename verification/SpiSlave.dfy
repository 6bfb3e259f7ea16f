/**
 The firmware half of the link: the event queue feeding a one-frame SPI transmit buffer, with
 an interrupt pin that tells the host a frame is waiting.

 `Fw` is the firmware's state as a value and `Notify`, `Add` and `TransferDone` are its steps.
 The class `Coprocessor` runs the same steps on the buffers in place.
 */
module SpiSlave {
  import opened Bytes
  import opened EventQueue
  import opened Frame

  const CMD_SNIFF_ADVERTISEMENTS: byte := 2
  const RSP_ADVERTISEMENT: byte := 1

  datatype Fw = Fw(queue: seq<Event>, tx: seq<byte>, full: bool, pin: bool, sniffing: bool) {
    ghost predicate Shape() {
      |tx| == FIRMWARE_BUF && |queue| <= QUEUE_LEN && forall e | e in queue :: Fits(e)
    }

    /** Frames not yet handed over: the staged one, when it is marked full, then the queue. */
    ghost function Pending(): seq<Event>
      requires Good()
    {
      (if full then [Staged(tx)] else []) + queue
    }

    /** What every step keeps as long as no zero-length event is queued. */
    ghost predicate Good() {
      && Shape()
      && pin == full
      && (forall e | e in queue :: Proper(e))
      && (!full ==> queue == [])
      && (full ==> 2 <= tx[0] <= MAX_PAYLOAD + 1)
    }
  }

  const BOOTED := Fw([], Zeros(FIRMWARE_BUF), false, false, false)

  /** Moves the oldest event into the transmit buffer; a zero-length event vanishes instead. */
  ghost function Load(fw: Fw): (r: (Fw, bool))
    requires fw.Shape()
    ensures r.0.Shape()
  {
    if fw.queue == [] then (fw, false)
    else
      var e, rest := fw.queue[0], fw.queue[1..];
      assert e in fw.queue;
      if e.len == 0 then (fw.(queue := rest), false)
      else (fw.(queue := rest, tx := Overwrite(fw.tx, 0, Encode(e))), true)
  }

  ghost function Notify(fw: Fw): (r: Fw)
    requires fw.Shape()
    ensures r.Shape()
  {
    if fw.full then fw
    else
      var (next, loaded) := Load(fw);
      if loaded then next.(full := true, pin := true) else next
  }

  ghost function Add(fw: Fw, e: Event): (r: (Fw, bool))
    requires fw.Shape() && Fits(e)
    ensures r.0.Shape()
  {
    if |fw.queue| == QUEUE_LEN then (fw, false)
    else (Notify(fw.(queue := fw.queue + [e])), true)
  }

  /** An advertisement reaches the queue only once the host has asked for advertisements. */
  ghost function Advert(fw: Fw, e: Event): (r: (Fw, bool))
    requires fw.Shape() && Fits(e)
    ensures r.0.Shape()
  {
    if fw.sniffing then Add(fw, e) else (fw, false)
  }

  ghost function TransferDone(fw: Fw, command: byte): (r: Fw)
    requires fw.Shape()
    ensures r.Shape()
  {
    var (next, loaded) := Load(fw);
    next.(full := loaded, pin := loaded, sniffing := fw.sniffing || command == CMD_SNIFF_ADVERTISEMENTS)
  }

  /** Adding pushes onto a FIFO of capacity five: it is refused exactly when five frames wait. */
  lemma AddPushes(fw: Fw, e: Event)
    requires fw.Good() && Proper(e)
    ensures var (next, ok) := Add(fw, e);
            && next.Good()
            && ok == (|fw.Pending()| < 5)
            && next.Pending() == fw.Pending() + (if ok then [e] else [])
            && (fw.full || !ok ==> next.tx == fw.tx)
            && next.sniffing == fw.sniffing
  {
    if !fw.full {
      StagedOfEncode(fw.tx, e);
    }
  }

  /** A transfer pops that FIFO: exactly the staged frame goes, and with the pin low nothing does. */
  lemma TransferPops(fw: Fw, command: byte)
    requires fw.Good()
    ensures var next := TransferDone(fw, command);
            && next.Good()
            && next.Pending() == (if fw.Pending() == [] then [] else fw.Pending()[1..])
            && (fw.queue == [] ==> next.tx == fw.tx)
            && next.sniffing == (fw.sniffing || command == CMD_SNIFF_ADVERTISEMENTS)
  {
    if fw.queue != [] {
      assert fw.queue[0] in fw.queue;
      StagedOfEncode(fw.tx, fw.queue[0]);
    }
  }

  /** The staged frame really is the buffer's prefix, so it is what the host will clock in. */
  lemma StagedIsPrefix(fw: Fw)
    requires fw.Good() && fw.full
    ensures Proper(Staged(fw.tx)) && Encode(Staged(fw.tx)) <= fw.tx
  {
    var frame := Encode(Staged(fw.tx));
    assert fw.tx[..|frame|] == frame;
  }

  /**
   When a transfer strands the queue, leaving the pin low with an event still queued: exactly when
   the oldest queued event has length zero and another is behind it.
   */
  lemma QueueStrandedIff(fw: Fw, command: byte)
    requires fw.Shape()
    ensures var next := TransferDone(fw, command);
            !next.pin && next.queue != [] <==> |fw.queue| >= 2 && fw.queue[0].len == 0
  {
  }

  /** A run from boot into that case; the one caller passes at least eight bytes and never gets there. */
  lemma ZeroLengthEventStrandsQueue(first: Event, empty: Event, last: Event, command: byte)
    requires Proper(first) && Proper(last) && Fits(empty) && empty.len == 0
    ensures var fw := TransferDone(Add(Add(Add(BOOTED, first).0, empty).0, last).0, command);
            !fw.pin && !fw.full && fw.queue == [last]
  {
    var one := Add(BOOTED, first).0;
    assert one.queue == [] && one.full;
    var two := Add(one, empty).0;
    assert two.queue == [empty] && two.full;
    var three := Add(two, last).0;
    assert three.queue == [empty, last];
  }

  /**
   When it matters that an event comes between a transfer's bytes and its handler: the pending
   frames end up as if it had come afterwards if and only if a frame was waiting and the queue had
   room.  Added to an idle buffer the event is staged, but the handler no longer counts it as
   pending; its frame stays in the buffer only until another event is staged.
   */
  lemma AddBeforeHandlerHarmlessIff(fw: Fw, e: Event, command: byte)
    requires fw.Good() && Proper(e)
    ensures var raced := TransferDone(Add(fw, e).0, command);
            var ordered := Add(TransferDone(fw, command), e).0;
            && raced.Good() && ordered.Good()
            && (raced.Pending() == ordered.Pending() <==> fw.full && |fw.queue| < QUEUE_LEN)
            && (!fw.full ==> Add(fw, e).1 && raced.Pending() == [] && ordered.Pending() == [e])
  {
    AddPushes(fw, e);
    TransferPops(Add(fw, e).0, command);
    TransferPops(fw, command);
    AddPushes(TransferDone(fw, command), e);
    var rest := if fw.Pending() == [] then [] else fw.Pending()[1..];
    assert |rest + [e]| == |rest| + 1;
    if fw.full && |fw.queue| < QUEUE_LEN {
      assert (fw.Pending() + [e])[1..] == rest + [e];
    }
  }

  class Coprocessor {
    const queue: Queue
    const tx: array<byte>
    const rx: array<byte>
    var bufferFull: bool
    var pin: bool
    var sniffing: bool

    ghost predicate Valid()
      reads this, queue, queue.slots, tx, rx
    {
      && queue.Valid()
      && tx != rx && tx.Length == rx.Length == FIRMWARE_BUF
      && forall e | e in queue.Contents() :: Fits(e)
    }

    ghost function State(): (fw: Fw)
      requires Valid()
      reads this, queue, queue.slots, tx, rx
      ensures fw.Shape()
    {
      Fw(queue.Contents(), tx[..], bufferFull, pin, sniffing)
    }

    constructor ()
      ensures Valid() && State() == BOOTED
      ensures fresh(queue) && fresh(queue.slots) && fresh(tx) && fresh(rx)
    {
      queue := new Queue();
      tx := new byte[FIRMWARE_BUF](_ => 0);
      rx := new byte[FIRMWARE_BUF](_ => 0);
      bufferFull, pin, sniffing := false, false, false;
      new;
      assert tx[..] == Zeros(FIRMWARE_BUF);
    }

    /** The part the notification and the transfer handler have in common: get, then encode. */
    method StageNext() returns (loaded: bool)
      requires Valid()
      modifies queue, tx
      ensures Valid()
      ensures (State(), loaded) == Load(old(State()))
    {
      ghost var before := State();
      if before.queue != [] {
        assert before.queue[0] in before.queue;
      }
      var dataLen, kind := queue.Get(tx, 2);
      loaded := dataLen > 0;
      if loaded {
        tx[0] := dataLen + 1;
        tx[1] := kind;
      }
      if before.queue == [] {
        assert tx[..] == before.tx;
      } else if loaded {
        assert tx[..] == Overwrite(before.tx, 0, Encode(before.queue[0]));
      } else {
        assert before.queue[0].data == [];
        assert tx[..] == before.tx;
      }
    }

    /** `spi_slave_notify` */
    method NotifyAdded()
      requires Valid()
      modifies this, queue, tx
      ensures Valid()
      ensures State() == Notify(old(State()))
    {
      if !bufferFull {
        var loaded := StageNext();
        if loaded {
          bufferFull := true;
          pin := true;
        }
      }
    }

    /** `interrupt_event_queue_add`, with the notification it ends with. */
    method AddEvent(kind: byte, len: byte, data: seq<byte>) returns (ok: bool)
      requires Valid()
      requires len <= MAX_PAYLOAD && len <= |data|
      modifies this, queue, queue.slots, tx
      ensures Valid()
      ensures (State(), ok) == Add(old(State()), MakeEvent(kind, len, data))
    {
      ok := queue.Add(kind, len, data);
      if ok {
        NotifyAdded();
      }
    }

    /** The advertisement branch of `on_ble_evt`; `report` is the `dlen + 8` bytes handed on. */
    method OnAdvertisement(report: seq<byte>) returns (ok: bool)
      requires Valid()
      requires |report| <= MAX_PAYLOAD
      modifies this, queue, queue.slots, tx
      ensures Valid()
      ensures (State(), ok) == Advert(old(State()), Event(RSP_ADVERTISEMENT, |report|, report))
    {
      ok := false;
      assert report[..|report|] == report;
      if sniffing {
        ok := AddEvent(RSP_ADVERTISEMENT, |report|, report);
      }
    }

    /** `spi_slave_event_handle` for a finished transfer, which has left the command in `rx[0]`. */
    method OnTransferDone()
      requires Valid()
      modifies this, queue, tx
      ensures Valid()
      ensures State() == TransferDone(old(State()), rx[0])
    {
      if rx[0] == CMD_SNIFF_ADVERTISEMENTS {
        sniffing := true;
      }
      var loaded := StageNext();
      if loaded {
        pin := true;
        bufferFull := true;
      } else {
        bufferFull := false;
        pin := false;
      }
    }
  }
}
