/**
 The firmware's interrupt event queue: a four-slot ring buffer kept in fixed storage.

 `Contents()` is the abstract value, the queued events oldest first.  Every byte length
 0..255 is accepted as the firmware accepts it: at most 64 bytes are stored, while the
 length field keeps the number the caller gave.
 */
module EventQueue {
  import opened Bytes

  const QUEUE_LEN := 4
  const SLOT_BYTES := 64

  /** One queued event: `len` is the caller's length, `data` the bytes that were stored. */
  datatype Event = Event(kind: byte, len: byte, data: seq<byte>)

  function MakeEvent(kind: byte, len: byte, data: seq<byte>): Event
    requires Min(len, SLOT_BYTES) <= |data|
  {
    Event(kind, len, data[..Min(len, SLOT_BYTES)])
  }

  /** The C struct: a buffer that keeps stale bytes past the event it holds. */
  type SlotBuffer = b: seq<byte> | |b| == SLOT_BYTES witness Zeros(SLOT_BYTES)
  datatype Slot = Slot(buffer: SlotBuffer, len: byte, kind: byte) {
    ghost function Held(): Event {
      MakeEvent(kind, len, buffer)
    }
  }

  /** Filling a slot overwrites only the stored bytes; the rest of the buffer keeps what it held. */
  function Fill(slot: Slot, kind: byte, len: byte, data: seq<byte>): (filled: Slot)
    requires Min(len, SLOT_BYTES) <= |data|
    ensures filled.Held() == MakeEvent(kind, len, data)
  {
    var buffer := Overwrite(slot.buffer, 0, data[..Min(len, SLOT_BYTES)]);
    assert buffer[..Min(len, SLOT_BYTES)] == data[..Min(len, SLOT_BYTES)];
    Slot(buffer, len, kind)
  }

  /** The `n` events found by walking the ring from slot `at`. */
  ghost function Walk(slots: seq<Slot>, at: nat, n: nat): (events: seq<Event>)
    requires |slots| == QUEUE_LEN && at < QUEUE_LEN
    ensures |events| == n
    decreases n
  {
    if n == 0 then [] else [slots[at].Held()] + Walk(slots, Wrap(at + 1), n - 1)
  }

  /** Ring positions: `x % QUEUE_LEN` for every sum of a slot and a count of items. */
  function Wrap(x: nat): (k: nat)
    requires x < 2 * QUEUE_LEN
    ensures k < QUEUE_LEN
  {
    if x < QUEUE_LEN then x else x - QUEUE_LEN
  }

  lemma WrapIsModulus(x: nat)
    requires x < 2 * QUEUE_LEN
    ensures Wrap(x) == x % QUEUE_LEN
  {
  }

  /** Writing the slot after a walk of fewer than four events appends to what the walk finds. */
  lemma {:induction false} WalkAppends(slots: seq<Slot>, at: nat, n: nat, slot: Slot)
    requires |slots| == QUEUE_LEN && at < QUEUE_LEN && n < QUEUE_LEN
    ensures var k := Wrap(at + n);
            Walk(slots[k := slot], at, n + 1) == Walk(slots, at, n) + [slot.Held()]
    decreases n
  {
    var written := slots[Wrap(at + n) := slot];
    if n > 0 {
      var next := Wrap(at + 1);
      assert Wrap(next + n - 1) == Wrap(at + n) != at;
      WalkAppends(slots, next, n - 1, slot);
      calc {
        Walk(written, at, n + 1);
        [slots[at].Held()] + Walk(written, next, n);
        [slots[at].Held()] + (Walk(slots, next, n - 1) + [slot.Held()]);
        Walk(slots, at, n) + [slot.Held()];
      }
    }
  }

  class Queue {
    const slots: array<Slot>
    var head: nat
    var tail: nat
    var items: nat

    ghost predicate Valid()
      reads this, slots
    {
      && slots.Length == QUEUE_LEN
      && head < QUEUE_LEN && tail < QUEUE_LEN && items <= QUEUE_LEN
      && head == Wrap(tail + items)
    }

    ghost function Contents(): seq<Event>
      requires Valid()
      reads this, slots
    {
      Walk(slots[..], tail, items)
    }

    constructor ()
      ensures Valid() && fresh(slots)
      ensures Contents() == []
    {
      slots := new Slot[QUEUE_LEN](_ => Slot(Zeros(SLOT_BYTES), 0, 0));
      head, tail, items := 0, 0, 0;
    }

    /** `interrupt_event_queue_add` up to its closing call to `spi_slave_notify`. */
    method Add(kind: byte, len: byte, data: seq<byte>) returns (ok: bool)
      requires Valid()
      requires Min(len, SLOT_BYTES) <= |data|
      modifies this, slots
      ensures Valid()
      ensures ok == (|old(Contents())| < 4)
      ensures ok ==> Contents() == old(Contents()) + [Event(kind, len, data[..Min(len, 64)])]
      ensures !ok ==> Contents() == old(Contents())
    {
      ok := items < QUEUE_LEN;
      if !ok {
        return;
      }
      var slot := Fill(slots[head], kind, len, data);
      ghost var before := slots[..];
      WrapIsModulus(head + 1);
      WalkAppends(before, tail, items, slot);
      slots[head] := slot;
      assert slots[..] == before[head := slot];
      items := items + 1;
      head := (head + 1) % QUEUE_LEN;
      ok := true;
    }

    /**
     `interrupt_event_queue_get`: removes the oldest event and copies its bytes to `dst[at..]`.
     A returned length of 0 means that nothing was queued, or that a zero-length event was.
     */
    method Get(dst: array<byte>, at: nat) returns (len: byte, kind: byte)
      requires Valid()
      requires Contents() != [] ==> at + |Contents()[0].data| <= dst.Length
      modifies this, dst
      ensures Valid()
      ensures old(Contents()) == [] ==> len == 0 && Contents() == [] && dst[..] == old(dst[..])
      ensures old(Contents()) != [] ==>
                var e := old(Contents())[0];
                && len == e.len && kind == e.kind
                && Contents() == old(Contents())[1..]
                && dst[..] == Overwrite(old(dst[..]), at, e.data)
    {
      if items == 0 {
        return 0, 0;
      }
      var slot := slots[tail];
      assert slot.Held() == Contents()[0];
      len, kind := slot.len, slot.kind;
      var n := Min(slot.len, SLOT_BYTES);
      forall i | 0 <= i < n {
        dst[at + i] := slot.buffer[i];
      }
      assert slots[..] == old(slots[..]);
      items := items - 1;
      WrapIsModulus(tail + 1);
      tail := (tail + 1) % QUEUE_LEN;
    }
  }
}
