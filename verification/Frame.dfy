/**
 The frame that carries one event over SPI, from both ends: the firmware writes it into its
 transmit buffer, 40 bytes of that buffer cross the bus, and the host driver cuts the frame
 out of its receive buffer by the length byte.
 */
module Frame {
  import opened Bytes
  import opened EventQueue

  const FIRMWARE_BUF := 64
  const HOST_BUF := 128
  const USER_BUF := 256
  const TRANSFER_LEN := 40
  const MAX_PAYLOAD := 62

  /** Events whose stored bytes are all of the payload and fit behind the two header bytes. */
  ghost predicate Fits(e: Event) {
    e.len <= MAX_PAYLOAD && |e.data| == e.len
  }

  /** An event as the radio produces it: it fits, and it is not empty. */
  ghost predicate Proper(e: Event) {
    Fits(e) && e.len >= 1
  }

  /** Length byte (counting the type byte), type byte, payload. */
  function Encode(e: Event): seq<byte>
    requires Fits(e)
  {
    [e.len + 1, e.kind] + e.data
  }

  /** The event the firmware's transmit buffer holds, read back by its own length byte. */
  ghost function Staged(tx: seq<byte>): Event
    requires |tx| == FIRMWARE_BUF && 2 <= tx[0] <= MAX_PAYLOAD + 1
  {
    Event(tx[1], tx[0] - 1, tx[2..tx[0] + 1])
  }

  /**
   The bytes the host clocks in.  When the radio is clocked too soon after chip select, a
   spurious zero byte comes first and everything else arrives one byte late.
   */
  function OnTheWire(tx: seq<byte>, late: bool): (miso: seq<byte>)
    requires |tx| == FIRMWARE_BUF
    ensures |miso| == TRANSFER_LEN
  {
    if late then [0] + tx[..TRANSFER_LEN - 1] else tx[..TRANSFER_LEN]
  }

  predicate Invalid(rx: seq<byte>)
    requires |rx| >= 2
  {
    rx[0] == 0 && rx[1] == 0
  }

  /** The number of bytes the driver copies to the user buffer. */
  function CopyLen(rx: seq<byte>): nat
    requires |rx| >= 2
  {
    var length: nat := if rx[0] == 0 then rx[1] else rx[0];
    length + 1
  }

  function Decode(rx: seq<byte>): seq<byte>
    requires |rx| >= 2 && CopyLen(rx) <= |rx|
  {
    rx[..CopyLen(rx)]
  }

  /** The host's receive buffer after a transfer: bytes from 40 on have never been written. */
  function Received(miso: seq<byte>): (rx: seq<byte>)
    requires |miso| == TRANSFER_LEN
    ensures |rx| == HOST_BUF
  {
    miso + Zeros(HOST_BUF - TRANSFER_LEN)
  }

  /** What a user gets for event `e`: the frame, or the frame pushed one byte right by a zero. */
  ghost function Shifted(e: Event, late: bool): (f: seq<byte>)
    requires Fits(e)
    ensures |f| == e.len + 2
  {
    var frame := Encode(e);
    if late then [0] + frame[..|frame| - 1] else frame
  }

  /** ... of which only the first 40 bytes can have crossed the bus; the rest reads as zero. */
  ghost function View(e: Event, late: bool): (f: seq<byte>)
    requires Fits(e)
    ensures |f| == e.len + 2
  {
    var f := Shifted(e, late);
    var n := Min(|f|, TRANSFER_LEN);
    f[..n] + Zeros(|f| - n)
  }

  /** Whatever stale bytes lie behind the frame, the host decodes the view of the staged event. */
  lemma DecodeOfStaged(tx: seq<byte>, e: Event, late: bool)
    requires |tx| == FIRMWARE_BUF && Proper(e)
    requires Encode(e) <= tx
    ensures var rx := Received(OnTheWire(tx, late));
            !Invalid(rx) && CopyLen(rx) == e.len + 2 && Decode(rx) == View(e, late)
  {
    var rx := Received(OnTheWire(tx, late));
    var frame := Encode(e);
    assert frame[0] == tx[0] && frame[1] == tx[1];
    assert rx[0] == if late then 0 else tx[0];
    assert late ==> rx[1] == tx[0];
    var n := Min(|frame|, TRANSFER_LEN);
    assert |frame| == e.len + 2 == CopyLen(rx);
    forall i | 0 <= i < |frame|
      ensures rx[i] == View(e, late)[i]
    {
      assert forall k | 0 <= k < |frame| :: frame[k] == tx[k];
    }
  }

  /** A buffer that was never staged decodes to nothing, late or not. */
  lemma NothingStagedIsInvalid(late: bool)
    ensures Invalid(Received(OnTheWire(Zeros(FIRMWARE_BUF), late)))
  {
  }

  /** Staging a frame makes it the buffer's prefix and reads back as the same event. */
  lemma StagedOfEncode(tx: seq<byte>, e: Event)
    requires |tx| == FIRMWARE_BUF && Proper(e)
    ensures var staged := Overwrite(tx, 0, Encode(e));
            && Encode(e) <= staged
            && 2 <= staged[0] <= MAX_PAYLOAD + 1
            && Staged(staged) == e
  {
    var staged := Overwrite(tx, 0, Encode(e));
    assert staged[..|Encode(e)|] == Encode(e);
    assert staged[2..e.len + 2] == e.data;
  }

  /**
   The frame survives the trip exactly when the transfer was not late and no byte of the frame
   lies beyond the 40 that are transferred, or the ones that do are zero anyway.
   */
  lemma ViewIsFrameIff(e: Event, late: bool)
    requires Fits(e)
    ensures View(e, late) == Encode(e) <==>
              !late && forall i | TRANSFER_LEN - 2 <= i < |e.data| :: e.data[i] == 0
  {
    var frame, view := Encode(e), View(e, late);
    if late {
      assert view[0] == 0 && frame[0] == e.len + 1;
    } else if forall i | TRANSFER_LEN - 2 <= i < |e.data| :: e.data[i] == 0 {
      assert forall k | TRANSFER_LEN <= k < |frame| :: frame[k] == e.data[k - 2];
    } else {
      var i :| TRANSFER_LEN - 2 <= i < |e.data| && e.data[i] != 0;
      assert frame[i + 2] == e.data[i] && view[i + 2] == 0;
    }
  }

  /** Up to 38 payload bytes arrive whole; of 39 the last is lost and reads as zero. */
  lemma ViewOfPayload(e: Event)
    requires Fits(e)
    ensures e.len <= 38 ==> View(e, false) == [e.len + 1, e.kind] + e.data
    ensures e.len <= 38 ==> View(e, true) == [0] + ([e.len + 1, e.kind] + e.data)[..e.len + 1]
    ensures e.len == 39 ==> View(e, false) == [40, e.kind] + e.data[..38] + [0]
  {
    if e.len <= 38 {
      ViewIsFrameIff(e, false);
      assert View(e, true) == Shifted(e, true);
    } else if e.len == 39 {
      assert Encode(e)[..TRANSFER_LEN] == [40, e.kind] + e.data[..38];
    }
  }
}
