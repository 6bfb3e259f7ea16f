/**
 One SPI bus, several radios: every message carries the chip-select index of its radio, and
 the demultiplexer's control pins are set from it just before the message goes out.
 */
module GapSpi {
  import opened Arithmetic

  /** `id & (1 << i)`, for the two's complement bits of any `id`. */
  function BitSet(id: int, i: nat): bool {
    id / Pow2(i) % 2 == 1
  }

  /** The output a demultiplexer selects: its control pins read as a binary number. */
  function Selected(pins: seq<bool>): nat {
    if pins == [] then 0 else (if pins[0] then 1 else 0) + 2 * Selected(pins[1..])
  }

  /** Pins set from the bits of `id` select output `id mod 2^n`. */
  lemma {:induction false} BitsSelect(pins: seq<bool>, id: int)
    requires forall i | 0 <= i < |pins| :: pins[i] == BitSet(id, i)
    ensures Selected(pins) == id % Pow2(|pins|)
  {
    if pins != [] {
      forall i | 0 <= i < |pins| - 1 ensures pins[1..][i] == BitSet(id / 2, i) {
        assert pins[1..][i] == pins[i + 1] == BitSet(id, i + 1);
        HalveThenDivide(id, Pow2(i));
      }
      BitsSelect(pins[1..], id / 2);
      HalveThenDivide(id, Pow2(|pins| - 1));
      assert Pow2(0) == 1 && BitSet(id, 0) == (id % 2 == 1);
    }
  }

  datatype Message = Message(owner: nat, state: int)

  /** The bus with its demultiplexer and the messages the SPI core has queued. */
  class Bus {
    const pins: array<bool>
    var queue: seq<Message>

    constructor (numPins: nat)
      ensures fresh(pins) && pins.Length == numPins && queue == []
    {
      pins := new bool[numPins](_ => false);
      queue := [];
    }

    /** `gapspi_cs_mux` */
    method SetMux(id: int)
      modifies pins
      ensures Selected(pins[..]) == id % Pow2(pins.Length)
    {
      for i := 0 to pins.Length
        invariant forall k | 0 <= k < i :: pins[k] == BitSet(id, k)
      {
        pins[i] := BitSet(id, i);
      }
      BitsSelect(pins[..], id);
    }

    /** `gap_spi_async`: the device index is saved in the message before it is queued. */
    method SubmitAsync(owner: nat, deviceId: int)
      modifies this
      ensures queue == old(queue) + [Message(owner, deviceId)]
    {
      queue := queue + [Message(owner, deviceId)];
    }

    /** `our_transfer_one_message`: the oldest message goes to the output its own index selects. */
    method TransferOne() returns (message: Message, output: nat)
      requires queue != []
      modifies this, pins
      ensures message == old(queue)[0] && queue == old(queue)[1..]
      ensures output == Selected(pins[..]) == message.state % Pow2(pins.Length)
    {
      message := queue[0];
      queue := queue[1..];
      SetMux(message.state);
      output := Selected(pins[..]);
    }
  }

  /** An index reaches the output of the same number exactly when the pins can express it. */
  lemma OwnOutputIff(id: int, n: nat)
    ensures id % Pow2(n) == id <==> 0 <= id < Pow2(n)
  {
    if 0 <= id < Pow2(n) {
      QuotientUnique(id, Pow2(n), 0, id);
    }
  }
}
