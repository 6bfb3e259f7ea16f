/**
 The scanner for advertising data: a sequence of structures, each a length byte, a type byte and
 length - 1 bytes of data (Bluetooth Core Specification, Volume 3, Part C, section 11), which a
 device may follow with zero padding.
 */
module AdvReport {
  import opened Bytes

  const UINT16_RANGE := 65536

  /** The located field: where its data starts, and the 16-bit length reported for it. */
  datatype Outcome = NotFound | Found(start: nat, len: nat)

  /**
   Scanning from `at`.  The type byte is read even when the length byte is the last one of the
   report, so one byte behind the `n` bytes of the report has to be readable.
   */
  ghost function Scan(mem: seq<byte>, n: nat, wanted: byte, at: nat): Outcome
    requires n < |mem|
    decreases n - at
  {
    if at >= n then NotFound
    else if mem[at + 1] == wanted then Found(at + 2, (mem[at] - 1) % UINT16_RANGE)
    else Scan(mem, n, wanted, at + mem[at] + 1)
  }

  /** `adv_report_parse` */
  method Parse(wanted: byte, data: array<byte>, dataLen: nat) returns (r: Outcome)
    requires dataLen < data.Length
    ensures r == Scan(data[..], dataLen, wanted, 0)
  {
    var index := 0;
    while index < dataLen
      invariant Scan(data[..], dataLen, wanted, index) == Scan(data[..], dataLen, wanted, 0)
      decreases dataLen - index
    {
      var fieldLength, fieldType := data[index], data[index + 1];
      if fieldType == wanted {
        return Found(index + 2, (fieldLength - 1) % UINT16_RANGE);
      }
      index := index + fieldLength + 1;
    }
    return NotFound;
  }

  /** An advertising structure; its length byte counts the type byte. */
  datatype RawStructure = Structure(kind: byte, data: seq<byte>)
  type Structure = s: RawStructure | |s.data| <= 254 witness RawStructure.Structure(0, [])

  function EncodeOne(s: Structure): seq<byte> {
    [|s.data| + 1, s.kind] + s.data
  }

  function Encode(list: seq<Structure>): seq<byte> {
    if list == [] then [] else EncodeOne(list[0]) + Encode(list[1..])
  }

  ghost predicate IsFirstOfKind(list: seq<Structure>, wanted: byte, i: nat) {
    i < |list| && list[i].kind == wanted && forall k | 0 <= k < i :: list[k].kind != wanted
  }

  ghost predicate HasKind(list: seq<Structure>, wanted: byte) {
    exists i :: 0 <= i < |list| && list[i].kind == wanted
  }

  /** The field `r` names holds exactly the bytes `data`. */
  ghost predicate Locates(mem: seq<byte>, r: Outcome, data: seq<byte>) {
    r.Found? && r.len == |data| && r.start + r.len <= |mem| && mem[r.start..r.start + r.len] == data
  }

  /** Over padding the scan goes byte by byte, and its last step looks behind the report. */
  lemma {:induction false} ScanPadding(mem: seq<byte>, n: nat, wanted: byte, at: nat)
    requires at <= n < |mem| && wanted != 0
    requires forall k | at <= k < n :: mem[k] == 0
    ensures Scan(mem, n, wanted, at) ==
              if at < n && mem[n] == wanted then Found(n + 1, UINT16_RANGE - 1) else NotFound
    decreases n - at
  {
    if at + 1 < n {
      ScanPadding(mem, n, wanted, at + 1);
    }
  }

  /** From `at` on, memory holds the encoding of these structures. */
  ghost predicate Holds(mem: seq<byte>, at: nat, list: seq<Structure>) {
    at + |Encode(list)| <= |mem| && mem[at..at + |Encode(list)|] == Encode(list)
  }

  lemma SplitSlice(mem: seq<byte>, at: nat, a: seq<byte>, b: seq<byte>)
    requires at + |a| + |b| <= |mem| && mem[at..at + |a| + |b|] == a + b
    ensures mem[at..at + |a|] == a
    ensures mem[at + |a|..at + |a| + |b|] == b
  {
    var slice := mem[at..at + |a| + |b|];
    assert slice[..|a|] == a && slice[|a|..] == b;
    assert mem[at..at + |a|] == slice[..|a|];
    assert mem[at + |a|..at + |a| + |b|] == slice[|a|..];
  }

  lemma HoldsHead(mem: seq<byte>, at: nat, list: seq<Structure>)
    requires list != [] && Holds(mem, at, list)
    ensures var next := at + |list[0].data| + 2;
            && |Encode(list)| == |list[0].data| + 2 + |Encode(list[1..])|
            && mem[at] == |list[0].data| + 1 && mem[at + 1] == list[0].kind
            && mem[at + 2..next] == list[0].data
            && Holds(mem, next, list[1..])
  {
    var header, data := [|list[0].data| + 1, list[0].kind], list[0].data;
    SplitSlice(mem, at, header + data, Encode(list[1..]));
    SplitSlice(mem, at, header, data);
    assert mem[at..at + 2][0] == mem[at] && mem[at..at + 2][1] == mem[at + 1];
  }

  lemma {:induction false} ScanPasses(mem: seq<byte>, n: nat, wanted: byte, at: nat, list: seq<Structure>)
    requires n < |mem| && Holds(mem, at, list) && at + |Encode(list)| <= n
    requires !HasKind(list, wanted)
    ensures Scan(mem, n, wanted, at) == Scan(mem, n, wanted, at + |Encode(list)|)
    decreases |list|
  {
    if list != [] {
      HoldsHead(mem, at, list);
      assert list[0].kind != wanted;
      forall i | 0 <= i < |list[1..]| ensures list[1..][i].kind != wanted {
        assert list[i + 1].kind != wanted;
      }
      ScanPasses(mem, n, wanted, at + |list[0].data| + 2, list[1..]);
    }
  }

  lemma {:induction false} ScanReaches(
      mem: seq<byte>, n: nat, wanted: byte, at: nat, list: seq<Structure>, i: nat)
    requires n < |mem| && Holds(mem, at, list) && at + |Encode(list)| <= n
    requires IsFirstOfKind(list, wanted, i)
    ensures Locates(mem, Scan(mem, n, wanted, at), list[i].data)
    decreases |list|
  {
    HoldsHead(mem, at, list);
    if i > 0 {
      assert list[0].kind != wanted;
      ScanReaches(mem, n, wanted, at + |list[0].data| + 2, list[1..], i - 1);
    }
  }

  /**
   Scanning the encoding of any list of structures, padded or not, finds the exact data of the
   first one of the wanted type.
   */
  lemma ScanFindsFirst(list: seq<Structure>, pad: nat, behind: seq<byte>, wanted: byte, i: nat)
    requires wanted != 0 && behind != [] && IsFirstOfKind(list, wanted, i)
    ensures var report := Encode(list) + Zeros(pad);
            Locates(report + behind, Scan(report + behind, |report|, wanted, 0), list[i].data)
  {
    var report := Encode(list) + Zeros(pad);
    var mem := report + behind;
    assert mem[0..0 + |Encode(list)|] == Encode(list);
    ScanReaches(mem, |report|, wanted, 0, list, i);
  }

  /**
   And when no structure has the wanted type the scan says so, except in one case: the report is
   padded and the byte behind it, which is not part of it, happens to equal the wanted type.
   */
  lemma ScanMissesIff(list: seq<Structure>, pad: nat, behind: seq<byte>, wanted: byte)
    requires wanted != 0 && behind != [] && !HasKind(list, wanted)
    ensures var report := Encode(list) + Zeros(pad);
            Scan(report + behind, |report|, wanted, 0) == NotFound <==> pad == 0 || behind[0] != wanted
  {
    var report := Encode(list) + Zeros(pad);
    var mem := report + behind;
    assert mem[0..0 + |Encode(list)|] == Encode(list);
    ScanPasses(mem, |report|, wanted, 0, list);
    ScanPadding(mem, |report|, wanted, |Encode(list)|);
  }

  /** The structure at `at` has a type byte and ends inside the report. */
  ghost predicate Complete(mem: seq<byte>, n: nat, at: nat)
    requires at < n < |mem|
  {
    mem[at] != 0 && at + mem[at] + 1 <= n
  }

  ghost predicate Inside(r: Outcome, n: nat) {
    r.Found? ==> r.start + r.len <= n
  }

  /**
   Following the length bytes from `at`, every structure that is the first of its type is complete,
   the types in `seen` having come up before.
   */
  ghost predicate FirstsComplete(mem: seq<byte>, n: nat, at: nat, seen: set<byte>)
    requires n < |mem|
    decreases n - at
  {
    at >= n
    || ((mem[at + 1] in seen || Complete(mem, n, at))
        && FirstsComplete(mem, n, at + mem[at] + 1, seen + {mem[at + 1]}))
  }

  /** Whatever type is looked for that has not come up before, the scan stays inside the report. */
  ghost predicate AllInside(mem: seq<byte>, n: nat, at: nat, seen: set<byte>)
    requires n < |mem|
  {
    forall wanted: byte | wanted !in seen :: Inside(Scan(mem, n, wanted, at), n)
  }

  /**
   The length is the length byte's, whatever the report's own length, so the field is inside the
   report exactly if its structure is.
   */
  lemma {:induction false} LocatedInsideIff(mem: seq<byte>, n: nat, wanted: byte, at: nat)
    requires n < |mem| && n < UINT16_RANGE
    ensures var r := Scan(mem, n, wanted, at);
            r.Found? ==>
              && at + 2 <= r.start <= n + 1
              && mem[r.start - 1] == wanted
              && r.len == (if mem[r.start - 2] == 0 then 65535 else mem[r.start - 2] - 1)
              && (Inside(r, n) <==> Complete(mem, n, r.start - 2))
    decreases n - at
  {
    if at < n && mem[at + 1] != wanted {
      LocatedInsideIff(mem, n, wanted, at + mem[at] + 1);
    }
  }

  lemma HereOrLater(mem: seq<byte>, n: nat, at: nat, seen: set<byte>)
    requires n < |mem| && n < UINT16_RANGE && at < n
    ensures var kind, next := mem[at + 1], at + mem[at] + 1;
            AllInside(mem, n, at, seen) <==>
              (kind in seen || Complete(mem, n, at)) && AllInside(mem, n, next, seen + {kind})
  {
    var kind, next := mem[at + 1], at + mem[at] + 1;
    LocatedInsideIff(mem, n, kind, at);
    assert Inside(Scan(mem, n, kind, at), n) <==> Complete(mem, n, at);
    forall wanted: byte | wanted != kind
      ensures Inside(Scan(mem, n, wanted, at), n) == Inside(Scan(mem, n, wanted, next), n)
    {
    }
  }

  /**
   For a report of arbitrary bytes: every located field stays inside the report if and only if each
   structure the scan can stop at is complete.
   */
  lemma {:induction false} FieldsInsideIff(mem: seq<byte>, n: nat, at: nat, seen: set<byte>)
    requires n < |mem| && n < UINT16_RANGE
    ensures AllInside(mem, n, at, seen) <==> FirstsComplete(mem, n, at, seen)
    decreases n - at
  {
    if at < n {
      var kind, next := mem[at + 1], at + mem[at] + 1;
      FieldsInsideIff(mem, n, next, seen + {kind});
      HereOrLater(mem, n, at, seen);
    }
  }
}
