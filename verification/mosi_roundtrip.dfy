/**
 * What the single-line decoder recovers from a well-behaved capture. The host issues a series of
 * instructions. A Read Data / Fast Read is the opcode, a 24-bit big-endian address, one dummy byte
 * for Fast Read, and then the samples on MOSI while the flash returns data; any other catalogued
 * instruction is its opcode, the rest of its fixed frame and, if it returns data, the samples
 * during that data; a byte that is no catalogued opcode stands alone. When no data sample after
 * the first happens to look like a catalogued opcode, the decoder finds every read, with its
 * address, its data length, and timing measured the way the decoder measures it, and nothing for
 * the other instructions.
 */
module MosiRoundTrip {
  import opened Wrappers
  import opened Classifier
  import opened Instructions
  import opened Captures
  import opened Accesses
  import opened MosiDecoder
  import opened Framing

  /** One instruction on MOSI with the samples that follow it up to the next one. */
  datatype Instr =
    | Read(fast: bool, address: nat, data: seq<int>)
    | Other(op: int, frame: seq<int>, data: seq<int>)
    | Invalid(value: int)

  /** Returned data the heuristic can delimit: at least one sample, and none after the first is a
      catalogued opcode (the first is never inspected). */
  predicate Delimitable(data: seq<int>) {
    |data| >= 1 && forall i | 1 <= i < |data| :: !IsOpcode(data[i])
  }

  /** A read has a 24-bit address and delimitable data; another instruction is catalogued, is not a
      single-line read, fills its frame, and has delimitable data exactly when it returns data; an
      invalid byte is no catalogued opcode. */
  predicate WellFormed(r: Instr) {
    match r
    case Read(_, address, data) => address < 0x100_0000 && Delimitable(data)
    case Other(op, frame, data) =>
      && IsOpcode(op) && !IsSpiRead(op) && |frame| + 1 == FrameSize(op)
      && (if ExpectsData(op) then Delimitable(data) else data == [])
    case Invalid(value) => !IsOpcode(value)
  }

  /** The decoder counts data after this instruction. */
  predicate HasData(r: Instr) {
    r.Read? || (r.Other? && r.data != [])
  }

  /** Well-formed instructions, and no data followed by an invalid byte (the data count would run
      on into it). */
  predicate AllWellFormed(rs: seq<Instr>) {
    && (forall k | 0 <= k < |rs| :: WellFormed(rs[k]))
    && (forall k | 0 <= k < |rs| :: FollowedByOpcode(rs, k))
  }

  /** When the `k`-th instruction has data, the next one (if any) starts with an opcode. */
  predicate FollowedByOpcode(rs: seq<Instr>, k: nat)
    requires k < |rs|
  {
    HasData(rs[k]) && k + 1 < |rs| ==> !rs[k + 1].Invalid?
  }

  function Opcode(r: Instr): int
    requires r.Read?
  {
    if r.fast then FastRead else ReadData
  }

  /** The MOSI samples of one instruction: its first sample, the rest of its frame, its data. */
  function Encode(r: Instr): (e: seq<int>)
    ensures |e| == Size(r)
  {
    [Head(r)] + Middle(r) + Payload(r)
  }

  function Head(r: Instr): int {
    match r
    case Read(_, _, _) => Opcode(r)
    case Other(op, _, _) => op
    case Invalid(value) => value
  }

  /** The frame after the opcode: a read's address bytes and Fast Read's dummy byte, or the rest of
      another instruction's frame. */
  function Middle(r: Instr): (m: seq<int>)
    ensures |m| == Size(r) - 1 - |Payload(r)|
  {
    match r
    case Read(fast, address, _) => BytesOf(address, 3) + (if fast then [0] else [])
    case Other(_, frame, _) => frame
    case Invalid(_) => []
  }

  function Payload(r: Instr): seq<int> {
    if r.Invalid? then [] else r.data
  }

  /** How many samples an instruction takes. */
  function Size(r: Instr): (n: nat)
    ensures n >= 1
  {
    match r
    case Read(fast, _, data) => (if fast then 5 else 4) + |data|
    case Other(_, frame, data) => 1 + |frame| + |data|
    case Invalid(_) => 1
  }

  /** Where the decoder finds the parts of an encoded read. */
  lemma EncodeShape(r: Instr)
    requires r.Read?
    ensures IsSpiRead(Opcode(r))
    ensures |Encode(r)| == ReadFrame(Opcode(r)) + |r.data|
    ensures Encode(r)[0] == Opcode(r)
    ensures Encode(r)[1..4] == BytesOf(r.address, 3)
    ensures Encode(r)[ReadFrame(Opcode(r))..] == r.data
  {
    var e := Encode(r);
    var head := [Opcode(r)] + Middle(r);
    assert e == head + r.data;
    assert e[1..4] == head[1..4];
  }

  /** Where the decoder finds the parts of another encoded instruction. */
  lemma OtherShape(r: Instr)
    requires r.Other? && WellFormed(r)
    ensures |Encode(r)| == FrameSize(r.op) + |r.data|
    ensures Encode(r)[0] == r.op
    ensures Encode(r)[FrameSize(r.op)..] == r.data
  {
    assert Encode(r) == ([r.op] + r.frame) + r.data;
  }

  /** The first sample of a well-formed instruction is a catalogued opcode unless the instruction
      is an invalid byte. */
  lemma FirstSample(r: Instr)
    requires WellFormed(r)
    ensures Encode(r)[0] == Head(r)
    ensures IsOpcode(Head(r)) <==> !r.Invalid?
  {
    if r.Read? {
      ReadFrameCatalogued(Opcode(r));
    }
  }

  /** The MOSI samples of a series of instructions, back to back. */
  function EncodeAll(rs: seq<Instr>): (e: seq<int>)
    ensures |e| == Position(rs, |rs|)
  {
    PositionIsOffset(rs, |rs|);
    Concat(Frames(rs, Encode))
  }

  /** Where the `k`-th instruction starts in the encoding. */
  function Position(rs: seq<Instr>, k: nat): nat
    requires k <= |rs|
  {
    if k == 0 then 0 else Position(rs, k - 1) + Size(rs[k - 1])
  }

  lemma {:induction false} PositionIsOffset(rs: seq<Instr>, k: nat)
    requires k <= |rs|
    ensures Position(rs, k) == Offset(Frames(rs, Encode), k)
  {
    if k > 0 {
      PositionIsOffset(rs, k - 1);
    }
  }

  /** Instructions start in order, each after the whole of the one before. */
  lemma {:induction false} PositionsGrow(rs: seq<Instr>, j: nat, k: nat)
    requires j < k <= |rs|
    ensures Position(rs, j) + Size(rs[j]) <= Position(rs, k)
  {
    if j + 1 < k {
      PositionsGrow(rs, j, k - 1);
    }
  }

  /** `e` holds the encodings of the instructions one after another, each at its position. */
  predicate Laid(rs: seq<Instr>, e: seq<int>) {
    |e| == Position(rs, |rs|) && forall k | 0 <= k < |rs| :: LaidAt(rs, e, k)
  }

  /** `e` holds the encoding of the `k`-th instruction at its position. */
  predicate LaidAt(rs: seq<Instr>, e: seq<int>, k: nat)
    requires k < |rs|
  {
    Position(rs, k) + Size(rs[k]) <= |e| && e[Position(rs, k) .. Position(rs, k) + Size(rs[k])] == Encode(rs[k])
  }

  /** The concatenated encodings are laid out at the instructions' positions. */
  lemma EncodeAllLaid(rs: seq<Instr>)
    ensures Laid(rs, EncodeAll(rs))
  {
    forall k | 0 <= k < |rs|
      ensures LaidAt(rs, EncodeAll(rs), k)
    {
      EncodeAllLaidAt(rs, k);
    }
  }

  lemma EncodeAllLaidAt(rs: seq<Instr>, k: nat)
    requires k < |rs|
    ensures LaidAt(rs, EncodeAll(rs), k)
  {
    var f := Frames(rs, Encode);
    PositionIsOffset(rs, k);
    PositionIsOffset(rs, k + 1);
    FrameInPlace(f, k);
    assert Concat(f)[Offset(f, k) .. Offset(f, k + 1)] == f[k] == Encode(rs[k]);
  }

  /** After an instruction with data comes the next instruction's opcode, or the end of the capture. */
  lemma NextOpcode(rs: seq<Instr>, e: seq<int>, k: nat)
    requires AllWellFormed(rs) && Laid(rs, e) && k < |rs|
    ensures Position(rs, k + 1) <= |e|
    ensures HasData(rs[k]) ==> Position(rs, k + 1) == |e| || IsOpcode(e[Position(rs, k + 1)])
  {
    PositionsGrow(rs, k, |rs|);
    assert FollowedByOpcode(rs, k);
    if k + 1 < |rs| && HasData(rs[k]) {
      var q := Position(rs, k + 1);
      assert LaidAt(rs, e, k + 1);
      FirstSample(rs[k + 1]);
      assert e[q] == e[q .. q + Size(rs[k + 1])][0];
    }
  }

  /** The heuristic counts exactly the data samples that follow a frame of `f` samples at `p`. */
  lemma CountsData(e: seq<int>, p: nat, f: nat, data: seq<int>)
    requires Delimitable(data)
    requires p + f + |data| <= |e| && e[p + f .. p + f + |data|] == data
    requires p + f + |data| == |e| || IsOpcode(e[p + f + |data|])
    ensures CountDataBytes(p + f, e) == |data|
  {
    forall i | p + f < i < p + f + |data|
      ensures NonOpcodeAt(e, i)
    {
      assert e[i] == data[i - p - f];
    }
    assert IsDataCount(e, p + f, |data|);
    DataCountUnique(e, p + f, |data|);
  }

  /** The address samples decode to the read's address. */
  lemma DecodesAddress(times: seq<int>, e: seq<int>, p: nat, r: Instr)
    requires |times| == |e| && r.Read? && WellFormed(r)
    requires p + |Encode(r)| <= |e| && e[p .. p + |Encode(r)|] == Encode(r)
    ensures AddressSamples(Zip(times, e), p) == BytesOf(r.address, 3)
    ensures BigEndian(BytesOf(r.address, 3)) == r.address
  {
    var s := Zip(times, e);
    EncodeShape(r);
    assert Values(s) == e;
    assert p + 4 < |e|;
    SubSlice(e, p, p + |Encode(r)|, 1, 4);
    assert AddressSamples(s, p) == e[p + 1 .. p + 4];
    assert Pow256(3) == 0x100_0000;
    BigEndianOfBytes(r.address, 3);
  }

  /** The loop state after decoding the well-formed read `r` at the cursor. */
  function AfterRead(times: seq<int>, table: seq<Binding>, st: MosiState, r: Instr): MosiState
    requires r.Read? && st.cursor + |r.data| < |times|
  {
    var p := st.cursor;
    var end := times[p + |r.data|];
    var a := Access(st.instrIndex, times[p], end, end - times[p], times[p] - st.lastEnd,
                    r.address, |r.data|, Lookup(table, r.address), [], None);
    MosiState(p + Size(r), st.instrIndex + 1, end, end, st.accesses[times[p] := a])
  }

  /** The decoder's read branch on a read whose opcode, data count, address and timestamps are
      known produces the state `AfterRead` describes. */
  lemma DecodeReadKnown(s: seq<Sample>, times: seq<int>, table: seq<Binding>, st: MosiState, r: Instr)
    requires r.Read?
    requires st.cursor + |r.data| < |s| && |s| == |times|
    requires IsSpiRead(s[st.cursor].value) && s[st.cursor].value == Opcode(r)
    requires CountDataBytes(st.cursor + ReadFrame(s[st.cursor].value), Values(s)) == |r.data|
    requires AllBytes(AddressSamples(s, st.cursor)) && BigEndian(AddressSamples(s, st.cursor)) == r.address
    requires s[st.cursor].time == times[st.cursor]
    requires s[st.cursor + |r.data|].time == times[st.cursor + |r.data|]
    ensures DecodeRead(s, table, st) == Ok(AfterRead(times, table, st, r))
  {
    ReadAccessKnown(s, times, table, st, r);
    AfterReadFields(times, table, st, r);
  }

  /** The access the decoder builds for such a read. */
  lemma ReadAccessKnown(s: seq<Sample>, times: seq<int>, table: seq<Binding>, st: MosiState, r: Instr)
    requires r.Read?
    requires st.cursor + |r.data| < |s| && |s| == |times|
    requires IsSpiRead(s[st.cursor].value)
    requires CountDataBytes(st.cursor + ReadFrame(s[st.cursor].value), Values(s)) == |r.data|
    requires AllBytes(AddressSamples(s, st.cursor)) && BigEndian(AddressSamples(s, st.cursor)) == r.address
    requires s[st.cursor].time == times[st.cursor]
    requires s[st.cursor + |r.data|].time == times[st.cursor + |r.data|]
    ensures var start, end := times[st.cursor], times[st.cursor + |r.data|];
            ReadAccess(s, table, st, |r.data|)
            == Access(st.instrIndex, start, end, end - start, start - st.lastEnd,
                      r.address, |r.data|, Lookup(table, r.address), [], None)
  {
  }

  /** What the decoder reads at the cursor when a well-formed read's encoding sits there: the
      read opcode, a data count equal to the read's data length, and the read's address. */
  lemma ReadSeen(times: seq<int>, e: seq<int>, st: MosiState, r: Instr)
    requires |times| == |e| && r.Read? && WellFormed(r)
    requires st.cursor + |Encode(r)| <= |e|
    requires e[st.cursor .. st.cursor + |Encode(r)|] == Encode(r)
    requires st.cursor + |Encode(r)| == |e| || IsOpcode(e[st.cursor + |Encode(r)|])
    ensures st.cursor + |r.data| < |times|
    ensures var s := Zip(times, e);
            && IsSpiRead(s[st.cursor].value) && s[st.cursor].value == Opcode(r)
            && CountDataBytes(st.cursor + ReadFrame(s[st.cursor].value), Values(s)) == |r.data|
            && AllBytes(AddressSamples(s, st.cursor)) && BigEndian(AddressSamples(s, st.cursor)) == r.address
            && s[st.cursor].time == times[st.cursor]
            && s[st.cursor + |r.data|].time == times[st.cursor + |r.data|]
  {
    var s := Zip(times, e);
    var p := st.cursor;
    var f := ReadFrame(Opcode(r));
    EncodeShape(r);
    ValuesOfZip(times, e);
    assert e[p] == Encode(r)[0];
    SubSlice(e, p, p + |Encode(r)|, f, |Encode(r)|);
    CountsData(e, p, f, r.data);
    DecodesAddress(times, e, p, r);
  }

  /** The state after a read, with its cursor written as frame plus data. */
  lemma AfterReadFields(times: seq<int>, table: seq<Binding>, st: MosiState, r: Instr)
    requires r.Read? && st.cursor + |r.data| < |times|
    ensures var p := st.cursor;
            var start, end := times[p], times[p + |r.data|];
            AfterRead(times, table, st, r)
            == MosiState(p + ReadFrame(Opcode(r)) + |r.data|, st.instrIndex + 1, end, end,
                         st.accesses[start := Access(st.instrIndex, start, end, end - start, start - st.lastEnd,
                                                     r.address, |r.data|, Lookup(table, r.address), [], None)])
  {
  }

  /** Decoding one well-formed read at the cursor, when the next sample is an opcode or the end. */
  lemma ReadStep(times: seq<int>, e: seq<int>, table: seq<Binding>, st: MosiState, r: Instr)
    requires |times| == |e| && r.Read? && WellFormed(r)
    requires st.cursor + |Encode(r)| <= |e|
    requires e[st.cursor .. st.cursor + |Encode(r)|] == Encode(r)
    requires st.cursor + |Encode(r)| == |e| || IsOpcode(e[st.cursor + |Encode(r)|])
    ensures st.cursor + |r.data| < |times|
    ensures IsSpiRead(e[st.cursor])
    ensures MosiStep(Zip(times, e), table, st) == Ok(AfterRead(times, table, st, r))
  {
    ReadSeen(times, e, st, r);
    DecodeReadKnown(Zip(times, e), times, table, st, r);
  }

  /** What the decoder reads at the cursor when another well-formed instruction's encoding sits
      there: its opcode and, when it returns data, a data count equal to its data length. */
  lemma OtherSeen(e: seq<int>, p: nat, r: Instr)
    requires r.Other? && WellFormed(r)
    requires p + |Encode(r)| <= |e| && e[p .. p + |Encode(r)|] == Encode(r)
    requires r.data != [] ==> p + |Encode(r)| == |e| || IsOpcode(e[p + |Encode(r)|])
    ensures e[p] == r.op && IsOpcode(e[p]) && !IsSpiRead(e[p])
    ensures p + Size(r) == p + FrameSize(r.op) + (if ExpectsData(r.op) then CountDataBytes(p + FrameSize(r.op), e) else 0)
  {
    var f := FrameSize(r.op);
    OtherShape(r);
    assert e[p] == Encode(r)[0];
    if ExpectsData(r.op) {
      SubSlice(e, p, p + |Encode(r)|, f, |Encode(r)|);
      CountsData(e, p, f, r.data);
    }
  }

  /** Skipping another well-formed instruction at the cursor moves past its encoding, when data it
      returns is followed by an opcode or the end. */
  lemma OtherSkipped(times: seq<int>, e: seq<int>, table: seq<Binding>, st: MosiState, r: Instr)
    requires |times| == |e| && r.Other? && WellFormed(r)
    requires st.cursor + |Encode(r)| <= |e|
    requires e[st.cursor .. st.cursor + |Encode(r)|] == Encode(r)
    requires r.data != [] ==> st.cursor + |Encode(r)| == |e| || IsOpcode(e[st.cursor + |Encode(r)|])
    ensures IsOpcode(e[st.cursor]) && !IsSpiRead(e[st.cursor])
    ensures MosiStep(Zip(times, e), table, st)
            == Ok(st.(cursor := st.cursor + Size(r), instrIndex := st.instrIndex + 1, lastEnd := st.endTime))
  {
    OtherSeen(e, st.cursor, r);
    ValuesOfZip(times, e);
    assert Zip(times, e)[st.cursor].value == e[st.cursor];
  }

  /** Skipping a byte that is no catalogued opcode moves one sample on and changes nothing else. */
  lemma InvalidSkipped(times: seq<int>, e: seq<int>, table: seq<Binding>, st: MosiState)
    requires |times| == |e| && st.cursor < |e| && !IsOpcode(e[st.cursor])
    ensures MosiStep(Zip(times, e), table, st) == Ok(st.(cursor := st.cursor + 1, instrIndex := st.instrIndex + 1))
  {
    assert Zip(times, e)[st.cursor].value == e[st.cursor];
  }

  /** The sample at which the decoder ends the `k`-th instruction, a read: as many samples after
      its opcode as it has data samples (not counting the frame). */
  function EndOf(rs: seq<Instr>, times: seq<int>, k: nat): int
    requires |times| == Position(rs, |rs|) && k < |rs| && rs[k].Read?
  {
    PositionsGrow(rs, k, |rs|);
    times[Position(rs, k) + |rs[k].data|]
  }

  /** The end of the latest read among the first `k` instructions, or the first timestamp when
      there is none. */
  function LatestEnd(rs: seq<Instr>, times: seq<int>, k: nat): int
    requires |times| == Position(rs, |rs|) && 0 < |rs| && k <= |rs|
  {
    if k == 0 then
      PositionsGrow(rs, 0, |rs|);
      times[0]
    else if rs[k - 1].Read? then EndOf(rs, times, k - 1)
    else LatestEnd(rs, times, k - 1)
  }

  /** The end time latencies are measured from after the first `k` instructions: zero until a
      catalogued instruction has passed, and from then on the end of the latest read (the first
      timestamp while there has been none). An invalid byte leaves it as it was. */
  function LastEnd(rs: seq<Instr>, times: seq<int>, k: nat): int
    requires |times| == Position(rs, |rs|) && 0 < |rs| && k <= |rs|
  {
    if k == 0 then 0
    else if rs[k - 1].Invalid? then LastEnd(rs, times, k - 1)
    else LatestEnd(rs, times, k)
  }

  /** The access the decoder reports for the `k`-th instruction, a read. */
  function Expected(rs: seq<Instr>, times: seq<int>, table: seq<Binding>, k: nat): Access
    requires |times| == Position(rs, |rs|) && k < |rs| && rs[k].Read?
  {
    PositionsGrow(rs, k, |rs|);
    var start := times[Position(rs, k)];
    var end := EndOf(rs, times, k);
    Access(k, start, end, end - start, start - LastEnd(rs, times, k),
           rs[k].address, |rs[k].data|, Lookup(table, rs[k].address), [], None)
  }

  /** The accesses of the reads among the first `n` instructions, each stored under its start time
      in order. */
  function ExpectedMap(rs: seq<Instr>, times: seq<int>, table: seq<Binding>, n: nat): map<int, Access>
    requires |times| == Position(rs, |rs|) && n <= |rs|
  {
    if n == 0 then map[]
    else if rs[n - 1].Read? then
      var a := Expected(rs, times, table, n - 1);
      ExpectedMap(rs, times, table, n - 1)[a.start := a]
    else ExpectedMap(rs, times, table, n - 1)
  }

  /** Loop state after the first `k` instructions. */
  function StateAfter(rs: seq<Instr>, times: seq<int>, table: seq<Binding>, k: nat): MosiState
    requires |times| == Position(rs, |rs|) && 0 < |rs| && k <= |rs|
  {
    MosiState(Position(rs, k), k, LastEnd(rs, times, k), LatestEnd(rs, times, k),
              ExpectedMap(rs, times, table, k))
  }

  /** The expected state after instruction `k`, a read, is the decoder's read branch applied to
      the expected state before it. */
  lemma ReadState(rs: seq<Instr>, times: seq<int>, table: seq<Binding>, k: nat)
    requires |times| == Position(rs, |rs|) && k < |rs| && rs[k].Read?
    ensures Position(rs, k) + |rs[k].data| < |times|
    ensures StateAfter(rs, times, table, k + 1) == AfterRead(times, table, StateAfter(rs, times, table, k), rs[k])
  {
    var st := StateAfter(rs, times, table, k);
    PositionsGrow(rs, k, |rs|);
    var a := Expected(rs, times, table, k);
    var after := AfterRead(times, table, st, rs[k]);
    assert after.accesses == st.accesses[a.start := a];
    assert LastEnd(rs, times, k + 1) == LatestEnd(rs, times, k + 1) == a.end;
  }

  /** The expected state after instruction `k`, another catalogued instruction, is the state
      before it moved past the instruction with the latest read's end as the new latency base. */
  lemma OtherState(rs: seq<Instr>, times: seq<int>, table: seq<Binding>, k: nat)
    requires |times| == Position(rs, |rs|) && k < |rs| && rs[k].Other?
    ensures var st := StateAfter(rs, times, table, k);
            StateAfter(rs, times, table, k + 1)
            == st.(cursor := st.cursor + Size(rs[k]), instrIndex := k + 1, lastEnd := st.endTime)
  {
  }

  /** The expected state after instruction `k`, an invalid byte, is the state before it moved one
      sample on. */
  lemma InvalidState(rs: seq<Instr>, times: seq<int>, table: seq<Binding>, k: nat)
    requires |times| == Position(rs, |rs|) && k < |rs| && rs[k].Invalid?
    ensures var st := StateAfter(rs, times, table, k);
            StateAfter(rs, times, table, k + 1) == st.(cursor := st.cursor + 1, instrIndex := k + 1)
  {
  }

  /** The decoder's effect on its state of the `k`-th instruction, sitting at the cursor: a read
      adds its access, another catalogued instruction moves the latency base to the latest read's
      end, and an invalid byte is stepped over. */
  function Next(rs: seq<Instr>, times: seq<int>, table: seq<Binding>, st: MosiState, k: nat): (nx: MosiState)
    requires |times| == Position(rs, |rs|) && k < |rs| && st.cursor == Position(rs, k)
    ensures nx.cursor == Position(rs, k + 1) && nx.instrIndex == st.instrIndex + 1
  {
    PositionsGrow(rs, k, |rs|);
    match rs[k]
    case Read(_, _, _) => AfterRead(times, table, st, rs[k])
    case Other(_, _, _) => st.(cursor := st.cursor + Size(rs[k]), instrIndex := st.instrIndex + 1, lastEnd := st.endTime)
    case Invalid(_) => st.(cursor := st.cursor + 1, instrIndex := st.instrIndex + 1)
  }

  /** The decoder's state replayed over the first `k` instructions from its initial state. */
  function Replay(rs: seq<Instr>, times: seq<int>, table: seq<Binding>, k: nat): (st: MosiState)
    requires |times| == Position(rs, |rs|) && 0 < |rs| && k <= |rs|
    ensures st.cursor == Position(rs, k) && st.instrIndex == k
  {
    if k == 0 then
      PositionsGrow(rs, 0, |rs|);
      MosiState(0, 0, 0, times[0], map[])
    else Next(rs, times, table, Replay(rs, times, table, k - 1), k - 1)
  }

  /** Replaying the instructions reaches the expected state: the cursor after them, the latency
      base and latest read's end, and the reads' accesses. */
  lemma {:induction false} ReplayIsStateAfter(rs: seq<Instr>, times: seq<int>, table: seq<Binding>, k: nat)
    requires |times| == Position(rs, |rs|) && 0 < |rs| && k <= |rs|
    ensures Replay(rs, times, table, k) == StateAfter(rs, times, table, k)
  {
    if k > 0 {
      ReplayIsStateAfter(rs, times, table, k - 1);
      match rs[k - 1]
      case Read(_, _, _) => ReadState(rs, times, table, k - 1);
      case Other(_, _, _) => OtherState(rs, times, table, k - 1);
      case Invalid(_) => InvalidState(rs, times, table, k - 1);
    }
  }

  lemma ReadStepAfter(rs: seq<Instr>, e: seq<int>, times: seq<int>, table: seq<Binding>, k: nat)
    requires AllWellFormed(rs) && Laid(rs, e) && |times| == |e| && k < |rs| && rs[k].Read?
    ensures Position(rs, k) < |e|
    ensures MosiStep(Zip(times, e), table, Replay(rs, times, table, k))
            == Ok(Replay(rs, times, table, k + 1))
  {
    var st := Replay(rs, times, table, k);
    assert LaidAt(rs, e, k);
    NextOpcode(rs, e, k);
    ReadStep(times, e, table, st, rs[k]);
  }

  lemma OtherStepAfter(rs: seq<Instr>, e: seq<int>, times: seq<int>, table: seq<Binding>, k: nat)
    requires AllWellFormed(rs) && Laid(rs, e) && |times| == |e| && k < |rs| && rs[k].Other?
    ensures Position(rs, k) < |e|
    ensures MosiStep(Zip(times, e), table, Replay(rs, times, table, k))
            == Ok(Replay(rs, times, table, k + 1))
  {
    var st := Replay(rs, times, table, k);
    assert LaidAt(rs, e, k);
    NextOpcode(rs, e, k);
    OtherSkipped(times, e, table, st, rs[k]);
  }

  lemma InvalidStepAfter(rs: seq<Instr>, e: seq<int>, times: seq<int>, table: seq<Binding>, k: nat)
    requires AllWellFormed(rs) && Laid(rs, e) && |times| == |e| && k < |rs| && rs[k].Invalid?
    ensures Position(rs, k) < |e|
    ensures MosiStep(Zip(times, e), table, Replay(rs, times, table, k))
            == Ok(Replay(rs, times, table, k + 1))
  {
    var p := Position(rs, k);
    assert LaidAt(rs, e, k);
    assert e[p] == e[p .. p + 1][0] == rs[k].value;
    InvalidSkipped(times, e, table, Replay(rs, times, table, k));
  }

  /** Each instruction takes the decoder from the expected state before it to the one after it. */
  lemma StepAfter(rs: seq<Instr>, e: seq<int>, times: seq<int>, table: seq<Binding>, k: nat)
    requires AllWellFormed(rs) && Laid(rs, e) && |times| == |e| && k < |rs|
    ensures Replay(rs, times, table, k).cursor == Position(rs, k) < |e|
    ensures MosiStep(Zip(times, e), table, Replay(rs, times, table, k))
            == Ok(Replay(rs, times, table, k + 1))
  {
    match rs[k]
    case Read(_, _, _) => ReadStepAfter(rs, e, times, table, k);
    case Other(_, _, _) => OtherStepAfter(rs, e, times, table, k);
    case Invalid(_) => InvalidStepAfter(rs, e, times, table, k);
  }

  /** Every instruction takes the decoder from the replayed state before it to the one after it. */
  lemma StepsAfter(rs: seq<Instr>, e: seq<int>, times: seq<int>, table: seq<Binding>)
    requires AllWellFormed(rs) && Laid(rs, e) && |times| == |e|
    ensures forall k | 0 <= k < |rs| ::
              Replay(rs, times, table, k).cursor < |e|
              && MosiStep(Zip(times, e), table, Replay(rs, times, table, k)) == Ok(Replay(rs, times, table, k + 1))
  {
    forall k | 0 <= k < |rs|
      ensures Replay(rs, times, table, k).cursor < |e|
      ensures MosiStep(Zip(times, e), table, Replay(rs, times, table, k)) == Ok(Replay(rs, times, table, k + 1))
    {
      StepAfter(rs, e, times, table, k);
    }
  }

  /** The decoding loop runs through the replayed states, one instruction at a time, to the end. */
  lemma RunAll(rs: seq<Instr>, e: seq<int>, times: seq<int>, table: seq<Binding>)
    requires AllWellFormed(rs) && Laid(rs, e) && |times| == |e| && 0 < |rs|
    ensures ScanMosi(Zip(times, e), table, Replay(rs, times, table, 0)) == Ok(Replay(rs, times, table, |rs|))
  {
    var sts := seq(|rs| + 1, k requires 0 <= k <= |rs| => Replay(rs, times, table, k));
    StepsAfter(rs, e, times, table);
    ScanChain(Zip(times, e), table, sts, 0);
  }

  /** Round trip: decoding the MOSI samples of well-formed instructions reports one access per
      read and none for the other instructions, each read's access stored under its start time
      with its instruction position, address, data length, end sample and latency. */
  lemma MosiRoundTrip(rs: seq<Instr>, times: seq<int>, table: seq<Binding>)
    requires AllWellFormed(rs) && 0 < |rs| && |times| == |EncodeAll(rs)|
    ensures DecodeMosi(Zip(times, EncodeAll(rs)), table) == Ok(ExpectedMap(rs, times, table, |rs|))
  {
    var e := EncodeAll(rs);
    var s := Zip(times, e);
    PositionsGrow(rs, 0, |rs|);
    assert Replay(rs, times, table, 0) == InitialMosi(s);
    EncodeAllLaid(rs);
    RunAll(rs, e, times, table);
    ReplayIsStateAfter(rs, times, table, |rs|);
  }

  /** The latest read's end is the first timestamp while no read has passed. */
  lemma {:induction false} LatestEndNone(rs: seq<Instr>, times: seq<int>, k: nat)
    requires |times| == Position(rs, |rs|) && 0 < |rs| && k <= |rs|
    requires forall j | 0 <= j < k :: !rs[j].Read?
    ensures LatestEnd(rs, times, k) == times[0]
  {
    if k > 0 {
      assert !rs[k - 1].Read?;
      LatestEndNone(rs, times, k - 1);
    }
  }

  /** Once read `j` has passed, the latest read's end is its end until the next read. */
  lemma {:induction false} LatestEndAt(rs: seq<Instr>, times: seq<int>, j: nat, k: nat)
    requires |times| == Position(rs, |rs|) && j < k <= |rs| && rs[j].Read?
    requires forall i | j < i < k :: !rs[i].Read?
    ensures LatestEnd(rs, times, k) == EndOf(rs, times, j)
  {
    if k - 1 > j {
      assert !rs[k - 1].Read?;
      LatestEndAt(rs, times, j, k - 1);
    }
  }

  /** The end time a latency is measured from is zero while only invalid bytes have passed. */
  lemma {:induction false} LastEndNone(rs: seq<Instr>, times: seq<int>, k: nat)
    requires |times| == Position(rs, |rs|) && 0 < |rs| && k <= |rs|
    requires forall j | 0 <= j < k :: rs[j].Invalid?
    ensures LastEnd(rs, times, k) == 0
  {
    if k > 0 {
      assert rs[k - 1].Invalid?;
      LastEndNone(rs, times, k - 1);
    }
  }

  /** Once a catalogued instruction `j` has passed, the end time a latency is measured from is the
      latest read's end. */
  lemma {:induction false} LastEndAt(rs: seq<Instr>, times: seq<int>, j: nat, k: nat)
    requires |times| == Position(rs, |rs|) && j < k <= |rs| && !rs[j].Invalid?
    ensures LastEnd(rs, times, k) == LatestEnd(rs, times, k)
  {
    if rs[k - 1].Invalid? {
      LastEndAt(rs, times, j, k - 1);
      assert LatestEnd(rs, times, k) == LatestEnd(rs, times, k - 1);
    }
  }

  /** A read's latency: its start minus the end of the read before it; minus the first timestamp
      when only non-read instructions, at least one of them catalogued, came before it; its start
      itself when only invalid bytes (or nothing) came before it. */
  lemma ReadLatency(rs: seq<Instr>, times: seq<int>, table: seq<Binding>, k: nat)
    requires |times| == Position(rs, |rs|) && k < |rs| && rs[k].Read?
    ensures var a := Expected(rs, times, table, k);
            && ((forall j | 0 <= j < k :: rs[j].Invalid?) ==> a.latency == a.start)
            && ((exists j | 0 <= j < k :: rs[j].Other?) && (forall j | 0 <= j < k :: !rs[j].Read?) ==>
                  a.latency == a.start - times[0])
            && (forall j | 0 <= j < k && rs[j].Read? && (forall i | j < i < k :: !rs[i].Read?) ::
                  a.latency == a.start - EndOf(rs, times, j))
  {
    var a := Expected(rs, times, table, k);
    assert a.latency == a.start - LastEnd(rs, times, k);
    if forall j | 0 <= j < k :: rs[j].Invalid? {
      LastEndNone(rs, times, k);
    }
    if exists j | 0 <= j < k :: rs[j].Other? {
      var j :| 0 <= j < k && rs[j].Other?;
      LastEndAt(rs, times, j, k);
      if forall j | 0 <= j < k :: !rs[j].Read? {
        LatestEndNone(rs, times, k);
      }
    }
    forall j | 0 <= j < k && rs[j].Read? && (forall i | j < i < k :: !rs[i].Read?)
      ensures a.latency == a.start - EndOf(rs, times, j)
    {
      LastEndAt(rs, times, j, k);
      LatestEndAt(rs, times, j, k);
    }
  }

  /** The accesses of the reads among the first `n` instructions, in order. */
  function ReadAccesses(rs: seq<Instr>, times: seq<int>, table: seq<Binding>, n: nat): seq<Access>
    requires |times| == Position(rs, |rs|) && n <= |rs|
  {
    if n == 0 then []
    else if rs[n - 1].Read? then ReadAccesses(rs, times, table, n - 1) + [Expected(rs, times, table, n - 1)]
    else ReadAccesses(rs, times, table, n - 1)
  }

  /** How many of the first `n` instructions are reads. */
  function ReadCount(rs: seq<Instr>, n: nat): nat
    requires n <= |rs|
  {
    if n == 0 then 0 else ReadCount(rs, n - 1) + (if rs[n - 1].Read? then 1 else 0)
  }

  /** One access per read. */
  lemma {:induction false} ReadAccessesCount(rs: seq<Instr>, times: seq<int>, table: seq<Binding>, n: nat)
    requires |times| == Position(rs, |rs|) && n <= |rs|
    ensures |ReadAccesses(rs, times, table, n)| == ReadCount(rs, n)
  {
    if n > 0 {
      ReadAccessesCount(rs, times, table, n - 1);
    }
  }

  /** The expected map is the reads' accesses stored one after another under their start times. */
  lemma {:induction false} ExpectedMapFold(rs: seq<Instr>, times: seq<int>, table: seq<Binding>, n: nat)
    requires |times| == Position(rs, |rs|) && n <= |rs|
    ensures |ReadAccesses(rs, times, table, n)| == ReadCount(rs, n)
    ensures ExpectedMap(rs, times, table, n) == ByStart(ReadAccesses(rs, times, table, n))
  {
    ReadAccessesCount(rs, times, table, n);
    if n > 0 {
      ExpectedMapFold(rs, times, table, n - 1);
      if rs[n - 1].Read? {
        ByStartSnoc(ReadAccesses(rs, times, table, n - 1), Expected(rs, times, table, n - 1));
      }
    }
  }

  /** The `k`-th instruction, a read, is the read numbered by how many reads precede it. */
  lemma {:induction false} ReadPosition(rs: seq<Instr>, times: seq<int>, table: seq<Binding>, k: nat, n: nat)
    requires |times| == Position(rs, |rs|) && k < n <= |rs| && rs[k].Read?
    ensures ReadCount(rs, k) < |ReadAccesses(rs, times, table, n)|
    ensures ReadAccesses(rs, times, table, n)[ReadCount(rs, k)] == Expected(rs, times, table, k)
  {
    if k < n - 1 {
      ReadPosition(rs, times, table, k, n - 1);
    } else {
      ExpectedMapFold(rs, times, table, k);
    }
  }

  /** Every access of the list is the expected access of a read among the first `n` instructions. */
  lemma {:induction false} ReadOrigin(rs: seq<Instr>, times: seq<int>, table: seq<Binding>, n: nat, j: nat)
    requires |times| == Position(rs, |rs|) && n <= |rs| && j < |ReadAccesses(rs, times, table, n)|
    ensures exists k | 0 <= k < n :: rs[k].Read? && ReadAccesses(rs, times, table, n)[j] == Expected(rs, times, table, k)
  {
    var prior := ReadAccesses(rs, times, table, n - 1);
    if j < |prior| {
      ReadOrigin(rs, times, table, n - 1, j);
      assert ReadAccesses(rs, times, table, n)[j] == prior[j];
    } else {
      assert ReadAccesses(rs, times, table, n)[j] == Expected(rs, times, table, n - 1);
    }
  }

  /** Later instructions start at later samples. */
  lemma OpcodesAdvance(rs: seq<Instr>, times: seq<int>, j: nat, k: nat)
    requires |times| == Position(rs, |rs|) && StrictlyIncreasing(times) && j < k < |rs|
    ensures Position(rs, j) < Position(rs, k) < |times|
    ensures times[Position(rs, j)] < times[Position(rs, k)]
  {
    PositionsGrow(rs, j, k);
    PositionsGrow(rs, k, |rs|);
  }

  /** With increasing timestamps the reads' accesses start in increasing order, each before the
      first sample of the next instruction. */
  lemma {:induction false} ReadsInOrder(rs: seq<Instr>, times: seq<int>, table: seq<Binding>, n: nat)
    requires |times| == Position(rs, |rs|) && StrictlyIncreasing(times) && n <= |rs|
    ensures StartsIncrease(ReadAccesses(rs, times, table, n))
    ensures n < |rs| ==> Position(rs, n) < |times|
    ensures n < |rs| ==> forall j | 0 <= j < |ReadAccesses(rs, times, table, n)| ::
                           ReadAccesses(rs, times, table, n)[j].start < times[Position(rs, n)]
  {
    if n < |rs| {
      PositionsGrow(rs, n, |rs|);
    }
    if n > 0 {
      ReadsInOrder(rs, times, table, n - 1);
      var prior := ReadAccesses(rs, times, table, n - 1);
      var items := ReadAccesses(rs, times, table, n);
      PositionsGrow(rs, n - 1, |rs|);
      var bound := times[Position(rs, n - 1)];
      if rs[n - 1].Read? {
        assert items == prior + [Expected(rs, times, table, n - 1)];
        assert forall j | 0 <= j < |prior| :: items[j] == prior[j];
      }
      assert forall j | 0 <= j < |items| :: items[j].start <= bound;
      if n < |rs| {
        OpcodesAdvance(rs, times, n - 1, n);
      }
    }
  }

  /** With increasing timestamps no read replaces another in the expected map: it holds one
      access per read, and the `k`-th instruction, a read, is stored under the timestamp of its
      opcode. */
  lemma ExpectedMapHas(rs: seq<Instr>, times: seq<int>, table: seq<Binding>, k: nat)
    requires |times| == Position(rs, |rs|) && StrictlyIncreasing(times)
    requires k < |rs| && rs[k].Read?
    ensures Position(rs, k) < |times|
    ensures var m := ExpectedMap(rs, times, table, |rs|);
            && |m| == ReadCount(rs, |rs|)
            && times[Position(rs, k)] in m && m[times[Position(rs, k)]] == Expected(rs, times, table, k)
  {
    var n := |rs|;
    var items := ReadAccesses(rs, times, table, n);
    PositionsGrow(rs, k, n);
    ExpectedMapFold(rs, times, table, n);
    ReadsInOrder(rs, times, table, n);
    ReadPosition(rs, times, table, k, n);
    ByStartAt(items, ReadCount(rs, k));
    ByStartSize(items);
  }

  /** With increasing timestamps a read's access does not start at the first sample of another
      instruction. */
  lemma StartsApart(rs: seq<Instr>, times: seq<int>, table: seq<Binding>, j: nat, k: nat)
    requires |times| == Position(rs, |rs|) && StrictlyIncreasing(times)
    requires j < |rs| && k < |rs| && j != k && rs[j].Read?
    ensures Position(rs, k) < |times|
    ensures Expected(rs, times, table, j).start != times[Position(rs, k)]
  {
    PositionsGrow(rs, j, |rs|);
    PositionsGrow(rs, k, |rs|);
    if j < k {
      OpcodesAdvance(rs, times, j, k);
    } else {
      OpcodesAdvance(rs, times, k, j);
    }
  }

  /** With increasing timestamps nothing is stored in the expected map under the timestamp of the
      first sample of an instruction that is not a read. */
  lemma ExpectedMapOmits(rs: seq<Instr>, times: seq<int>, table: seq<Binding>, k: nat)
    requires |times| == Position(rs, |rs|) && StrictlyIncreasing(times)
    requires k < |rs| && !rs[k].Read?
    ensures Position(rs, k) < |times|
    ensures times[Position(rs, k)] !in ExpectedMap(rs, times, table, |rs|)
  {
    var n := |rs|;
    var items := ReadAccesses(rs, times, table, n);
    PositionsGrow(rs, k, n);
    var t := times[Position(rs, k)];
    ExpectedMapFold(rs, times, table, n);
    forall j | 0 <= j < |items|
      ensures items[j].start != t
    {
      ReadOrigin(rs, times, table, n, j);
      var kj :| 0 <= kj < n && rs[kj].Read? && items[j] == Expected(rs, times, table, kj);
      StartsApart(rs, times, table, kj, k);
    }
    if t in ByStart(items) {
      ByStartKeys(items, t);
    }
  }

  /** With increasing timestamps no read replaces another in the decoder's result: there is one
      access per read, and the `k`-th instruction, a read, is found under the timestamp of its
      opcode, with its address, its data length and its end. */
  lemma MosiReadFound(rs: seq<Instr>, times: seq<int>, table: seq<Binding>, k: nat)
    requires AllWellFormed(rs) && |times| == |EncodeAll(rs)| && StrictlyIncreasing(times)
    requires k < |rs| && rs[k].Read?
    ensures Position(rs, k) < |times|
    ensures var r := DecodeMosi(Zip(times, EncodeAll(rs)), table);
            && r.Ok? && |r.value| == ReadCount(rs, |rs|)
            && times[Position(rs, k)] in r.value
            && r.value[times[Position(rs, k)]] == Expected(rs, times, table, k)
  {
    MosiRoundTrip(rs, times, table);
    ExpectedMapHas(rs, times, table, k);
  }

  /** With increasing timestamps an instruction that is not a read leaves no access: nothing is
      stored under the timestamp of its first sample. */
  lemma MosiOthersAbsent(rs: seq<Instr>, times: seq<int>, table: seq<Binding>, k: nat)
    requires AllWellFormed(rs) && |times| == |EncodeAll(rs)| && StrictlyIncreasing(times)
    requires k < |rs| && !rs[k].Read?
    ensures Position(rs, k) < |times|
    ensures var r := DecodeMosi(Zip(times, EncodeAll(rs)), table);
            r.Ok? && times[Position(rs, k)] !in r.value
  {
    MosiRoundTrip(rs, times, table);
    ExpectedMapOmits(rs, times, table, k);
  }
}
