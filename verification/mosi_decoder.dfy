/**
 * Decoding a single-line (MOSI) SPI capture into read accesses. Chip select is not captured, so
 * instruction boundaries are guessed: after an instruction's fixed frame, every byte up to the
 * next byte that happens to be a catalogued opcode counts as returned data. Read Data (0x03) and
 * Fast Read (0x0B) become accesses; other catalogued instructions are skipped together with their
 * data; anything else is skipped one byte at a time.
 */
module MosiDecoder {
  import opened Wrappers
  import opened Classifier
  import opened Instructions
  import opened Captures
  import opened Accesses

  /** `k` is the data length of an instruction whose data starts right after `base`: the offset of
      the first catalogued opcode after `base`, or, when none follows, the distance to the end of
      the capture (at least one). */
  predicate IsDataCount(s: seq<int>, base: nat, k: nat) {
    && k >= 1
    && (base + k < |s| ==> IsOpcode(s[base + k]))
    && (base + k >= |s| ==> k == Max(1, |s| - base))
    && (forall i | base < i < base + k :: NonOpcodeAt(s, i))
  }

  /** The capture has a sample at `i` and it is not a catalogued opcode. */
  predicate NonOpcodeAt(s: seq<int>, i: int) {
    0 <= i < |s| && !IsOpcode(s[i])
  }

  function CountFrom(s: seq<int>, base: nat, k: nat): (n: nat)
    requires k >= 1
    requires forall i | base < i < base + k :: NonOpcodeAt(s, i)
    ensures IsDataCount(s, base, n)
    decreases |s| - (base + k)
  {
    if base + k >= |s| then
      assert k > 1 ==> NonOpcodeAt(s, base + k - 1);
      k
    else if IsOpcode(s[base + k]) then k
    else CountFrom(s, base, k + 1)
  }

  /** The data-length heuristic: scan forward from `base + 1` for the next catalogued opcode; running
      off the end of the capture stops the scan. */
  function CountDataBytes(base: nat, s: seq<int>): (k: nat)
    ensures IsDataCount(s, base, k)
  {
    CountFrom(s, base, 1)
  }

  /** The characterisation pins the data length down: no other length satisfies it. */
  lemma DataCountUnique(s: seq<int>, base: nat, k: nat)
    requires IsDataCount(s, base, k)
    ensures k == CountDataBytes(base, s)
  {
    var n := CountDataBytes(base, s);
    assert k < n ==> NonOpcodeAt(s, base + k);
    assert n < k ==> NonOpcodeAt(s, base + n);
  }

  predicate AllBytes(bs: seq<int>) {
    forall i | 0 <= i < |bs| :: 0 <= bs[i] < 256
  }

  function Pow256(n: nat): (p: nat)
    ensures p >= 1
  {
    if n == 0 then 1 else 256 * Pow256(n - 1)
  }

  /** At most three bytes make an address below 2^24. */
  lemma AddressBelow(bs: seq<int>)
    requires AllBytes(bs) && |bs| <= 3
    ensures BigEndian(bs) < 0x100_0000
  {
    assert Pow256(3) == 0x100_0000;
    assert Pow256(|bs|) <= Pow256(3);
  }

  /** `int.from_bytes(..., byteorder='big')`. */
  function BigEndian(bs: seq<int>): (n: nat)
    requires AllBytes(bs)
    ensures n < Pow256(|bs|)
  {
    if |bs| == 0 then 0 else BigEndian(bs[..|bs| - 1]) * 256 + bs[|bs| - 1]
  }

  /** The `width` big-endian bytes of `n` (most significant first). */
  function BytesOf(n: nat, width: nat): (bs: seq<int>)
    ensures |bs| == width && AllBytes(bs)
  {
    if width == 0 then [] else BytesOf(n / 256, width - 1) + [n % 256]
  }

  lemma {:induction false} BigEndianOfBytes(n: nat, width: nat)
    requires n < Pow256(width)
    ensures BigEndian(BytesOf(n, width)) == n
  {
    if width > 0 {
      var bs := BytesOf(n, width);
      assert bs[..width - 1] == BytesOf(n / 256, width - 1);
      BigEndianOfBytes(n / 256, width - 1);
    }
  }

  lemma {:induction false} BytesOfBigEndian(bs: seq<int>)
    requires AllBytes(bs)
    ensures BytesOf(BigEndian(bs), |bs|) == bs
  {
    if |bs| > 0 {
      var init := bs[..|bs| - 1];
      BytesOfBigEndian(init);
      assert BigEndian(bs) / 256 == BigEndian(init);
      assert bs == init + [bs[|bs| - 1]];
    }
  }

  /** Loop state of the single-line decoder: the sample cursor, the running instruction counter,
      the end time latencies are measured from, the end time of the latest read (initially the
      first timestamp) and the accesses found so far, keyed by start time. */
  datatype MosiState = MosiState(
    cursor: nat,
    instrIndex: nat,
    lastEnd: int,
    endTime: int,
    accesses: map<int, Access>)

  function InitialMosi(s: seq<Sample>): MosiState
    requires |s| > 0
  {
    MosiState(0, 0, 0, s[0].time, map[])
  }

  /** The address samples of a read at `c`: up to three samples after the opcode, fewer at the end
      of the capture. */
  function AddressSamples(s: seq<Sample>, c: nat): seq<int>
    requires c < |s|
  {
    Values(s)[c + 1 .. Min(c + 4, |s|)]
  }

  /** `a` is an access read by the opcode at sample `i`: it starts there, ends at the timestamp
      as many samples after the opcode as it has data samples, and is classified by its 24-bit
      address. */
  predicate ReadAt(s: seq<Sample>, table: seq<Binding>, i: int, a: Access) {
    && 0 <= i < |s|
    && IsSpiRead(s[i].value)
    && a.start == s[i].time
    && 1 <= a.size
    && i + a.size < |s|
    && a.end == s[i + a.size].time
    && a.duration == a.end - a.start
    && 0 <= a.address < 0x100_0000
    && a.region == Lookup(table, a.address)
    && a.info == []
    && a.dupCount == None
  }

  /** The size and address of the access read at `i` are the ones the heuristic and the address
      samples give: the data count after the opcode's frame, and the big-endian address. */
  predicate ExactRead(s: seq<Sample>, i: int, a: Access)
    requires 0 <= i < |s| && IsSpiRead(s[i].value)
  {
    && a.size == CountDataBytes(i + ReadFrame(s[i].value), Values(s))
    && AllBytes(AddressSamples(s, i))
    && a.address == BigEndian(AddressSamples(s, i))
  }

  /** `a` is an access read by some read opcode of the capture. */
  predicate FromCapture(s: seq<Sample>, table: seq<Binding>, a: Access) {
    exists i | 0 <= i < |s| :: ReadAt(s, table, i, a) && LatencyFromEarlier(s, i, a.start, a.latency)
  }

  /** What the decoding loop maintains. */
  predicate Decoded(s: seq<Sample>, table: seq<Binding>, st: MosiState) {
    && KeyedByStart(st.accesses)
    && (forall k | k in st.accesses ::
          st.accesses[k].instrIndex < st.instrIndex && FromCapture(s, table, st.accesses[k]))
    && (st.lastEnd == 0 || exists j :: 0 <= j < st.cursor && j < |s| && st.lastEnd == s[j].time)
    && (exists j :: 0 <= j <= st.cursor && j < |s| && st.endTime == s[j].time)
  }

  /** The access read by the opcode at the cursor. */
  function ReadAccess(s: seq<Sample>, table: seq<Binding>, st: MosiState, d: nat): (a: Access)
    requires st.cursor < |s| && IsSpiRead(s[st.cursor].value)
    requires d == CountDataBytes(st.cursor + ReadFrame(s[st.cursor].value), Values(s))
    requires st.cursor + d < |s|
    requires AllBytes(AddressSamples(s, st.cursor))
    ensures ReadAt(s, table, st.cursor, a) && ExactRead(s, st.cursor, a)
    ensures a.instrIndex == st.instrIndex && a.latency == a.start - st.lastEnd
  {
    var start := s[st.cursor].time;
    var end := s[st.cursor + d].time;
    var address := BigEndian(AddressSamples(s, st.cursor));
    AddressBelow(AddressSamples(s, st.cursor));
    Access(st.instrIndex, start, end, end - start, start - st.lastEnd, address, d,
           Lookup(table, address), [], None)
  }

  /** The end sample of an instruction at `c` (as many samples after `c` as the data count after its
      frame) lies inside the capture exactly when `c` is not the last sample. */
  lemma EndInCapture(s: seq<int>, c: nat, frame: nat)
    requires c < |s| && 1 <= frame
    ensures c + CountDataBytes(c + frame, s) < |s| <==> c < |s| - 1
  {
    var d := CountDataBytes(c + frame, s);
    if c + frame + d >= |s| && c < |s| - 1 {
      assert d == Max(1, |s| - (c + frame));
    }
  }

  /** A read opcode at the cursor. It fails when the opcode is the last sample (its end time would
      lie past the capture) or an address sample is not a byte; otherwise it moves past the read. */
  function DecodeRead(s: seq<Sample>, table: seq<Binding>, st: MosiState): (r: Result<MosiState, DecodeError>)
    requires st.cursor < |s| && IsSpiRead(s[st.cursor].value)
    ensures r.Err? <==> st.cursor == |s| - 1 || !AllBytes(AddressSamples(s, st.cursor))
    ensures r.Ok? ==> st.cursor < r.value.cursor && r.value.instrIndex == st.instrIndex + 1
  {
    var c := st.cursor;
    var op := s[c].value;
    var d := CountDataBytes(c + ReadFrame(op), Values(s));
    EndInCapture(Values(s), c, ReadFrame(op));
    if c + d >= |s| then Err(ReadAtLastSample(c))
    else if !AllBytes(AddressSamples(s, c)) then Err(AddressNotBytes(c))
    else
      var a := ReadAccess(s, table, st, d);
      Ok(MosiState(c + ReadFrame(op) + d, st.instrIndex + 1, a.end, a.end, st.accesses[a.start := a]))
  }

  /** A decoded read is stored under its start time (replacing any access with that start), it is
      the read at the cursor with its counted size and big-endian address, its latency is measured
      from the previous end time, and the cursor skips its frame and data. */
  lemma ReadRecorded(s: seq<Sample>, table: seq<Binding>, st: MosiState)
    requires st.cursor < |s| && IsSpiRead(s[st.cursor].value) && DecodeRead(s, table, st).Ok?
    ensures var next := DecodeRead(s, table, st).value;
            && s[st.cursor].time in next.accesses
            && var a := next.accesses[s[st.cursor].time];
            && a.instrIndex == st.instrIndex
            && ReadAt(s, table, st.cursor, a)
            && ExactRead(s, st.cursor, a)
            && a.latency == a.start - st.lastEnd
            && next.cursor == st.cursor + ReadFrame(s[st.cursor].value) + a.size
            && next.lastEnd == next.endTime == a.end
            && next.accesses == st.accesses[a.start := a]
  {
  }

  /** Any other sample at the cursor. A catalogued instruction is skipped with its frame and, if
      it returns data, the counted data, and the end time of the latest read becomes the one
      latencies are measured from; any other byte is skipped alone and changes nothing else. */
  function SkipInstruction(s: seq<Sample>, st: MosiState): (next: MosiState)
    requires st.cursor < |s| && !IsSpiRead(s[st.cursor].value)
    ensures st.cursor < next.cursor && next.instrIndex == st.instrIndex + 1
    ensures next.accesses == st.accesses && next.endTime == st.endTime
    ensures next.lastEnd == if IsOpcode(s[st.cursor].value) then st.endTime else st.lastEnd
    ensures !IsOpcode(s[st.cursor].value) ==> next.cursor == st.cursor + 1
  {
    var c := st.cursor;
    var op := s[c].value;
    if IsOpcode(op) then
      var d := if ExpectsData(op) then CountDataBytes(c + FrameSize(op), Values(s)) else 0;
      st.(cursor := c + FrameSize(op) + d, instrIndex := st.instrIndex + 1, lastEnd := st.endTime)
    else
      st.(cursor := c + 1, instrIndex := st.instrIndex + 1)
  }

  /** One iteration of the decoding loop, on the sample at the cursor. */
  function MosiStep(s: seq<Sample>, table: seq<Binding>, st: MosiState): (r: Result<MosiState, DecodeError>)
    requires st.cursor < |s|
    ensures r.Err? <==> IsSpiRead(s[st.cursor].value)
                        && (st.cursor == |s| - 1 || !AllBytes(AddressSamples(s, st.cursor)))
    ensures r.Ok? ==> st.cursor < r.value.cursor && r.value.instrIndex == st.instrIndex + 1
  {
    if IsSpiRead(s[st.cursor].value) then DecodeRead(s, table, st) else Ok(SkipInstruction(s, st))
  }

  lemma ReadKeepsDecoded(s: seq<Sample>, table: seq<Binding>, st: MosiState, next: MosiState)
    requires st.cursor < |s| && IsSpiRead(s[st.cursor].value) && Decoded(s, table, st)
    requires DecodeRead(s, table, st) == Ok(next)
    ensures Decoded(s, table, next)
  {
    var c := st.cursor;
    ReadRecorded(s, table, st);
    var a := next.accesses[s[c].time];
    assert ReadAt(s, table, c, a) && next.lastEnd == a.end;
    assert LatencyFromEarlier(s, c, a.start, a.latency);
    assert FromCapture(s, table, a);
    assert c + a.size < next.cursor;
  }

  lemma StepKeepsDecoded(s: seq<Sample>, table: seq<Binding>, st: MosiState, next: MosiState)
    requires st.cursor < |s|
    requires MosiStep(s, table, st) == Ok(next)
    ensures Decoded(s, table, st) ==> Decoded(s, table, next)
  {
    if !Decoded(s, table, st) {
    } else if IsSpiRead(s[st.cursor].value) {
      ReadKeepsDecoded(s, table, st, next);
    } else {
      assert SkipInstruction(s, st) == next;
    }
  }

  lemma BytesInAddress(s: seq<Sample>, c: nat)
    requires c < |s|
    ensures AllBytes(Values(s)) ==> AllBytes(AddressSamples(s, c))
  {
  }

  /** The decoding loop from state `st` to the end of the capture. */
  function ScanMosi(s: seq<Sample>, table: seq<Binding>, st: MosiState): (r: Result<MosiState, DecodeError>)
    ensures r.Ok? ==> r.value.cursor >= |s| && r.value.instrIndex >= st.instrIndex
    decreases |s| - st.cursor
  {
    if st.cursor >= |s| then Ok(st)
    else
      match MosiStep(s, table, st)
      case Err(e) => Err(e)
      case Ok(next) => ScanMosi(s, table, next)
  }

  /** One iteration of the loop, then the rest of it. */
  lemma ScanStep(s: seq<Sample>, table: seq<Binding>, st: MosiState, next: MosiState)
    requires st.cursor < |s| && MosiStep(s, table, st) == Ok(next)
    ensures ScanMosi(s, table, st) == ScanMosi(s, table, next)
  {
  }

  /** A chain of states each of which steps to the next, ending at or past the end of the capture, is
      the loop's run: from any state of the chain the loop ends in the last. */
  lemma {:induction false} ScanChain(s: seq<Sample>, table: seq<Binding>, sts: seq<MosiState>, i: nat)
    requires i < |sts|
    requires forall j | 0 <= j < |sts| - 1 :: sts[j].cursor < |s| && MosiStep(s, table, sts[j]) == Ok(sts[j + 1])
    requires sts[|sts| - 1].cursor >= |s|
    ensures ScanMosi(s, table, sts[i]) == Ok(sts[|sts| - 1])
    decreases |sts| - i
  {
    if i < |sts| - 1 {
      ScanStep(s, table, sts[i], sts[i + 1]);
      ScanChain(s, table, sts, i + 1);
    }
  }

  /** Every state the loop passes through satisfies `Decoded`. */
  lemma {:induction false} ScanKeepsDecoded(s: seq<Sample>, table: seq<Binding>, st: MosiState)
    requires Decoded(s, table, st) && ScanMosi(s, table, st).Ok?
    ensures Decoded(s, table, ScanMosi(s, table, st).value)
    decreases |s| - st.cursor
  {
    if st.cursor < |s| {
      var next := MosiStep(s, table, st).value;
      StepKeepsDecoded(s, table, st, next);
      ScanKeepsDecoded(s, table, next);
    }
  }

  /** The loop stops with an error exactly at a read opcode, at or after the cursor, that sits on
      the last sample or whose address samples are not bytes. */
  lemma {:induction false} ScanErrors(s: seq<Sample>, table: seq<Binding>, st: MosiState)
    requires ScanMosi(s, table, st).Err?
    ensures var e := ScanMosi(s, table, st).error;
            exists i :: st.cursor <= i < |s| && IsSpiRead(s[i].value)
                        && ((i == |s| - 1 && e == ReadAtLastSample(i))
                            || (!AllBytes(AddressSamples(s, i)) && e == AddressNotBytes(i)))
    decreases |s| - st.cursor
  {
    var c := st.cursor;
    var e := ScanMosi(s, table, st).error;
    match MosiStep(s, table, st)
    case Err(e0) =>
      assert e == e0 && IsSpiRead(s[c].value);
      assert (c == |s| - 1 && e == ReadAtLastSample(c)) || (!AllBytes(AddressSamples(s, c)) && e == AddressNotBytes(c));
    case Ok(next) =>
      ScanErrors(s, table, next);
  }

  /** A capture of bytes that does not end on a read opcode always decodes. */
  lemma {:induction false} ScanSucceeds(s: seq<Sample>, table: seq<Binding>, st: MosiState)
    ensures |s| > 0 && AllBytes(Values(s)) && !IsSpiRead(s[|s| - 1].value) ==> ScanMosi(s, table, st).Ok?
    decreases |s| - st.cursor
  {
    if st.cursor < |s| && AllBytes(Values(s)) && !IsSpiRead(s[|s| - 1].value) {
      BytesInAddress(s, st.cursor);
      ScanSucceeds(s, table, MosiStep(s, table, st).value);
    }
  }

  /** The single-line branch of the access finder: every access comes from a read opcode of the
      capture, as `ReadAt` describes, under its own start time. */
  function DecodeMosi(s: seq<Sample>, table: seq<Binding>): (r: Result<map<int, Access>, DecodeError>)
    ensures r == Err(EmptyCapture) <==> |s| == 0
    ensures r.Ok? ==> KeyedByStart(r.value)
    ensures r.Ok? ==> forall k | k in r.value :: FromCapture(s, table, r.value[k])
    ensures r.Err? && |s| > 0 ==> exists i :: 0 <= i < |s| && IsSpiRead(s[i].value)
    ensures |s| > 0 && AllBytes(Values(s)) && !IsSpiRead(s[|s| - 1].value) ==> r.Ok?
  {
    if |s| == 0 then Err(EmptyCapture)
    else
      match ScanMosi(s, table, InitialMosi(s))
      case Err(e) =>
        ScanErrors(s, table, InitialMosi(s));
        ScanSucceeds(s, table, InitialMosi(s));
        Err(e)
      case Ok(st) =>
        ScanKeepsDecoded(s, table, InitialMosi(s));
        Ok(st.accesses)
  }

  /** With timestamps that never decrease, no access has a negative duration, and its latency is
      either non-negative or measured from time zero (no instruction preceded it). */
  lemma MosiTimingSane(s: seq<Sample>, table: seq<Binding>, m: map<int, Access>)
    requires Monotonic(s) && DecodeMosi(s, table) == Ok(m)
    ensures forall k | k in m :: m[k].duration >= 0 && (m[k].latency >= 0 || m[k].latency == m[k].start)
  {
    forall k | k in m
      ensures m[k].duration >= 0 && (m[k].latency >= 0 || m[k].latency == m[k].start)
    {
      assert FromCapture(s, table, m[k]);
      var i :| 0 <= i < |s| && ReadAt(s, table, i, m[k]) && LatencyFromEarlier(s, i, m[k].start, m[k].latency);
      assert s[i].time <= s[i + m[k].size].time;
    }
  }

  /** A capture without read opcodes decodes to no accesses. */
  lemma NoReadsNoAccesses(s: seq<Sample>, table: seq<Binding>)
    requires |s| > 0 && forall i | 0 <= i < |s| :: !IsSpiRead(s[i].value)
    ensures DecodeMosi(s, table) == Ok(map[])
  {
    var r := DecodeMosi(s, table);
    assert r.Ok?;
    assert forall k :: k !in r.value;
    assert r.value.Keys == {};
  }
}
