/**
 * What the quad-I/O decoder recovers from a well-behaved capture: a series of reads, each the
 * opcode packet, the address packet (wider than a byte) and byte-sized data packets. Every read is
 * found with its opcode's annotation and its address, but the reconstruction carries two
 * artefacts of the loop: the final read loses its last data packet (the loop stops before the
 * last sample), and each latency is measured from the end of the read two places earlier, since
 * the end time a read stores when it opens is the one set when the previous read opened.
 */
module ValueRoundTrip {
  import opened Wrappers
  import opened Classifier
  import opened Captures
  import opened Accesses
  import opened ValueDecoder
  import opened Framing

  datatype QuadRead = QuadRead(op: int, address: int, payload: seq<int>)

  /** A read the decoder can delimit: a read opcode, an address wider than a byte and data
      packets that are bytes (so no data packet is followed by an address-like value). */
  predicate WellFormed(r: QuadRead) {
    && IsValueRead(r.op)
    && r.address > 0xFF
    && forall i | 0 <= i < |r.payload| :: r.payload[i] <= 0xFF
  }

  predicate AllWellFormed(rs: seq<QuadRead>) {
    forall k | 0 <= k < |rs| :: WellFormed(rs[k])
  }

  function Encode(r: QuadRead): (e: seq<int>)
    ensures |e| == |r.payload| + 2
  {
    [r.op, r.address] + r.payload
  }

  /** The value samples of a series of reads, back to back. */
  function EncodeAll(rs: seq<QuadRead>): seq<int> {
    Concat(Frames(rs, Encode))
  }

  /** Where the `k`-th read's opcode sits. */
  function Start(rs: seq<QuadRead>, k: nat): nat
    requires k <= |rs|
  {
    Offset(Frames(rs, Encode), k)
  }

  /** The `k`-th read sits at its offset and is followed by the next one. */
  lemma ReadInPlace(rs: seq<QuadRead>, k: nat)
    requires k < |rs|
    ensures Start(rs, k + 1) == Start(rs, k) + |rs[k].payload| + 2 <= |EncodeAll(rs)|
    ensures EncodeAll(rs)[Start(rs, k) .. Start(rs, k + 1)] == Encode(rs[k])
  {
    FrameInPlace(Frames(rs, Encode), k);
  }

  /** The `k`-th read's samples end where the next read's begin. */
  lemma ReadBounds(rs: seq<QuadRead>, k: nat)
    requires k < |rs|
    ensures Start(rs, k + 1) == Start(rs, k) + |rs[k].payload| + 2 <= |EncodeAll(rs)|
  {
    ReadInPlace(rs, k);
  }

  /** The decoder's size of the `k`-th read: its data packets, but one fewer for the last read
      when it has any. */
  function SizeOf(rs: seq<QuadRead>, k: nat): nat
    requires k < |rs|
  {
    var n := |rs[k].payload|;
    if k + 1 < |rs| || n == 0 then n else n - 1
  }

  /** The sample the `k`-th read ends at: its last counted data packet, or its address packet. */
  function EndOf(rs: seq<QuadRead>, times: seq<int>, k: nat): int
    requires |times| == |EncodeAll(rs)| && k < |rs|
  {
    ReadInPlace(rs, k);
    times[Start(rs, k) + 1 + SizeOf(rs, k)]
  }

  /** The end time the `k`-th read's latency is measured from: zero for the first two reads,
      otherwise the end of the read two places before it. */
  function StoredEnd(rs: seq<QuadRead>, times: seq<int>, k: nat): int
    requires |times| == |EncodeAll(rs)| && k < |rs|
  {
    if k < 2 then 0 else EndOf(rs, times, k - 2)
  }

  /** The access the decoder reports for the `k`-th read. */
  function Expected(rs: seq<QuadRead>, times: seq<int>, table: seq<Binding>, k: nat): Access
    requires |times| == |EncodeAll(rs)| && k < |rs|
  {
    ReadInPlace(rs, k);
    var start := times[Start(rs, k)];
    var end := EndOf(rs, times, k);
    Access(k, start, end, end - start, start - StoredEnd(rs, times, k), rs[k].address,
           SizeOf(rs, k), Lookup(table, rs[k].address), InfoFor(rs[k].op), None)
  }

  /** The accesses of the first `n` reads, in read order. */
  function Expecteds(rs: seq<QuadRead>, times: seq<int>, table: seq<Binding>, n: nat): (items: seq<Access>)
    requires |times| == |EncodeAll(rs)| && n <= |rs|
    ensures |items| == n && forall k | 0 <= k < n :: items[k] == Expected(rs, times, table, k)
  {
    seq(n, k requires 0 <= k < n => Expected(rs, times, table, k))
  }

  /** The accesses of the first `n` reads, each stored under its start time in read order. */
  function ExpectedMap(rs: seq<QuadRead>, times: seq<int>, table: seq<Binding>, n: nat): map<int, Access>
    requires |times| == |EncodeAll(rs)| && n <= |rs|
  {
    ByStart(Expecteds(rs, times, table, n))
  }

  lemma ExpectedMapNext(rs: seq<QuadRead>, times: seq<int>, table: seq<Binding>, n: nat)
    requires |times| == |EncodeAll(rs)| && n < |rs|
    ensures var a := Expected(rs, times, table, n);
            ExpectedMap(rs, times, table, n + 1) == ExpectedMap(rs, times, table, n)[a.start := a]
  {
    assert Expecteds(rs, times, table, n + 1)[..n] == Expecteds(rs, times, table, n);
  }

  /** The pending read the decoder holds after the `k`-th read opens. */
  function PendingFor(rs: seq<QuadRead>, times: seq<int>, table: seq<Binding>, k: nat): Pending
    requires |times| == |EncodeAll(rs)| && k < |rs|
  {
    ReadInPlace(rs, k);
    Pending(k, times[Start(rs, k)], StoredEnd(rs, times, k), rs[k].address,
            Lookup(table, rs[k].address), InfoFor(rs[k].op), Start(rs, k))
  }

  /** The running end time after the `k`-th read opens: zero after the first, otherwise the end
      of the read it completes. */
  function RunningEnd(rs: seq<QuadRead>, times: seq<int>, k: nat): int
    requires |times| == |EncodeAll(rs)| && k < |rs|
  {
    if k == 0 then 0 else EndOf(rs, times, k - 1)
  }

  /** Loop state just after the `k`-th read opens. */
  function Opened(rs: seq<QuadRead>, times: seq<int>, table: seq<Binding>, k: nat): ValueState
    requires |times| == |EncodeAll(rs)| && k < |rs|
  {
    ValueState(Start(rs, k) + 2, k + 1, RunningEnd(rs, times, k), Some(PendingFor(rs, times, table, k)),
               ExpectedMap(rs, times, table, k))
  }

  /** Loop state with the cursor on the `k`-th read's opcode. */
  function Before(rs: seq<QuadRead>, times: seq<int>, table: seq<Binding>, k: nat): ValueState
    requires |times| == |EncodeAll(rs)| && k < |rs|
  {
    if k == 0 then InitialValues() else Opened(rs, times, table, k - 1).(index := Start(rs, k))
  }

  lemma BeforeNext(rs: seq<QuadRead>, times: seq<int>, table: seq<Binding>, k: nat)
    requires |times| == |EncodeAll(rs)| && k + 1 < |rs|
    ensures Before(rs, times, table, k + 1) == Opened(rs, times, table, k).(index := Start(rs, k + 1))
  {
  }

  /** A sample inside the `k`-th read. */
  lemma SampleOf(rs: seq<QuadRead>, times: seq<int>, k: nat, j: nat)
    requires |times| == |EncodeAll(rs)| && k < |rs| && j < |rs[k].payload| + 2
    ensures Start(rs, k) + j < |times|
    ensures Zip(times, EncodeAll(rs))[Start(rs, k) + j] == Sample(times[Start(rs, k) + j], Encode(rs[k])[j])
  {
    SampleInFrame(Frames(rs, Encode), k, j);
  }

  /** A read opens at each read's opcode. */
  lemma OpensAtRead(rs: seq<QuadRead>, times: seq<int>, k: nat)
    requires AllWellFormed(rs) && |times| == |EncodeAll(rs)| && k < |rs|
    ensures var s, p := Zip(times, EncodeAll(rs)), Start(rs, k);
            && OpensAt(s, p)
            && s[p] == Sample(times[p], rs[k].op)
            && s[p + 1].value == rs[k].address
  {
    SampleOf(rs, times, k, 0);
    SampleOf(rs, times, k, 1);
  }

  /** No read opens among a read's data packets. */
  lemma QuietPayload(rs: seq<QuadRead>, times: seq<int>, k: nat)
    requires AllWellFormed(rs) && |times| == |EncodeAll(rs)| && k < |rs|
    ensures forall q | Start(rs, k) + 2 <= q < Start(rs, k + 1) :: !OpensAt(Zip(times, EncodeAll(rs)), q)
  {
    var s := Zip(times, EncodeAll(rs));
    var p := Start(rs, k);
    ReadInPlace(rs, k);
    forall q | p + 2 <= q < Start(rs, k + 1)
      ensures !OpensAt(s, q)
    {
      if q + 1 < Start(rs, k + 1) {
        SampleOf(rs, times, k, q + 1 - p);
        assert s[q + 1].value == rs[k].payload[q - 1 - p];
      } else if k + 1 < |rs| {
        OpensAtRead(rs, times, k + 1);
      }
    }
  }

  /** When the next read opens, the pending `k`-th read completes as the expected access. */
  lemma CloseMatches(rs: seq<QuadRead>, times: seq<int>, table: seq<Binding>, k: nat)
    requires |times| == |EncodeAll(rs)| && k + 1 < |rs|
    ensures var s := Zip(times, EncodeAll(rs));
            && Start(rs, k) + 2 <= Start(rs, k + 1) < |s|
            && Close(s, PendingFor(rs, times, table, k), Start(rs, k + 1)) == Expected(rs, times, table, k)
  {
    var s := Zip(times, EncodeAll(rs));
    ReadBounds(rs, k);
    ReadBounds(rs, k + 1);
    var e := Start(rs, k + 1) - 1;
    assert s[e].time == times[e];
  }

  lemma BeforeFields(rs: seq<QuadRead>, times: seq<int>, table: seq<Binding>, k: nat)
    requires |times| == |EncodeAll(rs)| && k < |rs|
    ensures var st := Before(rs, times, table, k);
            && Consistent(Zip(times, EncodeAll(rs)), st)
            && st.index == Start(rs, k) && st.instrIndex == k
            && st.lastEnd == StoredEnd(rs, times, k)
            && (k == 0 ==> st.pending.None? && st.accesses == map[])
            && (k > 0 ==> st.pending == Some(PendingFor(rs, times, table, k - 1))
                          && st.accesses == ExpectedMap(rs, times, table, k - 1))
  {
    ReadInPlace(rs, k);
    if k > 0 {
      ReadInPlace(rs, k - 1);
    }
  }

  lemma OpenedFields(rs: seq<QuadRead>, times: seq<int>, table: seq<Binding>, k: nat)
    requires |times| == |EncodeAll(rs)| && k < |rs|
    ensures var op := Opened(rs, times, table, k);
            && op.index == Start(rs, k) + 2 && op.instrIndex == k + 1
            && op.lastEnd == RunningEnd(rs, times, k)
            && op.pending == Some(PendingFor(rs, times, table, k))
            && op.accesses == ExpectedMap(rs, times, table, k)
  {
  }

  /** The step on the `k`-th read's opcode opens it, completing the read before it. */
  lemma OpenStep(rs: seq<QuadRead>, times: seq<int>, table: seq<Binding>, k: nat)
    requires AllWellFormed(rs) && |times| == |EncodeAll(rs)| && k < |rs|
    ensures var s := Zip(times, EncodeAll(rs));
            && Consistent(s, Before(rs, times, table, k))
            && Start(rs, k) < |s| - 1
            && ValueStep(s, table, Before(rs, times, table, k)) == Opened(rs, times, table, k)
  {
    if k == 0 {
      OpenFirst(rs, times, table);
    } else {
      OpenNext(rs, times, table, k);
    }
  }

  /** Opening the first read: nothing is pending yet, so nothing completes. */
  lemma OpenFirst(rs: seq<QuadRead>, times: seq<int>, table: seq<Binding>)
    requires AllWellFormed(rs) && |times| == |EncodeAll(rs)| && 0 < |rs|
    ensures var s := Zip(times, EncodeAll(rs));
            && Consistent(s, Before(rs, times, table, 0))
            && Start(rs, 0) < |s| - 1
            && ValueStep(s, table, Before(rs, times, table, 0)) == Opened(rs, times, table, 0)
  {
    var s := Zip(times, EncodeAll(rs));
    var st := Before(rs, times, table, 0);
    BeforeFields(rs, times, table, 0);
    OpensAtRead(rs, times, 0);
    OpenFields(s, table, st);
    OpenedFields(rs, times, table, 0);
    var next := ValueStep(s, table, st);
    var op := Opened(rs, times, table, 0);
    assert PendingFor(rs, times, table, 0)
           == Pending(st.instrIndex, s[st.index].time, st.lastEnd, s[st.index + 1].value,
                      Lookup(table, s[st.index + 1].value), InfoFor(s[st.index].value), st.index);
    assert Expecteds(rs, times, table, 0) == [];
    assert next.accesses == op.accesses;
  }

  /** Opening a later read completes the one before it. */
  lemma OpenNext(rs: seq<QuadRead>, times: seq<int>, table: seq<Binding>, k: nat)
    requires AllWellFormed(rs) && |times| == |EncodeAll(rs)| && 0 < k < |rs|
    ensures var s := Zip(times, EncodeAll(rs));
            && Consistent(s, Before(rs, times, table, k))
            && Start(rs, k) < |s| - 1
            && ValueStep(s, table, Before(rs, times, table, k)) == Opened(rs, times, table, k)
  {
    var s := Zip(times, EncodeAll(rs));
    var st := Before(rs, times, table, k);
    BeforeFields(rs, times, table, k);
    OpensAtRead(rs, times, k);
    OpenFields(s, table, st);
    OpenedFields(rs, times, table, k);
    var next := ValueStep(s, table, st);
    var op := Opened(rs, times, table, k);
    assert PendingFor(rs, times, table, k)
           == Pending(st.instrIndex, s[st.index].time, st.lastEnd, s[st.index + 1].value,
                      Lookup(table, s[st.index + 1].value), InfoFor(s[st.index].value), st.index);
    CloseMatches(rs, times, table, k - 1);
    ExpectedMapNext(rs, times, table, k - 1);
    assert next.lastEnd == op.lastEnd;
    assert next.accesses == op.accesses;
  }

  /** The index the loop stops at: the last sample, or past it when the last read has no data. */
  function FinalIndex(rs: seq<QuadRead>): nat
    requires |rs| > 0
  {
    var n := |EncodeAll(rs)|;
    if |rs[|rs| - 1].payload| == 0 then n else n - 1
  }

  /** Loop state when the loop stops: the last read is pending and the cursor is at the final
      index. */
  function Final(rs: seq<QuadRead>, times: seq<int>, table: seq<Binding>): ValueState
    requires |times| == |EncodeAll(rs)| && 0 < |rs|
  {
    Opened(rs, times, table, |rs| - 1).(index := FinalIndex(rs))
  }

  /** From the `k`-th read's opcode the loop runs to its final state. */
  predicate ScansToFinal(rs: seq<QuadRead>, times: seq<int>, table: seq<Binding>, k: nat)
    requires |times| == |EncodeAll(rs)| && k < |rs|
  {
    var s := Zip(times, EncodeAll(rs));
    Consistent(s, Before(rs, times, table, k))
    && ScanValues(s, table, Before(rs, times, table, k)) == Final(rs, times, table)
  }

  /** From the `k`-th read's opcode the loop opens that read and skips its data up to the next
      read's opcode, from where it continues. */
  lemma ScanToNext(rs: seq<QuadRead>, times: seq<int>, table: seq<Binding>, k: nat)
    requires AllWellFormed(rs) && |times| == |EncodeAll(rs)| && k + 1 < |rs|
    requires ScansToFinal(rs, times, table, k + 1)
    ensures ScansToFinal(rs, times, table, k)
  {
    var s := Zip(times, EncodeAll(rs));
    var st := Before(rs, times, table, k);
    OpenStep(rs, times, table, k);
    ScanStep(s, table, st);
    var op := Opened(rs, times, table, k);
    ReadBounds(rs, k);
    ReadBounds(rs, k + 1);
    QuietPayload(rs, times, k);
    SkipQuiet(s, table, op, Start(rs, k + 1));
    BeforeNext(rs, times, table, k);
  }

  /** From the last read's opcode the loop opens it and stops at the final index. */
  lemma ScanLast(rs: seq<QuadRead>, times: seq<int>, table: seq<Binding>, k: nat)
    requires AllWellFormed(rs) && |times| == |EncodeAll(rs)| && k + 1 == |rs|
    ensures ScansToFinal(rs, times, table, k)
  {
    var s := Zip(times, EncodeAll(rs));
    var st := Before(rs, times, table, k);
    OpenStep(rs, times, table, k);
    ScanStep(s, table, st);
    var op := Opened(rs, times, table, k);
    ReadBounds(rs, k);
    QuietPayload(rs, times, k);
    if op.index < |s| - 1 {
      SkipQuiet(s, table, op, |s| - 1);
    }
  }

  /** From the `k`-th read's opcode the loop opens the `k`-th read and every read after it, and
      stops after the last one. */
  lemma {:induction false} ScanFrom(rs: seq<QuadRead>, times: seq<int>, table: seq<Binding>, k: nat)
    requires AllWellFormed(rs) && |times| == |EncodeAll(rs)| && k < |rs|
    ensures ScansToFinal(rs, times, table, k)
    decreases |rs| - k
  {
    if k + 1 < |rs| {
      ScanFrom(rs, times, table, k + 1);
      ScanToNext(rs, times, table, k);
    } else {
      ScanLast(rs, times, table, k);
    }
  }

  /** Completing the last read at the final index yields its expected access. */
  lemma FinalClose(rs: seq<QuadRead>, times: seq<int>, table: seq<Binding>)
    requires |times| == |EncodeAll(rs)| && 0 < |rs|
    ensures var k := |rs| - 1;
            && Start(rs, k) + 2 <= FinalIndex(rs) <= |times|
            && Close(Zip(times, EncodeAll(rs)), PendingFor(rs, times, table, k), FinalIndex(rs))
               == Expected(rs, times, table, k)
  {
    var k := |rs| - 1;
    var s := Zip(times, EncodeAll(rs));
    ReadBounds(rs, k);
    var e := FinalIndex(rs) - 1;
    assert s[e].time == times[e];
  }

  /** Round trip: decoding the value samples of well-formed reads reports one access per read, in
      order, each with the read's address and annotation, its data length (one less for the final
      read), its start at its opcode and its end at its last counted data packet, and its latency
      measured from the end of the read two places before it (from zero for the first two). */
  lemma ValueRoundTrip(rs: seq<QuadRead>, times: seq<int>, table: seq<Binding>)
    requires AllWellFormed(rs) && 0 < |rs| && |times| == |EncodeAll(rs)|
    ensures DecodeValues(Zip(times, EncodeAll(rs)), table) == Ok(ExpectedMap(rs, times, table, |rs|))
  {
    var s := Zip(times, EncodeAll(rs));
    ReadInPlace(rs, 0);
    assert Before(rs, times, table, 0) == InitialValues();
    ScanFrom(rs, times, table, 0);
    FinalClose(rs, times, table);
    ExpectedMapNext(rs, times, table, |rs| - 1);
  }

  lemma ExpectedStart(rs: seq<QuadRead>, times: seq<int>, table: seq<Binding>, k: nat)
    requires |times| == |EncodeAll(rs)| && k < |rs|
    ensures Start(rs, k) < |times| && Expected(rs, times, table, k).start == times[Start(rs, k)]
  {
    ReadInPlace(rs, k);
  }

  /** Later reads start at later samples. */
  lemma OpcodesAdvance(rs: seq<QuadRead>, times: seq<int>, j: nat, k: nat)
    requires |times| == |EncodeAll(rs)| && StrictlyIncreasing(times) && j < k < |rs|
    ensures Start(rs, j) < Start(rs, k) < |times| && times[Start(rs, j)] < times[Start(rs, k)]
  {
    ReadInPlace(rs, j);
    ReadInPlace(rs, k);
    OffsetGrows(Frames(rs, Encode), j + 1, k);
  }

  /** With distinct start times no read replaces another: the `k`-th read is found under its
      start time, and there is one access per read. */
  lemma ExpectedMapAt(rs: seq<QuadRead>, times: seq<int>, table: seq<Binding>, n: nat, k: nat)
    requires |times| == |EncodeAll(rs)| && StrictlyIncreasing(times) && k < n <= |rs|
    ensures Start(rs, k) < |times|
    ensures times[Start(rs, k)] in ExpectedMap(rs, times, table, n)
    ensures ExpectedMap(rs, times, table, n)[times[Start(rs, k)]] == Expected(rs, times, table, k)
    ensures |ExpectedMap(rs, times, table, n)| == n
  {
    var items := Expecteds(rs, times, table, n);
    forall i, j | 0 <= i < j < n
      ensures items[i].start < items[j].start
    {
      ExpectedStart(rs, times, table, i);
      ExpectedStart(rs, times, table, j);
      OpcodesAdvance(rs, times, i, j);
    }
    ExpectedStart(rs, times, table, k);
    ByStartAt(items, k);
    ByStartSize(items);
  }

  /** The expected latency of a read from the third on, in terms of the capture. */
  lemma ExpectedLatency(rs: seq<QuadRead>, times: seq<int>, table: seq<Binding>, k: nat)
    requires |times| == |EncodeAll(rs)| && 2 <= k < |rs|
    ensures 1 <= Start(rs, k - 1) && Start(rs, k) < |times|
    ensures Expected(rs, times, table, k).latency == times[Start(rs, k)] - times[Start(rs, k - 1) - 1]
  {
    ReadInPlace(rs, k - 2);
    ReadInPlace(rs, k - 1);
    ReadInPlace(rs, k);
  }

  /** The latency quirk, stated on the capture: with increasing timestamps, the latency of every
      read from the third on is measured from the sample just before the previous read's opcode
      (where the read two places earlier ends), not from the sample just before its own opcode. */
  lemma LatencyTwoBack(rs: seq<QuadRead>, times: seq<int>, table: seq<Binding>, k: nat)
    requires AllWellFormed(rs) && |times| == |EncodeAll(rs)| && StrictlyIncreasing(times)
    requires 2 <= k < |rs|
    ensures 1 <= Start(rs, k - 1) && Start(rs, k) < |times|
    ensures var r := DecodeValues(Zip(times, EncodeAll(rs)), table);
            && r.Ok? && times[Start(rs, k)] in r.value
            && r.value[times[Start(rs, k)]].latency == times[Start(rs, k)] - times[Start(rs, k - 1) - 1]
  {
    ValueRoundTrip(rs, times, table);
    ExpectedMapAt(rs, times, table, |rs|, k);
    ExpectedLatency(rs, times, table, k);
  }

  /** The first two reads' latencies are measured from time zero. */
  lemma LatencyFromZero(rs: seq<QuadRead>, times: seq<int>, table: seq<Binding>, k: nat)
    requires AllWellFormed(rs) && |times| == |EncodeAll(rs)| && StrictlyIncreasing(times)
    requires k < 2 && k < |rs|
    ensures Start(rs, k) < |times|
    ensures var r := DecodeValues(Zip(times, EncodeAll(rs)), table);
            && r.Ok? && times[Start(rs, k)] in r.value
            && r.value[times[Start(rs, k)]].latency == times[Start(rs, k)]
  {
    ValueRoundTrip(rs, times, table);
    ExpectedMapAt(rs, times, table, |rs|, k);
  }
}
