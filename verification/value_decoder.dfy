/**
 * The quad-I/O branch of the access finder: the capture holds one value per transfer, where a
 * read opcode followed by a value wider than a byte (the address) opens a read. A read's extent
 * is only known when the next read opens (or the capture ends), so the loop keeps the latest read
 * pending and completes it then; its size is the number of samples between its address and that
 * point, and it ends at the sample just before that point.
 */
module ValueDecoder {
  import opened Wrappers
  import opened Classifier
  import opened Captures
  import opened Accesses

  /** Opcodes that open a read: Read Data, Fast Read, Fast Read Quad I/O, Word Read Quad I/O,
      Octal Word Read Quad I/O and the 4-byte-address Fast Read Quad I/O (0xEC). */
  predicate IsValueRead(v: int) {
    v == 0x03 || v == 0x0B || v == 0xEB || v == 0xE7 || v == 0xE3 || v == 0xEC
  }

  /** The three quad-I/O reads the "info" column marks. */
  predicate IsQuadRead(v: int) {
    v == 0xEB || v == 0xE7 || v == 0xE3
  }

  /** A read opens at sample `i`: a read opcode whose next value is wider than a byte. */
  predicate OpensAt(s: seq<Sample>, i: int) {
    0 <= i && i + 1 < |s| && IsValueRead(s[i].value) && s[i + 1].value > 0xFF
  }

  /** The "info" column of a read opened by `op`. */
  function InfoFor(op: int): (info: seq<Tag>)
    ensures info == [Qspi] || info == []
  {
    if IsQuadRead(op) then [Qspi] else []
  }

  /** A read whose extent is not known yet: where it opened and what was known there, including
      the end time latencies were measured from at that moment. */
  datatype Pending = Pending(
    instrIndex: nat,
    start: int,
    storedLastEnd: int,
    address: int,
    region: Option<Label>,
    info: seq<Tag>,
    openedAt: nat)

  /** Loop state: the cursor, the read counter, the running end time, the pending read (present
      exactly once a read has opened) and the completed reads under their start times. */
  datatype ValueState = ValueState(
    index: nat,
    instrIndex: nat,
    lastEnd: int,
    pending: Option<Pending>,
    accesses: map<int, Access>)

  function InitialValues(): ValueState {
    ValueState(0, 0, 0, None, map[])
  }

  /** Completing the pending read with the cursor at `index`: its size leaves out the opcode and
      address samples, it ends at the sample before `index`, and its latency is measured from the
      end time stored when it opened. */
  function Close(s: seq<Sample>, p: Pending, index: nat): (a: Access)
    requires p.openedAt + 2 <= index <= |s|
    ensures a.size >= 0 && p.openedAt + a.size + 2 == index
    ensures a.end == s[p.openedAt + a.size + 1].time && a.duration == a.end - a.start
    ensures a.start == p.start && a.latency == p.start - p.storedLastEnd
    ensures a.instrIndex == p.instrIndex && a.address == p.address && a.region == p.region
    ensures a.info == p.info && a.dupCount == None
  {
    var end := s[index - 1].time;
    Access(p.instrIndex, p.start, end, end - p.start, p.start - p.storedLastEnd, p.address,
           index - p.openedAt - 2, p.region, p.info, None)
  }

  /** What the loop keeps between iterations. */
  predicate Consistent(s: seq<Sample>, st: ValueState) {
    && st.index <= |s|
    && (st.pending.Some? <==> st.instrIndex > 0)
    && (st.pending.Some? ==> st.pending.value.openedAt + 2 <= st.index)
  }

  /** One iteration: a read opening at the cursor completes the pending read (if any), becomes
      the pending read and skips the opcode and address; any other sample is skipped alone. */
  function ValueStep(s: seq<Sample>, table: seq<Binding>, st: ValueState): (next: ValueState)
    requires st.index < |s| - 1 && Consistent(s, st)
    ensures Consistent(s, next) && st.index < next.index
    ensures OpensAt(s, st.index) ==> next.index == st.index + 2 && next.instrIndex == st.instrIndex + 1
    ensures !OpensAt(s, st.index) ==> next == st.(index := st.index + 1)
  {
    var i := st.index;
    if OpensAt(s, i) then
      var address := s[i + 1].value;
      var p := Pending(st.instrIndex, s[i].time, st.lastEnd, address, Lookup(table, address), InfoFor(s[i].value), i);
      match st.pending
      case None => ValueState(i + 2, st.instrIndex + 1, 0, Some(p), st.accesses)
      case Some(q) =>
        var a := Close(s, q, i);
        ValueState(i + 2, st.instrIndex + 1, a.end, Some(p), st.accesses[q.start := a])
    else st.(index := i + 1)
  }

  /** The fields of the state after a read opens at the cursor. */
  lemma OpenFields(s: seq<Sample>, table: seq<Binding>, st: ValueState)
    requires st.index < |s| - 1 && Consistent(s, st) && OpensAt(s, st.index)
    ensures var next := ValueStep(s, table, st);
            var i := st.index;
            && next.index == i + 2 && next.instrIndex == st.instrIndex + 1
            && next.pending == Some(Pending(st.instrIndex, s[i].time, st.lastEnd, s[i + 1].value,
                                            Lookup(table, s[i + 1].value), InfoFor(s[i].value), i))
            && (st.pending.None? ==> next.lastEnd == 0 && next.accesses == st.accesses)
            && (st.pending.Some? ==>
                  var a := Close(s, st.pending.value, i);
                  next.lastEnd == a.end && next.accesses == st.accesses[a.start := a])
  {
  }

  /** The loop runs while the cursor is before the last sample. */
  function ScanValues(s: seq<Sample>, table: seq<Binding>, st: ValueState): (r: ValueState)
    requires Consistent(s, st)
    ensures Consistent(s, r)
    ensures st.index >= |s| - 1 ==> r == st
    ensures st.index < |s| - 1 ==> r.index == |s| - 1 || r.index == |s|
    decreases |s| - st.index
  {
    if st.index >= |s| - 1 then st
    else ScanValues(s, table, ValueStep(s, table, st))
  }

  /** One iteration of the loop, then the rest of it. */
  lemma ScanStep(s: seq<Sample>, table: seq<Binding>, st: ValueState)
    requires st.index < |s| - 1 && Consistent(s, st)
    ensures ScanValues(s, table, st) == ScanValues(s, table, ValueStep(s, table, st))
  {
  }

  /** Samples at which no read opens are skipped one by one and change nothing else. */
  lemma {:induction false} SkipQuiet(s: seq<Sample>, table: seq<Binding>, st: ValueState, b: nat)
    requires Consistent(s, st) && st.index <= b <= |s| - 1
    requires forall q | st.index <= q < b :: !OpensAt(s, q)
    ensures Consistent(s, st.(index := b))
    ensures ScanValues(s, table, st) == ScanValues(s, table, st.(index := b))
    decreases b - st.index
  {
    if st.index < b {
      var next := ValueStep(s, table, st);
      assert next == st.(index := st.index + 1);
      SkipQuiet(s, table, next, b);
      assert next.(index := b) == st.(index := b);
    }
  }

  /** `a` is the read that opens at sample `i`: its start, address, region and annotation come
      from the opcode and address samples; no read opens among its data samples; the sample after
      them opens the next read or lies at the end of the capture; and it ends at its last data
      sample (at its address sample when it has none). */
  predicate ValueReadAt(s: seq<Sample>, table: seq<Binding>, i: int, a: Access) {
    && OpensAt(s, i)
    && a.start == s[i].time && a.address == s[i + 1].value && a.region == Lookup(table, a.address)
    && a.info == InfoFor(s[i].value) && a.dupCount == None
    && 0 <= a.size && i + a.size + 1 < |s|
    && a.end == s[i + a.size + 1].time && a.duration == a.end - a.start
    && (forall q | i + 2 <= q < i + a.size + 2 :: !OpensAt(s, q))
    && (i + a.size + 2 >= |s| - 1 || OpensAt(s, i + a.size + 2))
  }

  /** `a` is a read the capture opens somewhere, with a latency measured from time zero or from an
      earlier sample. */
  predicate FromValues(s: seq<Sample>, table: seq<Binding>, a: Access) {
    exists i | 0 <= i < |s| :: ValueReadAt(s, table, i, a) && LatencyFromEarlier(s, i, a.start, a.latency)
  }

  /** The pending read `p` opened at its sample, and no read has opened since, up to `index`. */
  predicate PendingAt(s: seq<Sample>, table: seq<Binding>, p: Pending, index: nat) {
    && OpensAt(s, p.openedAt)
    && p.start == s[p.openedAt].time && p.address == s[p.openedAt + 1].value
    && p.region == Lookup(table, p.address) && p.info == InfoFor(s[p.openedAt].value)
    && (forall q | p.openedAt + 2 <= q < index :: !OpensAt(s, q))
    && LatencyFromEarlier(s, p.openedAt, p.start, p.start - p.storedLastEnd)
  }

  /** What the decoding loop maintains. */
  predicate ValuesDecoded(s: seq<Sample>, table: seq<Binding>, st: ValueState) {
    && Consistent(s, st)
    && KeyedByStart(st.accesses)
    && (forall k | k in st.accesses :: FromValues(s, table, st.accesses[k]))
    && (st.pending.Some? ==> PendingAt(s, table, st.pending.value, st.index))
    && (st.lastEnd == 0 || exists j :: 0 <= j < st.index && st.lastEnd == s[j].time)
  }

  /** Completing a pending read where the next read opens, or at the end of the capture, yields
      the read that opened there. */
  lemma CloseReads(s: seq<Sample>, table: seq<Binding>, p: Pending, index: nat)
    requires PendingAt(s, table, p, index) && p.openedAt + 2 <= index <= |s|
    requires index >= |s| - 1 || OpensAt(s, index)
    ensures ValueReadAt(s, table, p.openedAt, Close(s, p, index))
    ensures FromValues(s, table, Close(s, p, index))
  {
    var a := Close(s, p, index);
    assert ValueReadAt(s, table, p.openedAt, a);
    assert LatencyFromEarlier(s, p.openedAt, a.start, a.latency);
  }

  /** The read opening at the cursor is pending with the latency base the loop had kept. */
  lemma OpenPending(s: seq<Sample>, table: seq<Binding>, st: ValueState)
    requires st.index < |s| - 1 && ValuesDecoded(s, table, st) && OpensAt(s, st.index)
    ensures PendingAt(s, table, ValueStep(s, table, st).pending.value, st.index + 2)
  {
    var p := ValueStep(s, table, st).pending.value;
    assert p.openedAt == st.index && p.storedLastEnd == st.lastEnd;
    if st.lastEnd != 0 {
      var j :| 0 <= j < st.index && st.lastEnd == s[j].time;
      assert LatencyFromEarlier(s, p.openedAt, p.start, p.start - p.storedLastEnd);
    }
  }

  /** The first read to open keeps the invariant. */
  lemma OpenFirstKeepsDecoded(s: seq<Sample>, table: seq<Binding>, st: ValueState)
    requires st.index < |s| - 1 && ValuesDecoded(s, table, st) && OpensAt(s, st.index) && st.pending.None?
    ensures ValuesDecoded(s, table, ValueStep(s, table, st))
  {
    OpenPending(s, table, st);
  }

  /** A read opening while another is pending completes that one and keeps the invariant. */
  lemma OpenNextKeepsDecoded(s: seq<Sample>, table: seq<Binding>, st: ValueState)
    requires st.index < |s| - 1 && ValuesDecoded(s, table, st) && OpensAt(s, st.index) && st.pending.Some?
    ensures ValuesDecoded(s, table, ValueStep(s, table, st))
  {
    var i := st.index;
    var q := st.pending.value;
    var next := ValueStep(s, table, st);
    var a := Close(s, q, i);
    OpenPending(s, table, st);
    CloseReads(s, table, q, i);
    StoreKeeps(s, table, st.accesses, a);
    assert next.accesses == st.accesses[a.start := a];
    assert next.lastEnd == s[i - 1].time;
  }

  /** Every stored access was read from the values. */
  predicate AllFromValues(s: seq<Sample>, table: seq<Binding>, m: map<int, Access>) {
    forall k | k in m :: FromValues(s, table, m[k])
  }

  /** Storing an access read from the values under its start keeps the stored accesses so. */
  lemma StoreKeeps(s: seq<Sample>, table: seq<Binding>, m: map<int, Access>, a: Access)
    requires KeyedByStart(m) && (forall k | k in m :: FromValues(s, table, m[k])) && FromValues(s, table, a)
    ensures KeyedByStart(m[a.start := a]) && AllFromValues(s, table, m[a.start := a])
  {
  }

  /** A sample where no read opens keeps the invariant. */
  lemma SkipKeepsDecoded(s: seq<Sample>, table: seq<Binding>, st: ValueState)
    requires st.index < |s| - 1 && ValuesDecoded(s, table, st) && !OpensAt(s, st.index)
    ensures ValuesDecoded(s, table, ValueStep(s, table, st))
  {
    if st.lastEnd != 0 {
      var j :| 0 <= j < st.index && st.lastEnd == s[j].time;
    }
  }

  lemma StepKeepsDecoded(s: seq<Sample>, table: seq<Binding>, st: ValueState)
    requires st.index < |s| - 1 && ValuesDecoded(s, table, st)
    ensures ValuesDecoded(s, table, ValueStep(s, table, st))
  {
    if !OpensAt(s, st.index) {
      SkipKeepsDecoded(s, table, st);
    } else if st.pending.None? {
      OpenFirstKeepsDecoded(s, table, st);
    } else {
      OpenNextKeepsDecoded(s, table, st);
    }
  }

  /** Every state the loop passes through satisfies `ValuesDecoded`. */
  lemma {:induction false} ScanKeepsDecoded(s: seq<Sample>, table: seq<Binding>, st: ValueState)
    requires ValuesDecoded(s, table, st)
    ensures ValuesDecoded(s, table, ScanValues(s, table, st))
    decreases |s| - st.index
  {
    if st.index < |s| - 1 {
      StepKeepsDecoded(s, table, st);
      ScanKeepsDecoded(s, table, ValueStep(s, table, st));
    }
  }

  /** The loop ends with a pending read exactly when it started with one or a read opens at or
      after its starting cursor. */
  lemma {:induction false} ScanOpens(s: seq<Sample>, table: seq<Binding>, st: ValueState)
    requires Consistent(s, st)
    ensures ScanValues(s, table, st).pending.Some?
            <==> st.pending.Some? || exists i :: st.index <= i && OpensAt(s, i)
    decreases |s| - st.index
  {
    if st.index >= |s| - 1 {
      assert forall i | st.index <= i :: !OpensAt(s, i);
    } else {
      var next := ValueStep(s, table, st);
      ScanOpens(s, table, next);
      if !OpensAt(s, st.index) {
        assert forall i | st.index <= i :: OpensAt(s, i) ==> st.index + 1 <= i;
      }
    }
  }

  /** The quad-I/O branch of the access finder. An empty capture fails before the loop; a capture
      in which no read opens fails when the final completion finds no pending read; otherwise
      every access is a read the capture opens, under its own start time. */
  function DecodeValues(s: seq<Sample>, table: seq<Binding>): (r: Result<map<int, Access>, DecodeError>)
    ensures r == Err(EmptyCapture) <==> |s| == 0
    ensures r == Err(NoReadOpened) <==> |s| > 0 && forall i :: !OpensAt(s, i)
    ensures r.Ok? ==> KeyedByStart(r.value) && forall k | k in r.value :: FromValues(s, table, r.value[k])
  {
    if |s| == 0 then Err(EmptyCapture)
    else
      var last := ScanValues(s, table, InitialValues());
      ScanOpens(s, table, InitialValues());
      ScanKeepsDecoded(s, table, InitialValues());
      match last.pending
      case None => Err(NoReadOpened)
      case Some(p) =>
        CloseReads(s, table, p, last.index);
        Ok(last.accesses[p.start := Close(s, p, last.index)])
  }
}
