/**
 * Duplicate aggregation. Several PSPs fetching the same flash contents at about the same time
 * produce runs of reads of one address; the stage keeps the first read of such a run as its
 * "original", counts the repeats into it (up to a fixed maximum) and drops them. Recently seen
 * addresses are remembered in a bounded window that forgets its oldest address when full.
 */
module Aggregation {
  import opened Wrappers
  import opened Accesses

  /** At most this many reads are counted into one original. */
  const MaximumAggregationCount: int := 8

  /** The window remembers this many addresses. */
  const WindowLength: nat := 200

  /** A remembered address and the start time of its original. */
  datatype Slot = Slot(address: int, original: int)

  /** Appending to the bounded window: the new slot goes last, and the oldest slot is forgotten
      when the window is full. */
  function Remember(w: seq<Slot>, s: Slot): (r: seq<Slot>)
    requires |w| <= WindowLength
    ensures |r| == if |w| < WindowLength then |w| + 1 else WindowLength
    ensures r[|r| - 1] == s
    ensures forall i | 0 <= i < |r| - 1 :: r[i] == w[i + |w| + 1 - |r|]
  {
    if |w| < WindowLength then w + [s] else w[1..] + [s]
  }

  /** The first slot remembering `address`, if any. */
  function FindSlot(w: seq<Slot>, address: int): (r: Option<nat>)
    ensures r.None? <==> forall i | 0 <= i < |w| :: w[i].address != address
    ensures r.Some? ==> r.value < |w| && w[r.value].address == address
                        && forall j | 0 <= j < r.value :: w[j].address != address
  {
    if |w| == 0 then None
    else if w[0].address == address then Some(0)
    else match FindSlot(w[1..], address)
      case None => None
      case Some(i) => Some(i + 1)
  }

  /** Deleting the slot at `i`. */
  function Forget(w: seq<Slot>, i: nat): (r: seq<Slot>)
    requires i < |w|
    ensures |r| == |w| - 1
    ensures forall j | 0 <= j < i :: r[j] == w[j]
    ensures forall j | i <= j < |r| :: r[j] == w[j + 1]
  {
    w[..i] + w[i + 1..]
  }

  /** The loop state: the window and the originals found so far. */
  datatype AggState = AggState(window: seq<Slot>, out: map<int, Access>)

  /** The duplicate count of `a`, zero when it has none. */
  function CountOf(a: Access): int {
    match a.dupCount
    case None => 0
    case Some(n) => n
  }

  /** The duplicate count of `a` is present and lies between one and the maximum. */
  predicate CountInRange(a: Access) {
    a.dupCount.Some? && 1 <= CountOf(a) <= MaximumAggregationCount
  }

  /** Every original found so far is an access of `m` whose only change is its count. */
  predicate Shadows(out: map<int, Access>, m: map<int, Access>) {
    forall u | u in out :: u in m && CountInRange(out[u]) && out[u] == m[u].(dupCount := out[u].dupCount)
  }

  /** Every slot of `w` names an original of `out`. */
  predicate SlotsIn(w: seq<Slot>, out: map<int, Access>) {
    forall i | 0 <= i < |w| :: w[i].original in out
  }

  /** Every original carries a count in range. */
  predicate Counted(out: map<int, Access>) {
    forall u | u in out :: CountInRange(out[u])
  }

  /** What the loop keeps: the window fits its bound, every slot names an original already found,
      and every original carries a count in range. */
  predicate Tracked(st: AggState) {
    && |st.window| <= WindowLength
    && SlotsIn(st.window, st.out)
    && Counted(st.out)
  }

  lemma RememberSlots(w: seq<Slot>, s: Slot, out: map<int, Access>)
    requires |w| <= WindowLength && SlotsIn(w, out) && s.original in out
    ensures SlotsIn(Remember(w, s), out)
  {
    var r := Remember(w, s);
    forall i | 0 <= i < |r|
      ensures r[i].original in out
    {
      if i < |r| - 1 {
        assert r[i] == w[i + |w| + 1 - |r|];
      }
    }
  }

  lemma ForgetSlots(w: seq<Slot>, i: nat, out: map<int, Access>)
    requires i < |w| && SlotsIn(w, out)
    ensures SlotsIn(Forget(w, i), out)
  {
    var r := Forget(w, i);
    forall j | 0 <= j < |r|
      ensures r[j].original in out
    {
      if j >= i {
        assert r[j] == w[j + 1];
      }
    }
  }

  lemma SlotsGrow(w: seq<Slot>, out: map<int, Access>, t: int, b: Access)
    requires SlotsIn(w, out)
    ensures SlotsIn(w, out[t := b])
  {
  }

  lemma CountedUpdate(out: map<int, Access>, t: int, b: Access)
    requires Counted(out) && CountInRange(b)
    ensures Counted(out[t := b])
  {
  }

  /** One access, in start-time order. An address not in the window makes it an original with
      count one, remembered in the window; an address in the window counts it into that slot's
      original, or, when that original is already at the maximum, forgets the slot. Either way
      a remembered address drops the access. */
  function AggStep(st: AggState, t: int, a: Access): (next: AggState)
    requires Tracked(st)
    ensures Tracked(next)
    ensures t in next.out <==> t in st.out || FindSlot(st.window, a.address).None?
  {
    match FindSlot(st.window, a.address)
    case None =>
      var s := Slot(a.address, t);
      var b := a.(dupCount := Some(1));
      SlotsGrow(st.window, st.out, t, b);
      RememberSlots(st.window, s, st.out[t := b]);
      CountedUpdate(st.out, t, b);
      AggState(Remember(st.window, s), st.out[t := b])
    case Some(i) =>
      var o := st.window[i].original;
      var n := CountOf(st.out[o]);
      if n < MaximumAggregationCount then
        var b := st.out[o].(dupCount := Some(n + 1));
        assert CountOf(b) == n + 1;
        SlotsGrow(st.window, st.out, o, b);
        CountedUpdate(st.out, o, b);
        st.(out := st.out[o := b])
      else
        ForgetSlots(st.window, i, st.out);
        st.(window := Forget(st.window, i))
  }

  /** What a step does: a fresh address adds an original with count one and remembers it; a
      remembered address below the maximum raises its original's count; at the maximum it forgets
      the slot and changes nothing else. */
  lemma StepCases(st: AggState, t: int, a: Access)
    requires Tracked(st)
    ensures var next := AggStep(st, t, a);
            FindSlot(st.window, a.address).None? ==>
              && next.out == st.out[t := a.(dupCount := Some(1))]
              && next.window == Remember(st.window, Slot(a.address, t))
    ensures var next := AggStep(st, t, a);
            FindSlot(st.window, a.address).Some? ==>
              var i := FindSlot(st.window, a.address).value;
              var o := st.window[i].original;
              var n := CountOf(st.out[o]);
              && o in st.out
              && (n < MaximumAggregationCount ==>
                    next.out == st.out[o := st.out[o].(dupCount := Some(n + 1))] && next.window == st.window)
              && (n >= MaximumAggregationCount ==>
                    next.out == st.out && next.window == Forget(st.window, i))
  {
  }

  /** The loop over `items`, one after another from `st`. */
  function Run(st: AggState, items: seq<(int, Access)>): (r: AggState)
    requires Tracked(st)
    ensures Tracked(r)
  {
    if |items| == 0 then st
    else
      var last := items[|items| - 1];
      AggStep(Run(st, items[..|items| - 1]), last.0, last.1)
  }

  /** The entries `items` are entries of `m`. */
  predicate EntriesOf(items: seq<(int, Access)>, m: map<int, Access>) {
    forall i | 0 <= i < |items| :: items[i].0 in m && m[items[i].0] == items[i].1
  }

  /** A step on an entry of `m` keeps every original a counted copy of its access in `m`. */
  lemma StepShadows(st: AggState, t: int, a: Access, m: map<int, Access>)
    requires Tracked(st)
    requires Shadows(st.out, m) && t in m && m[t] == a
    ensures Shadows(AggStep(st, t, a).out, m)
    ensures AggStep(st, t, a).out.Keys <= st.out.Keys + {t}
  {
    StepCases(st, t, a);
    var next := AggStep(st, t, a);
    match FindSlot(st.window, a.address)
    case None =>
      assert next.out[t] == m[t].(dupCount := Some(1));
    case Some(i) =>
      var o := st.window[i].original;
      var n := CountOf(st.out[o]);
      if n < MaximumAggregationCount {
        assert next.out[o] == m[o].(dupCount := next.out[o].dupCount);
      }
  }

  /** Running over entries of `m` keeps every original a copy of its access in `m` with a count,
      and adds no key that is not an entry's. */
  lemma {:induction false} RunShadows(st: AggState, items: seq<(int, Access)>, m: map<int, Access>)
    requires Tracked(st)
    requires Shadows(st.out, m) && EntriesOf(items, m)
    ensures Shadows(Run(st, items).out, m)
    ensures Run(st, items).out.Keys <= st.out.Keys + m.Keys
  {
    if |items| > 0 {
      var init := items[..|items| - 1];
      assert EntriesOf(init, m) by {
        forall i | 0 <= i < |init|
          ensures init[i].0 in m && m[init[i].0] == init[i].1
        {
          assert init[i] == items[i];
        }
      }
      RunShadows(st, init, m);
      StepShadows(Run(st, init), items[|items| - 1].0, items[|items| - 1].1, m);
    }
  }

  /** The loop never removes an original once found. */
  lemma {:induction false} RunKeeps(st: AggState, items: seq<(int, Access)>)
    requires Tracked(st)
    ensures st.out.Keys <= Run(st, items).out.Keys
  {
    if |items| > 0 {
      RunKeeps(st, items[..|items| - 1]);
    }
  }

  function InitialAgg(): AggState {
    AggState([], map[])
  }

  /** Appending the "x<n>" note of every original's count. */
  function TagCounts(out: map<int, Access>): (r: map<int, Access>)
    requires Counted(out)
    ensures r.Keys == out.Keys
    ensures forall u | u in r :: r[u] == out[u].(info := out[u].info + [Times(CountOf(out[u]))])
  {
    map u | u in out :: out[u].(info := out[u].info + [Times(CountOf(out[u]))])
  }

  /** Noting the counts of originals that shadow `m` gives copies of accesses of `m` with a count
      and one more note. */
  lemma TaggedShadows(out: map<int, Access>, m: map<int, Access>)
    requires Shadows(out, m)
    ensures var r := TagCounts(out);
            forall t | t in r ::
              && t in m && CountInRange(r[t])
              && r[t] == m[t].(dupCount := r[t].dupCount, info := m[t].info + [Times(CountOf(r[t]))])
  {
    var r := TagCounts(out);
    forall t | t in r
      ensures t in m && CountInRange(r[t])
      ensures r[t] == m[t].(dupCount := r[t].dupCount, info := m[t].info + [Times(CountOf(r[t]))])
    {
      assert out[t] == m[t].(dupCount := out[t].dupCount);
      assert r[t].dupCount == out[t].dupCount;
    }
  }

  /** `aggregate_duplicates`: the originals of the chronological pass, each with its count and a
      single new "x<n>" note; every other access is dropped. The earliest access is always an
      original. */
  function AggregateDuplicates(m: map<int, Access>): (r: map<int, Access>)
    ensures r.Keys <= m.Keys
    ensures forall t | t in r ::
              && CountInRange(r[t])
              && r[t] == m[t].(dupCount := r[t].dupCount, info := m[t].info + [Times(CountOf(r[t]))])
    ensures m != map[] ==> MinOf(m.Keys) in r
    ensures KeyedByStart(m) ==> KeyedByStart(r)
  {
    var items := Chronology(m);
    var last := Run(InitialAgg(), items);
    RunShadows(InitialAgg(), items, m);
    TaggedShadows(last.out, m);
    if m == map[] then TagCounts(last.out)
    else
      FirstSurvives(m);
      TagCounts(last.out)
  }

  /** The earliest access finds an empty window and becomes an original. */
  lemma FirstSurvives(m: map<int, Access>)
    requires m != map[]
    ensures MinOf(m.Keys) in Run(InitialAgg(), Chronology(m)).out
  {
    var items := Chronology(m);
    FirstIsEarliest(m);
    var first := items[..1];
    assert first[..0] == [];
    assert Run(InitialAgg(), first) == AggStep(InitialAgg(), items[0].0, items[0].1);
    RunPrefixKeeps(InitialAgg(), items, 1);
  }

  /** What a prefix of the loop found survives the rest of it. */
  lemma {:induction false} RunPrefixKeeps(st: AggState, items: seq<(int, Access)>, k: nat)
    requires Tracked(st)
    requires k <= |items|
    ensures Run(st, items[..k]).out.Keys <= Run(st, items).out.Keys
    decreases |items| - k
  {
    if k < |items| {
      RunPrefixKeeps(st, items, k + 1);
      assert items[..k + 1][..k] == items[..k];
      assert Run(st, items[..k + 1]) == AggStep(Run(st, items[..k]), items[k].0, items[k].1);
    } else {
      assert items[..k] == items;
    }
  }

  // ---------------------------------------------------------------------------------------------
  // Runs of one address
  // ---------------------------------------------------------------------------------------------

  /** A run of this many reads of one address yields one original: the first, counting the next
      seven; the ninth is dropped while freeing the slot. */
  const RunLength: nat := 9

  /** A same-address run: one address, increasing start times none of which is an original yet. */
  predicate SameAddressRun(out: map<int, Access>, items: seq<(int, Access)>, address: int) {
    && (forall i | 0 <= i < |items| :: items[i].1.address == address)
    && (forall i, j | 0 <= i < j < |items| :: items[i].0 < items[j].0)
    && (forall i | 0 <= i < |items| :: items[i].0 !in out)
  }

  /** Reference result of a same-address run: its first read is an original counting itself and up
      to seven more reads; the ninth read is dropped; the reads from the tenth on form a new run. */
  function RunOriginals(items: seq<(int, Access)>): (r: map<int, Access>)
    decreases |items|
  {
    if |items| == 0 then map[]
    else
      var rest := if |items| > RunLength then items[RunLength..] else [];
      RunOriginals(rest)[items[0].0 := Lead(items)]
  }

  /** The first read of a run, counting itself and up to seven more. */
  function Lead(items: seq<(int, Access)>): Access
    requires |items| > 0
  {
    items[0].1.(dupCount := Some(Min(MaximumAggregationCount, |items|)))
  }

  /** Remembering an address the window does not hold puts its only slot last. */
  lemma RememberFind(w: seq<Slot>, s: Slot)
    requires |w| <= WindowLength && FindSlot(w, s.address).None?
    ensures var r := Remember(w, s);
            && FindSlot(r, s.address) == Some(|r| - 1)
            && forall p | 0 <= p < |r| - 1 :: r[p].address != s.address
  {
    var r := Remember(w, s);
    forall p | 0 <= p < |r| - 1
      ensures r[p].address != s.address
    {
      assert r[p] == w[p + |w| + 1 - |r|];
    }
  }

  /** Forgetting the only slot of an address leaves none. */
  lemma ForgetOnly(w: seq<Slot>, i: nat, address: int)
    requires i < |w| && forall p | 0 <= p < |w| && p != i :: w[p].address != address
    ensures FindSlot(Forget(w, i), address).None?
  {
    var r := Forget(w, i);
    forall p | 0 <= p < |r|
      ensures r[p].address != address
    {
      if p >= i {
        assert r[p] == w[p + 1];
      }
    }
  }

  /** The loop over a prefix one longer is one more step. */
  lemma RunSnoc(st: AggState, items: seq<(int, Access)>, k: nat)
    requires Tracked(st) && k < |items|
    ensures Run(st, items[..k + 1]) == AggStep(Run(st, items[..k]), items[k].0, items[k].1)
  {
    assert items[..k + 1][..k] == items[..k];
  }

  /** The loop over two series is the loop over the second from where the first left off. */
  lemma {:induction false} RunAppend(st: AggState, x: seq<(int, Access)>, y: seq<(int, Access)>)
    requires Tracked(st)
    ensures Run(st, x + y) == Run(Run(st, x), y)
    decreases |y|
  {
    if |y| == 0 {
      assert x + y == x;
    } else {
      var y' := y[..|y| - 1];
      RunAppend(st, x, y');
      assert (x + y)[..|x + y| - 1] == x + y';
      assert (x + y)[|x + y| - 1] == y[|y| - 1];
    }
  }

  /** The state `s` after the first `n` reads of a block that starts at `r`: the block's first
      read is an original counting min(n, 8) reads, and its address is remembered in exactly one
      slot until the ninth read frees it. */
  predicate BlockState(r: AggState, t: int, a: Access, n: nat, s: AggState) {
    if n == 0 then s == r
    else
      && s.out == r.out[t := a.(dupCount := Some(Min(MaximumAggregationCount, n)))]
      && (n < RunLength ==>
            var f := FindSlot(s.window, a.address);
            && f.Some? && s.window[f.value].original == t
            && forall p | 0 <= p < |s.window| && p != f.value :: s.window[p].address != a.address)
      && (n >= RunLength ==> FindSlot(s.window, a.address).None?)
  }

  lemma BlockStep(r: AggState, items: seq<(int, Access)>, n: nat, s: AggState)
    requires Tracked(r) && Tracked(s) && 0 < |items| && n < RunLength && n < |items|
    requires FindSlot(r.window, items[0].1.address).None? && items[0].0 !in r.out
    requires forall i | 0 <= i < |items| :: items[i].1.address == items[0].1.address
    requires forall i | 0 < i < |items| :: items[i].0 != items[0].0
    requires BlockState(r, items[0].0, items[0].1, n, s)
    ensures BlockState(r, items[0].0, items[0].1, n + 1, AggStep(s, items[n].0, items[n].1))
  {
    var t, a := items[0].0, items[0].1;
    StepCases(s, items[n].0, items[n].1);
    if n == 0 {
      RememberFind(r.window, Slot(a.address, t));
    } else if n < MaximumAggregationCount {
      assert s.out[t] == a.(dupCount := Some(n));
    } else {
      assert s.out[t] == a.(dupCount := Some(MaximumAggregationCount));
      ForgetOnly(s.window, FindSlot(s.window, a.address).value, a.address);
    }
  }

  /** The first `n` reads of a block, for `n` up to nine. */
  lemma {:induction false} BlockPrefix(r: AggState, items: seq<(int, Access)>, n: nat)
    requires Tracked(r) && 0 < |items| && n <= RunLength && n <= |items|
    requires FindSlot(r.window, items[0].1.address).None? && items[0].0 !in r.out
    requires forall i | 0 <= i < |items| :: items[i].1.address == items[0].1.address
    requires forall i | 0 < i < |items| :: items[i].0 != items[0].0
    ensures BlockState(r, items[0].0, items[0].1, n, Run(r, items[..n]))
  {
    if n == 0 {
      assert items[..0] == [];
    } else {
      BlockPrefix(r, items, n - 1);
      RunSnoc(r, items, n - 1);
      BlockStep(r, items, n - 1, Run(r, items[..n - 1]));
    }
  }

  lemma RunOriginalsKeys(items: seq<(int, Access)>, u: int)
    requires u in RunOriginals(items)
    ensures exists i :: 0 <= i < |items| && items[i].0 == u
    decreases |items|
  {
    if |items| > RunLength && u != items[0].0 {
      RunOriginalsKeys(items[RunLength..], u);
      var i :| 0 <= i < |items| - RunLength && items[RunLength..][i].0 == u;
      assert items[i + RunLength].0 == u;
    }
  }

  /** Adding a key before or after merging in a dictionary that lacks it gives the same result. */
  lemma MergeUpdate(d: map<int, Access>, e: map<int, Access>, k: int, v: Access)
    requires k !in e
    ensures d[k := v] + e == d + e[k := v]
  {
  }

  lemma MergeSingle(d: map<int, Access>, k: int, v: Access)
    ensures d + map[k := v] == d[k := v]
  {
  }

  /** The first block of a run: up to nine reads that leave their first as an original and, when
      the run goes on, forget its address. */
  lemma FirstBlock(st: AggState, items: seq<(int, Access)>, address: int)
    requires Tracked(st) && SameAddressRun(st.out, items, address) && FindSlot(st.window, address).None?
    requires |items| > 0
    ensures var n := Min(RunLength, |items|);
            var mid := Run(st, items[..n]);
            && Run(st, items) == Run(mid, items[n..])
            && mid.out == st.out[items[0].0 := Lead(items)]
            && (|items| > RunLength ==> FindSlot(mid.window, address).None? && SameAddressRun(mid.out, items[n..], address))
  {
    var n := Min(RunLength, |items|);
    BlockPrefix(st, items, n);
    var mid := Run(st, items[..n]);
    var rest := items[n..];
    assert items == items[..n] + rest;
    RunAppend(st, items[..n], rest);
    if |items| > RunLength {
      RestOfRun(st, items, address, mid.out, Lead(items));
    }
  }

  /** After the first block, the rest of a run is still a same-address run: only the block's first
      read became an original, and it comes before every later read. */
  lemma RestOfRun(st: AggState, items: seq<(int, Access)>, address: int, out: map<int, Access>, lead: Access)
    requires SameAddressRun(st.out, items, address) && |items| > RunLength
    requires out == st.out[items[0].0 := lead]
    ensures SameAddressRun(out, items[RunLength..], address)
  {
    var rest := items[RunLength..];
    forall i | 0 <= i < |rest|
      ensures rest[i].0 !in out
    {
      assert rest[i] == items[i + RunLength];
      assert items[0].0 < items[i + RunLength].0;
    }
  }

  /** A time before every read of a run is not among its originals. */
  lemma OriginalsAfter(items: seq<(int, Access)>, t: int)
    requires forall i | 0 <= i < |items| :: t < items[i].0
    ensures t !in RunOriginals(items)
  {
    forall u | u in RunOriginals(items)
      ensures t < u
    {
      RunOriginalsKeys(items, u);
      var i :| 0 <= i < |items| && items[i].0 == u;
    }
  }

  /** The originals of the rest of a run never include its first read. */
  lemma LaterOriginals(items: seq<(int, Access)>)
    requires |items| > RunLength
    requires forall i, j | 0 <= i < j < |items| :: items[i].0 < items[j].0
    ensures items[0].0 !in RunOriginals(items[RunLength..])
  {
    var rest := items[RunLength..];
    forall i | 0 <= i < |rest|
      ensures items[0].0 < rest[i].0
    {
      assert rest[i] == items[i + RunLength];
    }
    OriginalsAfter(rest, items[0].0);
  }

  /** A same-address run, processed from a state that does not remember its address, adds exactly
      the reference originals. */
  lemma {:induction false} RunMatchesOriginals(st: AggState, items: seq<(int, Access)>, address: int)
    requires Tracked(st) && SameAddressRun(st.out, items, address) && FindSlot(st.window, address).None?
    ensures Run(st, items).out == st.out + RunOriginals(items)
    decreases |items|
  {
    if |items| == 0 {
      assert st.out + map[] == st.out;
    } else {
      FirstBlock(st, items, address);
      var n := Min(RunLength, |items|);
      var mid := Run(st, items[..n]);
      var rest := items[n..];
      var lead := Lead(items);
      assert Run(st, items) == Run(mid, rest);
      assert mid.out == st.out[items[0].0 := lead];
      if |items| > RunLength {
        RunMatchesOriginals(mid, rest, address);
        LaterOriginals(items);
        MergeUpdate(st.out, RunOriginals(rest), items[0].0, lead);
        assert RunOriginals(items) == RunOriginals(rest)[items[0].0 := lead];
        assert Run(mid, rest).out == st.out[items[0].0 := lead] + RunOriginals(rest);
        assert Run(st, items).out == st.out + RunOriginals(rest)[items[0].0 := lead];
      } else {
        assert rest == [];
        ShortRun(items);
        assert Run(mid, rest) == mid;
        MergeSingle(st.out, items[0].0, lead);
      }
    }
  }

  /** Aggregation is the tagged result of the loop over the chronology. */
  lemma AggregateUnfolds(m: map<int, Access>)
    ensures AggregateDuplicates(m) == TagCounts(Run(InitialAgg(), Chronology(m)).out)
  {
  }

  /** A dictionary whose accesses all read one address: aggregation leaves exactly the reference
      originals, each with one "x<n>" note of its count. So up to eight reads collapse into their
      first, tagged with their number; the ninth read is dropped while freeing the window's slot;
      and the tenth starts a new original. */
  lemma RepeatedAddress(m: map<int, Access>, address: int)
    requires forall t | t in m :: m[t].address == address
    ensures var r := AggregateDuplicates(m);
            var expected := RunOriginals(Chronology(m));
            && r.Keys == expected.Keys
            && forall t | t in r :: r[t].dupCount == expected[t].dupCount
  {
    LoopOriginals(m, address);
    AggregateUnfolds(m);
  }

  /** On a dictionary of one address, the loop's originals are the reference originals. */
  lemma LoopOriginals(m: map<int, Access>, address: int)
    requires forall t | t in m :: m[t].address == address
    ensures Run(InitialAgg(), Chronology(m)).out == RunOriginals(Chronology(m))
  {
    var items := Chronology(m);
    ChronologyRun(m, address);
    RunMatchesOriginals(InitialAgg(), items, address);
    EmptyMerge(RunOriginals(items));
  }

  /** The chronology of a dictionary of one address is a same-address run from the start. */
  lemma ChronologyRun(m: map<int, Access>, address: int)
    requires forall t | t in m :: m[t].address == address
    ensures SameAddressRun(InitialAgg().out, Chronology(m), address)
  {
    var items := Chronology(m);
    assert forall i, j | 0 <= i < j < |items| :: items[i].0 < items[j].0;
  }

  lemma EmptyMerge(d: map<int, Access>)
    ensures map[] + d == d
  {
  }

  /** Eight or fewer reads of one address aggregate into the first, counting all of them. */
  lemma FewRepeats(m: map<int, Access>, address: int)
    requires forall t | t in m :: m[t].address == address
    requires 0 < |m| <= MaximumAggregationCount
    ensures var r := AggregateDuplicates(m);
            && r.Keys == {MinOf(m.Keys)}
            && r[MinOf(m.Keys)].dupCount == Some(|m|)
  {
    RepeatedAddress(m, address);
    ShortChronology(m);
  }

  /** The reference originals of at most eight reads: the earliest, counting all of them. */
  lemma ShortChronology(m: map<int, Access>)
    requires 0 < |m| <= MaximumAggregationCount
    ensures var expected := RunOriginals(Chronology(m));
            && expected.Keys == {MinOf(m.Keys)}
            && expected[MinOf(m.Keys)].dupCount == Some(|m|)
  {
    var items := Chronology(m);
    FirstIsEarliest(m);
    ShortRun(items);
  }

  /** Up to nine reads of one address leave a single original. */
  lemma ShortRun(items: seq<(int, Access)>)
    requires 0 < |items| <= RunLength
    ensures RunOriginals(items) == map[items[0].0 := Lead(items)]
  {
    assert RunOriginals([]) == map[];
  }
}
