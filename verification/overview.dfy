/**
 * `get_overview_read_accesses`: the accesses are walked in start-time order and cut into time
 * blocks, a new block starting at every access whose latency exceeds 50 microseconds. Within a
 * block, the first access of each (region, co-processor note) group opens a summary under its own
 * start time; later accesses of the group only widen that summary's lowest and highest address.
 * Summaries of earlier blocks are kept.
 */
module Overview {
  import opened Wrappers
  import opened Classifier
  import opened Accesses

  /** `TIME_BLOCK_LATENCY_THRESHOLD`, in microseconds. */
  const TimeBlockLatencyThreshold := 50

  /** An overview row: the opening access with the lowest address and the highest end address
      (`address + size`) seen among the accesses it summarises. */
  datatype Summary = Summary(record: Access, lowest: int, highest: int)

  /** What a summary is kept per: the region label and whether the access carries the co-processor
      note. */
  type Group = (Option<Label>, bool)

  /** The loop's state: `known_types` (the opening start time of each group of the current block)
      and the rows produced so far. */
  datatype OverviewState = OverviewState(known: map<Group, int>, out: map<int, Summary>)

  function GroupOf(a: Access): Group {
    (a.region, Ccp in a.info)
  }

  /** The access opens a new time block: its latency, floored to microseconds, is above the
      threshold. Dafny's `/` by a positive divisor floors like Python's `//`. */
  predicate StartsBlock(a: Access) {
    a.latency / 1000 > TimeBlockLatencyThreshold
  }

  /** Every group the block knows names an existing row. */
  predicate Tracks(st: OverviewState) {
    forall g | g in st.known :: st.known[g] in st.out
  }

  /** One iteration of the loop, for the access `a` found under start time `t`. A block boundary
      forgets every known group and nothing else; without one, the known groups and their rows
      stay. The access ends up inside the row of its group, and no row is ever dropped. */
  function OverviewStep(st: OverviewState, t: int, a: Access): (next: OverviewState)
    requires Tracks(st)
    ensures Tracks(next)
    ensures StartsBlock(a) ==> next.known.Keys == {GroupOf(a)} && next.known[GroupOf(a)] == t
    ensures !StartsBlock(a) ==> next.known.Keys == st.known.Keys + {GroupOf(a)}
    ensures !StartsBlock(a) ==> forall g | g in st.known :: next.known[g] == st.known[g]
    ensures st.out.Keys <= next.out.Keys <= st.out.Keys + {t}
    ensures var s := next.out[next.known[GroupOf(a)]];
            s.lowest <= a.address && a.address + a.size <= s.highest
    ensures StartsBlock(a) && t !in st.out ==> forall u | u in st.out :: next.out[u] == st.out[u]
  {
    var known := if StartsBlock(a) then map[] else st.known;
    var g := GroupOf(a);
    if g !in known then
      OverviewState(known[g := t], st.out[t := Summary(a, a.address, a.address + a.size)])
    else
      OverviewState(known, st.out[known[g] := Widen(st.out[known[g]], a)])
  }

  /** The row an access widens: its lowest address drops to the access's address and its highest
      address rises to the access's end address, if need be. */
  function Widen(s: Summary, a: Access): (w: Summary)
    ensures w.record == s.record
    ensures w.lowest <= s.lowest && w.lowest <= a.address && (w.lowest == s.lowest || w.lowest == a.address)
    ensures w.highest >= s.highest && w.highest >= a.address + a.size && (w.highest == s.highest || w.highest == a.address + a.size)
  {
    s.(lowest := Min(s.lowest, a.address), highest := Max(s.highest, a.address + a.size))
  }

  /** A step without a boundary, for an access whose group is known, widens that group's row and
      changes nothing else. */
  lemma WidenShape(st: OverviewState, t: int, a: Access)
    requires Tracks(st) && !StartsBlock(a) && GroupOf(a) in st.known
    ensures OverviewStep(st, t, a) == OverviewState(st.known, st.out[st.known[GroupOf(a)] := Widen(st.out[st.known[GroupOf(a)]], a)])
  {
  }

  /** A step after a boundary, or for an access whose group is not known, opens a row under the
      access's start time. */
  lemma OpenShape(st: OverviewState, t: int, a: Access)
    requires Tracks(st) && (StartsBlock(a) || GroupOf(a) !in st.known)
    ensures OverviewStep(st, t, a).out == st.out[t := Summary(a, a.address, a.address + a.size)]
    ensures OverviewStep(st, t, a).known == (if StartsBlock(a) then map[] else st.known)[GroupOf(a) := t]
  {
  }

  /** The state after the first `k` items. */
  function RunUpTo(items: seq<(int, Access)>, k: nat): (st: OverviewState)
    requires k <= |items|
    ensures Tracks(st)
  {
    if k == 0 then OverviewState(map[], map[])
    else OverviewStep(RunUpTo(items, k - 1), items[k - 1].0, items[k - 1].1)
  }

  /** The index of the access that opened the time block of item `j`: the last block boundary at
      or before `j`, or the first item (see `BlockOfBounds`). */
  function BlockOf(items: seq<(int, Access)>, j: nat): (b: nat)
    requires j < |items|
    ensures b <= j
  {
    if j == 0 || StartsBlock(items[j].1) then j else BlockOf(items, j - 1)
  }

  /** A block starts at the first item or at a boundary, and no item after its start, up to `j`,
      is a boundary. */
  lemma {:induction false} BlockOfBounds(items: seq<(int, Access)>, j: nat, l: nat)
    requires j < |items|
    ensures BlockOf(items, j) == 0 || StartsBlock(items[BlockOf(items, j)].1)
    ensures BlockOf(items, j) < l <= j ==> !StartsBlock(items[l].1)
  {
    if j > 0 && !StartsBlock(items[j].1) {
      BlockOfBounds(items, j - 1, l);
    }
  }

  /** Items within one block share the block's first item. */
  lemma {:induction false} BlockSame(items: seq<(int, Access)>, i: nat, j: nat)
    requires j < |items| && BlockOf(items, j) <= i <= j
    ensures BlockOf(items, i) == BlockOf(items, j)
  {
    if i < j {
      BlockSame(items, i, j - 1);
    }
  }

  /** The first item from `lo` on of item `j`'s group. */
  function FirstOfGroup(items: seq<(int, Access)>, lo: nat, j: nat): (i: nat)
    requires lo <= j < |items|
    ensures lo <= i <= j && GroupOf(items[i].1) == GroupOf(items[j].1)
    decreases j - lo
  {
    if GroupOf(items[lo].1) == GroupOf(items[j].1) then lo else FirstOfGroup(items, lo + 1, j)
  }

  /** No item of the group comes before the first one. */
  lemma {:induction false} FirstOfGroupLeast(items: seq<(int, Access)>, lo: nat, j: nat, l: nat)
    requires lo <= l <= j < |items| && GroupOf(items[l].1) == GroupOf(items[j].1)
    ensures FirstOfGroup(items, lo, j) <= l
    decreases j - lo
  {
    if lo < l && GroupOf(items[lo].1) != GroupOf(items[j].1) {
      FirstOfGroupLeast(items, lo + 1, j, l);
    }
  }

  /** Two items of one group have the same first item of that group. */
  lemma {:induction false} FirstOfGroupShared(items: seq<(int, Access)>, lo: nat, j: nat, k: nat)
    requires lo <= j <= k < |items| && GroupOf(items[j].1) == GroupOf(items[k].1)
    ensures FirstOfGroup(items, lo, k) == FirstOfGroup(items, lo, j)
    decreases j - lo
  {
    if GroupOf(items[lo].1) != GroupOf(items[k].1) {
      FirstOfGroupShared(items, lo + 1, j, k);
    }
  }

  /** The item whose row summarises item `j`: the first of its group in its time block. */
  function Opener(items: seq<(int, Access)>, j: nat): (i: nat)
    requires j < |items|
    ensures BlockOf(items, j) <= i <= j && GroupOf(items[i].1) == GroupOf(items[j].1)
  {
    FirstOfGroup(items, BlockOf(items, j), j)
  }

  /** An item whose group occurs earlier in its block shares that earlier item's row. */
  lemma SameOpener(items: seq<(int, Access)>, j: nat, k: nat)
    requires k < |items| && BlockOf(items, k) <= j <= k
    requires GroupOf(items[j].1) == GroupOf(items[k].1)
    ensures Opener(items, k) == Opener(items, j)
  {
    BlockSame(items, j, k);
    FirstOfGroupShared(items, BlockOf(items, k), j, k);
  }

  /** An item whose group does not occur earlier in its block opens its own row. */
  lemma OwnOpener(items: seq<(int, Access)>, k: nat)
    requires k < |items|
    requires forall l | BlockOf(items, k) <= l < k :: GroupOf(items[l].1) != GroupOf(items[k].1)
    ensures Opener(items, k) == k
  {
  }

  /** The item that opens a row is its own opener. */
  lemma OpenerOpens(items: seq<(int, Access)>, j: nat)
    requires j < |items|
    ensures Opener(items, Opener(items, j)) == Opener(items, j)
  {
    var o := Opener(items, j);
    SameOpener(items, o, j);
  }

  /** Two items of one group with no block boundary after the first, up to the second, share a
      row; items with a boundary between them, or of different groups, never do. */
  lemma OneRowPerGroupAndBlock(items: seq<(int, Access)>, i: nat, j: nat)
    requires i <= j < |items|
    ensures (GroupOf(items[i].1) == GroupOf(items[j].1) && forall l | i < l <= j :: !StartsBlock(items[l].1))
            <==> Opener(items, j) == Opener(items, i)
  {
    var b := BlockOf(items, j);
    BlockOfBounds(items, j, 0);
    if GroupOf(items[i].1) == GroupOf(items[j].1) && forall l | i < l <= j :: !StartsBlock(items[l].1) {
      SameOpener(items, i, j);
    }
    if Opener(items, j) == Opener(items, i) {
      forall l | i < l <= j
        ensures !StartsBlock(items[l].1)
      {
        BlockOfBounds(items, j, l);
      }
    }
  }

  /** The least address among the first `k` items summarised by item `i` (see `LowestIsLeast`). */
  function Lowest(items: seq<(int, Access)>, i: nat, k: nat): int
    requires i < k <= |items| && Opener(items, i) == i
  {
    if k == i + 1 then items[i].1.address
    else if Opener(items, k - 1) == i then Min(Lowest(items, i, k - 1), items[k - 1].1.address)
    else Lowest(items, i, k - 1)
  }

  /** The greatest end address among the first `k` items summarised by item `i` (see
      `HighestIsGreatest`). */
  function Highest(items: seq<(int, Access)>, i: nat, k: nat): int
    requires i < k <= |items| && Opener(items, i) == i
  {
    if k == i + 1 then items[i].1.address + items[i].1.size
    else if Opener(items, k - 1) == i then Max(Highest(items, i, k - 1), items[k - 1].1.address + items[k - 1].1.size)
    else Highest(items, i, k - 1)
  }

  /** `Lowest` is the minimum of the summarised items' addresses: none is below it and one is at
      it. */
  lemma {:induction false} LowestIsLeast(items: seq<(int, Access)>, i: nat, k: nat)
    requires i < k <= |items| && Opener(items, i) == i
    ensures forall j | i <= j < k && Opener(items, j) == i :: Lowest(items, i, k) <= items[j].1.address
    ensures exists j :: i <= j < k && Opener(items, j) == i && Lowest(items, i, k) == items[j].1.address
  {
    if k > i + 1 {
      LowestIsLeast(items, i, k - 1);
    }
  }

  /** `Highest` is the maximum of the summarised items' end addresses: none is above it and one is
      at it. */
  lemma {:induction false} HighestIsGreatest(items: seq<(int, Access)>, i: nat, k: nat)
    requires i < k <= |items| && Opener(items, i) == i
    ensures forall j | i <= j < k && Opener(items, j) == i :: items[j].1.address + items[j].1.size <= Highest(items, i, k)
    ensures exists j :: i <= j < k && Opener(items, j) == i && Highest(items, i, k) == items[j].1.address + items[j].1.size
  {
    if k > i + 1 {
      HighestIsGreatest(items, i, k - 1);
    }
  }

  /** Where the current block starts after the first `k` items. */
  function Since(items: seq<(int, Access)>, k: nat): (b: nat)
    requires k <= |items|
    ensures b <= k
  {
    if k == 0 then 0 else BlockOf(items, k - 1)
  }

  /** The groups of the current block's items are known, each under the start time of its row. */
  predicate KnownHas(items: seq<(int, Access)>, k: nat, known: map<Group, int>)
    requires k <= |items|
  {
    forall j {:trigger Opener(items, j)} | Since(items, k) <= j < k ::
      GroupOf(items[j].1) in known && known[GroupOf(items[j].1)] == items[Opener(items, j)].0
  }

  /** No other group is known. */
  predicate KnownOnly(items: seq<(int, Access)>, k: nat, known: map<Group, int>)
    requires k <= |items|
  {
    forall g | g in known :: exists j :: Since(items, k) <= j < k && GroupOf(items[j].1) == g
  }

  /** Every item of the first `k` that opens a row has it under its start time, with the bounds
      of the items it summarises so far. */
  predicate OutHas(items: seq<(int, Access)>, k: nat, out: map<int, Summary>)
    requires k <= |items|
  {
    forall i {:trigger Opener(items, i)} | 0 <= i < k && Opener(items, i) == i ::
      items[i].0 in out && out[items[i].0] == Summary(items[i].1, Lowest(items, i, k), Highest(items, i, k))
  }

  /** There are no other rows. */
  predicate OutOnly(items: seq<(int, Access)>, k: nat, out: map<int, Summary>)
    requires k <= |items|
  {
    forall t | t in out :: exists i :: 0 <= i < k && Opener(items, i) == i && items[i].0 == t
  }

  /** Rows of items before `k` keep their bounds when item `k` belongs to another row. */
  lemma BoundsKept(items: seq<(int, Access)>, i: nat, k: nat)
    requires i < k < |items| && Opener(items, i) == i && Opener(items, k) != i
    ensures Lowest(items, i, k + 1) == Lowest(items, i, k)
    ensures Highest(items, i, k + 1) == Highest(items, i, k)
  {
  }

  /** The row of item `k` takes in its address and end address. */
  lemma BoundsWidened(items: seq<(int, Access)>, o: nat, k: nat)
    requires o < k < |items| && Opener(items, o) == o && Opener(items, k) == o
    ensures Lowest(items, o, k + 1) == Min(Lowest(items, o, k), items[k].1.address)
    ensures Highest(items, o, k + 1) == Max(Highest(items, o, k), items[k].1.address + items[k].1.size)
  {
  }

  /** The start time of item `k` is not yet a row. */
  lemma FreshStart(items: seq<(int, Access)>, k: nat, out: map<int, Summary>)
    requires Ascending(items) && k < |items| && OutOnly(items, k, out)
    ensures items[k].0 !in out
  {
    forall u | u in out
      ensures u != items[k].0
    {
      var i :| 0 <= i < k && Opener(items, i) == i && items[i].0 == u;
      assert items[i].0 < items[k].0;
    }
  }

  /** The groups of the current block's items are known. */
  lemma KnownGroups(items: seq<(int, Access)>, k: nat, known: map<Group, int>)
    requires k <= |items| && KnownHas(items, k, known)
    ensures forall l | Since(items, k) <= l < k :: GroupOf(items[l].1) in known
  {
    forall l | Since(items, k) <= l < k
      ensures GroupOf(items[l].1) in known
    {
      var o := Opener(items, l);
    }
  }

  /** After a boundary (or at the first item) only item `k`'s group is known. */
  lemma ResetKnown(items: seq<(int, Access)>, k: nat, st: OverviewState)
    requires k < |items| && Tracks(st) && KnownOnly(items, k, st.known)
    requires k == 0 || StartsBlock(items[k].1)
    ensures Opener(items, k) == k
    ensures KnownHas(items, k + 1, OverviewStep(st, items[k].0, items[k].1).known)
    ensures KnownOnly(items, k + 1, OverviewStep(st, items[k].0, items[k].1).known)
  {
    var (t, a) := items[k];
    OpenShape(st, t, a);
    assert BlockOf(items, k) == k;
    if !StartsBlock(a) {
      assert Since(items, k) == 0;
    }
    assert OverviewStep(st, t, a).known == map[GroupOf(a) := t];
  }

  /** A group first seen in the block becomes known under item `k`'s start time. */
  lemma FreshKnown(items: seq<(int, Access)>, k: nat, st: OverviewState)
    requires 0 < k < |items| && Tracks(st) && KnownHas(items, k, st.known) && KnownOnly(items, k, st.known)
    requires !StartsBlock(items[k].1) && GroupOf(items[k].1) !in st.known
    ensures Opener(items, k) == k
    ensures KnownHas(items, k + 1, OverviewStep(st, items[k].0, items[k].1).known)
    ensures KnownOnly(items, k + 1, OverviewStep(st, items[k].0, items[k].1).known)
  {
    var (t, a) := items[k];
    var g := GroupOf(a);
    var next := OverviewStep(st, t, a);
    OpenShape(st, t, a);
    assert BlockOf(items, k) == BlockOf(items, k - 1);
    assert next.known == st.known[g := t];
    KnownGroups(items, k, st.known);
    OwnOpener(items, k);
    assert Since(items, k + 1) == Since(items, k);
    forall h | h in next.known
      ensures exists j :: Since(items, k + 1) <= j < k + 1 && GroupOf(items[j].1) == h
    {
      if h == g {
        assert GroupOf(items[k].1) == h;
      } else {
        var j :| Since(items, k) <= j < k && GroupOf(items[j].1) == h;
      }
    }
    forall j | Since(items, k + 1) <= j < k + 1
      ensures GroupOf(items[j].1) in next.known && next.known[GroupOf(items[j].1)] == items[Opener(items, j)].0
    {
      if j < k {
        assert GroupOf(items[j].1) in st.known && GroupOf(items[j].1) != g;
      }
    }
  }

  /** The rows after item `k` opens one. */
  lemma OpenOut(items: seq<(int, Access)>, k: nat, st: OverviewState)
    requires Ascending(items) && k < |items| && Tracks(st)
    requires OutHas(items, k, st.out) && OutOnly(items, k, st.out)
    requires Opener(items, k) == k
    requires StartsBlock(items[k].1) || GroupOf(items[k].1) !in st.known
    ensures OutHas(items, k + 1, OverviewStep(st, items[k].0, items[k].1).out)
    ensures OutOnly(items, k + 1, OverviewStep(st, items[k].0, items[k].1).out)
  {
    var (t, a) := items[k];
    var next := OverviewStep(st, t, a);
    FreshStart(items, k, st.out);
    OpenShape(st, t, a);
    forall i | 0 <= i < k + 1 && Opener(items, i) == i
      ensures items[i].0 in next.out
      ensures next.out[items[i].0] == Summary(items[i].1, Lowest(items, i, k + 1), Highest(items, i, k + 1))
    {
      if i < k {
        BoundsKept(items, i, k);
        assert items[i].0 < t;
      }
    }
  }

  /** Item `k`'s group is known: its row is its group's row, and the known groups stay. */
  lemma WidenKnown(items: seq<(int, Access)>, k: nat, st: OverviewState)
    requires k < |items| && Tracks(st) && KnownHas(items, k, st.known) && KnownOnly(items, k, st.known)
    requires !StartsBlock(items[k].1) && GroupOf(items[k].1) in st.known
    ensures Opener(items, k) < k && Opener(items, Opener(items, k)) == Opener(items, k)
    ensures st.known[GroupOf(items[k].1)] == items[Opener(items, k)].0
    ensures KnownHas(items, k + 1, OverviewStep(st, items[k].0, items[k].1).known)
    ensures KnownOnly(items, k + 1, OverviewStep(st, items[k].0, items[k].1).known)
  {
    var (t, a) := items[k];
    var j :| Since(items, k) <= j < k && GroupOf(items[j].1) == GroupOf(a);
    assert BlockOf(items, k) == BlockOf(items, k - 1);
    SameOpener(items, j, k);
    OpenerOpens(items, j);
    var next := OverviewStep(st, t, a);
    WidenShape(st, t, a);
    assert Since(items, k + 1) == Since(items, k);
    assert st.known[GroupOf(a)] == items[Opener(items, k)].0;
    forall l | Since(items, k + 1) <= l < k + 1
      ensures GroupOf(items[l].1) in next.known && next.known[GroupOf(items[l].1)] == items[Opener(items, l)].0
    {
      if l < k {
        var o := Opener(items, l);
      }
    }
  }

  /** The rows after item `k` widens the row of item `o`. */
  lemma WidenOut(items: seq<(int, Access)>, k: nat, st: OverviewState, o: nat)
    requires Ascending(items) && k < |items| && Tracks(st)
    requires OutHas(items, k, st.out) && OutOnly(items, k, st.out)
    requires !StartsBlock(items[k].1) && GroupOf(items[k].1) in st.known
    requires o == Opener(items, k) && o < k && Opener(items, o) == o
    requires st.known[GroupOf(items[k].1)] == items[o].0
    ensures OutHas(items, k + 1, OverviewStep(st, items[k].0, items[k].1).out)
    ensures OutOnly(items, k + 1, OverviewStep(st, items[k].0, items[k].1).out)
  {
    var (t, a) := items[k];
    var next := OverviewStep(st, t, a);
    WidenShape(st, t, a);
    assert next.out == st.out[items[o].0 := Widen(st.out[items[o].0], a)];
    forall i | 0 <= i < k + 1 && Opener(items, i) == i
      ensures items[i].0 in next.out
      ensures next.out[items[i].0] == Summary(items[i].1, Lowest(items, i, k + 1), Highest(items, i, k + 1))
    {
      if i == o {
        BoundsWidened(items, o, k);
      } else {
        assert i != k;
        BoundsKept(items, i, k);
        if items[i].0 == items[o].0 {
          AscendingInjective(items, i, o);
        }
      }
    }
  }

  /** One iteration keeps the invariant. */
  lemma StepKeeps(items: seq<(int, Access)>, k: nat, st: OverviewState)
    requires Ascending(items) && k < |items| && Tracks(st)
    requires KnownHas(items, k, st.known) && KnownOnly(items, k, st.known)
    requires OutHas(items, k, st.out) && OutOnly(items, k, st.out)
    ensures var next := OverviewStep(st, items[k].0, items[k].1);
            && KnownHas(items, k + 1, next.known) && KnownOnly(items, k + 1, next.known)
            && OutHas(items, k + 1, next.out) && OutOnly(items, k + 1, next.out)
  {
    var (t, a) := items[k];
    if k == 0 || StartsBlock(a) {
      ResetKnown(items, k, st);
      OpenOut(items, k, st);
    } else if GroupOf(a) !in st.known {
      FreshKnown(items, k, st);
      OpenOut(items, k, st);
    } else {
      WidenKnown(items, k, st);
      WidenOut(items, k, st, Opener(items, k));
    }
  }

  /** Before the first item nothing is known and there are no rows. */
  lemma RunStart(items: seq<(int, Access)>)
    ensures RunUpTo(items, 0) == OverviewState(map[], map[])
    ensures KnownHas(items, 0, map[]) && KnownOnly(items, 0, map[])
    ensures OutHas(items, 0, map[]) && OutOnly(items, 0, map[])
  {
    assert Since(items, 0) == 0;
  }

  /** The invariant of the loop. */
  lemma {:induction false} RunInvariant(items: seq<(int, Access)>, k: nat)
    requires Ascending(items) && k <= |items|
    ensures KnownHas(items, k, RunUpTo(items, k).known) && KnownOnly(items, k, RunUpTo(items, k).known)
    ensures OutHas(items, k, RunUpTo(items, k).out) && OutOnly(items, k, RunUpTo(items, k).out)
  {
    if k > 0 {
      var j: nat := k - 1;
      RunInvariant(items, j);
      StepKeeps(items, j, RunUpTo(items, j));
      assert RunUpTo(items, k) == OverviewStep(RunUpTo(items, j), items[j].0, items[j].1);
    } else {
      RunStart(items);
    }
  }

  /** The overview: one row per (group, time block), under the start time of its first access. */
  function GetOverview(m: map<int, Access>): (r: map<int, Summary>)
    ensures r.Keys <= m.Keys
  {
    var items := Chronology(m);
    var r := RunUpTo(items, |items|).out;
    RunInvariant(items, |items|);
    assert r.Keys <= m.Keys by {
      forall t | t in r
        ensures t in m
      {
        var i :| 0 <= i < |items| && Opener(items, i) == i && items[i].0 == t;
      }
    }
    r
  }

  /** The rows are exactly those of the items that open them (the first of their group in their
      block), each holding that item's access, the least address and the greatest end address
      of the items it summarises; rows of earlier blocks survive later boundaries. */
  lemma OverviewRows(m: map<int, Access>)
    ensures var items := Chronology(m);
            var r := GetOverview(m);
            && (forall i | 0 <= i < |items| && Opener(items, i) == i ::
                  items[i].0 in r && r[items[i].0] == Summary(items[i].1, Lowest(items, i, |items|), Highest(items, i, |items|)))
            && (forall t | t in r :: exists i :: 0 <= i < |items| && Opener(items, i) == i && items[i].0 == t)
  {
    RunInvariant(Chronology(m), |m|);
    assert OutHas(Chronology(m), |m|, GetOverview(m));
  }

  /** A 16-byte read of a region labelled `boot`. */
  function BootRead(boot: Label, index: nat, start: int, latency: int, address: int): (a: Access)
    ensures a.region == Some(boot) && a.size == 0x10 && a.info == []
  {
    Access(index, start, start + 1000, 1000, latency, address, 0x10, Some(boot), [], None)
  }

  /** The three reads of `BootScenario`, in start-time order. */
  lemma BootChronology(a1: Access, a2: Access, a3: Access)
    ensures Chronology(map[0 := a1, 11000 := a2, 111000 := a3]) == [(0, a1), (11000, a2), (111000, a3)]
  {
    var m := map[0 := a1, 11000 := a2, 111000 := a3];
    var items := [(0, a1), (11000, a2), (111000, a3)];
    forall k | k in m
      ensures exists i :: 0 <= i < |items| && items[i].0 == k
    {
      if k == 0 {
        assert items[0].0 == k;
      } else if k == 11000 {
        assert items[1].0 == k;
      } else {
        assert items[2].0 == k;
      }
    }
    ChronologyOf(m, items);
  }

  /** The reads of `BootScenario` in start-time order. */
  function BootItems(boot: Label): (items: seq<(int, Access)>)
    ensures |items| == 3
  {
    [(0, BootRead(boot, 0, 0, 0, 0x1000)),
     (11000, BootRead(boot, 1, 11000, 10000, 0x1020)),
     (111000, BootRead(boot, 2, 111000, 100000, 0x1000))]
  }

  /** The first two reads of `BootScenario` share one row. */
  lemma BootFirstBlock(boot: Label)
    ensures RunUpTo(BootItems(boot), 2)
              == OverviewState(map[GroupOf(BootItems(boot)[0].1) := 0], map[0 := Summary(BootItems(boot)[0].1, 0x1000, 0x1030)])
  {
    var items := BootItems(boot);
    var (a1, a2) := (items[0].1, items[1].1);
    var g := GroupOf(a1);
    RunStart(items);
    var s0 := RunUpTo(items, 0);
    OpenShape(s0, 0, a1);
    var s1 := RunUpTo(items, 1);
    assert s1 == OverviewStep(s0, 0, a1);
    assert s1 == OverviewState(map[g := 0], map[0 := Summary(a1, 0x1000, 0x1010)]);
    assert !StartsBlock(a2) && GroupOf(a2) == g;
    WidenShape(s1, 11000, a2);
    assert RunUpTo(items, 2) == OverviewStep(s1, 11000, a2);
  }

  /** Two reads of one region, the second 10 microseconds after the first and covering
      [0x1000, 0x1010) and [0x1020, 0x1030), give one row spanning [0x1000, 0x1030); a third read
      of the region after a 100 microsecond gap opens a second row. */
  lemma BootScenario(boot: Label)
    ensures var a1 := BootRead(boot, 0, 0, 0, 0x1000);
            var a2 := BootRead(boot, 1, 11000, 10000, 0x1020);
            var a3 := BootRead(boot, 2, 111000, 100000, 0x1000);
            GetOverview(map[0 := a1, 11000 := a2, 111000 := a3])
              == map[0 := Summary(a1, 0x1000, 0x1030), 111000 := Summary(a3, 0x1000, 0x1010)]
  {
    var items := BootItems(boot);
    var (a1, a2, a3) := (items[0].1, items[1].1, items[2].1);
    BootChronology(a1, a2, a3);
    BootFirstBlock(boot);
    var s2 := RunUpTo(items, 2);
    assert StartsBlock(a3);
    OpenShape(s2, 111000, a3);
    assert RunUpTo(items, 3) == OverviewStep(s2, 111000, a3);
  }
}
