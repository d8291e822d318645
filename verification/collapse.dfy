/**
 * `collapse_entry_types`: consecutive reads of one firmware region that continue (or re-read) the
 * range of the read before them are merged into one record, in chronological order.
 */
module Collapse {
  import opened Wrappers
  import opened Accesses

  /** An access joins the record before it when it lies in the same region and starts no later than
      the end of the previous INPUT access (over-reads and backward jumps included). The loop keeps
      only the region, address, size and count of that previous access. */
  predicate Joins(prev: Access, a: Access) {
    a.region == prev.region && a.address <= prev.address + prev.size
  }

  /** Appending a note unless it is already there. */
  function AddOnce(info: seq<Tag>, tag: Tag): seq<Tag> {
    if tag in info then info else info + [tag]
  }

  /** The note is then present, the earlier notes are kept in order, and no other note appears. */
  lemma AddOnceNotes(info: seq<Tag>, tag: Tag)
    ensures var r := AddOnce(info, tag);
            && tag in r && info <= r
            && forall u | u != tag :: u in r <==> u in info
  {
  }

  /** A note already present is not repeated, and the other notes' counts are unchanged. */
  lemma AddOnceCounts(info: seq<Tag>, tag: Tag)
    ensures var r := AddOnce(info, tag);
            && multiset(r)[tag] == (if tag in info then multiset(info)[tag] else 1)
            && forall u | u != tag :: multiset(r)[u] == multiset(info)[u]
  {
  }

  /** The notes of a record that absorbed at least one access: the first record's notes, then "[c]"
      unless present, then "~" unless present when some absorbed access's count differed. */
  function MergedNotes(info: seq<Tag>, changed: bool): seq<Tag> {
    var noted := AddOnce(info, Collapsed);
    if changed then AddOnce(noted, Fuzzy) else noted
  }

  /** Those notes extend the first record's, hold "[c]", hold "~" exactly when the first record did
      or a count changed, and hold every other note as often as the first record does. */
  lemma MergedNotesHas(info: seq<Tag>, changed: bool)
    ensures var r := MergedNotes(info, changed);
            && Collapsed in r && info <= r
            && (Fuzzy in r <==> Fuzzy in info || changed)
            && forall u | u != Collapsed && u != Fuzzy :: multiset(r)[u] == multiset(info)[u]
  {
    var noted := AddOnce(info, Collapsed);
    AddOnceNotes(info, Collapsed);
    AddOnceCounts(info, Collapsed);
    AddOnceNotes(noted, Fuzzy);
    AddOnceCounts(noted, Fuzzy);
  }

  /** Absorbing a further access into a merged record gives the notes of one merge in which a count
      changed when it changed in either. */
  lemma MergedNotesTwice(info: seq<Tag>, earlier: bool, later: bool)
    ensures MergedNotes(MergedNotes(info, earlier), later) == MergedNotes(info, earlier || later)
  {
    var once := MergedNotes(info, earlier);
    MergedNotesHas(info, earlier);
    assert AddOnce(once, Collapsed) == once;
    if later && earlier {
      assert AddOnce(once, Fuzzy) == once;
    }
  }

  /** The record that results from merging access `a` into the record `p`: the first record's
      identity, start, latency, address and region, the new end, summed duration and size, and a
      "[c]" note, plus a "~" note when `a`'s count differs from the previous input's. The merged
      dictionary has no count field. */
  function Merge(p: Access, a: Access, previousCount: Option<int>): (r: Access)
    ensures Heads(r, p) && r.end == a.end && r.dupCount == None
    ensures r.size == p.size + a.size && r.duration == p.duration + a.duration
  {
    Access(p.instrIndex, p.start, a.end, p.duration + a.duration, p.latency, p.address,
           p.size + a.size, p.region, MergedNotes(p.info, a.dupCount != previousCount), None)
  }

  /** The notes of a merged record: the first record's, then "[c]", and "~" exactly when the first
      record had it or the absorbed access's count differs from the previous input's. */
  lemma MergeNotes(p: Access, a: Access, previousCount: Option<int>)
    ensures var r := Merge(p, a, previousCount);
            && Collapsed in r.info && p.info <= r.info
            && (Fuzzy in r.info <==> Fuzzy in p.info || a.dupCount != previousCount)
            && forall u | u != Collapsed && u != Fuzzy :: multiset(r.info)[u] == multiset(p.info)[u]
  {
    MergedNotesHas(p.info, a.dupCount != previousCount);
  }

  /** What a merged record keeps of the first access of its group. */
  predicate Heads(r: Access, a: Access) {
    && r.instrIndex == a.instrIndex && r.start == a.start && r.latency == a.latency
    && r.address == a.address && r.region == a.region
  }

  /** The collapsed list of the first `n` accesses, in chronological order. Each access is merged
      into the last record when it joins the access before it, and appended otherwise. */
  function CollapseUpTo(xs: seq<Access>, n: nat): (out: seq<Access>)
    requires n <= |xs|
    ensures |out| <= n && (|out| == 0 <==> n == 0)
    ensures n > 0 ==> out[|out| - 1].end == xs[n - 1].end
  {
    if n == 0 then []
    else
      var prior, a := CollapseUpTo(xs, n - 1), xs[n - 1];
      if n > 1 && Joins(xs[n - 2], a) then
        prior[|prior| - 1 := Merge(prior[|prior| - 1], a, xs[n - 2].dupCount)]
      else prior + [a]
  }

  /** The access at index `i` starts a new record: it is the first, or it does not join the access
      before it. */
  predicate Leads(xs: seq<Access>, i: nat)
    requires i < |xs|
  {
    i == 0 || !Joins(xs[i - 1], xs[i])
  }

  /** The number of accesses before index `n` that start a record. */
  function LeadCount(xs: seq<Access>, n: nat): (c: nat)
    requires n <= |xs|
    ensures c <= n
  {
    if n == 0 then 0
    else LeadCount(xs, n - 1) + (if Leads(xs, n - 1) then 1 else 0)
  }

  /** Counting leaders further along never gives fewer. */
  lemma {:induction false} LeadCountGrows(xs: seq<Access>, i: nat, n: nat)
    requires i <= n <= |xs|
    ensures LeadCount(xs, i) <= LeadCount(xs, n)
    decreases n - i
  {
    if i < n {
      LeadCountGrows(xs, i + 1, n);
    }
  }

  /** A stretch without leaders adds nothing to the count. */
  lemma {:induction false} NoLeadersCount(xs: seq<Access>, lo: nat, hi: nat)
    requires lo <= hi <= |xs| && forall l | lo <= l < hi :: !Leads(xs, l)
    ensures LeadCount(xs, hi) == LeadCount(xs, lo)
  {
    if lo < hi {
      NoLeadersCount(xs, lo, hi - 1);
    }
  }

  /** The end (exclusive) of the group the access at index `i` leads among the first `n`: the next
      index that starts a record, or `n` when there is none. */
  function GroupEnd(xs: seq<Access>, n: nat, i: nat): (e: nat)
    requires i < n <= |xs|
    ensures i < e <= n && (e == n || Leads(xs, e))
    ensures forall l | i < l < e :: !Leads(xs, l)
    decreases n - i
  {
    if i + 1 == n || Leads(xs, i + 1) then i + 1 else GroupEnd(xs, n, i + 1)
  }

  /** The two properties of `GroupEnd` determine it. */
  lemma GroupEndUnique(xs: seq<Access>, n: nat, i: nat, e: nat)
    requires i < e <= n <= |xs| && (e == n || Leads(xs, e))
    requires forall l | i < l < e :: !Leads(xs, l)
    ensures GroupEnd(xs, n, i) == e
  {
  }

  /** The sum of the sizes of the accesses at indices `lo` up to (excluding) `hi`. */
  function SizeOver(xs: seq<Access>, lo: nat, hi: nat): int
    requires lo <= hi <= |xs|
    decreases hi
  {
    if lo == hi then 0 else SizeOver(xs, lo, hi - 1) + xs[hi - 1].size
  }

  /** The sum of the durations of the accesses at indices `lo` up to (excluding) `hi`. */
  function DurationOver(xs: seq<Access>, lo: nat, hi: nat): int
    requires lo <= hi <= |xs|
    decreases hi
  {
    if lo == hi then 0 else DurationOver(xs, lo, hi - 1) + xs[hi - 1].duration
  }

  /** The access at index `l` carries a different count than the access before it. */
  predicate CountChangesAt(xs: seq<Access>, l: nat)
    requires 0 < l < |xs|
  {
    xs[l].dupCount != xs[l - 1].dupCount
  }

  /** Some access after index `i` and before `e` carries a different count than its predecessor. */
  predicate CountChanges(xs: seq<Access>, i: nat, e: nat)
    requires e <= |xs|
  {
    exists l | i < l < e :: CountChangesAt(xs, l)
  }

  lemma CountChangesStep(xs: seq<Access>, i: nat, n: nat)
    requires i < n < |xs|
    ensures CountChanges(xs, i, n + 1) <==> CountChanges(xs, i, n) || CountChangesAt(xs, n)
  {
    if CountChanges(xs, i, n + 1) && !CountChangesAt(xs, n) {
      var l :| i < l < n + 1 && CountChangesAt(xs, l);
      assert l < n;
    }
  }

  /** Record `r` is the one the leader at index `i` yields among the first `n` accesses, its group
      being the accesses from `i` up to the next leader: it keeps the leader's identity, start,
      latency, address and region and extends its notes; it ends where the group's last access ends
      and sums the group's sizes and durations. A leader alone in its group is passed through
      unchanged; a larger group has no count and exactly the leader's notes followed by "[c]" and,
      when some member's count differs from its predecessor's, "~" (each unless already there). */
  predicate Keeps(xs: seq<Access>, n: nat, i: nat, r: Access)
    requires i < n <= |xs|
  {
    var e := GroupEnd(xs, n, i);
    && Heads(r, xs[i])
    && r.end == xs[e - 1].end
    && r.size == SizeOver(xs, i, e) && r.duration == DurationOver(xs, i, e)
    && xs[i].info <= r.info
    && (e == i + 1 ==> r == xs[i])
    && (e > i + 1 ==> r.dupCount == None && r.info == MergedNotes(xs[i].info, CountChanges(xs, i, e)))
  }

  /** The records of a collapse of the first `n` accesses: one per leader, the leader at index `i`
      giving the record after those of the leaders before it. */
  predicate Grouped(xs: seq<Access>, n: nat, out: seq<Access>)
    requires n <= |xs|
  {
    && |out| == LeadCount(xs, n)
    && forall i {:trigger LeadCount(xs, i)} | 0 <= i < n && Leads(xs, i) ::
         LeadCount(xs, i) < |out| && Keeps(xs, n, i, out[LeadCount(xs, i)])
  }

  /** Merging the next access into the last group extends that group's record by it. */
  lemma GroupGrows(xs: seq<Access>, n: nat, i: nat, p: Access)
    requires i < n < |xs| && Joins(xs[n - 1], xs[n])
    requires GroupEnd(xs, n, i) == n && Keeps(xs, n, i, p)
    ensures Keeps(xs, n + 1, i, Merge(p, xs[n], xs[n - 1].dupCount))
  {
    GroupEndUnique(xs, n + 1, i, n + 1);
    CountChangesStep(xs, i, n);
    if n == i + 1 {
      assert !CountChanges(xs, i, n);
    } else {
      MergedNotesTwice(xs[i].info, CountChanges(xs, i, n), CountChangesAt(xs, n));
    }
  }

  /** A group that ends before index `n` ends there among the first `n + 1` accesses too, and its
      leader's record comes before the last one. */
  lemma EarlierGroup(xs: seq<Access>, n: nat, i: nat, r: Access)
    requires i < n < |xs| && Leads(xs, i) && GroupEnd(xs, n, i) < n
    requires Keeps(xs, n, i, r)
    ensures LeadCount(xs, i) + 1 < LeadCount(xs, n) && Keeps(xs, n + 1, i, r)
  {
    var e := GroupEnd(xs, n, i);
    GroupEndUnique(xs, n + 1, i, e);
    LeadCountGrows(xs, i + 1, e);
    LeadCountGrows(xs, e + 1, n);
  }

  /** The leader of a group that reaches index `n` is the last leader. */
  lemma LastGroup(xs: seq<Access>, n: nat, i: nat)
    requires i < n <= |xs| && Leads(xs, i) && GroupEnd(xs, n, i) == n
    ensures LeadCount(xs, i) + 1 == LeadCount(xs, n)
  {
    NoLeadersCount(xs, i + 1, n);
  }

  /** When the next access joins the last group, a leader's record is unchanged unless it leads that
      group, whose record absorbs the access. */
  lemma KeepsAfterJoin(xs: seq<Access>, n: nat, i: nat, prior: seq<Access>)
    requires 0 < n < |xs| && Joins(xs[n - 1], xs[n]) && i < n && Leads(xs, i)
    requires |prior| == LeadCount(xs, n) && LeadCount(xs, i) < |prior|
    requires Keeps(xs, n, i, prior[LeadCount(xs, i)])
    ensures var k := |prior| - 1;
            var out := prior[k := Merge(prior[k], xs[n], xs[n - 1].dupCount)];
            Keeps(xs, n + 1, i, out[LeadCount(xs, i)])
  {
    var c := LeadCount(xs, i);
    if GroupEnd(xs, n, i) < n {
      EarlierGroup(xs, n, i, prior[c]);
    } else {
      LastGroup(xs, n, i);
      GroupGrows(xs, n, i, prior[c]);
    }
  }

  /** An access that joins the previous one is merged into the last record. */
  lemma JoinStep(xs: seq<Access>, n: nat)
    requires 0 < n < |xs| && Joins(xs[n - 1], xs[n])
    requires Grouped(xs, n, CollapseUpTo(xs, n))
    ensures Grouped(xs, n + 1, CollapseUpTo(xs, n + 1))
  {
    var prior := CollapseUpTo(xs, n);
    var k := |prior| - 1;
    var out := CollapseUpTo(xs, n + 1);
    assert out == prior[k := Merge(prior[k], xs[n], xs[n - 1].dupCount)];
    assert LeadCount(xs, n + 1) == LeadCount(xs, n);
    forall i | 0 <= i < n + 1 && Leads(xs, i)
      ensures LeadCount(xs, i) < |out| && Keeps(xs, n + 1, i, out[LeadCount(xs, i)])
    {
      KeepsAfterJoin(xs, n, i, prior);
    }
  }

  /** An access that does not join the previous one starts a record of its own. */
  lemma LeadStep(xs: seq<Access>, n: nat)
    requires n < |xs| && Leads(xs, n)
    requires Grouped(xs, n, CollapseUpTo(xs, n))
    ensures Grouped(xs, n + 1, CollapseUpTo(xs, n + 1))
  {
    var prior, a := CollapseUpTo(xs, n), xs[n];
    var out := CollapseUpTo(xs, n + 1);
    assert out == prior + [a];
    forall i | 0 <= i < n + 1 && Leads(xs, i)
      ensures LeadCount(xs, i) < |out| && Keeps(xs, n + 1, i, out[LeadCount(xs, i)])
    {
      if i < n {
        var c := LeadCount(xs, i);
        assert Keeps(xs, n, i, prior[c]);
        GroupEndUnique(xs, n + 1, i, GroupEnd(xs, n, i));
        assert out[c] == prior[c];
      } else {
        assert GroupEnd(xs, n + 1, n) == n + 1;
        assert SizeOver(xs, n, n + 1) == a.size && DurationOver(xs, n, n + 1) == a.duration;
      }
    }
  }

  /** Collapsing the first `n` accesses yields exactly one record per leader, as `Grouped` says. */
  lemma {:induction false} CollapseGroups(xs: seq<Access>, n: nat)
    requires n <= |xs|
    ensures Grouped(xs, n, CollapseUpTo(xs, n))
  {
    if n > 0 {
      CollapseGroups(xs, n - 1);
      if n > 1 && Joins(xs[n - 2], xs[n - 1]) {
        JoinStep(xs, n - 1);
      } else {
        LeadStep(xs, n - 1);
      }
    }
  }

  /** Every record index up to the number of leaders belongs to some leader. */
  lemma {:induction false} LeaderOf(xs: seq<Access>, n: nat, j: nat)
    requires n <= |xs| && j < LeadCount(xs, n)
    ensures exists i :: 0 <= i < n && Leads(xs, i) && LeadCount(xs, i) == j
  {
    if j < LeadCount(xs, n - 1) {
      LeaderOf(xs, n - 1, j);
    } else {
      assert Leads(xs, n - 1) && LeadCount(xs, n - 1) == j;
    }
  }

  /** Records start in the order of their leaders, no later than the last access seen. */
  lemma {:induction false} CollapseOrdered(xs: seq<Access>, n: nat)
    requires n <= |xs| && StartsIncrease(xs)
    ensures StartsIncrease(CollapseUpTo(xs, n))
    ensures n > 0 ==> forall j | 0 <= j < |CollapseUpTo(xs, n)| :: CollapseUpTo(xs, n)[j].start <= xs[n - 1].start
  {
    if n > 0 {
      CollapseOrdered(xs, n - 1);
      var prior, out := CollapseUpTo(xs, n - 1), CollapseUpTo(xs, n);
      if n > 1 && Joins(xs[n - 2], xs[n - 1]) {
        assert forall j | 0 <= j < |out| :: out[j].start == prior[j].start;
      } else {
        assert out == prior + [xs[n - 1]];
      }
    }
  }

  /** Sums over records that agree in size agree. */
  lemma {:induction false} SameSizes(s: seq<Access>, t: seq<Access>, hi: nat)
    requires hi <= |s| && hi <= |t| && forall j | 0 <= j < hi :: s[j].size == t[j].size
    ensures SizeOver(s, 0, hi) == SizeOver(t, 0, hi)
  {
    if hi > 0 {
      SameSizes(s, t, hi - 1);
    }
  }

  /** Sums over records that agree in duration agree. */
  lemma {:induction false} SameDurations(s: seq<Access>, t: seq<Access>, hi: nat)
    requires hi <= |s| && hi <= |t| && forall j | 0 <= j < hi :: s[j].duration == t[j].duration
    ensures DurationOver(s, 0, hi) == DurationOver(t, 0, hi)
  {
    if hi > 0 {
      SameDurations(s, t, hi - 1);
    }
  }

  /** One step of the collapse adds the size of the next access to the total. */
  lemma SizeStep(xs: seq<Access>, n: nat)
    requires 0 < n <= |xs|
    ensures var prior, out := CollapseUpTo(xs, n - 1), CollapseUpTo(xs, n);
            SizeOver(out, 0, |out|) == SizeOver(prior, 0, |prior|) + xs[n - 1].size
  {
    var prior, a, out := CollapseUpTo(xs, n - 1), xs[n - 1], CollapseUpTo(xs, n);
    if n > 1 && Joins(xs[n - 2], a) {
      var k := |prior| - 1;
      assert out == prior[k := Merge(prior[k], a, xs[n - 2].dupCount)];
      SameSizes(out, prior, k);
    } else {
      assert out == prior + [a];
      SameSizes(out, prior, |prior|);
    }
  }

  /** One step of the collapse adds the duration of the next access to the total. */
  lemma DurationStep(xs: seq<Access>, n: nat)
    requires 0 < n <= |xs|
    ensures var prior, out := CollapseUpTo(xs, n - 1), CollapseUpTo(xs, n);
            DurationOver(out, 0, |out|) == DurationOver(prior, 0, |prior|) + xs[n - 1].duration
  {
    var prior, a, out := CollapseUpTo(xs, n - 1), xs[n - 1], CollapseUpTo(xs, n);
    if n > 1 && Joins(xs[n - 2], a) {
      var k := |prior| - 1;
      assert out == prior[k := Merge(prior[k], a, xs[n - 2].dupCount)];
      SameDurations(out, prior, k);
    } else {
      assert out == prior + [a];
      SameDurations(out, prior, |prior|);
    }
  }

  /** Merging moves size into the record absorbing it: the collapsed list of the first `n` accesses
      has the same total size as those accesses. */
  lemma {:induction false} CollapseKeepsSize(xs: seq<Access>, n: nat)
    requires n <= |xs|
    ensures var out := CollapseUpTo(xs, n); SizeOver(out, 0, |out|) == SizeOver(xs, 0, n)
  {
    if n > 0 {
      CollapseKeepsSize(xs, n - 1);
      SizeStep(xs, n);
    }
  }

  /** The same for durations: merging sums them. */
  lemma {:induction false} CollapseKeepsDuration(xs: seq<Access>, n: nat)
    requires n <= |xs|
    ensures var out := CollapseUpTo(xs, n); DurationOver(out, 0, |out|) == DurationOver(xs, 0, n)
  {
    if n > 0 {
      CollapseKeepsDuration(xs, n - 1);
      DurationStep(xs, n);
    }
  }

  /** A list of notes holding "[c]" and "~" at most once each. */
  predicate NotedOnce(info: seq<Tag>) {
    multiset(info)[Collapsed] <= 1 && multiset(info)[Fuzzy] <= 1
  }

  /** Merging never adds a second "[c]" or "~": if no input access carries either note twice, no
      record does. */
  lemma {:induction false} NotesOnce(xs: seq<Access>, n: nat)
    requires n <= |xs| && forall i | 0 <= i < |xs| :: NotedOnce(xs[i].info)
    ensures forall j | 0 <= j < |CollapseUpTo(xs, n)| :: NotedOnce(CollapseUpTo(xs, n)[j].info)
  {
    if n > 0 {
      NotesOnce(xs, n - 1);
      var prior, a, out := CollapseUpTo(xs, n - 1), xs[n - 1], CollapseUpTo(xs, n);
      if n > 1 && Joins(xs[n - 2], a) {
        var k := |prior| - 1;
        assert out == prior[k := Merge(prior[k], a, xs[n - 2].dupCount)];
        MergeNotedOnce(prior[k], a, xs[n - 2].dupCount);
      } else {
        assert out == prior + [a];
      }
    }
  }

  lemma MergeNotedOnce(p: Access, a: Access, previousCount: Option<int>)
    requires NotedOnce(p.info)
    ensures NotedOnce(Merge(p, a, previousCount).info)
  {
    var noted := AddOnce(p.info, Collapsed);
    AddOnceCounts(p.info, Collapsed);
    AddOnceCounts(noted, Fuzzy);
  }

  /** `collapse_entry_types`: collapse the chronology and key each record by its start time. */
  function CollapseEntryTypes(m: map<int, Access>): (r: map<int, Access>)
    ensures KeyedByStart(r)
  {
    var xs := Records(Chronology(m));
    ByStart(CollapseUpTo(xs, |xs|))
  }

  /** Collapsing the first `n` accesses yields one record per leader. */
  lemma {:induction false} CollapseCount(xs: seq<Access>, n: nat)
    requires n <= |xs|
    ensures |CollapseUpTo(xs, n)| == LeadCount(xs, n)
  {
    if n > 0 {
      CollapseCount(xs, n - 1);
    }
  }

  /** Among the first `n` accesses, the record of each leader starts when the leader does. */
  lemma LeaderStarts(xs: seq<Access>, n: nat)
    requires n <= |xs|
    ensures var out := CollapseUpTo(xs, n);
            forall i | 0 <= i < n && Leads(xs, i) :: LeadCount(xs, i) < |out| && out[LeadCount(xs, i)].start == xs[i].start
  {
    var out := CollapseUpTo(xs, n);
    CollapseGroups(xs, n);
    forall i | 0 <= i < n && Leads(xs, i)
      ensures LeadCount(xs, i) < |out| && out[LeadCount(xs, i)].start == xs[i].start
    {
      assert Keeps(xs, n, i, out[LeadCount(xs, i)]);
    }
  }

  /** On a dictionary keyed by start time the collapsed records start in increasing order, so none
      replaces another in the resulting dictionary: it has one entry per leader. */
  lemma CollapsedOrder(m: map<int, Access>)
    requires KeyedByStart(m)
    ensures var xs := Records(Chronology(m));
            var out := CollapseUpTo(xs, |xs|);
            StartsIncrease(out) && |CollapseEntryTypes(m)| == |out| == LeadCount(xs, |xs|)
  {
    var xs := Records(Chronology(m));
    ChronologyStarts(m);
    CollapseOrdered(xs, |xs|);
    ByStartSize(CollapseUpTo(xs, |xs|));
    CollapseCount(xs, |xs|);
  }

  /** Every access that starts a record is found under its start time, as the `LeadCount`-th record
      of the collapsed list. */
  lemma LeadersFound(m: map<int, Access>)
    requires KeyedByStart(m)
    ensures var items := Chronology(m);
            var xs := Records(items);
            var out := CollapseUpTo(xs, |xs|);
            forall i | 0 <= i < |items| && Leads(xs, i) ::
              LeadCount(xs, i) < |out| && items[i].0 in ByStart(out) && ByStart(out)[items[i].0] == out[LeadCount(xs, i)]
  {
    var items := Chronology(m);
    var xs := Records(items);
    var out := CollapseUpTo(xs, |xs|);
    CollapsedOrder(m);
    ChronologyAtKeys(m);
    LeaderStarts(xs, |xs|);
    forall i | 0 <= i < |items| && Leads(xs, i)
      ensures LeadCount(xs, i) < |out| && items[i].0 in ByStart(out) && ByStart(out)[items[i].0] == out[LeadCount(xs, i)]
    {
      ByStartAt(out, LeadCount(xs, i));
    }
  }

  /** Every access that starts a record is found under its start time, as the record `Keeps`
      describes. */
  lemma CollapsedLeaders(m: map<int, Access>)
    requires KeyedByStart(m)
    ensures var items, r := Chronology(m), CollapseEntryTypes(m);
            var xs := Records(items);
            forall i | 0 <= i < |items| && Leads(xs, i) :: items[i].0 in r && Keeps(xs, |xs|, i, r[items[i].0])
  {
    var items := Chronology(m);
    var xs := Records(items);
    var out := CollapseUpTo(xs, |xs|);
    LeadersFound(m);
    CollapseGroups(xs, |xs|);
    forall i | 0 <= i < |items| && Leads(xs, i)
      ensures items[i].0 in ByStart(out) && Keeps(xs, |xs|, i, ByStart(out)[items[i].0])
    {
      assert Keeps(xs, |xs|, i, out[LeadCount(xs, i)]);
    }
  }

  /** Every key of the collapsed dictionary is the start time of an access that starts a record. */
  lemma CollapsedKeys(m: map<int, Access>)
    requires KeyedByStart(m)
    ensures var items, r := Chronology(m), CollapseEntryTypes(m);
            var xs := Records(items);
            forall k | k in r :: exists i :: 0 <= i < |items| && Leads(xs, i) && items[i].0 == k
  {
    var items := Chronology(m);
    var xs := Records(items);
    var n := |xs|;
    var out := CollapseUpTo(xs, n);
    CollapseCount(xs, n);
    ChronologyAtKeys(m);
    LeaderStarts(xs, n);
    forall k | k in ByStart(out)
      ensures exists i :: 0 <= i < |items| && Leads(xs, i) && items[i].0 == k
    {
      ByStartKeys(out, k);
      var j :| 0 <= j < |out| && out[j].start == k && ByStart(out)[k] == out[j];
      LeaderOf(xs, n, j);
      var i :| 0 <= i < n && Leads(xs, i) && LeadCount(xs, i) == j;
      assert items[i].0 == k;
    }
  }

  /** A start time that survives collapsing is that of an access that starts a record. */
  lemma KeptLeads(m: map<int, Access>, i: nat)
    requires KeyedByStart(m) && i < |Chronology(m)| && Chronology(m)[i].0 in CollapseEntryTypes(m)
    ensures Leads(Records(Chronology(m)), i)
  {
    var items := Chronology(m);
    CollapsedKeys(m);
    var i' :| 0 <= i' < |items| && Leads(Records(items), i') && items[i'].0 == items[i].0;
    AscendingInjective(items, i, i');
  }

  /** On a dictionary keyed by start time, collapsing keeps exactly the accesses that start a record
      (the first, and every one that does not join its predecessor) and drops every access merged
      into another. */
  lemma CollapsedEntries(m: map<int, Access>)
    requires KeyedByStart(m)
    ensures var items, r := Chronology(m), CollapseEntryTypes(m);
            forall i | 0 <= i < |items| :: items[i].0 in r <==> Leads(Records(items), i)
  {
    var items, r := Chronology(m), CollapseEntryTypes(m);
    LeadersFound(m);
    forall i | 0 <= i < |items| && items[i].0 in r
      ensures Leads(Records(items), i)
    {
      KeptLeads(m, i);
    }
  }

  /** The collapsed dictionary's keys are keys of the input, one per access that starts a record. */
  lemma CollapsedDomain(m: map<int, Access>)
    requires KeyedByStart(m)
    ensures var xs, r := Records(Chronology(m)), CollapseEntryTypes(m);
            r.Keys <= m.Keys && |r| == LeadCount(xs, |xs|)
  {
    var items, r := Chronology(m), CollapseEntryTypes(m);
    CollapsedOrder(m);
    forall k | k in r
      ensures k in m
    {
      CollapsedKeys(m);
      var i :| 0 <= i < |items| && Leads(Records(items), i) && items[i].0 == k;
    }
  }

  /** On a dictionary keyed by start time whose accesses carry "[c]" and "~" at most once each, so
      does every collapsed record. */
  lemma CollapsedNotesOnce(m: map<int, Access>)
    requires KeyedByStart(m) && forall k | k in m :: NotedOnce(m[k].info)
    ensures forall k | k in CollapseEntryTypes(m) :: NotedOnce(CollapseEntryTypes(m)[k].info)
  {
    var xs := Records(Chronology(m));
    var out := CollapseUpTo(xs, |xs|);
    NotesOnce(xs, |xs|);
    forall k | k in ByStart(out)
      ensures NotedOnce(ByStart(out)[k].info)
    {
      ByStartKeys(out, k);
    }
  }
}
