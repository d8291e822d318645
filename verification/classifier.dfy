/**
 * The address-to-region classifier. `find_read_accesses` builds a `RangeDict`: a dictionary whose
 * keys are Python `range` objects and whose lookup of a plain address walks the keys in insertion
 * order, returning the value of the first range that contains the address (or `None`). Here the
 * dictionary is an explicit insertion-ordered table of bindings with Python's dictionary-assignment
 * semantics: assigning to a key equal to an existing one replaces the value but keeps the old key
 * and its position; any other key is appended.
 */
module Classifier {
  import opened Wrappers

  /** What a firmware region is labelled with: a directory entry's numeric type, a directory
      header ('Directory: ' followed by its magic), or the fixed firmware entry table. */
  datatype Label = EntryType(code: int) | DirectoryMagic(magic: string) | FirmwareEntryTable

  /** A Python `range(start, stop)` with step 1: the half-open interval [start, stop). */
  datatype Span = Span(start: int, stop: int)

  predicate Contains(s: Span, a: int) {
    s.start <= a < s.stop
  }

  predicate IsEmpty(s: Span) {
    s.stop <= s.start
  }

  /** Key equality of Python ranges: ranges compare as sequences, so all empty ranges are equal. */
  predicate SameKey(s: Span, t: Span) {
    (IsEmpty(s) && IsEmpty(t)) || s == t
  }

  datatype Binding = Binding(span: Span, kind: Label)

  function Spans(t: seq<Binding>): (r: seq<Span>)
    ensures |r| == |t|
    ensures forall i | 0 <= i < |t| :: r[i] == t[i].span
  {
    seq(|t|, i requires 0 <= i < |t| => t[i].span)
  }

  /** Position of the first span containing `a`. */
  function FirstMatch(spans: seq<Span>, a: int): (r: Option<nat>)
    ensures r.None? <==> forall i | 0 <= i < |spans| :: !Contains(spans[i], a)
    ensures r.Some? ==> r.value < |spans| && Contains(spans[r.value], a)
    ensures r.Some? ==> forall j | 0 <= j < r.value :: !Contains(spans[j], a)
  {
    if |spans| == 0 then None
    else if Contains(spans[0], a) then Some(0)
    else match FirstMatch(spans[1..], a)
      case None => None
      case Some(i) => Some(i + 1)
  }

  /** Dictionary lookup of an address: the label of the first-inserted range containing it. */
  function Lookup(t: seq<Binding>, a: int): (r: Option<Label>)
    ensures r.None? <==> forall i | 0 <= i < |t| :: !Contains(t[i].span, a)
    ensures r.Some? ==> exists i :: 0 <= i < |t| && Contains(t[i].span, a) && r.value == t[i].kind
                                   && forall j | 0 <= j < i :: !Contains(t[j].span, a)
  {
    match FirstMatch(Spans(t), a)
    case None => None
    case Some(i) => Some(t[i].kind)
  }

  /** Position of the key equal to `s`, if the table has one. */
  function KeyPosition(spans: seq<Span>, s: Span): (r: Option<nat>)
    ensures r.None? <==> forall i | 0 <= i < |spans| :: !SameKey(spans[i], s)
    ensures r.Some? ==> r.value < |spans| && SameKey(spans[r.value], s)
    ensures r.Some? ==> forall j | 0 <= j < r.value :: !SameKey(spans[j], s)
  {
    if |spans| == 0 then None
    else if SameKey(spans[0], s) then Some(0)
    else match KeyPosition(spans[1..], s)
      case None => None
      case Some(i) => Some(i + 1)
  }

  /** No two keys of a dictionary are equal. */
  predicate UniqueKeys(t: seq<Binding>) {
    forall i, j | 0 <= i < j < |t| :: !SameKey(t[i].span, t[j].span)
  }

  /** `d[b.span] = b.kind` on an insertion-ordered dictionary. */
  function Insert(t: seq<Binding>, b: Binding): (r: seq<Binding>)
    ensures UniqueKeys(t) ==> UniqueKeys(r)
    ensures |r| == |t| <==> exists i :: 0 <= i < |t| && SameKey(t[i].span, b.span)
    ensures |r| != |t| ==> r == t + [b]
    ensures forall i | 0 <= i < |t| :: r[i].span == t[i].span
    ensures forall i | 0 <= i < |t| && !SameKey(t[i].span, b.span) :: r[i] == t[i]
    ensures exists i :: 0 <= i < |r| && SameKey(r[i].span, b.span) && r[i].kind == b.kind
  {
    match KeyPosition(Spans(t), b.span)
    case None =>
      var r := t + [b];
      assert SameKey(r[|t|].span, b.span);
      r
    case Some(p) =>
      var r := t[p := Binding(t[p].span, b.kind)];
      assert SameKey(r[p].span, b.span);
      r
  }

  /** Successive assignments of `regs`, in order, into the dictionary `t`. */
  function InsertAll(t: seq<Binding>, regs: seq<Binding>): (r: seq<Binding>)
    ensures UniqueKeys(t) ==> UniqueKeys(r)
    decreases |regs|
  {
    if |regs| == 0 then t
    else Insert(InsertAll(t, regs[..|regs| - 1]), regs[|regs| - 1])
  }

  /** The label the last assignment to the key of `regs[i]` leaves behind. */
  function LatestLabel(regs: seq<Binding>, i: nat): (l: Label)
    requires i < |regs|
    ensures exists j :: i <= j < |regs| && SameKey(regs[j].span, regs[i].span) && l == regs[j].kind
                        && forall k | j < k < |regs| :: !SameKey(regs[k].span, regs[i].span)
    decreases |regs|
  {
    var n := |regs| - 1;
    if SameKey(regs[n].span, regs[i].span) then regs[n].kind
    else LatestLabel(regs[..n], i)
  }

  /** Reference semantics of a dictionary built from the registrations `regs`: the first
      registration whose range contains `a` decides the key, the last assignment to that key
      decides the label. */
  function RefLookup(regs: seq<Binding>, a: int): Option<Label> {
    match FirstMatch(Spans(regs), a)
    case None => None
    case Some(i) => Some(LatestLabel(regs, i))
  }

  // ---------------------------------------------------------------------------------------------
  // Facts about lookups and assignments
  // ---------------------------------------------------------------------------------------------

  lemma SpansAppend(t: seq<Binding>, b: Binding)
    ensures Spans(t + [b]) == Spans(t) + [b.span]
  {
  }

  lemma SpansRelabel(t: seq<Binding>, p: nat, l: Label)
    requires p < |t|
    ensures Spans(t[p := Binding(t[p].span, l)]) == Spans(t)
  {
  }

  lemma FirstMatchAppend(spans: seq<Span>, s: Span, a: int)
    ensures FirstMatch(spans + [s], a) ==
            if FirstMatch(spans, a).Some? then FirstMatch(spans, a)
            else if Contains(s, a) then Some(|spans|)
            else None
  {
    var u := spans + [s];
    assert forall i | 0 <= i < |spans| :: u[i] == spans[i];
    var r := FirstMatch(u, a);
    var q := FirstMatch(spans, a);
    if q.Some? {
      assert Contains(u[q.value], a);
      assert r.Some? && r.value <= q.value;
    } else if Contains(s, a) {
      assert Contains(u[|spans|], a);
    }
  }

  lemma KeyPositionAppend(spans: seq<Span>, s: Span, k: Span)
    ensures KeyPosition(spans + [s], k) ==
            if KeyPosition(spans, k).Some? then KeyPosition(spans, k)
            else if SameKey(s, k) then Some(|spans|)
            else None
  {
    var u := spans + [s];
    assert forall i | 0 <= i < |spans| :: u[i] == spans[i];
    var r := KeyPosition(u, k);
    var q := KeyPosition(spans, k);
    if q.Some? {
      assert SameKey(u[q.value], k);
      assert r.Some? && r.value <= q.value;
    } else if SameKey(s, k) {
      assert SameKey(u[|spans|], k);
    }
  }

  /** Whether the first range containing an address is found in the dictionary, and under which
      key and label, as the reference semantics predicts. */
  predicate MatchAgrees(t: seq<Binding>, regs: seq<Binding>, a: int) {
    match (FirstMatch(Spans(t), a), FirstMatch(Spans(regs), a))
    case (None, None) => true
    case (Some(q), Some(i)) =>
      q < |t| && i < |regs| && SameKey(t[q].span, regs[i].span) && t[q].kind == LatestLabel(regs, i)
    case _ => false
  }

  /** The facts about `t == InsertAll([], regs)` that the induction over `regs` carries. */
  predicate BuildInvariant(t: seq<Binding>, regs: seq<Binding>, a: int) {
    && UniqueKeys(t)
    && (forall j | 0 <= j < |regs| :: KeyPosition(Spans(t), regs[j].span).Some?)
    && (forall q | 0 <= q < |t| :: t[q].span in Spans(regs))
    && MatchAgrees(t, regs, a)
  }

  lemma LatestLabelAppend(pre: seq<Binding>, r: Binding, i: nat)
    requires i < |pre|
    ensures LatestLabel(pre + [r], i) == if SameKey(r.span, pre[i].span) then r.kind else LatestLabel(pre, i)
  {
    assert (pre + [r])[..|pre|] == pre;
  }

  /** Every assigned key stays present when a fresh key is appended. */
  lemma AppendKeepsCover(d: seq<Binding>, pre: seq<Binding>, r: Binding)
    requires forall j | 0 <= j < |pre| :: KeyPosition(Spans(d), pre[j].span).Some?
    ensures forall j | 0 <= j < |pre| + 1 :: KeyPosition(Spans(d + [r]), (pre + [r])[j].span).Some?
  {
    SpansAppend(d, r);
    forall j | 0 <= j < |pre| + 1
      ensures KeyPosition(Spans(d + [r]), (pre + [r])[j].span).Some?
    {
      KeyPositionAppend(Spans(d), r.span, (pre + [r])[j].span);
      if j < |pre| {
        assert (pre + [r])[j] == pre[j];
      }
    }
  }

  /** Every key of the dictionary stays one of the registered ranges when a fresh key is appended. */
  lemma AppendKeepsKeys(d: seq<Binding>, pre: seq<Binding>, r: Binding)
    requires forall q | 0 <= q < |d| :: d[q].span in Spans(pre)
    ensures forall q | 0 <= q < |d| + 1 :: (d + [r])[q].span in Spans(pre + [r])
  {
    SpansAppend(pre, r);
    forall q | 0 <= q < |d| + 1
      ensures (d + [r])[q].span in Spans(pre + [r])
    {
      if q < |d| {
        var j :| 0 <= j < |pre| && Spans(pre)[j] == d[q].span;
        assert Spans(pre + [r])[j] == d[q].span;
      } else {
        assert Spans(pre + [r])[|pre|] == r.span;
      }
    }
  }

  lemma AppendKeepsMatch(d: seq<Binding>, pre: seq<Binding>, r: Binding, a: int)
    requires MatchAgrees(d, pre, a)
    requires forall j | 0 <= j < |pre| :: KeyPosition(Spans(d), pre[j].span).Some?
    requires KeyPosition(Spans(d), r.span).None?
    ensures MatchAgrees(d + [r], pre + [r], a)
  {
    SpansAppend(pre, r);
    SpansAppend(d, r);
    FirstMatchAppend(Spans(pre), r.span, a);
    FirstMatchAppend(Spans(d), r.span, a);
    match FirstMatch(Spans(d), a) {
      case None =>
        assert Contains(r.span, a) ==> LatestLabel(pre + [r], |pre|) == r.kind;
      case Some(q) =>
        LatestLabelAppend(pre, r, FirstMatch(Spans(pre), a).value);
    }
  }

  /** Inductive step when the new registration's range is a new key: it is appended. */
  lemma InsertFreshKeyStep(d: seq<Binding>, pre: seq<Binding>, r: Binding, a: int)
    requires BuildInvariant(d, pre, a)
    requires KeyPosition(Spans(d), r.span).None?
    ensures BuildInvariant(Insert(d, r), pre + [r], a)
  {
    assert Insert(d, r) == d + [r];
    AppendKeepsCover(d, pre, r);
    AppendKeepsKeys(d, pre, r);
    AppendKeepsMatch(d, pre, r, a);
  }

  lemma RelabelKeepsCover(d: seq<Binding>, pre: seq<Binding>, r: Binding, p: nat)
    requires forall j | 0 <= j < |pre| :: KeyPosition(Spans(d), pre[j].span).Some?
    requires KeyPosition(Spans(d), r.span) == Some(p)
    ensures forall j | 0 <= j < |pre| + 1 ::
      KeyPosition(Spans(d[p := Binding(d[p].span, r.kind)]), (pre + [r])[j].span).Some?
  {
    SpansRelabel(d, p, r.kind);
    forall j | 0 <= j < |pre| + 1
      ensures KeyPosition(Spans(d), (pre + [r])[j].span).Some?
    {
      if j < |pre| {
        assert (pre + [r])[j] == pre[j];
      }
    }
  }

  lemma RelabelKeepsKeys(d: seq<Binding>, pre: seq<Binding>, r: Binding, p: nat)
    requires p < |d|
    requires forall q | 0 <= q < |d| :: d[q].span in Spans(pre)
    ensures forall q | 0 <= q < |d| :: d[q].span in Spans(pre + [r])
  {
    SpansAppend(pre, r);
    forall q | 0 <= q < |d|
      ensures d[q].span in Spans(pre + [r])
    {
      var j :| 0 <= j < |pre| && Spans(pre)[j] == d[q].span;
      assert Spans(pre + [r])[j] == d[q].span;
    }
  }

  lemma RelabelKeepsMatch(d: seq<Binding>, pre: seq<Binding>, r: Binding, a: int, p: nat)
    requires UniqueKeys(d)
    requires MatchAgrees(d, pre, a)
    requires forall q | 0 <= q < |d| :: d[q].span in Spans(pre)
    requires KeyPosition(Spans(d), r.span) == Some(p)
    ensures MatchAgrees(d[p := Binding(d[p].span, r.kind)], pre + [r], a)
  {
    SpansAppend(pre, r);
    SpansRelabel(d, p, r.kind);
    FirstMatchAppend(Spans(pre), r.span, a);
    match FirstMatch(Spans(d), a) {
      case None =>
      case Some(q) =>
        LatestLabelAppend(pre, r, FirstMatch(Spans(pre), a).value);
    }
  }

  /** Inductive step when the new registration's range equals an existing key: that key's label
      is replaced in place. */
  lemma InsertExistingKeyStep(d: seq<Binding>, pre: seq<Binding>, r: Binding, a: int, p: nat)
    requires BuildInvariant(d, pre, a)
    requires KeyPosition(Spans(d), r.span) == Some(p)
    ensures BuildInvariant(Insert(d, r), pre + [r], a)
  {
    assert Insert(d, r) == d[p := Binding(d[p].span, r.kind)];
    RelabelKeepsCover(d, pre, r, p);
    RelabelKeepsKeys(d, pre, r, p);
    RelabelKeepsMatch(d, pre, r, a, p);
  }

  /** The invariant of building a dictionary from registrations, for one address. */
  lemma {:induction false} InsertAllInvariant(regs: seq<Binding>, a: int)
    ensures BuildInvariant(InsertAll([], regs), regs, a)
    decreases |regs|
  {
    if |regs| > 0 {
      var n := |regs| - 1;
      var pre, r := regs[..n], regs[n];
      assert regs == pre + [r];
      InsertAllInvariant(pre, a);
      var d := InsertAll([], pre);
      match KeyPosition(Spans(d), r.span) {
        case None => InsertFreshKeyStep(d, pre, r, a);
        case Some(p) => InsertExistingKeyStep(d, pre, r, a, p);
      }
    }
  }

  /** A dictionary built by assigning the registrations `regs` in order answers every address
      lookup as the reference semantics does. */
  lemma InsertAllMatchesReference(regs: seq<Binding>, a: int)
    ensures Lookup(InsertAll([], regs), a) == RefLookup(regs, a)
  {
    InsertAllInvariant(regs, a);
  }

  lemma {:induction false} InsertAllAppend(t: seq<Binding>, xs: seq<Binding>, ys: seq<Binding>)
    ensures InsertAll(t, xs + ys) == InsertAll(InsertAll(t, xs), ys)
    decreases |ys|
  {
    if |ys| == 0 {
      assert xs + ys == xs;
    } else {
      var n := |ys| - 1;
      assert (xs + ys)[..|xs + ys| - 1] == xs + ys[..n];
      assert (xs + ys)[|xs + ys| - 1] == ys[n];
      InsertAllAppend(t, xs, ys[..n]);
    }
  }

  /** After the assignments `regs`, every key assigned is present. */
  lemma {:induction false} InsertAllCovers(t: seq<Binding>, regs: seq<Binding>)
    ensures forall j | 0 <= j < |regs| :: KeyPosition(Spans(InsertAll(t, regs)), regs[j].span).Some?
    decreases |regs|
  {
    if |regs| > 0 {
      var n := |regs| - 1;
      InsertAllCovers(t, regs[..n]);
      var d := InsertAll(t, regs[..n]);
      var r := Insert(d, regs[n]);
      forall j | 0 <= j < |regs|
        ensures KeyPosition(Spans(r), regs[j].span).Some?
      {
        if j == n {
          var i :| 0 <= i < |r| && SameKey(r[i].span, regs[n].span) && r[i].kind == regs[n].kind;
          assert SameKey(Spans(r)[i], regs[j].span);
        } else {
          assert regs[j] == regs[..n][j];
          var q := KeyPosition(Spans(d), regs[j].span).value;
          assert SameKey(Spans(r)[q], regs[j].span);
        }
      }
    }
  }

  /** Two assignments to equal keys act as one assignment of the second value. */
  lemma InsertTwiceSameKey(t: seq<Binding>, c: Binding, y: Binding)
    requires SameKey(y.span, c.span)
    ensures Insert(Insert(t, c), y) == Insert(t, Binding(c.span, y.kind))
  {
    match KeyPosition(Spans(t), c.span) {
      case None =>
        SpansAppend(t, c);
        KeyPositionAppend(Spans(t), c.span, y.span);
        assert (t + [c])[|t| := Binding(c.span, y.kind)] == t + [Binding(c.span, y.kind)];
      case Some(q) =>
        SpansRelabel(t, q, c.kind);
        assert KeyPosition(Spans(t), y.span) == Some(q);
    }
  }

  /** Relabelling an existing key commutes with appending a new, different key. */
  lemma InsertCommuteAppend(t: seq<Binding>, y: Binding, c: Binding)
    requires KeyPosition(Spans(t), y.span).Some?
    requires KeyPosition(Spans(t), c.span).None?
    requires !SameKey(y.span, c.span)
    ensures Insert(Insert(t, y), c) == Insert(Insert(t, c), y)
  {
    var q := KeyPosition(Spans(t), y.span).value;
    var t1 := t[q := Binding(t[q].span, y.kind)];
    SpansRelabel(t, q, y.kind);
    assert Insert(t, y) == t1;
    SpansAppend(t, c);
    KeyPositionAppend(Spans(t), c.span, y.span);
    assert Insert(t1, c) == t1 + [c];
    assert (t + [c])[q := Binding(t[q].span, y.kind)] == t1 + [c];
  }

  /** Relabelling two different existing keys commute. */
  lemma InsertCommuteRelabel(t: seq<Binding>, y: Binding, c: Binding)
    requires KeyPosition(Spans(t), y.span).Some?
    requires KeyPosition(Spans(t), c.span).Some?
    requires !SameKey(y.span, c.span)
    ensures Insert(Insert(t, y), c) == Insert(Insert(t, c), y)
  {
    var q := KeyPosition(Spans(t), y.span).value;
    var q2 := KeyPosition(Spans(t), c.span).value;
    var t1 := t[q := Binding(t[q].span, y.kind)];
    SpansRelabel(t, q, y.kind);
    assert Insert(t, y) == t1;
    assert q2 != q;
    SpansRelabel(t, q2, c.kind);
    var t2 := t[q2 := Binding(t[q2].span, c.kind)];
    assert Insert(t, c) == t2;
    assert t1[q2 := Binding(t1[q2].span, c.kind)] == t2[q := Binding(t2[q].span, y.kind)];
  }

  /** Assignments to an existing key and to a different key commute. */
  lemma InsertCommute(t: seq<Binding>, y: Binding, c: Binding)
    requires KeyPosition(Spans(t), y.span).Some?
    requires !SameKey(y.span, c.span)
    ensures Insert(Insert(t, y), c) == Insert(Insert(t, c), y)
  {
    if KeyPosition(Spans(t), c.span).None? {
      InsertCommuteAppend(t, y, c);
    } else {
      InsertCommuteRelabel(t, y, c);
    }
  }

  /** Relabelling one key of a duplicate-free list of assignments equals assigning the new label
      afterwards. */
  lemma {:induction false} InsertAllRelabel(d: seq<Binding>, b: seq<Binding>, p: nat, y: Binding)
    requires UniqueKeys(b)
    requires p < |b| && SameKey(y.span, b[p].span)
    ensures InsertAll(d, b[p := Binding(b[p].span, y.kind)]) == Insert(InsertAll(d, b), y)
    decreases |b|
  {
    var m := |b| - 1;
    var c, cs := b[m], b[..m];
    var b' := b[p := Binding(b[p].span, y.kind)];
    if p == m {
      assert b'[..m] == cs;
      InsertTwiceSameKey(InsertAll(d, cs), c, y);
    } else {
      assert b'[..m] == cs[p := Binding(cs[p].span, y.kind)];
      assert b'[m] == c;
      InsertAllRelabel(d, cs, p, y);
      InsertAllCovers(d, cs);
      var t := InsertAll(d, cs);
      var k := KeyPosition(Spans(t), cs[p].span).value;
      assert SameKey(Spans(t)[k], y.span);
      InsertCommute(t, y, c);
    }
  }

  /** Merging a dictionary built from `ys` into `d` (Python's `{**d, **other}`) equals assigning
      `ys` into `d` directly. */
  lemma {:induction false} InsertAllFlatten(d: seq<Binding>, ys: seq<Binding>)
    ensures InsertAll(d, InsertAll([], ys)) == InsertAll(d, ys)
    decreases |ys|
  {
    if |ys| > 0 {
      var n := |ys| - 1;
      var y := ys[n];
      InsertAllFlatten(d, ys[..n]);
      var b0 := InsertAll([], ys[..n]);
      assert UniqueKeys(b0);
      match KeyPosition(Spans(b0), y.span) {
        case None =>
          assert InsertAll([], ys) == b0 + [y];
          assert (b0 + [y])[..|b0|] == b0;
        case Some(p) =>
          assert InsertAll([], ys) == b0[p := Binding(b0[p].span, y.kind)];
          InsertAllRelabel(d, b0, p, y);
      }
    }
  }
}
