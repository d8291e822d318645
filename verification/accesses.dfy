/**
 * The read-access record every stage produces and consumes, and the chronological iteration
 * (`sorted(accesses.items())`) every post-processing stage uses. A decoded capture is a
 * dictionary from start time to access; a second access with the same start time replaces the
 * first.
 */
module Accesses {
  import opened Wrappers
  import opened Classifier

  /** Annotations of the "info" column: quad-I/O read, probable cryptographic co-processor access,
      duplicate multiplicity ("x<n>"), collapsed run ("[c]") and inconsistent multiplicities ("~"). */
  datatype Tag = Qspi | Ccp | Times(count: int) | Collapsed | Fuzzy

  /** One reconstructed flash read. `dupCount` is the "duplicate_count" field, present only on
      accesses that went through duplicate aggregation. */
  datatype Access = Access(
    instrIndex: nat,
    start: int,
    end: int,
    duration: int,
    latency: int,
    address: int,
    size: int,
    region: Option<Label>,
    info: seq<Tag>,
    dupCount: Option<int>)

  /** Python's `min()` of two integers. */
  function Min(a: int, b: int): int {
    if a < b then a else b
  }

  /** Python's `max()` of two integers. */
  function Max(a: int, b: int): int {
    if a < b then b else a
  }

  /** Every access sits under its own start time. */
  predicate KeyedByStart(m: map<int, Access>) {
    forall k | k in m :: m[k].start == k
  }

  /** Set helper: a non-empty set has an element to pick (used to choose a witness). */
  lemma Inhabited(s: set<int>)
    requires s != {}
    ensures exists y :: y in s
  {
    if forall y :: y !in s {
      assert false;
    }
  }

  lemma {:induction false} MinExists(s: set<int>)
    requires s != {}
    ensures exists m :: m in s && forall x | x in s :: m <= x
    decreases |s|
  {
    Inhabited(s);
    var y :| y in s;
    var s' := s - {y};
    if s' == {} {
      forall x | x in s
        ensures y <= x
      {
        assert x == y || x in s';
      }
    } else {
      MinExists(s');
      var m :| m in s' && forall x | x in s' :: m <= x;
      var low := if y < m then y else m;
      forall x | x in s
        ensures low <= x
      {
        assert x == y || x in s';
      }
      assert low in s;
    }
  }

  /** Python's `min()` of a non-empty collection of integers. */
  function MinOf(s: set<int>): (m: int)
    requires s != {}
    ensures m in s && forall x | x in s :: m <= x
  {
    MinExists(s);
    var m :| m in s && forall x | x in s :: m <= x;
    m
  }

  /** Strictly increasing keys. */
  predicate Ascending<V>(items: seq<(int, V)>) {
    forall i, j | 0 <= i < j < |items| :: items[i].0 < items[j].0
  }

  /** Strictly increasing keys are distinct. */
  lemma AscendingInjective<V>(items: seq<(int, V)>, i: nat, j: nat)
    requires Ascending(items) && i < |items| && j < |items| && items[i].0 == items[j].0
    ensures i == j
  {
  }

  /** The elements of a finite set of integers in increasing order. */
  function SortedKeys(ks: set<int>): (r: seq<int>)
    ensures |r| == |ks|
    ensures forall i, j | 0 <= i < j < |r| :: r[i] < r[j]
    ensures forall i | 0 <= i < |r| :: r[i] in ks
    ensures forall k | k in ks :: k in r
    decreases |ks|
  {
    if ks == {} then []
    else
      var k := MinOf(ks);
      var rest := SortedKeys(ks - {k});
      [k] + rest
  }

  lemma KeysCardinality<V>(m: map<int, V>)
    ensures |m.Keys| == |m|
  {
  }

  /** `sorted(m.items())`: every entry of the dictionary exactly once, in increasing key order. */
  function Chronology<V>(m: map<int, V>): (items: seq<(int, V)>)
    ensures |items| == |m|
    ensures Ascending(items)
    ensures forall i | 0 <= i < |items| :: items[i].0 in m && m[items[i].0] == items[i].1
  {
    var ks := SortedKeys(m.Keys);
    KeysCardinality(m);
    var items := seq(|ks|, i requires 0 <= i < |ks| => (ks[i], m[ks[i]]));
    forall i | 0 <= i < |items|
      ensures items[i].0 in m && m[items[i].0] == items[i].1
    {
      assert ks[i] in m.Keys;
      assert items[i] == (ks[i], m[ks[i]]);
    }
    assert Ascending(items);
    items
  }

  /** Every key of the dictionary occurs in its chronology. */
  lemma ChronologyHas<V>(m: map<int, V>, k: int)
    requires k in m
    ensures exists i :: 0 <= i < |Chronology(m)| && Chronology(m)[i].0 == k
  {
    var items := Chronology(m);
    var ks := SortedKeys(m.Keys);
    var i :| 0 <= i < |ks| && ks[i] == k;
    assert items[i].0 == k;
  }

  /** The chronology of a non-empty dictionary starts with its earliest key. */
  lemma FirstIsEarliest<V>(m: map<int, V>)
    requires m != map[]
    ensures |Chronology(m)| > 0 && Chronology(m)[0].0 == MinOf(m.Keys)
  {
    var items := Chronology(m);
    var k := MinOf(m.Keys);
    assert items[0].0 in m.Keys;
  }

  /** Every pair of `a` is also in `b`. */
  predicate Within<V(==)>(a: seq<(int, V)>, b: seq<(int, V)>) {
    forall i | 0 <= i < |a| :: a[i] in b
  }

  /** Two sequences in strictly increasing key order holding the same pairs start alike. */
  lemma SameFirst<V>(a: seq<(int, V)>, b: seq<(int, V)>)
    requires Ascending(a) && Ascending(b) && 0 < |a| && 0 < |b| && Within(a, b) && Within(b, a)
    ensures a[0] == b[0]
  {
    assert a[0] in b && b[0] in a;
    var j :| 0 <= j < |b| && b[j] == a[0];
    var i :| 0 <= i < |a| && a[i] == b[0];
    assert a[0].0 <= a[i].0 && b[0].0 <= b[j].0;
    AscendingInjective(a, 0, i);
  }

  /** Dropping the common first pair, what follows it in one is what follows it in the other. */
  lemma RestIn<V>(a: seq<(int, V)>, b: seq<(int, V)>)
    requires Ascending(a) && Ascending(b) && 0 < |a| && 0 < |b| && a[0] == b[0] && Within(a, b)
    ensures Within(a[1..], b[1..])
  {
    forall x | 0 <= x < |a| - 1
      ensures a[1..][x] in b[1..]
    {
      assert a[1..][x] == a[x + 1];
      assert a[x + 1] in b;
      var y :| 0 <= y < |b| && b[y] == a[x + 1];
      assert y != 0;
      assert b[1..][y - 1] == b[y];
    }
  }

  /** Nothing is within an empty sequence but an empty one. */
  lemma WithinEmpty<V>(a: seq<(int, V)>, b: seq<(int, V)>)
    requires Within(a, b)
    ensures |b| == 0 ==> |a| == 0
  {
    if |a| > 0 {
      assert a[0] in b;
    }
  }

  /** Two sequences in strictly increasing key order holding the same pairs are equal. */
  lemma {:induction false} SameAscending<V>(a: seq<(int, V)>, b: seq<(int, V)>)
    requires Ascending(a) && Ascending(b) && Within(a, b) && Within(b, a)
    ensures a == b
    decreases |a|
  {
    if |a| > 0 && |b| > 0 {
      SameFirst(a, b);
      RestIn(a, b);
      RestIn(b, a);
      SameAscending(a[1..], b[1..]);
      assert a == [a[0]] + a[1..] && b == [b[0]] + b[1..];
    } else {
      WithinEmpty(a, b);
      WithinEmpty(b, a);
    }
  }

  /** A sequence in strictly increasing key order holding exactly the entries of a dictionary is
      its chronology. */
  lemma ChronologyOf<V>(m: map<int, V>, items: seq<(int, V)>)
    requires Ascending(items)
    requires forall i | 0 <= i < |items| :: items[i].0 in m && m[items[i].0] == items[i].1
    requires forall k | k in m :: exists i :: 0 <= i < |items| && items[i].0 == k
    ensures Chronology(m) == items
  {
    var c := Chronology(m);
    forall i | 0 <= i < |items|
      ensures items[i] in c
    {
      ChronologyHas(m, items[i].0);
      var j :| 0 <= j < |c| && c[j].0 == items[i].0;
      assert c[j] == items[i];
    }
    forall j | 0 <= j < |c|
      ensures c[j] in items
    {
      var i :| 0 <= i < |items| && items[i].0 == c[j].0;
      assert items[i] == c[j];
    }
    SameAscending(c, items);
  }

  /** Assigning accesses one after another into a dictionary under their start times: a later
      access with the same start time replaces an earlier one. */
  function ByStart(items: seq<Access>): (m: map<int, Access>)
    ensures KeyedByStart(m)
  {
    if |items| == 0 then map[]
    else
      var last := items[|items| - 1];
      ByStart(items[..|items| - 1])[last.start := last]
  }

  /** Storing one more access after a sequence updates the map at that access's start. */
  lemma ByStartSnoc(items: seq<Access>, a: Access)
    ensures ByStart(items + [a]) == ByStart(items)[a.start := a]
  {
    assert (items + [a])[..|items|] == items;
  }

  /** Start times that strictly increase along the sequence. */
  predicate StartsIncrease(items: seq<Access>) {
    forall i, j | 0 <= i < j < |items| :: items[i].start < items[j].start
  }

  /** Every key assigned is the start time of one of the accesses, so a bound on those bounds the
      keys. */
  lemma {:induction false} KeysBefore(items: seq<Access>, t: int)
    requires forall i | 0 <= i < |items| :: items[i].start < t
    ensures forall k | k in ByStart(items) :: k < t
  {
    if |items| > 0 {
      var init := items[..|items| - 1];
      assert forall i | 0 <= i < |init| :: init[i] == items[i];
      KeysBefore(init, t);
    }
  }

  /** With strictly increasing start times no access replaces another: each is found under its
      start time. */
  lemma {:induction false} ByStartAt(items: seq<Access>, k: nat)
    requires StartsIncrease(items) && k < |items|
    ensures items[k].start in ByStart(items) && ByStart(items)[items[k].start] == items[k]
  {
    var n := |items| - 1;
    if k < n {
      var init := items[..n];
      assert forall i | 0 <= i < |init| :: init[i] == items[i];
      assert StartsIncrease(init);
      ByStartAt(init, k);
      assert items[k].start != items[n].start;
    }
  }

  /** With strictly increasing start times there are as many entries as accesses. */
  lemma {:induction false} ByStartSize(items: seq<Access>)
    requires StartsIncrease(items)
    ensures |ByStart(items)| == |items|
  {
    if |items| > 0 {
      var n := |items| - 1;
      var init := items[..n];
      assert forall i | 0 <= i < |init| :: init[i] == items[i];
      assert StartsIncrease(init);
      ByStartSize(init);
      KeysBefore(init, items[n].start);
    }
  }
  /** Every key of the dictionary built by assignment is the start time of one of the accesses. */
  lemma {:induction false} ByStartKeys(items: seq<Access>, k: int)
    requires k in ByStart(items)
    ensures exists j :: 0 <= j < |items| && items[j].start == k && ByStart(items)[k] == items[j]
  {
    var n := |items| - 1;
    if items[n].start != k {
      var init := items[..n];
      ByStartKeys(init, k);
      var j :| 0 <= j < |init| && init[j].start == k && ByStart(init)[k] == init[j];
      assert items[j] == init[j];
    }
  }

  /** The accesses of a chronology, in its order (the `values` of `for time, values in ...`). */
  function Records(items: seq<(int, Access)>): (r: seq<Access>)
    ensures |r| == |items|
    ensures forall i | 0 <= i < |items| :: r[i] == items[i].1
  {
    seq(|items|, i requires 0 <= i < |items| => items[i].1)
  }

  /** In a dictionary keyed by start time, each access of the chronology starts at its key. */
  lemma ChronologyAtKeys(m: map<int, Access>)
    requires KeyedByStart(m)
    ensures var items := Chronology(m);
            forall i | 0 <= i < |items| :: Records(items)[i].start == items[i].0
  {
    var items := Chronology(m);
    forall i | 0 <= i < |items|
      ensures Records(items)[i].start == items[i].0
    {
      assert items[i].0 in m;
    }
  }

  /** In a dictionary keyed by start time, the chronology's accesses start in increasing order. */
  lemma ChronologyStarts(m: map<int, Access>)
    requires KeyedByStart(m)
    ensures StartsIncrease(Records(Chronology(m)))
  {
    ChronologyAtKeys(m);
  }
}
