/**
 * `do_normalize_timestamps`: every access's start and end time move back by the earliest start
 * time of the collection, so that the earliest access starts at zero. The dictionary keys (the
 * original start times) are kept.
 */
module Normalize {
  import opened Accesses

  /** The start times the accesses carry (the `start_time` fields, not the keys). */
  function Starts(m: map<int, Access>): (s: set<int>)
    ensures forall k | k in m :: m[k].start in s
    ensures forall t | t in s :: exists k :: k in m && m[k].start == t
  {
    set k | k in m :: m[k].start
  }

  /** `min(v['start_time'] for v in read_accesses.values())`; an empty collection has none. */
  function EarliestStart(m: map<int, Access>): (t: int)
    requires |m| > 0
    ensures forall k | k in m :: t <= m[k].start
    ensures exists k :: k in m && m[k].start == t
  {
    KeysCardinality(m);
    Inhabited(m.Keys);
    var k :| k in m;
    assert m[k].start in Starts(m);
    MinOf(Starts(m))
  }

  /** An access with its start and end moved back by `d`. */
  function Shift(a: Access, d: int): Access {
    a.(start := a.start - d, end := a.end - d)
  }

  function NormalizeTimestamps(m: map<int, Access>): (r: map<int, Access>)
    requires |m| > 0
    ensures r.Keys == m.Keys
    ensures forall k | k in m :: r[k].start >= 0
    ensures exists k :: k in m && r[k].start == 0
  {
    var t := EarliestStart(m);
    map k | k in m :: Shift(m[k], t)
  }

  /** Only the two times move, both by the earliest start: the duration, latency and every other
      field are kept, and so are the distances between any two accesses' times. */
  lemma NormalizeKeeps(m: map<int, Access>, k: int, j: int)
    requires |m| > 0 && k in m && j in m
    ensures var r := NormalizeTimestamps(m);
            && r[k].end - r[k].start == m[k].end - m[k].start
            && r[k].duration == m[k].duration && r[k].latency == m[k].latency
            && r[k].(start := 0, end := 0) == m[k].(start := 0, end := 0)
            && r[k].start - r[j].start == m[k].start - m[j].start
            && r[k].end - r[j].start == m[k].end - m[j].start
  {
  }

  /** After normalising, the earliest start is zero. */
  lemma NormalizedEarliest(m: map<int, Access>)
    requires |m| > 0
    ensures EarliestStart(NormalizeTimestamps(m)) == 0
  {
    var r := NormalizeTimestamps(m);
    var k :| k in m && r[k].start == 0;
    assert EarliestStart(r) <= r[k].start;
  }

  /** Moving every access back by zero changes nothing. */
  lemma ShiftNone(m: map<int, Access>)
    ensures (map k | k in m :: Shift(m[k], 0)) == m
  {
  }

  /** A second normalisation changes nothing. */
  lemma NormalizeIdempotent(m: map<int, Access>)
    requires |m| > 0
    ensures |NormalizeTimestamps(m)| > 0
    ensures NormalizeTimestamps(NormalizeTimestamps(m)) == NormalizeTimestamps(m)
  {
    var r := NormalizeTimestamps(m);
    assert r.Keys == m.Keys;
    NormalizedEarliest(m);
    ShiftNone(r);
  }
}
