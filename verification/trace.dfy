/**
 * The part of `PSPTrace.__init__` after decoding: an optional row limit keeps the earliest
 * accesses (the first `limit_rows` items in key order, with Python's slice semantics), and every
 * access of exactly 0x40 bytes is then tagged as a probable cryptographic co-processor access.
 */
module Trace {
  import opened Wrappers
  import opened Accesses

  /** The size of the heuristic's co-processor accesses. */
  const CcpSize := 0x40

  /** How many items `items[:n]` keeps of `len`: a negative `n` counts from the end, and a bound
      past either end is clamped. */
  function SliceEnd(len: nat, n: int): (c: nat)
    ensures c <= len
    ensures n >= 0 ==> c == Min(n, len)
    ensures n < 0 ==> c + Min(-n, len) == len
  {
    if n >= 0 then Min(n, len) else Max(0, len + n)
  }

  /** The keys of the first `c` items of the chronology. */
  function FirstKeys(m: map<int, Access>, c: nat): (ks: set<int>)
    requires c <= |m|
    ensures ks <= m.Keys
  {
    var items := Chronology(m);
    set i | 0 <= i < c :: items[i].0
  }

  /** `if limit_rows:` -- no limit and a limit of zero both keep everything; otherwise the dictionary
      is rebuilt from the first items of its chronology. */
  function LimitRows(m: map<int, Access>, limit: Option<int>): (r: map<int, Access>)
    ensures r.Keys <= m.Keys && forall k | k in r :: r[k] == m[k]
    ensures limit == None || limit == Some(0) ==> r == m
  {
    if limit == None || limit == Some(0) then m
    else
      var keep := FirstKeys(m, SliceEnd(|m|, limit.value));
      map k | k in m && k in keep :: m[k]
  }

  /** The items of the chronology's prefix are entries of the limited dictionary. */
  lemma PrefixKept(m: map<int, Access>, n: int)
    requires n != 0
    ensures var prefix := Chronology(m)[..SliceEnd(|m|, n)];
            forall i | 0 <= i < |prefix| :: prefix[i].0 in LimitRows(m, Some(n)) && LimitRows(m, Some(n))[prefix[i].0] == prefix[i].1
  {
    var items := Chronology(m);
    var c := SliceEnd(|m|, n);
    forall i | 0 <= i < c
      ensures items[i].0 in FirstKeys(m, c)
    {
    }
  }

  /** A limit keeps the keys of the first items of the chronology. */
  lemma LimitKeys(m: map<int, Access>, n: int)
    requires n != 0
    ensures LimitRows(m, Some(n)).Keys == FirstKeys(m, SliceEnd(|m|, n))
  {
  }

  /** A key among the first `c` of the chronology is the key of an item of the prefix. */
  lemma FirstKeyInPrefix(m: map<int, Access>, c: nat, k: int)
    requires c <= |m| && k in FirstKeys(m, c)
    ensures exists i :: 0 <= i < c && Chronology(m)[..c][i].0 == k
  {
    var items := Chronology(m);
    var i :| 0 <= i < c && items[i].0 == k;
    assert items[..c][i] == items[i];
  }

  /** Every key of the limited dictionary is the key of an item of the chronology's prefix. */
  lemma KeptInPrefix(m: map<int, Access>, n: int)
    requires n != 0
    ensures var prefix := Chronology(m)[..SliceEnd(|m|, n)];
            forall k | k in LimitRows(m, Some(n)) :: exists i :: 0 <= i < |prefix| && prefix[i].0 == k
  {
    var c := SliceEnd(|m|, n);
    LimitKeys(m, n);
    forall k | k in FirstKeys(m, c)
      ensures exists i :: 0 <= i < c && Chronology(m)[..c][i].0 == k
    {
      FirstKeyInPrefix(m, c, k);
    }
  }

  /** A limit keeps exactly the first items of the chronology: the limited dictionary's chronology
      is that prefix. */
  lemma LimitKeepsPrefix(m: map<int, Access>, n: int)
    requires n != 0
    ensures Chronology(LimitRows(m, Some(n))) == Chronology(m)[..SliceEnd(|m|, n)]
  {
    var prefix := Chronology(m)[..SliceEnd(|m|, n)];
    PrefixKept(m, n);
    KeptInPrefix(m, n);
    assert Ascending(prefix);
    ChronologyOf(LimitRows(m, Some(n)), prefix);
  }

  /** The limited dictionary holds `n` accesses (all of them when there are fewer), or all but the
      last `-n` for a negative `n`. */
  lemma LimitSize(m: map<int, Access>, n: int)
    requires n != 0
    ensures |LimitRows(m, Some(n))| == SliceEnd(|m|, n)
  {
    LimitKeepsPrefix(m, n);
  }

  /** An access with the co-processor note appended when it has exactly 0x40 bytes. */
  function TagOne(a: Access): Access {
    if a.size == CcpSize then a.(info := a.info + [Ccp]) else a
  }

  /** Annotates reads of size 0x40 with the co-processor note. */
  function TagCcp(m: map<int, Access>): (r: map<int, Access>)
    ensures r.Keys == m.Keys
    ensures forall k | k in m :: r[k].(info := []) == m[k].(info := [])
    ensures forall k | k in m :: m[k].info <= r[k].info
  {
    map k | k in m :: TagOne(m[k])
  }

  /** For accesses not yet noted, the note is there exactly when the access has 0x40 bytes, and it
      is there once. */
  lemma CcpExactly(m: map<int, Access>, k: int)
    requires k in m && Ccp !in m[k].info
    ensures Ccp in TagCcp(m)[k].info <==> m[k].size == 0x40
    ensures multiset(TagCcp(m)[k].info)[Ccp] == if m[k].size == 0x40 then 1 else 0
    ensures forall u | u != Ccp :: multiset(TagCcp(m)[k].info)[u] == multiset(m[k].info)[u]
  {
    var a := m[k];
    if a.size == CcpSize {
      assert TagCcp(m)[k].info == a.info + [Ccp];
    }
  }

  /** The accesses a trace shows: the decoded accesses after the optional row limit and the
      co-processor tagging. */
  function PrepareAccesses(m: map<int, Access>, limit: Option<int>): (r: map<int, Access>)
    ensures r.Keys <= m.Keys && (limit == None || limit == Some(0) ==> r.Keys == m.Keys)
    ensures forall k | k in r :: r[k].(info := []) == m[k].(info := []) && m[k].info <= r[k].info
    ensures forall k | k in r && Ccp !in m[k].info :: Ccp in r[k].info <==> m[k].size == 0x40
  {
    var limited := LimitRows(m, limit);
    forall k | k in limited && Ccp !in m[k].info
      ensures Ccp in TagCcp(limited)[k].info <==> m[k].size == 0x40
    {
      CcpExactly(limited, k);
    }
    TagCcp(limited)
  }
}
