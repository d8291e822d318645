/**
 * Captures built from consecutive frames: the concatenation of a series of sample runs and where
 * each run starts in it. Both decoders' reconstruction results are stated about such captures.
 */
module Framing {

  /** The frame of each item, for a given per-item encoder. */
  function Frames<T>(items: seq<T>, encode: T -> seq<int>): (f: seq<seq<int>>)
    ensures |f| == |items| && forall k | 0 <= k < |items| :: f[k] == encode(items[k])
  {
    seq(|items|, k requires 0 <= k < |items| => encode(items[k]))
  }

  /** The frames one after another. */
  function Concat(frames: seq<seq<int>>): (e: seq<int>)
    ensures |e| == Offset(frames, |frames|)
  {
    if |frames| == 0 then []
    else
      OffsetOfPrefix(frames, |frames| - 1, |frames| - 1);
      Concat(frames[..|frames| - 1]) + frames[|frames| - 1]
  }

  /** Where the `k`-th frame starts in the concatenation. */
  function Offset(frames: seq<seq<int>>, k: nat): nat
    requires k <= |frames|
  {
    if k == 0 then 0 else Offset(frames, k - 1) + |frames[k - 1]|
  }

  lemma {:induction false} OffsetGrows(frames: seq<seq<int>>, j: nat, k: nat)
    requires j <= k <= |frames|
    ensures Offset(frames, j) <= Offset(frames, k)
    decreases k - j
  {
    if j < k {
      OffsetGrows(frames, j, k - 1);
    }
  }

  lemma {:induction false} OffsetOfPrefix(frames: seq<seq<int>>, k: nat, n: nat)
    requires k <= n <= |frames|
    ensures Offset(frames[..n], k) == Offset(frames, k)
  {
    if k > 0 {
      OffsetOfPrefix(frames, k - 1, n);
      assert frames[..n][k - 1] == frames[k - 1];
    }
  }

  /** The concatenation of the first `k` frames is a prefix of the whole concatenation. */
  lemma {:induction false} ConcatPrefix(frames: seq<seq<int>>, k: nat)
    requires k <= |frames|
    ensures Offset(frames, k) <= |Concat(frames)|
    ensures Concat(frames)[..Offset(frames, k)] == Concat(frames[..k])
    decreases |frames|
  {
    OffsetOfPrefix(frames, k, k);
    if k < |frames| {
      var init := frames[..|frames| - 1];
      assert init[..k] == frames[..k];
      ConcatPrefix(init, k);
      OffsetOfPrefix(frames, k, |frames| - 1);
      assert Concat(frames) == Concat(init) + frames[|frames| - 1];
    } else {
      assert frames[..k] == frames;
    }
  }

  lemma ConcatLast(frames: seq<seq<int>>, k: nat)
    requires k < |frames|
    ensures Concat(frames[..k + 1]) == Concat(frames[..k]) + frames[k]
  {
    assert frames[..k + 1][..k] == frames[..k];
  }

  /** The `k`-th frame sits at its offset. */
  lemma FrameInPlace(frames: seq<seq<int>>, k: nat)
    requires k < |frames|
    ensures Offset(frames, k + 1) == Offset(frames, k) + |frames[k]| <= |Concat(frames)|
    ensures Concat(frames)[Offset(frames, k) .. Offset(frames, k + 1)] == frames[k]
  {
    var e := Concat(frames);
    ConcatPrefix(frames, k + 1);
    OffsetOfPrefix(frames, k, k + 1);
    ConcatLast(frames, k);
    assert e[Offset(frames, k) .. Offset(frames, k + 1)] == e[..Offset(frames, k + 1)][Offset(frames, k)..];
  }

  /** A sample inside the `k`-th frame is that frame's sample. */
  lemma SampleInFrame(frames: seq<seq<int>>, k: nat, j: nat)
    requires k < |frames| && j < |frames[k]|
    ensures Offset(frames, k) + j < |Concat(frames)|
    ensures Concat(frames)[Offset(frames, k) + j] == frames[k][j]
  {
    FrameInPlace(frames, k);
    var e := Concat(frames);
    assert e[Offset(frames, k) + j] == e[Offset(frames, k) .. Offset(frames, k + 1)][j];
  }

  /** A slice of a slice is a slice of the whole. */
  lemma SubSlice(e: seq<int>, a: nat, b: nat, i: nat, j: nat)
    requires a <= b <= |e| && i <= j <= b - a
    ensures e[a..b][i..j] == e[a + i .. a + j]
  {
    assert forall t | 0 <= t < j - i :: e[a..b][i..j][t] == e[a + i + t];
  }
}
