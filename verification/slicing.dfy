/**
 The list-handling part of the client carousel: JavaScript's `Array.prototype.slice`,
 the number of slides needed for a list (`Math.ceil(length / itemsPerSlide)`), and
 the cutting of the list into consecutive slides of `itemsPerSlide` entries.
 */
module Slicing {

  /** Resolves a relative slice bound the way `Array.prototype.slice` does:
      a negative bound counts back from the end, and every bound is clamped
      into `[0, len]`. */
  function ClampBound(x: int, len: nat): (r: nat)
    ensures r <= len
    ensures 0 <= x <= len ==> r == x
    ensures x < 0 && -x <= len ==> r == len + x
  {
    if x < 0 then
      (if len + x < 0 then 0 else len + x)
    else if x < len then x
    else len
  }

  /** `s.slice(start, end)`: the entries from the resolved start up to (not
      including) the resolved end, or nothing when the end does not lie after
      the start. */
  function JsSlice<T>(s: seq<T>, start: int, end: int): (r: seq<T>)
    ensures |r| <= |s|
    ensures 0 <= start <= end <= |s| ==> r == s[start..end]
    ensures 0 <= start <= |s| <= end ==> r == s[start..]
    ensures end <= start && (0 <= end || start < 0) ==> r == []
  {
    var from := ClampBound(start, |s|);
    var to := ClampBound(end, |s|);
    if from < to then s[from..to] else []
  }

  /** Joins a sequence of slides back into one list, in order. */
  function Concat<T>(ss: seq<seq<T>>): seq<T>
  {
    if |ss| == 0 then [] else Concat(ss[..|ss| - 1]) + ss[|ss| - 1]
  }

  /** `Math.ceil(n / k)`: the least number of slides of `k` entries that hold
      `n` entries. */
  function SlideCount(n: nat, k: int): (t: nat)
    requires k > 0
    ensures t * k >= n
    ensures (t - 1) * k < n
  {
    var t := (n + k - 1) / k;
    var rem := (n + k - 1) % k;
    assert n + k - 1 == t * k + rem;
    assert (t - 1) * k == t * k - k;
    t
  }

  /** The least-count property pins `SlideCount` down: it is the only count
      that holds all entries and leaves no slide empty. */
  lemma SlideCountUnique(n: nat, k: int, t: nat)
    requires k > 0
    requires t * k >= n && (t - 1) * k < n
    ensures t == SlideCount(n, k)
  {
    var c := SlideCount(n, k);
    if t < c {
      MulMonotone(t, c - 1, k);
      assert false;
    } else if c < t {
      MulMonotone(c, t - 1, k);
      assert false;
    }
  }

  lemma MulMonotone(a: int, b: int, k: int)
    requires a <= b && k > 0
    ensures a * k <= b * k
  {
    assert b * k - a * k == (b - a) * k;
  }

  /** The slides of `s` as the carousel renders them: slide `i` is
      `s.slice(i * k, (i + 1) * k)`, for `i` below the slide count. */
  function Slides<T>(s: seq<T>, k: int): (r: seq<seq<T>>)
    requires k > 0
    ensures |r| == SlideCount(|s|, k)
  {
    seq(SlideCount(|s|, k), i => JsSlice(s, i * k, (i + 1) * k))
  }

  /** Slide `i` starts inside the list; it is full exactly when it is not
      the last slide, and the last one runs to the end of the list. */
  lemma SlideAt<T>(s: seq<T>, k: int, i: int) returns (lo: int, hi: int)
    requires k > 0
    requires 0 <= i < SlideCount(|s|, k)
    ensures lo == i * k && hi == (i + 1) * k && hi == lo + k
    ensures 0 <= lo < |s|
    ensures i < SlideCount(|s|, k) - 1 ==> hi <= |s|
    ensures hi <= |s| ==> Slides(s, k)[i] == s[lo..hi]
    ensures hi > |s| ==> Slides(s, k)[i] == s[lo..]
  {
    lo, hi := SlideBounds(|s|, k, i);
    assert Slides(s, k)[i] == JsSlice(s, lo, hi);
  }

  /** The bounds of slide `i` in a list of `n` entries. */
  lemma SlideBounds(n: nat, k: int, i: int) returns (lo: int, hi: int)
    requires k > 0
    requires 0 <= i < SlideCount(n, k)
    ensures lo == i * k && hi == (i + 1) * k && hi == lo + k
    ensures 0 <= lo < n
    ensures i < SlideCount(n, k) - 1 ==> hi <= n
  {
    var t := SlideCount(n, k);
    MulMonotone(i, t - 1, k);
    if i < t - 1 {
      MulMonotone(i + 1, t - 1, k);
    }
    lo, hi := i * k, (i + 1) * k;
  }

  /** Slide `i` is non-empty, holds at most `k` entries, and is full unless
      it is the last. */
  lemma SlideSize<T>(s: seq<T>, k: int, i: int)
    requires k > 0
    requires 0 <= i < SlideCount(|s|, k)
    ensures 1 <= |Slides(s, k)[i]| <= k
    ensures i < SlideCount(|s|, k) - 1 ==> |Slides(s, k)[i]| == k
    ensures i == SlideCount(|s|, k) - 1 ==> |Slides(s, k)[i]| == |s| - i * k
  {
    var lo, hi := SlideAt(s, k, i);
  }

  /** Every slide but the last is full, the last holds the remainder, and no
      slide is empty. */
  lemma SlideSizes<T>(s: seq<T>, k: int)
    requires k > 0
    ensures var ss := Slides(s, k);
      && (forall i :: 0 <= i < |ss| ==> 1 <= |ss[i]| <= k)
      && (forall i :: 0 <= i < |ss| - 1 ==> |ss[i]| == k)
      && (|ss| > 0 ==> |ss[|ss| - 1]| == |s| - (|ss| - 1) * k)
  {
    var ss := Slides(s, k);
    forall i | 0 <= i < |ss|
      ensures 1 <= |ss[i]| <= k
      ensures i < |ss| - 1 ==> |ss[i]| == k
      ensures i == |ss| - 1 ==> |ss[i]| == |s| - i * k
    {
      SlideSize(s, k, i);
    }
  }

  /** The slides, laid end to end, give back the list: nothing is lost,
      repeated or reordered. */
  lemma {:induction false} SlidesPartition<T>(s: seq<T>, k: int)
    requires k > 0
    ensures Concat(Slides(s, k)) == s
  {
    var ss := Slides(s, k);
    var t := |ss|;
    ConcatPrefix(s, k, t);
    assert ss[..t] == ss;
    if t > 0 {
      assert t * k == (t - 1) * k + k;
    }
  }

  /** The first `j` slides cover exactly the first `min(j * k, |s|)` entries. */
  lemma {:induction false} ConcatPrefix<T>(s: seq<T>, k: int, j: nat)
    requires k > 0
    requires j <= SlideCount(|s|, k)
    ensures j * k <= |s| ==> Concat(Slides(s, k)[..j]) == s[..j * k]
    ensures j * k > |s| ==> Concat(Slides(s, k)[..j]) == s
    decreases j
  {
    var ss := Slides(s, k);
    if j == 0 {
      assert ss[..0] == [];
    } else {
      var i := j - 1;
      var lo, hi := SlideAt(s, k, i);
      ConcatPrefix(s, k, i);
      assert ss[..j][..i] == ss[..i];
      ConcatStep(ss[..j]);
      assert Concat(ss[..i]) == s[..lo];
      if hi <= |s| {
        assert s[..lo] + s[lo..hi] == s[..hi];
      } else {
        assert s[..lo] + s[lo..] == s;
      }
    }
  }

  lemma ConcatStep<T>(ss: seq<seq<T>>)
    requires |ss| > 0
    ensures Concat(ss) == Concat(ss[..|ss| - 1]) + ss[|ss| - 1]
  {
  }
}
