/**
 Temporal smoothing of the gaze ratio (tests/eye_ratio.py): a bounded FIFO of
 the most recent ratios, `deque(maxlen=SMOOTHING_WINDOW)`, and the arithmetic
 mean of its contents, `np.mean`.
 */
module Smoothing {

  /** The capacity of the ratio history. */
  const SmoothingWindow: nat := 5

  /**
   `append` on a deque of maximum length SmoothingWindow: the new value goes to
   the back, and when the deque is already full its oldest value is dropped.
   */
  function Append(h: seq<real>, x: real): (r: seq<real>)
    requires |h| <= SmoothingWindow
    ensures 0 < |r| <= SmoothingWindow
    ensures |r| == if |h| < SmoothingWindow then |h| + 1 else SmoothingWindow
    ensures r[|r| - 1] == x
  {
    if |h| < SmoothingWindow then h + [x] else h[1..] + [x]
  }

  /** The result of Append is the newest min(|h| + 1, SmoothingWindow) values
      of h + [x], in arrival order. */
  lemma AppendKeepsNewest(h: seq<real>, x: real)
    requires |h| <= SmoothingWindow
    ensures var r := Append(h, x); r == (h + [x])[|h| + 1 - |r|..]
  {
    if |h| == SmoothingWindow {
      assert h[1..] + [x] == (h + [x])[1..];
    } else {
      assert (h + [x])[0..] == h + [x];
    }
  }

  /** The newest SmoothingWindow values of s (all of s when it is shorter). */
  function Latest(s: seq<real>): seq<real> {
    if |s| <= SmoothingWindow then s else s[|s| - SmoothingWindow..]
  }

  /** The history after appending the values xs one by one, first to last. */
  function Feed(h: seq<real>, xs: seq<real>): (r: seq<real>)
    requires |h| <= SmoothingWindow
    ensures |r| <= SmoothingWindow
    decreases |xs|
  {
    if xs == [] then h else Append(Feed(h, xs[..|xs| - 1]), xs[|xs| - 1])
  }

  /** Appending to the newest values of a stream gives the newest values of the
      stream extended by x. */
  lemma AppendToLatest(s: seq<real>, x: real)
    ensures |Latest(s)| <= SmoothingWindow
    ensures Append(Latest(s), x) == Latest(s + [x])
  {
    var t := s + [x];
    if |s| > SmoothingWindow {
      assert Latest(s)[1..] + [x] == t[|t| - SmoothingWindow..];
    } else if |s| == SmoothingWindow {
      assert s[1..] + [x] == t[|t| - SmoothingWindow..];
    }
  }

  /** Over any stream of values the history holds exactly the newest
      SmoothingWindow values, oldest first. */
  lemma {:induction false} FeedKeepsLatest(h: seq<real>, xs: seq<real>)
    requires |h| <= SmoothingWindow
    ensures Feed(h, xs) == Latest(h + xs)
    decreases |xs|
  {
    if xs == [] {
      assert h + xs == h;
    } else {
      var init, x := xs[..|xs| - 1], xs[|xs| - 1];
      FeedKeepsLatest(h, init);
      AppendToLatest(h + init, x);
      assert h + init + [x] == h + xs by {
        assert xs == init + [x];
      }
    }
  }

  /** After at least SmoothingWindow more values, whatever the history was before,
      it holds exactly the newest SmoothingWindow values, so its mean is theirs. */
  lemma FullWindowHoldsNewest(h: seq<real>, xs: seq<real>)
    requires |h| <= SmoothingWindow
    requires |xs| >= SmoothingWindow
    ensures Feed(h, xs) == xs[|xs| - SmoothingWindow..]
  {
    FeedKeepsLatest(h, xs);
    var s := h + xs;
    if |s| == SmoothingWindow {
      assert s == xs && xs[0..] == xs;
    } else {
      assert s[|s| - SmoothingWindow..] == xs[|xs| - SmoothingWindow..];
    }
  }

  function Sum(s: seq<real>): real {
    if s == [] then 0.0 else Sum(s[..|s| - 1]) + s[|s| - 1]
  }

  /** The arithmetic mean. */
  function Mean(s: seq<real>): real
    requires |s| > 0
  {
    Sum(s) / |s| as real
  }

  lemma {:induction false} SumWithin(s: seq<real>, lo: real, hi: real)
    requires forall i :: 0 <= i < |s| ==> lo <= s[i] <= hi
    ensures |s| as real * lo <= Sum(s) <= |s| as real * hi
  {
    if s != [] {
      SumWithin(s[..|s| - 1], lo, hi);
    }
  }

  /** The mean lies within any bounds of its values. */
  lemma MeanWithin(s: seq<real>, lo: real, hi: real)
    requires |s| > 0
    requires forall i :: 0 <= i < |s| ==> lo <= s[i] <= hi
    ensures lo <= Mean(s) <= hi
  {
    SumWithin(s, lo, hi);
    var n := |s| as real;
    assert Mean(s) * n == Sum(s);
  }
}
