/** Online extremum detector over a ring buffer of `2L+1` samples. Once the
    buffer is full it reports a pulse when the centre sample (logical index L)
    is at least every earlier sample and strictly above every later one; with
    `invert` set the comparisons are mirrored and troughs are reported. */
module PulseDetector {
  import Ring

  datatype Detector = Detector(lookahead: nat, invert: bool, buffer: Ring.RingBuffer<int>)

  /** The ring buffer holds exactly the `2L+1` window slots. */
  predicate Valid(d: Detector)
  {
    Ring.Valid(d.buffer) && d.buffer.cap == 2 * d.lookahead + 1
  }

  function Window(d: Detector): seq<int>
    requires Valid(d)
  {
    Ring.Contents(d.buffer)
  }

  /** `a` is not beyond `c` in the detector's polarity: `a <= c` for peaks,
      `a >= c` for troughs. */
  predicate NotBeyond(a: int, c: int, invert: bool)
  {
    if invert then a >= c else a <= c
  }

  /** `a` is strictly short of `c`: `a < c` for peaks, `a > c` for troughs. */
  predicate ShortOf(a: int, c: int, invert: bool)
  {
    if invert then a > c else a < c
  }

  /** The firing rule on a full window `w` of `2L+1` samples: every earlier
      sample is not beyond the centre, every later one is short of it. */
  predicate IsPulse(w: seq<int>, L: nat, invert: bool)
    requires |w| == 2 * L + 1
  {
    && (forall j :: 0 <= j < L ==> NotBeyond(w[j], w[L], invert))
    && (forall j :: L < j < |w| ==> ShortOf(w[j], w[L], invert))
  }

  /** The stream `s` ends in a full window whose centre fires. */
  predicate PulseAtEnd(s: seq<int>, L: nat, invert: bool)
  {
    |s| >= 2 * L + 1 && IsPulse(s[|s| - (2 * L + 1)..], L, invert)
  }

  /** What `addSample` reports for the state right after its push. */
  predicate Fired(d: Detector)
    requires Valid(d)
  {
    |Window(d)| == 2 * d.lookahead + 1 && IsPulse(Window(d), d.lookahead, d.invert)
  }

  /** Constructor: window length L, polarity `invert`, empty buffer. */
  function New(L: nat, invert: bool): (d: Detector)
    ensures Valid(d) && d.lookahead == L && d.invert == invert
    ensures Window(d) == []
  {
    Detector(L, invert, Ring.New(2 * L + 1, 0))
  }

  /** The buffer update performed by `addSample`. */
  function Push(d: Detector, x: int): (r: Detector)
    requires Valid(d)
    ensures Valid(r) && r.lookahead == d.lookahead && r.invert == d.invert
    ensures Window(r) == Ring.LastN(Window(d) + [x], 2 * d.lookahead + 1)
  {
    Ring.PushedKeepsLast(Window(d), x, 2 * d.lookahead + 1);
    d.(buffer := Ring.PushBack(d.buffer, x))
  }

  /** `addSample`: push, wait for a full buffer, then scan the window. */
  method AddSample(d: Detector, x: int) returns (r: Detector, fired: bool)
    requires Valid(d)
    ensures r == Push(d, x)
    ensures fired <==> Fired(r)
  {
    r := Push(d, x);
    if Ring.Size(r.buffer) < 2 * d.lookahead + 1 {
      return r, false;
    }
    fired := ScanCenter(r.buffer, r.lookahead, r.invert);
  }

  /** The two scans of `addSample` over a full buffer: backward from the
      centre with a non-strict comparison, forward with a strict one, each
      giving up at the first sample that breaks it. */
  method ScanCenter(rb: Ring.RingBuffer<int>, L: nat, invert: bool) returns (ok: bool)
    requires Ring.Valid(rb) && rb.cap == 2 * L + 1 && Ring.Size(rb) == rb.cap
    ensures ok <==> IsPulse(Ring.Contents(rb), L, invert)
  {
    ghost var w := Ring.Contents(rb);
    var centerValue := Ring.Get(rb, L).value;
    assert centerValue == w[L];
    var j := 0;
    while j < L
      invariant j <= L
      invariant forall k :: 0 <= k < j ==> NotBeyond(w[k], centerValue, invert)
    {
      var v := Ring.Get(rb, j).value;
      if invert {
        if v < centerValue { return false; }
      } else {
        if v > centerValue { return false; }
      }
      j := j + 1;
    }
    j := L + 1;
    while j < Ring.Capacity(rb)
      invariant L + 1 <= j <= 2 * L + 1
      invariant forall k :: L < k < j ==> ShortOf(w[k], centerValue, invert)
    {
      var v := Ring.Get(rb, j).value;
      if invert {
        if v <= centerValue { return false; }
      } else {
        if v >= centerValue { return false; }
      }
      j := j + 1;
    }
    return true;
  }

  /** `getCenterValue`: reads logical index L, which fails before the buffer
      holds L+1 samples. */
  function CenterValue(d: Detector): (r: Ring.Result<int>)
    requires Valid(d)
    ensures r.Ok? <==> |Window(d)| > d.lookahead
    ensures r.Ok? ==> r.value == Window(d)[d.lookahead]
  {
    Ring.Get(d.buffer, d.lookahead)
  }

  /** `centerOffset`: the detection lag in samples. */
  function CenterOffset(d: Detector): nat
  {
    d.lookahead
  }

  /** `clear`: back to the pre-fill state, polarity and window length L unchanged. */
  function Clear(d: Detector): (r: Detector)
    requires Valid(d)
    ensures Valid(r) && r.lookahead == d.lookahead && r.invert == d.invert
    ensures Window(r) == []
  {
    d.(buffer := Ring.Clear(d.buffer))
  }

  /** The detector after `addSample` has been called on every element of `xs`. */
  function Feed(d: Detector, xs: seq<int>): (r: Detector)
    requires Valid(d)
    ensures Valid(r) && r.lookahead == d.lookahead && r.invert == d.invert
  {
    d.(buffer := Ring.PushAll(d.buffer, xs))
  }

  /** The results of those `addSample` calls, one per sample. */
  function Outputs(d: Detector, xs: seq<int>): (r: seq<bool>)
    requires Valid(d)
    ensures |r| == |xs|
    decreases |xs|
  {
    if xs == [] then [] else Outputs(d, xs[..|xs| - 1]) + [Fired(Feed(d, xs))]
  }

  // ---------------------------------------------------------------------
  // Properties of the detector on a stream of samples

  /** The window after a stream of pushes is the last 2L+1 samples of the
      old window followed by the stream. */
  lemma FeedWindow(d: Detector, xs: seq<int>)
    requires Valid(d)
    ensures Window(Feed(d, xs)) == Ring.LastN(Window(d) + xs, 2 * d.lookahead + 1)
  {
    Ring.PushAllKeepsLast(d.buffer, xs);
  }

  /** Feeding one more sample is one more `addSample` push. */
  lemma FeedSnoc(d: Detector, xs: seq<int>, x: int)
    requires Valid(d)
    ensures Feed(d, xs + [x]) == Push(Feed(d, xs), x)
  {
    assert (xs + [x])[..|xs|] == xs;
  }

  /** Whether a detector fires after a stream depends only on the last 2L+1
      samples of its old window followed by the stream. */
  lemma FiredOnStream(d: Detector, xs: seq<int>)
    requires Valid(d)
    ensures Fired(Feed(d, xs)) <==> PulseAtEnd(Window(d) + xs, d.lookahead, d.invert)
  {
    FeedWindow(d, xs);
  }

  /** With a full stream behind it, the decision is the pulse rule applied to
      the last 2L+1 pushed samples, whatever the detector held before. */
  lemma DecisionUsesLastWindow(d: Detector, xs: seq<int>)
    requires Valid(d) && |xs| >= 2 * d.lookahead + 1
    ensures Fired(Feed(d, xs)) <==> IsPulse(xs[|xs| - (2 * d.lookahead + 1)..], d.lookahead, d.invert)
  {
    WindowOnceFull(d, xs);
  }

  /** After at least 2L+1 pushes the window is exactly the last 2L+1
      samples pushed; nothing of the old window is left. */
  lemma WindowOnceFull(d: Detector, xs: seq<int>)
    requires Valid(d) && |xs| >= 2 * d.lookahead + 1
    ensures Window(Feed(d, xs)) == xs[|xs| - (2 * d.lookahead + 1)..]
  {
    var n := 2 * d.lookahead + 1;
    FeedWindow(d, xs);
    var s := Window(d) + xs;
    assert s[|s| - n..] == xs[|xs| - n..];
  }

  /** The k-th `addSample` result is the pulse rule on the stream so far. */
  lemma {:induction false} OutputsAt(d: Detector, xs: seq<int>, k: nat)
    requires Valid(d) && k < |xs|
    ensures Outputs(d, xs)[k] <==> PulseAtEnd(Window(d) + xs[..k + 1], d.lookahead, d.invert)
    decreases |xs|
  {
    var init := xs[..|xs| - 1];
    if k == |xs| - 1 {
      assert xs[..k + 1] == xs;
      FiredOnStream(d, xs);
    } else {
      OutputsAt(d, init, k);
      assert init[..k + 1] == xs[..k + 1];
    }
  }

  /** From the pre-fill state (after construction or `clear`), the first 2L
      samples never fire. */
  lemma WarmUpNeverFires(d: Detector, xs: seq<int>, k: nat)
    requires Valid(d) && Window(d) == []
    requires k < |xs| && k < 2 * d.lookahead
    ensures !Outputs(d, xs)[k]
  {
    OutputsAt(d, xs, k);
    assert |Window(d) + xs[..k + 1]| == k + 1;
  }

  /** After `clear` the next 2L samples never fire, and the polarity and
      window length are those the detector had. */
  lemma ClearRestartsWarmUp(d: Detector, xs: seq<int>, k: nat)
    requires Valid(d) && k < |xs| && k < 2 * d.lookahead
    ensures Clear(d).invert == d.invert && Clear(d).lookahead == d.lookahead
    ensures !Outputs(Clear(d), xs)[k]
  {
    WarmUpNeverFires(Clear(d), xs, k);
  }

  /** With L = 0 the window is the latest sample alone and every call fires. */
  lemma ZeroLookaheadAlwaysFires(d: Detector, xs: seq<int>, k: nat)
    requires Valid(d) && d.lookahead == 0 && k < |xs|
    ensures Outputs(d, xs)[k]
  {
    OutputsAt(d, xs, k);
  }

  function Negate(s: seq<int>): (r: seq<int>)
    ensures |r| == |s|
    ensures forall i :: 0 <= i < |s| ==> r[i] == -s[i]
  {
    seq(|s|, i requires 0 <= i < |s| => -s[i])
  }

  lemma NegatePrefix(s: seq<int>, m: nat)
    requires m <= |s|
    ensures Negate(s)[..m] == Negate(s[..m])
  {
  }

  lemma NegateSuffix(s: seq<int>, m: nat)
    requires m <= |s|
    ensures Negate(s)[m..] == Negate(s[m..])
  {
  }

  /** The trough rule on `w` is the peak rule on `-w`. */
  lemma TroughIsNegatedPeak(w: seq<int>, L: nat)
    requires |w| == 2 * L + 1
    ensures IsPulse(w, L, true) <==> IsPulse(Negate(w), L, false)
  {
  }

  /** On a stream, trough firing on `s` is peak firing on `-s`. */
  lemma TroughAtEndIsNegatedPeak(s: seq<int>, L: nat)
    ensures PulseAtEnd(s, L, true) <==> PulseAtEnd(Negate(s), L, false)
  {
    var n := 2 * L + 1;
    if |s| >= n {
      NegateSuffix(s, |s| - n);
      TroughIsNegatedPeak(s[|s| - n..], L);
    }
  }

  /** A trough detector on `xs` reports exactly what a peak detector with the
      same window reports on `-xs`, both starting from the pre-fill state. */
  lemma TroughStreamIsNegatedPeakStream(trough: Detector, peak: Detector, xs: seq<int>, k: nat)
    requires Valid(trough) && Valid(peak) && trough.lookahead == peak.lookahead
    requires trough.invert && !peak.invert
    requires Window(trough) == [] && Window(peak) == []
    requires k < |xs|
    ensures Outputs(trough, xs)[k] <==> Outputs(peak, Negate(xs))[k]
  {
    OutputsAt(trough, xs, k);
    OutputsAt(peak, Negate(xs), k);
    var s := xs[..k + 1];
    var t := Negate(xs)[..k + 1];
    assert Window(trough) + s == s;
    assert Window(peak) + t == t;
    NegatePrefix(xs, k + 1);
    TroughAtEndIsNegatedPeak(s, trough.lookahead);
  }

  /** A strict comparison implies the non-strict one. */
  lemma ShortOfIsNotBeyond(a: int, c: int, invert: bool)
    requires ShortOf(a, c, invert)
    ensures NotBeyond(a, c, invert)
  {
  }

  /** After a firing, the centre value is the sample pushed `centerOffset`
      = L steps before the latest one, and no sample of the window is beyond
      it: it is the window maximum (peak mode) or minimum (trough mode). */
  lemma CenterAfterFiring(d: Detector, xs: seq<int>)
    requires Valid(d) && Fired(Feed(d, xs))
    ensures var s := Window(d) + xs;
      var n := 2 * d.lookahead + 1;
      var f := Feed(d, xs);
      && CenterOffset(f) == d.lookahead
      && |s| >= n
      && CenterValue(f) == Ring.Ok(s[|s| - 1 - CenterOffset(f)])
      && (forall j :: |s| - n <= j < |s| ==> NotBeyond(s[j], CenterValue(f).value, d.invert))
  {
    var L := d.lookahead;
    var s := Window(d) + xs;
    var n := 2 * L + 1;
    FeedWindow(d, xs);
    var w := Window(Feed(d, xs));
    assert |w| == n;
    assert w == s[|s| - n..];
    assert w[L] == s[|s| - 1 - L];
    forall j | |s| - n <= j < |s|
      ensures NotBeyond(s[j], w[L], d.invert)
    {
      var i := j - (|s| - n);
      assert s[j] == w[i];
      if L < i {
        ShortOfIsNotBeyond(w[i], w[L], d.invert);
      }
    }
  }

  /** A firing whose centre is sample `t-1-L` puts every one of the L samples
      after the centre short of it. */
  lemma FiringForward(s: seq<int>, L: nat, invert: bool, t: nat, g: nat)
    requires t <= |s| && PulseAtEnd(s[..t], L, invert) && 1 <= g <= L
    ensures ShortOf(s[t - 1 - L + g], s[t - 1 - L], invert)
  {
    var n := 2 * L + 1;
    var w := s[..t][t - n..];
    assert w[L + g] == s[t - 1 - L + g];
    assert w[L] == s[t - 1 - L];
  }

  /** ... and none of the L samples before the centre beyond it. */
  lemma FiringBackward(s: seq<int>, L: nat, invert: bool, t: nat, g: nat)
    requires t <= |s| && PulseAtEnd(s[..t], L, invert) && 1 <= g <= L
    ensures NotBeyond(s[t - 1 - L - g], s[t - 1 - L], invert)
  {
    var n := 2 * L + 1;
    var w := s[..t][t - n..];
    assert w[L - g] == s[t - 1 - L - g];
    assert w[L] == s[t - 1 - L];
  }

  /** Plateau handling: a sample followed by an equal one is never reported
      (the forward comparison is strict), so in a run of equal samples only
      the last one can fire. */
  lemma EqualSuccessorBlocks(s: seq<int>, L: nat, invert: bool, c: nat)
    requires 1 <= L && c + L + 1 <= |s| && s[c + 1] == s[c]
    ensures !PulseAtEnd(s[..c + L + 1], L, invert)
  {
    if PulseAtEnd(s[..c + L + 1], L, invert) {
      FiringForward(s, L, invert, c + L + 1, 1);
      assert false;
    }
  }

  /** Firings of the same detector are more than L samples apart. */
  lemma FiringsAreSpaced(s: seq<int>, L: nat, invert: bool, t1: nat, t2: nat)
    requires t1 < t2 <= |s|
    requires PulseAtEnd(s[..t1], L, invert) && PulseAtEnd(s[..t2], L, invert)
    ensures t2 - t1 > L
  {
    var g := t2 - t1;
    if g <= L {
      FiringForward(s, L, invert, t1, g);
      FiringBackward(s, L, invert, t2, g);
      assert false;
    }
  }

  /** Spacing of firings stated on the history `w + xs` of a detector whose
      window was `w` before the stream `xs`. */
  lemma HistoryFiringsAreSpaced(w: seq<int>, xs: seq<int>, L: nat, invert: bool, k1: nat, k2: nat)
    requires k1 < k2 < |xs|
    requires PulseAtEnd(w + xs[..k1 + 1], L, invert) && PulseAtEnd(w + xs[..k2 + 1], L, invert)
    ensures k2 - k1 > L
  {
    var s := w + xs;
    assert w + xs[..k1 + 1] == s[..|w| + k1 + 1];
    assert w + xs[..k2 + 1] == s[..|w| + k2 + 1];
    FiringsAreSpaced(s, L, invert, |w| + k1 + 1, |w| + k2 + 1);
  }

  /** The same spacing stated on the results of successive `addSample` calls. */
  lemma OutputsAreSpaced(d: Detector, xs: seq<int>, k1: nat, k2: nat)
    requires Valid(d) && k1 < k2 < |xs|
    requires Outputs(d, xs)[k1] && Outputs(d, xs)[k2]
    ensures k2 - k1 > d.lookahead
  {
    OutputsAt(d, xs, k1);
    OutputsAt(d, xs, k2);
    HistoryFiringsAreSpaced(Window(d), xs, d.lookahead, d.invert, k1, k2);
  }

  // ---------------------------------------------------------------------
  // Worked examples

  /** From the pre-fill state with L = 1, a flat top of two equal samples
      fires once, at the plateau's last sample: the earlier equal sample does
      not block, the later one does. */
  lemma PlateauFiresAtItsLastSample(d: Detector)
    requires Valid(d) && Window(d) == [] && d.lookahead == 1 && !d.invert
    ensures Outputs(d, [1, 5, 5, 3]) == [false, false, false, true]
  {
    var xs := [1, 5, 5, 3];
    var want := [false, false, false, true];
    SmallPlateau();
    forall k | 0 <= k < 4
      ensures Outputs(d, xs)[k] == want[k]
    {
      PlateauOutputs(d, xs, 1, 2, k);
    }
  }

  /** The worked plateau 1, 5, 5, 3 rises up to position 1, stays level up
      to position 2 and falls after it. */
  lemma SmallPlateau()
    ensures RisesPlateauFalls([1, 5, 5, 3], 1, 2)
  {
    var xs := [1, 5, 5, 3];
    assert xs[0] < xs[1];
    forall i, j | 2 <= i < j < 4
      ensures xs[j] < xs[i]
    {
      assert i == 2 && j == 3;
    }
  }

  lemma OutputsFromEmpty(d: Detector, xs: seq<int>, k: nat)
    requires Valid(d) && Window(d) == [] && k < |xs|
    ensures Outputs(d, xs)[k] <==> PulseAtEnd(xs[..k + 1], d.lookahead, d.invert)
  {
    OutputsAt(d, xs, k);
    assert Window(d) + xs[..k + 1] == xs[..k + 1];
  }

  /** `s` rises strictly up to position `p` and falls strictly after it. */
  predicate RisesThenFalls(s: seq<int>, p: nat)
  {
    && p < |s|
    && (forall i, j :: 0 <= i < j <= p ==> s[i] < s[j])
    && (forall i, j :: p <= i < j < |s| ==> s[j] < s[i])
  }

  /** `s` rises strictly up to position `p1`, stays level up to `p2` and
      falls strictly after it: a flat top from `p1` to `p2`. */
  predicate RisesPlateauFalls(s: seq<int>, p1: nat, p2: nat)
  {
    && p1 <= p2 < |s|
    && (forall i, j :: 0 <= i < j <= p1 ==> s[i] < s[j])
    && (forall i :: p1 <= i <= p2 ==> s[i] == s[p1])
    && (forall i, j :: p2 <= i < j < |s| ==> s[j] < s[i])
  }

  /** A peak detector with L >= 1 reports a flat top exactly once, when the
      window is centred on the plateau's last sample, i.e. after p2 + L + 1
      samples: the earlier equal samples do not block that report, and each
      of them is blocked by its equal successor. With L = 0 every sample
      fires (`ZeroLookaheadFiresEverywhere`). */
  lemma PlateauFiresOnlyAtLast(s: seq<int>, L: nat, p1: nat, p2: nat, t: nat)
    requires 1 <= L <= p2 && p2 + L < |s| && RisesPlateauFalls(s, p1, p2) && t <= |s|
    ensures PulseAtEnd(s[..t], L, false) <==> t == p2 + L + 1
  {
    var n := 2 * L + 1;
    if t == p2 + L + 1 {
      var w := s[..t][t - n..];
      assert w[L] == s[p2] == s[p1];
      forall j | 0 <= j < L
        ensures NotBeyond(w[j], w[L], false)
      {
        assert w[j] == s[p2 - L + j];
      }
      forall j | L < j < n
        ensures ShortOf(w[j], w[L], false)
      {
        assert w[j] == s[p2 - L + j];
      }
    } else if PulseAtEnd(s[..t], L, false) {
      if t - 1 - L < p2 {
        FiringForward(s, L, false, t, 1);
      } else {
        FiringBackward(s, L, false, t, 1);
      }
      assert false;
    }
  }

  /** From an empty window a peak detector reports a flat top once, on the
      call that pushes the sample L after the plateau's last sample. */
  lemma PlateauOutputs(d: Detector, xs: seq<int>, p1: nat, p2: nat, k: nat)
    requires Valid(d) && Window(d) == [] && !d.invert
    requires 1 <= d.lookahead <= p2 && p2 + d.lookahead < |xs| && RisesPlateauFalls(xs, p1, p2)
    requires k < |xs|
    ensures Outputs(d, xs)[k] <==> k == p2 + d.lookahead
  {
    OutputsFromEmpty(d, xs, k);
    PlateauFiresOnlyAtLast(xs, d.lookahead, p1, p2, k + 1);
  }

  /** A triangle is a flat top of one sample: a peak detector with L >= 1
      fires on it exactly when the window is centred on the maximum, i.e.
      after p + L + 1 samples. */
  lemma TriangleFiresOnlyAtPeak(s: seq<int>, L: nat, p: nat, t: nat)
    requires 1 <= L <= p && p + L < |s| && RisesThenFalls(s, p) && t <= |s|
    ensures PulseAtEnd(s[..t], L, false) <==> t == p + L + 1
  {
    assert RisesPlateauFalls(s, p, p);
    PlateauFiresOnlyAtLast(s, L, p, p, t);
  }

  /** From an empty window a peak detector reports a rise-then-fall stream
      once, on the call that pushes the sample L after the maximum. */
  lemma TriangleOutputs(d: Detector, xs: seq<int>, p: nat, k: nat)
    requires Valid(d) && Window(d) == [] && !d.invert
    requires 1 <= d.lookahead <= p && p + d.lookahead < |xs| && RisesThenFalls(xs, p)
    requires k < |xs|
    ensures Outputs(d, xs)[k] <==> k == p + d.lookahead
  {
    assert RisesPlateauFalls(xs, p, p);
    PlateauOutputs(d, xs, p, p, k);
  }

  /** After that firing `getCenterValue()` is the stream's maximum; in fact
      after any first p + L + 1 samples it is sample p, whatever the
      detector held before. */
  lemma TriangleCenterIsPeak(d: Detector, xs: seq<int>, p: nat)
    requires Valid(d)
    requires d.lookahead <= p && p + d.lookahead < |xs|
    ensures CenterValue(Feed(d, xs[..p + d.lookahead + 1])) == Ring.Ok(xs[p])
  {
    var L := d.lookahead;
    var ys := xs[..p + L + 1];
    WindowOnceFull(d, ys);
    assert Window(Feed(d, ys))[L] == ys[p];
  }

  /** The worked triangle 0, 1, 2, 3, 2, 1, 0 rises up to position 3 and
      falls after it. */
  lemma SmallTriangle()
    ensures RisesThenFalls([0, 1, 2, 3, 2, 1, 0], 3)
  {
    var xs := [0, 1, 2, 3, 2, 1, 0];
    forall i, j | 0 <= i < j <= 3
      ensures xs[i] < xs[j]
    {
      assert xs[i] == i && xs[j] == j;
    }
    forall i, j | 3 <= i < j < 7
      ensures xs[j] < xs[i]
    {
      assert xs[i] == 6 - i && xs[j] == 6 - j;
    }
  }

  /** From the pre-fill state with L = 2 that triangle fires once, on the
      call that pushes the sample two after the maximum. */
  lemma TriangleFiresOnceAfterLag(d: Detector)
    requires Valid(d) && Window(d) == [] && d.lookahead == 2 && !d.invert
    ensures Outputs(d, [0, 1, 2, 3, 2, 1, 0]) == [false, false, false, false, false, true, false]
  {
    var xs := [0, 1, 2, 3, 2, 1, 0];
    var want := [false, false, false, false, false, true, false];
    SmallTriangle();
    forall k | 0 <= k < 7
      ensures Outputs(d, xs)[k] == want[k]
    {
      TriangleOutputs(d, xs, 3, k);
    }
  }

  /** ... and the centre value at that firing is the maximum 3. */
  lemma TriangleCenterIsMaximum()
    ensures CenterValue(Feed(New(2, false), [0, 1, 2, 3, 2, 1])) == Ring.Ok(3)
  {
    var xs := [0, 1, 2, 3, 2, 1, 0];
    TriangleCenterIsPeak(New(2, false), xs, 3);
    assert xs[..6] == [0, 1, 2, 3, 2, 1];
  }

  /** Why the triangle lemmas need L >= 1: with L = 0 the window is the
      latest sample alone, so every call fires, the rise and the fall too. */
  lemma ZeroLookaheadFiresEverywhere()
    ensures Outputs(New(0, false), [0, 1, 0]) == [true, true, true]
  {
    var d := New(0, false);
    forall k | 0 <= k < 3
      ensures Outputs(d, [0, 1, 0])[k]
    {
      ZeroLookaheadAlwaysFires(d, [0, 1, 0], k);
    }
  }
}
