/**
 * What `Trail.process` computes, stated as functions of the decoded frames:
 * which positions are folded into the accumulator (the skip rule), the
 * accumulator after each position, and the sequence of `save_image` calls
 * (timelapse preamble, intermediate stills, the `final` still, the video hold).
 */
module Schedule {
  import opened Frames
  import opened Labels

  /** Number of copies of the final frame appended for the video (3 s at 30 fps). */
  const HoldFrames: nat := 90

  // ---------------------------------------------------------------------------
  // The skip rule (trails.py line 44)
  // ---------------------------------------------------------------------------

  /**
   * Python's `a % b`: the remainder of floor division, so a non-zero result
   * has the sign of `b`, and `a == (a // b) * b + r` with `a // b` rounded
   * towards minus infinity.
   */
  function PyMod(a: int, b: int): (r: int)
    requires b != 0
    ensures b > 0 ==> 0 <= r < b
    ensures b < 0 ==> b < r <= 0
    ensures r == 0 <==> a % b == 0
    ensures a == (if b < 0 && a % b != 0 then a / b - 1 else a / b) * b + r
  {
    var m := a % b;
    if b < 0 && m != 0 then m + b else m
  }

  /** `i` is a multiple of `d`, by repeated subtraction. */
  predicate MultipleOf(i: nat, d: nat)
    requires d > 0
    decreases i
  {
    if i < d then i == 0 else MultipleOf(i - d, d)
  }

  /** Frame `i` is folded in unless `skip != 0 and i % skip != 0`. */
  predicate Contributes(i: nat, skip: int) {
    skip == 0 || MultipleOf(i, if skip < 0 then -skip else skip)
  }

  /** The remainder of `a` by `d > 0` is the only `r` in `0 .. d-1` with `a == q * d + r`. */
  lemma RemainderUnique(a: int, d: int, q: int, r: int)
    requires d > 0 && a == q * d + r && 0 <= r < d
    ensures a % d == r
  {
    var q0, r0 := a / d, a % d;
    assert a == q0 * d + r0;
    var e := q - q0;
    assert e * d == r0 - r;
    if e >= 1 {
      assert false;
    } else if e <= -1 {
      assert false;
    }
  }

  lemma {:induction false} MultipleOfIsZeroRemainder(i: nat, d: nat)
    requires d > 0
    ensures MultipleOf(i, d) <==> i % d == 0
    decreases i
  {
    if i >= d {
      MultipleOfIsZeroRemainder(i - d, d);
      var q, r := (i - d) / d, (i - d) % d;
      assert i == (q + 1) * d + r;
      RemainderUnique(i, d, q + 1, r);
    }
  }

  /**
   * `Contributes` is the skip rule of the main loop as Python evaluates it:
   * frame `i` is skipped exactly when `skip != 0 and i % skip != 0`, with `%`
   * the floored remainder, whatever the sign of `skip`.
   */
  lemma SkipRule(i: nat, skip: int)
    ensures Contributes(i, skip) <==> !(skip != 0 && PyMod(i, skip) != 0)
  {
    if skip != 0 {
      var d := if skip < 0 then -skip else skip;
      MultipleOfIsZeroRemainder(i, d);
      assert i % skip == 0 <==> i % d == 0 by {
        if skip < 0 {
          assert i % skip == i % d;
        }
      }
    }
  }

  /** Position 0 is always folded in: `0 % skip == 0`. */
  lemma FirstFrameContributes(skip: int)
    ensures Contributes(0, skip)
  {
  }

  /** The positions below `n` that are folded in, in increasing order. */
  function Positions(n: nat, skip: int): (r: seq<nat>)
    ensures forall j :: 0 <= j < |r| ==> r[j] < n
    decreases n
  {
    if n == 0 then []
    else Positions(n - 1, skip) + if Contributes(n - 1, skip) then [n - 1] else []
  }

  /** Only contributing positions are listed. */
  lemma {:induction false} PositionsContribute(n: nat, skip: int)
    ensures forall j :: 0 <= j < |Positions(n, skip)| ==> Contributes(Positions(n, skip)[j], skip)
    decreases n
  {
    if n > 0 {
      var p, q := Positions(n, skip), Positions(n - 1, skip);
      PositionsContribute(n - 1, skip);
      forall j | 0 <= j < |p| ensures Contributes(p[j], skip) {
        if j < |q| {
          assert p[j] == q[j];
        }
      }
    }
  }

  /** The positions are listed in strictly increasing order. */
  lemma {:induction false} PositionsIncreasing(n: nat, skip: int)
    ensures forall j, k :: 0 <= j < k < |Positions(n, skip)| ==> Positions(n, skip)[j] < Positions(n, skip)[k]
    decreases n
  {
    if n > 0 {
      var p, q := Positions(n, skip), Positions(n - 1, skip);
      PositionsIncreasing(n - 1, skip);
      forall j, k | 0 <= j < k < |p| ensures p[j] < p[k] {
        if k < |q| {
          assert p[j] == q[j] && p[k] == q[k];
        } else {
          assert p[j] == q[j] < n - 1;
          assert p[k] == n - 1;
        }
      }
    }
  }

  /** Every contributing position below `n` is listed. */
  lemma {:induction false} PositionsComplete(n: nat, skip: int, i: nat)
    requires i < n && Contributes(i, skip)
    ensures exists j :: 0 <= j < |Positions(n, skip)| && Positions(n, skip)[j] == i
    decreases n
  {
    var p := Positions(n, skip);
    if i == n - 1 {
      assert p[|p| - 1] == i;
    } else {
      PositionsComplete(n - 1, skip, i);
      var j :| 0 <= j < |Positions(n - 1, skip)| && Positions(n - 1, skip)[j] == i;
      assert p[j] == i;
    }
  }

  /** Without skipping every position contributes; `skip = 2` over 5 frames folds 0, 2 and 4. */
  lemma PositionsExamples(n: nat)
    ensures |Positions(n, 0)| == n
    ensures Positions(5, 2) == [0, 2, 4]
  {
    AllPositions(n);
    assert Contributes(0, 2) && !Contributes(1, 2) && Contributes(2, 2);
    assert !Contributes(3, 2) && Contributes(4, 2);
    assert Positions(1, 2) == [0];
    assert Positions(2, 2) == [0];
    assert Positions(3, 2) == [0, 2];
    assert Positions(4, 2) == [0, 2];
  }

  lemma {:induction false} AllPositions(n: nat)
    ensures |Positions(n, 0)| == n
  {
    if n > 0 { AllPositions(n - 1); }
  }

  // ---------------------------------------------------------------------------
  // The accumulator
  // ---------------------------------------------------------------------------

  /**
   * The accumulator `stack` after the main loop has walked the first `k`
   * frames: black at first, replaced by `numpy.maximum(stack, frame)` at each
   * contributing position and left alone at each skipped one.
   */
  function AccumulateThrough(pixels: seq<Frame>, skip: int, k: nat, h: nat, w: nat): (r: Frame)
    requires AllShaped(pixels, h, w) && k <= |pixels|
    ensures Shaped(r, h, w)
    decreases k
  {
    if k == 0 then Black(h, w)
    else if Contributes(k - 1, skip) then Maximum(AccumulateThrough(pixels, skip, k - 1, h, w), pixels[k - 1], h, w)
    else AccumulateThrough(pixels, skip, k - 1, h, w)
  }

  /** The accumulator after the main loop has walked all of `pixels`. */
  function Accumulate(pixels: seq<Frame>, skip: int, h: nat, w: nat): (r: Frame)
    requires AllShaped(pixels, h, w)
    ensures Shaped(r, h, w)
  {
    AccumulateThrough(pixels, skip, |pixels|, h, w)
  }

  /** The frames at the contributing positions, in order. */
  function ContributingFrames(pixels: seq<Frame>, skip: int): (r: seq<Frame>)
    ensures |r| == |Positions(|pixels|, skip)|
    ensures forall j :: 0 <= j < |r| ==> r[j] == pixels[Positions(|pixels|, skip)[j]]
  {
    var p := Positions(|pixels|, skip);
    seq(|p|, j requires 0 <= j < |p| => pixels[p[j]])
  }

  lemma {:induction false} ContributingShaped(pixels: seq<Frame>, skip: int, h: nat, w: nat)
    requires AllShaped(pixels, h, w)
    ensures AllShaped(ContributingFrames(pixels, skip), h, w)
  {
    var fs := ContributingFrames(pixels, skip);
    forall j | 0 <= j < |fs| ensures Shaped(fs[j], h, w) {
      assert fs[j] == pixels[Positions(|pixels|, skip)[j]];
    }
  }

  /** The contributing frames among the first `k + 1` extend those among the first `k`. */
  lemma ContributingFramesStep(pixels: seq<Frame>, skip: int, k: nat)
    requires k < |pixels|
    ensures ContributingFrames(pixels[..k + 1], skip)
         == ContributingFrames(pixels[..k], skip) + if Contributes(k, skip) then [pixels[k]] else []
  {
    var a, b := pixels[..k], pixels[..k + 1];
    var fa, fb := ContributingFrames(a, skip), ContributingFrames(b, skip);
    assert Positions(k + 1, skip) == Positions(k, skip) + if Contributes(k, skip) then [k] else [];
    assert forall j :: 0 <= j < |fa| ==> fa[j] == a[Positions(k, skip)[j]] == b[Positions(k, skip)[j]];
  }

  /**
   * The loop computes `numpy.maximum` folded over exactly the contributing
   * frames, in order: the accumulator after `k` positions is the fold of the
   * frames contributed among the first `k`.
   */
  lemma {:induction false} AccumulateIsFoldOfContributing(pixels: seq<Frame>, skip: int, k: nat, h: nat, w: nat)
    requires AllShaped(pixels, h, w) && k <= |pixels|
    ensures AllShaped(ContributingFrames(pixels[..k], skip), h, w)
    ensures AccumulateThrough(pixels, skip, k, h, w) == Stack(ContributingFrames(pixels[..k], skip), h, w)
    decreases k
  {
    assert AllShaped(pixels[..k], h, w) by {
      forall j | 0 <= j < k ensures Shaped(pixels[..k][j], h, w) {
        assert pixels[..k][j] == pixels[j];
      }
    }
    ContributingShaped(pixels[..k], skip, h, w);
    if k > 0 {
      AccumulateIsFoldOfContributing(pixels, skip, k - 1, h, w);
      ContributingFramesStep(pixels, skip, k - 1);
      var fa, fb := ContributingFrames(pixels[..k - 1], skip), ContributingFrames(pixels[..k], skip);
      if Contributes(k - 1, skip) {
        assert fb[..|fb| - 1] == fa && fb[|fb| - 1] == pixels[k - 1];
        assert Stack(fb, h, w) == Maximum(Stack(fa, h, w), pixels[k - 1], h, w);
      } else {
        assert fb == fa;
      }
    }
  }

  /** The accumulator never gets darker from one position to the next. */
  lemma {:induction false} AccumulatorNeverDecreases(pixels: seq<Frame>, skip: int, i: nat, h: nat, w: nat)
    requires AllShaped(pixels, h, w) && i < |pixels|
    ensures Below(AccumulateThrough(pixels, skip, i, h, w), AccumulateThrough(pixels, skip, i + 1, h, w), h, w)
  {
  }

  /**
   * The final accumulator is, channel by channel, the maximum of 0 and that
   * channel over the contributing frames: at least every contributing frame,
   * and 0 or equal to one of them. Frames at skipped positions play no part.
   */
  lemma AccumulateIsMaximumOfContributing(pixels: seq<Frame>, skip: int, h: nat, w: nat)
    requires AllShaped(pixels, h, w)
    ensures forall i, y, x, c :: 0 <= i < |pixels| && Contributes(i, skip) && InFrame(y, x, c, h, w) ==>
      pixels[i][y][x][c] <= Accumulate(pixels, skip, h, w)[y][x][c]
    ensures forall y, x, c :: InFrame(y, x, c, h, w) ==> 0 <= Accumulate(pixels, skip, h, w)[y][x][c]
    ensures forall y, x, c :: InFrame(y, x, c, h, w) ==>
      || Accumulate(pixels, skip, h, w)[y][x][c] == 0
      || exists i :: 0 <= i < |pixels| && Contributes(i, skip) && Accumulate(pixels, skip, h, w)[y][x][c] == pixels[i][y][x][c]
  {
    var r := Accumulate(pixels, skip, h, w);
    var p := Positions(|pixels|, skip);
    assert pixels[..|pixels|] == pixels;
    AccumulateIsFoldOfContributing(pixels, skip, |pixels|, h, w);
    var fs := ContributingFrames(pixels, skip);
    assert r == Stack(fs, h, w);
    StackIsMaximum(fs, h, w);
    PositionsContribute(|pixels|, skip);
    forall i, y, x, c | 0 <= i < |pixels| && Contributes(i, skip) && InFrame(y, x, c, h, w)
      ensures pixels[i][y][x][c] <= r[y][x][c]
    {
      PositionsComplete(|pixels|, skip, i);
      var j :| 0 <= j < |p| && p[j] == i;
      assert fs[j] == pixels[i];
    }
    forall y, x, c | InFrame(y, x, c, h, w) && r[y][x][c] != 0
      ensures exists i :: 0 <= i < |pixels| && Contributes(i, skip) && r[y][x][c] == pixels[i][y][x][c]
    {
      var j :| 0 <= j < |fs| && r[y][x][c] == fs[j][y][x][c];
      assert fs[j] == pixels[p[j]];
    }
  }

  /**
   * Folding the contributing frames in any other order, or with repeats, gives
   * the same final frame.
   */
  lemma AccumulateOrderIndependent(pixels: seq<Frame>, skip: int, gs: seq<Frame>, h: nat, w: nat)
    requires AllShaped(pixels, h, w)
    requires forall f :: f in gs <==> f in ContributingFrames(pixels, skip)
    ensures AllShaped(gs, h, w)
    ensures Stack(gs, h, w) == Accumulate(pixels, skip, h, w)
  {
    var fs := ContributingFrames(pixels, skip);
    ContributingShaped(pixels, skip, h, w);
    forall k | 0 <= k < |gs| ensures Shaped(gs[k], h, w) {
      assert gs[k] in fs;
    }
    assert pixels[..|pixels|] == pixels;
    AccumulateIsFoldOfContributing(pixels, skip, |pixels|, h, w);
    StackOrderIndependent(gs, fs, h, w);
  }

  // ---------------------------------------------------------------------------
  // The stills written by `process`
  // ---------------------------------------------------------------------------

  /** One `save_image(frame, label)` call. */
  datatype Save = Save(tag: Label, frame: Frame)

  /** The decoded frames have the shape of the first one and 8-bit values. */
  ghost predicate Uniform(pixels: seq<Frame>) {
    |pixels| > 0 && AllImages(pixels, Height(pixels[0]), Width(pixels[0]))
  }

  lemma UniformShaped(pixels: seq<Frame>)
    requires Uniform(pixels)
    ensures AllShaped(pixels, Height(pixels[0]), Width(pixels[0]))
  {
    var h, w := Height(pixels[0]), Width(pixels[0]);
    forall k | 0 <= k < |pixels| ensures Shaped(pixels[k], h, w) {
      assert IsImage(pixels[k], h, w);
    }
  }

  /** The timelapse preamble: raw frame `n-1-c` saved as number `c` (lines 36-39). */
  function TimelapseSaves(pixels: seq<Frame>): (r: seq<Save>)
    ensures |r| == |pixels|
  {
    var n := |pixels|;
    seq(n, c requires 0 <= c < n => Save(Index(c), pixels[n - 1 - c]))
  }

  /**
   * The intermediate stills of the first `k` iterations of the main loop
   * (lines 42-50): after each contributing position `i`, the accumulator so
   * far, numbered `offset + i`.
   */
  function IntermediateSaves(pixels: seq<Frame>, skip: int, offset: nat, k: nat, h: nat, w: nat): (r: seq<Save>)
    requires AllShaped(pixels, h, w) && k <= |pixels|
    ensures |r| <= k
    decreases k
  {
    if k == 0 then []
    else
      IntermediateSaves(pixels, skip, offset, k - 1, h, w)
        + if Contributes(k - 1, skip) then [Save(Index(offset + k - 1), AccumulateThrough(pixels, skip, k, h, w))] else []
  }

  /** The static hold of the video: the final frame numbered `base .. base + 89` (lines 55-57). */
  function HoldSaves(f: Frame, base: nat): (r: seq<Save>)
    ensures |r| == HoldFrames
    ensures forall c :: 0 <= c < HoldFrames ==> r[c] == Save(Index(base + c), f)
  {
    seq(HoldFrames, c requires 0 <= c < HoldFrames => Save(Index(base + c), f))
  }

  /** Intermediate stills are written when asked, and always when a video is asked (lines 33-34). */
  predicate WritesIntermediate(keepIntermediate: bool, saveVideo: bool)
    ensures saveVideo ==> WritesIntermediate(keepIntermediate, saveVideo)
  {
    keepIntermediate || saveVideo
  }

  /** The timelapse is written only together with intermediate stills (line 35). */
  predicate WritesTimelapse(keepIntermediate: bool, keepTimelapse: bool, saveVideo: bool)
    ensures WritesTimelapse(keepIntermediate, keepTimelapse, saveVideo) ==> keepTimelapse && WritesIntermediate(keepIntermediate, saveVideo)
  {
    keepTimelapse && WritesIntermediate(keepIntermediate, saveVideo)
  }

  /** Where the accumulation numbers start: after the timelapse, if there is one (line 40). */
  function Offset(n: nat, keepIntermediate: bool, keepTimelapse: bool, saveVideo: bool): (r: nat)
    ensures r == 0 || r == n
    ensures r > 0 ==> WritesTimelapse(keepIntermediate, keepTimelapse, saveVideo)
  {
    if WritesTimelapse(keepIntermediate, keepTimelapse, saveVideo) then n else 0
  }

  /** The numbered stills written before `final`: the timelapse, then the intermediate stills. */
  function Numbered(pixels: seq<Frame>, skip: int, keepIntermediate: bool, keepTimelapse: bool, saveVideo: bool, h: nat, w: nat): seq<Save>
    requires AllShaped(pixels, h, w)
  {
    var offset := Offset(|pixels|, keepIntermediate, keepTimelapse, saveVideo);
    (if WritesTimelapse(keepIntermediate, keepTimelapse, saveVideo) then TimelapseSaves(pixels) else [])
    + (if WritesIntermediate(keepIntermediate, saveVideo) then IntermediateSaves(pixels, skip, offset, |pixels|, h, w) else [])
  }

  /** The full sequence of `save_image` calls of `process`, in order. */
  function Stills(pixels: seq<Frame>, skip: int, keepIntermediate: bool, keepTimelapse: bool, saveVideo: bool, h: nat, w: nat): (r: seq<Save>)
    requires AllShaped(pixels, h, w)
    ensures |r| >= 1 + (if saveVideo then HoldFrames else 0)
  {
    var final := Accumulate(pixels, skip, h, w);
    Numbered(pixels, skip, keepIntermediate, keepTimelapse, saveVideo, h, w)
    + [Save(Final, final)]
    + (if saveVideo then HoldSaves(final, Offset(|pixels|, keepIntermediate, keepTimelapse, saveVideo) + |pixels|) else [])
  }

  /**
   * One iteration of the main loop (lines 42-50), with the guard of line 44
   * as written: a skipped frame changes neither the accumulator nor the
   * stills; a kept one is folded in and the new accumulator saved.
   */
  lemma MainLoopStep(pixels: seq<Frame>, skip: int, offset: nat, k: nat, h: nat, w: nat)
    requires AllShaped(pixels, h, w) && k < |pixels|
    ensures skip != 0 && PyMod(k, skip) != 0 ==>
      && AccumulateThrough(pixels, skip, k + 1, h, w) == AccumulateThrough(pixels, skip, k, h, w)
      && IntermediateSaves(pixels, skip, offset, k + 1, h, w) == IntermediateSaves(pixels, skip, offset, k, h, w)
    ensures !(skip != 0 && PyMod(k, skip) != 0) ==>
      && AccumulateThrough(pixels, skip, k + 1, h, w) == Maximum(AccumulateThrough(pixels, skip, k, h, w), pixels[k], h, w)
      && IntermediateSaves(pixels, skip, offset, k + 1, h, w)
         == IntermediateSaves(pixels, skip, offset, k, h, w) + [Save(Index(offset + k), AccumulateThrough(pixels, skip, k + 1, h, w))]
  {
    SkipRule(k, skip);
  }

  // ---------------------------------------------------------------------------
  // Properties of the schedule
  // ---------------------------------------------------------------------------

  /** All labels of `ss` are numbers in `lo .. hi-1`, strictly increasing in writing order. */
  ghost predicate NumberedWithin(ss: seq<Save>, lo: nat, hi: nat) {
    && (forall i {:trigger ss[i]} :: 0 <= i < |ss| ==> ss[i].tag.Index? && lo <= ss[i].tag.n < hi)
    && (forall i, j {:trigger ss[i], ss[j]} :: 0 <= i < j < |ss| ==> ss[i].tag.n < ss[j].tag.n)
  }

  /** No two stills of `ss` get the same file name. */
  ghost predicate NamesDistinct(ss: seq<Save>) {
    forall i, j :: 0 <= i < j < |ss| ==> Suffix(ss[i].tag) != Suffix(ss[j].tag)
  }

  /**
   * Every contributing position gets a still in `ss`: when the frame at
   * position `k - 1` is folded in, the accumulator after it is saved under
   * number `offset + k - 1`.
   */
  ghost predicate SavesEveryContribution(ss: seq<Save>, pixels: seq<Frame>, skip: int, offset: nat, h: nat, w: nat)
    requires AllShaped(pixels, h, w)
  {
    forall k :: 0 < k <= |pixels| && Contributes(k - 1, skip) ==>
      Save(Index(offset + k - 1), AccumulateThrough(pixels, skip, k, h, w)) in ss
  }

  /** No still of `ss` is numbered `offset + i` for a skipped position `i` below `n`. */
  ghost predicate SkipsUnnumbered(ss: seq<Save>, n: nat, skip: int, offset: nat) {
    forall i, s :: 0 <= i < n && !Contributes(i, skip) && s in ss ==> s.tag != Index(offset + i)
  }

  lemma NumberedConcat(a: seq<Save>, b: seq<Save>, lo: nat, mid: nat, hi: nat)
    requires lo <= mid <= hi
    requires NumberedWithin(a, lo, mid) && NumberedWithin(b, mid, hi)
    ensures NumberedWithin(a + b, lo, hi)
  {
    var ab := a + b;
    forall i | 0 <= i < |ab| ensures ab[i].tag.Index? && lo <= ab[i].tag.n < hi {
      if i < |a| { assert ab[i] == a[i]; } else { assert ab[i] == b[i - |a|]; }
    }
    forall i, j | 0 <= i < j < |ab| ensures ab[i].tag.n < ab[j].tag.n {
      if j < |a| {
        assert ab[i] == a[i] && ab[j] == a[j];
      } else if i >= |a| {
        assert ab[i] == b[i - |a|] && ab[j] == b[j - |a|];
      } else {
        assert ab[i] == a[i] && ab[j] == b[j - |a|];
      }
    }
  }

  /** The timelapse numbers its stills `0 .. n-1` in order. */
  lemma {:induction false} TimelapseNumbered(pixels: seq<Frame>)
    ensures NumberedWithin(TimelapseSaves(pixels), 0, |pixels|)
  {
  }

  /** The hold numbers its copies `base .. base + 89` in order, each holding `f`. */
  lemma {:induction false} HoldNumbered(f: Frame, base: nat)
    ensures NumberedWithin(HoldSaves(f, base), base, base + HoldFrames)
    ensures forall s :: s in HoldSaves(f, base) ==> s.frame == f
  {
  }

  /**
   * The intermediate stills are exactly one per contributing position `i`, in
   * increasing order of `i`, labelled `offset + i` and holding the accumulator
   * right after frame `i` was folded in.
   */
  lemma {:induction false} IntermediatesPerPosition(pixels: seq<Frame>, skip: int, offset: nat, k: nat, h: nat, w: nat)
    requires AllShaped(pixels, h, w) && k <= |pixels|
    ensures |IntermediateSaves(pixels, skip, offset, k, h, w)| == |Positions(k, skip)|
    ensures forall j :: 0 <= j < |Positions(k, skip)| ==>
      && Positions(k, skip)[j] < k
      && IntermediateSaves(pixels, skip, offset, k, h, w)[j]
         == Save(Index(offset + Positions(k, skip)[j]), AccumulateThrough(pixels, skip, Positions(k, skip)[j] + 1, h, w))
    decreases k
  {
    if k > 0 {
      IntermediatesPerPosition(pixels, skip, offset, k - 1, h, w);
    }
  }

  /** The intermediate stills are numbered in increasing order within `offset .. offset + k - 1`. */
  lemma {:induction false} IntermediatesNumbered(pixels: seq<Frame>, skip: int, offset: nat, k: nat, h: nat, w: nat)
    requires AllShaped(pixels, h, w) && k <= |pixels|
    ensures NumberedWithin(IntermediateSaves(pixels, skip, offset, k, h, w), offset, offset + k)
  {
    IntermediatesPerPosition(pixels, skip, offset, k, h, w);
    PositionsIncreasing(k, skip);
  }

  /**
   * A contributing position `i` gets an intermediate still numbered
   * `offset + i`, holding the accumulator right after frame `i`; a skipped
   * position gets none.
   */
  lemma IntermediatesForContributingOnly(pixels: seq<Frame>, skip: int, offset: nat, h: nat, w: nat)
    requires AllShaped(pixels, h, w)
    ensures SavesEveryContribution(IntermediateSaves(pixels, skip, offset, |pixels|, h, w), pixels, skip, offset, h, w)
    ensures SkipsUnnumbered(IntermediateSaves(pixels, skip, offset, |pixels|, h, w), |pixels|, skip, offset)
  {
    IntermediatesSaveContributions(pixels, skip, offset, h, w);
    IntermediatesSkipUnnumbered(pixels, skip, offset, h, w);
  }

  /** The first half of `IntermediatesForContributingOnly`. */
  lemma IntermediatesSaveContributions(pixels: seq<Frame>, skip: int, offset: nat, h: nat, w: nat)
    requires AllShaped(pixels, h, w)
    ensures SavesEveryContribution(IntermediateSaves(pixels, skip, offset, |pixels|, h, w), pixels, skip, offset, h, w)
  {
    var n := |pixels|;
    var im := IntermediateSaves(pixels, skip, offset, n, h, w);
    var p := Positions(n, skip);
    IntermediatesPerPosition(pixels, skip, offset, n, h, w);
    forall k | 0 < k <= n && Contributes(k - 1, skip)
      ensures Save(Index(offset + k - 1), AccumulateThrough(pixels, skip, k, h, w)) in im
    {
      PositionsComplete(n, skip, k - 1);
      var j :| 0 <= j < |p| && p[j] == k - 1;
      assert im[j] == Save(Index(offset + k - 1), AccumulateThrough(pixels, skip, k, h, w));
    }
  }

  /** The second half of `IntermediatesForContributingOnly`. */
  lemma IntermediatesSkipUnnumbered(pixels: seq<Frame>, skip: int, offset: nat, h: nat, w: nat)
    requires AllShaped(pixels, h, w)
    ensures SkipsUnnumbered(IntermediateSaves(pixels, skip, offset, |pixels|, h, w), |pixels|, skip, offset)
  {
    var n := |pixels|;
    var im := IntermediateSaves(pixels, skip, offset, n, h, w);
    var p := Positions(n, skip);
    IntermediatesPerPosition(pixels, skip, offset, n, h, w);
    PositionsContribute(n, skip);
    forall i, s | 0 <= i < n && !Contributes(i, skip) && s in im ensures s.tag != Index(offset + i) {
      var j :| 0 <= j < |im| && im[j] == s;
      assert p[j] != i;
    }
  }

  /** The stills before `final` are numbered in increasing order below `offset + n`. */
  lemma NumberedIncreasing(pixels: seq<Frame>, skip: int, keepIntermediate: bool, keepTimelapse: bool, saveVideo: bool, h: nat, w: nat)
    requires AllShaped(pixels, h, w)
    ensures NumberedWithin(Numbered(pixels, skip, keepIntermediate, keepTimelapse, saveVideo, h, w),
                           0, Offset(|pixels|, keepIntermediate, keepTimelapse, saveVideo) + |pixels|)
  {
    var n := |pixels|;
    var offset := Offset(n, keepIntermediate, keepTimelapse, saveVideo);
    var tl: seq<Save> := if WritesTimelapse(keepIntermediate, keepTimelapse, saveVideo) then TimelapseSaves(pixels) else [];
    var im: seq<Save> := if WritesIntermediate(keepIntermediate, saveVideo) then IntermediateSaves(pixels, skip, offset, n, h, w) else [];
    TimelapseNumbered(pixels);
    assert NumberedWithin(tl, 0, offset);
    IntermediatesNumbered(pixels, skip, offset, n, h, w);
    assert NumberedWithin(im, offset, offset + n);
    NumberedConcat(tl, im, 0, offset, offset + n);
  }

  /**
   * Stills numbered increasingly below `mid`, then `final`, then stills numbered
   * increasingly from `mid` on: no two of them share a file name.
   */
  lemma LayeredNamesDistinct(before: seq<Save>, f: Frame, after: seq<Save>, mid: nat, hi: nat)
    requires NumberedWithin(before, 0, mid) && NumberedWithin(after, mid, hi)
    ensures NamesDistinct(before + [Save(Final, f)] + after)
  {
    var ss := before + [Save(Final, f)] + after;
    var m := |before|;
    forall i, j | 0 <= i < j < |ss| ensures Suffix(ss[i].tag) != Suffix(ss[j].tag) {
      if j < m {
        assert ss[i] == before[i] && ss[j] == before[j];
      } else if j == m {
        assert ss[i] == before[i] && ss[j].tag == Final;
      } else if i < m {
        assert ss[i] == before[i] && ss[j] == after[j - m - 1];
      } else if i == m {
        assert ss[i].tag == Final && ss[j] == after[j - m - 1];
      } else {
        assert ss[i] == after[i - m - 1] && ss[j] == after[j - m - 1];
      }
      SuffixInjective(ss[i].tag, ss[j].tag);
    }
  }

  /**
   * No two stills share a label, hence no two share a file name: numbered
   * labels never repeat and `final` is written exactly once.
   */
  lemma StillNamesDistinct(pixels: seq<Frame>, skip: int, keepIntermediate: bool, keepTimelapse: bool, saveVideo: bool, h: nat, w: nat)
    requires AllShaped(pixels, h, w)
    ensures NamesDistinct(Stills(pixels, skip, keepIntermediate, keepTimelapse, saveVideo, h, w))
  {
    var n := |pixels|;
    var offset := Offset(n, keepIntermediate, keepTimelapse, saveVideo);
    var final := Accumulate(pixels, skip, h, w);
    var before := Numbered(pixels, skip, keepIntermediate, keepTimelapse, saveVideo, h, w);
    var after: seq<Save> := if saveVideo then HoldSaves(final, offset + n) else [];
    assert Stills(pixels, skip, keepIntermediate, keepTimelapse, saveVideo, h, w) == before + [Save(Final, final)] + after;
    assert NamesDistinct(before + [Save(Final, final)] + after) by {
      NumberedIncreasing(pixels, skip, keepIntermediate, keepTimelapse, saveVideo, h, w);
      HoldNumbered(final, offset + n);
      assert NumberedWithin(after, offset + n, offset + n + HoldFrames);
      LayeredNamesDistinct(before, final, after, offset + n, offset + n + HoldFrames);
    }
  }

  /**
   * With timelapse and intermediate output, stills `0 .. n-1` carry the raw
   * frames in reverse order and the accumulation numbering starts at `n`.
   */
  lemma {:induction false} TimelapseIsReversedInput(pixels: seq<Frame>, skip: int, keepIntermediate: bool, keepTimelapse: bool, saveVideo: bool, h: nat, w: nat)
    requires AllShaped(pixels, h, w)
    requires keepTimelapse && (keepIntermediate || saveVideo)
    ensures Offset(|pixels|, keepIntermediate, keepTimelapse, saveVideo) == |pixels|
    ensures |pixels| <= |Stills(pixels, skip, keepIntermediate, keepTimelapse, saveVideo, h, w)|
    ensures forall c :: 0 <= c < |pixels| ==>
      Stills(pixels, skip, keepIntermediate, keepTimelapse, saveVideo, h, w)[c] == Save(Index(c), pixels[|pixels| - 1 - c])
  {
    var n := |pixels|;
    var ss := Stills(pixels, skip, keepIntermediate, keepTimelapse, saveVideo, h, w);
    var pre := Numbered(pixels, skip, keepIntermediate, keepTimelapse, saveVideo, h, w);
    var tl := TimelapseSaves(pixels);
    assert pre == tl + IntermediateSaves(pixels, skip, n, n, h, w);
    forall c | 0 <= c < n ensures ss[c] == Save(Index(c), pixels[n - 1 - c]) {
      assert ss[c] == pre[c] == tl[c];
    }
  }

  /**
   * `--keep-timelapse` without intermediate output (and without a video) writes
   * no timelapse, numbers nothing, and saves only the `final` still.
   */
  lemma TimelapseAloneWritesOnlyFinal(pixels: seq<Frame>, skip: int, h: nat, w: nat)
    requires AllShaped(pixels, h, w)
    ensures Offset(|pixels|, false, true, false) == 0
    ensures Stills(pixels, skip, false, true, false, h, w) == [Save(Final, Accumulate(pixels, skip, h, w))]
  {
    assert Numbered(pixels, skip, false, true, false, h, w) == [];
  }

  /**
   * Whatever the flags, `final` is written, holding the final stack, right
   * after the numbered stills (line 51).
   */
  lemma FinalAlwaysWritten(pixels: seq<Frame>, skip: int, keepIntermediate: bool, keepTimelapse: bool, saveVideo: bool, h: nat, w: nat)
    requires AllShaped(pixels, h, w)
    ensures var m := |Numbered(pixels, skip, keepIntermediate, keepTimelapse, saveVideo, h, w)|;
      && m < |Stills(pixels, skip, keepIntermediate, keepTimelapse, saveVideo, h, w)|
      && Stills(pixels, skip, keepIntermediate, keepTimelapse, saveVideo, h, w)[m] == Save(Final, Accumulate(pixels, skip, h, w))
  {
  }

  /** With no flags, `process` saves `final` and nothing else. */
  lemma NoFlagsWritesOnlyFinal(pixels: seq<Frame>, skip: int, h: nat, w: nat)
    requires AllShaped(pixels, h, w)
    ensures Stills(pixels, skip, false, false, false, h, w) == [Save(Final, Accumulate(pixels, skip, h, w))]
  {
    assert Numbered(pixels, skip, false, false, false, h, w) == [];
  }

  /** Stills around the intermediate ones do not lose any of them. */
  lemma LayeredKeepsContributions(before: seq<Save>, middle: seq<Save>, f: Frame, after: seq<Save>,
                                  pixels: seq<Frame>, skip: int, offset: nat, h: nat, w: nat)
    requires AllShaped(pixels, h, w)
    requires SavesEveryContribution(middle, pixels, skip, offset, h, w)
    ensures SavesEveryContribution(before + middle + [Save(Final, f)] + after, pixels, skip, offset, h, w)
  {
  }

  /**
   * Stills numbered below `offset` before the intermediate ones and from
   * `offset + n` on after them never take the number of a skipped position.
   */
  lemma LayeredKeepsSkipsUnnumbered(before: seq<Save>, middle: seq<Save>, f: Frame, after: seq<Save>,
                                    n: nat, skip: int, offset: nat, top: nat)
    requires NumberedWithin(before, 0, offset) && NumberedWithin(after, offset + n, top)
    requires SkipsUnnumbered(middle, n, skip, offset)
    ensures SkipsUnnumbered(before + middle + [Save(Final, f)] + after, n, skip, offset)
  {
    forall i, s | 0 <= i < n && !Contributes(i, skip) && s in before + middle + [Save(Final, f)] + after
      ensures s.tag != Index(offset + i)
    {
      if s in before {
        var c :| 0 <= c < |before| && before[c] == s;
      } else if s in after {
        var c :| 0 <= c < |after| && after[c] == s;
      }
    }
  }

  /**
   * When intermediate output is on (always so with a video), every
   * contributing position `i` gets the still `offset + i`, holding the
   * accumulator right after frame `i`.
   */
  lemma ContributingPositionsGetStills(pixels: seq<Frame>, skip: int, keepIntermediate: bool, keepTimelapse: bool, saveVideo: bool, h: nat, w: nat)
    requires AllShaped(pixels, h, w)
    requires keepIntermediate || saveVideo
    ensures SavesEveryContribution(Stills(pixels, skip, keepIntermediate, keepTimelapse, saveVideo, h, w),
                                   pixels, skip, Offset(|pixels|, keepIntermediate, keepTimelapse, saveVideo), h, w)
  {
    var n := |pixels|;
    var offset := Offset(n, keepIntermediate, keepTimelapse, saveVideo);
    var final := Accumulate(pixels, skip, h, w);
    var tl: seq<Save> := if WritesTimelapse(keepIntermediate, keepTimelapse, saveVideo) then TimelapseSaves(pixels) else [];
    var im := IntermediateSaves(pixels, skip, offset, n, h, w);
    var hold: seq<Save> := if saveVideo then HoldSaves(final, offset + n) else [];
    assert Stills(pixels, skip, keepIntermediate, keepTimelapse, saveVideo, h, w) == tl + im + [Save(Final, final)] + hold;
    IntermediatesForContributingOnly(pixels, skip, offset, h, w);
    LayeredKeepsContributions(tl, im, final, hold, pixels, skip, offset, h, w);
  }

  /** No skipped position `i` gets a still numbered `offset + i`. */
  lemma SkippedPositionsGetNoStill(pixels: seq<Frame>, skip: int, keepIntermediate: bool, keepTimelapse: bool, saveVideo: bool, h: nat, w: nat)
    requires AllShaped(pixels, h, w)
    ensures SkipsUnnumbered(Stills(pixels, skip, keepIntermediate, keepTimelapse, saveVideo, h, w),
                            |pixels|, skip, Offset(|pixels|, keepIntermediate, keepTimelapse, saveVideo))
  {
    var n := |pixels|;
    var offset := Offset(n, keepIntermediate, keepTimelapse, saveVideo);
    var final := Accumulate(pixels, skip, h, w);
    var tl: seq<Save> := if WritesTimelapse(keepIntermediate, keepTimelapse, saveVideo) then TimelapseSaves(pixels) else [];
    var im: seq<Save> := if WritesIntermediate(keepIntermediate, saveVideo) then IntermediateSaves(pixels, skip, offset, n, h, w) else [];
    var hold: seq<Save> := if saveVideo then HoldSaves(final, offset + n) else [];
    assert Stills(pixels, skip, keepIntermediate, keepTimelapse, saveVideo, h, w) == tl + im + [Save(Final, final)] + hold;
    assert NumberedWithin(tl, 0, offset) by {
      TimelapseNumbered(pixels);
    }
    assert NumberedWithin(hold, offset + n, offset + n + HoldFrames) by {
      HoldNumbered(final, offset + n);
    }
    IntermediatesForContributingOnly(pixels, skip, offset, h, w);
    LayeredKeepsSkipsUnnumbered(tl, im, final, hold, n, skip, offset, offset + n + HoldFrames);
  }

  /**
   * With a video, the last 90 stills are copies of the final frame numbered
   * `offset + n .. offset + n + 89`, right after the `final` still.
   */
  lemma {:induction false} VideoHoldFollows(pixels: seq<Frame>, skip: int, keepIntermediate: bool, keepTimelapse: bool, h: nat, w: nat)
    requires AllShaped(pixels, h, w)
    ensures |Stills(pixels, skip, keepIntermediate, keepTimelapse, true, h, w)| > HoldFrames
    ensures var ss := Stills(pixels, skip, keepIntermediate, keepTimelapse, true, h, w);
      ss[|ss| - HoldFrames - 1] == Save(Final, Accumulate(pixels, skip, h, w))
    ensures var ss := Stills(pixels, skip, keepIntermediate, keepTimelapse, true, h, w);
      ss[|ss| - HoldFrames..]
      == HoldSaves(Accumulate(pixels, skip, h, w), Offset(|pixels|, keepIntermediate, keepTimelapse, true) + |pixels|)
  {
    var ss := Stills(pixels, skip, keepIntermediate, keepTimelapse, true, h, w);
    var base := Offset(|pixels|, keepIntermediate, keepTimelapse, true) + |pixels|;
    var final := Accumulate(pixels, skip, h, w);
    var pre := Numbered(pixels, skip, keepIntermediate, keepTimelapse, true, h, w);
    var hold := HoldSaves(final, base);
    assert ss == pre + [Save(Final, final)] + hold;
    assert ss[|ss| - HoldFrames..] == hold;
  }

  /**
   * How many stills are written: the timelapse (n, if written), one per
   * contributing position (if intermediate output is on), `final`, and the
   * 90-frame hold (with a video).
   */
  lemma StillCount(pixels: seq<Frame>, skip: int, keepIntermediate: bool, keepTimelapse: bool, saveVideo: bool, h: nat, w: nat)
    requires AllShaped(pixels, h, w)
    ensures |Stills(pixels, skip, keepIntermediate, keepTimelapse, saveVideo, h, w)|
         == (if WritesTimelapse(keepIntermediate, keepTimelapse, saveVideo) then |pixels| else 0)
          + (if WritesIntermediate(keepIntermediate, saveVideo) then |Positions(|pixels|, skip)| else 0)
          + 1
          + (if saveVideo then HoldFrames else 0)
  {
    IntermediatesPerPosition(pixels, skip, Offset(|pixels|, keepIntermediate, keepTimelapse, saveVideo), |pixels|, h, w);
  }

  /** A video of 10 frames without skipping or timelapse: 10 + 90 numbered stills and `final`. */
  lemma VideoStillCountExample(pixels: seq<Frame>, h: nat, w: nat)
    requires AllShaped(pixels, h, w) && |pixels| == 10
    ensures |Stills(pixels, 0, false, false, true, h, w)| == 10 + 90 + 1
  {
    StillCount(pixels, 0, false, false, true, h, w);
    AllPositions(10);
  }

  /** Positions `a .. b-1` all skipped: walking them leaves the accumulator unchanged. */
  lemma {:induction false} SkippedRunKeepsAccumulator(pixels: seq<Frame>, skip: int, a: nat, b: nat, h: nat, w: nat)
    requires AllShaped(pixels, h, w) && a <= b <= |pixels|
    requires forall i :: a <= i < b ==> !Contributes(i, skip)
    ensures AccumulateThrough(pixels, skip, b, h, w) == AccumulateThrough(pixels, skip, a, h, w)
    decreases b
  {
    if a < b {
      SkippedRunKeepsAccumulator(pixels, skip, a, b - 1, h, w);
    }
  }

  /**
   * The `final` still holds the same frame as the last intermediate still:
   * frames after the last contributing position change nothing.
   */
  lemma LastIntermediateIsFinal(pixels: seq<Frame>, skip: int, offset: nat, h: nat, w: nat)
    requires AllShaped(pixels, h, w) && |pixels| > 0
    ensures |IntermediateSaves(pixels, skip, offset, |pixels|, h, w)| > 0
    ensures var ss := IntermediateSaves(pixels, skip, offset, |pixels|, h, w);
      ss[|ss| - 1].frame == Accumulate(pixels, skip, h, w)
  {
    var n := |pixels|;
    IntermediatesPerPosition(pixels, skip, offset, n, h, w);
    var p := Positions(n, skip);
    PositionsComplete(n, skip, 0);
    var last := p[|p| - 1];
    forall i | last < i < n ensures !Contributes(i, skip) {
      if Contributes(i, skip) {
        PositionsComplete(n, skip, i);
        PositionsIncreasing(n, skip);
      }
    }
    SkippedRunKeepsAccumulator(pixels, skip, last + 1, n, h, w);
    assert pixels[..n] == pixels;
  }

  /** Every frame of `ss` is an 8-bit image of shape `(h, w, 3)`. */
  ghost predicate SavedImages(ss: seq<Save>, h: nat, w: nat) {
    forall i :: 0 <= i < |ss| ==> IsImage(ss[i].frame, h, w)
  }

  lemma SavedImagesConcat(a: seq<Save>, b: seq<Save>, h: nat, w: nat)
    requires SavedImages(a, h, w) && SavedImages(b, h, w)
    ensures SavedImages(a + b, h, w)
  {
    var ab := a + b;
    forall i | 0 <= i < |ab| ensures IsImage(ab[i].frame, h, w) {
      if i < |a| { assert ab[i] == a[i]; } else { assert ab[i] == b[i - |a|]; }
    }
  }

  /** Accumulating 8-bit frames gives an 8-bit frame at every step. */
  lemma {:induction false} AccumulateThroughIsImage(pixels: seq<Frame>, skip: int, k: nat, h: nat, w: nat)
    requires AllShaped(pixels, h, w) && AllImages(pixels, h, w) && k <= |pixels|
    ensures IsImage(AccumulateThrough(pixels, skip, k, h, w), h, w)
  {
    AccumulateIsFoldOfContributing(pixels, skip, k, h, w);
    var fs := ContributingFrames(pixels[..k], skip);
    var p := Positions(k, skip);
    forall j | 0 <= j < |fs| ensures IsImage(fs[j], h, w) {
      assert fs[j] == pixels[p[j]];
    }
    StackIsImage(fs, h, w);
  }

  lemma {:induction false} IntermediatesAreImages(pixels: seq<Frame>, skip: int, offset: nat, k: nat, h: nat, w: nat)
    requires AllShaped(pixels, h, w) && AllImages(pixels, h, w) && k <= |pixels|
    ensures SavedImages(IntermediateSaves(pixels, skip, offset, k, h, w), h, w)
    decreases k
  {
    if k > 0 {
      IntermediatesAreImages(pixels, skip, offset, k - 1, h, w);
      AccumulateThroughIsImage(pixels, skip, k, h, w);
      var last: seq<Save> :=
        if Contributes(k - 1, skip) then [Save(Index(offset + k - 1), AccumulateThrough(pixels, skip, k, h, w))] else [];
      SavedImagesConcat(IntermediateSaves(pixels, skip, offset, k - 1, h, w), last, h, w);
    }
  }

  lemma {:induction false} TimelapseAreImages(pixels: seq<Frame>, h: nat, w: nat)
    requires AllImages(pixels, h, w)
    ensures SavedImages(TimelapseSaves(pixels), h, w)
  {
    var tl, n := TimelapseSaves(pixels), |pixels|;
    forall c | 0 <= c < n ensures IsImage(tl[c].frame, h, w) {
      assert tl[c].frame == pixels[n - 1 - c];
    }
  }

  /** The hold repeats one frame, so it holds only 8-bit frames when that one is. */
  lemma HoldAreImages(f: Frame, base: nat, h: nat, w: nat)
    requires IsImage(f, h, w)
    ensures SavedImages(HoldSaves(f, base), h, w)
  {
  }

  /** Stills laid out as numbered ones, `final`, then more numbered ones keep the 8-bit bound of each part. */
  lemma LayeredSavedImages(before: seq<Save>, middle: seq<Save>, f: Frame, after: seq<Save>, h: nat, w: nat)
    requires SavedImages(before, h, w) && SavedImages(middle, h, w) && SavedImages(after, h, w)
    requires IsImage(f, h, w)
    ensures SavedImages(before + middle + [Save(Final, f)] + after, h, w)
  {
    assert SavedImages([Save(Final, f)], h, w);
    SavedImagesConcat(before, middle, h, w);
    SavedImagesConcat(before + middle, [Save(Final, f)], h, w);
    SavedImagesConcat(before + middle + [Save(Final, f)], after, h, w);
  }

  /**
   * Every still written holds channel values in 0..255, so the rounding and
   * `uint8` cast of `save_image` (line 79) change no value.
   */
  lemma StillsAreImages(pixels: seq<Frame>, skip: int, keepIntermediate: bool, keepTimelapse: bool, saveVideo: bool, h: nat, w: nat)
    requires AllShaped(pixels, h, w) && AllImages(pixels, h, w)
    ensures SavedImages(Stills(pixels, skip, keepIntermediate, keepTimelapse, saveVideo, h, w), h, w)
  {
    var n := |pixels|;
    var offset := Offset(n, keepIntermediate, keepTimelapse, saveVideo);
    var final := Accumulate(pixels, skip, h, w);
    var tl: seq<Save> := if WritesTimelapse(keepIntermediate, keepTimelapse, saveVideo) then TimelapseSaves(pixels) else [];
    var im: seq<Save> := if WritesIntermediate(keepIntermediate, saveVideo) then IntermediateSaves(pixels, skip, offset, n, h, w) else [];
    var hold: seq<Save> := if saveVideo then HoldSaves(final, offset + n) else [];
    assert Stills(pixels, skip, keepIntermediate, keepTimelapse, saveVideo, h, w) == tl + im + [Save(Final, final)] + hold;
    AccumulateThroughIsImage(pixels, skip, n, h, w);
    TimelapseAreImages(pixels, h, w);
    IntermediatesAreImages(pixels, skip, offset, n, h, w);
    HoldAreImages(final, offset + n, h, w);
    LayeredSavedImages(tl, im, final, hold, h, w);
  }
}
