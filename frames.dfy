/**
 * Image frames and the pixel-wise maximum that builds a star-trail image.
 *
 * A frame is indexed `f[y][x][c]`: `height` rows of `width` pixels of three
 * channels (red, green, blue), the layout of `numpy.array(Image.open(...))`.
 * Decoded 8-bit frames hold integers 0..255; since the only operation on them
 * is `numpy.maximum`, the float promotion of the accumulator changes no value
 * and `numpy.round` followed by the `uint8` cast is the identity on them.
 */
module Frames {

  type Frame = seq<seq<seq<int>>>

  /** Three colour channels per pixel (`mode = "RGB"`). */
  const Channels: nat := 3

  /** `(y, x, c)` addresses a channel of a `h` by `w` frame. */
  predicate InFrame(y: int, x: int, c: int, h: nat, w: nat) {
    0 <= y < h && 0 <= x < w && 0 <= c < Channels
  }

  /** `f` has shape `(h, w, 3)`. */
  predicate Shaped(f: Frame, h: nat, w: nat) {
    && |f| == h
    && (forall y :: 0 <= y < h ==> |f[y]| == w)
    && (forall y, x :: 0 <= y < h && 0 <= x < w ==> |f[y][x]| == Channels)
  }

  /** `f` has shape `(h, w, 3)` and 8-bit channel values, as a decoded JPEG/PNG has. */
  ghost predicate IsImage(f: Frame, h: nat, w: nat) {
    && Shaped(f, h, w)
    && forall y, x, c :: InFrame(y, x, c, h, w) ==> 0 <= f[y][x][c] <= 255
  }

  /** Every frame of `fs` has shape `(h, w, 3)`. */
  predicate AllShaped(fs: seq<Frame>, h: nat, w: nat) {
    forall k {:trigger fs[k]} :: 0 <= k < |fs| ==> Shaped(fs[k], h, w)
  }

  /** Every frame of `fs` is an 8-bit image of shape `(h, w, 3)`. */
  ghost predicate AllImages(fs: seq<Frame>, h: nat, w: nat) {
    forall k {:trigger fs[k]} :: 0 <= k < |fs| ==> IsImage(fs[k], h, w)
  }

  function Height(f: Frame): nat {
    |f|
  }

  function Width(f: Frame): nat {
    if |f| == 0 then 0 else |f[0]|
  }

  /** `f` is nowhere brighter than `g`. */
  ghost predicate Below(f: Frame, g: Frame, h: nat, w: nat)
    requires Shaped(f, h, w) && Shaped(g, h, w)
  {
    forall y, x, c :: InFrame(y, x, c, h, w) ==> f[y][x][c] <= g[y][x][c]
  }

  /** `numpy.zeros((height, width, 3))`. */
  function Black(h: nat, w: nat): (r: Frame)
    ensures IsImage(r, h, w)
    ensures forall y, x, c :: InFrame(y, x, c, h, w) ==> r[y][x][c] == 0
  {
    seq(h, _ => seq(w, _ => seq(Channels, _ => 0)))
  }

  function Max(a: int, b: int): int {
    if a < b then b else a
  }

  /** `numpy.maximum(a, b)` on two frames of the same shape. */
  function Maximum(a: Frame, b: Frame, h: nat, w: nat): (r: Frame)
    requires Shaped(a, h, w) && Shaped(b, h, w)
    ensures Shaped(r, h, w)
    ensures forall y, x, c :: InFrame(y, x, c, h, w) ==> r[y][x][c] == Max(a[y][x][c], b[y][x][c])
  {
    seq(h, y requires 0 <= y < h =>
      seq(w, x requires 0 <= x < w =>
        seq(Channels, c requires 0 <= c < Channels => Max(a[y][x][c], b[y][x][c]))))
  }

  /**
   * The maximum is the least frame above both arguments: it is above each of
   * them, and below every frame that is above both.
   */
  lemma MaximumIsLeastUpperBound(a: Frame, b: Frame, g: Frame, h: nat, w: nat)
    requires Shaped(a, h, w) && Shaped(b, h, w) && Shaped(g, h, w)
    ensures Below(a, Maximum(a, b, h, w), h, w) && Below(b, Maximum(a, b, h, w), h, w)
    ensures Below(a, g, h, w) && Below(b, g, h, w) ==> Below(Maximum(a, b, h, w), g, h, w)
  {
  }

  /** Two frames of the same shape are equal when all their channels agree. */
  lemma FrameExt(f: Frame, g: Frame, h: nat, w: nat)
    requires Shaped(f, h, w) && Shaped(g, h, w)
    requires forall y, x, c :: InFrame(y, x, c, h, w) ==> f[y][x][c] == g[y][x][c]
    ensures f == g
  {
    forall y | 0 <= y < h ensures f[y] == g[y] {
      forall x | 0 <= x < w ensures f[y][x] == g[y][x] {
        assert forall c :: 0 <= c < Channels ==> f[y][x][c] == g[y][x][c];
      }
    }
  }

  /** `numpy.maximum` is commutative, associative and idempotent on frames. */
  lemma MaximumLaws(a: Frame, b: Frame, d: Frame, h: nat, w: nat)
    requires Shaped(a, h, w) && Shaped(b, h, w) && Shaped(d, h, w)
    ensures Maximum(a, b, h, w) == Maximum(b, a, h, w)
    ensures Maximum(Maximum(a, b, h, w), d, h, w) == Maximum(a, Maximum(b, d, h, w), h, w)
    ensures Maximum(a, a, h, w) == a
  {
    FrameExt(Maximum(a, b, h, w), Maximum(b, a, h, w), h, w);
    FrameExt(Maximum(Maximum(a, b, h, w), d, h, w), Maximum(a, Maximum(b, d, h, w), h, w), h, w);
    FrameExt(Maximum(a, a, h, w), a, h, w);
  }

  /**
   * The accumulator after folding `fs` in order into a black frame:
   * `stack = numpy.maximum(stack, f)` for each `f`.
   */
  function Stack(fs: seq<Frame>, h: nat, w: nat): (r: Frame)
    requires AllShaped(fs, h, w)
    ensures Shaped(r, h, w)
    decreases |fs|
  {
    if fs == [] then Black(h, w)
    else
      var init := fs[..|fs| - 1];
      assert forall k :: 0 <= k < |init| ==> init[k] == fs[k];
      Maximum(Stack(init, h, w), fs[|fs| - 1], h, w)
  }

  /** Every channel of the fold is at least 0, the value it starts from. */
  lemma {:induction false} StackNonNegative(fs: seq<Frame>, h: nat, w: nat)
    requires AllShaped(fs, h, w)
    ensures forall y, x, c :: InFrame(y, x, c, h, w) ==> Stack(fs, h, w)[y][x][c] >= 0
    decreases |fs|
  {
    if fs != [] {
      var init := fs[..|fs| - 1];
      assert forall k :: 0 <= k < |init| ==> init[k] == fs[k];
      StackNonNegative(init, h, w);
    }
  }

  /** Every channel of the fold is at least that channel of every folded frame. */
  lemma {:induction false} StackAboveEach(fs: seq<Frame>, h: nat, w: nat)
    requires AllShaped(fs, h, w)
    ensures forall k, y, x, c :: 0 <= k < |fs| && InFrame(y, x, c, h, w) ==> fs[k][y][x][c] <= Stack(fs, h, w)[y][x][c]
    decreases |fs|
  {
    if fs != [] {
      var init := fs[..|fs| - 1];
      assert forall k :: 0 <= k < |init| ==> init[k] == fs[k];
      StackAboveEach(init, h, w);
    }
  }

  /** Every channel of the fold is 0 or that channel of one of the folded frames. */
  lemma {:induction false} StackAttained(fs: seq<Frame>, h: nat, w: nat)
    requires AllShaped(fs, h, w)
    ensures forall y, x, c :: InFrame(y, x, c, h, w) ==>
        Stack(fs, h, w)[y][x][c] == 0 || exists k :: 0 <= k < |fs| && Stack(fs, h, w)[y][x][c] == fs[k][y][x][c]
    decreases |fs|
  {
    if fs != [] {
      var init := fs[..|fs| - 1];
      var r, r0 := Stack(fs, h, w), Stack(init, h, w);
      assert forall k :: 0 <= k < |init| ==> init[k] == fs[k];
      StackAttained(init, h, w);
      forall y, x, c | InFrame(y, x, c, h, w) && r[y][x][c] != 0
        ensures exists k :: 0 <= k < |fs| && r[y][x][c] == fs[k][y][x][c]
      {
        if r[y][x][c] != fs[|fs| - 1][y][x][c] {
          assert r[y][x][c] == r0[y][x][c];
          var k :| 0 <= k < |init| && r0[y][x][c] == init[k][y][x][c];
          assert init[k] == fs[k];
        }
      }
    }
  }

  /**
   * Every channel of the fold is the maximum of 0 and that channel over the
   * folded frames: it is at least 0 and at least every folded frame, and it is
   * 0 or equal to the channel of one of them.
   */
  lemma {:induction false} StackIsMaximum(fs: seq<Frame>, h: nat, w: nat)
    requires AllShaped(fs, h, w)
    ensures forall y, x, c :: InFrame(y, x, c, h, w) ==> Stack(fs, h, w)[y][x][c] >= 0
    ensures forall k, y, x, c :: 0 <= k < |fs| && InFrame(y, x, c, h, w) ==> fs[k][y][x][c] <= Stack(fs, h, w)[y][x][c]
    ensures forall y, x, c :: InFrame(y, x, c, h, w) ==>
      Stack(fs, h, w)[y][x][c] == 0 || exists k :: 0 <= k < |fs| && Stack(fs, h, w)[y][x][c] == fs[k][y][x][c]
  {
    StackNonNegative(fs, h, w);
    StackAboveEach(fs, h, w);
    StackAttained(fs, h, w);
  }

  /** Folding 8-bit frames gives an 8-bit frame, so saving it loses nothing. */
  lemma {:induction false} StackIsImage(fs: seq<Frame>, h: nat, w: nat)
    requires AllImages(fs, h, w)
    ensures IsImage(Stack(fs, h, w), h, w)
  {
    var r := Stack(fs, h, w);
    StackIsMaximum(fs, h, w);
    forall y, x, c | InFrame(y, x, c, h, w) ensures r[y][x][c] <= 255 {
      if r[y][x][c] != 0 {
        var k :| 0 <= k < |fs| && r[y][x][c] == fs[k][y][x][c];
        assert IsImage(fs[k], h, w);
      }
    }
  }

  /**
   * The result of the fold depends only on which frames are folded, not on
   * their order nor on how often each occurs.
   */
  lemma StackOrderIndependent(fs: seq<Frame>, gs: seq<Frame>, h: nat, w: nat)
    requires AllShaped(fs, h, w)
    requires AllShaped(gs, h, w)
    requires forall f :: f in fs <==> f in gs
    ensures Stack(fs, h, w) == Stack(gs, h, w)
  {
    var a, b := Stack(fs, h, w), Stack(gs, h, w);
    StackIsMaximum(fs, h, w);
    StackIsMaximum(gs, h, w);
    forall y, x, c | InFrame(y, x, c, h, w) ensures a[y][x][c] == b[y][x][c] {
      if a[y][x][c] != 0 {
        var k :| 0 <= k < |fs| && a[y][x][c] == fs[k][y][x][c];
        assert fs[k] in gs;
      }
      if b[y][x][c] != 0 {
        var k :| 0 <= k < |gs| && b[y][x][c] == gs[k][y][x][c];
        assert gs[k] in fs;
      }
    }
    FrameExt(a, b, h, w);
  }

  /** Folding one more frame never darkens the accumulator. */
  lemma {:induction false} StackGrows(fs: seq<Frame>, f: Frame, h: nat, w: nat)
    requires AllShaped(fs, h, w)
    requires Shaped(f, h, w)
    ensures Below(Stack(fs, h, w), Stack(fs + [f], h, w), h, w)
    ensures Below(f, Stack(fs + [f], h, w), h, w)
  {
    assert (fs + [f])[..|fs|] == fs;
    StackIsMaximum(fs, h, w);
  }

  /** Two 1x1 frames (10,200,30) and (50,5,60) accumulate to (50,200,60). */
  lemma StackExample()
    ensures Stack([[[[10, 200, 30]]], [[[50, 5, 60]]]], 1, 1) == [[[50, 200, 60]]]
  {
    var f1: Frame := [[[10, 200, 30]]];
    var f2: Frame := [[[50, 5, 60]]];
    assert [f1, f2][..1] == [f1];
    assert [f1][..0] == [];
    var s1 := Stack([f1], 1, 1);
    assert Stack([f1][..0], 1, 1) == Black(1, 1);
    assert s1 == Maximum(Stack([f1][..0], 1, 1), f1, 1, 1);
    var s := Stack([f1, f2], 1, 1);
    assert s == Maximum(s1, f2, 1, 1);
    forall y, x, c | InFrame(y, x, c, 1, 1) ensures s[y][x][c] == [[[50, 200, 60]]][y][x][c] {
      assert y == 0 && x == 0;
      assert s1[0][0][c] == f1[0][0][c];
    }
    FrameExt(s, [[[50, 200, 60]]], 1, 1);
  }
}
