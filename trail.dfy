/**
 * The `Trail` object of trails.py: the constructor selects the frame paths,
 * `Process` walks them, folding each kept frame into the running
 * pixel-wise maximum and issuing the `save_image` calls.
 *
 * Reading a path into pixels (`Image.open`) is outside the model: `Process`
 * receives the decoded frames, `pixels[i]` being the frame of `images[i]`,
 * and returns the stack together with the sequence of `save_image` calls it
 * made, in order.
 */
module Trails {
  import opened Selection
  import opened Frames
  import opened Labels
  import opened Schedule

  /** Extending a prefix of `s` by the next element of `s`. */
  lemma PrefixNext<T>(before: seq<T>, s: seq<T>, c: nat)
    requires c < |s|
    ensures before + s[..c] + [s[c]] == before + s[..c + 1]
  {
    assert s[..c + 1] == s[..c] + [s[c]];
  }

  /** The timelapse preamble of lines 36-39: raw frames, last first, numbered from 0. */
  method WriteTimelapse(pixels: seq<Frame>) returns (saves: seq<Save>)
    ensures saves == TimelapseSaves(pixels)
  {
    var n := |pixels|;
    ghost var tl := TimelapseSaves(pixels);
    saves := [];
    var counter := 0;
    while counter < n
      invariant 0 <= counter <= n
      invariant saves == [] + tl[..counter]
    {
      PrefixNext([], tl, counter);
      saves := saves + [Save(Index(counter), pixels[n - 1 - counter])];
      counter := counter + 1;
    }
    assert tl[..n] == tl;
  }

  /** The static hold of lines 56-57: `stack` saved 90 times, numbered from `offset`. */
  method WriteHold(stack: Frame, offset: nat) returns (saves: seq<Save>)
    ensures saves == HoldSaves(stack, offset)
  {
    ghost var hold := HoldSaves(stack, offset);
    saves := [];
    var c := 0;
    while c < HoldFrames
      invariant 0 <= c <= HoldFrames
      invariant saves == [] + hold[..c]
    {
      PrefixNext([], hold, c);
      saves := saves + [Save(Index(offset + c), stack)];
      c := c + 1;
    }
    assert hold[..HoldFrames] == hold;
  }

  class Trail {
    /** `self.images`: the selected frame paths, in processing order. */
    var images: seq<string>

    /**
     * `Trail.__init__` after glob expansion: `expanded` is the concatenation
     * of the glob results; an empty `extensionFilters` stands for `None`.
     */
    constructor (expanded: seq<string>, extensionFilters: seq<string>, reverse: bool, maxImages: int)
      ensures images == Select(expanded, extensionFilters, reverse, maxImages)
    {
      images := expanded;
      new;
      if extensionFilters != [] {
        images := FilterByExtension(images, extensionFilters);
      } else {
        NoFilterKeepsAll(expanded);
      }
      images := Sort(images);
      if maxImages > 0 && maxImages <= |images| {
        images := images[0..maxImages];
      }
      if reverse {
        images := Reverse(images);
      }
    }

    /**
     * `Trail.process`. The frame size is that of the first frame (line 30),
     * so an empty selection, where Python fails on `self.images[0]`, is
     * excluded, as are frames of another size, where `numpy.maximum` raises
     * or broadcasts.
     */
    method Process(pixels: seq<Frame>, skip: int, keepIntermediate: bool, keepTimelapse: bool, saveVideo: bool)
      returns (stack: Frame, saves: seq<Save>)
      requires |images| > 0 && |pixels| == |images|
      requires Uniform(pixels)
      ensures stack == Accumulate(pixels, skip, Height(pixels[0]), Width(pixels[0]))
      ensures saves == Stills(pixels, skip, keepIntermediate, keepTimelapse, saveVideo, Height(pixels[0]), Width(pixels[0]))
      ensures SavedImages(saves, Height(pixels[0]), Width(pixels[0]))
    {
      var h, w := Height(pixels[0]), Width(pixels[0]);
      UniformShaped(pixels);
      var n := |images|;
      stack := Black(h, w);
      var offset: nat := 0;
      var intermediate := keepIntermediate;
      if saveVideo {
        intermediate := true;
      }
      saves := [];
      if keepTimelapse && intermediate {
        saves := WriteTimelapse(pixels);
        offset := n;
      }
      assert saves == if WritesTimelapse(keepIntermediate, keepTimelapse, saveVideo) then TimelapseSaves(pixels) else [];
      assert offset == Offset(n, keepIntermediate, keepTimelapse, saveVideo);
      // The stills of the main loop, in order; `save_image` appends them to the log.
      var stills: seq<Save> := [];
      var counter := 0;
      while counter < n
        invariant 0 <= counter <= n
        invariant stack == AccumulateThrough(pixels, skip, counter, h, w)
        invariant intermediate ==> stills == IntermediateSaves(pixels, skip, offset, counter, h, w)
        invariant !intermediate ==> stills == []
      {
        MainLoopStep(pixels, skip, offset, counter, h, w);
        if skip != 0 && PyMod(counter, skip) != 0 {
          counter := counter + 1;
          continue;
        }
        stack := Maximum(stack, pixels[counter], h, w);
        if intermediate {
          stills := stills + [Save(Index(offset + counter), stack)];
        }
        counter := counter + 1;
      }
      saves := saves + stills;
      assert saves == Numbered(pixels, skip, keepIntermediate, keepTimelapse, saveVideo, h, w);
      saves := saves + [Save(Final, stack)];
      if saveVideo {
        offset := offset + n;
        var hold := WriteHold(stack, offset);
        saves := saves + hold;
      }
      StillsAreImages(pixels, skip, keepIntermediate, keepTimelapse, saveVideo, h, w);
    }
  }
}
