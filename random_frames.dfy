/**
 * `extract_frames` of backend/video_processor.py: draw up to `n_frames`
 * distinct random frame positions, save every frame that decodes as
 * `frames/frame_<idx>.jpg`, and return the saved paths in drawing order.
 */
module RandomFrames {
  import opened Wrappers
  import opened Text
  import opened Media
  import opened Sampling

  const FrameDir: string := "frames"

  /** `f"{FRAME_DIR}/frame_{idx}.jpg"` */
  function FramePath(idx: nat): (p: string)
    ensures |p| == 17 + |NatToString(idx)|
    ensures p[..13] == "frames/frame_" && p[|p| - 4..] == ".jpg"
    ensures p[13..|p| - 4] == NatToString(idx)
  {
    FrameDir + "/frame_" + NatToString(idx) + ".jpg"
  }

  /** Two positions are saved under the same name only if they are the same position. */
  lemma FramePathInjective(a: nat, b: nat)
    requires FramePath(a) == FramePath(b)
    ensures a == b
  {
    NatToStringInjective(a, b);
  }

  /** One `cv2.imwrite(frame_path, frame)`: the position it came from and the picture written. */
  datatype Saved = Saved(frameIndex: nat, image: Frame)

  function PathOf(s: Saved): string
  {
    FramePath(s.frameIndex)
  }

  function FrameIndices(saved: seq<Saved>): (r: seq<nat>)
    ensures |r| == |saved|
    ensures forall k :: 0 <= k < |saved| ==> r[k] == saved[k].frameIndex
  {
    seq(|saved|, k requires 0 <= k < |saved| => saved[k].frameIndex)
  }

  function Paths(saved: seq<Saved>): (r: seq<string>)
    ensures |r| == |saved|
    ensures forall k :: 0 <= k < |saved| ==> r[k] == PathOf(saved[k])
  {
    seq(|saved|, k requires 0 <= k < |saved| => PathOf(saved[k]))
  }

  /**
   * The frames the loop writes, in drawing order: a position whose read
   * fails is skipped and the loop goes on. Every write is of a drawn
   * position and holds the frame decoded there.
   */
  function Writes(indices: seq<nat>, v: Video): (r: seq<Saved>)
    ensures |r| <= |indices|
    ensures forall k :: 0 <= k < |r| ==> r[k].frameIndex in indices && ReadAt(v, r[k].frameIndex) == Some(r[k].image)
  {
    if |indices| == 0 then []
    else
      var n := |indices| - 1;
      var before := Writes(indices[..n], v);
      assert forall j :: j in indices[..n] ==> j in indices;
      match ReadAt(v, indices[n])
      case None => before
      case Some(f) => before + [Saved(indices[n], f)]
  }

  /** When every drawn position decodes, one file is written per position, in drawing order. */
  lemma {:induction false} AllReadsSaved(indices: seq<nat>, v: Video)
    requires forall k :: 0 <= k < |indices| ==> ReadAt(v, indices[k]).Some?
    ensures FrameIndices(Writes(indices, v)) == indices
  {
    if |indices| > 0 {
      var n := |indices| - 1;
      AllReadsSaved(indices[..n], v);
      assert FrameIndices(Writes(indices, v)) == FrameIndices(Writes(indices[..n], v)) + [indices[n]];
      assert indices[..n] + [indices[n]] == indices;
    }
  }

  /** Distinct positions are written at most once each. */
  lemma {:induction false} WritesDistinct(indices: seq<nat>, v: Video)
    requires Distinct(indices)
    ensures Distinct(FrameIndices(Writes(indices, v)))
  {
    if |indices| > 0 {
      var n := |indices| - 1;
      assert Distinct(indices[..n]);
      WritesDistinct(indices[..n], v);
      var before := Writes(indices[..n], v);
      assert forall k :: 0 <= k < |before| ==> before[k].frameIndex != indices[n];
    }
  }

  /** Distinct positions give distinct paths: no file is overwritten by a later one. */
  lemma PathsDistinct(indices: seq<nat>, v: Video)
    requires Distinct(indices)
    ensures forall i, j :: 0 <= i < j < |Writes(indices, v)| ==> Paths(Writes(indices, v))[i] != Paths(Writes(indices, v))[j]
  {
    var w := Writes(indices, v);
    WritesDistinct(indices, v);
    forall i, j | 0 <= i < j < |w|
      ensures Paths(w)[i] != Paths(w)[j]
    {
      if Paths(w)[i] == Paths(w)[j] {
        FramePathInjective(w[i].frameIndex, w[j].frameIndex);
        assert false;
      }
    }
  }

  /** `n_frames` after `if total_frames < n_frames: n_frames = total_frames` */
  function SampleSize(frameCount: int, nFrames: int): (n: int)
    ensures n <= frameCount && n <= nFrames
    ensures n == frameCount || n == nFrames
  {
    if frameCount < nFrames then frameCount else nFrames
  }

  /**
   * `extract_frames(video_path, n_frames)`. None is the ValueError
   * `random.sample` raises for a negative sample size (a negative frame
   * count or a negative `n_frames`). Otherwise `indices` is the draw and
   * `saved` the files written; the paths are those of `saved`, in order.
   */
  method ExtractFrames(v: Video, nFrames: int) returns (result: Option<seq<string>>, ghost indices: seq<nat>, ghost saved: seq<Saved>)
    ensures result.None? <==> SampleSize(v.frameCount, nFrames) < 0
    ensures result.Some? ==>
      && |indices| == SampleSize(v.frameCount, nFrames)
      && (forall k :: 0 <= k < |indices| ==> indices[k] < v.frameCount)
      && Distinct(indices)
      && saved == Writes(indices, v)
      && result.value == Paths(saved)
      && |result.value| <= SampleSize(v.frameCount, nFrames)
    ensures v.frameCount == 0 && nFrames >= 0 ==> result == Some([])
  {
    var n := SampleSize(v.frameCount, nFrames);
    if n < 0 {
      return None, [], [];
    }
    var frameIndices := RandomSample(v.frameCount, n);
    indices := frameIndices;
    var extracted: seq<string> := [];
    saved := [];
    for i := 0 to |frameIndices|
      invariant saved == Writes(frameIndices[..i], v)
      invariant extracted == Paths(saved)
    {
      var idx := frameIndices[i];
      assert frameIndices[..i + 1][..i] == frameIndices[..i];
      var success := ReadAt(v, idx);
      if success.Some? {
        var framePath := FrameDir + "/frame_" + NatToString(idx) + ".jpg";
        saved := saved + [Saved(idx, success.value)];
        extracted := extracted + [framePath];
      }
    }
    assert frameIndices[..|frameIndices|] == frameIndices;
    result := Some(extracted);
  }
}
