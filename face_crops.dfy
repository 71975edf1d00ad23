/**
 * `extract_frames` of backend/result.py: sample evenly spaced frame
 * positions, crop each to its largest detected face, drop frames without
 * a usable face, and pad to the sequence length by repeating the last crop.
 */
module FaceCrops {
  import opened Wrappers
  import opened PyNum
  import opened Media

  /** A face box as the detector reports it: corners (x1, y1) and (x2, y2). */
  datatype Box = Box(x1: real, y1: real, x2: real, y2: real)

  /** `frame_rgb[top:top + rows, left:left + cols]` of the frame at `frameIndex`. */
  datatype Crop = Crop(frameIndex: int, top: nat, rows: nat, left: nat, cols: nat)

  function Area(b: Box): (a: real)
    ensures b.x1 <= b.x2 && b.y1 <= b.y2 ==> a >= 0.0
  {
    (b.x2 - b.x1) * (b.y2 - b.y1)
  }

  /** Box k has the largest area, and no earlier box has as large an area. */
  predicate FirstLargest(boxes: seq<Box>, k: int)
  {
    && 0 <= k < |boxes|
    && (forall j :: 0 <= j < |boxes| ==> Area(boxes[j]) <= Area(boxes[k]))
    && (forall j :: 0 <= j < k ==> Area(boxes[j]) < Area(boxes[k]))
  }

  /** At most one box is the first of largest area. */
  lemma FirstLargestUnique(boxes: seq<Box>, k1: int, k2: int)
    requires FirstLargest(boxes, k1) && FirstLargest(boxes, k2)
    ensures k1 == k2
  {
    assert Area(boxes[k1]) == Area(boxes[k2]);
  }

  /** `np.argmax` of the box areas: the first box of largest area. */
  function LargestBox(boxes: seq<Box>): (k: nat)
    requires |boxes| > 0
    ensures FirstLargest(boxes, k)
    ensures forall j :: FirstLargest(boxes, j) ==> j == k
  {
    if |boxes| == 1 then 0
    else
      var n := |boxes| - 1;
      var k := LargestBox(boxes[..n]);
      assert forall j :: 0 <= j < n ==> boxes[..n][j] == boxes[j];
      var r := if Area(boxes[n]) > Area(boxes[k]) then n else k;
      assert FirstLargest(boxes, r);
      assert forall j :: FirstLargest(boxes, j) ==> j == r by {
        forall j | FirstLargest(boxes, j) ensures j == r { FirstLargestUnique(boxes, j, r); }
      }
      r
  }

  /** `max(0, int(b))` */
  function ClampCoord(v: real): (c: nat)
    ensures v >= 0.0 ==> c == Trunc(v)
    ensures v < 0.0 ==> c == 0
  {
    var t := Trunc(v);
    if t < 0 then 0 else t
  }

  /** The part of [lo, hi) inside [0, n), as numpy slicing keeps it: (start, length). */
  function Slice(lo: nat, hi: nat, n: nat): (r: (nat, nat))
    ensures r.0 + r.1 <= n
    ensures lo <= hi <= n ==> r == (lo, hi - lo)
    ensures hi <= lo ==> r.1 == 0
  {
    var a := if lo < n then lo else n;
    var b := if hi < n then hi else n;
    (a, if a < b then b - a else 0)
  }

  /** `frame_rgb[y1:y2, x1:x2]` for the box's clamped corners. */
  function CropOf(idx: int, f: Frame, b: Box): (c: Crop)
    ensures c.frameIndex == idx
    ensures c.top + c.rows <= f.height && c.left + c.cols <= f.width
  {
    var rowSlice := Slice(ClampCoord(b.y1), ClampCoord(b.y2), f.height);
    var colSlice := Slice(ClampCoord(b.x1), ClampCoord(b.x2), f.width);
    Crop(idx, rowSlice.0, rowSlice.1, colSlice.0, colSlice.1)
  }

  /** What one frame contributes: the crop of its largest face, if there is one and it is not empty. */
  function FaceOf(idx: int, f: Frame, boxes: seq<Box>): (out: seq<Crop>)
    ensures |out| <= 1
    ensures forall c :: c in out ==> c.frameIndex == idx && c.rows > 0 && c.cols > 0
    ensures |boxes| == 0 ==> out == []
  {
    if |boxes| == 0 then []
    else
      var c := CropOf(idx, f, boxes[LargestBox(boxes)]);
      if c.rows > 0 && c.cols > 0 then [c] else []
  }

  /** With at least one box, the frame contributes the crop of the first box of largest area, when that crop is not empty. */
  lemma FaceOfLargest(idx: int, f: Frame, boxes: seq<Box>, k: int)
    requires FirstLargest(boxes, k)
    ensures var c := CropOf(idx, f, boxes[k]);
      FaceOf(idx, f, boxes) == if c.rows > 0 && c.cols > 0 then [c] else []
  {
    FirstLargestUnique(boxes, k, LargestBox(boxes));
  }

  /**
   * `np.linspace(0, total - 1, count).astype(int)` on exact values:
   * floor(i * (total - 1) / (count - 1)), and [0] when count is 1.
   */
  function Linspace(total: int, count: nat): (r: seq<int>)
    requires total >= 1
    ensures |r| == count
  {
    seq(count, i requires 0 <= i < count => if count == 1 then 0 else (i * (total - 1)) / (count - 1))
  }

  lemma DivMonotone(a: int, b: int, d: int)
    requires 0 <= a <= b && d >= 1
    ensures a / d <= b / d
  {
    var qa, qb := a / d, b / d;
    assert a == d * qa + a % d && b == d * qb + b % d;
    if qa > qb {
      MulAtLeast(qa - qb, d);
    }
  }

  /**
   * The sampled positions: `count` of them, non-decreasing, inside
   * [0, total - 1], starting at 0 and ending at total - 1 when count >= 2.
   */
  lemma LinspaceShape(total: int, count: nat)
    requires total >= 1
    ensures |Linspace(total, count)| == count
    ensures forall i :: 0 <= i < count ==> 0 <= Linspace(total, count)[i] <= total - 1
    ensures forall i, j :: 0 <= i <= j < count ==> Linspace(total, count)[i] <= Linspace(total, count)[j]
    ensures count >= 1 ==> Linspace(total, count)[0] == 0
    ensures count >= 2 ==> Linspace(total, count)[count - 1] == total - 1
  {
    if count >= 2 {
      forall i, j | 0 <= i <= j < count
        ensures 0 <= Linspace(total, count)[i] <= Linspace(total, count)[j] <= total - 1
      {
        LinspacePair(total, count - 1, i, j);
      }
      DivModUnique((count - 1) * (total - 1), count - 1, total - 1, 0);
    }
  }

  /** floor(i·t/d) <= floor(j·t/d) <= t for i <= j <= d. */
  lemma LinspacePair(total: int, d: int, i: int, j: int)
    requires total >= 1 && d >= 1 && 0 <= i <= j <= d
    ensures 0 <= (i * (total - 1)) / d <= (j * (total - 1)) / d <= total - 1
  {
    MulMonotone(i, j, total - 1);
    MulMonotone(j, d, total - 1);
    MulMonotone(0, i, total - 1);
    DivChain(i * (total - 1), j * (total - 1), d * (total - 1), d, total - 1);
  }

  lemma DivChain(a: int, b: int, c: int, d: int, t: int)
    requires 0 <= a <= b <= c && d >= 1 && c == d * t
    ensures 0 <= a / d <= b / d <= t
  {
    DivMonotone(0, a, d);
    DivMonotone(a, b, d);
    DivMonotone(b, c, d);
    DivModUnique(c, d, t, 0);
  }

  /** Ten frames, four samples: positions 0, 3, 6, 9. */
  lemma FourOfTen()
    ensures Linspace(10, 4) == [0, 3, 6, 9]
  {
  }

  /** Fewer frames than samples: positions repeat. */
  lemma SevenOfThree()
    ensures Linspace(3, 7) == [0, 0, 0, 1, 1, 1, 2]
  {
  }

  /**
   * The crops of the sampled positions in order, stopping at the first
   * position whose read fails: at most one crop per position, each non-empty.
   */
  function CropsFrom(indices: seq<int>, v: Video, detect: Frame -> seq<Box>): (crops: seq<Crop>)
    ensures |crops| <= |indices|
    ensures forall c :: c in crops ==> c.frameIndex in indices && c.rows > 0 && c.cols > 0
  {
    if |indices| == 0 then []
    else
      match ReadAt(v, indices[0])
      case None => []
      case Some(f) =>
        var rest := CropsFrom(indices[1..], v, detect);
        assert forall c :: c in rest ==> c.frameIndex in indices;
        FaceOf(indices[0], f, detect(f)) + rest
  }

  /** `while 0 < len(frames) < seq_length: frames.append(frames[-1])` */
  function Padded(crops: seq<Crop>, length: nat): (r: seq<Crop>)
    ensures |crops| == 0 || |crops| >= length ==> r == crops
    ensures 0 < |crops| < length ==>
      |r| == length && r[..|crops|] == crops && forall k :: |crops| <= k < length ==> r[k] == crops[|crops| - 1]
  {
    if |crops| == 0 || |crops| >= length then crops
    else crops + seq(length - |crops|, _ => crops[|crops| - 1])
  }

  /** What `extract_frames(video, seq_length)` returns. */
  function FaceSequence(v: Video, seqLength: nat, detect: Frame -> seq<Box>): (r: seq<Crop>)
    ensures v.frameCount <= 0 ==> r == []
    ensures |r| == 0 || |r| == seqLength
  {
    if v.frameCount <= 0 then []
    else Padded(CropsFrom(Linspace(v.frameCount, seqLength), v, detect), seqLength)
  }

  /**
   * The result is empty or exactly seqLength long; it is the real crops in
   * sampling order followed by copies of the last one; it is empty exactly
   * when no real crop was made.
   */
  lemma FaceSequenceShape(v: Video, seqLength: nat, detect: Frame -> seq<Box>)
    requires v.frameCount > 0
    ensures var found := CropsFrom(Linspace(v.frameCount, seqLength), v, detect);
      var r := FaceSequence(v, seqLength, detect);
      && (|r| == 0 || |r| == seqLength)
      && (|r| == 0 <==> found == [])
      && |found| <= |r|
      && r[..|found|] == found
      && forall k :: |found| <= k < |r| ==> r[k] == found[|found| - 1]
  {
    LinspaceShape(v.frameCount, seqLength);
  }

  /** The first position whose read fails ends the scan: later positions contribute nothing. */
  lemma {:induction false} FailedReadStops(indices: seq<int>, i: nat, v: Video, detect: Frame -> seq<Box>)
    requires i < |indices| && ReadAt(v, indices[i]).None?
    ensures CropsFrom(indices, v, detect) == CropsFrom(indices[..i], v, detect)
  {
    if i > 0 {
      assert indices[..i][0] == indices[0];
      if ReadAt(v, indices[0]).Some? {
        FailedReadStops(indices[1..], i - 1, v, detect);
        assert indices[..i][1..] == indices[1..][..i - 1];
      }
    }
  }

  /** A video with no face in any frame gives the empty list, not an error. */
  lemma NoFaceNoCrops(v: Video, seqLength: nat, detect: Frame -> seq<Box>)
    requires forall f :: detect(f) == []
    ensures FaceSequence(v, seqLength, detect) == []
  {
    if v.frameCount > 0 {
      NoFaceInPositions(Linspace(v.frameCount, seqLength), v, detect);
    }
  }

  lemma {:induction false} NoFaceInPositions(indices: seq<int>, v: Video, detect: Frame -> seq<Box>)
    requires forall f :: detect(f) == []
    ensures CropsFrom(indices, v, detect) == []
  {
    if |indices| > 0 {
      NoFaceInPositions(indices[1..], v, detect);
    }
  }

  /**
   * The body of the loop for one frame that was read: no box gives nothing;
   * otherwise the crop of the first box of largest area, kept only when it
   * is not empty.
   */
  method CropLargestFace(idx: int, frame: Frame, boxes: seq<Box>) returns (out: seq<Crop>)
    ensures |boxes| == 0 ==> out == []
    ensures forall k :: FirstLargest(boxes, k) ==>
      var c := CropOf(idx, frame, boxes[k]);
      out == if c.rows > 0 && c.cols > 0 then [c] else []
  {
    out := [];
    if |boxes| > 0 {
      var k := LargestBox(boxes);
      var crop := CropOf(idx, frame, boxes[k]);
      if crop.rows > 0 && crop.cols > 0 {
        out := [crop];
      }
    }
  }

  /** The `for idx in indices` loop: read, detect, crop; stop at the first failed read. */
  method CollectCrops(indices: seq<int>, v: Video, detect: Frame -> seq<Box>) returns (frames: seq<Crop>)
    ensures frames == CropsFrom(indices, v, detect)
  {
    frames := [];
    var i := 0;
    while i < |indices|
      invariant i <= |indices|
      invariant CropsFrom(indices, v, detect) == frames + CropsFrom(indices[i..], v, detect)
    {
      var idx := indices[i];
      var ret := ReadAt(v, idx);
      CropsStep(indices, i, v, detect);
      if ret.None? {
        break;
      }
      var frame := ret.value;
      var boxes := detect(frame);
      var face := CropLargestFace(idx, frame, boxes);
      assert face == FaceOf(idx, frame, boxes) by {
        if |boxes| > 0 {
          FaceOfLargest(idx, frame, boxes, LargestBox(boxes));
        }
      }
      frames := frames + face;
      i := i + 1;
    }
  }

  /** One step of `CropsFrom` at position `i`. */
  lemma CropsStep(indices: seq<int>, i: nat, v: Video, detect: Frame -> seq<Box>)
    requires i < |indices|
    ensures ReadAt(v, indices[i]).None? ==> CropsFrom(indices[i..], v, detect) == []
    ensures ReadAt(v, indices[i]).Some? ==>
      var f := ReadAt(v, indices[i]).value;
      CropsFrom(indices[i..], v, detect) == FaceOf(indices[i], f, detect(f)) + CropsFrom(indices[i + 1..], v, detect)
  {
    assert indices[i..][1..] == indices[i + 1..];
  }

  /** The padding loop: repeat the last crop until there are `length`. */
  method PadToLength(crops: seq<Crop>, length: nat) returns (frames: seq<Crop>)
    ensures frames == Padded(crops, length)
  {
    frames := crops;
    while 0 < |frames| < length
      invariant |crops| <= |frames|
      invariant |crops| == 0 || |crops| >= length ==> frames == crops
      invariant 0 < |crops| ==> frames == crops + seq(|frames| - |crops|, _ => crops[|crops| - 1])
      invariant 0 < |crops| < length ==> |frames| <= length
      decreases length - |frames|
    {
      frames := frames + [frames[|frames| - 1]];
    }
  }

  /** `extract_frames(video_path, seq_length)`, with the face detector as `detect`. */
  method ExtractFrames(v: Video, seqLength: nat, detect: Frame -> seq<Box>) returns (frames: seq<Crop>)
    ensures frames == FaceSequence(v, seqLength, detect)
    ensures v.frameCount <= 0 ==> frames == []
  {
    if v.frameCount <= 0 {
      return [];
    }
    var indices := Linspace(v.frameCount, seqLength);
    var found := CollectCrops(indices, v, detect);
    frames := PadToLength(found, seqLength);
  }
}
