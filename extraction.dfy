/**
 * `extract_images_from_media`: classify a file by its lower-cased
 * extension, then keep the decoded image, or one decoded video frame per
 * second of video.
 */
module Extraction {
  import opened Wrappers
  import opened Text
  import opened PyNum
  import opened Media

  const ImageExtensions: set<string> := {".jpg", ".jpeg", ".png", ".bmp", ".webp", ".tiff"}
  const VideoExtensions: set<string> := {".mp4", ".avi", ".mov", ".mkv", ".webm", ".flv"}

  /** Frame rate assumed when the decoder reports 0. */
  const DefaultFps: real := 24.0

  datatype Kind = StillImage | MotionVideo | Unsupported

  /**
   * One extracted evidence image (saved by the source under a fresh uuid
   * name): the frame it was taken from and its pixels. A still image is frame 0.
   */
  datatype Sample = Sample(frameIndex: nat, image: Frame)

  /** What the decoders give for the file: PIL's image (None: it raised) and cv2's video. */
  datatype Decoders = Decoders(still: Option<Frame>, video: Video)

  function KindOfExtension(ext: string): (k: Kind)
    ensures k == StillImage <==> ext in ImageExtensions
    ensures k == MotionVideo <==> ext in VideoExtensions
    ensures k == Unsupported <==> ext !in ImageExtensions && ext !in VideoExtensions
  {
    ExtensionSetsDisjoint();
    if ext in ImageExtensions then StillImage
    else if ext in VideoExtensions then MotionVideo
    else Unsupported
  }

  function KindOf(path: string): Kind
  {
    KindOfExtension(Lower(SplitExt(path)))
  }

  lemma ExtensionSetsDisjoint()
    ensures ImageExtensions !! VideoExtensions
  {
  }

  /** A file named stem + ext is classified by ext alone, whatever its letter case. */
  lemma KindOfJoin(stem: string, ext: string)
    requires IsExtension(ext)
    requires NonDotBetween(stem, LastIndexOf(stem, '/'), |stem|)
    ensures KindOf(stem + ext) == KindOfExtension(Lower(ext))
  {
    SplitExtOfJoin(stem, ext);
  }

  /** A file name whose stem ends in an ordinary character: `splitext` finds its extension. */
  lemma PlainStemJoin(stem: string, ext: string)
    requires |stem| > 0 && stem[|stem| - 1] != '.' && stem[|stem| - 1] != '/'
    requires IsExtension(ext)
    ensures KindOf(stem + ext) == KindOfExtension(Lower(ext))
  {
    assert LastIndexOf(stem, '/') < |stem| - 1;
    assert NonDotBetween(stem, LastIndexOf(stem, '/'), |stem|);
    KindOfJoin(stem, ext);
  }

  /** Upper-case video extensions are videos: "clip.MP4". */
  lemma VideoExtensionIgnoresCase(stem: string)
    requires |stem| > 0 && stem[|stem| - 1] != '.' && stem[|stem| - 1] != '/'
    ensures KindOf(stem + ".MP4") == MotionVideo
  {
    PlainStemJoin(stem, ".MP4");
    assert Lower(".MP4") == ".mp4";
  }

  /** Mixed-case image extensions are images, whatever directories the stem holds: "photos/face.JpEg". */
  lemma ImageIgnoresCase(stem: string)
    requires |stem| > 0 && stem[|stem| - 1] != '.' && stem[|stem| - 1] != '/'
    ensures KindOf(stem + ".JpEg") == StillImage
  {
    PlainStemJoin(stem, ".JpEg");
    assert Lower(".JpEg") == ".jpeg";
  }

  /** Python lowers U+212A KELVIN SIGN to 'k': "clip.M\u212aV" is a ".mkv" video. */
  lemma KelvinSignVideo(stem: string)
    requires |stem| > 0 && stem[|stem| - 1] != '.' && stem[|stem| - 1] != '/'
    ensures KindOf(stem + ".M\U{212A}V") == MotionVideo
  {
    PlainStemJoin(stem, ".M\U{212A}V");
    assert Lower(".M\U{212A}V") == ".mkv";
  }

  /** Any other extension is unsupported: "notes.txt". */
  lemma OtherExtensionUnsupported(stem: string)
    requires |stem| > 0 && stem[|stem| - 1] != '.' && stem[|stem| - 1] != '/'
    ensures KindOf(stem + ".txt") == Unsupported
  {
    PlainStemJoin(stem, ".txt");
    assert Lower(".txt") == ".txt";
  }

  /** A name that is only a dot and an extension has no extension for `splitext`. */
  lemma HiddenFileUnsupported()
    ensures KindOf(".png") == Unsupported
  {
    LastIndexOfUnique(".png", '.', 0);
    assert SplitExt(".png") == [];
  }

  // ----- the per-second rule -----

  /** The divisor the source computes: `int(fps)` after the 0 -> 24 fallback. */
  function StepAsWritten(fps: real): int
  {
    Trunc(if fps == 0.0 then DefaultFps else fps)
  }

  /**
   * Whether the source keeps frame `f`, as written: `f % int(fps) == 0`;
   * None where that expression raises ZeroDivisionError.
   */
  function KeepAsWritten(f: nat, fps: real): (keep: Option<bool>)
    ensures keep.None? <==> StepAsWritten(fps) == 0
  {
    var s := StepAsWritten(fps);
    if s == 0 then None else Some(PyMod(f, s) == 0)
  }

  /** `int(fps)` is 0, so the test raises, exactly for a non-zero rate strictly between -1 and 1. */
  lemma FractionalFpsOnly(fps: real)
    ensures StepAsWritten(fps) == 0 <==> fps != 0.0 && -1.0 < fps < 1.0
  {
    if fps != 0.0 && (fps >= 1.0 || fps <= -1.0) {
      assert Trunc(fps) != 0;
    }
  }

  /** A video reporting 0.5 fps makes the source raise on its very first frame. */
  lemma FractionalFpsRaises()
    ensures KeepAsWritten(0, 0.5) == None
  {
    assert StepAsWritten(0.5) == 0;
  }

  /**
   * The corrected divisor: the magnitude of `int(fps)`, and 1 (every frame
   * is a second or more from the next) when that truncates to 0.
   */
  function FrameStep(fps: real): (step: int)
    ensures step >= 1
    ensures StepAsWritten(fps) != 0 ==> step == StepAsWritten(fps) || step == -StepAsWritten(fps)
  {
    var s := StepAsWritten(fps);
    if s == 0 then 1 else if s < 0 then -s else s
  }

  /** Wherever the source does not raise, the corrected rule keeps the same frames. */
  lemma FrameStepAgrees(f: nat, fps: real)
    requires KeepAsWritten(f, fps).Some?
    ensures KeepAsWritten(f, fps) == Some(f % FrameStep(fps) == 0)
  {
    var s := StepAsWritten(fps);
    PyModZeroIffDivides(f, s);
    if s < 0 {
      ModOfNegatedDivisor(f, -s);
    }
  }

  lemma ModOfNegatedDivisor(a: int, d: int)
    requires d >= 1
    ensures a % (-d) == a % d
  {
  }

  /**
   * The frames kept from a run of decoded frames: frame n (0-based) when
   * n is a multiple of step, in decoding order.
   */
  function PerSecond(frames: seq<Frame>, step: int): seq<Sample>
    requires step >= 1
    decreases |frames|
  {
    if |frames| == 0 then []
    else
      var n := |frames| - 1;
      PerSecond(frames[..n], step) + (if n % step == 0 then [Sample(n, frames[n])] else [])
  }

  lemma MultipleBetween(m: int, step: int, k: int)
    requires step >= 1 && m % step == 0
    requires (k - 1) * step < m <= k * step
    ensures m == k * step
  {
    var q := m / step;
    assert m == q * step;
    if q < k {
      MulMonotone(q, k - 1, step);
    } else if q > k {
      MulMonotone(k + 1, q, step);
    }
  }

  /**
   * The k-th kept frame is frame k*step, and exactly ceil(N / step) of N
   * decoded frames are kept: (count - 1) * step < N <= count * step.
   */
  lemma {:induction false} PerSecondShape(frames: seq<Frame>, step: int)
    requires step >= 1
    ensures (|PerSecond(frames, step)| - 1) * step < |frames| <= |PerSecond(frames, step)| * step
    ensures forall k :: 0 <= k < |PerSecond(frames, step)| ==>
      k * step < |frames| && PerSecond(frames, step)[k] == Sample(k * step, frames[k * step])
  {
    if |frames| > 0 {
      var n := |frames| - 1;
      var prev := frames[..n];
      PerSecondShape(prev, step);
      var before := PerSecond(prev, step);
      var c := |before|;
      assert forall k :: 0 <= k < c ==> k * step < n && before[k] == Sample(k * step, frames[k * step]);
      if n % step == 0 {
        MultipleBetween(n, step, c);
        assert PerSecond(frames, step) == before + [Sample(c * step, frames[c * step])];
      } else {
        MultipleHasNoRemainder(c, step);
        assert n != c * step;
        assert PerSecond(frames, step) == before;
      }
    }
  }

  /** Frame 0 is kept as soon as one frame decodes. */
  lemma FirstFrameKept(frames: seq<Frame>, step: int)
    requires step >= 1 && |frames| > 0
    ensures |PerSecond(frames, step)| > 0 && PerSecond(frames, step)[0] == Sample(0, frames[0])
  {
    PerSecondShape(frames, step);
  }

  /** The frames `cap.read()` returns before its first failure. */
  function DecodedRun(results: seq<Option<Frame>>): (run: seq<Frame>)
    ensures |run| <= |results|
    ensures forall i :: 0 <= i < |run| ==> results[i] == Some(run[i])
    ensures |run| < |results| ==> results[|run|].None?
  {
    if |results| == 0 || results[0].None? then [] else [results[0].value] + DecodedRun(results[1..])
  }

  /**
   * The per-second rule as written over a run of decoded frames: frame n is
   * kept when `n % int(fps) == 0`; None is the ZeroDivisionError that test
   * raises when `int(fps)` is 0.
   */
  function PerSecondAsWritten(frames: seq<Frame>, fps: real): Option<seq<Sample>>
    decreases |frames|
  {
    if |frames| == 0 then Some([])
    else
      var n := |frames| - 1;
      match PerSecondAsWritten(frames[..n], fps)
      case None => None
      case Some(before) =>
        match KeepAsWritten(n, fps)
        case None => None
        case Some(keep) => Some(before + (if keep then [Sample(n, frames[n])] else []))
  }

  /**
   * The rule as written raises exactly when `int(fps)` is 0 and a frame
   * decodes; otherwise it keeps the frames the corrected step keeps.
   */
  lemma {:induction false} PerSecondAsWrittenAgrees(frames: seq<Frame>, fps: real)
    ensures PerSecondAsWritten(frames, fps) ==
      if StepAsWritten(fps) == 0 && |frames| > 0 then None else Some(PerSecond(frames, FrameStep(fps)))
  {
    if |frames| > 0 {
      var n := |frames| - 1;
      PerSecondAsWrittenAgrees(frames[..n], fps);
      if StepAsWritten(fps) != 0 {
        FrameStepAgrees(n, fps);
      }
    }
  }

  /** The corrected outcome: the samples with the frame step never 0. */
  function ExpectedSamples(path: string, dec: Decoders): seq<Sample>
  {
    match KindOf(path)
    case StillImage => if dec.still.Some? then [Sample(0, dec.still.value)] else []
    case MotionVideo =>
      if !dec.video.isOpen then []
      else PerSecond(DecodedRun(dec.video.frames), FrameStep(dec.video.fps))
    case Unsupported => []
  }

  /** What `extract_images_from_media` does as written: None is the ZeroDivisionError it raises. */
  function Extract(path: string, dec: Decoders): Option<seq<Sample>>
  {
    match KindOf(path)
    case StillImage => Some(if dec.still.Some? then [Sample(0, dec.still.value)] else [])
    case MotionVideo =>
      if !dec.video.isOpen then Some([])
      else PerSecondAsWritten(DecodedRun(dec.video.frames), dec.video.fps)
    case Unsupported => Some([])
  }

  /** The files on which `extract_images_from_media` raises: an open video with `int(fps) == 0` and a decodable frame. */
  predicate RaisesOnFps(path: string, dec: Decoders)
  {
    KindOf(path) == MotionVideo && dec.video.isOpen && StepAsWritten(dec.video.fps) == 0 &&
    |DecodedRun(dec.video.frames)| > 0
  }

  /** The code as written raises exactly on those files, and otherwise agrees with the corrected step. */
  lemma ExtractionCorrected(path: string, dec: Decoders)
    ensures Extract(path, dec).None? <==> RaisesOnFps(path, dec)
    ensures Extract(path, dec).Some? ==> Extract(path, dec).value == ExpectedSamples(path, dec)
  {
    if KindOf(path) == MotionVideo && dec.video.isOpen {
      PerSecondAsWrittenAgrees(DecodedRun(dec.video.frames), dec.video.fps);
    }
  }

  /**
   * The outcomes by kind: nothing for an unknown extension or an unopenable
   * video, at most one sample for an image; an open video raises exactly when
   * its rate is a non-zero fraction in (-1, 1) and a frame decodes, and
   * otherwise gives ceil(N / |int(fps)|) samples of its N decoded frames.
   */
  lemma ExtractionByKind(path: string, dec: Decoders)
    ensures KindOf(path) == Unsupported ==> Extract(path, dec) == Some([])
    ensures KindOf(path) == StillImage ==> Extract(path, dec).Some? && |Extract(path, dec).value| <= 1
    ensures KindOf(path) == MotionVideo && !dec.video.isOpen ==> Extract(path, dec) == Some([])
    ensures KindOf(path) == MotionVideo && dec.video.isOpen ==>
      var fps := dec.video.fps;
      (Extract(path, dec).None? <==> fps != 0.0 && -1.0 < fps < 1.0 && |DecodedRun(dec.video.frames)| > 0)
    ensures KindOf(path) == MotionVideo && dec.video.isOpen && Extract(path, dec).Some? ==>
      var n := |DecodedRun(dec.video.frames)|;
      var step := FrameStep(dec.video.fps);
      var r := Extract(path, dec).value;
      (|r| - 1) * step < n <= |r| * step &&
      forall k :: 0 <= k < |r| ==> r[k].frameIndex == k * step
  {
    ExtractionCorrected(path, dec);
    FractionalFpsOnly(dec.video.fps);
    if KindOf(path) == MotionVideo && dec.video.isOpen {
      PerSecondShape(DecodedRun(dec.video.frames), FrameStep(dec.video.fps));
    }
  }

  /** One more decoded frame: the rule as written on the first n + 1 frames. */
  lemma AsWrittenStep(frames: seq<Frame>, n: nat, fps: real)
    requires n < |frames|
    ensures PerSecondAsWritten(frames[..n + 1], fps) ==
      match PerSecondAsWritten(frames[..n], fps)
      case None => None
      case Some(before) =>
        match KeepAsWritten(n, fps)
        case None => None
        case Some(keep) => Some(before + (if keep then [Sample(n, frames[n])] else []))
  {
    assert frames[..n + 1][..n] == frames[..n];
  }

  /** The `while cap.isOpened()` loop over an open video: read until a read fails, testing each frame. */
  method SampleVideo(v: Video) returns (sampled: Option<seq<Sample>>)
    ensures sampled == PerSecondAsWritten(DecodedRun(v.frames), v.fps)
  {
    var fps := v.fps;
    ghost var run := DecodedRun(v.frames);
    var images: seq<Sample> := [];
    var frameCount := 0;
    var done := false;
    while !done
      invariant 0 <= frameCount <= |run|
      invariant done ==> frameCount == |run|
      invariant PerSecondAsWritten(run[..frameCount], fps) == Some(images)
      decreases |run| - frameCount, !done
    {
      var ret := ReadAt(v, frameCount);
      if ret.None? {
        done := true;
      } else {
        assert frameCount < |run| && ret.value == run[frameCount];
        AsWrittenStep(run, frameCount, fps);
        var keep := KeepAsWritten(frameCount, fps);
        if keep.None? {
          PerSecondAsWrittenAgrees(run, fps);
          return None;
        }
        ghost var before := images;
        if keep.value {
          images := images + [Sample(frameCount, ret.value)];
        }
        assert images == before + (if keep.value then [Sample(frameCount, run[frameCount])] else []);
        frameCount := frameCount + 1;
      }
    }
    assert run[..frameCount] == run;
    sampled := Some(images);
  }

  /** `extract_images_from_media(file_path)`; None is the ZeroDivisionError of the per-second test. */
  method ExtractImagesFromMedia(path: string, dec: Decoders) returns (extracted: Option<seq<Sample>>)
    ensures extracted == Extract(path, dec)
    ensures extracted.None? <==> RaisesOnFps(path, dec)
    ensures extracted.Some? ==> extracted.value == ExpectedSamples(path, dec)
  {
    ExtractionCorrected(path, dec);
    var kind := KindOf(path);
    if kind == StillImage {
      if dec.still.Some? {
        extracted := Some([Sample(0, dec.still.value)]);
      } else {
        extracted := Some([]);
      }
    } else if kind == MotionVideo {
      if !dec.video.isOpen {
        return Some([]);
      }
      extracted := SampleVideo(dec.video);
    } else {
      return Some([]);
    }
  }
}
