/** What the codecs report about a media file, abstracted from cv2 and PIL. */
module Media {
  import opened Wrappers

  /** A decoded picture; cropping needs its size, nothing here inspects its pixels. */
  datatype Frame = Frame(height: nat, width: nat, pixels: seq<int>)

  /**
   * A video as `cv2.VideoCapture` presents it: whether it opened, the
   * CAP_PROP_FPS and CAP_PROP_FRAME_COUNT it reports, and the result of
   * decoding each frame position in turn (None: `read()` returned False).
   */
  datatype Video = Video(isOpen: bool, fps: real, frameCount: int, frames: seq<Option<Frame>>)

  /** `cap.set(CAP_PROP_POS_FRAMES, i)` then `cap.read()`; past the end every read fails. */
  function ReadAt(v: Video, i: int): Option<Frame>
  {
    if 0 <= i < |v.frames| then v.frames[i] else None
  }
}
