/** The worker's analysis of one video (VideoAnalysisService): pick a sampling
    interval from the duration, extract frames at that interval, decode every
    frame and turn each decoded string into a detection stamped with the
    frame's number and time. Frame extraction and decoding are collaborators,
    given here as functions. */
module VideoAnalysis {
  import opened Wrappers
  import opened Exceptions
  import opened Contracts
  import Paths

  const TicksPerSecond: int := 10_000_000
  const TicksPerMinute: int := 60 * TicksPerSecond

  /** Media metadata from the frame-sampling collaborator. */
  datatype VideoInfo = VideoInfo(durationTicks: int, width: int, height: int)

  /** Reads the metadata of a video file, or throws. */
  type Probe = string -> Result<VideoInfo, Exception>

  /** Extracts frames of (video path, output directory) at an interval in
      seconds, returning the frame image paths in order, or throws. */
  type FrameExtractor = (string, string, real) -> Result<seq<string>, Exception>

  /** Decodes every code in one frame image, in the decoder's order, or throws. */
  type Decoder = string -> Result<seq<string>, Exception>

  /** `TimeSpan.TotalMinutes`. */
  function TotalMinutes(durationTicks: int): real {
    durationTicks as real / TicksPerMinute as real
  }

  /** The sampling interval, in seconds, for a video of the given duration. */
  function FrameInterval(durationTicks: int): (interval: real)
    ensures interval == 0.5 || interval == 1.0 || interval == 2.0 || interval == 5.0
  {
    var minutes := TotalMinutes(durationTicks);
    if minutes <= 1.0 then 0.5
    else if minutes <= 5.0 then 1.0
    else if minutes <= 15.0 then 2.0
    else 5.0
  }

  /** The four tiers, in seconds; each upper bound belongs to its tier. */
  lemma {:induction false} FrameIntervalTiers(durationTicks: int)
    ensures durationTicks <= 60 * TicksPerSecond ==> FrameInterval(durationTicks) == 0.5
    ensures 60 * TicksPerSecond < durationTicks <= 300 * TicksPerSecond ==> FrameInterval(durationTicks) == 1.0
    ensures 300 * TicksPerSecond < durationTicks <= 900 * TicksPerSecond ==> FrameInterval(durationTicks) == 2.0
    ensures 900 * TicksPerSecond < durationTicks ==> FrameInterval(durationTicks) == 5.0
  {
  }

  /** Longer videos are never sampled more densely than shorter ones. */
  lemma {:induction false} FrameIntervalMonotone(shorter: int, longer: int)
    requires shorter <= longer
    ensures FrameInterval(shorter) <= FrameInterval(longer)
  {
  }

  /** The detections of a frame whose decoding succeeded: one per decoded string,
      in the decoder's order, each stamped with the frame's number, time and path. */
  function FrameDetections(codes: seq<string>, frameNumber: nat, interval: real, framePath: string): (ds: seq<QrCodeDetection>)
    ensures |ds| == |codes|
  {
    if codes == [] then []
    else
      FrameDetections(codes[..|codes| - 1], frameNumber, interval, framePath)
      + [QrCodeDetection(codes[|codes| - 1], frameNumber as real * interval, frameNumber, framePath)]
  }

  /** The j-th detection of a frame is its j-th decoded string: no string is
      dropped, merged or reordered. */
  lemma {:induction false} FrameDetectionsAt(codes: seq<string>, frameNumber: nat, interval: real, framePath: string)
    ensures forall j :: 0 <= j < |codes| ==>
              FrameDetections(codes, frameNumber, interval, framePath)[j]
              == QrCodeDetection(codes[j], frameNumber as real * interval, frameNumber, framePath)
    decreases |codes|
  {
    if codes != [] {
      var init := codes[..|codes| - 1];
      FrameDetectionsAt(init, frameNumber, interval, framePath);
      var ds := FrameDetections(codes, frameNumber, interval, framePath);
      forall j | 0 <= j < |ds|
        ensures ds[j] == QrCodeDetection(codes[j], frameNumber as real * interval, frameNumber, framePath)
      {
        if j < |codes| - 1 {
          assert codes[j] == init[j];
        }
      }
    }
  }

  /** What one frame contributes: its detections, or nothing when decoding throws. */
  function FrameContribution(framePath: string, frameNumber: nat, interval: real, decode: Decoder): seq<QrCodeDetection> {
    match decode(framePath)
    case Failure(_) => []
    case Success(codes) => FrameDetections(codes, frameNumber, interval, framePath)
  }

  /** How many strings the frames decode to, counting failed frames as none. */
  function DecodedCount(frames: seq<string>, decode: Decoder): nat {
    if frames == [] then 0
    else (match decode(frames[0]) case Failure(_) => 0 case Success(codes) => |codes|)
         + DecodedCount(frames[1..], decode)
  }

  /** The detections of `frames` when the first of them is frame number `first`:
      each frame's contribution, in frame order. */
  function DetectionsFrom(frames: seq<string>, first: nat, interval: real, decode: Decoder): seq<QrCodeDetection>
    decreases |frames|
  {
    if frames == [] then []
    else FrameContribution(frames[0], first, interval, decode) + DetectionsFrom(frames[1..], first + 1, interval, decode)
  }

  /** `d` came from one of `frames` (numbered from `first`): its number locates its
      frame, its time is number times interval, and its content is one of the
      strings that frame decoded to. */
  predicate Stamped(d: QrCodeDetection, frames: seq<string>, first: nat, interval: real, decode: Decoder) {
    && first <= d.frameNumber < first + |frames|
    && d.framePath == frames[d.frameNumber - first]
    && d.timestampSeconds == d.frameNumber as real * interval
    && decode(d.framePath).Success?
    && d.content in decode(d.framePath).value
  }

  /** Every detection of `ds` came from one of `frames`. */
  predicate AllStamped(ds: seq<QrCodeDetection>, frames: seq<string>, first: nat, interval: real, decode: Decoder) {
    forall j :: 0 <= j < |ds| ==> Stamped(ds[j], frames, first, interval, decode)
  }

  /** Every detection is stamped with its own frame's number, time and path, and
      there is one per decoded string. */
  lemma {:induction false} DetectionsStamped(frames: seq<string>, first: nat, interval: real, decode: Decoder)
    ensures |DetectionsFrom(frames, first, interval, decode)| == DecodedCount(frames, decode)
    ensures AllStamped(DetectionsFrom(frames, first, interval, decode), frames, first, interval, decode)
    decreases |frames|
  {
    if frames != [] {
      var head := FrameContribution(frames[0], first, interval, decode);
      var tail := DetectionsFrom(frames[1..], first + 1, interval, decode);
      DetectionsStamped(frames[1..], first + 1, interval, decode);
      if decode(frames[0]).Success? {
        FrameDetectionsAt(decode(frames[0]).value, first, interval, frames[0]);
      }
      var ds := head + tail;
      forall j | 0 <= j < |ds| ensures Stamped(ds[j], frames, first, interval, decode) {
        if j < |head| {
          assert ds[j] == head[j];
        } else {
          var d := tail[j - |head|];
          assert Stamped(d, frames[1..], first + 1, interval, decode);
          assert frames[1..][d.frameNumber - first - 1] == frames[d.frameNumber - first];
        }
      }
    }
  }

  /** Every detection a frame contributes carries that frame's number. */
  lemma {:induction false} ContributionNumbered(framePath: string, frameNumber: nat, interval: real, decode: Decoder)
    ensures forall d :: d in FrameContribution(framePath, frameNumber, interval, decode) ==> d.frameNumber == frameNumber
  {
    if decode(framePath).Success? {
      var ds := FrameDetections(decode(framePath).value, frameNumber, interval, framePath);
      FrameDetectionsAt(decode(framePath).value, frameNumber, interval, framePath);
      assert forall k :: 0 <= k < |ds| ==> ds[k].frameNumber == frameNumber;
    }
  }

  /** No detection is numbered before the first frame. */
  lemma {:induction false} FrameNumbersFrom(frames: seq<string>, first: nat, interval: real, decode: Decoder)
    ensures forall d :: d in DetectionsFrom(frames, first, interval, decode) ==> first <= d.frameNumber
    decreases |frames|
  {
    if frames != [] {
      var head := FrameContribution(frames[0], first, interval, decode);
      var tail := DetectionsFrom(frames[1..], first + 1, interval, decode);
      FrameNumbersFrom(frames[1..], first + 1, interval, decode);
      ContributionNumbered(frames[0], first, interval, decode);
      assert forall d :: d in head ==> d.frameNumber == first;
    }
  }

  /** Frame numbers never go down along `ds`. */
  predicate InFrameOrder(ds: seq<QrCodeDetection>) {
    forall i, j :: 0 <= i < j < |ds| ==> ds[i].frameNumber <= ds[j].frameNumber
  }

  /** Detections come out in frame order. */
  lemma {:induction false} DetectionsInFrameOrder(frames: seq<string>, first: nat, interval: real, decode: Decoder)
    ensures InFrameOrder(DetectionsFrom(frames, first, interval, decode))
    decreases |frames|
  {
    if frames != [] {
      var head := FrameContribution(frames[0], first, interval, decode);
      var tail := DetectionsFrom(frames[1..], first + 1, interval, decode);
      DetectionsInFrameOrder(frames[1..], first + 1, interval, decode);
      FrameNumbersFrom(frames[1..], first + 1, interval, decode);
      ContributionNumbered(frames[0], first, interval, decode);
      var ds := head + tail;
      forall i, j | 0 <= i < j < |ds| ensures ds[i].frameNumber <= ds[j].frameNumber {
        if j < |head| {
          assert ds[i] == head[i] && ds[j] == head[j];
          assert ds[i] in head && ds[j] in head;
          assert ds[i].frameNumber == first && ds[j].frameNumber == first;
        } else if i < |head| {
          assert ds[i] == head[i] && ds[j] == tail[j - |head|];
          assert ds[i] in head && ds[j] in tail;
          assert ds[i].frameNumber == first && ds[j].frameNumber >= first + 1;
        } else {
          assert ds[i] == tail[i - |head|] && ds[j] == tail[j - |head|];
          assert tail[i - |head|].frameNumber <= tail[j - |head|].frameNumber;
        }
      }
    }
  }

  /** Analysing two runs of frames back to back is analysing each, the second
      numbered from where the first stopped. */
  lemma {:induction false} DetectionsAppend(a: seq<string>, b: seq<string>, first: nat, interval: real, decode: Decoder)
    ensures DetectionsFrom(a + b, first, interval, decode)
            == DetectionsFrom(a, first, interval, decode) + DetectionsFrom(b, first + |a|, interval, decode)
    decreases |a|
  {
    if a == [] {
      assert a + b == b;
    } else {
      assert (a + b)[0] == a[0];
      assert (a + b)[1..] == a[1..] + b;
      DetectionsAppend(a[1..], b, first + 1, interval, decode);
      DetectionsUnfold(a + b, first, interval, decode);
      DetectionsUnfold(a, first, interval, decode);
    }
  }

  /** The output is, in frame order, the earlier frames' detections, frame i's
      own, and the later frames' detections numbered from i + 1. */
  lemma {:induction false} FrameDecomposition(frames: seq<string>, i: nat, interval: real, decode: Decoder)
    requires i < |frames|
    ensures DetectionsFrom(frames, 0, interval, decode)
            == DetectionsFrom(frames[..i], 0, interval, decode)
               + FrameContribution(frames[i], i, interval, decode)
               + DetectionsFrom(frames[i + 1..], i + 1, interval, decode)
  {
    var pre, rest := frames[..i], frames[i..];
    assert frames == pre + rest;
    DetectionsAppend(pre, rest, 0, interval, decode);
    DetectionsUnfold(rest, i, interval, decode);
    assert rest[0] == frames[i];
    assert rest[1..] == frames[i + 1..];
  }

  /** One step of `DetectionsFrom`: the first frame, then the rest. */
  lemma {:induction false} DetectionsUnfold(frames: seq<string>, first: nat, interval: real, decode: Decoder)
    requires frames != []
    ensures DetectionsFrom(frames, first, interval, decode)
            == FrameContribution(frames[0], first, interval, decode) + DetectionsFrom(frames[1..], first + 1, interval, decode)
  {
  }

  /** A frame whose decoding throws contributes nothing, and the frames after
      it keep their own numbers. */
  lemma {:induction false} FailedFrameSkipped(frames: seq<string>, i: nat, interval: real, decode: Decoder)
    requires i < |frames| && decode(frames[i]).Failure?
    ensures DetectionsFrom(frames, 0, interval, decode)
            == DetectionsFrom(frames[..i], 0, interval, decode) + DetectionsFrom(frames[i + 1..], i + 1, interval, decode)
  {
    FrameDecomposition(frames, i, interval, decode);
  }

  /** The inner loop of `AnalyzeVideoAsync`: one detection per decoded string. */
  method DetectInFrame(codes: seq<string>, frameNumber: nat, interval: real, framePath: string)
    returns (detections: seq<QrCodeDetection>)
    ensures detections == FrameDetections(codes, frameNumber, interval, framePath)
  {
    detections := [];
    for j := 0 to |codes|
      invariant detections == FrameDetections(codes[..j], frameNumber, interval, framePath)
    {
      assert codes[..j + 1][..j] == codes[..j];
      detections := detections + [QrCodeDetection(codes[j], frameNumber as real * interval, frameNumber, framePath)];
    }
    assert codes[..|codes|] == codes;
  }

  /** The frame loop of `AnalyzeVideoAsync`: a frame counter that advances on
      every frame, whether or not its decoding threw. */
  method AnalyzeFrames(frames: seq<string>, interval: real, decode: Decoder) returns (detections: seq<QrCodeDetection>)
    ensures detections == DetectionsFrom(frames, 0, interval, decode)
  {
    detections := [];
    var frameNumber: nat := 0;
    for i := 0 to |frames|
      invariant frameNumber == i
      invariant detections == DetectionsFrom(frames[..i], 0, interval, decode)
    {
      var framePath := frames[i];
      var found: seq<QrCodeDetection> := [];
      var decoded := decode(framePath);
      if decoded.Success? {
        found := DetectInFrame(decoded.value, frameNumber, interval, framePath);
      }
      assert found == FrameContribution(framePath, frameNumber, interval, decode);
      NextFrame(frames, i, interval, decode);
      detections := detections + found;
      frameNumber := frameNumber + 1;
    }
    assert frames[..|frames|] == frames;
  }

  /** One more frame extends the detections by that frame's contribution. */
  lemma {:induction false} NextFrame(frames: seq<string>, i: nat, interval: real, decode: Decoder)
    requires i < |frames|
    ensures DetectionsFrom(frames[..i + 1], 0, interval, decode)
            == DetectionsFrom(frames[..i], 0, interval, decode) + FrameContribution(frames[i], i, interval, decode)
  {
    assert frames[..i + 1] == frames[..i] + [frames[i]];
    DetectionsAppend(frames[..i], [frames[i]], 0, interval, decode);
    assert DetectionsFrom([frames[i]], i, interval, decode) == FrameContribution(frames[i], i, interval, decode) by {
      assert [frames[i]][1..] == [];
    }
  }

  /** `AnalyzeVideoAsync`: metadata and extraction failures propagate; an empty
      frame list is an empty (successful) result; otherwise the frame loop's
      detections. `tempPath` stands for `Path.GetTempPath()`. */
  method AnalyzeVideo(videoFilePath: string, videoId: string, tempPath: string,
                      probe: Probe, extract: FrameExtractor, decode: Decoder)
    returns (r: Result<seq<QrCodeDetection>, Exception>)
    ensures probe(videoFilePath).Failure? ==> r == Failure(probe(videoFilePath).error)
    ensures probe(videoFilePath).Success? ==>
              var interval := FrameInterval(probe(videoFilePath).value.durationTicks);
              match extract(videoFilePath, FramesDirectory(tempPath, videoId), interval)
              case Failure(e) => r == Failure(e)
              case Success(frames) => r == Success(DetectionsFrom(frames, 0, interval, decode))
  {
    var info := probe(videoFilePath);
    if info.Failure? {
      return Failure(info.error);
    }
    var outputDirectory := FramesDirectory(tempPath, videoId);
    var frameInterval := FrameInterval(info.value.durationTicks);
    var extracted := extract(videoFilePath, outputDirectory, frameInterval);
    if extracted.Failure? {
      return Failure(extracted.error);
    }
    var frames := extracted.value;
    if |frames| == 0 {
      return Success([]);
    }
    var detections := AnalyzeFrames(frames, frameInterval, decode);
    return Success(detections);
  }

  /** The per-video scratch directory the frames are extracted into. */
  function FramesDirectory(tempPath: string, videoId: string): string {
    Paths.Combine(Paths.Combine(tempPath, "VideoQRFrames"), videoId)
  }
}
