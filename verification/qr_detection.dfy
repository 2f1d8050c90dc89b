/** `DetectMultipleQrCodesAsync`: the input checks around the decoder and
    the collection of its results. File existence and the decoder (image
    loading plus ZXing's multi-code reader) are supplied by the caller. */
module QrDetection {
  import opened Wrappers
  import opened Exceptions
  import opened Text
  import opened Contracts
  import VideoAnalysis

  const EmptyPathMessage := "Image path cannot be null or empty."
  const NotFoundPrefix := "Image file not found: "

  /** `File.Exists`. */
  type FileProbe = string -> bool

  /** Load the image and run the multi-code reader: the texts of the codes
      found, in the reader's order, or no result array at all. */
  type MultiReader = string -> Result<Option<seq<string>>, Exception>

  /** Checks the path, then collects one text per decoder result; a missing
      or empty result array gives no codes. Failures of the reader are
      rethrown unchanged. */
  function DetectMultipleQrCodes(imagePath: Option<string>, fileExists: FileProbe, read: MultiReader): (r: Result<seq<string>, Exception>)
    ensures IsNullOrWhiteSpace(imagePath) ==> r == Failure(ArgumentException(EmptyPathMessage))
    ensures !IsNullOrWhiteSpace(imagePath) && !fileExists(imagePath.value) ==>
              r == Failure(FileNotFoundException(NotFoundPrefix + imagePath.value))
    ensures !IsNullOrWhiteSpace(imagePath) && fileExists(imagePath.value) ==>
              match read(imagePath.value)
              case Failure(e) => r == Failure(e)
              case Success(None) => r == Success([])
              case Success(Some(texts)) => r == Success(texts)
  {
    if IsNullOrWhiteSpace(imagePath) then Failure(ArgumentException(EmptyPathMessage))
    else if !fileExists(imagePath.value) then Failure(FileNotFoundException(NotFoundPrefix + imagePath.value))
    else
      match read(imagePath.value)
      case Failure(e) => Failure(e)
      case Success(found) => Success(found.GetOr([]))
  }

  /** The detector as the frame loop sees it. */
  function AsDecoder(fileExists: FileProbe, read: MultiReader): VideoAnalysis.Decoder {
    (framePath: string) => DetectMultipleQrCodes(Some(framePath), fileExists, read)
  }

  /** Wired into the frame loop, a frame whose file is missing, or whose
      path is blank, contributes no detections. */
  lemma {:induction false} MissingFrameContributesNothing(frames: seq<string>, i: nat, interval: real,
                                       fileExists: FileProbe, read: MultiReader)
    requires i < |frames|
    requires IsNullOrWhiteSpace(Some(frames[i])) || !fileExists(frames[i])
    ensures VideoAnalysis.FrameContribution(frames[i], i, interval, AsDecoder(fileExists, read)) == []
  {
  }
  /** Wired into the frame loop, a frame the reader decodes contributes one
      detection per text the reader found, in the reader's order, each
      stamped with the frame's number, time and path; a frame the reader
      fails on, or finds no result array in, contributes nothing. */
  lemma {:induction false} FoundFrameContributes(frames: seq<string>, i: nat, interval: real,
                                                 fileExists: FileProbe, read: MultiReader)
    requires i < |frames|
    requires !IsNullOrWhiteSpace(Some(frames[i])) && fileExists(frames[i])
    ensures read(frames[i]).Success? && read(frames[i]).value.Some? ==>
              var texts := read(frames[i]).value.value;
              && |VideoAnalysis.FrameContribution(frames[i], i, interval, AsDecoder(fileExists, read))| == |texts|
              && forall j :: 0 <= j < |texts| ==>
                   VideoAnalysis.FrameContribution(frames[i], i, interval, AsDecoder(fileExists, read))[j]
                   == QrCodeDetection(texts[j], i as real * interval, i, frames[i])
    ensures read(frames[i]).Failure? || read(frames[i]).value.None? ==>
              VideoAnalysis.FrameContribution(frames[i], i, interval, AsDecoder(fileExists, read)) == []
  {
    match read(frames[i])
    case Success(Some(texts)) =>
      VideoAnalysis.FrameDetectionsAt(texts, i, interval, frames[i]);
    case _ =>
  }
}
