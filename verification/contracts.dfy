/** The messages exchanged between the API and the worker, and the response
    shapes the API returns. */
module Contracts {
  import opened Wrappers

  /** A `DateTime`, as ticks. Every `DateTime.UtcNow` of the source is an
      `Instant` parameter here. */
  type Instant = int

  /** One decoded code in one sampled frame. */
  datatype QrCodeDetection = QrCodeDetection(
    content: string,
    timestampSeconds: real,
    frameNumber: int,
    framePath: string)

  /** The worker's result for one video. The detection list is a reference that
      a deserialised message may leave null, hence the `Option`. */
  datatype CompletedEvent = CompletedEvent(
    videoId: string,
    completedAt: Instant,
    detections: Option<seq<QrCodeDetection>>)

  /** A status transition for one video. */
  datatype ProcessingStatusEvent = ProcessingStatusEvent(
    videoId: string,
    status: string,
    updatedAt: Instant,
    message: Option<string>)

  /** Published once an upload has been stored. */
  datatype VideoUploadedEvent = VideoUploadedEvent(
    videoId: string,
    filePath: string,
    uploadedAt: Instant)

  /** What the ingest call returns to the uploader. */
  datatype VideoUploadResult = VideoUploadResult(
    videoId: string,
    status: string,
    filePath: string)

  datatype VideoStatusResponse = VideoStatusResponse(
    videoId: string,
    status: string,
    message: Option<string>,
    updatedAt: Instant)

  datatype QrCodeDetectionResponse = QrCodeDetectionResponse(
    content: string,
    frameNumber: int,
    timestampSeconds: real,
    framePath: Option<string>)

  datatype VideoResultsResponse = VideoResultsResponse(
    videoId: string,
    status: string,
    completedAt: Option<Instant>,
    message: Option<string>,
    detections: seq<QrCodeDetectionResponse>)

  const Queued := "Queued"
  const Completed := "Completed"
}
