# VideoQRCodeReader — a Dafny model of its core

VideoQRCodeReader takes an uploaded video and samples frames from it at an
interval that depends on the video's length. It finds the QR codes in each
frame, stores the detections with a status message, and answers status and
results queries. An Angular page uploads the file, shows the upload progress
and lists the distinct codes it finds.

This project models the parts of that system that are logic rather than
plumbing:

- **Frame-sampling aggregation** (`VideoAnalysis`):
  - the duration-tiered interval table;
  - the frame loop that turns decoded strings into detections. A frame whose
    decoding throws is skipped but still counted.
- **QR detection around the decoder** (`QrDetection`): the path checks and
  the collection of the decoder's texts.
- **Pixel buffers** (`PixelBuffer`):
  - flattening an RGB image;
  - the row and matrix reads of `RgbLuminanceSource`;
  - building a source back from grey levels.
  The grey-level weighting is a parameter `lum`.
- **The job stores**:
  - the in-memory store (`InMemoryStatus`);
  - the Mongo status collection (`StatusCollection`);
  - the Mongo results collection (`ResultsCollection`);
  - the completion message built from distinct contents (`CompletionSummary`);
  - the two API consumers (`Consumers`).
- **Query reconciliation** (`VideoQuery`): completed results win; otherwise
  the status is shown with an empty list; otherwise nothing is found.
- **Ingest** (`VideoUpload`, `FileStorage`):
  - validation, then save, then publish, as an effect trace;
  - the "Queued" answer;
  - the `<videoId>_<last path segment>` file name.
- **The domain `Video`** (`DomainVideo`):
  - validity, the format check and the resolution text;
  - the `FormatFileSize` division loop.
- **The page's pure logic**:
  - `uniqueQrCodes` and `validateFile` (`UploadComponent`);
  - the upload-progress mapping (`UploadProgress`).

Shared helpers:

- `Wrappers` holds `Option`, `Result` and `Outcome`.
- `Exceptions` holds the .NET exception kinds the code throws.
- `Text` holds whitespace tests, integer rendering and parsing, and ASCII
  lower-casing.
- `Paths` holds `Path.GetFileName`, `GetExtension` and `Combine` with '/' as
  the separator.
- `Sequences` holds distinctness and cardinality.
- `BsonDates` holds what MongoDB does to a stored `DateTime`. A BSON date
  counts whole milliseconds from the Unix epoch, so a stored time reads back
  truncated to the millisecond.

Modelling conventions:

- `DateTime.UtcNow` becomes an `Instant` (ticks) parameter.
- A new GUID becomes a fresh-id parameter.
- `null` becomes `Option`.
- Exceptions become `Result` or `Outcome` values.
- Collaborators are function-valued parameters. These are the video probe,
  frame extraction, the decoder, `File.Exists`, storage and the message bus.

Behaviour of the code worth knowing:

- Ingest writes no initial "Queued" status record. The only outputs are the
  saved file and the published event (`VideoUpload.ProcessUpload`).
- A video with no extracted frames gives an empty successful result, not a
  failure (`VideoAnalysis.AnalyzeVideo`).
- Status updates are applied in delivery order. The consumer drops the
  event's own `UpdatedAt` and the store stamps its clock, so no
  "newest wins" rule exists (`Consumers.DeliveryOrderWins`).
- Nothing shown publishes `ProcessingStatusEvent` or `CompletedEvent`. The
  worker's consumer only logs. The consumers are modelled as calls into the
  stores.
- The page and the server accept different content types. MP4 is the only
  type that passes both checks (`UploadComponent.ClientAndServerTypesDiffer`).

## Model

| member | source | states |
|---|---|---|
| VideoAnalysis.FrameInterval | VideoQRCodeReader.Application/Services/VideoAnalysisService.cs:120-129 | the sampling interval is always one of 0.5, 1, 2 or 5 seconds |
| VideoAnalysis.FrameIntervalTiers | VideoQRCodeReader.Application/Services/VideoAnalysisService.cs:122-128 | up to 1 minute gives 0.5 s, up to 5 minutes 1 s, up to 15 minutes 2 s, longer 5 s, with each bound inclusive |
| VideoAnalysis.FrameIntervalMonotone | VideoQRCodeReader.Application/Services/VideoAnalysisService.cs:122-128 | a longer video never gets a shorter interval |
| VideoAnalysis.FrameDetectionsAt | VideoQRCodeReader.Application/Services/VideoAnalysisService.cs:63-73 | a frame yields one detection per decoded string, in decoder order; each carries that string, the frame number, number × interval as its time and the frame's path |
| VideoAnalysis.DetectionsStamped | VideoQRCodeReader.Application/Services/VideoAnalysisService.cs:57-85 | the output has exactly as many detections as the successful frames decoded strings (no dedup); each names the frame it came from, has time = frame number × interval, and holds a string that frame decoded to |
| VideoAnalysis.DetectionsInFrameOrder | VideoQRCodeReader.Application/Services/VideoAnalysisService.cs:57-85 | detections come out in non-decreasing frame order |
| VideoAnalysis.DetectionsAppend | VideoQRCodeReader.Application/Services/VideoAnalysisService.cs:55-85 | the detections of two consecutive runs of frames are those of the first run followed by those of the second, numbered on from where the first stopped |
| VideoAnalysis.FrameDecomposition | VideoQRCodeReader.Application/Services/VideoAnalysisService.cs:55-85 | frame i is numbered i whatever happened to earlier frames: the output is the earlier frames' detections, frame i's own, then the later frames' numbered from i + 1 |
| VideoAnalysis.FailedFrameSkipped | VideoQRCodeReader.Application/Services/VideoAnalysisService.cs:59-84 | a frame whose decoding throws contributes nothing and does not change the detections or numbers of the other frames |
| VideoAnalysis.DetectInFrame | VideoQRCodeReader.Application/Services/VideoAnalysisService.cs:63-76 | the inner loop builds exactly the frame's detections |
| VideoAnalysis.AnalyzeFrames | VideoQRCodeReader.Application/Services/VideoAnalysisService.cs:54-85 | the frame loop, with its counter bumped on every iteration, builds the reference detections of all frames numbered from 0 |
| VideoAnalysis.AnalyzeVideo | VideoQRCodeReader.Application/Services/VideoAnalysisService.cs:23-114 | a failing metadata probe or frame extraction is rethrown unchanged; an empty frame list gives an empty success; otherwise the result is the frame loop's detections at the tiered interval |
| QrDetection.DetectMultipleQrCodes | VideoQRCodeReader.Infrastructure/Services/QrCodeDetectionService.cs:75-132 | a null or blank path fails with ArgumentException, a missing file with FileNotFoundException naming the path; otherwise the decoder's texts in order, an empty list when it has no results, and its failure rethrown |
| QrDetection.MissingFrameContributesNothing | VideoQRCodeReader.Infrastructure/Services/QrCodeDetectionService.cs:80-84 | used as the frame loop's decoder, a frame with a blank path or no file contributes no detections |
| QrDetection.FoundFrameContributes | VideoQRCodeReader.Infrastructure/Services/QrCodeDetectionService.cs:108-131 | used as the frame loop's decoder, a readable frame contributes one detection per text the reader found, in the reader's order, stamped with the frame's number, time and path; a reader failure or a missing result array contributes nothing |
| PixelBuffer.GetImageBytes | VideoQRCodeReader.Infrastructure/Services/QrCodeDetectionService.cs:137-158 | the buffer has width × height × 3 bytes, row by row, and holds channel c of pixel (x, y) at (y × width + x) × 3 + c |
| PixelBuffer.ImageBytesLayout | VideoQRCodeReader.Infrastructure/Services/QrCodeDetectionService.cs:139-157 | the row-major reference layout puts channel c of pixel (x, y) at offset (y × width + x) × 3 + c |
| PixelBuffer.CopyRow | VideoQRCodeReader.Infrastructure/Services/QrCodeDetectionService.cs:147-153 | one row's pixels are written as R, G, B triples right after what was written before |
| PixelBuffer.GetRow | VideoQRCodeReader.Infrastructure/Services/QrCodeDetectionService.cs:175-192 | a null or short row buffer is replaced by a fresh one of exactly width entries, and a long enough one keeps its tail; entry x is the grey level of flat pixel y × width + x, the same value the matrix holds there, and every read stays inside the buffer |
| PixelBuffer.GetLuminanceArray | VideoQRCodeReader.Infrastructure/Services/QrCodeDetectionService.cs:208-222 | the matrix has width × height entries, and entry i is the grey level of bytes 3i, 3i + 1, 3i + 2 |
| PixelBuffer.CreateLuminanceSource | VideoQRCodeReader.Infrastructure/Services/QrCodeDetectionService.cs:194-206 | the new buffer has 3n bytes and triple i is (L, L, L) for the i-th grey level; the dimensions are passed through |
| PixelBuffer.GrayRoundTrip | VideoQRCodeReader.Infrastructure/Services/QrCodeDetectionService.cs:194-222 | reading a grey-level source back gives each original level or one less, whenever the weighting maps (v, v, v) to v or v − 1, as the truncated floating-point weighting does |
| PixelBuffer.ImageSourcePixel | VideoQRCodeReader.Infrastructure/Services/QrCodeDetectionService.cs:104 | a source built from an image's bytes covers its pixels, and its grey level at y × width + x is the weighting of pixel (x, y)'s own channels |
| InMemoryStatus.UpdateStatus | VideoQRCodeReader.Infrastructure/Services/InMemoryVideoStatusService.cs:12-25 | afterwards the id's status is exactly (id, status, now, message); every other id's status and the whole results map are unchanged |
| InMemoryStatus.StoreCompletedResults | VideoQRCodeReader.Infrastructure/Services/InMemoryVideoStatusService.cs:33-54 | the event is stored under its id first; with a detection list the status becomes "Completed" with the distinct-content message; with none the call fails with ArgumentNullException after storing, and no status is written |
| InMemoryStatus.UpdateStatusIdempotent | VideoQRCodeReader.Infrastructure/Services/InMemoryVideoStatusService.cs:22 | repeating an update leaves the same store as doing it once at the later time |
| InMemoryStatus.StoreCompletedIdempotent | VideoQRCodeReader.Infrastructure/Services/InMemoryVideoStatusService.cs:33-54 | storing the same event twice leaves the same state and outcome as storing it once at the later time |
| InMemoryStatus.KeyedByOwnIdPreserved | VideoQRCodeReader.Infrastructure/Services/InMemoryVideoStatusService.cs:12-54 | every record is filed under its own video id, from the empty store on, through both writes |
| CompletionSummary.GroupKeys | VideoQRCodeReader.Infrastructure/Services/InMemoryVideoStatusService.cs:37-39 | the group keys are distinct, are exactly the contents present, and are never more than the detections |
| CompletionSummary.UniqueCountIsDistinctContents | VideoQRCodeReader.Infrastructure/Services/VideoResultsService.cs:41-43 | the unique count is the number of distinct contents, at most the raw count, and zero exactly when there are no detections |
| CompletionSummary.CompletionMessageInjective | VideoQRCodeReader.Infrastructure/Services/VideoResultsService.cs:45-53 | different counts give different messages, and the "no QR codes" message appears exactly for zero |
| CompletionSummary.DistinctNotRaw | VideoQRCodeReader.Infrastructure/Services/InMemoryVideoStatusService.cs:37-50 | three detections with two contents report "2 unique QR codes" |
| StatusCollection.UpdateStatus | VideoQRCodeReader.Infrastructure/Services/VideoStatusService.cs:17-32 | the upsert keyed by id makes the id read back as (id, status, now to the millisecond, message), adds only that key, and leaves other documents untouched |
| StatusCollection.UpdateStatusIdempotent | VideoQRCodeReader.Infrastructure/Services/VideoStatusService.cs:19-31 | repeating an update changes nothing but the clock stamp |
| StatusCollection.LastUpdateWins | VideoQRCodeReader.Infrastructure/Services/VideoStatusService.cs:28-31 | of two updates to one id, the later replaces the earlier entirely |
| ResultsCollection.ToDocument | VideoQRCodeReader.Infrastructure/Services/VideoResultsService.cs:21-32 | the document is keyed by the video id and always holds a list, empty for a null one |
| ResultsCollection.DocumentRoundTrip | VideoQRCodeReader.Infrastructure/Services/VideoResultsService.cs:21-79 | storing then reading gives back the id, the completion time truncated to the millisecond, and every detection with all four fields in order; a null list reads back as an empty one |
| ResultsCollection.StoreCompletedResults | VideoQRCodeReader.Infrastructure/Services/VideoResultsService.cs:19-56 | the results read back normalized (a null list as empty, the completion time to the millisecond), the status is stamped with the clock to the millisecond is "Completed" with the distinct-content message (a null list counts as 0), and every other id is untouched |
| ResultsCollection.ResultsWrittenBeforeStatus | VideoQRCodeReader.Infrastructure/Services/VideoResultsService.cs:35-55 | after the first write only the results are in place and the status is as before; the status write comes second |
| ResultsCollection.StoreCompletedIdempotent | VideoQRCodeReader.Infrastructure/Services/VideoResultsService.cs:35-38 | redelivering a completed event leaves the same database as delivering it once at the later time |
| BsonDates.Stored | VideoQRCodeReader.Infrastructure/Data/Documents/ProcessingStatusDocument.cs:15-16 | a `DateTime` stored as a BSON date reads back on a whole millisecond, less than one millisecond from the written instant, toward the epoch |
| BsonDates.StoredExactly | VideoQRCodeReader.Infrastructure/Data/Documents/CompletedEventDocument.cs:12-13 | a stored instant reads back unchanged exactly when it lies on a whole millisecond |
| BsonDates.StoredIdempotent | VideoQRCodeReader.Infrastructure/Data/Documents/CompletedEventDocument.cs:12-13 | storing a read-back instant again changes nothing |
| BsonDates.StoredMonotone | VideoQRCodeReader.Infrastructure/Data/Documents/ProcessingStatusDocument.cs:15-16 | storage never reverses the order of two instants |
| Consumers.DeliveryOrderWins | VideoQRCodeReader/Consumers/ProcessingStatusConsumer.cs:32-35 | the status consumer forwards only id, status and message, so a late-delivered older event overwrites a newer one and is stamped with the store's clock, to the millisecond |
| Consumers.CompletedRedeliveryIdempotent | VideoQRCodeReader/Consumers/CompletedEventConsumer.cs:29-32 | consuming a completed event twice equals consuming it once; with a null list the logging line throws before anything is stored |
| VideoQuery.ToResponses | VideoQRCodeReader.Application/Services/VideoQueryService.cs:55-61 | one response per detection, in order; response i carries detection i's content, frame number and timestamp, and its frame path as a non-null value |
| VideoQuery.ToResponsesAppend | VideoQRCodeReader.Application/Services/VideoQueryService.cs:55-61 | the mapping works item by item: the responses of a joined list are the two lists' responses joined |
| VideoQuery.GetVideoStatus | VideoQRCodeReader.Application/Services/VideoQueryService.cs:22-38 | a null or blank id gives null without a lookup; otherwise null exactly when the store has no record, else the record's id, status, message and time |
| VideoQuery.GetVideoResults | VideoQRCodeReader.Application/Services/VideoQueryService.cs:40-78 | a blank id gives null; null exactly when neither store knows the id; stored results are answered whatever the status says, as "Completed" with the stored id, the stored completion time, no message and every stored detection mapped field by field; a status alone gives that status, no detections, no completion time and "Video processing not yet completed"; the only failure is a null stored list |
| VideoQuery.StatusQueryAfterUpdate | VideoQRCodeReader.Application/Services/VideoQueryService.cs:27-37 | after a status update the status query mirrors the written id, status and message, and the clock reading truncated to the millisecond |
| VideoQuery.ResultsQueryAfterStore | VideoQRCodeReader.Application/Services/VideoQueryService.cs:45-62 | after storing results the results query reports them as "Completed", with the completion time to the millisecond and the stored detections |
| VideoQuery.RaceWindowClosed | VideoQRCodeReader.Application/Services/VideoQueryService.cs:45-68 | between the results write and the status write, a results query already reports "Completed" |
| FileStorage.SaveFile | VideoQRCodeReader.Infrastructure/Services/FileStorageService.cs:14-36 | a null or empty file fails with ArgumentException before any disk effect; a configured empty folder name (kept as is, since only a missing setting defaults to "uploads") makes the folder creation throw ArgumentException, also before any disk effect; otherwise the folder is created, then the file is written to the returned path, which is the folder combined with "<videoId>_<file name>"; these are the only failures |
| FileStorage.SavedDirectlyInFolder | VideoQRCodeReader.Infrastructure/Services/FileStorageService.cs:26-27 | for an id without separators and a non-empty folder, the stored name has no directory separator, whatever the client sent, and the file sits directly in the upload folder under that name, after one separator unless the folder already ends in one |
| VideoUpload.ValidateFile | VideoQRCodeReader.Application/Services/VideoUploadService.cs:51-60 | a file passes exactly when present with type video/mp4 or video/x-msvideo; null gives "File is required" and any other type "Invalid format. Use .mp4 or .avi" |
| VideoUpload.GuidHasNoSeparator | VideoQRCodeReader.Application/Services/VideoUploadService.cs:62-66 | a generated id never contains a directory separator |
| VideoUpload.ProcessUpload | VideoQRCodeReader.Application/Services/VideoUploadService.cs:21-49 | a rejected file causes no effect; otherwise the file is saved under the fresh id first; a save failure stops before publishing; success means the trace is exactly [save, publish], the event and answer carry the fresh id and the saved path, and the status is "Queued" |
| VideoUpload.PublishedEventMatchesResult | VideoQRCodeReader.Application/Services/VideoUploadService.cs:27-47 | any published event comes right after the save and carries the fresh id and the path storage returned |
| VideoUpload.EmptyAcceptedFileNotPublished | VideoQRCodeReader.Application/Services/VideoUploadService.cs:24-40 | with disk storage, an accepted but empty file fails in storage and nothing is published |
| VideoUpload.IngestStoresUnderGeneratedId | VideoQRCodeReader.Application/Services/VideoUploadService.cs:27-30 | with disk storage and a generated id, a successful ingest answers "Queued" with a path whose file name is "<id>_<last segment of the client name>" |
| Paths.GetFileName | VideoQRCodeReader.Infrastructure/Services/FileStorageService.cs:26 | the name has no separator and is the suffix after the last separator (the whole path when there is none) |
| Paths.GetExtension | VideoQRCodeReader.Domain/Models/Video.cs:24 | the extension starts at a '.' that is not last and after which there is no '.' or separator; it is empty exactly when no such '.' exists |
| Paths.Combine | VideoQRCodeReader.Infrastructure/Services/FileStorageService.cs:27 | an empty second part gives the first; a rooted second part replaces the first; otherwise it is appended to a non-empty first part, directly when the first ends in the separator and after one added separator when not; the result always ends with the second part |
| DomainVideo.FileExtension | VideoQRCodeReader.Domain/Models/Video.cs:24 | a non-empty extension starts with '.' and ends the file name |
| DomainVideo.ValidMeans | VideoQRCodeReader.Domain/Models/Video.cs:31-39 | valid exactly when id, file name and path are non-empty and duration, width and height are positive |
| DomainVideo.ProcessableImplies | VideoQRCodeReader.Domain/Models/Video.cs:41-44 | a processable video is valid, of a video format, and has a recorded path that exists |
| DomainVideo.VideoFormatMeans | VideoQRCodeReader.Domain/Models/Video.cs:46-50 | the format check holds exactly when the file name has an extension whose lower-cased form is .mp4, .avi, .mov, .mkv or .wmv |
| DomainVideo.VideoFormatIgnoresCase | VideoQRCodeReader.Domain/Models/Video.cs:49 | lower-casing the file name never changes the format check |
| DomainVideo.ResolutionRoundTrip | VideoQRCodeReader.Domain/Models/Video.cs:27 | the resolution text splits at its only 'x' back into width and height |
| DomainVideo.RoundAtLeastOne | VideoQRCodeReader.Domain/Models/Video.cs:58 | half-to-even rounding reaches 1 exactly above one half, so 0.5 itself rounds to 0 |
| DomainVideo.ScaleDown | VideoQRCodeReader.Domain/Models/Video.cs:55-62 | the loop stops at the smallest power of 1024 that brings the number to 512 or below, and the number is the size divided by that power |
| DomainVideo.FormatFileSize | VideoQRCodeReader.Domain/Models/Video.cs:52-65 | sizes up to 512 × 1024⁴ get the suffix of the smallest fitting unit, with the scaled number; larger sizes index past the five suffixes and fail with IndexOutOfRangeException |
| UploadComponent.UniqueQrCodes | VideoQRCodeReader.Client/video-qr-code-reader-client/src/app/components/video-upload/video-upload.component.ts:42-65 | no results or no detection list gives an empty list |
| UploadComponent.GroupInvariant | VideoQRCodeReader.Client/video-qr-code-reader-client/src/app/components/video-upload/video-upload.component.ts:47-60 | after each entry the map holds one entry per content seen so far, each the first with the smallest timestamp (strict comparison), in order of first sighting |
| UploadComponent.UniqueQrCodesSpec | VideoQRCodeReader.Client/video-qr-code-reader-client/src/app/components/video-upload/video-upload.component.ts:42-65 | exactly one entry per distinct content, each an unmodified input entry that is the earliest for its content (the first such on ties), sorted by timestamp |
| UploadComponent.UniqueQrCodesTies | VideoQRCodeReader.Client/video-qr-code-reader-client/src/app/components/video-upload/video-upload.component.ts:50-64 | entries with equal timestamps keep the map's order, which is the order their contents were first seen |
| UploadComponent.SortByTimestampSpec | VideoQRCodeReader.Client/video-qr-code-reader-client/src/app/components/video-upload/video-upload.component.ts:62-64 | the sort is non-decreasing by timestamp, a permutation, and stable |
| UploadComponent.ValidateFile | VideoQRCodeReader.Client/video-qr-code-reader-client/src/app/components/video-upload/video-upload.component.ts:231-252 | a file passes exactly when its type is video/mp4, video/avi, video/mov or video/quicktime and its size is at most 500 MiB; the type error is reported before the size error |
| UploadComponent.SizeLimitInclusive | VideoQRCodeReader.Client/video-qr-code-reader-client/src/app/components/video-upload/video-upload.component.ts:245-249 | exactly 500 × 1024 × 1024 bytes passes; one byte more is rejected with the size message |
| UploadComponent.ClientAndServerTypesDiffer | VideoQRCodeReader.Client/video-qr-code-reader-client/src/app/components/video-upload/video-upload.component.ts:233-242 | MP4 is the only content type that passes both the page's check and the server's; each side accepts a different AVI type |
| UploadProgress.JsRound | VideoQRCodeReader.Client/video-qr-code-reader-client/src/app/services/video.service.ts:51 | the rounded value lies within one half of its argument, with halves rounding up |
| UploadProgress.ToUpdate | VideoQRCodeReader.Client/video-qr-code-reader-client/src/app/services/video.service.ts:47-71 | upload progress with a non-zero total reports loaded, total and the percentage rounded from 100 × loaded / total; without one, total = loaded and 0 %; a response yields its body unchanged; any other event gives (0, 0, 0) |
| UploadProgress.PercentageBounds | VideoQRCodeReader.Client/video-qr-code-reader-client/src/app/services/video.service.ts:49-57 | with 0 ≤ loaded ≤ total the percentage is between 0 and 100, and exactly 100 when everything is sent |
| UploadProgress.PercentageMonotone | VideoQRCodeReader.Client/video-qr-code-reader-client/src/app/services/video.service.ts:51 | more bytes sent never shows a smaller percentage |

## Left out

- FileStorage.SaveFile: the message of the ArgumentException that
  `Directory.CreateDirectory` throws for an empty folder name is the current
  .NET runtime's text, which older runtimes word differently. Other disk
  failures of folder creation and of the write are not modelled.
- Message bus, SignalR, HTTP controller, MongoDB driver, dependency
  injection: these are wiring around foreign libraries. The collections are
  maps, and the consumers are direct calls into the stores.
- Image loading, ZXing decoding, FFmpeg probing and frame extraction, and
  `File.Exists`: these are foreign calls. They appear as function
  parameters. The FFmpeg service is a stub in the repository.
- Creating and deleting the temporary frame directory, and the disk writes
  of `SaveFileAsync`: these are file-system I/O. The writes appear as
  effects in a trace.
- Logging: it has no effect on results. The one exception is the completed
  consumer's log line, whose null dereference is modelled.
- Concurrency of `ConcurrentDictionary` and of the async calls: each
  operation is modelled as one atomic step.
- `DetectQrCodeAsync` (the single-code variant) is not used by the frame
  loop.
- DomainVideo.FormatFileSize: "n1" text formatting is culture-dependent and
  is not modelled. The result is the scaled number and its suffix. The
  decimal arithmetic is modelled as exact reals, so rounding of `decimal`
  beyond 28 digits is not modelled.
- UploadProgress.ToUpdate: floating-point division in the percentage is
  modelled as exact. JavaScript truthiness is modelled for a missing or
  zero total, but not for NaN.
- DomainVideo.VideoFormatIgnoresCase: `ToLowerInvariant` is modelled for
  ASCII letters only. Non-ASCII case mappings are not modelled.
- Text.IsWhiteSpace: strings are sequences of code points, so UTF-16
  surrogate pairs are not modelled.
- Paths.Combine: '/' is the only separator, as on Linux. Windows rules
  (drive letters, '\\') are not modelled.
- PixelBuffer.GetRow: reading a row past the end of the data throws
  IndexOutOfRangeException in the source. The model requires the row to lie
  inside a buffer of at least width × height pixels, which is what every
  source built by the code has. Negative rows are not modelled. The source
  writes into the caller's row array and returns that same array; the model
  returns a new sequence, so the aliasing is not modelled.
- PixelBuffer.GetLuminanceArray: it requires a buffer of at least
  width × height pixels for the same reason as `GetRow`, and the
  out-of-range exception of a shorter buffer is not modelled.
- PixelBuffer.GrayRoundTrip: grey levels are not promised to come back
  exactly. The source's double weighting truncated to a byte maps (v, v, v)
  to v − 1 for some levels (1, 2, 4, 8 and 11 among them). The lemma assumes
  only that the weighting is exact or one level low, and promises no more.
- PixelBuffer: the float weighting (0.299, 0.587, 0.114) and its truncating
  byte cast are an uninterpreted `lum`.
- Integer widths: `int` frame numbers, `long` sizes and C# `int` widths are
  unbounded here. Overflow happens only at sizes far beyond any real video.
- The clock-derived `Age` is a plain difference, with the present instant
  as a parameter, and nothing is claimed about it.
- BsonDates: the driver's special cases for `DateTime.MinValue` and
  `DateTime.MaxValue`, and the 64-bit range of a BSON date, are not modelled.
  Times before the epoch are truncated toward it, as C# integer division
  does.
