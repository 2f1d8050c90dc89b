/** VideoUploadService: validate the upload, give it a fresh id, store it,
    announce it with a VideoUploadedEvent and answer "Queued". Storage and
    publishing are collaborators passed in as functions; the effects the
    service causes are returned as a trace in the order they happen. */
module VideoUpload {
  import opened Wrappers
  import opened Exceptions
  import opened Contracts
  import opened Paths
  import FileStorage

  type FormFile = FileStorage.FormFile

  const FileRequiredMessage := "File is required"
  const InvalidFormatMessage := "Invalid format. Use .mp4 or .avi"
  const AcceptedContentTypes: set<string> := {"video/mp4", "video/x-msvideo"}

  /** `ValidateFile`: a file must be present and declare an MP4 or AVI
      content type; nothing else (size, extension) is checked. */
  function ValidateFile(file: Option<FormFile>): (o: Outcome<Exception>)
    ensures o.Pass? <==> file.Some? && file.value.contentType in AcceptedContentTypes
    ensures file.None? ==> o == Fail(ArgumentException(FileRequiredMessage))
    ensures file.Some? && o.Fail? ==> o == Fail(ArgumentException(InvalidFormatMessage))
  {
    if file.None? then Fail(ArgumentException(FileRequiredMessage))
    else if file.value.contentType != "video/mp4" && file.value.contentType != "video/x-msvideo" then
      Fail(ArgumentException(InvalidFormatMessage))
    else Pass
  }

  /** The text form of `Guid.NewGuid()`: 36 characters, lower-case hex digits
      in groups of 8-4-4-4-12 separated by '-'. */
  predicate GuidText(id: string) {
    && |id| == 36
    && forall i :: 0 <= i < 36 ==>
         if i == 8 || i == 13 || i == 18 || i == 23 then id[i] == '-'
         else ('0' <= id[i] <= '9' || 'a' <= id[i] <= 'f')
  }

  /** A generated id never contains a directory separator. */
  lemma {:induction false} GuidHasNoSeparator(id: string)
    requires GuidText(id)
    ensures Separator !in id
  {
    forall i | 0 <= i < |id| ensures id[i] != Separator {
    }
  }

  /** `SaveFileAsync(file, videoId)`. */
  type Saver = (FormFile, string) -> Result<string, Exception>
  /** `PublishAsync(event)`. */
  type Publisher = VideoUploadedEvent -> Outcome<Exception>

  /** What the ingest has done to the outside world. */
  datatype IngestEffect = Saved(file: FormFile, videoId: string) | Published(event: VideoUploadedEvent)

  datatype IngestOutcome = IngestOutcome(effects: seq<IngestEffect>, result: Result<VideoUploadResult, Exception>)

  /** `ProcessUploadAsync` with `freshId` standing for the new GUID and `now`
      for the clock. Each failure is rethrown unchanged and stops the ingest. */
  function ProcessUpload(file: Option<FormFile>, freshId: string, now: Instant,
                         save: Saver, publish: Publisher): (out: IngestOutcome)
    ensures ValidateFile(file).Fail? ==> out == IngestOutcome([], Failure(ValidateFile(file).error))
    ensures ValidateFile(file).Pass? ==> |out.effects| >= 1 && out.effects[0] == Saved(file.value, freshId)
    ensures ValidateFile(file).Pass? && save(file.value, freshId).Failure? ==>
              out == IngestOutcome([Saved(file.value, freshId)], Failure(save(file.value, freshId).error))
    ensures out.result.Success? <==>
              && ValidateFile(file).Pass?
              && save(file.value, freshId).Success?
              && publish(VideoUploadedEvent(freshId, save(file.value, freshId).value, now)).Pass?
    ensures out.result.Success? ==>
              var path := save(file.value, freshId).value;
              && out.result.value == VideoUploadResult(freshId, Queued, path)
              && out.effects == [Saved(file.value, freshId), Published(VideoUploadedEvent(freshId, path, now))]
  {
    match ValidateFile(file)
    case Fail(e) => IngestOutcome([], Failure(e))
    case Pass =>
      var saved := [Saved(file.value, freshId)];
      match save(file.value, freshId)
      case Failure(e) => IngestOutcome(saved, Failure(e))
      case Success(path) =>
        var event := VideoUploadedEvent(freshId, path, now);
        var effects := saved + [Published(event)];
        match publish(event)
        case Fail(e) => IngestOutcome(effects, Failure(e))
        case Pass => IngestOutcome(effects, Success(VideoUploadResult(freshId, Queued, path)))
  }

  /** Every event published carries the path the file was saved to and the
      id the caller receives; nothing is published before the file is saved. */
  lemma {:induction false} PublishedEventMatchesResult(file: Option<FormFile>, freshId: string, now: Instant,
                                    save: Saver, publish: Publisher)
    ensures var out := ProcessUpload(file, freshId, now, save, publish);
            forall i :: 0 <= i < |out.effects| && out.effects[i].Published? ==>
              && i > 0 && out.effects[i - 1] == Saved(file.value, freshId)
              && save(file.value, freshId) == Success(out.effects[i].event.filePath)
              && out.effects[i].event.videoId == freshId
  {
  }

  /** The storage collaborator the application is wired with. */
  function DiskSaver(configured: Option<string>): Saver {
    (f: FormFile, id: string) => FileStorage.SaveFile(configured, Some(f), id).result
  }

  /** With disk storage: an accepted but empty file fails in storage, after
      validation, and nothing is announced. */
  lemma {:induction false} EmptyAcceptedFileNotPublished(configured: Option<string>, file: FormFile, freshId: string,
                                      now: Instant, publish: Publisher)
    requires file.contentType in AcceptedContentTypes && file.length == 0
    ensures var out := ProcessUpload(Some(file), freshId, now, DiskSaver(configured), publish);
            && out.result == Failure(ArgumentException(FileStorage.InvalidFileMessage))
            && forall e :: e in out.effects ==> !e.Published?
  {
  }

  /** With disk storage and a generated id: a successful ingest answers with
      a path whose file name is "<id>_<last segment of the client's name>",
      whatever directories the client put in the name. */
  lemma {:induction false} IngestStoresUnderGeneratedId(configured: Option<string>, file: FormFile, freshId: string,
                                     now: Instant, publish: Publisher)
    requires GuidText(freshId)
    ensures var out := ProcessUpload(Some(file), freshId, now, DiskSaver(configured), publish);
            out.result.Success? ==>
              && out.result.value.status == Queued
              && GetFileName(out.result.value.filePath) == freshId + "_" + GetFileName(file.fileName)
  {
    var out := ProcessUpload(Some(file), freshId, now, DiskSaver(configured), publish);
    if out.result.Success? {
      GuidHasNoSeparator(freshId);
      FileStorage.SavedDirectlyInFolder(configured, file, freshId);
    }
  }
}
