/** VideoQueryService: the status and results queries, over whichever status
    and results readers the host wires in. A reader maps a video id to the
    stored record or null. */
module VideoQuery {
  import opened Wrappers
  import opened Exceptions
  import opened Contracts
  import opened Text
  import StatusCollection
  import ResultsCollection
  import BsonDates

  type StatusReader = string -> Option<ProcessingStatusEvent>
  type ResultsReader = string -> Option<CompletedEvent>

  const NotYetCompletedMessage := "Video processing not yet completed"

  function ToResponse(d: QrCodeDetection): QrCodeDetectionResponse {
    QrCodeDetectionResponse(d.content, d.frameNumber, d.timestampSeconds, Some(d.framePath))
  }

  /** The detections as response items, one for one and in order. */
  function ToResponses(ds: seq<QrCodeDetection>): (rs: seq<QrCodeDetectionResponse>)
    ensures |rs| == |ds|
    ensures forall i :: 0 <= i < |ds| ==>
              && rs[i].content == ds[i].content
              && rs[i].frameNumber == ds[i].frameNumber
              && rs[i].timestampSeconds == ds[i].timestampSeconds
              && rs[i].framePath == Some(ds[i].framePath)
  {
    seq(|ds|, i requires 0 <= i < |ds| => ToResponse(ds[i]))
  }

  /** Mapping a list piecewise: the responses of two lists one after the
      other are the responses of the joined list. */
  lemma {:induction false} ToResponsesAppend(a: seq<QrCodeDetection>, b: seq<QrCodeDetection>)
    ensures ToResponses(a + b) == ToResponses(a) + ToResponses(b)
  {
    var joined := ToResponses(a + b);
    forall i | 0 <= i < |a| + |b|
      ensures joined[i] == (ToResponses(a) + ToResponses(b))[i]
    {
      if i < |a| {
        assert (a + b)[i] == a[i];
      } else {
        assert (a + b)[i] == b[i - |a|];
      }
    }
  }

  /** `GetVideoStatusAsync`. */
  function GetVideoStatus(videoId: Option<string>, statuses: StatusReader): (r: Option<VideoStatusResponse>)
    ensures IsNullOrWhiteSpace(videoId) ==> r.None?
    ensures !IsNullOrWhiteSpace(videoId) ==> (r.None? <==> statuses(videoId.value).None?)
    ensures !IsNullOrWhiteSpace(videoId) && statuses(videoId.value).Some? ==>
              r == Some(VideoStatusResponse(statuses(videoId.value).value.videoId, statuses(videoId.value).value.status,
                                            statuses(videoId.value).value.message, statuses(videoId.value).value.updatedAt))
  {
    if IsNullOrWhiteSpace(videoId) then None
    else
      match statuses(videoId.value)
      case None => None
      case Some(st) => Some(VideoStatusResponse(st.videoId, st.status, st.message, st.updatedAt))
  }

  /** `GetVideoResultsAsync`. Stored results win over the status record; with no
      results, a status record gives a not-yet-completed answer; with neither,
      null. Mapping a stored null detection list throws. */
  function GetVideoResults(videoId: Option<string>, statuses: StatusReader, results: ResultsReader)
    : (r: Result<Option<VideoResultsResponse>, Exception>)
    ensures IsNullOrWhiteSpace(videoId) ==> r == Success(None)
    ensures !IsNullOrWhiteSpace(videoId) ==>
              (r == Success(None) <==> results(videoId.value).None? && statuses(videoId.value).None?)
    ensures !IsNullOrWhiteSpace(videoId) && results(videoId.value).Some? && results(videoId.value).value.detections.Some? ==>
              r == Success(Some(VideoResultsResponse(results(videoId.value).value.videoId, Completed,
                                                     Some(results(videoId.value).value.completedAt), None,
                                                     ToResponses(results(videoId.value).value.detections.value))))
    ensures !IsNullOrWhiteSpace(videoId) && results(videoId.value).None? && statuses(videoId.value).Some? ==>
              r == Success(Some(VideoResultsResponse(videoId.value, statuses(videoId.value).value.status,
                                                     None, Some(NotYetCompletedMessage), [])))
    ensures r.Failure? ==> r.error == ArgumentNullException("source")
  {
    if IsNullOrWhiteSpace(videoId) then Success(None)
    else
      var id := videoId.value;
      match results(id)
      case Some(done) =>
        (match done.detections
         case None => Failure(ArgumentNullException("source"))
         case Some(ds) => Success(Some(VideoResultsResponse(done.videoId, Completed, Some(done.completedAt), None, ToResponses(ds)))))
      case None =>
        match statuses(id)
        case None => Success(None)
        case Some(st) => Success(Some(VideoResultsResponse(id, st.status, None, Some(NotYetCompletedMessage), [])))
  }

  /** The readers the API host wires in: the MongoDB-backed services. */
  function DbStatuses(db: ResultsCollection.Database): StatusReader {
    id => StatusCollection.GetStatus(db.statuses, id)
  }

  function DbResults(db: ResultsCollection.Database): ResultsReader {
    id => ResultsCollection.GetCompletedResults(db, id)
  }

  /** After a status update, the status query for that id reports exactly the
      written status and message, and the time to the millisecond. */
  lemma {:induction false} StatusQueryAfterUpdate(db: ResultsCollection.Database, videoId: string, status: string, message: Option<string>, now: Instant)
    requires !IsNullOrWhiteSpace(Some(videoId))
    ensures var db' := db.(statuses := StatusCollection.UpdateStatus(db.statuses, videoId, status, message, now));
            GetVideoStatus(Some(videoId), DbStatuses(db')) == Some(VideoStatusResponse(videoId, status, message, BsonDates.Stored(now)))
  {
  }

  /** After results are stored, the results query reports "Completed", the
      completion time to the millisecond, and every stored detection in order with all four
      fields; a null list reads as empty. */
  lemma {:induction false} ResultsQueryAfterStore(db: ResultsCollection.Database, e: CompletedEvent, now: Instant)
    requires !IsNullOrWhiteSpace(Some(e.videoId))
    ensures var db' := ResultsCollection.StoreCompletedResults(db, e, now);
            GetVideoResults(Some(e.videoId), DbStatuses(db'), DbResults(db'))
            == Success(Some(VideoResultsResponse(e.videoId, Completed, Some(BsonDates.Stored(e.completedAt)), None,
                                                 ToResponses(e.detections.GetOr([])))))
  {
  }

  /** Between the results write and the status write, the results query
      already reports "Completed", whatever the status record still says. */
  lemma {:induction false} RaceWindowClosed(db: ResultsCollection.Database, e: CompletedEvent, now: Instant)
    requires !IsNullOrWhiteSpace(Some(e.videoId))
    ensures var midway := ResultsCollection.ApplyAll(db, ResultsCollection.StoreWrites(e, now)[..1]);
            GetVideoResults(Some(e.videoId), DbStatuses(midway), DbResults(midway))
            == Success(Some(VideoResultsResponse(e.videoId, Completed, Some(BsonDates.Stored(e.completedAt)), None,
                                                 ToResponses(e.detections.GetOr([])))))
  {
    ResultsCollection.ResultsWrittenBeforeStatus(db, e, now);
  }
}
