/** VideoResultsService: the "completed_results" collection (documents keyed by
    video id as `_id`), written with replace-or-insert, followed by a status
    write through the status service. */
module ResultsCollection {
  import opened Wrappers
  import opened Contracts
  import opened CompletionSummary
  import opened BsonDates
  import StatusCollection

  /** QrCodeDetectionDocument. */
  datatype DetectionDocument = DetectionDocument(
    content: string,
    frameNumber: int,
    timestampSeconds: real,
    framePath: string)

  /** CompletedEventDocument; the stored list is a reference that may be null. */
  datatype CompletedDocument = CompletedDocument(
    id: string,
    completedAt: Instant,
    detections: Option<seq<DetectionDocument>>)

  /** The two collections the API writes. */
  datatype Database = Database(
    statuses: StatusCollection.Collection,
    results: map<string, CompletedDocument>)

  function ToDetectionDocument(d: QrCodeDetection): DetectionDocument {
    DetectionDocument(d.content, d.frameNumber, d.timestampSeconds, d.framePath)
  }

  function FromDetectionDocument(d: DetectionDocument): QrCodeDetection {
    QrCodeDetection(d.content, d.timestampSeconds, d.frameNumber, d.framePath)
  }

  /** The document written for an event; a null list is written as empty. */
  function ToDocument(e: CompletedEvent): (doc: CompletedDocument)
    ensures doc.id == e.videoId && doc.detections.Some?
  {
    var ds := e.detections.GetOr([]);
    CompletedDocument(e.videoId, Stored(e.completedAt),
      Some(seq(|ds|, i requires 0 <= i < |ds| => ToDetectionDocument(ds[i]))))
  }

  /** The event a stored document is read back as; a null list reads as empty. */
  function FromDocument(doc: CompletedDocument): CompletedEvent {
    var ds := doc.detections.GetOr([]);
    CompletedEvent(doc.id, doc.completedAt,
      Some(seq(|ds|, i requires 0 <= i < |ds| => FromDetectionDocument(ds[i]))))
  }

  /** An event as it reads back after storage: a null list becomes empty and
      the completion time keeps whole milliseconds; everything else is kept. */
  function Normalized(e: CompletedEvent): CompletedEvent {
    e.(completedAt := Stored(e.completedAt), detections := Some(e.detections.GetOr([])))
  }

  /** Writing an event and reading it back keeps its id, its completion time
      to the millisecond, and every detection, in order, with all four fields. */
  lemma {:induction false} DocumentRoundTrip(e: CompletedEvent)
    ensures FromDocument(ToDocument(e)) == Normalized(e)
  {
    var ds := e.detections.GetOr([]);
    assert FromDocument(ToDocument(e)).detections.value == ds;
  }

  /** The writes `StoreCompletedResultsAsync` issues, in issue order. */
  datatype Write =
    | ResultsReplaced(id: string, doc: CompletedDocument)
    | StatusUpdated(videoId: string, status: string, message: Option<string>, at: Instant)

  function Apply(db: Database, w: Write): Database {
    match w
    case ResultsReplaced(id, doc) => db.(results := db.results[id := doc])
    case StatusUpdated(id, status, message, at) => db.(statuses := StatusCollection.UpdateStatus(db.statuses, id, status, message, at))
  }

  function ApplyAll(db: Database, ws: seq<Write>): Database
    decreases |ws|
  {
    if ws == [] then db else ApplyAll(Apply(db, ws[0]), ws[1..])
  }

  lemma {:induction false} ApplyAllPair(db: Database, w1: Write, w2: Write)
    ensures ApplyAll(db, [w1, w2]) == Apply(Apply(db, w1), w2)
  {
    var once := Apply(db, w1);
    assert [w1, w2][1..] == [w2];
    assert [w2][1..] == [];
    calc {
      ApplyAll(db, [w1, w2]);
      ApplyAll(once, [w2]);
      ApplyAll(Apply(once, w2), []);
    }
  }

  /** First the results document, then the "Completed" status with the
      distinct-content summary (a null list counting as none). */
  function StoreWrites(e: CompletedEvent, now: Instant): seq<Write> {
    [ ResultsReplaced(e.videoId, ToDocument(e)),
      StatusUpdated(e.videoId, Completed, Some(SummaryMessage(e.detections)), now) ]
  }

  /** `GetCompletedResultsAsync`: the document read back as an event, or null. */
  function GetCompletedResults(db: Database, videoId: string): Option<CompletedEvent> {
    if videoId in db.results then Some(FromDocument(db.results[videoId])) else None
  }

  /** `StoreCompletedResultsAsync`. */
  function StoreCompletedResults(db: Database, e: CompletedEvent, now: Instant): (db': Database)
    ensures GetCompletedResults(db', e.videoId) == Some(Normalized(e))
    ensures StatusCollection.GetStatus(db'.statuses, e.videoId)
            == Some(ProcessingStatusEvent(e.videoId, Completed, Stored(now), Some(SummaryMessage(e.detections))))
    ensures forall id :: id != e.videoId ==>
              && GetCompletedResults(db', id) == GetCompletedResults(db, id)
              && StatusCollection.GetStatus(db'.statuses, id) == StatusCollection.GetStatus(db.statuses, id)
  {
    DocumentRoundTrip(e);
    var ws := StoreWrites(e, now);
    ApplyAllPair(db, ws[0], ws[1]);
    ApplyAll(db, ws)
  }

  /** Between the two writes, the results are already readable and the status
      record is still whatever it was. */
  lemma {:induction false} ResultsWrittenBeforeStatus(db: Database, e: CompletedEvent, now: Instant)
    ensures var midway := ApplyAll(db, StoreWrites(e, now)[..1]);
            && GetCompletedResults(midway, e.videoId) == Some(Normalized(e))
            && midway.statuses == db.statuses
  {
    DocumentRoundTrip(e);
    assert StoreWrites(e, now)[..1][1..] == [];
  }

  /** Redelivering a completed event leaves the state one delivery leaves,
      apart from the clock reading. */
  lemma {:induction false} StoreCompletedIdempotent(db: Database, e: CompletedEvent, t1: Instant, t2: Instant)
    ensures StoreCompletedResults(StoreCompletedResults(db, e, t1), e, t2) == StoreCompletedResults(db, e, t2)
  {
    var first := StoreCompletedResults(db, e, t1);
    var once := StoreCompletedResults(db, e, t2);
    var twice := StoreCompletedResults(first, e, t2);
    var ws1 := StoreWrites(e, t1);
    var ws2 := StoreWrites(e, t2);
    ApplyAllPair(db, ws1[0], ws1[1]);
    ApplyAllPair(db, ws2[0], ws2[1]);
    ApplyAllPair(first, ws2[0], ws2[1]);
    assert twice.results == once.results;
    assert twice.statuses == once.statuses;
  }
}
