/** InMemoryVideoStatusService: two concurrent dictionaries keyed by video id,
    one of status events and one of completed events, each written with
    replace-or-insert (`AddOrUpdate` whose update returns the new value). */
module InMemoryStatus {
  import opened Wrappers
  import opened Exceptions
  import opened Contracts
  import opened CompletionSummary

  datatype Store = Store(
    statuses: map<string, ProcessingStatusEvent>,
    results: map<string, CompletedEvent>)

  /** The service as constructed: both dictionaries empty. */
  const Empty := Store(map[], map[])

  /** `GetStatusAsync`: the stored event, or null. */
  function GetStatus(s: Store, videoId: string): Option<ProcessingStatusEvent> {
    if videoId in s.statuses then Some(s.statuses[videoId]) else None
  }

  /** `GetCompletedResultsAsync`: the stored event, or null. */
  function GetCompletedResults(s: Store, videoId: string): Option<CompletedEvent> {
    if videoId in s.results then Some(s.results[videoId]) else None
  }

  /** `UpdateStatusAsync`, stamped with the clock reading `now`. */
  function UpdateStatus(s: Store, videoId: string, status: string, message: Option<string>, now: Instant): (s': Store)
    ensures GetStatus(s', videoId) == Some(ProcessingStatusEvent(videoId, status, now, message))
    ensures forall id :: id != videoId ==> GetStatus(s', id) == GetStatus(s, id)
    ensures s'.results == s.results
  {
    s.(statuses := s.statuses[videoId := ProcessingStatusEvent(videoId, status, now, message)])
  }

  /** `StoreCompletedResultsAsync`: store the event, then write "Completed" with
      the distinct-content summary. On a null detection list the event is
      already stored when counting its groups throws, so no status is written. */
  function StoreCompletedResults(s: Store, e: CompletedEvent, now: Instant): (r: (Store, Outcome<Exception>))
    ensures GetCompletedResults(r.0, e.videoId) == Some(e)
    ensures forall id :: id != e.videoId ==>
              GetCompletedResults(r.0, id) == GetCompletedResults(s, id) && GetStatus(r.0, id) == GetStatus(s, id)
    ensures e.detections.Some? ==>
              && r.1 == Pass
              && GetStatus(r.0, e.videoId) == Some(ProcessingStatusEvent(e.videoId, Completed, now, Some(SummaryMessage(e.detections))))
    ensures e.detections.None? ==>
              r.1 == Fail(ArgumentNullException("source")) && GetStatus(r.0, e.videoId) == GetStatus(s, e.videoId)
  {
    var stored := s.(results := s.results[e.videoId := e]);
    match e.detections
    case None => (stored, Fail(ArgumentNullException("source")))
    case Some(ds) => (UpdateStatus(stored, e.videoId, Completed, Some(CompletionMessage(UniqueCount(ds))), now), Pass)
  }

  /** Repeating a status update leaves what one update leaves, apart from the
      clock reading. */
  lemma {:induction false} UpdateStatusIdempotent(s: Store, videoId: string, status: string, message: Option<string>, t1: Instant, t2: Instant)
    ensures UpdateStatus(UpdateStatus(s, videoId, status, message, t1), videoId, status, message, t2)
            == UpdateStatus(s, videoId, status, message, t2)
  {
  }

  /** Storing the same completed event twice leaves what storing it once leaves,
      apart from the clock reading. */
  lemma {:induction false} StoreCompletedIdempotent(s: Store, e: CompletedEvent, t1: Instant, t2: Instant)
    ensures StoreCompletedResults(StoreCompletedResults(s, e, t1).0, e, t2) == StoreCompletedResults(s, e, t2)
  {
    var once := StoreCompletedResults(s, e, t2).0;
    var twice := StoreCompletedResults(StoreCompletedResults(s, e, t1).0, e, t2).0;
    assert twice.results == once.results;
    assert twice.statuses == once.statuses;
  }

  /** Every record is filed under its own video id. */
  predicate KeyedByOwnId(s: Store) {
    && (forall id :: id in s.statuses ==> s.statuses[id].videoId == id)
    && (forall id :: id in s.results ==> s.results[id].videoId == id)
  }

  /** The store starts keyed by own id and both writes keep it so. */
  lemma {:induction false} KeyedByOwnIdPreserved(s: Store, videoId: string, status: string, message: Option<string>, e: CompletedEvent, now: Instant)
    requires KeyedByOwnId(s)
    ensures KeyedByOwnId(Empty)
    ensures KeyedByOwnId(UpdateStatus(s, videoId, status, message, now))
    ensures KeyedByOwnId(StoreCompletedResults(s, e, now).0)
  {
  }
}
