/** VideoStatusService: the "processing_status" collection, whose documents use
    the video id as `_id`. `ReplaceOne` with `IsUpsert = true` filtered on that
    `_id` replaces the whole document or inserts it, which on a map keyed by
    `_id` is a single update. The collection holds what the server holds, so
    a stored time keeps whole milliseconds only. */
module StatusCollection {
  import opened Wrappers
  import opened Contracts
  import opened BsonDates

  /** ProcessingStatusDocument. */
  datatype StatusDocument = StatusDocument(
    id: string,
    status: string,
    updatedAt: Instant,
    message: Option<string>)

  /** The collection, by `_id`. */
  type Collection = map<string, StatusDocument>

  /** The event a stored document is read back as. */
  function ToEvent(doc: StatusDocument): ProcessingStatusEvent {
    ProcessingStatusEvent(doc.id, doc.status, doc.updatedAt, doc.message)
  }

  /** `GetStatusAsync`: the document with that `_id` as an event, or null. */
  function GetStatus(c: Collection, videoId: string): Option<ProcessingStatusEvent> {
    if videoId in c then Some(ToEvent(c[videoId])) else None
  }

  /** `UpdateStatusAsync`, stamped with the clock reading `now`. */
  function UpdateStatus(c: Collection, videoId: string, status: string, message: Option<string>, now: Instant): (c': Collection)
    ensures GetStatus(c', videoId) == Some(ProcessingStatusEvent(videoId, status, Stored(now), message))
    ensures c'.Keys == c.Keys + {videoId}
    ensures forall id :: id in c && id != videoId ==> c'[id] == c[id]
  {
    c[videoId := StatusDocument(videoId, status, Stored(now), message)]
  }

  /** Repeating an update changes nothing but the time stamp: the record is the
      one the last update alone would leave. */
  lemma {:induction false} UpdateStatusIdempotent(c: Collection, videoId: string, status: string, message: Option<string>, t1: Instant, t2: Instant)
    ensures UpdateStatus(UpdateStatus(c, videoId, status, message, t1), videoId, status, message, t2)
            == UpdateStatus(c, videoId, status, message, t2)
  {
  }

  /** The last update of an id decides what is read back, whatever came before. */
  lemma {:induction false} LastUpdateWins(c: Collection, videoId: string, s1: string, m1: Option<string>, t1: Instant,
                       s2: string, m2: Option<string>, t2: Instant)
    ensures GetStatus(UpdateStatus(UpdateStatus(c, videoId, s1, m1, t1), videoId, s2, m2, t2), videoId)
            == Some(ProcessingStatusEvent(videoId, s2, Stored(t2), m2))
  {
  }
}
