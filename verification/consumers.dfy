/** The API's two message consumers, which only forward to the stores. */
module Consumers {
  import opened Wrappers
  import opened Exceptions
  import opened Contracts
  import StatusCollection
  import ResultsCollection
  import BsonDates

  /** ProcessingStatusConsumer: writes the event's status and message. The
      event's own `UpdatedAt` is not passed on; the store stamps its clock. */
  function ConsumeStatus(db: ResultsCollection.Database, evt: ProcessingStatusEvent, now: Instant): ResultsCollection.Database {
    db.(statuses := StatusCollection.UpdateStatus(db.statuses, evt.videoId, evt.status, evt.message, now))
  }

  /** CompletedEventConsumer: its log line reads the detection count first, so
      a null list throws before anything is stored. */
  function ConsumeCompleted(db: ResultsCollection.Database, e: CompletedEvent, now: Instant): (ResultsCollection.Database, Outcome<Exception>) {
    match e.detections
    case None => (db, Fail(NullReferenceException))
    case Some(_) => (ResultsCollection.StoreCompletedResults(db, e, now), Pass)
  }

  /** Status events are applied in delivery order: a late-delivered older event
      overwrites a newer one, whatever their `UpdatedAt` says. */
  lemma {:induction false} DeliveryOrderWins(db: ResultsCollection.Database, newer: ProcessingStatusEvent, older: ProcessingStatusEvent, t1: Instant, t2: Instant)
    requires newer.videoId == older.videoId
    ensures StatusCollection.GetStatus(ConsumeStatus(ConsumeStatus(db, newer, t1), older, t2).statuses, older.videoId)
            == Some(ProcessingStatusEvent(older.videoId, older.status, BsonDates.Stored(t2), older.message))
  {
  }

  /** Consuming the same completed event twice leaves the state consuming it
      once leaves, apart from the clock reading, and a null list stores nothing. */
  lemma {:induction false} CompletedRedeliveryIdempotent(db: ResultsCollection.Database, e: CompletedEvent, t1: Instant, t2: Instant)
    ensures ConsumeCompleted(ConsumeCompleted(db, e, t1).0, e, t2) == ConsumeCompleted(db, e, t2)
    ensures e.detections.None? ==> ConsumeCompleted(db, e, t1) == (db, Fail(NullReferenceException))
  {
    ResultsCollection.StoreCompletedIdempotent(db, e, t1, t2);
  }
}
