/** The event owner's delete button: the hand-written cascade that deletes
    the event's RSVPs and then the event itself. */
module Deletion {
  import opened Store

  const DeleteFailedMessage := "Failed to delete event"

  /** The delete-event button component for `eventId`. */
  class DeleteEventButton {
    const eventId: string
    const db: Database
    var isLoading: bool
    var error: Option<string>
    var navigatedHome: bool

    constructor (db: Database, eventId: string)
      ensures this.db == db && this.eventId == eventId
      ensures !isLoading && error == None && !navigatedHome
    {
      this.db, this.eventId := db, eventId;
      isLoading, error, navigatedHome := false, None, false;
    }

    /** `handleDelete`. The reply to the RSVP delete is never looked at; the
        event delete is attempted either way, and only its reply decides
        between the error message and navigating home. */
    method HandleDelete(rsvpsReply: Reply, eventReply: Reply)
      requires db.Valid()
      modifies this`isLoading, this`error, this`navigatedHome, db
      ensures db.Valid()
      ensures db.rsvps == (if rsvpsReply.Ok? then WithoutEvent(old(db.rsvps), eventId) else old(db.rsvps))
      ensures db.events == (if eventReply.Ok? then WithoutEventRow(old(db.events), eventId) else old(db.events))
      // no RSVP of the event is left once the RSVP delete is accepted
      ensures rsvpsReply.Ok? ==> CountFor(db.rsvps, eventId) == 0
      // RSVPs of other events are untouched
      ensures forall r: RsvpRow :: r.eventId != eventId ==> (r in db.rsvps <==> r in old(db.rsvps))
      ensures forall e :: e != eventId ==> CountFor(db.rsvps, e) == CountFor(old(db.rsvps), e)
      // the event row goes, every other event stays
      ensures eventReply.Ok? ==> forall ev: EventRow :: ev in db.events <==> ev in old(db.events) && ev.id != eventId
      // a refused event delete after an accepted RSVP delete: the event is still there, with no RSVPs
      ensures rsvpsReply.Ok? && eventReply.Err? ==>
        db.events == old(db.events) && CountFor(db.rsvps, eventId) == 0
      ensures eventReply.Err? ==>
        error == Some(CaughtMessage(eventReply.error, DeleteFailedMessage)) && navigatedHome == old(navigatedHome)
      ensures eventReply.Ok? ==> error == None && navigatedHome
      ensures !isLoading
    {
      isLoading := true;
      error := None;
      if rsvpsReply.Ok? {
        db.DeleteRsvpsByEvent(eventId);
      }
      if eventReply.Err? {
        error := Some(CaughtMessage(eventReply.error, DeleteFailedMessage));
      } else {
        db.DeleteEventById(eventId);
        navigatedHome := true;
      }
      isLoading := false;
    }
  }
}
