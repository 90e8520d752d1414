/** The RSVP form for one (event, signed-in user) pair: the lookup of an
    existing registration, register and cancel, the attendee name written
    into a new row, and the guard that decides which panel is shown. */
module Registration {
  import opened Store

  /** The signed-in user as the identity provider reports it. */
  datatype User = User(
    id: string,
    fullName: Option<string>,
    email: Option<string>,
    avatarUrl: Option<string>)

  /** `email.split('@')[0]`: the text before the first `'@'`, or all of it. */
  function LocalPart(email: string): (p: string)
    ensures p <= email
    ensures '@' !in p
    ensures |p| < |email| ==> email[|p|] == '@'
  {
    if email == [] || email[0] == '@' then []
    else [email[0]] + LocalPart(email[1..])
  }

  predicate HasFullName(u: User)
  {
    u.fullName.Some? && u.fullName.value != []
  }

  /** The email has some text before its first `'@'`. */
  predicate HasLocalPart(u: User)
  {
    u.email.Some? && u.email.value != [] && u.email.value[0] != '@'
  }

  /** `full_name || email?.split('@')[0] || 'Anonymous'`: an empty or missing
      text falls through to the next choice. */
  function AttendeeName(u: User): (n: string)
    ensures n != []
    ensures HasFullName(u) ==> n == u.fullName.value
    ensures !HasFullName(u) && HasLocalPart(u) ==>
      && n <= u.email.value
      && '@' !in n
      && (|n| < |u.email.value| ==> u.email.value[|n|] == '@')
    ensures !HasFullName(u) && !HasLocalPart(u) ==> n == "Anonymous"
  {
    if u.fullName.Some? && u.fullName.value != [] then u.fullName.value
    else if u.email.Some? && LocalPart(u.email.value) != [] then LocalPart(u.email.value)
    else "Anonymous"
  }

  /** The row `handleRSVP` inserts; `id` is the one the store assigns. */
  function NewRow(id: string, eventId: string, u: User): RsvpRow
  {
    RsvpRow(id, eventId, u.id, AttendeeName(u), u.avatarUrl)
  }

  /** Rows of `userId` for `eventId`. */
  function Matching(rows: seq<RsvpRow>, eventId: string, userId: string): (m: seq<RsvpRow>)
    ensures forall x :: x in m <==> x in rows && x.eventId == eventId && x.userId == userId
  {
    if rows == [] then []
    else if rows[0].eventId == eventId && rows[0].userId == userId
    then [rows[0]] + Matching(rows[1..], eventId, userId)
    else Matching(rows[1..], eventId, userId)
  }

  /** Inserting one row adds it to the pair's rows exactly when it belongs
      to the pair. */
  lemma {:induction false} MatchingAppend(rows: seq<RsvpRow>, r: RsvpRow, eventId: string, userId: string)
    ensures Matching(rows + [r], eventId, userId) ==
      Matching(rows, eventId, userId) + (if r.eventId == eventId && r.userId == userId then [r] else [])
  {
    if rows == [] {
      assert rows + [r] == [r];
    } else {
      assert (rows + [r])[1..] == rows[1..] + [r];
      MatchingAppend(rows[1..], r, eventId, userId);
    }
  }

  /** The (event, user) pair has at most one RSVP row. */
  ghost predicate AtMostOnce(rows: seq<RsvpRow>, eventId: string, userId: string)
  {
    |Matching(rows, eventId, userId)| <= 1
  }

  /** `select().eq("event_id", …).eq("user_id", …).single()`: the row when
      exactly one matches, otherwise no data. */
  function SingleMatch(rows: seq<RsvpRow>, eventId: string, userId: string): (r: Option<RsvpRow>)
    ensures r.Some? ==> r.value in rows && r.value.eventId == eventId && r.value.userId == userId
    ensures r.Some? ==> forall x :: x in rows && x.eventId == eventId && x.userId == userId ==> x == r.value
    ensures r.None? && (exists x :: x in rows && x.eventId == eventId && x.userId == userId) ==>
      !AtMostOnce(rows, eventId, userId)
  {
    var m := Matching(rows, eventId, userId);
    if |m| == 1 then Some(m[0]) else None
  }

  /** While the pair is registered at most once, the lookup finds a row
      exactly when the user is registered: the state machine starts in
      "registered" iff a row exists. */
  lemma LookupFindsRegistration(rows: seq<RsvpRow>, eventId: string, userId: string)
    requires AtMostOnce(rows, eventId, userId)
    ensures SingleMatch(rows, eventId, userId).Some? <==>
            exists x :: x in rows && x.eventId == eventId && x.userId == userId
  {
  }

  /** Which of the form's panels is rendered. */
  datatype Panel = Confirmed | FullNotice | SignInPrompt | Registered | RegisterButton

  /** The panels that hold a "Cancel RSVP" button. */
  predicate OffersCancel(p: Panel)
  {
    p == Confirmed || p == Registered
  }

  /** The render guard as written: `success` first, then `isFull`, then the
      user, then `userRSVP`. */
  function FormPanel(success: bool, isFull: bool, signedIn: bool, registered: bool): (p: Panel)
    ensures p == RegisterButton <==> !success && !isFull && signedIn && !registered
    ensures OffersCancel(p) <==> success || (!isFull && signedIn && registered)
    ensures !success && isFull ==> p == FullNotice
  {
    if success then Confirmed
    else if isFull then FullNotice
    else if !signedIn then SignInPrompt
    else if registered then Registered
    else RegisterButton
  }

  /** A user who is registered for an event that is now full, on a fresh
      load of the page (`success` is false), is shown the full notice and
      has no way to cancel. */
  lemma FullEventHidesCancel()
    ensures !OffersCancel(FormPanel(false, true, true, true))
  {
  }

  /** The guard with the registration tested before capacity: a signed-in,
      registered user can always cancel, and registration is still offered
      only while the event is not full. */
  function IntendedPanel(success: bool, isFull: bool, signedIn: bool, registered: bool): (p: Panel)
    ensures p == RegisterButton <==> !success && !isFull && signedIn && !registered
    ensures OffersCancel(p) <==> success || (signedIn && registered)
  {
    if success then Confirmed
    else if signedIn && registered then Registered
    else if isFull then FullNotice
    else if !signedIn then SignInPrompt
    else RegisterButton
  }

  const AlreadyRegisteredMessage := "You've already RSVP'd to this event!"
  const RegisterFailedMessage := "Failed to RSVP"
  const CancelFailedMessage := "Failed to cancel RSVP"

  /** The RSVP form component for `eventId`: its props, the signed-in user,
      its state, and the database it writes to. */
  class RsvpForm {
    const eventId: string
    const isFull: bool
    const user: Option<User>
    const db: Database
    var isLoading: bool
    var error: Option<string>
    var success: bool
    var userRsvp: Option<RsvpRow>

    constructor (db: Database, eventId: string, isFull: bool, user: Option<User>)
      ensures this.db == db && this.eventId == eventId && this.isFull == isFull && this.user == user
      ensures !isLoading && error == None && !success && userRsvp == None
    {
      this.db, this.eventId, this.isFull, this.user := db, eventId, isFull, user;
      isLoading, error, success, userRsvp := false, None, false, None;
    }

    /** The panel rendered for the current state, with the corrected guard. */
    function Shown(): (p: Panel)
      reads this
      ensures p == RegisterButton <==> !success && !isFull && user.Some? && userRsvp.None?
      ensures user.Some? && userRsvp.Some? ==> OffersCancel(p)
    {
      IntendedPanel(success, isFull, user.Some?, userRsvp.Some?)
    }

    /** `checkRSVP`, run when the user is known: record the user's row for
        this event, or none when the lookup returns no data. */
    method CheckRsvp(reply: Reply)
      modifies this`userRsvp
      ensures user.None? ==> userRsvp == old(userRsvp)
      ensures user.Some? && reply.Err? ==> userRsvp == None
      ensures user.Some? && reply.Ok? ==> userRsvp == SingleMatch(db.rsvps, eventId, user.value.id)
      ensures user.Some? && reply.Ok? && AtMostOnce(db.rsvps, eventId, user.value.id) ==>
        (userRsvp.Some? <==> exists x :: x in db.rsvps && x.eventId == eventId && x.userId == user.value.id)
    {
      if user.None? {
        return;
      }
      if reply.Err? {
        userRsvp := None;
      } else {
        userRsvp := SingleMatch(db.rsvps, eventId, user.value.id);
        if AtMostOnce(db.rsvps, eventId, user.value.id) {
          LookupFindsRegistration(db.rsvps, eventId, user.value.id);
        }
      }
    }

    /** `handleRSVP`. It never consults `isFull`: capacity is guarded only by
        which panel is shown. `newId` is the id the store gives the new row. */
    method HandleRsvp(newId: string, reply: Reply)
      requires db.Valid() && newId !in IdsOf(db.rsvps)
      modifies this`isLoading, this`error, this`success, this`userRsvp, db
      ensures db.Valid() && db.events == old(db.events)
      // no signed-in user: nothing changes
      ensures user.None? ==>
        && db.rsvps == old(db.rsvps)
        && isLoading == old(isLoading) && error == old(error)
        && success == old(success) && userRsvp == old(userRsvp)
      // already registered: error, no row written
      ensures user.Some? && old(userRsvp).Some? ==>
        && db.rsvps == old(db.rsvps)
        && !isLoading && error == Some(AlreadyRegisteredMessage)
        && success == old(success) && userRsvp == old(userRsvp)
      // insert refused: its message, still unregistered
      ensures user.Some? && old(userRsvp).None? && reply.Err? ==>
        && db.rsvps == old(db.rsvps)
        && !isLoading && error == Some(CaughtMessage(reply.error, RegisterFailedMessage))
        && success == old(success) && userRsvp == None
      // insert accepted: exactly one new row, recorded as the user's RSVP
      ensures user.Some? && old(userRsvp).None? && reply.Ok? ==>
        && db.rsvps == old(db.rsvps) + [NewRow(newId, eventId, user.value)]
        && !isLoading && error == None
        && success && userRsvp == Some(NewRow(newId, eventId, user.value))
      ensures forall e ::
        (CountFor(db.rsvps, e) == CountFor(old(db.rsvps), e)
          + (if e == eventId && user.Some? && old(userRsvp).None? && reply.Ok? then 1 else 0))
    {
      if user.None? {
        return;
      }
      isLoading := true;
      error := None;
      if userRsvp.Some? {
        error := Some(AlreadyRegisteredMessage);
        isLoading := false;
        return;
      }
      if reply.Err? {
        error := Some(CaughtMessage(reply.error, RegisterFailedMessage));
      } else {
        var row := NewRow(newId, eventId, user.value);
        db.InsertRsvp(row);
        success := true;
        userRsvp := Some(row);
      }
      isLoading := false;
    }

    /** `handleCancel`: delete the recorded row by its id. */
    method HandleCancel(reply: Reply)
      requires db.Valid()
      modifies this`isLoading, this`error, this`success, this`userRsvp, db
      ensures db.Valid() && db.events == old(db.events)
      // nothing to cancel: nothing changes
      ensures user.None? || old(userRsvp).None? ==>
        && db.rsvps == old(db.rsvps)
        && isLoading == old(isLoading) && error == old(error)
        && success == old(success) && userRsvp == old(userRsvp)
      // delete refused: its message, still registered
      ensures user.Some? && old(userRsvp).Some? && reply.Err? ==>
        && db.rsvps == old(db.rsvps)
        && !isLoading && error == Some(CaughtMessage(reply.error, CancelFailedMessage))
        && success == old(success) && userRsvp == old(userRsvp)
      // delete accepted: only the recorded row goes, the form is unregistered
      ensures user.Some? && old(userRsvp).Some? && reply.Ok? ==>
        && db.rsvps == WithoutId(old(db.rsvps), old(userRsvp).value.id)
        && |db.rsvps| == |old(db.rsvps)| - (if old(userRsvp).value.id in IdsOf(old(db.rsvps)) then 1 else 0)
        && !isLoading && error == None
        && !success && userRsvp == None
    {
      if user.None? || userRsvp.None? {
        return;
      }
      isLoading := true;
      error := None;
      if reply.Err? {
        error := Some(CaughtMessage(reply.error, CancelFailedMessage));
      } else {
        db.DeleteRsvpById(userRsvp.value.id);
        userRsvp := None;
        success := false;
      }
      isLoading := false;
    }
  }

  /** Register, then cancel, both accepted by the store: the table is as it
      was and the form is back in the unregistered state. */
  method RegisterThenCancel(form: RsvpForm, newId: string)
    requires form.db.Valid() && newId !in IdsOf(form.db.rsvps)
    requires form.user.Some? && form.userRsvp.None?
    modifies form, form.db
    ensures form.db.rsvps == old(form.db.rsvps) && form.db.events == old(form.db.events)
    ensures form.userRsvp == None && !form.success && form.error == None
    ensures form.Shown() == (if form.isFull then FullNotice else RegisterButton)
  {
    form.HandleRsvp(newId, Ok);
    WithoutIdAfterInsert(old(form.db.rsvps), NewRow(newId, form.eventId, form.user.value));
    form.HandleCancel(Ok);
  }

  /** The duplicate guard, after a lookup the store answered: if the pair had
      at most one row, registering (whatever the insert's reply) keeps it so. */
  method LookupThenRegister(form: RsvpForm, newId: string, reply: Reply)
    requires form.db.Valid() && newId !in IdsOf(form.db.rsvps)
    requires form.user.Some? && AtMostOnce(form.db.rsvps, form.eventId, form.user.value.id)
    modifies form, form.db
    ensures form.db.Valid()
    ensures AtMostOnce(form.db.rsvps, form.eventId, form.user.value.id)
  {
    var u := form.user.value;
    form.CheckRsvp(Ok);
    ghost var before := form.db.rsvps;
    if form.userRsvp.None? {
      assert Matching(before, form.eventId, u.id) == [];
    }
    form.HandleRsvp(newId, reply);
    MatchingAppend(before, NewRow(newId, form.eventId, u), form.eventId, u.id);
  }

  /** The duplicate guard defeated without any concurrency: the lookup's
      error is discarded, so a user who already has a row is shown Register
      again, and an accepted insert gives the pair a second row. */
  method FailedLookupAllowsDuplicate(form: RsvpForm, newId: string, lookupError: DbError)
    requires form.db.Valid() && newId !in IdsOf(form.db.rsvps)
    requires form.user.Some? && !form.isFull && !form.success
    requires exists x :: x in form.db.rsvps && x.eventId == form.eventId && x.userId == form.user.value.id
    modifies form, form.db
    ensures |Matching(form.db.rsvps, form.eventId, form.user.value.id)| >= 2
  {
    var u := form.user.value;
    form.CheckRsvp(Err(lookupError));
    assert form.Shown() == RegisterButton;
    ghost var before := form.db.rsvps;
    ghost var x :| x in before && x.eventId == form.eventId && x.userId == u.id;
    assert |Matching(before, form.eventId, u.id)| >= 1 by {
      assert x in Matching(before, form.eventId, u.id);
    }
    form.HandleRsvp(newId, Ok);
    MatchingAppend(before, NewRow(newId, form.eventId, u), form.eventId, u.id);
  }
}
