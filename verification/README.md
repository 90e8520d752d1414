# RSVP capacity model

A Dafny model of the capacity and RSVP logic of an event-RSVP web
application. The application keeps two remote tables, `events` (an id and a
capacity, among columns that play no part here) and `rsvps` (id, event id,
user id, attendee name, avatar URL). Three components hold the logic:

- the home page (`app/page.tsx`) folds every RSVP row into a dictionary of
  per-event counts and derives, per event card, the attendee count, the spots
  left, whether the event is full and whether the "Only N spots left!" badge
  shows;
- the RSVP form (`components/rsvp-form.tsx`) looks up the signed-in user's
  existing RSVP, registers (inserting one row whose attendee name falls back
  from full name to email local part to `"Anonymous"`) and cancels (deleting
  the recorded row by id), and chooses which panel to render;
- the delete button (`components/delete-event-button.tsx`) deletes an
  event's RSVPs and then the event.

The tables are the fields of a `Database` object (`store.dfy`); every remote
call is one atomic step on them. A call the store refuses is a `Reply`
parameter (`Ok` or `Err` carrying the error object), and the id the store
gives a new row is a parameter that must be fresh. Each component is a class
whose fields are its React state; each handler is a method whose
postcondition gives the complete new state of the component and of the
tables. Pure derivations (counts, card figures, name fallback, render guard)
are functions with contracts, and the lemmas relate them: appending a row
bumps exactly one count, the counts sum to the number of rows, deleting a
freshly inserted row restores the table, and so on.

Files: `store.dfy` (module `Store`), `attendance.dfy` (`Attendance`),
`registration.dfy` (`Registration`), `deletion.dfy` (`Deletion`).

Three behaviours of the code are worth stating up front. `handleRSVP`
never reads capacity: only the render guard hides Register, and it uses the
`isFull` prop computed when the page was rendered. `handleCancel` deletes by
the recorded row's id with no check that the row belongs to the user.
`handleDelete` ignores the reply to the RSVP delete and deletes the event
anyway.

## Model

| member | source | states |
|---|---|---|
| Store.CountFor | app/page.tsx:51-57 | the number of RSVP rows of an event is at most the number of rows, and is zero exactly when no row belongs to the event |
| Store.CountForAppend | app/page.tsx:52-54 | inserting one row raises the count of its own event by one and leaves every other event's count unchanged |
| Store.UniqueIdsAppend | components/rsvp-form.tsx:47-52 | inserting a row under a fresh id keeps RSVP ids unique and adds exactly that id |
| Store.WithoutId | components/rsvp-form.tsx:85-88 | deleting by id keeps exactly the rows with another id; with unique ids it removes one row if the id is present and none otherwise |
| Store.WithoutIdAfterInsert | components/rsvp-form.tsx:47-93 | deleting the row just inserted under a fresh id gives back the original table |
| Store.WithoutEvent | components/delete-event-button.tsx:28 | deleting by event id keeps exactly the rows of other events: the event's count becomes zero, every other event's count is unchanged, ids stay unique |
| Store.WithoutEventRow | components/delete-event-button.tsx:31-34 | deleting the event row keeps exactly the events with another id |
| Store.Database.InsertRsvp | components/rsvp-form.tsx:47-52 | the insert appends the row, keeps ids unique, leaves events alone and raises only the row's event count by one |
| Store.Database.DeleteRsvpById | components/rsvp-form.tsx:85-88 | the delete by id removes only rows with that id, at most one row, and leaves events alone |
| Store.Database.DeleteRsvpsByEvent | components/delete-event-button.tsx:28 | the delete by event id removes exactly that event's RSVPs and leaves events alone |
| Store.Database.DeleteEventById | components/delete-event-button.tsx:31-34 | the delete by id removes exactly that event row and leaves RSVPs alone |
| Attendance.CountsOfAppend | app/page.tsx:52-54 | folding one more row changes the dictionary only at that row's event, raising it by one (or creating it at one) |
| Attendance.CountsOfAt | app/page.tsx:51-57 | the folded dictionary has an entry for an event exactly when the event has RSVP rows, and the entry is the number of those rows |
| Attendance.CountsOfTotal | app/page.tsx:51-57 | the counts in the folded dictionary add up to the number of rows folded |
| Attendance.Tally | app/page.tsx:49-57 | the loop builds the dictionary: a missing result gives an empty map; otherwise an event has an entry exactly when it has RSVPs, the entry is its row count, and the entries sum to the number of rows |
| Attendance.EventCard | app/page.tsx:124-182 | an event missing from the dictionary has 0 attendees; spots left is capacity minus attendees, unclamped; full (and the Full badge) exactly when attendees reach capacity; the low-spots badge shows exactly when 1 to 10 spots are left, with that number |
| Attendance.CardFromRows | app/page.tsx:124-126 | a card built from the folded counts shows the event's live RSVP count and is full exactly when that count reaches capacity |
| Attendance.HomePage.constructor | app/page.tsx:29-32 | a new page holds no events and no counts, is loading and has no error |
| Attendance.HomePage.FetchData | app/page.tsx:35-61 | an events error is shown and leaves events and counts as they were; otherwise the page holds the events and the folded counts (empty when the RSVP read fails), and each card shows its event's live count; loading ends either way |
| Registration.LocalPart | components/rsvp-form.tsx:50 | the first piece of `split('@')` is a prefix of the email, holds no `'@'`, and is followed by `'@'` unless it is the whole email |
| Registration.AttendeeName | components/rsvp-form.tsx:50 | the name is never empty: a non-empty full name wins; else the email text before the first `'@'` when there is some; else `"Anonymous"` |
| Registration.Matching | components/rsvp-form.tsx:110-115 | the select with two equality filters keeps exactly the rows of that event and that user |
| Registration.MatchingAppend | components/rsvp-form.tsx:47-52 | inserting one row adds it to an (event, user) pair's rows exactly when it belongs to that pair, leaving the pair's other rows as they were |
| Registration.SingleMatch | components/rsvp-form.tsx:108-117 | a found row is the user's row for the event and the only one; nothing is found although a row exists only when the pair has several rows |
| Registration.LookupFindsRegistration | components/rsvp-form.tsx:104-121 | while the pair has at most one row, the lookup finds a row exactly when the user has registered |
| Registration.FormPanel | components/rsvp-form.tsx:123-178 | the guard as written: Register is offered exactly when not confirmed, not full, signed in and not registered; Cancel exactly when confirmed or (not full, signed in, registered); a full event always shows the full notice |
| Registration.FullEventHidesCancel | components/rsvp-form.tsx:166-178 | a registered, signed-in user of a full event on a fresh page load is offered no cancel |
| Registration.IntendedPanel | components/rsvp-form.tsx:166-178 | the corrected guard: Register offered under the same condition; Cancel offered whenever confirmed or signed in and registered |
| Registration.RsvpForm.Shown | components/rsvp-form.tsx:123-178 | the panel shown offers Register exactly when not confirmed, not full, signed in and unregistered, and offers Cancel to every registered user |
| Registration.RsvpForm.constructor | components/rsvp-form.tsx:21-29 | a new form is not loading, has no error, no success and no recorded RSVP |
| Registration.RsvpForm.CheckRsvp | components/rsvp-form.tsx:105-121 | without a user nothing is looked up; a failed read records nothing; otherwise the single matching row is recorded, which under at-most-once is present exactly when the user has a row |
| Registration.RsvpForm.HandleRsvp | components/rsvp-form.tsx:31-66 | no user: nothing changes; already recorded: the "already RSVP'd" error and no row; refused insert: its message and still unregistered; accepted insert: exactly one new row for this event and user, recorded, success set; only this event's count rises, by one, whatever the capacity |
| Registration.RsvpForm.HandleCancel | components/rsvp-form.tsx:76-102 | no user or no recorded RSVP: nothing changes; refused delete: its message and still registered; accepted delete: only the recorded row's id is deleted (at most one row), RSVP and success cleared |
| Registration.RegisterThenCancel | components/rsvp-form.tsx:31-102 | a register then a cancel, both accepted, leave both tables as they were and the form unregistered with Register offered again unless the event is full |
| Registration.LookupThenRegister | components/rsvp-form.tsx:31-66 | the duplicate guard: after a lookup the store answered, registering keeps at most one RSVP row per (event, user), whatever the insert's reply |
| Registration.FailedLookupAllowsDuplicate | components/rsvp-form.tsx:105-121 | a failed lookup is discarded, so a user who already has a row is offered Register, and an accepted insert gives the pair a second row |
| Deletion.DeleteEventButton.constructor | components/delete-event-button.tsx:14-18 | a new button is not loading, has no error and has not navigated |
| Deletion.DeleteEventButton.HandleDelete | components/delete-event-button.tsx:20-44 | an accepted RSVP delete leaves no RSVP of the event; other events' RSVPs are untouched; the event delete is attempted whatever the first reply; an accepted one removes only that event and navigates home; a refused one shows its message and does not navigate, leaving the event present (with no RSVPs if the first delete was accepted) |

## Findings

| source | as written | input that shows it | evidently intended | confidence | as-written member | corrected member |
|---|---|---|---|---|---|---|
| components/rsvp-form.tsx:166-178 | the render guard tests `isFull` before `userRSVP`, so a registered user of a full event sees only "This event is at full capacity" | capacity 1, one RSVP by user A; A reloads the event page: `success` false, `isFull` true, `userRSVP` A's row | a registered user can always cancel; only the Register button depends on capacity | medium, not executed | Registration.FormPanel, Registration.FullEventHidesCancel | Registration.IntendedPanel |

`Registration.RsvpForm.Shown` uses the corrected guard.

## Left out

- Rendering, dialogs, badge styling, `router.push`/`router.refresh` and the `setTimeout` delays: only the conditions that gate them are modelled (navigation is the `navigatedHome` flag).
- The store client itself: network behaviour, ordering, and the error semantics of `.single()` on the insert (the inserted row is taken as returned). Failures are `Reply` parameters; a refused write changes no row.
- Registration.RsvpForm.CheckRsvp: the duplicate guard holds only after a lookup the store answered (`Registration.LookupThenRegister`). The lookup's error is discarded, so a failed lookup leaves a registered user unregistered in the form, and registering again duplicates the row (`Registration.FailedLookupAllowsDuplicate`). The model reproduces this; it does not model a fix.
- Concurrency: the race between the `checkRSVP` snapshot and the insert, and concurrent registrations past capacity. Handlers run one at a time.
- Attendance.HomePage.FetchData: events are kept in table order; the `order("event_date")` sort is not modelled, since dates are not modelled.
- Registration.RsvpForm.HandleRsvp: requires the id the store assigns to be fresh; the store's key generation is not modelled.
- Event editing and its capacity check (`app/events/[id]/edit/page.tsx`) and the event detail page's own count (`app/events/[id]/page.tsx`) are not part of this model.
- Event creation (`app/create/page.tsx`): form parsing and previews. Events are taken as given; capacity is an unbounded integer, and `capacity >= 1` is only the input's `min` attribute, so it is not assumed.
- Sign-in and sign-out through the identity provider, image upload to blob storage, date display, sharing, the image popup and the layout.
- The `isLoading` flag is modelled, but the buttons it disables are not.
