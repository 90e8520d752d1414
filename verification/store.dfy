/** The two remote tables, `events` and `rsvps`, held in memory, and the
    equality-filtered calls the components issue against them. Every remote
    call is one atomic step; a call the store refuses is a `Reply` the caller
    passes in. */
module Store {

  datatype Option<+T> = None | Some(value: T)

  /** A row of `events`, reduced to the columns the capacity logic reads. */
  datatype EventRow = EventRow(id: string, capacity: int)

  /** A row of `rsvps`. */
  datatype RsvpRow = RsvpRow(
    id: string,
    eventId: string,
    userId: string,
    attendeeName: string,
    avatarUrl: Option<string>)

  /** The error object a store call reports. `isErrorInstance` says whether
      the thrown value is an `Error`, which decides what a catch block shows. */
  datatype DbError = DbError(message: string, isErrorInstance: bool)

  /** What the store answers to one call. */
  datatype Reply = Ok | Err(error: DbError)

  /** The text a handler's catch block shows for a thrown store error. */
  function CaughtMessage(e: DbError, fallback: string): string
  {
    if e.isErrorInstance then e.message else fallback
  }

  /** Number of RSVP rows that belong to event `e`. */
  function CountFor(rows: seq<RsvpRow>, e: string): (n: nat)
    ensures n <= |rows|
    ensures n == 0 <==> forall r :: r in rows ==> r.eventId != e
  {
    if rows == [] then 0
    else (if rows[0].eventId == e then 1 else 0) + CountFor(rows[1..], e)
  }

  /** Inserting one row raises the count of its event by one and no other. */
  lemma {:induction false} CountForAppend(rows: seq<RsvpRow>, r: RsvpRow, e: string)
    ensures CountFor(rows + [r], e) == CountFor(rows, e) + (if r.eventId == e then 1 else 0)
  {
    if rows == [] {
      assert rows + [r] == [r];
    } else {
      assert (rows + [r])[1..] == rows[1..] + [r];
      CountForAppend(rows[1..], r, e);
    }
  }

  function IdsOf(rows: seq<RsvpRow>): set<string>
  {
    set r | r in rows :: r.id
  }

  /** No two RSVP rows share an `id` (the table's primary key). */
  ghost predicate UniqueIds(rows: seq<RsvpRow>)
  {
    rows == [] || (rows[0].id !in IdsOf(rows[1..]) && UniqueIds(rows[1..]))
  }

  /** Inserting a row with a fresh id keeps the primary key unique. */
  lemma {:induction false} UniqueIdsAppend(rows: seq<RsvpRow>, r: RsvpRow)
    requires UniqueIds(rows) && r.id !in IdsOf(rows)
    ensures UniqueIds(rows + [r]) && IdsOf(rows + [r]) == IdsOf(rows) + {r.id}
  {
    if rows == [] {
      assert rows + [r] == [r];
    } else {
      assert (rows + [r])[1..] == rows[1..] + [r];
      assert rows == [rows[0]] + rows[1..];
      UniqueIdsAppend(rows[1..], r);
    }
  }

  /** `delete().eq("id", id)` on `rsvps`. */
  function WithoutId(rows: seq<RsvpRow>, id: string): (r: seq<RsvpRow>)
    ensures forall x :: x in r <==> x in rows && x.id != id
    ensures UniqueIds(rows) ==> UniqueIds(r)
    ensures UniqueIds(rows) ==> |r| == |rows| - (if id in IdsOf(rows) then 1 else 0)
  {
    if rows == [] then []
    else if rows[0].id == id then WithoutId(rows[1..], id)
    else [rows[0]] + WithoutId(rows[1..], id)
  }

  /** Deleting the row just inserted under a fresh id restores the table. */
  lemma {:induction false} WithoutIdAfterInsert(rows: seq<RsvpRow>, r: RsvpRow)
    requires r.id !in IdsOf(rows)
    ensures WithoutId(rows + [r], r.id) == rows
  {
    if rows == [] {
      assert rows + [r] == [r];
    } else {
      assert (rows + [r])[1..] == rows[1..] + [r];
      assert rows[0] in rows;
      WithoutIdAfterInsert(rows[1..], r);
    }
  }

  /** `delete().eq("event_id", e)` on `rsvps`. */
  function WithoutEvent(rows: seq<RsvpRow>, e: string): (r: seq<RsvpRow>)
    ensures forall x :: x in r <==> x in rows && x.eventId != e
    ensures CountFor(r, e) == 0
    ensures forall e' :: e' != e ==> CountFor(r, e') == CountFor(rows, e')
    ensures UniqueIds(rows) ==> UniqueIds(r)
  {
    if rows == [] then []
    else if rows[0].eventId == e then WithoutEvent(rows[1..], e)
    else [rows[0]] + WithoutEvent(rows[1..], e)
  }

  /** `delete().eq("id", id)` on `events`. */
  function WithoutEventRow(events: seq<EventRow>, id: string): (r: seq<EventRow>)
    ensures forall x :: x in r <==> x in events && x.id != id
  {
    if events == [] then []
    else if events[0].id == id then WithoutEventRow(events[1..], id)
    else [events[0]] + WithoutEventRow(events[1..], id)
  }

  /** The remote database: the two tables the core reads and writes. */
  class Database {
    var events: seq<EventRow>
    var rsvps: seq<RsvpRow>

    ghost predicate Valid()
      reads this
    {
      UniqueIds(rsvps)
    }

    constructor (events: seq<EventRow>, rsvps: seq<RsvpRow>)
      requires UniqueIds(rsvps)
      ensures Valid() && this.events == events && this.rsvps == rsvps
    {
      this.events := events;
      this.rsvps := rsvps;
    }

    /** `from("rsvps").insert(row)`; the store assigns `row.id`, which is fresh. */
    method InsertRsvp(row: RsvpRow)
      requires Valid() && row.id !in IdsOf(rsvps)
      modifies this
      ensures Valid()
      ensures rsvps == old(rsvps) + [row] && events == old(events)
      ensures forall e :: CountFor(rsvps, e) == CountFor(old(rsvps), e) + (if row.eventId == e then 1 else 0)
    {
      UniqueIdsAppend(rsvps, row);
      forall e ensures CountFor(rsvps + [row], e) == CountFor(rsvps, e) + (if row.eventId == e then 1 else 0) {
        CountForAppend(rsvps, row, e);
      }
      rsvps := rsvps + [row];
    }

    /** `from("rsvps").delete().eq("id", id)`. */
    method DeleteRsvpById(id: string)
      requires Valid()
      modifies this
      ensures Valid()
      ensures rsvps == WithoutId(old(rsvps), id) && events == old(events)
      ensures |rsvps| == |old(rsvps)| - (if id in IdsOf(old(rsvps)) then 1 else 0)
    {
      rsvps := WithoutId(rsvps, id);
    }

    /** `from("rsvps").delete().eq("event_id", e)`. */
    method DeleteRsvpsByEvent(e: string)
      requires Valid()
      modifies this
      ensures Valid()
      ensures rsvps == WithoutEvent(old(rsvps), e) && events == old(events)
    {
      rsvps := WithoutEvent(rsvps, e);
    }

    /** `from("events").delete().eq("id", id)`. */
    method DeleteEventById(id: string)
      requires Valid()
      modifies this
      ensures Valid()
      ensures events == WithoutEventRow(old(events), id) && rsvps == old(rsvps)
    {
      events := WithoutEventRow(events, id);
    }
  }
}
