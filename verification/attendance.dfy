/** The home page's attendance view: the per-event RSVP counts built by one
    pass over the `rsvps` rows, and the figures each event card derives from
    them (attendee count, spots left, full, "only N spots left"). */
module Attendance {
  import opened Store

  /** Event ids that occur in the rows. */
  function EventIds(rows: seq<RsvpRow>): set<string>
  {
    set r | r in rows :: r.eventId
  }

  /** The dictionary of counts the fold is meant to build: an entry for each
      event that has RSVPs, holding how many it has. */
  function CountsOf(rows: seq<RsvpRow>): map<string, nat>
  {
    map e | e in EventIds(rows) :: CountFor(rows, e)
  }

  /** One step of the fold: `acc[e] = (acc[e] || 0) + 1`. */
  function Bump(acc: map<string, nat>, e: string): map<string, nat>
  {
    acc[e := (if e in acc then acc[e] else 0) + 1]
  }

  /** Folding one more row bumps exactly its event's entry. */
  lemma CountsOfAppend(rows: seq<RsvpRow>, r: RsvpRow)
    ensures CountsOf(rows + [r]) == Bump(CountsOf(rows), r.eventId)
  {
    var before, after := CountsOf(rows), CountsOf(rows + [r]);
    assert EventIds(rows + [r]) == EventIds(rows) + {r.eventId} by {
      forall x | x in rows + [r] ensures x in rows || x == r { }
    }
    forall e | e in after.Keys
      ensures after[e] == Bump(before, r.eventId)[e]
    {
      CountForAppend(rows, r, e);
    }
  }

  /** Sum of the counts in a dictionary. */
  ghost function Total(m: map<string, nat>): nat
    decreases |m|
  {
    if m == map[] then 0
    else
      var k :| k in m;
      assert m.Keys == (m - {k}).Keys + {k};
      m[k] + Total(m - {k})
  }

  /** `Total` does not depend on which key is taken first. */
  lemma {:induction false} TotalRemove(m: map<string, nat>, k: string)
    requires k in m
    ensures Total(m) == m[k] + Total(m - {k})
    decreases |m|
  {
    var j :| j in m && Total(m) == m[j] + Total(m - {j});
    if j != k {
      assert m.Keys == (m - {j}).Keys + {j};
      assert m.Keys == (m - {k}).Keys + {k};
      TotalRemove(m - {j}, k);
      TotalRemove(m - {k}, j);
      assert m - {j} - {k} == m - {k} - {j};
    }
  }

  /** One fold step raises the sum of the counts by one. */
  lemma TotalBump(m: map<string, nat>, e: string)
    ensures Total(Bump(m, e)) == Total(m) + 1
  {
    var b := Bump(m, e);
    TotalRemove(b, e);
    if e in m {
      assert b - {e} == m - {e};
      TotalRemove(m, e);
    } else {
      assert b - {e} == m;
    }
  }

  /** The counts add up to the number of rows folded. */
  lemma {:induction false} CountsOfTotal(rows: seq<RsvpRow>)
    ensures Total(CountsOf(rows)) == |rows|
  {
    if rows == [] {
      assert CountsOf(rows) == map[];
    } else {
      var init, last := rows[..|rows| - 1], rows[|rows| - 1];
      assert rows == init + [last];
      CountsOfAppend(init, last);
      TotalBump(CountsOf(init), last.eventId);
      CountsOfTotal(init);
    }
  }

  /** An event has an entry exactly when it has RSVPs, and the entry is its
      number of rows. */
  lemma CountsOfAt(rows: seq<RsvpRow>)
    ensures forall e :: e in CountsOf(rows) <==> CountFor(rows, e) > 0
    ensures forall e :: e in CountsOf(rows) ==> CountsOf(rows)[e] == CountFor(rows, e)
  {
  }

  /** The fold over `rsvpsData || []`: a missing result counts as no rows. */
  method Tally(data: Option<seq<RsvpRow>>) returns (counts: map<string, nat>)
    ensures data.None? ==> counts == map[]
    ensures data.Some? ==> counts == CountsOf(data.value)
    ensures data.Some? ==> forall e :: (e in counts <==> CountFor(data.value, e) > 0)
    ensures data.Some? ==> forall e :: e in counts ==> counts[e] == CountFor(data.value, e)
    ensures Total(counts) == if data.Some? then |data.value| else 0
  {
    var rows := if data.Some? then data.value else [];
    counts := map[];
    for i := 0 to |rows|
      invariant counts == CountsOf(rows[..i])
    {
      CountsOfAppend(rows[..i], rows[i]);
      assert rows[..i + 1] == rows[..i] + [rows[i]];
      var e := rows[i].eventId;
      counts := Bump(counts, e);
    }
    assert rows[..|rows|] == rows;
    CountsOfAt(rows);
    CountsOfTotal(rows);
  }

  /** What one event card shows. */
  datatype Card = Card(
    attendeeCount: nat,
    spotsLeft: int,
    isFull: bool,
    fullBadge: bool,
    lowSpotsBadge: Option<int>)

  /** The card for `event`: `rsvpCounts[event.id] || 0` attendees, spots left
      not clamped, full when no spot is left, and the "Only N spots left!"
      badge while the event is not full and at most ten spots remain. */
  function EventCard(event: EventRow, counts: map<string, nat>): (c: Card)
    ensures event.id !in counts ==> c.attendeeCount == 0
    ensures event.id in counts ==> c.attendeeCount == counts[event.id]
    ensures c.spotsLeft + c.attendeeCount == event.capacity
    ensures c.isFull <==> c.attendeeCount >= event.capacity
    ensures c.fullBadge <==> c.isFull
    ensures c.lowSpotsBadge.Some? <==> 1 <= c.spotsLeft <= 10
    ensures c.lowSpotsBadge.Some? ==> c.lowSpotsBadge.value == c.spotsLeft
  {
    var attendeeCount := if event.id in counts then counts[event.id] else 0;
    var spotsLeft := event.capacity - attendeeCount;
    var isFull := spotsLeft <= 0;
    Card(attendeeCount, spotsLeft, isFull, isFull,
         if !isFull && spotsLeft <= 10 then Some(spotsLeft) else None)
  }

  /** A card built from the folded counts shows the event's live RSVP count,
      zero when it has none. */
  lemma CardFromRows(event: EventRow, rows: seq<RsvpRow>)
    ensures EventCard(event, CountsOf(rows)).attendeeCount == CountFor(rows, event.id)
    ensures EventCard(event, CountsOf(rows)).isFull <==> CountFor(rows, event.id) >= event.capacity
  {
  }

  /** The home page component's state. */
  class HomePage {
    var events: seq<EventRow>
    var rsvpCounts: map<string, nat>
    var loading: bool
    var error: Option<string>

    constructor ()
      ensures events == [] && rsvpCounts == map[] && loading && error == None
    {
      events, rsvpCounts, loading, error := [], map[], true, None;
    }

    /** `fetchData`: read both tables; an events error is shown and stops the
        load, an RSVP error is ignored and counts as no RSVPs. Events are taken
        in table order. */
    method FetchData(db: Database, eventsReply: Reply, rsvpsReply: Reply)
      modifies this
      ensures !loading
      ensures eventsReply.Err? ==>
        && error == Some(eventsReply.error.message)
        && events == old(events) && rsvpCounts == old(rsvpCounts)
      ensures eventsReply.Ok? ==>
        && error == old(error)
        && events == db.events
        && rsvpCounts == (if rsvpsReply.Ok? then CountsOf(db.rsvps) else map[])
      ensures eventsReply.Ok? && rsvpsReply.Ok? ==>
        forall i :: 0 <= i < |events| ==>
          EventCard(events[i], rsvpCounts).attendeeCount == CountFor(db.rsvps, events[i].id)
    {
      if eventsReply.Err? {
        error := Some(eventsReply.error.message);
        loading := false;
        return;
      }
      var rsvpsData := if rsvpsReply.Ok? then Some(db.rsvps) else None;
      var counts := Tally(rsvpsData);
      events := db.events;
      rsvpCounts := counts;
      loading := false;
      if rsvpsReply.Ok? {
        forall i | 0 <= i < |events|
          ensures EventCard(events[i], rsvpCounts).attendeeCount == CountFor(db.rsvps, events[i].id)
        {
          CardFromRows(events[i], db.rsvps);
        }
      }
    }
  }
}
