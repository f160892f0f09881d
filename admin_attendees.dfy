/**
 * The admin attendee listing (`/admin/attendees`). An attendee has no
 * organization of its own: it is the caller's when its event is a live
 * event of the caller's organization (`whereHas('event', ...)`, which also
 * applies the event's soft-delete scope).
 */
module AdminAttendees {
  import opened Schema
  import AdminEvents

  /** The attendees whose event is a live event of `org`, each row as stored. */
  function OrgAttendees(events: Table<Event>, attendees: Table<Attendee>, org: nat): (r: Table<Attendee>)
    ensures forall id :: id in r <==> id in attendees && attendees[id].eventId in OrgEvents(events, org)
    ensures forall id :: id in r ==> id in attendees && r[id] == attendees[id]
  {
    map id | id in attendees && attendees[id].eventId in OrgEvents(events, org) :: attendees[id]
  }

  /**
   * GET /admin/attendees: every attendee listed is registered for a live
   * event of the caller's organization, and every such attendee is listed.
   */
  function Index(events: Table<Event>, attendees: Table<Attendee>, org: nat): (r: Response<Table<Attendee>>)
    ensures r.Success? && r.status == OK
    ensures forall id :: id in r.body ==> id in attendees && r.body[id] == attendees[id]
    ensures forall id :: id in r.body ==> var e := attendees[id].eventId;
              e in events && events[e].organizationId == org && !events[e].trashed
    ensures forall id ::
              (id in attendees && Live(events, attendees[id].eventId)
               && events[attendees[id].eventId].organizationId == org) ==> id in r.body
  {
    Success(OK, OrgAttendees(events, attendees, org))
  }

  /** Two organizations' listings never share an attendee. */
  lemma {:induction false} ListingsDisjoint(events: Table<Event>, attendees: Table<Attendee>, a: nat, b: nat)
    requires a != b
    ensures Index(events, attendees, a).body.Keys !! Index(events, attendees, b).body.Keys
  {
    forall id | id in Index(events, attendees, a).body
      ensures id !in Index(events, attendees, b).body
    {
      assert events[attendees[id].eventId].organizationId == a;
    }
  }

  /**
   * Destroying an event takes its attendees out of every listing, the
   * destroying organization's included, and touches no attendee row.
   */
  lemma {:induction false} DestroyedEventHidesAttendees(events: Table<Event>, attendees: Table<Attendee>, org: nat,
                                                        id: nat, other: nat)
    requires AdminEvents.DestroyResult(events, org, id).1.Success?
    ensures forall a :: a in attendees && attendees[a].eventId == id
              ==> a !in Index(AdminEvents.DestroyResult(events, org, id).0, attendees, other).body
  {
    var after := AdminEvents.DestroyResult(events, org, id).0;
    assert !Live(after, id);
  }
}
