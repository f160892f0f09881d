/**
 * The public, unauthenticated controller behind `/{org}/...`. It reads the
 * organization the middleware attached to the request and dereferences it:
 * both actions therefore require that one is attached.
 */
module PublicEvents {
  import opened Schema
  import opened Database

  const EVENT_NOT_IN_ORGANIZATION: string := "Event not found in this organization."
  const REGISTERED: string := "Registered successfully."

  /** The body of a registration request; every field may be absent. */
  datatype Registration = Registration(eventId: Option<nat>, name: Option<string>, email: Option<string>, phone: Option<string>)

  /** GET /{org}/events at time `now`: the organization's live events dated `now` or later. */
  function Index(events: Table<Event>, request: Request, now: int): (r: Response<Table<Event>>)
    requires request.organization.Some?
    ensures r.Success? && r.status == OK
    ensures forall id :: id in r.body <==> id in OrgEvents(events, request.organization.value) && events[id].date >= now
    ensures forall id :: id in r.body ==> id in events && r.body[id] == events[id]
  {
    var upcoming := OrgEvents(events, request.organization.value);
    Success(OK, map id | id in upcoming && upcoming[id].date >= now :: upcoming[id])
  }

  /**
   * The validation rules of register. `exists:events,id` queries the table
   * itself, so an id of a trashed event or of another organization's event
   * passes it.
   */
  predicate RegisterRules(events: Table<Event>, input: Registration, isEmail: string -> bool)
  {
    && input.eventId.Some? && input.eventId.value in events
    && Filled(input.name)
    && Filled(input.email) && isEmail(input.email.value)
    && Filled(input.phone)
  }

  /** The attendees already registered for an event. */
  function AttendeesOf(attendees: Table<Attendee>, eventId: nat): (r: set<nat>)
    ensures forall id :: id in r <==> id in attendees && attendees[id].eventId == eventId
  {
    set id | id in attendees && attendees[id].eventId == eventId
  }

  /**
   * POST /{org}/register with `newId` the next attendee id: 422 unless the
   * rules pass; 404 with its message unless the event is a live event of
   * the attached organization; otherwise one new attendee for that event.
   * Nothing on the attendees table takes part in the decision: there is no
   * capacity check and no duplicate check.
   */
  function RegisterResult(events: Table<Event>, attendees: Table<Attendee>, newId: nat, request: Request,
                          input: Registration, isEmail: string -> bool)
    : (r: (Table<Attendee>, Response<string>))
    requires request.organization.Some? && newId !in attendees
    ensures !RegisterRules(events, input, isEmail) ==> r == (attendees, Failure(UNPROCESSABLE, ""))
    ensures RegisterRules(events, input, isEmail) && input.eventId.value !in OrgEvents(events, request.organization.value)
            ==> r == (attendees, Failure(NOT_FOUND, EVENT_NOT_IN_ORGANIZATION))
    ensures r.1.Success? <==> RegisterRules(events, input, isEmail)
                              && input.eventId.value in OrgEvents(events, request.organization.value)
    ensures r.1.Success? ==> r.1 == Success(OK, REGISTERED)
    ensures r.1.Success? ==> r.0 == attendees[newId := Attendee(input.name.value, input.email.value, input.phone.value,
                                                                input.eventId.value)]
  {
    if !RegisterRules(events, input, isEmail) then
      (attendees, Failure(UNPROCESSABLE, ""))
    else if input.eventId.value !in OrgEvents(events, request.organization.value) then
      (attendees, Failure(NOT_FOUND, EVENT_NOT_IN_ORGANIZATION))
    else
      var attendee := Attendee(input.name.value, input.email.value, input.phone.value, input.eventId.value);
      (attendees[newId := attendee], Success(OK, REGISTERED))
  }

  method Register(db: Db, request: Request, input: Registration, isEmail: string -> bool) returns (resp: Response<string>)
    requires db.Valid() && request.organization.Some?
    modifies db`attendees, db`nextAttendeeId
    ensures db.Valid()
    ensures (db.attendees, resp) == RegisterResult(db.events, old(db.attendees), old(db.nextAttendeeId), request, input, isEmail)
    ensures db.nextAttendeeId == if resp.Success? then old(db.nextAttendeeId) + 1 else old(db.nextAttendeeId)
  {
    if !RegisterRules(db.events, input, isEmail) {
      resp := Failure(UNPROCESSABLE, "");
      return;
    }
    var eventId := input.eventId.value;
    var organization := request.organization.value;
    if !(eventId in db.events && !db.events[eventId].trashed && db.events[eventId].organizationId == organization) {
      resp := Failure(NOT_FOUND, EVENT_NOT_IN_ORGANIZATION);
      return;
    }
    var id := db.nextAttendeeId;
    db.attendees := db.attendees[id := Attendee(input.name.value, input.email.value, input.phone.value, eventId)];
    db.nextAttendeeId := id + 1;
    resp := Success(OK, REGISTERED);
  }

  /** An event id that is in no table row is a validation failure, not the tenant-mismatch 404. */
  lemma UnknownEventIsInvalid(events: Table<Event>, attendees: Table<Attendee>, newId: nat, request: Request,
                              input: Registration, isEmail: string -> bool)
    requires request.organization.Some? && newId !in attendees
    requires input.eventId.Some? && input.eventId.value !in events
    ensures RegisterResult(events, attendees, newId, request, input, isEmail) == (attendees, Failure(UNPROCESSABLE, ""))
  {
  }

  /**
   * An otherwise valid registration for another organization's event, or for
   * a trashed one, passes validation and is refused with the 404 message;
   * no attendee is created.
   */
  lemma ForeignOrTrashedEventNotFound(events: Table<Event>, attendees: Table<Attendee>, newId: nat, request: Request,
                                      input: Registration, isEmail: string -> bool)
    requires request.organization.Some? && newId !in attendees
    requires RegisterRules(events, input, isEmail)
    requires events[input.eventId.value].organizationId != request.organization.value || events[input.eventId.value].trashed
    ensures RegisterResult(events, attendees, newId, request, input, isEmail)
         == (attendees, Failure(NOT_FOUND, EVENT_NOT_IN_ORGANIZATION))
  {
  }

  /**
   * Registration checks neither capacity nor duplicates: with the event full
   * and the same address already registered for it, a valid request for a
   * live event of the organization still adds an attendee.
   */
  lemma {:induction false} NoCapacityOrDuplicateCheck(events: Table<Event>, attendees: Table<Attendee>, newId: nat,
                                                      request: Request, input: Registration, isEmail: string -> bool)
    requires request.organization.Some? && newId !in attendees
    requires RegisterRules(events, input, isEmail)
    requires input.eventId.value in OrgEvents(events, request.organization.value)
    requires |AttendeesOf(attendees, input.eventId.value)| >= events[input.eventId.value].maxAttendees
    requires exists id :: id in AttendeesOf(attendees, input.eventId.value) && attendees[id].email == input.email.value
    ensures RegisterResult(events, attendees, newId, request, input, isEmail).1.Success?
    ensures |AttendeesOf(RegisterResult(events, attendees, newId, request, input, isEmail).0, input.eventId.value)|
            == |AttendeesOf(attendees, input.eventId.value)| + 1
  {
    var after := RegisterResult(events, attendees, newId, request, input, isEmail).0;
    assert AttendeesOf(after, input.eventId.value) == AttendeesOf(attendees, input.eventId.value) + {newId};
  }
}
