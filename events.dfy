/**
 * The second event controller (`App\Http\Controllers\EventController`).
 * Every lookup is one query scoped to the caller's organization, so a
 * missing id, a trashed row and another organization's row all answer the
 * same 404. Store and update bound price (>= 0), capacity (>= 1) and the
 * length of title and venue (<= 255 characters).
 */
module Events {
  import opened Schema
  import opened Database

  const MAX_STRING: nat := 255

  /** GET: the caller's live events, each row as stored. */
  function Index(events: Table<Event>, org: nat): (r: Response<Table<Event>>)
    ensures r.Success? && r.status == OK
    ensures forall id :: id in r.body <==> Live(events, id) && events[id].organizationId == org
    ensures forall id :: id in r.body ==> id in events && r.body[id] == events[id]
  {
    Success(OK, OrgEvents(events, org))
  }

  /** `where('id', id)->where('organization_id', org)->first()`: the caller's live row with that id. */
  function FindOwned(events: Table<Event>, org: nat, id: nat): (r: Option<Event>)
    ensures r.Some? <==> id in OrgEvents(events, org)
    ensures r.Some? ==> r.value == events[id]
  {
    if id in events && !events[id].trashed && events[id].organizationId == org then Some(events[id]) else None
  }

  /** GET {id}: the caller's row, or 404 whatever the reason it is not. */
  function Show(events: Table<Event>, org: nat, id: nat): (r: Response<Event>)
    ensures r.Success? <==> id in OrgEvents(events, org)
    ensures r.Success? ==> r == Success(OK, events[id])
    ensures r.Failure? ==> r == Failure(NOT_FOUND, "")
  {
    match FindOwned(events, org, id)
    case None => Failure(NOT_FOUND, "")
    case Some(event) => Success(OK, event)
  }

  /** A string field that is bounded to 255 characters. */
  predicate Short(s: string)
  {
    |s| <= MAX_STRING
  }

  /** The validation rules of store: required fields, the length bounds and the two numeric minimums. */
  predicate StoreRules(input: EventInput)
  {
    && Filled(input.title) && Short(input.title.value)
    && Filled(input.venue) && Short(input.venue.value)
    && input.date.Some?
    && input.price.Some? && input.price.value >= 0
    && input.maxAttendees.Some? && input.maxAttendees.value >= 1
  }

  /** The validation rules of update: the same bounds, on the fields that are present. */
  predicate UpdateRules(input: EventInput)
  {
    && (input.title.Some? ==> input.title.value != "" && Short(input.title.value))
    && (input.venue.Some? ==> input.venue.value != "" && Short(input.venue.value))
    && (input.price.Some? ==> input.price.value >= 0)
    && (input.maxAttendees.Some? ==> input.maxAttendees.value >= 1)
  }

  /** The bounds store promises of a row: non-negative price, room for at least one attendee. */
  predicate Bounded(e: Event)
  {
    e.price >= 0 && e.maxAttendees >= 1
  }

  /**
   * POST with `newId` the next auto-increment id: 422 and no insert unless
   * the rules pass (in particular a negative price or a capacity below 1);
   * otherwise 201 and exactly one new row, owned by the caller.
   */
  function StoreResult(events: Table<Event>, newId: nat, org: nat, input: EventInput)
    : (r: (Table<Event>, Response<(nat, Event)>))
    requires newId !in events
    ensures r.1.Success? <==> StoreRules(input)
    ensures r.1.Failure? ==> r.0 == events && r.1.status == UNPROCESSABLE
    ensures (input.price.Some? && input.price.value < 0) || (input.maxAttendees.Some? && input.maxAttendees.value < 1)
            ==> r.1.Failure?
    ensures r.1.Success? ==> r.1.status == CREATED && r.1.body.0 == newId
    ensures r.1.Success? ==> r.0.Keys == events.Keys + {newId} && r.0[newId] == r.1.body.1
    ensures r.1.Success? ==> r.0[newId].organizationId == org && Bounded(r.0[newId])
    ensures forall id :: id in events ==> id in r.0 && r.0[id] == events[id]
  {
    if StoreRules(input) then
      var event := NewEvent(input, org);
      (events[newId := event], Success(CREATED, (newId, event)))
    else
      (events, Failure(UNPROCESSABLE, ""))
  }

  /**
   * PUT {id}: the scoped lookup first (404, nothing written), then the
   * rules (422, nothing written), then the present fields overwrite the
   * row's. A row that met the bounds still meets them.
   */
  function UpdateResult(events: Table<Event>, org: nat, id: nat, input: EventInput)
    : (r: (Table<Event>, Response<Event>))
    ensures r.1.Success? <==> id in OrgEvents(events, org) && UpdateRules(input)
    ensures id !in OrgEvents(events, org) ==> r == (events, Failure(NOT_FOUND, ""))
    ensures id in OrgEvents(events, org) && !UpdateRules(input) ==> r == (events, Failure(UNPROCESSABLE, ""))
    ensures r.1.Success? ==> r.0 == events[id := Patched(events[id], input)] && r.1 == Success(OK, r.0[id])
    ensures r.1.Success? && Bounded(events[id]) ==> Bounded(r.0[id])
  {
    match FindOwned(events, org, id)
    case None => (events, Failure(NOT_FOUND, ""))
    case Some(event) =>
      if !UpdateRules(input) then (events, Failure(UNPROCESSABLE, ""))
      else
        var updated := Patched(event, input);
        (events[id := updated], Success(OK, updated))
  }

  /** DELETE {id}: 404 and nothing written unless the row is the caller's; otherwise only that row is trashed. */
  function DestroyResult(events: Table<Event>, org: nat, id: nat): (r: (Table<Event>, Response<string>))
    ensures r.1.Success? <==> id in OrgEvents(events, org)
    ensures r.1.Failure? ==> r == (events, Failure(NOT_FOUND, ""))
    ensures r.1.Success? ==> r.1 == Success(OK, "Event deleted")
    ensures r.1.Success? ==> r.0 == events[id := events[id].(trashed := true)]
  {
    match FindOwned(events, org, id)
    case None => (events, Failure(NOT_FOUND, ""))
    case Some(event) => (events[id := event.(trashed := true)], Success(OK, "Event deleted"))
  }

  method Store(db: Db, org: nat, input: EventInput) returns (resp: Response<(nat, Event)>)
    requires db.Valid() && org in db.organizations
    modifies db`events, db`nextEventId
    ensures db.Valid()
    ensures (db.events, resp) == StoreResult(old(db.events), old(db.nextEventId), org, input)
    ensures db.nextEventId == if resp.Success? then old(db.nextEventId) + 1 else old(db.nextEventId)
  {
    if !StoreRules(input) {
      resp := Failure(UNPROCESSABLE, "");
      return;
    }
    var id := db.nextEventId;
    var event := NewEvent(input, org);
    db.events := db.events[id := event];
    db.nextEventId := id + 1;
    resp := Success(CREATED, (id, event));
  }

  method Update(db: Db, org: nat, id: nat, input: EventInput) returns (resp: Response<Event>)
    requires db.Valid()
    modifies db`events
    ensures db.Valid()
    ensures (db.events, resp) == UpdateResult(old(db.events), org, id, input)
  {
    var found := FindOwned(db.events, org, id);
    if found.None? {
      resp := Failure(NOT_FOUND, "");
      return;
    }
    if !UpdateRules(input) {
      resp := Failure(UNPROCESSABLE, "");
      return;
    }
    var event := Patched(found.value, input);
    db.events := db.events[id := event];
    resp := Success(OK, event);
  }

  method Destroy(db: Db, org: nat, id: nat) returns (resp: Response<string>)
    requires db.Valid()
    modifies db`events
    ensures db.Valid()
    ensures (db.events, resp) == DestroyResult(old(db.events), org, id)
  {
    var found := FindOwned(db.events, org, id);
    if found.None? {
      resp := Failure(NOT_FOUND, "");
      return;
    }
    db.events := db.events[id := found.value.(trashed := true)];
    resp := Success(OK, "Event deleted");
  }

  /**
   * Show, update and destroy answer the caller from the caller's own rows
   * alone: two stores that agree on them give the same answers, so nothing
   * about other organizations' events (not even that an id exists) leaks.
   */
  lemma {:induction false} AnswersDependOnlyOnOwnRows(e1: Table<Event>, e2: Table<Event>, org: nat, id: nat, input: EventInput)
    requires OrgEvents(e1, org) == OrgEvents(e2, org)
    ensures Show(e1, org, id) == Show(e2, org, id)
    ensures UpdateResult(e1, org, id, input).1 == UpdateResult(e2, org, id, input).1
    ensures DestroyResult(e1, org, id).1 == DestroyResult(e2, org, id).1
  {
    assert id in OrgEvents(e1, org) <==> id in OrgEvents(e2, org);
    if id in OrgEvents(e1, org) {
      assert e1[id] == OrgEvents(e1, org)[id] == OrgEvents(e2, org)[id] == e2[id];
    }
  }

  /** Another organization's row is answered exactly as an absent id is, and nothing is written. */
  lemma ForeignLooksMissing(events: Table<Event>, org: nat, id: nat, input: EventInput)
    requires id in events && events[id].organizationId != org
    ensures Show(events, org, id) == Show(events - {id}, org, id) == Failure(NOT_FOUND, "")
    ensures UpdateResult(events, org, id, input) == (events, Failure(NOT_FOUND, ""))
    ensures UpdateResult(events - {id}, org, id, input) == (events - {id}, Failure(NOT_FOUND, ""))
    ensures DestroyResult(events, org, id) == (events, Failure(NOT_FOUND, ""))
    ensures DestroyResult(events - {id}, org, id) == (events - {id}, Failure(NOT_FOUND, ""))
  {
  }

  /** What store answered is what show then returns: the request's fields under the caller's organization. */
  lemma StoreThenShow(events: Table<Event>, newId: nat, org: nat, input: EventInput)
    requires newId !in events && StoreRules(input)
    ensures Show(StoreResult(events, newId, org, input).0, org, newId)
         == Success(OK, StoreResult(events, newId, org, input).1.body.1)
    ensures Show(StoreResult(events, newId, org, input).0, org, newId).body == NewEvent(input, org)
  {
  }

  /** The bounds hold of every live row as long as rows come only through this controller. */
  lemma {:induction false} BoundsPreserved(events: Table<Event>, newId: nat, org: nat, id: nat, input: EventInput)
    requires newId !in events
    requires forall k :: k in events ==> Bounded(events[k])
    ensures var after := StoreResult(events, newId, org, input).0; forall k :: k in after ==> Bounded(after[k])
    ensures var after := UpdateResult(events, org, id, input).0; forall k :: k in after ==> Bounded(after[k])
    ensures var after := DestroyResult(events, org, id).0; forall k :: k in after ==> Bounded(after[k])
  {
    var stored := StoreResult(events, newId, org, input).0;
    forall k | k in stored ensures Bounded(stored[k]) {
      if k != newId { assert k in events; }
    }
  }
}
