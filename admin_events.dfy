/**
 * The routed admin event controller (`/admin/events`). Route-model binding
 * answers 404 for an id that is not a live row before the action runs;
 * `authorizeAccess` answers 403 for a live row of another organization.
 * Store validates presence only: no bounds on price or capacity.
 */
module AdminEvents {
  import opened Schema
  import opened Database

  /** Outcome of `abort_unless`: carry on, or stop with a status. */
  datatype Gate = Pass | Abort(status: int)

  /** GET /admin/events: the caller's live events, each row as stored. */
  function Index(events: Table<Event>, org: nat): (r: Response<Table<Event>>)
    ensures r.Success? && r.status == OK
    ensures forall id :: id in r.body <==> Live(events, id) && events[id].organizationId == org
    ensures forall id :: id in r.body ==> id in events && r.body[id] == events[id]
  {
    Success(OK, OrgEvents(events, org))
  }

  /** `authorizeAccess`: 403 unless the event belongs to the caller's organization. */
  function AuthorizeAccess(event: Event, org: nat): (r: Gate)
    ensures r.Pass? <==> event.organizationId == org
    ensures r.Abort? ==> r.status == FORBIDDEN
  {
    if event.organizationId == org then Pass else Abort(FORBIDDEN)
  }

  /**
   * GET /admin/events/{id}: 404 when no live row has the id, 403 when the
   * row is another organization's, the row itself otherwise.
   */
  function Show(events: Table<Event>, org: nat, id: nat): (r: Response<Event>)
    ensures r.Success? <==> id in OrgEvents(events, org)
    ensures r.Success? ==> r == Success(OK, events[id])
    ensures !Live(events, id) ==> r == Failure(NOT_FOUND, "")
    ensures Live(events, id) && events[id].organizationId != org ==> r == Failure(FORBIDDEN, "")
  {
    if !Live(events, id) then Failure(NOT_FOUND, "")
    else match AuthorizeAccess(events[id], org)
      case Pass => Success(OK, events[id])
      case Abort(status) => Failure(status, "")
  }

  /** The validation rules of store: five required fields, description optional. */
  predicate StoreRules(input: EventInput)
  {
    Filled(input.title) && Filled(input.venue) && input.date.Some? && input.price.Some?
    && input.maxAttendees.Some?
  }

  /**
   * POST /admin/events with `newId` the next auto-increment id: 422 and no
   * insert unless the rules pass; otherwise 201 and exactly one new row,
   * owned by the caller.
   */
  function StoreResult(events: Table<Event>, newId: nat, org: nat, input: EventInput)
    : (r: (Table<Event>, Response<(nat, Event)>))
    requires newId !in events
    ensures r.1.Success? <==> StoreRules(input)
    ensures r.1.Failure? ==> r.0 == events && r.1.status == UNPROCESSABLE
    ensures r.1.Success? ==> r.1.status == CREATED && r.1.body.0 == newId
    ensures r.1.Success? ==> r.0.Keys == events.Keys + {newId} && r.0[newId] == r.1.body.1
    ensures r.1.Success? ==> r.0[newId].organizationId == org && !r.0[newId].trashed
    ensures forall id :: id in events ==> id in r.0 && r.0[id] == events[id]
  {
    if StoreRules(input) then
      var event := NewEvent(input, org);
      (events[newId := event], Success(CREATED, (newId, event)))
    else
      (events, Failure(UNPROCESSABLE, ""))
  }

  /**
   * PUT /admin/events/{id}: the same 404/403 as show with nothing written;
   * otherwise the six mutable fields present in the request overwrite the
   * row's and no other row changes.
   */
  function UpdateResult(events: Table<Event>, org: nat, id: nat, input: EventInput)
    : (r: (Table<Event>, Response<Event>))
    ensures r.1.Success? <==> id in OrgEvents(events, org)
    ensures r.1.Failure? ==> r.0 == events && r.1 == Show(events, org, id)
    ensures r.1.Success? ==> r.0 == events[id := Patched(events[id], input)]
    ensures r.1.Success? ==> r.1 == Success(OK, r.0[id])
  {
    match Show(events, org, id)
    case Failure(status, error) => (events, Failure(status, error))
    case Success(_, event) =>
      var updated := Patched(event, input);
      (events[id := updated], Success(OK, updated))
  }

  /**
   * DELETE /admin/events/{id}: the same 404/403 as show with nothing written;
   * otherwise the row is marked trashed and no other row changes.
   */
  function DestroyResult(events: Table<Event>, org: nat, id: nat): (r: (Table<Event>, Response<string>))
    ensures r.1.Success? <==> id in OrgEvents(events, org)
    ensures r.1.Failure? ==> r.0 == events && r.1 == Failure(Show(events, org, id).status, "")
    ensures r.1.Success? ==> r.1 == Success(OK, "Event deleted")
    ensures r.1.Success? ==> r.0 == events[id := events[id].(trashed := true)]
  {
    match Show(events, org, id)
    case Failure(status, error) => (events, Failure(status, error))
    case Success(_, event) => (events[id := event.(trashed := true)], Success(OK, "Event deleted"))
  }

  method Store(db: Db, org: nat, input: EventInput) returns (resp: Response<(nat, Event)>)
    requires db.Valid() && org in db.organizations
    modifies db`events, db`nextEventId
    ensures db.Valid()
    ensures (db.events, resp) == StoreResult(old(db.events), old(db.nextEventId), org, input)
    ensures db.nextEventId == if resp.Success? then old(db.nextEventId) + 1 else old(db.nextEventId)
  {
    if !StoreRules(input) {
      resp := Failure(UNPROCESSABLE, "");
      return;
    }
    var id := db.nextEventId;
    var event := NewEvent(input, org);
    db.events := db.events[id := event];
    db.nextEventId := id + 1;
    resp := Success(CREATED, (id, event));
  }

  method Update(db: Db, org: nat, id: nat, input: EventInput) returns (resp: Response<Event>)
    requires db.Valid()
    modifies db`events
    ensures db.Valid()
    ensures (db.events, resp) == UpdateResult(old(db.events), org, id, input)
  {
    if id !in db.events || db.events[id].trashed {
      resp := Failure(NOT_FOUND, "");
      return;
    }
    var event := db.events[id];
    if AuthorizeAccess(event, org).Abort? {
      resp := Failure(FORBIDDEN, "");
      return;
    }
    event := Patched(event, input);
    db.events := db.events[id := event];
    resp := Success(OK, event);
  }

  method Destroy(db: Db, org: nat, id: nat) returns (resp: Response<string>)
    requires db.Valid()
    modifies db`events
    ensures db.Valid()
    ensures (db.events, resp) == DestroyResult(old(db.events), org, id)
  {
    if id !in db.events || db.events[id].trashed {
      resp := Failure(NOT_FOUND, "");
      return;
    }
    var event := db.events[id];
    if AuthorizeAccess(event, org).Abort? {
      resp := Failure(FORBIDDEN, "");
      return;
    }
    db.events := db.events[id := event.(trashed := true)];
    resp := Success(OK, "Event deleted");
  }

  /** Show, update and destroy of another organization's live event: 403, and nothing is written. */
  lemma ForeignEventForbidden(events: Table<Event>, org: nat, id: nat, input: EventInput)
    requires Live(events, id) && events[id].organizationId != org
    ensures Show(events, org, id) == Failure(FORBIDDEN, "")
    ensures UpdateResult(events, org, id, input) == (events, Failure(FORBIDDEN, ""))
    ensures DestroyResult(events, org, id) == (events, Failure(FORBIDDEN, ""))
  {
  }

  /** What store answered is what show then returns: the request's fields under the caller's organization. */
  lemma StoreThenShow(events: Table<Event>, newId: nat, org: nat, input: EventInput)
    requires newId !in events && StoreRules(input)
    ensures Show(StoreResult(events, newId, org, input).0, org, newId)
         == Success(OK, StoreResult(events, newId, org, input).1.body.1)
    ensures Show(StoreResult(events, newId, org, input).0, org, newId).body == NewEvent(input, org)
  {
  }

  /** The `organization_id` a client sends with store changes nothing. */
  lemma StoreIgnoresClaimedOrganization(events: Table<Event>, newId: nat, org: nat, input: EventInput, claimed: Option<nat>)
    requires newId !in events
    ensures StoreResult(events, newId, org, input.(organizationId := claimed)) == StoreResult(events, newId, org, input)
  {
  }

  /** Store puts no bound on price or capacity: negative or zero values are inserted as sent. */
  lemma StoreAcceptsAnyNumbers(events: Table<Event>, newId: nat, org: nat, input: EventInput, price: int, capacity: int)
    requires newId !in events && StoreRules(input)
    ensures var r := StoreResult(events, newId, org, input.(price := Some(price), maxAttendees := Some(capacity)));
            r.1.Success? && r.0[newId].price == price && r.0[newId].maxAttendees == capacity
  {
  }

  /**
   * Update never moves an event between organizations: every tenant's set
   * of visible ids is the same afterwards.
   */
  lemma {:induction false} UpdateKeepsOwnership(events: Table<Event>, org: nat, id: nat, input: EventInput, other: nat)
    ensures OrgEvents(UpdateResult(events, org, id, input).0, other).Keys == OrgEvents(events, other).Keys
  {
    var after := UpdateResult(events, org, id, input).0;
    forall k | k in events
      ensures k in after && after[k].organizationId == events[k].organizationId
      ensures after[k].trashed == events[k].trashed
    {
    }
  }

  /**
   * After a successful destroy the event is in no organization's index, and
   * the caller's index has lost exactly that event.
   */
  lemma {:induction false} DestroyHidesOnlyTarget(events: Table<Event>, org: nat, id: nat)
    requires DestroyResult(events, org, id).1.Success?
    ensures forall o :: id !in Index(DestroyResult(events, org, id).0, o).body
    ensures Index(DestroyResult(events, org, id).0, org).body == Index(events, org).body - {id}
    ensures forall o :: o != org ==> Index(DestroyResult(events, org, id).0, o) == Index(events, o)
  {
    var after := DestroyResult(events, org, id).0;
    assert OrgEvents(after, org) == OrgEvents(events, org) - {id};
    forall o | o != org
      ensures OrgEvents(after, o) == OrgEvents(events, o)
    {
    }
  }

  /**
   * The 403 tells the caller that a row exists in another organization:
   * taking that row away changes none of the caller's rows, yet changes the
   * answer from 403 to 404.
   */
  lemma {:induction false} ForbiddenRevealsExistence(events: Table<Event>, org: nat, id: nat)
    requires Live(events, id) && events[id].organizationId != org
    ensures OrgEvents(events - {id}, org) == OrgEvents(events, org)
    ensures Show(events, org, id).status == FORBIDDEN
    ensures Show(events - {id}, org, id).status == NOT_FOUND
  {
    assert id !in OrgEvents(events, org);
  }
}
