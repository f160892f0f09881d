/**
 * Records of the four tables, request bodies, responses and the
 * tenant-scoped event query every controller is built from.
 *
 * Ids are the tables' auto-increment keys; dates and the clock are integers;
 * a price is an integer (its sign is all the controllers look at).
 */
module Schema {

  datatype Option<T> = None | Some(value: T)

  /** An organization is the tenant: the root every other row hangs from. */
  datatype Organization = Organization(slug: string, name: string)

  /** An admin row; `password` holds the stored hash, never the cleartext. */
  datatype Admin = Admin(name: string, email: string, password: string, organizationId: nat)

  /** An event row; `trashed` is the soft-delete mark (`deleted_at` is set). */
  datatype Event = Event(
    title: string,
    description: Option<string>,
    venue: string,
    date: int,
    price: int,
    maxAttendees: int,
    organizationId: nat,
    trashed: bool)

  /** An attendee row: it has no organization of its own, only an event. */
  datatype Attendee = Attendee(name: string, email: string, phone: string, eventId: nat)

  /** A table maps each row's primary key to the row. */
  type Table<T> = map<nat, T>

  const OK: int := 200
  const CREATED: int := 201
  const FORBIDDEN: int := 403
  const NOT_FOUND: int := 404
  const UNPROCESSABLE: int := 422

  /**
   * What an action answers: a status and a body, or an error status and the
   * `error` text the controller writes itself ("" where the framework writes
   * the body).
   */
  datatype Response<T> = Success(status: int, body: T) | Failure(status: int, error: string)

  /**
   * The request attribute bag as the public controllers see it: the `{org}`
   * route parameter, and the organization the middleware attached, if any.
   */
  datatype Request = Request(slug: string, organization: Option<nat>)

  /**
   * The body of an event store or update request. Every field may be absent;
   * `description` may also be present and null. `organizationId` is whatever
   * the client sent under `organization_id`: no action ever reads it.
   */
  datatype EventInput = EventInput(
    title: Option<string>,
    description: Option<Option<string>>,
    venue: Option<string>,
    date: Option<int>,
    price: Option<int>,
    maxAttendees: Option<int>,
    organizationId: Option<nat>)

  /**
   * The `required` rule on a string: present and not empty (the framework
   * turns an empty string into null before validating).
   */
  predicate Filled(s: Option<string>)
  {
    s.Some? && s.value != ""
  }

  /** A row the soft-delete scope lets through: present and not trashed. */
  predicate Live(events: Table<Event>, id: nat)
  {
    id in events && !events[id].trashed
  }

  /**
   * `Event::where('organization_id', org)`: the live events of one tenant,
   * each with its row unchanged.
   */
  function OrgEvents(events: Table<Event>, org: nat): (r: Table<Event>)
    ensures forall id :: id in r <==> Live(events, id) && events[id].organizationId == org
    ensures forall id :: id in r ==> id in events && r[id] == events[id]
  {
    map id | id in events && !events[id].trashed && events[id].organizationId == org :: events[id]
  }

  /** The fields an event store request must carry for a row to be built. */
  predicate Complete(input: EventInput)
  {
    input.title.Some? && input.venue.Some? && input.date.Some? && input.price.Some?
    && input.maxAttendees.Some?
  }

  /**
   * The row `Event::create` inserts from validated input: the request's
   * fields (description null when absent) and the caller's organization,
   * whatever `organization_id` the request carried.
   */
  function NewEvent(input: EventInput, org: nat): (e: Event)
    requires Complete(input)
    ensures e.organizationId == org && !e.trashed
    ensures e.title == input.title.value && e.venue == input.venue.value
    ensures e.date == input.date.value && e.price == input.price.value
    ensures e.maxAttendees == input.maxAttendees.value
    ensures input.description.None? ==> e.description.None?
    ensures input.description.Some? ==> e.description == input.description.value
  {
    Event(
      input.title.value,
      if input.description.Some? then input.description.value else None,
      input.venue.value,
      input.date.value,
      input.price.value,
      input.maxAttendees.value,
      org,
      false)
  }

  /**
   * `$event->update($fields)` with the six mutable fields of the request:
   * a field present in the request overwrites the row's, an absent one keeps
   * it; the organization and the soft-delete mark are never among them.
   */
  function Patched(e: Event, input: EventInput): (r: Event)
    ensures r.organizationId == e.organizationId && r.trashed == e.trashed
    ensures r.title == (if input.title.Some? then input.title.value else e.title)
    ensures r.description == (if input.description.Some? then input.description.value else e.description)
    ensures r.venue == (if input.venue.Some? then input.venue.value else e.venue)
    ensures r.date == (if input.date.Some? then input.date.value else e.date)
    ensures r.price == (if input.price.Some? then input.price.value else e.price)
    ensures r.maxAttendees == (if input.maxAttendees.Some? then input.maxAttendees.value else e.maxAttendees)
  {
    e.(
      title := if input.title.Some? then input.title.value else e.title,
      description := if input.description.Some? then input.description.value else e.description,
      venue := if input.venue.Some? then input.venue.value else e.venue,
      date := if input.date.Some? then input.date.value else e.date,
      price := if input.price.Some? then input.price.value else e.price,
      maxAttendees := if input.maxAttendees.Some? then input.maxAttendees.value else e.maxAttendees)
  }

  /** Patching is idempotent: sending the same request twice is sending it once. */
  lemma PatchedIdempotent(e: Event, input: EventInput)
    ensures Patched(Patched(e, input), input) == Patched(e, input)
  {
  }

  /** An update that carries the row's own values, or nothing, leaves it as it is. */
  lemma PatchedByOwnFieldsIsIdentity(e: Event, org: Option<nat>)
    ensures Patched(e, EventInput(Some(e.title), Some(e.description), Some(e.venue), Some(e.date),
                                  Some(e.price), Some(e.maxAttendees), org)) == e
    ensures Patched(e, EventInput(None, None, None, None, None, None, org)) == e
  {
  }

  /** Tenants' event sets never overlap: a row is in at most one tenant's view. */
  lemma OrgEventsDisjoint(events: Table<Event>, a: nat, b: nat)
    requires a != b
    ensures OrgEvents(events, a).Keys !! OrgEvents(events, b).Keys
  {
  }
}
