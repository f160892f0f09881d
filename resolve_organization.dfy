/**
 * The middleware that turns the `{org}` route parameter into a tenant, and
 * the public pipeline "resolve, then the public controller" built on it.
 */
module ResolveOrganization {
  import opened Schema
  import opened Database
  import PublicEvents

  const ORGANIZATION_NOT_FOUND: string := "Organization not found."

  /** What the middleware does with a request: answer it itself, or hand it on. */
  datatype Handled = Halt(status: int, error: string) | Next(request: Request)

  /** Some organization carries the slug. */
  predicate Known(organizations: Table<Organization>, slug: string)
  {
    exists id :: id in organizations && organizations[id].slug == slug
  }

  /**
   * `handle`: an unknown slug is answered 404 with its message and the
   * request goes no further; a known slug attaches the organization that
   * carries it and hands the request on, otherwise unchanged.
   */
  function Handle(organizations: Table<Organization>, request: Request): (r: Handled)
    requires UniqueSlugs(organizations)
    ensures r.Halt? <==> !Known(organizations, request.slug)
    ensures r.Halt? ==> r == Halt(NOT_FOUND, ORGANIZATION_NOT_FOUND)
    ensures r.Next? ==> r.request.slug == request.slug && r.request.organization.Some?
    ensures r.Next? ==> r.request.organization.value in organizations
                        && organizations[r.request.organization.value].slug == request.slug
  {
    if Known(organizations, request.slug) then
      var id :| id in organizations && organizations[id].slug == request.slug;
      Next(request.(organization := Some(id)))
    else
      Halt(NOT_FOUND, ORGANIZATION_NOT_FOUND)
  }

  /**
   * With slugs unique, the organization attached is the one organization
   * carrying the slug, so resolving the same slug twice attaches the same one.
   */
  lemma {:induction false} HandleAttachesOwner(organizations: Table<Organization>, request: Request, id: nat)
    requires UniqueSlugs(organizations)
    requires id in organizations && organizations[id].slug == request.slug
    ensures Handle(organizations, request) == Next(request.(organization := Some(id)))
    ensures Handle(organizations, Handle(organizations, request).request) == Handle(organizations, request)
  {
    var attached := Handle(organizations, request).request.organization.value;
    assert organizations[attached].slug == organizations[id].slug;
  }

  /** GET /{org}/events at time `now`, through the middleware. */
  function UpcomingEvents(organizations: Table<Organization>, events: Table<Event>, request: Request, now: int)
    : (r: Response<Table<Event>>)
    requires UniqueSlugs(organizations)
    ensures !Known(organizations, request.slug) ==> r == Failure(NOT_FOUND, ORGANIZATION_NOT_FOUND)
    ensures Known(organizations, request.slug) ==> r == PublicEvents.Index(events, Handle(organizations, request).request, now)
  {
    match Handle(organizations, request)
    case Halt(status, error) => Failure(status, error)
    case Next(resolved) => PublicEvents.Index(events, resolved, now)
  }

  /**
   * POST /{org}/register through the middleware: an unknown slug answers 404
   * and writes nothing; otherwise the controller runs with the organization
   * carrying the slug.
   */
  function RegisterVia(organizations: Table<Organization>, events: Table<Event>, attendees: Table<Attendee>,
                       newId: nat, request: Request, input: PublicEvents.Registration, isEmail: string -> bool)
    : (r: (Table<Attendee>, Response<string>))
    requires UniqueSlugs(organizations) && newId !in attendees
    ensures !Known(organizations, request.slug) ==> r == (attendees, Failure(NOT_FOUND, ORGANIZATION_NOT_FOUND))
    ensures Known(organizations, request.slug)
            ==> r == PublicEvents.RegisterResult(events, attendees, newId, Handle(organizations, request).request, input, isEmail)
  {
    match Handle(organizations, request)
    case Halt(status, error) => (attendees, Failure(status, error))
    case Next(resolved) => PublicEvents.RegisterResult(events, attendees, newId, resolved, input, isEmail)
  }

  /** Every upcoming event listed for a slug belongs to the organization carrying that slug. */
  lemma {:induction false} UpcomingEventsOfSlugOwner(organizations: Table<Organization>, events: Table<Event>,
                                                     request: Request, now: int, id: nat)
    requires UniqueSlugs(organizations)
    requires UpcomingEvents(organizations, events, request, now).Success?
    requires id in UpcomingEvents(organizations, events, request, now).body
    ensures id in events && events[id].organizationId in organizations
    ensures organizations[events[id].organizationId].slug == request.slug
    ensures !events[id].trashed && events[id].date >= now
  {
    var resolved := Handle(organizations, request).request;
    assert id in OrgEvents(events, resolved.organization.value);
  }

  method Register(db: Db, request: Request, input: PublicEvents.Registration, isEmail: string -> bool)
    returns (resp: Response<string>)
    requires db.Valid()
    modifies db`attendees, db`nextAttendeeId
    ensures db.Valid()
    ensures (db.attendees, resp) == RegisterVia(db.organizations, db.events, old(db.attendees), old(db.nextAttendeeId),
                                                request, input, isEmail)
    ensures db.nextAttendeeId == if resp.Success? then old(db.nextAttendeeId) + 1 else old(db.nextAttendeeId)
  {
    var handled := Handle(db.organizations, request);
    match handled
    case Halt(status, error) =>
      resp := Failure(status, error);
    case Next(resolved) =>
      resp := PublicEvents.Register(db, resolved, input, isEmail);
  }
}
