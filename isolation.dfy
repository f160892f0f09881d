/**
 * Tenant isolation across every write the controllers can make: a request
 * made for one organization (by its admin, or publicly through its slug)
 * never changes what any other organization sees, and neither does any
 * sequence of such requests.
 */
module Isolation {
  import opened Schema
  import opened Database
  import AdminEvents
  import Events
  import Admins
  import PublicEvents
  import AdminAttendees
  import ResolveOrganization

  /** One writing request: from an authenticated admin of `org`, or a public registration for a slug. */
  datatype Call =
    | AdminEventStore(org: nat, input: EventInput)
    | AdminEventUpdate(org: nat, id: nat, input: EventInput)
    | AdminEventDestroy(org: nat, id: nat)
    | EventStore(org: nat, input: EventInput)
    | EventUpdate(org: nat, id: nat, input: EventInput)
    | EventDestroy(org: nat, id: nat)
    | AdminStore(org: nat, admin: Admins.AdminInput)
    | AdminUpdate(org: nat, id: nat, admin: Admins.AdminInput)
    | AdminDestroy(org: nat, id: nat)
    | Register(request: Request, registration: PublicEvents.Registration)

  /** The organization a call acts for: the admin's, or the one its slug resolves to (none for an unknown slug). */
  function Actor(organizations: Table<Organization>, c: Call): Option<nat>
    requires UniqueSlugs(organizations)
  {
    match c
    case Register(request, _) =>
      (match ResolveOrganization.Handle(organizations, request)
       case Halt(_, _) => None
       case Next(resolved) => resolved.organization)
    case _ => Some(c.org)
  }

  /** An admin's organization exists (the authenticated principal's foreign key). */
  predicate Authenticated(organizations: Table<Organization>, c: Call)
  {
    !c.Register? ==> c.org in organizations
  }

  function Bump(next: nat, succeeded: bool): nat
  {
    if succeeded then next + 1 else next
  }

  /** The store after one call. */
  function Step(t: Tables, c: Call, hash: string -> string, isEmail: string -> bool): (r: Tables)
    requires Consistent(t) && Authenticated(t.organizations, c)
    ensures r.organizations == t.organizations
  {
    match c
    case AdminEventStore(org, input) =>
      var r := AdminEvents.StoreResult(t.events, t.nextEventId, org, input);
      t.(events := r.0, nextEventId := Bump(t.nextEventId, r.1.Success?))
    case AdminEventUpdate(org, id, input) => t.(events := AdminEvents.UpdateResult(t.events, org, id, input).0)
    case AdminEventDestroy(org, id) => t.(events := AdminEvents.DestroyResult(t.events, org, id).0)
    case EventStore(org, input) =>
      var r := Events.StoreResult(t.events, t.nextEventId, org, input);
      t.(events := r.0, nextEventId := Bump(t.nextEventId, r.1.Success?))
    case EventUpdate(org, id, input) => t.(events := Events.UpdateResult(t.events, org, id, input).0)
    case EventDestroy(org, id) => t.(events := Events.DestroyResult(t.events, org, id).0)
    case AdminStore(org, input) =>
      var r := Admins.StoreResult(t.admins, t.nextAdminId, org, input, hash, isEmail);
      t.(admins := r.0, nextAdminId := Bump(t.nextAdminId, r.1.Success?))
    case AdminUpdate(org, id, input) => t.(admins := Admins.UpdateResult(t.admins, org, id, input, hash, isEmail).0)
    case AdminDestroy(org, id) => t.(admins := Admins.DestroyResult(t.admins, org, id).0)
    case Register(request, input) =>
      var r := ResolveOrganization.RegisterVia(t.organizations, t.events, t.attendees, t.nextAttendeeId,
                                               request, input, isEmail);
      t.(attendees := r.0, nextAttendeeId := Bump(t.nextAttendeeId, r.1.Success?))
  }

  /** Replacing the events table keeps the store consistent when no row is lost and every row is well-keyed. */
  lemma EventsReplaced(t: Tables, events: Table<Event>, next: nat)
    requires Consistent(t) && t.events.Keys <= events.Keys
    requires forall id :: id in events ==> id < next && events[id].organizationId in t.organizations
    ensures Consistent(t.(events := events, nextEventId := next))
  {
  }

  /** Replacing the admins table keeps the store consistent when every row is well-keyed and addresses stay unique. */
  lemma AdminsReplaced(t: Tables, admins: Table<Admin>, next: nat)
    requires Consistent(t) && UniqueEmails(admins)
    requires forall id :: id in admins ==> id < next && admins[id].organizationId in t.organizations
    ensures Consistent(t.(admins := admins, nextAdminId := next))
  {
  }

  /** Replacing the attendees table keeps the store consistent when every row is well-keyed. */
  lemma AttendeesReplaced(t: Tables, attendees: Table<Attendee>, next: nat)
    requires Consistent(t)
    requires forall id :: id in attendees ==> id < next && attendees[id].eventId in t.events
    ensures Consistent(t.(attendees := attendees, nextAttendeeId := next))
  {
  }

  /** A write through the routed admin event controller keeps the store consistent. */
  lemma {:induction false} AdminEventCallConsistent(t: Tables, c: Call, hash: string -> string, isEmail: string -> bool)
    requires Consistent(t) && Authenticated(t.organizations, c)
    requires c.AdminEventStore? || c.AdminEventUpdate? || c.AdminEventDestroy?
    ensures Consistent(Step(t, c, hash, isEmail))
  {
    var after := Step(t, c, hash, isEmail);
    EventsReplaced(t, after.events, after.nextEventId);
  }

  /** A write through the second event controller keeps the store consistent. */
  lemma {:induction false} EventCallConsistent(t: Tables, c: Call, hash: string -> string, isEmail: string -> bool)
    requires Consistent(t) && Authenticated(t.organizations, c)
    requires c.EventStore? || c.EventUpdate? || c.EventDestroy?
    ensures Consistent(Step(t, c, hash, isEmail))
  {
    var after := Step(t, c, hash, isEmail);
    EventsReplaced(t, after.events, after.nextEventId);
  }

  /** A write through the admin management controller keeps the store consistent. */
  lemma {:induction false} AdminCallConsistent(t: Tables, c: Call, hash: string -> string, isEmail: string -> bool)
    requires Consistent(t) && Authenticated(t.organizations, c)
    requires c.AdminStore? || c.AdminUpdate? || c.AdminDestroy?
    ensures Consistent(Step(t, c, hash, isEmail))
  {
    var after := Step(t, c, hash, isEmail);
    match c {
      case AdminStore(org, input) =>
        Admins.StoreKeepsEmailsUnique(t.admins, t.nextAdminId, org, input, hash, isEmail);
      case AdminUpdate(org, id, input) =>
        Admins.UpdateKeepsEmailsUnique(t.admins, org, id, input, hash, isEmail);
      case AdminDestroy(_, _) =>
    }
    AdminsReplaced(t, after.admins, after.nextAdminId);
  }

  /** Every call keeps the store consistent: fresh ids, foreign keys, unique slugs and addresses. */
  lemma {:induction false} StepConsistent(t: Tables, c: Call, hash: string -> string, isEmail: string -> bool)
    requires Consistent(t) && Authenticated(t.organizations, c)
    ensures Consistent(Step(t, c, hash, isEmail))
  {
    if c.Register? {
      var after := Step(t, c, hash, isEmail);
      AttendeesReplaced(t, after.attendees, after.nextAttendeeId);
    } else if c.AdminStore? || c.AdminUpdate? || c.AdminDestroy? {
      AdminCallConsistent(t, c, hash, isEmail);
    } else if c.EventStore? || c.EventUpdate? || c.EventDestroy? {
      EventCallConsistent(t, c, hash, isEmail);
    } else {
      AdminEventCallConsistent(t, c, hash, isEmail);
    }
  }

  /** Every event row of `org`, the soft-deleted ones included. */
  function StoredEvents(events: Table<Event>, org: nat): (r: Table<Event>)
    ensures forall id :: id in r <==> id in events && events[id].organizationId == org
    ensures forall id :: id in r ==> id in events && r[id] == events[id]
  {
    map id | id in events && events[id].organizationId == org :: events[id]
  }

  /** Every attendee row under an event of `org`, soft-deleted events included. */
  function StoredAttendees(events: Table<Event>, attendees: Table<Attendee>, org: nat): (r: Table<Attendee>)
    ensures forall id :: id in r <==> id in attendees && attendees[id].eventId in StoredEvents(events, org)
    ensures forall id :: id in r ==> id in attendees && r[id] == attendees[id]
  {
    map id | id in attendees && attendees[id].eventId in events && events[attendees[id].eventId].organizationId == org
      :: attendees[id]
  }

  /**
   * What an organization's admins and public visitors can see of the store
   * (`events`, `admins`, `attendees`), and everything else stored under it:
   * its soft-deleted events and the attendees registered for them.
   */
  datatype View = View(events: Table<Event>, admins: Table<Admin>, attendees: Table<Attendee>,
                       stored: Table<Event>, registered: Table<Attendee>)

  function ViewOf(t: Tables, org: nat): View
  {
    View(OrgEvents(t.events, org), Admins.OrgAdmins(t.admins, org), AdminAttendees.OrgAttendees(t.events, t.attendees, org),
         StoredEvents(t.events, org), StoredAttendees(t.events, t.attendees, org))
  }

  /** An events table that differs from the old one only in rows of other organizations than `b`. */
  lemma {:induction false} ForeignEventsChange(events: Table<Event>, events': Table<Event>, b: nat)
    requires forall id :: id in events && events[id].organizationId == b ==> id in events' && events'[id] == events[id]
    requires forall id :: id in events' && events'[id].organizationId == b ==> id in events && events[id] == events'[id]
    ensures OrgEvents(events', b) == OrgEvents(events, b)
    ensures StoredEvents(events', b) == StoredEvents(events, b)
  {
  }

  /**
   * With the attendees table untouched, an events table that keeps every
   * key and differs only in other organizations' rows leaves the attendees
   * stored under `b` as they were.
   */
  lemma {:induction false} ForeignEventsKeepAttendees(events: Table<Event>, events': Table<Event>,
                                                      attendees: Table<Attendee>, b: nat)
    requires forall id :: id in attendees ==> attendees[id].eventId in events
    requires events.Keys <= events'.Keys
    requires forall id :: id in events && events[id].organizationId == b ==> id in events' && events'[id] == events[id]
    requires forall id :: id in events' && events'[id].organizationId == b ==> id in events && events[id] == events'[id]
    ensures StoredAttendees(events', attendees, b) == StoredAttendees(events, attendees, b)
  {
    forall id | id in attendees
      ensures attendees[id].eventId in StoredEvents(events', b) <==> attendees[id].eventId in StoredEvents(events, b)
    {
      var e := attendees[id].eventId;
      assert e in events';
    }
  }

  /** An admins table that differs from the old one only in rows of other organizations than `b`. */
  lemma {:induction false} ForeignAdminsChange(admins: Table<Admin>, admins': Table<Admin>, b: nat)
    requires forall id :: id in admins && admins[id].organizationId == b ==> id in admins' && admins'[id] == admins[id]
    requires forall id :: id in admins' && admins'[id].organizationId == b ==> id in admins && admins[id] == admins'[id]
    ensures Admins.OrgAdmins(admins', b) == Admins.OrgAdmins(admins, b)
  {
  }

  /** An event write made for organization `a` leaves every other organization's view as it was. */
  lemma {:induction false} EventCallIsolation(t: Tables, c: Call, b: nat, hash: string -> string, isEmail: string -> bool)
    requires Consistent(t) && Authenticated(t.organizations, c)
    requires c.AdminEventStore? || c.AdminEventUpdate? || c.AdminEventDestroy?
             || c.EventStore? || c.EventUpdate? || c.EventDestroy?
    requires c.org != b
    ensures ViewOf(Step(t, c, hash, isEmail), b) == ViewOf(t, b)
  {
    var after := Step(t, c, hash, isEmail);
    ForeignEventsChange(t.events, after.events, b);
    ForeignEventsKeepAttendees(t.events, after.events, t.attendees, b);
  }

  /** An admin write made for organization `a` leaves every other organization's view as it was. */
  lemma {:induction false} AdminCallIsolation(t: Tables, c: Call, b: nat, hash: string -> string, isEmail: string -> bool)
    requires Consistent(t) && Authenticated(t.organizations, c)
    requires c.AdminStore? || c.AdminUpdate? || c.AdminDestroy?
    requires c.org != b
    ensures ViewOf(Step(t, c, hash, isEmail), b) == ViewOf(t, b)
  {
    var after := Step(t, c, hash, isEmail);
    ForeignAdminsChange(t.admins, after.admins, b);
  }

  /** An attendee registered for another organization's event is not stored under `b`. */
  lemma {:induction false} ForeignRegistrationKeepsAttendees(events: Table<Event>, attendees: Table<Attendee>,
                                                             newId: nat, attendee: Attendee, b: nat)
    requires newId !in attendees
    requires attendee.eventId in events && events[attendee.eventId].organizationId != b
    ensures StoredAttendees(events, attendees[newId := attendee], b) == StoredAttendees(events, attendees, b)
  {
    assert newId !in StoredAttendees(events, attendees[newId := attendee], b);
  }

  /** A registration through a slug that does not resolve to `b` leaves `b`'s view as it was. */
  lemma {:induction false} RegisterIsolation(t: Tables, c: Call, b: nat, hash: string -> string, isEmail: string -> bool)
    requires Consistent(t) && c.Register?
    requires Actor(t.organizations, c) != Some(b)
    ensures ViewOf(Step(t, c, hash, isEmail), b) == ViewOf(t, b)
  {
    var after := Step(t, c, hash, isEmail);
    if ResolveOrganization.Known(t.organizations, c.request.slug) {
      var resolved := ResolveOrganization.Handle(t.organizations, c.request).request;
      var org := resolved.organization.value;
      var input := c.registration;
      var r := PublicEvents.RegisterResult(t.events, t.attendees, t.nextAttendeeId, resolved, input, isEmail);
      assert after.events == t.events && after.attendees == r.0;
      if r.1.Success? {
        var attendee := Attendee(input.name.value, input.email.value, input.phone.value, input.eventId.value);
        assert input.eventId.value in OrgEvents(t.events, org);
        OrgEventsDisjoint(t.events, org, b);
        ForeignRegistrationKeepsAttendees(t.events, t.attendees, t.nextAttendeeId, attendee, b);
        assert AdminAttendees.OrgAttendees(after.events, after.attendees, b)
            == AdminAttendees.OrgAttendees(t.events, t.attendees, b);
      }
    }
  }

  /** A call acting for another organization (or for none) leaves `b`'s view as it was. */
  lemma {:induction false} StepIsolation(t: Tables, c: Call, b: nat, hash: string -> string, isEmail: string -> bool)
    requires Consistent(t) && Authenticated(t.organizations, c)
    requires Actor(t.organizations, c) != Some(b)
    ensures ViewOf(Step(t, c, hash, isEmail), b) == ViewOf(t, b)
  {
    if c.Register? {
      RegisterIsolation(t, c, b, hash, isEmail);
    } else if c.AdminStore? || c.AdminUpdate? || c.AdminDestroy? {
      AdminCallIsolation(t, c, b, hash, isEmail);
    } else {
      EventCallIsolation(t, c, b, hash, isEmail);
    }
  }

  /** Every call of the sequence is well-formed for the store it starts from. */
  predicate AllAuthenticated(organizations: Table<Organization>, calls: seq<Call>)
  {
    forall i :: 0 <= i < |calls| ==> Authenticated(organizations, calls[i])
  }

  /** The store after a sequence of calls, served one after another. */
  function Run(t: Tables, calls: seq<Call>, hash: string -> string, isEmail: string -> bool): (r: Tables)
    requires Consistent(t) && AllAuthenticated(t.organizations, calls)
    ensures Consistent(r) && r.organizations == t.organizations
    decreases |calls|
  {
    if calls == [] then t
    else
      StepConsistent(t, calls[0], hash, isEmail);
      Run(Step(t, calls[0], hash, isEmail), calls[1..], hash, isEmail)
  }

  /**
   * No sequence of requests made for other organizations can read into,
   * write to, delete from or register into organization `b`: its events,
   * admins and attendee listing are exactly as before.
   */
  lemma {:induction false} OtherTenantsUnaffected(t: Tables, calls: seq<Call>, b: nat,
                                                  hash: string -> string, isEmail: string -> bool)
    requires Consistent(t) && AllAuthenticated(t.organizations, calls)
    requires forall i :: 0 <= i < |calls| ==> Actor(t.organizations, calls[i]) != Some(b)
    ensures ViewOf(Run(t, calls, hash, isEmail), b) == ViewOf(t, b)
    decreases |calls|
  {
    if calls != [] {
      StepConsistent(t, calls[0], hash, isEmail);
      StepIsolation(t, calls[0], b, hash, isEmail);
      var next := Step(t, calls[0], hash, isEmail);
      assert forall i :: 0 <= i < |calls[1..]| ==> calls[1..][i] == calls[i + 1];
      OtherTenantsUnaffected(next, calls[1..], b, hash, isEmail);
    }
  }
}
