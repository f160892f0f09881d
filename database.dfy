/**
 * The relational store the controllers read and write: four tables and
 * their auto-increment counters, as one value (`Tables`) for the lemmas and
 * as one mutable object (`Db`) for the actions.
 */
module Database {
  import opened Schema

  datatype Tables = Tables(
    organizations: Table<Organization>,
    admins: Table<Admin>,
    events: Table<Event>,
    attendees: Table<Attendee>,
    nextAdminId: nat,
    nextEventId: nat,
    nextAttendeeId: nat)

  /** The unique index on `organizations.slug`. */
  ghost predicate UniqueSlugs(organizations: Table<Organization>)
  {
    forall i, j :: i in organizations && j in organizations && organizations[i].slug == organizations[j].slug ==> i == j
  }

  /** The unique index on `admins.email`: one admin per address, across all tenants. */
  ghost predicate UniqueEmails(admins: Table<Admin>)
  {
    forall i, j :: i in admins && j in admins && admins[i].email == admins[j].email ==> i == j
  }

  /** Every key is below its table's counter, so the next insert gets a fresh id. */
  ghost predicate FreshCounters(t: Tables)
  {
    && (forall id :: id in t.admins ==> id < t.nextAdminId)
    && (forall id :: id in t.events ==> id < t.nextEventId)
    && (forall id :: id in t.attendees ==> id < t.nextAttendeeId)
  }

  /**
   * Foreign keys: an admin and an event belong to an existing organization,
   * an attendee to an existing (possibly trashed) event.
   */
  ghost predicate ForeignKeys(t: Tables)
  {
    && (forall id :: id in t.admins ==> t.admins[id].organizationId in t.organizations)
    && (forall id :: id in t.events ==> t.events[id].organizationId in t.organizations)
    && (forall id :: id in t.attendees ==> t.attendees[id].eventId in t.events)
  }

  /** What the database guarantees between two requests. */
  ghost predicate Consistent(t: Tables)
  {
    FreshCounters(t) && ForeignKeys(t) && UniqueSlugs(t.organizations) && UniqueEmails(t.admins)
  }

  class Db {
    var organizations: Table<Organization>
    var admins: Table<Admin>
    var events: Table<Event>
    var attendees: Table<Attendee>
    var nextAdminId: nat
    var nextEventId: nat
    var nextAttendeeId: nat

    /** The current contents of the store, as a value. */
    ghost function Snapshot(): Tables
      reads this
    {
      Tables(organizations, admins, events, attendees, nextAdminId, nextEventId, nextAttendeeId)
    }

    ghost predicate Valid()
      reads this
    {
      Consistent(Snapshot())
    }

    /**
     * A store with the provisioned organizations and no other rows; the
     * counters start at 1 like the tables' auto-increment keys.
     */
    constructor (organizations: Table<Organization>)
      requires UniqueSlugs(organizations)
      ensures Valid()
      ensures Snapshot() == Tables(organizations, map[], map[], map[], 1, 1, 1)
    {
      this.organizations := organizations;
      admins, events, attendees := map[], map[], map[];
      nextAdminId, nextEventId, nextAttendeeId := 1, 1, 1;
    }
  }
}
