# Tenant scoping in a multi-tenant event backend

This project models how a multi-tenant event-management backend keeps its
tenants apart. Organizations run events. Their admins manage events and other
admins, and list attendees, through an authenticated API. The public lists
upcoming events and registers for them through `/{org}/...`, where `{org}` is
an organization's slug.

The store holds four tables, modelled as maps from id to row:
`organizations`, `admins`, `events` and `attendees`. The three tables the
controllers insert into (`admins`, `events`, `attendees`) each have an
auto-increment counter. Organizations are created outside these controllers
and have none. `Database.Tables` is that store as a value, which the
lemmas use. `Database.Db` is a class whose map fields the controller actions
reassign. `Database.Consistent` is what the store guarantees between requests:
- every admin, event and attendee id is below its table's counter;
- every foreign key resolves (admin and event to an organization, attendee to an event);
- slugs are unique;
- admin email addresses are unique across all organizations.

Each controller is its own module. A controller action that writes is a pair:
- a function `XxxResult` that gives the new table and the response;
- a method `Xxx(db, ...)` that changes the `Db` fields in place, is proved equal to that function, and keeps `Db.Valid()`.

Read-only actions are functions. Every action takes the caller's organization
id explicitly. A public action takes the request, with the organization that
`ResolveOrganization.Handle` attached to it. `Isolation` combines every
writing action into one step function. It proves by induction that no sequence
of requests made for other organizations changes what one organization sees
(its events, its admins and its attendee listing) or anything else stored under
it (its soft-deleted events and their attendees).

Two event controllers are modelled separately and deliberately not unified:
- `AdminEvents` (the routed `Admin/EventController`). It answers 404 when no live row has the id, and 403 when the row belongs to another organization. Store checks only that fields are present.
- `Events` (the other `EventController`). A missing, trashed or foreign id all give the same 404. It enforces `price >= 0`, `max_attendees >= 1`, and at most 255 characters for title and venue.

Where the documented design and the code disagree, the model follows the code:
- The routed admin event controller enforces no bound on price or capacity (`AdminEvents.StoreAcceptsAnyNumbers`). The design says a price is non-negative and a capacity positive.
- A failed registration answers 422, not 403. A tenant mismatch answers 404.
- The design recommends 404 for every cross-tenant access. The routed event controller answers 403 instead, and `AdminEvents.ForbiddenRevealsExistence` proves that this 403 reveals that a row exists in another organization. In the 404 variants, show, update and destroy answer another organization's id exactly as they answer a missing one (`Events.ForeignLooksMissing`, `Admins.ForeignLooksMissing`). For events, two stores that agree on the caller's rows give the same show, update and destroy answers (`Events.AnswersDependOnlyOnOwnRows`). For admins, the same holds for show and destroy (`Admins.AnswersDependOnlyOnOwnRows`). Admin store and update still reveal something: their 422 tells the caller that an address is in use in some organization (`Admins.ForeignEmailRejected`).

## Model

| member | source | states |
|---|---|---|
| `Schema.OrgEvents` | app/Http/Controllers/Admin/EventController.php:32 | The scoped query returns exactly the live (not soft-deleted) events whose `organization_id` is the caller's, each row unchanged |
| `Schema.NewEvent` | app/Http/Controllers/Admin/EventController.php:72-75 | The inserted row carries the request's fields, with description null when absent. Its organization is the caller's, whatever `organization_id` the request sent, and it is not trashed |
| `Schema.Patched` | app/Http/Controllers/Admin/EventController.php:143-145 | Update overwrites a field that is present in the request and keeps an absent one. Organization and soft-delete mark never change |
| `Schema.PatchedIdempotent` | app/Http/Controllers/Admin/EventController.php:143-145 | Applying the same update twice gives the same row as applying it once |
| `Schema.PatchedByOwnFieldsIsIdentity` | app/Http/Controllers/EventController.php:58 | An update carrying the row's own values, or no fields, leaves the row unchanged |
| `Schema.OrgEventsDisjoint` | app/Http/Controllers/EventController.php:12-13 | No event is in two organizations' scoped sets |
| `AdminEvents.Index` | app/Http/Controllers/Admin/EventController.php:30-34 | Answers 200 with exactly the caller's live events (soundness and completeness), rows as stored |
| `AdminEvents.AuthorizeAccess` | app/Http/Controllers/Admin/EventController.php:180-183 | Passes if and only if the event's organization is the caller's; otherwise aborts with 403 |
| `AdminEvents.Show` | app/Http/Controllers/Admin/EventController.php:101-105 | Succeeds if and only if the id is a live event of the caller, returning that row. A missing or trashed id gives 404; another organization's live event gives 403 |
| `AdminEvents.StoreResult` | app/Http/Controllers/Admin/EventController.php:61-78 | Succeeds if and only if title, venue, date, price and max_attendees are present. On failure: 422 and the table unchanged. On success: 201, exactly one new row under the fresh id, owned by the caller, every old row unchanged |
| `AdminEvents.UpdateResult` | app/Http/Controllers/Admin/EventController.php:139-148 | Succeeds if and only if the id is the caller's live event. Otherwise it answers as show does, with the table unchanged. On success only that row changes, and it becomes the patched row |
| `AdminEvents.DestroyResult` | app/Http/Controllers/Admin/EventController.php:173-178 | Succeeds if and only if the id is the caller's live event. Otherwise it gives show's status with the table unchanged. On success only that row changes, marked trashed, and the answer is "Event deleted" |
| `AdminEvents.Store` | app/Http/Controllers/Admin/EventController.php:61-78 | The new events table and the response are those of `StoreResult`; the counter advances only on success; the store stays consistent |
| `AdminEvents.Update` | app/Http/Controllers/Admin/EventController.php:139-148 | The new events table and the response are those of `UpdateResult`; the store stays consistent |
| `AdminEvents.Destroy` | app/Http/Controllers/Admin/EventController.php:173-178 | The new events table and the response are those of `DestroyResult`; the store stays consistent |
| `AdminEvents.ForeignEventForbidden` | app/Http/Controllers/Admin/EventController.php:180-183 | Show, update and destroy of another organization's live event all answer 403 and write nothing |
| `AdminEvents.StoreThenShow` | app/Http/Controllers/Admin/EventController.php:72-77 | Showing the id that store returned gives the row store answered: the request's fields under the caller's organization |
| `AdminEvents.StoreIgnoresClaimedOrganization` | app/Http/Controllers/Admin/EventController.php:72-75 | Whatever `organization_id` the client sends, store's result is the same |
| `AdminEvents.StoreAcceptsAnyNumbers` | app/Http/Controllers/Admin/EventController.php:68-69 | With the other fields valid, any price and any capacity, negative or zero included, is inserted as sent |
| `AdminEvents.UpdateKeepsOwnership` | app/Http/Controllers/Admin/EventController.php:143-145 | After any update, every organization sees the same set of event ids as before |
| `AdminEvents.DestroyHidesOnlyTarget` | app/Http/Controllers/Admin/EventController.php:176 | After a successful destroy the event is in no organization's index. The caller's index loses exactly that event; every other organization's index is unchanged |
| `AdminEvents.ForbiddenRevealsExistence` | app/Http/Controllers/Admin/EventController.php:182 | Removing another organization's row changes nothing the caller can list, yet changes show's answer from 403 to 404 |
| `Events.Index` | app/Http/Controllers/EventController.php:10-14 | Answers 200 with exactly the caller's live events, rows as stored |
| `Events.FindOwned` | app/Http/Controllers/EventController.php:36-38 | Finds a row if and only if the id is a live event of the caller, and returns that row |
| `Events.Show` | app/Http/Controllers/EventController.php:34-41 | Returns the caller's live row with 200. Otherwise 404, the same for a missing, trashed or foreign id |
| `Events.StoreResult` | app/Http/Controllers/EventController.php:16-32 | Succeeds if and only if the rules pass: required fields, title and venue at most 255 characters, `price >= 0`, `max_attendees >= 1`. A negative price or a capacity below 1 always fails with the table unchanged. On success: 201, one new row owned by the caller and within the bounds, old rows unchanged |
| `Events.UpdateResult` | app/Http/Controllers/EventController.php:43-61 | The scoped lookup fails first, with 404 and nothing written. Then the rules fail, with 422 and nothing written. Otherwise only that row changes, to the patched row. A row that met the bounds still meets them |
| `Events.DestroyResult` | app/Http/Controllers/EventController.php:63-72 | 404 with nothing written unless the id is the caller's live event. Otherwise only that row changes, marked trashed |
| `Events.Store` | app/Http/Controllers/EventController.php:16-32 | The new events table and the response are those of `StoreResult`; the counter advances only on success; the store stays consistent |
| `Events.Update` | app/Http/Controllers/EventController.php:43-61 | The new events table and the response are those of `UpdateResult`; the store stays consistent |
| `Events.Destroy` | app/Http/Controllers/EventController.php:63-72 | The new events table and the response are those of `DestroyResult`; the store stays consistent |
| `Events.AnswersDependOnlyOnOwnRows` | app/Http/Controllers/EventController.php:45-47 | Two stores that agree on the caller's rows give the same show, update and destroy answers, so other organizations' rows cannot be observed |
| `Events.ForeignLooksMissing` | app/Http/Controllers/EventController.php:65-67 | Another organization's event is answered exactly like an absent id (404) by show, update and destroy, and nothing is written |
| `Events.StoreThenShow` | app/Http/Controllers/EventController.php:27-40 | Showing the id that store returned gives the row store answered: the request's fields under the caller's organization |
| `Events.BoundsPreserved` | app/Http/Controllers/EventController.php:23-24 | If every row meets `price >= 0` and `max_attendees >= 1`, every row still does after store, update or destroy |
| `Admins.OrgAdmins` | app/Http/Controllers/AdminController.php:32-33 | The scoped query returns exactly the admins whose `organization_id` is the caller's, rows unchanged |
| `Admins.Index` | app/Http/Controllers/AdminController.php:30-34 | Answers 200 with exactly the caller's admins |
| `Admins.StoreResult` | app/Http/Controllers/AdminController.php:58-74 | Succeeds if and only if the rules pass. A password under 6 characters fails, and so does an address used by any admin of any organization. On success: 201 and one new row with name, email, the hash of the password and the caller's organization; old rows unchanged |
| `Admins.FindOwned` | app/Http/Controllers/AdminController.php:102-104 | Finds a row if and only if the id is an admin of the caller, and returns that row |
| `Admins.Show` | app/Http/Controllers/AdminController.php:100-107 | Returns the caller's admin with 200. Otherwise 404, the same for a missing or foreign id |
| `Admins.Amended` | app/Http/Controllers/AdminController.php:152-158 | Name and email change only when present. With no new password, or an empty one, the stored hash is kept; a non-empty one is replaced by its hash. The organization never changes |
| `Admins.UpdateResult` | app/Http/Controllers/AdminController.php:140-161 | The scoped lookup fails first, with 404 and nothing written. Then the rules fail, with 422 and nothing written. Otherwise only that row changes, to the amended row |
| `Admins.DestroyResult` | app/Http/Controllers/AdminController.php:189-198 | 404 with nothing written unless the id is the caller's admin. Otherwise exactly that row is removed |
| `Admins.Store` | app/Http/Controllers/AdminController.php:58-74 | The new admins table and the response are those of `StoreResult`; the counter advances only on success; the store stays consistent |
| `Admins.Update` | app/Http/Controllers/AdminController.php:140-161 | The new admins table and the response are those of `UpdateResult`; the store stays consistent |
| `Admins.Destroy` | app/Http/Controllers/AdminController.php:189-198 | The new admins table and the response are those of `DestroyResult`; the store stays consistent |
| `Admins.StoreKeepsEmailsUnique` | app/Http/Controllers/AdminController.php:62 | If addresses are unique across all admins before store, they are unique after |
| `Admins.UpdateKeepsEmailsUnique` | app/Http/Controllers/AdminController.php:148 | If addresses are unique across all admins before update, they are unique after |
| `Admins.OwnEmailAccepted` | app/Http/Controllers/AdminController.php:148 | Resubmitting the admin's own address, with the other fields valid, succeeds and keeps the address |
| `Admins.PasswordRule` | app/Http/Controllers/AdminController.php:152-156 | After a successful update, an absent or empty password leaves the stored hash as it was; a non-empty one stores its hash |
| `Admins.AnswersDependOnlyOnOwnRows` | app/Http/Controllers/AdminController.php:191-193 | Two stores that agree on the caller's admins give the same show and destroy answers |
| `Admins.ForeignLooksMissing` | app/Http/Controllers/AdminController.php:142-144 | Another organization's admin is answered exactly like an absent id (404) by show, update and destroy, and nothing is written |
| `Admins.ForeignEmailRejected` | app/Http/Controllers/AdminController.php:62 | An address held by an admin of another organization makes store fail with 422 and write nothing |
| `PublicEvents.Index` | app/Http/Controllers/PublicEventController.php:30-35 | Answers 200 with exactly the attached organization's live events dated `now` or later, rows as stored |
| `PublicEvents.RegisterResult` | app/Http/Controllers/PublicEventController.php:68-88 | 422 with nothing written unless the four fields are present, the email is well-formed and the event id is in the events table. Then 404 "Event not found in this organization." with nothing written unless the event is a live event of the attached organization. Otherwise exactly one new attendee, for that event, with the given name, email and phone. Success is decided without reading the attendees table |
| `PublicEvents.Register` | app/Http/Controllers/PublicEventController.php:68-88 | The new attendees table and the response are those of `RegisterResult`; the counter advances only on success; the store stays consistent |
| `PublicEvents.UnknownEventIsInvalid` | app/Http/Controllers/PublicEventController.php:73 | An event id that is not in the events table fails validation (422), not with the tenant-mismatch 404 |
| `PublicEvents.ForeignOrTrashedEventNotFound` | app/Http/Controllers/PublicEventController.php:79-83 | A valid registration for another organization's event, or for a trashed event, answers 404 with its message and creates no attendee |
| `PublicEvents.NoCapacityOrDuplicateCheck` | app/Http/Controllers/PublicEventController.php:85 | The event may already be full and already have an attendee with the same email. A valid registration for a live event of the organization still succeeds, and the event gets one more attendee |
| `ResolveOrganization.Handle` | app/Http/Middleware/ResolveOrganization.php:22-36 | Halts with 404 "Organization not found." if and only if no organization carries the slug. Otherwise it passes the request on, unchanged except that it carries an organization with that slug |
| `ResolveOrganization.HandleAttachesOwner` | app/Http/Middleware/ResolveOrganization.php:24-26 | With slugs unique, the organization attached is the one carrying the slug. Resolving again gives the same answer |
| `ResolveOrganization.UpcomingEvents` | app/Http/Middleware/ResolveOrganization.php:28-35 | An unknown slug answers 404 without reaching the controller. A known slug runs the public index with the resolved organization attached, so the controller never sees a missing organization |
| `ResolveOrganization.RegisterVia` | app/Http/Middleware/ResolveOrganization.php:28-35 | An unknown slug answers 404 and writes nothing. A known slug runs registration with the resolved organization attached |
| `ResolveOrganization.UpcomingEventsOfSlugOwner` | app/Http/Controllers/PublicEventController.php:32-33 | Every event listed for a slug is live, dated `now` or later, and belongs to the organization carrying that slug |
| `ResolveOrganization.Register` | app/Http/Middleware/ResolveOrganization.php:22-36 | The new attendees table and the response are those of `RegisterVia`; the store stays consistent |
| `AdminAttendees.OrgAttendees` | app/Http/Controllers/Admin/AttendeeController.php:15-17 | Returns exactly the attendees whose event is a live event of the organization. The scope goes through the event, since an attendee has no organization of its own |
| `AdminAttendees.Index` | app/Http/Controllers/Admin/AttendeeController.php:11-20 | Every attendee listed is registered for a live event of the caller (soundness). Every such attendee is listed (completeness). Rows are as stored |
| `AdminAttendees.ListingsDisjoint` | app/Http/Controllers/Admin/AttendeeController.php:15-17 | No attendee is in two organizations' listings |
| `AdminAttendees.DestroyedEventHidesAttendees` | app/Http/Controllers/Admin/AttendeeController.php:15-16 | After an event is destroyed, none of its attendees is in any organization's listing |
| `Isolation.Step` | routes/api.php:13-22 | Serving one writing request never changes the organizations table. The step covers the writes of every controller modelled here, routed or not |
| `Isolation.StepConsistent` | routes/api.php:13-22 | Every writing request keeps the store consistent: fresh ids, foreign keys, unique slugs, unique addresses |
| `Isolation.StepIsolation` | routes/api.php:13-22 | A request acting for another organization, or for an unknown slug, leaves an organization's events, admins and attendee listing unchanged. It also leaves every row stored under it unchanged: its soft-deleted events and their attendees |
| `Isolation.Run` | routes/api.php:13-28 | Serving requests one after another keeps the store consistent and the organizations table unchanged |
| `Isolation.OtherTenantsUnaffected` | routes/api.php:13-28 | No sequence of requests acting for other organizations changes an organization's events, admins or attendee listing, or any row stored under it, soft-deleted events and their attendees included |

## Left out

- Password hashing and the email-format rule are parameters. Nothing is assumed about them, so the model cannot state that a hash differs from its cleartext. It states only that the stored value is the hash of the password. `Hash::make` salts at random, so the same password is stored differently each time; the model's `hash` is one fixed function shared by every request.
- The clock, dates and prices are integers. Price is a float in the source; only comparisons with 0 matter here.
- Request fields are typed. Each field is either absent or holds a value of its column's type. The `string`, `numeric`, `integer` and `date` type rules, and JSON null for a non-nullable column, are not modelled.
- An empty string counts as null, as the framework converts it before validation. Whitespace trimming is not modelled.
- An empty description is stored as "" rather than null.
- The routed controller's update writes fields without any validation. The model stores what is sent. A database rejecting a null title is not modelled.
- `AdminEvents.AuthorizeAccess` compares organization ids as equal integers. PHP's strict `===` would also fail when the two ids come back with different PHP types; that is not modelled.
- Admin deletion removes the row. The admin model is not part of this model, and nothing shows it soft-deletes.
- Soft delete is a `trashed` mark. Every read through the event model skips trashed rows. `exists:events,id` validation reads the table directly and does not skip them.
- Which row `first()` returns among several matches is not modelled. Slugs are assumed unique, as the unique index guarantees, so there is only one match.
- The request attribute bag is modelled as a value that the middleware returns with the organization attached. The model does not mutate a shared request object.
- Authentication (`AdminAuthController.php`): password checks and Sanctum tokens are library calls. Every admin action takes the caller's organization id as a parameter instead.
- `IdentifyOrganization.php` is not part of this model. It is an unused duplicate resolver and relies on framework `firstOrFail`/`merge` behaviour.
- Routing (`routes/api.php`, `routes/web.php`): the duplicated `{org}` groups and route registration order are not modelled. `Isolation.Call` covers the writes of every controller modelled here, including `AdminController` and `App\Http\Controllers\EventController`, which the routes shown do not register. The route groups shown do not name `ResolveOrganization`; the model composes "resolve, then the public controller" as the intended pipeline.
- Activity logging, timestamps, JSON serialisation, hidden fields in responses and OpenAPI annotations are not modelled.
- Error bodies the framework writes (404 from a failed lookup, 422 from validation) are modelled as an empty `error` string.
- Ids come from one counter per table, shared by all organizations. The id that store returns therefore tells the caller how many rows all organizations together have created. The model keeps this behaviour and states nothing about it.
- Email and slug comparisons are exact. In the source, `unique:admins` and `where('slug', ...)` compare under the database's collation, which may ignore case. The database configuration is not part of this model.
- Concurrency is not modelled: two requests racing past the email uniqueness check are outside the model.
- Reads are not part of `Isolation.Call`. Every read is a function of the store and changes nothing.
