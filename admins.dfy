/**
 * The admin management controller (`/admins`). Every lookup is scoped to
 * the caller's organization and answers 404 otherwise. An email address is
 * unique across all organizations; a password is stored only as its hash.
 * The hash function and the email-format rule are parameters: the model
 * assumes nothing about them.
 */
module Admins {
  import opened Schema
  import opened Database

  const MAX_NAME: nat := 255
  const MIN_PASSWORD: nat := 6

  /** The body of an admin store or update request; every field may be absent. */
  datatype AdminInput = AdminInput(name: Option<string>, email: Option<string>, password: Option<string>)

  /** `Admin::where('organization_id', org)`: the admins of one tenant, each row as stored. */
  function OrgAdmins(admins: Table<Admin>, org: nat): (r: Table<Admin>)
    ensures forall id :: id in r <==> id in admins && admins[id].organizationId == org
    ensures forall id :: id in r ==> id in admins && r[id] == admins[id]
  {
    map id | id in admins && admins[id].organizationId == org :: admins[id]
  }

  /** GET /admins: the caller's admins and nobody else. */
  function Index(admins: Table<Admin>, org: nat): (r: Response<Table<Admin>>)
    ensures r.Success? && r.status == OK
    ensures forall id :: id in r.body <==> id in admins && admins[id].organizationId == org
    ensures forall id :: id in r.body ==> id in admins && r.body[id] == admins[id]
  {
    Success(OK, OrgAdmins(admins, org))
  }

  /**
   * The `unique:admins` rule: no admin row of any organization uses the
   * address, except the row `ignore` names (update passes the admin's own id).
   */
  predicate EmailFree(admins: Table<Admin>, email: string, ignore: Option<nat>)
  {
    forall id :: id in admins && admins[id].email == email ==> ignore == Some(id)
  }

  /** The validation rules of store. */
  predicate StoreRules(admins: Table<Admin>, input: AdminInput, isEmail: string -> bool)
  {
    && Filled(input.name) && |input.name.value| <= MAX_NAME
    && Filled(input.email) && isEmail(input.email.value) && EmailFree(admins, input.email.value, None)
    && Filled(input.password) && |input.password.value| >= MIN_PASSWORD
  }

  /**
   * POST /admins with `newId` the next auto-increment id: 422 and no insert
   * unless the rules pass; otherwise 201 and one new row holding the hash of
   * the password, owned by the caller.
   */
  function StoreResult(admins: Table<Admin>, newId: nat, org: nat, input: AdminInput,
                       hash: string -> string, isEmail: string -> bool)
    : (r: (Table<Admin>, Response<(nat, Admin)>))
    requires newId !in admins
    ensures r.1.Success? <==> StoreRules(admins, input, isEmail)
    ensures r.1.Failure? ==> r.0 == admins && r.1.status == UNPROCESSABLE
    ensures input.password.Some? && |input.password.value| < MIN_PASSWORD ==> r.1.Failure?
    ensures (exists id :: id in admins && input.email == Some(admins[id].email)) ==> r.1.Failure?
    ensures r.1.Success? ==> r.1.status == CREATED && r.1.body.0 == newId
    ensures r.1.Success? ==> r.0.Keys == admins.Keys + {newId} && r.0[newId] == r.1.body.1
    ensures r.1.Success? ==> r.0[newId] == Admin(input.name.value, input.email.value, hash(input.password.value), org)
    ensures forall id :: id in admins ==> id in r.0 && r.0[id] == admins[id]
  {
    if StoreRules(admins, input, isEmail) then
      var admin := Admin(input.name.value, input.email.value, hash(input.password.value), org);
      (admins[newId := admin], Success(CREATED, (newId, admin)))
    else
      (admins, Failure(UNPROCESSABLE, ""))
  }

  /** `where('id', id)->where('organization_id', org)->first()`. */
  function FindOwned(admins: Table<Admin>, org: nat, id: nat): (r: Option<Admin>)
    ensures r.Some? <==> id in OrgAdmins(admins, org)
    ensures r.Some? ==> r.value == admins[id]
  {
    if id in admins && admins[id].organizationId == org then Some(admins[id]) else None
  }

  /** GET /admins/{id}: the caller's admin, or 404 for a missing id and another organization's alike. */
  function Show(admins: Table<Admin>, org: nat, id: nat): (r: Response<Admin>)
    ensures r.Success? <==> id in OrgAdmins(admins, org)
    ensures r.Success? ==> r == Success(OK, admins[id])
    ensures r.Failure? ==> r == Failure(NOT_FOUND, "")
  {
    match FindOwned(admins, org, id)
    case None => Failure(NOT_FOUND, "")
    case Some(admin) => Success(OK, admin)
  }

  /** A password field that asks for a new hash: present and not empty. */
  predicate NewPassword(password: Option<string>)
  {
    password.Some? && password.value != ""
  }

  /** The validation rules of update for admin `id`. */
  predicate UpdateRules(admins: Table<Admin>, id: nat, input: AdminInput, isEmail: string -> bool)
  {
    && (input.name.Some? ==> input.name.value != "" && |input.name.value| <= MAX_NAME)
    && (input.email.Some? ==> input.email.value != "" && isEmail(input.email.value)
                              && EmailFree(admins, input.email.value, Some(id)))
    && (NewPassword(input.password) ==> |input.password.value| >= MIN_PASSWORD)
  }

  /**
   * The row update writes: name and email when present; the password only
   * when a non-empty one is sent, and then as its hash; the organization never.
   */
  function Amended(admin: Admin, input: AdminInput, hash: string -> string): (r: Admin)
    ensures r.organizationId == admin.organizationId
    ensures input.name.None? ==> r.name == admin.name
    ensures input.name.Some? ==> r.name == input.name.value
    ensures input.email.None? ==> r.email == admin.email
    ensures input.email.Some? ==> r.email == input.email.value
    ensures !NewPassword(input.password) ==> r.password == admin.password
    ensures NewPassword(input.password) ==> r.password == hash(input.password.value)
  {
    Admin(
      if input.name.Some? then input.name.value else admin.name,
      if input.email.Some? then input.email.value else admin.email,
      if NewPassword(input.password) then hash(input.password.value) else admin.password,
      admin.organizationId)
  }

  /**
   * PUT /admins/{id}: the scoped lookup first (404, nothing written), then
   * the rules (422, nothing written), then only that row is rewritten.
   */
  function UpdateResult(admins: Table<Admin>, org: nat, id: nat, input: AdminInput,
                        hash: string -> string, isEmail: string -> bool)
    : (r: (Table<Admin>, Response<Admin>))
    ensures r.1.Success? <==> id in OrgAdmins(admins, org) && UpdateRules(admins, id, input, isEmail)
    ensures id !in OrgAdmins(admins, org) ==> r == (admins, Failure(NOT_FOUND, ""))
    ensures id in OrgAdmins(admins, org) && !UpdateRules(admins, id, input, isEmail)
            ==> r == (admins, Failure(UNPROCESSABLE, ""))
    ensures r.1.Success? ==> r.0 == admins[id := Amended(admins[id], input, hash)] && r.1 == Success(OK, r.0[id])
  {
    match FindOwned(admins, org, id)
    case None => (admins, Failure(NOT_FOUND, ""))
    case Some(admin) =>
      if !UpdateRules(admins, id, input, isEmail) then (admins, Failure(UNPROCESSABLE, ""))
      else
        var updated := Amended(admin, input, hash);
        (admins[id := updated], Success(OK, updated))
  }

  /** DELETE /admins/{id}: 404 and nothing written unless the admin is the caller's; otherwise only that row goes. */
  function DestroyResult(admins: Table<Admin>, org: nat, id: nat): (r: (Table<Admin>, Response<string>))
    ensures r.1.Success? <==> id in OrgAdmins(admins, org)
    ensures r.1.Failure? ==> r == (admins, Failure(NOT_FOUND, ""))
    ensures r.1.Success? ==> r.1 == Success(OK, "Admin deleted") && r.0 == admins - {id}
  {
    match FindOwned(admins, org, id)
    case None => (admins, Failure(NOT_FOUND, ""))
    case Some(_) => (admins - {id}, Success(OK, "Admin deleted"))
  }

  method Store(db: Db, org: nat, input: AdminInput, hash: string -> string, isEmail: string -> bool)
    returns (resp: Response<(nat, Admin)>)
    requires db.Valid() && org in db.organizations
    modifies db`admins, db`nextAdminId
    ensures db.Valid()
    ensures (db.admins, resp) == StoreResult(old(db.admins), old(db.nextAdminId), org, input, hash, isEmail)
    ensures db.nextAdminId == if resp.Success? then old(db.nextAdminId) + 1 else old(db.nextAdminId)
  {
    if !StoreRules(db.admins, input, isEmail) {
      resp := Failure(UNPROCESSABLE, "");
      return;
    }
    var id := db.nextAdminId;
    var admin := Admin(input.name.value, input.email.value, hash(input.password.value), org);
    StoreKeepsEmailsUnique(db.admins, id, org, input, hash, isEmail);
    db.admins := db.admins[id := admin];
    db.nextAdminId := id + 1;
    resp := Success(CREATED, (id, admin));
  }

  method Update(db: Db, org: nat, id: nat, input: AdminInput, hash: string -> string, isEmail: string -> bool)
    returns (resp: Response<Admin>)
    requires db.Valid()
    modifies db`admins
    ensures db.Valid()
    ensures (db.admins, resp) == UpdateResult(old(db.admins), org, id, input, hash, isEmail)
  {
    var found := FindOwned(db.admins, org, id);
    if found.None? {
      resp := Failure(NOT_FOUND, "");
      return;
    }
    if !UpdateRules(db.admins, id, input, isEmail) {
      resp := Failure(UNPROCESSABLE, "");
      return;
    }
    var admin := Amended(found.value, input, hash);
    UpdateKeepsEmailsUnique(db.admins, org, id, input, hash, isEmail);
    db.admins := db.admins[id := admin];
    resp := Success(OK, admin);
  }

  method Destroy(db: Db, org: nat, id: nat) returns (resp: Response<string>)
    requires db.Valid()
    modifies db`admins
    ensures db.Valid()
    ensures (db.admins, resp) == DestroyResult(old(db.admins), org, id)
  {
    var found := FindOwned(db.admins, org, id);
    if found.None? {
      resp := Failure(NOT_FOUND, "");
      return;
    }
    db.admins := db.admins - {id};
    resp := Success(OK, "Admin deleted");
  }

  /** Store never puts a second admin on an address, in any organization. */
  lemma {:induction false} StoreKeepsEmailsUnique(admins: Table<Admin>, newId: nat, org: nat, input: AdminInput,
                                                  hash: string -> string, isEmail: string -> bool)
    requires newId !in admins && UniqueEmails(admins)
    ensures UniqueEmails(StoreResult(admins, newId, org, input, hash, isEmail).0)
  {
    var after := StoreResult(admins, newId, org, input, hash, isEmail).0;
    forall i, j | i in after && j in after && after[i].email == after[j].email
      ensures i == j
    {
    }
  }

  /** Update never moves an admin onto an address another admin holds. */
  lemma {:induction false} UpdateKeepsEmailsUnique(admins: Table<Admin>, org: nat, id: nat, input: AdminInput,
                                                   hash: string -> string, isEmail: string -> bool)
    requires UniqueEmails(admins)
    ensures UniqueEmails(UpdateResult(admins, org, id, input, hash, isEmail).0)
  {
    var after := UpdateResult(admins, org, id, input, hash, isEmail).0;
    forall i, j | i in after && j in after && after[i].email == after[j].email
      ensures i == j
    {
    }
  }

  /**
   * Re-sending one's own address passes the uniqueness rule: an update of
   * the caller's admin whose other fields are valid succeeds and keeps it.
   */
  lemma {:induction false} OwnEmailAccepted(admins: Table<Admin>, org: nat, id: nat, input: AdminInput,
                                            hash: string -> string, isEmail: string -> bool)
    requires UniqueEmails(admins) && id in OrgAdmins(admins, org)
    requires input.email == Some(admins[id].email) && admins[id].email != "" && isEmail(admins[id].email)
    requires input.name.Some? ==> input.name.value != "" && |input.name.value| <= MAX_NAME
    requires NewPassword(input.password) ==> |input.password.value| >= MIN_PASSWORD
    ensures UpdateResult(admins, org, id, input, hash, isEmail).1.Success?
    ensures UpdateResult(admins, org, id, input, hash, isEmail).0[id].email == admins[id].email
  {
    forall k | k in admins && admins[k].email == admins[id].email
      ensures Some(id) == Some(k)
    {
    }
  }

  /** An update without a new password keeps the stored hash; one with a new password stores its hash. */
  lemma PasswordRule(admins: Table<Admin>, org: nat, id: nat, input: AdminInput,
                     hash: string -> string, isEmail: string -> bool)
    requires UpdateResult(admins, org, id, input, hash, isEmail).1.Success?
    ensures input.password.None? || input.password == Some("")
            ==> UpdateResult(admins, org, id, input, hash, isEmail).0[id].password == admins[id].password
    ensures NewPassword(input.password)
            ==> UpdateResult(admins, org, id, input, hash, isEmail).0[id].password == hash(input.password.value)
  {
  }

  /**
   * Show, destroy and the lookup of update answer the caller from the
   * caller's own admins alone: nothing about other organizations leaks.
   */
  lemma {:induction false} AnswersDependOnlyOnOwnRows(a1: Table<Admin>, a2: Table<Admin>, org: nat, id: nat)
    requires OrgAdmins(a1, org) == OrgAdmins(a2, org)
    ensures Show(a1, org, id) == Show(a2, org, id)
    ensures DestroyResult(a1, org, id).1 == DestroyResult(a2, org, id).1
  {
    assert id in OrgAdmins(a1, org) <==> id in OrgAdmins(a2, org);
    if id in OrgAdmins(a1, org) {
      assert a1[id] == OrgAdmins(a1, org)[id] == OrgAdmins(a2, org)[id] == a2[id];
    }
  }

  /** Another organization's admin is answered exactly as an absent id is, and nothing is written. */
  lemma ForeignLooksMissing(admins: Table<Admin>, org: nat, id: nat, input: AdminInput,
                            hash: string -> string, isEmail: string -> bool)
    requires id in admins && admins[id].organizationId != org
    ensures Show(admins, org, id) == Show(admins - {id}, org, id) == Failure(NOT_FOUND, "")
    ensures UpdateResult(admins, org, id, input, hash, isEmail) == (admins, Failure(NOT_FOUND, ""))
    ensures DestroyResult(admins, org, id) == (admins, Failure(NOT_FOUND, ""))
  {
  }

  /**
   * Address uniqueness spans organizations: an address held by an admin of
   * any organization makes store fail, so store's answer does depend on
   * other tenants' rows.
   */
  lemma ForeignEmailRejected(admins: Table<Admin>, newId: nat, org: nat, input: AdminInput, other: nat,
                             hash: string -> string, isEmail: string -> bool)
    requires newId !in admins && other in admins && admins[other].organizationId != org
    requires input.email == Some(admins[other].email)
    ensures StoreResult(admins, newId, org, input, hash, isEmail) == (admins, Failure(UNPROCESSABLE, ""))
  {
  }
}
