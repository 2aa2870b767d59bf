/** The tenant use cases. Their checks look at live tenants only, while the table's unique columns
    cover deleted ones as well; the lemmas say exactly where the two differ. */
module TenantUsecase {
  import opened Accounts
  import opened AppErrors
  import opened Wrappers

  datatype NewTenant = NewTenant(code: string, name: string, domain: Option<string>)

  datatype Changes = Changes(name: Option<string>, domain: Option<string>, status: Option<int>)

  function RowOf(id: nat, req: NewTenant, now: int): Tenant
  {
    Tenant(id, req.code, req.name, req.domain, ACTIVE, now, None)
  }

  predicate SomeLive(rows: Tenants, key: TenantKey)
  {
    exists id | id in rows :: TenantSelected(rows[id], key)
  }

  /** The checks a creation makes; an empty domain is not checked. */
  predicate Objects(rows: Tenants, req: NewTenant)
  {
    SomeLive(rows, TenantByCode(req.code)) ||
    (req.domain.Some? && req.domain.value != "" && SomeLive(rows, TenantByDomain(req.domain.value)))
  }

  function Edited(t: Tenant, changes: Changes, now: int): Tenant
  {
    t.(name := if changes.name.Some? then changes.name.value else t.name,
       domain := if changes.domain.Some? then changes.domain else t.domain,
       status := if changes.status.Some? then changes.status.value else t.status,
       updatedAt := now)
  }

  datatype Call =
    | Create(id: nat, req: NewTenant)
    | Update(id: nat, changes: Changes)
    | Delete(id: nat)

  predicate Live(rows: Tenants, id: nat) { id in rows && rows[id].deletedAt.None? }

  function Serve(rows: Tenants, call: Call, now: int): (Tenants, Option<AppError>)
  {
    match call
    case Create(id, req) =>
      if Objects(rows, req) then (rows, Some(Conflict))
      else Outcome(rows, InsertTenant(rows, RowOf(id, req, now)))
    case Update(id, changes) =>
      if !Live(rows, id) then (rows, Some(NotFound))
      else Outcome(rows, ChangeTenant(rows, Edited(rows[id], changes, now), now))
    case Delete(id) =>
      if !Live(rows, id) then (rows, Some(NotFound)) else (SoftDeleteTenant(rows, id, now), None)
  }

  /** Any database error is reported as internal. */
  function Outcome(before: Tenants, statement: Result<Tenants, DbError>): (Tenants, Option<AppError>)
  {
    match statement
    case Ok(after) => (after, None)
    case Err(_) => (before, Some(Internal))
  }

  class TenantUsecase {
    const tenantRepo: TenantRepo

    constructor (tenantRepo: TenantRepo)
      ensures this.tenantRepo == tenantRepo
    {
      this.tenantRepo := tenantRepo;
    }

    method CreateTenant(id: nat, req: NewTenant, now: int) returns (failure: Option<AppError>)
      modifies tenantRepo
      ensures (tenantRepo.rows, failure) == Serve(old(tenantRepo.rows), Create(id, req), now)
    {
      var existing := tenantRepo.Find(TenantByCode(req.code));
      if existing.Some? {
        return Some(Conflict);
      }
      if req.domain.Some? && req.domain.value != "" {
        existing := tenantRepo.Find(TenantByDomain(req.domain.value));
        if existing.Some? {
          return Some(Conflict);
        }
      }
      var error := tenantRepo.Create(RowOf(id, req, now));
      return if error.Some? then Some(Internal) else None;
    }

    method UpdateTenant(id: nat, changes: Changes, now: int) returns (failure: Option<AppError>)
      requires forall id | id in tenantRepo.rows :: tenantRepo.rows[id].id == id
      modifies tenantRepo
      ensures (tenantRepo.rows, failure) == Serve(old(tenantRepo.rows), Update(id, changes), now)
    {
      var found := tenantRepo.Find(TenantById(id));
      if found.None? {
        return Some(NotFound);
      }
      var tenant := found.value;
      if changes.name.Some? {
        tenant := tenant.(name := changes.name.value);
      }
      if changes.domain.Some? {
        tenant := tenant.(domain := changes.domain);
      }
      if changes.status.Some? {
        tenant := tenant.(status := changes.status.value);
      }
      tenant := tenant.(updatedAt := now);
      assert tenant == Edited(tenantRepo.rows[id], changes, now);
      var error := tenantRepo.Update(tenant, now);
      return if error.Some? then Some(Internal) else None;
    }

    method DeleteTenant(id: nat, now: int) returns (failure: Option<AppError>)
      requires forall id | id in tenantRepo.rows :: tenantRepo.rows[id].id == id
      modifies tenantRepo
      ensures (tenantRepo.rows, failure) == Serve(old(tenantRepo.rows), Delete(id), now)
    {
      var found := tenantRepo.Find(TenantById(id));
      if found.None? {
        return Some(NotFound);
      }
      tenantRepo.Delete(id, now);
      return None;
    }
  }

  // ---------- Where the checks and the constraints differ ----------

  /** Some row, deleted or not, has the code, or the domain if one is asked for. */
  predicate Taken(rows: Tenants, req: NewTenant)
  {
    exists id | id in rows :: rows[id].code == req.code || (req.domain.Some? && rows[id].domain == req.domain)
  }

  /** With a fresh id: a creation succeeds exactly when neither code nor domain occurs in any row, and
      fails as internal exactly when only rows the checks pass over hold them: deleted tenants, or
      tenants whose domain is the empty string. */
  lemma CreationOutcome(rows: Tenants, id: nat, req: NewTenant, now: int)
    requires id !in rows
    ensures Serve(rows, Create(id, req), now).1 == None <==> !Taken(rows, req)
    ensures Serve(rows, Create(id, req), now).1 == Some(Conflict) <==> Objects(rows, req)
    ensures Serve(rows, Create(id, req), now).1 == Some(Internal) <==>
            Taken(rows, req) &&
            forall other | other in rows && rows[other].deletedAt.None? ::
              rows[other].code != req.code &&
              (req.domain.Some? && rows[other].domain == req.domain ==> req.domain == Some(""))
  {
    var row := RowOf(id, req, now);
    assert TenantClash(rows, row) <==> Taken(rows, req);
    if other :| other in rows && rows[other].deletedAt.None? &&
                !(rows[other].code != req.code &&
                  (req.domain.Some? && rows[other].domain == req.domain ==> req.domain == Some(""))) {
      assert TenantSelected(rows[other], TenantByCode(req.code)) ||
             TenantSelected(rows[other], TenantByDomain(req.domain.value));
    }
  }

  ghost predicate RowsDistinct(rows: Tenants)
  {
    && (forall id | id in rows :: rows[id].id == id)
    && (forall i, j | i in rows && j in rows && i != j ::
          rows[i].code != rows[j].code && (rows[i].domain.Some? ==> rows[i].domain != rows[j].domain))
  }

  function RunCalls(rows: Tenants, calls: seq<(Call, int)>): Tenants
    decreases |calls|
  {
    if calls == [] then rows else RunCalls(Serve(rows, calls[0].0, calls[0].1).0, calls[1..])
  }

  lemma ServeKeepsCodes(rows: Tenants, call: Call, now: int, id: nat)
    requires RowsDistinct(rows) && id in rows
    ensures var after := Serve(rows, call, now).0;
            RowsDistinct(after) && id in after && after[id].code == rows[id].code &&
            (rows[id].deletedAt.Some? ==> after[id] == rows[id])
  {
  }

  lemma {:induction false} RunKeepsCodes(rows: Tenants, calls: seq<(Call, int)>, id: nat)
    requires RowsDistinct(rows) && id in rows
    ensures var after := RunCalls(rows, calls);
            RowsDistinct(after) && id in after && after[id].code == rows[id].code &&
            (rows[id].deletedAt.Some? ==> after[id] == rows[id])
    decreases |calls|
  {
    if calls != [] {
      ServeKeepsCodes(rows, calls[0].0, calls[0].1, id);
      RunKeepsCodes(Serve(rows, calls[0].0, calls[0].1).0, calls[1..], id);
    }
  }

  /** A code once used is never free again: after any further calls, deletions included, creating a
      tenant with it fails and changes nothing. It is a conflict if the holder is still live or the
      domain is taken by a live tenant, and an internal error otherwise. */
  lemma CodesAreNeverReused(rows: Tenants, calls: seq<(Call, int)>, holder: nat, id: nat, req: NewTenant, now: int)
    requires RowsDistinct(rows) && holder in rows && req.code == rows[holder].code
    ensures var after := RunCalls(rows, calls);
            var outcome := Serve(after, Create(id, req), now);
            && holder in after && outcome.0 == after && outcome.1.Some?
            && (outcome.1 == Some(Conflict) <==>
                  after[holder].deletedAt.None? ||
                  (req.domain.Some? && req.domain.value != "" && SomeLive(after, TenantByDomain(req.domain.value))))
  {
    RunKeepsCodes(rows, calls, holder);
    var after := RunCalls(rows, calls);
    if id != holder {
      assert TenantClash(after, RowOf(id, req, now));
    }
    assert after[holder].deletedAt.None? <==> SomeLive(after, TenantByCode(req.code)) by {
      if after[holder].deletedAt.None? {
        assert TenantSelected(after[holder], TenantByCode(req.code));
      }
    }
  }

  // ---------- What the calls answer and write ----------

  /** A creation conflicts exactly if a live tenant has the code, or the domain when one is given that is not
      empty; it fails internally if only the rows those checks pass over, or the id, stand in its way; and
      when it succeeds, it adds the active row asked for. */
  lemma CreationIsExact(rows: Tenants, id: nat, req: NewTenant, now: int)
    ensures var (after, failure) := Serve(rows, Create(id, req), now);
            var conflict := exists other | other in rows && rows[other].deletedAt == None ::
              || rows[other].code == req.code
              || (req.domain != None && req.domain != Some("") && rows[other].domain == req.domain);
            var taken := id in rows || exists other | other in rows ::
              rows[other].code == req.code || (req.domain != None && rows[other].domain == req.domain);
            && (failure == Some(Conflict) <==> conflict)
            && (failure == Some(Internal) <==> taken && !conflict)
            && (failure == None <==> !taken)
            && after == if taken then rows else rows[id := Tenant(id, req.code, req.name, req.domain, 1, now, None)]
  {
    if id !in rows {
      CreationOutcome(rows, id, req, now);
    }
    assert forall other | other in rows :: TenantSelected(rows[other], TenantByCode(req.code)) <==>
             rows[other].deletedAt == None && rows[other].code == req.code;
    if req.domain != None {
      assert forall other | other in rows :: TenantSelected(rows[other], TenantByDomain(req.domain.value)) <==>
               rows[other].deletedAt == None && rows[other].domain == req.domain;
    }
  }

  /** An edit writes the fields that are set and the time; it fails for a tenant that is missing or deleted,
      and internally if another row, deleted or not, has the domain. */
  lemma EditIsExact(rows: Tenants, id: nat, changes: Changes, now: int)
    requires RowsDistinct(rows)
    ensures var (after, failure) := Serve(rows, Update(id, changes), now);
            var live := id in rows && rows[id].deletedAt == None;
            var taken := changes.domain != None &&
                         exists other | other in rows && other != id :: rows[other].domain == changes.domain;
            && (failure == Some(NotFound) <==> !live)
            && (failure == Some(Internal) <==> live && taken)
            && (failure == None <==> live && !taken)
            && (failure != None ==> after == rows)
            && (failure == None ==> after == rows[id := Tenant(
                  id, rows[id].code,
                  match changes.name case Some(name) => name case None => rows[id].name,
                  if changes.domain == None then rows[id].domain else changes.domain,
                  match changes.status case Some(status) => status case None => rows[id].status,
                  now, None)])
  {
  }

  /** A deletion marks the live tenant inactive and deleted; it fails for one that is missing or deleted. */
  lemma DeletionIsExact(rows: Tenants, id: nat, now: int)
    ensures var (after, failure) := Serve(rows, Delete(id), now);
            if id in rows && rows[id].deletedAt == None
            then failure == None && after == rows[id := rows[id].(status := 0, updatedAt := now, deletedAt := Some(now))]
            else failure == Some(NotFound) && after == rows
  {
  }
}
