/** The five filter builders. Each method assembles conditions, arguments and a running placeholder
    index step by step, renders the statements and runs them; its contract says that the rows it
    returns are the requested page of exactly the rows that match the filter. */
module SqlBuilders {
  import opened Wrappers
  import opened Text
  import opened SqlLanguage
  import opened SqlEngine
  import opened Paging
  import Like

  // ---------- Filters and what they ask for ----------

  datatype AuditFilter = AuditFilter(tenantId: Option<nat>, userId: Option<nat>, action: Option<string>,
                                     resource: Option<string>, startDate: Option<int>, endDate: Option<int>,
                                     limit: int, offset: int)

  datatype RoleFilter = RoleFilter(tenantId: Option<nat>, status: Option<int>, search: Option<string>,
                                   limit: int, offset: int)

  /** The builder takes the user from a separate argument and ignores the filter's own `userId`. */
  datatype SessionFilter = SessionFilter(userId: Option<nat>, deviceType: Option<string>,
                                         isRevoked: Option<bool>, limit: int, offset: int)

  /** The builder ignores `roleId`. */
  datatype UserFilter = UserFilter(tenantId: Option<nat>, status: Option<int>, search: Option<string>,
                                   roleId: Option<nat>, limit: int, offset: int)

  datatype TenantFilter = TenantFilter(status: Option<int>, search: Option<string>, limit: int, offset: int)

  datatype Query =
    | AuditQuery(audit: AuditFilter)
    | RoleQuery(role: RoleFilter)
    | SessionQuery(owner: nat, session: SessionFilter)
    | UserQuery(user: UserFilter)
    | TenantQuery(tenant: TenantFilter)

  predicate RowOf(q: Query, row: Row)
  {
    match q
    case AuditQuery(_) => row.AuditRow?
    case RoleQuery(_) => row.RoleRow?
    case SessionQuery(_, _) => row.SessionRow?
    case UserQuery(_) => row.UserRow?
    case TenantQuery(_) => row.TenantRow?
  }

  predicate Asked<T(==)>(wanted: Option<T>, actual: Option<T>)
  {
    wanted.Some? ==> actual == wanted
  }

  predicate Found(search: Option<string>, text: string)
  {
    search.Some? && Like.ILike(text, Like.SearchPattern(search.value))
  }

  predicate Searching(search: Option<string>) { search.Some? && search.value != "" }

  predicate Ended(row: Row, now: int)
    requires row.SessionRow?
  {
    row.revokedAt.Some? || row.expiresAt <= now
  }

  /** Whether the row is one the filter asks for: a field left out constrains nothing, and a field
      that is set is not met by a NULL. */
  predicate Matches(q: Query, now: int, row: Row)
    requires RowOf(q, row)
  {
    match q
    case AuditQuery(f) =>
      && Asked(f.tenantId, row.tenantId) && Asked(f.userId, row.userId)
      && Asked(f.action, Some(row.action)) && Asked(f.resource, row.resource)
      && (f.startDate.Some? ==> f.startDate.value <= row.createdAt)
      && (f.endDate.Some? ==> row.createdAt <= f.endDate.value)
    case RoleQuery(f) =>
      && (f.tenantId.Some? ==> row.tenantId == f.tenantId || row.tenantId == None)
      && Asked(f.status, Some(row.status))
      && (Searching(f.search) ==> Found(f.search, row.code) || Found(f.search, row.name))
    case SessionQuery(owner, f) =>
      && row.owner == owner
      && Asked(f.deviceType, row.deviceType)
      && Asked(f.isRevoked, Some(Ended(row, now)))
    case UserQuery(f) =>
      && row.deletedAt == None
      && Asked(f.tenantId, Some(row.tenant))
      && Asked(f.status, Some(row.status))
      && (Searching(f.search) ==>
            Found(f.search, row.fullName) || Found(f.search, row.email) || Found(f.search, row.username))
    case TenantQuery(f) =>
      && row.deletedAt == None
      && Asked(f.status, Some(row.status))
      && (Searching(f.search) ==>
            Found(f.search, row.code) || Found(f.search, row.name) ||
            (row.domain.Some? && Found(f.search, row.domain.value)))
  }

  predicate AllRowsOf(q: Query, rows: seq<Row>)
  {
    forall i | 0 <= i < |rows| :: RowOf(q, rows[i])
  }

  /** The matching rows, in table order. */
  function Matching(q: Query, now: int, rows: seq<Row>): seq<Row>
    requires AllRowsOf(q, rows)
  {
    if rows == [] then []
    else (if Matches(q, now, rows[0]) then [rows[0]] else []) + Matching(q, now, rows[1..])
  }

  function Defaulted(limit: int, default: int): int { if limit == 0 then default else limit }

  /** What a listing returns: the page and the total. With a negative limit or offset the page query
      breaks off before its first row, which goes unnoticed: the page is empty and there is no error. */
  function Listing(q: Query, limit: int, offset: int, now: int, rows: seq<Row>): Option<(seq<Row>, nat)>
    requires AllRowsOf(q, rows)
  {
    var page := if limit < 0 || offset < 0 then [] else Slice(Matching(q, now, rows), limit, offset);
    Some((page, |Matching(q, now, rows)|))
  }

  // ---------- The builders' result as a value ----------

  function NextParam(b: Build): nat { |b.args| + 1 }

  function OptCmp(b: Build, col: Column, op: Op, v: Option<Value>): Build
  {
    if v.None? then b else With(b, Cmp(col, op, Param(NextParam(b))), v.value)
  }

  function EitherLike(first: Column, second: Column, n: nat): Expr
  {
    Or(Cmp(first, ILike, Param(n)), Cmp(second, ILike, Param(n)))
  }

  function AnyLike(first: Column, second: Column, third: Column, n: nat): Expr
  {
    Or(Cmp(first, ILike, Param(n)), EitherLike(second, third, n))
  }

  function OptTest(b: Build, e: Expr, v: Option<Value>): Build
  {
    if v.None? then b else With(b, e, v.value)
  }

  function AsId(v: Option<nat>): Option<Value> { if v.Some? then Some(Id(v.value)) else None }

  function AsNum(v: Option<int>): Option<Value> { if v.Some? then Some(Num(v.value)) else None }

  function AsStr(v: Option<string>): Option<Value> { if v.Some? then Some(Str(v.value)) else None }

  function AsTime(v: Option<int>): Option<Value> { if v.Some? then Some(Time(v.value)) else None }

  function AsPattern(search: Option<string>): Option<Value>
  {
    if Searching(search) then Some(Str(Like.SearchPattern(search.value))) else None
  }

  function AuditBuild(f: AuditFilter): Build
  {
    var b := OptCmp(EMPTY, TenantId, Eq, AsId(f.tenantId));
    var b := OptCmp(b, UserId, Eq, AsId(f.userId));
    var b := OptCmp(b, Action, Eq, AsStr(f.action));
    var b := OptCmp(b, Resource, Eq, AsStr(f.resource));
    var b := OptCmp(b, CreatedAt, Ge, AsTime(f.startDate));
    OptCmp(b, CreatedAt, Le, AsTime(f.endDate))
  }

  function OwnOrGlobal(n: nat): Expr { Or(Cmp(TenantId, Eq, Param(n)), IsNull(TenantId)) }

  function RoleBuild(f: RoleFilter): Build
  {
    var b := OptTest(EMPTY, OwnOrGlobal(1), AsId(f.tenantId));
    var b := OptCmp(b, Status, Eq, AsNum(f.status));
    OptTest(b, EitherLike(Code, Name, NextParam(b)), AsPattern(f.search))
  }

  const ENDED := Or(NotNull(RevokedAt), Cmp(ExpiresAt, Le, Operand.Now))
  const RUNNING := And(IsNull(RevokedAt), Cmp(ExpiresAt, Gt, Operand.Now))

  function OptEnded(b: Build, isRevoked: Option<bool>): Build
  {
    match isRevoked
    case None => b
    case Some(true) => Plain(b, ENDED)
    case Some(false) => Plain(b, RUNNING)
  }

  function SessionBuild(owner: nat, f: SessionFilter): Build
  {
    var b := OptCmp(EMPTY, UserId, Eq, AsId(Some(owner)));
    var b := OptCmp(b, DeviceType, Eq, AsStr(f.deviceType));
    OptEnded(b, f.isRevoked)
  }

  function UserBuild(f: UserFilter): Build
  {
    var b := UserBase(f);
    OptTest(b, AnyLike(FullName, Email, Username, NextParam(b)), AsPattern(f.search))
  }

  function TenantBuild(f: TenantFilter): Build
  {
    var b := Plain(EMPTY, IsNull(DeletedAt));
    var b := OptCmp(b, Status, Eq, AsNum(f.status));
    OptTest(b, AnyLike(Code, Name, Domain, NextParam(b)), AsPattern(f.search))
  }

  // ---------- Each step adds its field's meaning ----------

  lemma OptCmpStep(b: Build, col: Column, op: Op, v: Option<Value>, now: int, row: Row, want: bool, test: bool)
    requires WellNumbered(b) && Decides(b, now, row, want)
    requires v.Some? ==> Cell(row, col).Some? && Compare(op, Cell(row, col).value, v.value) != Invalid
    requires test == (v.Some? ==> Compare(op, Cell(row, col).value, v.value) == Yes)
    ensures WellNumbered(OptCmp(b, col, op, v))
    ensures Decides(OptCmp(b, col, op, v), now, row, want && test)
  {
    if v.Some? {
      var e := Cmp(col, op, Param(NextParam(b)));
      WellNumberedWith(b, e, v.value);
      assert (b.args + [v.value])[|b.args|] == v.value;
      DecidesWith(b, e, v.value, now, row, want, test);
    }
  }

  lemma OptTestStep(b: Build, e: Expr, v: Option<Value>, now: int, row: Row, want: bool, test: bool)
    requires WellNumbered(b) && Placeholders(e) == {NextParam(b)} && Decides(b, now, row, want)
    requires v.Some? ==> Eval(e, b.args + [v.value], now, row) != Invalid
    requires test == (v.Some? ==> Eval(e, b.args + [v.value], now, row) == Yes)
    ensures WellNumbered(OptTest(b, e, v))
    ensures Decides(OptTest(b, e, v), now, row, want && test)
  {
    if v.Some? {
      WellNumberedWith(b, e, v.value);
      DecidesWith(b, e, v.value, now, row, want, test);
    }
  }

  lemma PlainStep(b: Build, e: Expr, now: int, row: Row, want: bool, test: bool)
    requires WellNumbered(b) && Placeholders(e) == {} && Decides(b, now, row, want)
    requires Eval(e, b.args, now, row) != Invalid
    requires test == (Eval(e, b.args, now, row) == Yes)
    ensures WellNumbered(Plain(b, e))
    ensures Decides(Plain(b, e), now, row, want && test)
  {
    WellNumberedPlain(b, e);
    DecidesPlain(b, e, now, row, want, test);
  }

  lemma EmptyDecides(now: int, row: Row)
    ensures WellNumbered(EMPTY) && Decides(EMPTY, now, row, true)
  {
  }

  lemma IdStep(b: Build, col: Column, wanted: Option<nat>, actual: Option<nat>, now: int, row: Row, want: bool)
    requires WellNumbered(b) && Decides(b, now, row, want) && Cell(row, col) == Some(IdOrNull(actual))
    ensures WellNumbered(OptCmp(b, col, Eq, AsId(wanted)))
    ensures Decides(OptCmp(b, col, Eq, AsId(wanted)), now, row, want && Asked(wanted, actual))
  {
    OptCmpStep(b, col, Eq, AsId(wanted), now, row, want, Asked(wanted, actual));
  }

  lemma StrStep(b: Build, col: Column, wanted: Option<string>, actual: Option<string>, now: int, row: Row, want: bool)
    requires WellNumbered(b) && Decides(b, now, row, want) && Cell(row, col) == Some(StrOrNull(actual))
    ensures WellNumbered(OptCmp(b, col, Eq, AsStr(wanted)))
    ensures Decides(OptCmp(b, col, Eq, AsStr(wanted)), now, row, want && Asked(wanted, actual))
  {
    OptCmpStep(b, col, Eq, AsStr(wanted), now, row, want, Asked(wanted, actual));
  }

  lemma StatusStep(b: Build, wanted: Option<int>, actual: int, now: int, row: Row, want: bool)
    requires WellNumbered(b) && Decides(b, now, row, want) && Cell(row, Status) == Some(Num(actual))
    ensures WellNumbered(OptCmp(b, Status, Eq, AsNum(wanted)))
    ensures Decides(OptCmp(b, Status, Eq, AsNum(wanted)), now, row, want && Asked(wanted, Some(actual)))
  {
    OptCmpStep(b, Status, Eq, AsNum(wanted), now, row, want, Asked(wanted, Some(actual)));
  }

  lemma SinceStep(b: Build, since: Option<int>, actual: int, now: int, row: Row, want: bool)
    requires WellNumbered(b) && Decides(b, now, row, want) && Cell(row, CreatedAt) == Some(Time(actual))
    ensures WellNumbered(OptCmp(b, CreatedAt, Ge, AsTime(since)))
    ensures Decides(OptCmp(b, CreatedAt, Ge, AsTime(since)), now, row,
                    want && (since.Some? ==> since.value <= actual))
  {
    OptCmpStep(b, CreatedAt, Ge, AsTime(since), now, row, want, since.Some? ==> since.value <= actual);
  }

  lemma UntilStep(b: Build, until: Option<int>, actual: int, now: int, row: Row, want: bool)
    requires WellNumbered(b) && Decides(b, now, row, want) && Cell(row, CreatedAt) == Some(Time(actual))
    ensures WellNumbered(OptCmp(b, CreatedAt, Le, AsTime(until)))
    ensures Decides(OptCmp(b, CreatedAt, Le, AsTime(until)), now, row,
                    want && (until.Some? ==> actual <= until.value))
  {
    OptCmpStep(b, CreatedAt, Le, AsTime(until), now, row, want, until.Some? ==> actual <= until.value);
  }

  lemma SearchEval(col: Column, b: Build, pattern: string, now: int, row: Row)
    requires Cell(row, col).Some? && (Cell(row, col).value.Str? || Cell(row, col).value.Null?)
    ensures var verdict := Eval(Cmp(col, ILike, Param(NextParam(b))), b.args + [Str(pattern)], now, row);
            verdict != Invalid &&
            (verdict == Yes <==> Cell(row, col).value.Str? && Like.ILike(Cell(row, col).value.str, pattern))
  {
    assert (b.args + [Str(pattern)])[|b.args|] == Str(pattern);
  }

  /** Searching two or three columns, at least the last of which may be NULL. */
  lemma EvalAnyLike(b: Build, first: Column, x: string, second: Column, y: string, third: Column, z: Option<string>,
                    pattern: string, now: int, row: Row)
    requires Cell(row, first) == Some(Str(x)) && Cell(row, second) == Some(Str(y))
    requires Cell(row, third) == Some(StrOrNull(z))
    ensures var n, args := NextParam(b), b.args + [Str(pattern)];
            && Eval(EitherLike(first, second, n), args, now, row) == Bool(Like.ILike(x, pattern) || Like.ILike(y, pattern))
            && Eval(AnyLike(first, second, third, n), args, now, row) != Invalid
            && (Eval(AnyLike(first, second, third, n), args, now, row) == Yes <==>
                  Like.ILike(x, pattern) || Like.ILike(y, pattern) || (z.Some? && Like.ILike(z.value, pattern)))
  {
    var n, args := NextParam(b), b.args + [Str(pattern)];
    TextEval(first, x, b, pattern, now, row);
    TextEval(second, y, b, pattern, now, row);
    SearchEval(third, b, pattern, now, row);
    var z' := Eval(Cmp(third, ILike, Param(n)), args, now, row);
    OrEval(Cmp(first, ILike, Param(n)), Cmp(second, ILike, Param(n)), args, now, row);
    OrEval(Cmp(second, ILike, Param(n)), Cmp(third, ILike, Param(n)), args, now, row);
    OrEval(Cmp(first, ILike, Param(n)), EitherLike(second, third, n), args, now, row);
    OrOfThree(Like.ILike(x, pattern), Like.ILike(y, pattern), z');
  }

  lemma TextEval(col: Column, text: string, b: Build, pattern: string, now: int, row: Row)
    requires Cell(row, col) == Some(Str(text))
    ensures Eval(Cmp(col, ILike, Param(NextParam(b))), b.args + [Str(pattern)], now, row) == Bool(Like.ILike(text, pattern))
  {
    assert (b.args + [Str(pattern)])[|b.args|] == Str(pattern);
  }

  lemma OrOfThree(a: bool, b: bool, c: Tri)
    requires c != Invalid
    ensures Or3(Bool(a), Bool(b)) == Bool(a || b) && Or3(Bool(a), Or3(Bool(b), c)) != Invalid
    ensures Or3(Bool(a), Or3(Bool(b), c)) == Yes <==> a || b || c == Yes
  {
  }

  lemma OrEval(left: Expr, right: Expr, args: seq<Value>, now: int, row: Row)
    ensures Eval(Or(left, right), args, now, row) == Or3(Eval(left, args, now, row), Eval(right, args, now, row))
  {
  }

  lemma SearchPlaceholders(first: Column, second: Column, third: Column, n: nat)
    ensures Placeholders(EitherLike(first, second, n)) == {n}
    ensures Placeholders(AnyLike(first, second, third, n)) == {n}
  {
    assert Placeholders(EitherLike(second, third, n)) == {n};
  }

  lemma EitherStep(b: Build, first: Column, x: string, second: Column, y: string, search: Option<string>,
                   now: int, row: Row, want: bool)
    requires WellNumbered(b) && Decides(b, now, row, want)
    requires Cell(row, first) == Some(Str(x)) && Cell(row, second) == Some(Str(y))
    ensures var b' := OptTest(b, EitherLike(first, second, NextParam(b)), AsPattern(search));
            WellNumbered(b') &&
            Decides(b', now, row, want && (Searching(search) ==> Found(search, x) || Found(search, y)))
  {
    if Searching(search) {
      EvalAnyLike(b, first, x, second, y, second, Some(y), Like.SearchPattern(search.value), now, row);
      SearchPlaceholders(first, second, second, NextParam(b));
      OptTestStep(b, EitherLike(first, second, NextParam(b)), AsPattern(search), now, row, want,
                  Found(search, x) || Found(search, y));
    }
  }

  lemma AnyStep(b: Build, first: Column, x: string, second: Column, y: string, third: Column, z: Option<string>,
                search: Option<string>, now: int, row: Row, want: bool)
    requires WellNumbered(b) && Decides(b, now, row, want)
    requires Cell(row, first) == Some(Str(x)) && Cell(row, second) == Some(Str(y))
    requires Cell(row, third) == Some(StrOrNull(z))
    ensures var b' := OptTest(b, AnyLike(first, second, third, NextParam(b)), AsPattern(search));
            WellNumbered(b') &&
            Decides(b', now, row, want && (Searching(search) ==>
              Found(search, x) || Found(search, y) || (z.Some? && Found(search, z.value))))
  {
    if Searching(search) {
      EvalAnyLike(b, first, x, second, y, third, z, Like.SearchPattern(search.value), now, row);
      SearchPlaceholders(first, second, third, NextParam(b));
      OptTestStep(b, AnyLike(first, second, third, NextParam(b)), AsPattern(search), now, row, want,
                  Found(search, x) || Found(search, y) || (z.Some? && Found(search, z.value)));
    }
  }

  /** The six audit filters: the rendered conditions hold of a row exactly when it matches. */
  lemma AuditMeaning(f: AuditFilter, now: int, row: Row)
    requires row.AuditRow?
    ensures WellNumbered(AuditBuild(f)) && Decides(AuditBuild(f), now, row, Matches(AuditQuery(f), now, row))
  {
    EmptyDecides(now, row);
    IdStep(EMPTY, TenantId, f.tenantId, row.tenantId, now, row, true);
    var b, want := OptCmp(EMPTY, TenantId, Eq, AsId(f.tenantId)), Asked(f.tenantId, row.tenantId);
    IdStep(b, UserId, f.userId, row.userId, now, row, want);
    b, want := OptCmp(b, UserId, Eq, AsId(f.userId)), want && Asked(f.userId, row.userId);
    StrStep(b, Action, f.action, Some(row.action), now, row, want);
    b, want := OptCmp(b, Action, Eq, AsStr(f.action)), want && Asked(f.action, Some(row.action));
    StrStep(b, Resource, f.resource, row.resource, now, row, want);
    b, want := OptCmp(b, Resource, Eq, AsStr(f.resource)), want && Asked(f.resource, row.resource);
    SinceStep(b, f.startDate, row.createdAt, now, row, want);
    b, want := OptCmp(b, CreatedAt, Ge, AsTime(f.startDate)),
               want && (f.startDate.Some? ==> f.startDate.value <= row.createdAt);
    UntilStep(b, f.endDate, row.createdAt, now, row, want);
  }

  lemma OwnOrGlobalStep(tenantId: Option<nat>, now: int, row: Row)
    requires row.RoleRow?
    ensures var b := OptTest(EMPTY, OwnOrGlobal(1), AsId(tenantId));
            WellNumbered(b) &&
            Decides(b, now, row, tenantId.Some? ==> row.tenantId == tenantId || row.tenantId == None)
  {
    EmptyDecides(now, row);
    OptTestStep(EMPTY, OwnOrGlobal(1), AsId(tenantId), now, row, true,
                tenantId.Some? ==> row.tenantId == tenantId || row.tenantId == None);
  }

  lemma RoleMeaning(f: RoleFilter, now: int, row: Row)
    requires row.RoleRow?
    ensures WellNumbered(RoleBuild(f)) && Decides(RoleBuild(f), now, row, Matches(RoleQuery(f), now, row))
  {
    OwnOrGlobalStep(f.tenantId, now, row);
    var b := OptTest(EMPTY, OwnOrGlobal(1), AsId(f.tenantId));
    var want := f.tenantId.Some? ==> row.tenantId == f.tenantId || row.tenantId == None;
    StatusStep(b, f.status, row.status, now, row, want);
    b, want := OptCmp(b, Status, Eq, AsNum(f.status)), want && Asked(f.status, Some(row.status));
    EitherStep(b, Code, row.code, Name, row.name, f.search, now, row, want);
  }

  lemma EndedStep(b: Build, isRevoked: Option<bool>, now: int, row: Row, want: bool)
    requires row.SessionRow? && WellNumbered(b) && Decides(b, now, row, want)
    ensures WellNumbered(OptEnded(b, isRevoked))
    ensures Decides(OptEnded(b, isRevoked), now, row, want && Asked(isRevoked, Some(Ended(row, now))))
  {
    if isRevoked.Some? {
      var e := if isRevoked.value then ENDED else RUNNING;
      PlainStep(b, e, now, row, want, isRevoked.value == Ended(row, now));
    }
  }

  lemma SessionMeaning(owner: nat, f: SessionFilter, now: int, row: Row)
    requires row.SessionRow?
    ensures WellNumbered(SessionBuild(owner, f))
    ensures Decides(SessionBuild(owner, f), now, row, Matches(SessionQuery(owner, f), now, row))
  {
    EmptyDecides(now, row);
    IdStep(EMPTY, UserId, Some(owner), Some(row.owner), now, row, true);
    var b, want := OptCmp(EMPTY, UserId, Eq, AsId(Some(owner))), Asked(Some(owner), Some(row.owner));
    StrStep(b, DeviceType, f.deviceType, row.deviceType, now, row, want);
    b, want := OptCmp(b, DeviceType, Eq, AsStr(f.deviceType)), want && Asked(f.deviceType, row.deviceType);
    EndedStep(b, f.isRevoked, now, row, want);
  }

  lemma NotDeletedStep(now: int, row: Row)
    requires row.UserRow? || row.TenantRow?
    ensures var b := Plain(EMPTY, IsNull(DeletedAt));
            WellNumbered(b) && Decides(b, now, row, row.deletedAt == None)
  {
    EmptyDecides(now, row);
    PlainStep(EMPTY, IsNull(DeletedAt), now, row, true, row.deletedAt == None);
  }

  /** The user conditions before the search. */
  function UserBase(f: UserFilter): Build
  {
    OptCmp(OptCmp(Plain(EMPTY, IsNull(DeletedAt)), TenantId, Eq, AsId(f.tenantId)), Status, Eq, AsNum(f.status))
  }

  lemma UserBaseMeaning(f: UserFilter, now: int, row: Row)
    requires row.UserRow?
    ensures WellNumbered(UserBase(f))
    ensures Decides(UserBase(f), now, row,
                    row.deletedAt == None && Asked(f.tenantId, Some(row.tenant)) && Asked(f.status, Some(row.status)))
  {
    NotDeletedStep(now, row);
    var b, want := Plain(EMPTY, IsNull(DeletedAt)), row.deletedAt == None;
    IdStep(b, TenantId, f.tenantId, Some(row.tenant), now, row, want);
    b, want := OptCmp(b, TenantId, Eq, AsId(f.tenantId)), want && Asked(f.tenantId, Some(row.tenant));
    StatusStep(b, f.status, row.status, now, row, want);
  }

  lemma UserMeaning(f: UserFilter, now: int, row: Row)
    requires row.UserRow?
    ensures WellNumbered(UserBuild(f)) && Decides(UserBuild(f), now, row, Matches(UserQuery(f), now, row))
  {
    UserBaseMeaning(f, now, row);
    var want := row.deletedAt == None && Asked(f.tenantId, Some(row.tenant)) && Asked(f.status, Some(row.status));
    AnyStep(UserBase(f), FullName, row.fullName, Email, row.email, Username, Some(row.username), f.search, now, row, want);
  }

  lemma TenantMeaning(f: TenantFilter, now: int, row: Row)
    requires row.TenantRow?
    ensures WellNumbered(TenantBuild(f)) && Decides(TenantBuild(f), now, row, Matches(TenantQuery(f), now, row))
  {
    NotDeletedStep(now, row);
    var b, want := Plain(EMPTY, IsNull(DeletedAt)), row.deletedAt == None;
    StatusStep(b, f.status, row.status, now, row, want);
    b, want := OptCmp(b, Status, Eq, AsNum(f.status)), want && Asked(f.status, Some(row.status));
    AnyStep(b, Code, row.code, Name, row.name, Domain, row.domain, f.search, now, row, want);
  }

  // ---------- Running the rendered statements ----------

  lemma {:induction false} SelectedIsMatching(b: Build, more: seq<Value>, q: Query, now: int, rows: seq<Row>)
    requires AllRowsOf(q, rows) && WellNumbered(b)
    requires forall i | 0 <= i < |rows| :: Decides(b, now, rows[i], Matches(q, now, rows[i]))
    ensures Selected(ParseWhere(WhereText(Texts(b.es))), b.args + more, now, rows) == Some(Matching(q, now, rows))
  {
    if rows != [] {
      ConditionDecides(b, more, now, rows[0], Matches(q, now, rows[0]));
      SelectedIsMatching(b, more, q, now, rows[1..]);
    }
  }

  lemma CountMeansQuery(b: Build, q: Query, now: int, rows: seq<Row>)
    requires AllRowsOf(q, rows) && WellNumbered(b)
    requires forall i | 0 <= i < |rows| :: Decides(b, now, rows[i], Matches(q, now, rows[i]))
    ensures Count(WhereText(Texts(b.es)), b.args, now, rows) == Some(|Matching(q, now, rows)|)
  {
    WhereParses(b);
    SelectedIsMatching(b, [], q, now, rows);
    assert b.args + [] == b.args;
  }

  lemma PageMeansQuery(b: Build, q: Query, limit: int, offset: int, now: int, rows: seq<Row>)
    requires AllRowsOf(q, rows) && WellNumbered(b)
    requires forall i | 0 <= i < |rows| :: Decides(b, now, rows[i], Matches(q, now, rows[i]))
    ensures Page(WhereText(Texts(b.es)), TailText(NextParam(b)), b.args + [Num(limit), Num(offset)], now, rows) ==
              if limit < 0 || offset < 0 then Delivered([], true)
              else Delivered(Slice(Matching(q, now, rows), limit, offset), false)
  {
    var n, args := NextParam(b), b.args + [Num(limit), Num(offset)];
    WhereParses(b);
    SelectedIsMatching(b, [Num(limit), Num(offset)], q, now, rows);
    TailParses(n);
    assert args[n - 1] == Num(limit) && args[n] == Num(offset);
    assert |args| == |b.args| + 2;
    assert Numbered(|args|) == Numbered(|b.args|) + {n, n + 1};
  }

  lemma PageReply(b: Build, q: Query, tailText: string, limit: int, offset: int, now: int, rows: seq<Row>, page: Reply)
    requires AllRowsOf(q, rows) && WellNumbered(b) && tailText == TailText(NextParam(b))
    requires forall i | 0 <= i < |rows| :: Decides(b, now, rows[i], Matches(q, now, rows[i]))
    requires page == Page(WhereText(Texts(b.es)), tailText, b.args + [Num(limit), Num(offset)], now, rows)
    ensures page.Delivered?
    ensures page.rows == if limit < 0 || offset < 0 then [] else Slice(Matching(q, now, rows), limit, offset)
  {
    PageMeansQuery(b, q, limit, offset, now, rows);
  }

  /** The builder variables hold exactly what the value form says, and the index is one past the
      number of arguments. */
  predicate Holds(conditions: seq<string>, args: seq<Value>, argIdx: int, b: Build)
  {
    conditions == Texts(b.es) && args == b.args && argIdx == |args| + 1
  }

  lemma HoldsPlain(conditions: seq<string>, args: seq<Value>, argIdx: int, b: Build, e: Expr)
    requires Holds(conditions, args, argIdx, b)
    ensures Holds(conditions + [TextAnd(e)], args, argIdx, Plain(b, e))
  {
    TextsSnoc(b.es, e);
  }

  lemma HoldsWith(conditions: seq<string>, args: seq<Value>, argIdx: int, b: Build, e: Expr, v: Value)
    requires Holds(conditions, args, argIdx, b)
    ensures Holds(conditions + [TextAnd(e)], args + [v], argIdx + 1, With(b, e, v))
  {
    TextsSnoc(b.es, e);
  }

  /** `col op $`, the text of a comparison up to its placeholder's number. */
  function Stem(col: Column, op: Op): string
  {
    ColumnText(col) + (" " + (OpText(op) + (" " + "$")))
  }

  lemma StemTexts()
    ensures Stem(TenantId, Eq) == "tenant_id = $"
    ensures Stem(UserId, Eq) == "user_id = $"
    ensures Stem(Action, Eq) == "action = $"
    ensures Stem(Resource, Eq) == "resource = $"
    ensures Stem(Status, Eq) == "status = $"
    ensures Stem(DeviceType, Eq) == "device_type = $"
    ensures Stem(CreatedAt, Ge) == "created_at >= $"
    ensures Stem(CreatedAt, Le) == "created_at <= $"
  {
  }

  /** One comparison branch of a builder: append the condition and the argument, advance the index. */
  lemma CmpBranch(conditions: seq<string>, args: seq<Value>, argIdx: int, b: Build, col: Column, op: Op, v: Value)
    requires Holds(conditions, args, argIdx, b)
    ensures Holds(conditions + [Stem(col, op) + Itoa(argIdx)], args + [v], argIdx + 1, OptCmp(b, col, op, Some(v)))
  {
    var n := NextParam(b);
    assert Stem(col, op) + Itoa(n) == TextAnd(Cmp(col, op, Param(n)));
    HoldsWith(conditions, args, argIdx, b, Cmp(col, op, Param(n)), v);
  }

  /** `col ILIKE $n`. */
  function LikeText(col: Column, n: nat): string
  {
    ColumnText(col) + (" " + ("ILIKE" + (" " + ("$" + Itoa(n)))))
  }

  lemma LikeTexts(first: Column, second: Column, third: Column, n: nat)
    ensures TextAnd(EitherLike(first, second, n)) == Paren(Infix(LikeText(first, n), "OR", LikeText(second, n)))
    ensures TextAnd(AnyLike(first, second, third, n))
            == Paren(Infix(LikeText(first, n), "OR", Infix(LikeText(second, n), "OR", LikeText(third, n))))
  {
    var c := Cmp(third, ILike, Param(n));
    assert TextOr(c) == TextAnd(c) == TextPrim(c) == LikeText(third, n);
    var b := Cmp(second, ILike, Param(n));
    assert TextOr(b) == TextAnd(b) == TextPrim(b) == LikeText(second, n);
    var a := Cmp(first, ILike, Param(n));
    assert TextAnd(a) == TextPrim(a) == LikeText(first, n);
    assert TextOr(EitherLike(second, third, n)) == Infix(LikeText(second, n), "OR", LikeText(third, n));
  }

  lemma Regroup(open: string, a: string, digits: string, middle: string, b: string, close: string)
    ensures (open + a) + digits + (middle + b) + digits + close
            == open + (((a + digits) + (middle + (b + digits))) + close)
  {
  }

  lemma Regroup3(open: string, a: string, digits: string, middle: string, b: string, c: string, close: string)
    ensures (open + a) + digits + (middle + b) + digits + (middle + c) + digits + close
            == open + (((a + digits) + (middle + ((b + digits) + (middle + (c + digits))))) + close)
  {
  }

  /** A column and the operator, up to and including the dollar sign. */
  function LikeStem(col: Column): string { ColumnText(col) + (" " + ("ILIKE" + (" " + "$"))) }

  lemma StemText(col: Column, n: nat)
    ensures LikeStem(col) + Itoa(n) == LikeText(col, n)
  {
  }

  lemma OrText(left: string, right: string)
    ensures left + (" OR " + right) == Infix(left, "OR", right)
  {
    assert " OR " == " " + ("OR" + " ");
  }

  /** The literal pieces of a two-column search condition. */
  lemma EitherLikeText(opening: string, middle: string, first: Column, second: Column, n: nat)
    requires opening == "(" + LikeStem(first) && middle == " OR " + LikeStem(second)
    ensures opening + Itoa(n) + middle + Itoa(n) + ")" == TextAnd(EitherLike(first, second, n))
  {
    LikeTexts(first, second, second, n);
    StemText(first, n);
    StemText(second, n);
    Regroup("(", LikeStem(first), Itoa(n), " OR ", LikeStem(second), ")");
    OrText(LikeText(first, n), LikeText(second, n));
  }

  /** The literal pieces of a three-column search condition. */
  lemma AnyLikeText(opening: string, middle: string, last: string, first: Column, second: Column, third: Column, n: nat)
    requires opening == "(" + LikeStem(first) && middle == " OR " + LikeStem(second) && last == " OR " + LikeStem(third)
    ensures opening + Itoa(n) + middle + Itoa(n) + last + Itoa(n) + ")" == TextAnd(AnyLike(first, second, third, n))
  {
    LikeTexts(first, second, third, n);
    StemText(first, n);
    StemText(second, n);
    StemText(third, n);
    Regroup3("(", LikeStem(first), Itoa(n), " OR ", LikeStem(second), LikeStem(third), ")");
    OrText(LikeText(second, n), LikeText(third, n));
    OrText(LikeText(first, n), Infix(LikeText(second, n), "OR", LikeText(third, n)));
  }

  /** The row-scan loop: append each row the query yields. Whether the rows broke off is never asked. */
  method Scan(reply: Reply) returns (scanned: seq<Row>)
    requires reply.Delivered?
    ensures scanned == reply.rows
  {
    scanned := [];
    for i := 0 to |reply.rows|
      invariant scanned == reply.rows[..i]
    {
      scanned := scanned + [reply.rows[i]];
    }
  }

  /** The common end of every builder: count, append limit and offset, query, scan. */
  method RunStatements(q: Query, whereText: string, args: seq<Value>, argIdx: nat, limit: int, offset: int,
                       now: int, rows: seq<Row>, ghost b: Build)
    returns (r: Option<(seq<Row>, nat)>)
    requires AllRowsOf(q, rows) && WellNumbered(b)
    requires whereText == WhereText(Texts(b.es)) && args == b.args && argIdx == |args| + 1
    requires forall i | 0 <= i < |rows| :: Decides(b, now, rows[i], Matches(q, now, rows[i]))
    ensures r == Listing(q, limit, offset, now, rows)
  {
    CountMeansQuery(b, q, now, rows);
    var total := Count(whereText, args, now, rows);
    if total.None? {
      return None;
    }
    var scanned := FetchPage(q, whereText, args, argIdx, limit, offset, now, rows, b);
    return if scanned.None? then None else Some((scanned.value, total.value));
  }

  /** Append limit and offset, query, scan. */
  method FetchPage(q: Query, whereText: string, args: seq<Value>, argIdx: nat, limit: int, offset: int,
                   now: int, rows: seq<Row>, ghost b: Build)
    returns (scanned: Option<seq<Row>>)
    requires AllRowsOf(q, rows) && WellNumbered(b)
    requires whereText == WhereText(Texts(b.es)) && args == b.args && argIdx == |args| + 1
    requires forall i | 0 <= i < |rows| :: Decides(b, now, rows[i], Matches(q, now, rows[i]))
    ensures scanned == Some(if limit < 0 || offset < 0 then [] else Slice(Matching(q, now, rows), limit, offset))
  {
    var tailText := "LIMIT $" + Itoa(argIdx) + " OFFSET $" + Itoa(argIdx + 1);
    var page := Page(whereText, tailText, args + [Num(limit), Num(offset)], now, rows);
    PageReply(b, q, tailText, limit, offset, now, rows, page);
    if page.Refused? {
      return None;
    }
    var fetched := Scan(page);
    return Some(fetched);
  }

  lemma DeletedText()
    ensures TextAnd(IsNull(DeletedAt)) == "deleted_at IS NULL"
  {
  }

  lemma RunningPieces()
    ensures LeafText(IsNull(RevokedAt)) == "revoked_at IS NULL"
    ensures LeafText(Cmp(ExpiresAt, Gt, Operand.Now)) == "expires_at > NOW()"
  {
  }

  lemma RunningLiteral()
    ensures Infix("revoked_at IS NULL", "AND", "expires_at > NOW()") == "revoked_at IS NULL AND expires_at > NOW()"
  {
    assert "AND" + (" " + "expires_at > NOW()") == "AND expires_at > NOW()";
  }

  lemma RunningText()
    ensures TextAnd(RUNNING) == "revoked_at IS NULL AND expires_at > NOW()"
  {
    var live, after := IsNull(RevokedAt), Cmp(ExpiresAt, Gt, Operand.Now);
    assert TextPrim(live) == LeafText(live) && TextAnd(after) == TextPrim(after) == LeafText(after);
    assert TextAnd(RUNNING) == Infix(TextPrim(live), "AND", TextAnd(after));
    RunningPieces();
    RunningLiteral();
  }

  lemma EndedPieces()
    ensures LeafText(NotNull(RevokedAt)) == "revoked_at IS NOT NULL"
    ensures LeafText(Cmp(ExpiresAt, Le, Operand.Now)) == "expires_at <= NOW()"
  {
  }

  lemma EndedLiteral()
    ensures "(revoked_at IS NOT NULL OR expires_at <= NOW())"
            == ("(" + "revoked_at IS NOT NULL") + (" " + ("OR" + " ")) + ("expires_at <= NOW()" + ")")
  {
    var l, r := "(revoked_at IS NOT NULL", "expires_at <= NOW())";
    assert l == "(" + "revoked_at IS NOT NULL" && r == "expires_at <= NOW()" + ")";
    assert " OR " == " " + ("OR" + " ");
    assert "(revoked_at IS NOT NULL OR expires_at <= NOW())" == l + " OR " + r;
  }

  lemma EndedText()
    ensures TextAnd(ENDED) == "(revoked_at IS NOT NULL OR expires_at <= NOW())"
  {
    var dead, past := NotNull(RevokedAt), Cmp(ExpiresAt, Le, Operand.Now);
    var left, right := LeafText(dead), LeafText(past);
    assert TextAnd(dead) == left && TextOr(past) == TextAnd(past) == right;
    assert TextAnd(ENDED) == TextPrim(ENDED) == Paren(Infix(left, "OR", right));
    EndedShape("(", left, "OR", right, ")");
    EndedLiteral();
    EndedPieces();
  }

  lemma EndedShape(open: string, left: string, word: string, right: string, close: string)
    ensures (open + left) + (" " + (word + " ")) + (right + close)
            == open + ((left + (" " + (word + (" " + right)))) + close)
  {
  }

  lemma OwnOrGlobalPieces()
    ensures LeafText(IsNull(TenantId)) == "tenant_id IS NULL"
    ensures "(tenant_id = $" == "(" + Stem(TenantId, Eq)
    ensures " OR tenant_id IS NULL)" == " " + ("OR" + (" " + ("tenant_id IS NULL" + ")")))
  {
    StemTexts();
  }

  lemma OwnOrGlobalText(n: nat)
    ensures "(tenant_id = $" + Itoa(n) + " OR tenant_id IS NULL)" == TextAnd(OwnOrGlobal(n))
  {
    var left, right := Cmp(TenantId, Eq, Param(n)), IsNull(TenantId);
    assert TextAnd(left) == TextPrim(left) == Stem(TenantId, Eq) + Itoa(n);
    assert TextOr(right) == TextAnd(right) == TextPrim(right) == LeafText(right);
    OwnOrGlobalPieces();
    OwnOrGlobalShape("(", Stem(TenantId, Eq), Itoa(n), "OR", LeafText(right), ")");
  }

  lemma OwnOrGlobalShape(open: string, stem: string, digits: string, word: string, right: string, close: string)
    ensures (open + stem) + digits + (" " + (word + (" " + (right + close))))
            == open + (((stem + digits) + (" " + (word + (" " + right)))) + close)
  {
  }

  lemma SearchTexts()
    ensures "(" + LikeStem(Code) == "(code ILIKE $" && " OR " + LikeStem(Name) == " OR name ILIKE $"
    ensures " OR " + LikeStem(Domain) == " OR domain ILIKE $"
    ensures "(" + LikeStem(FullName) == "(full_name ILIKE $" && " OR " + LikeStem(Email) == " OR email ILIKE $"
    ensures " OR " + LikeStem(Username) == " OR username ILIKE $"
  {
  }

  // ---------- The builders ----------

  /** One optional comparison: if the filter field is set, append `format` with the placeholder's
      number, append the argument and advance the index. */
  method AppendComparison(conditions: seq<string>, args: seq<Value>, argIdx: nat, format: string, v: Option<Value>,
                          ghost b: Build, ghost col: Column, ghost op: Op)
    returns (conditions': seq<string>, args': seq<Value>, argIdx': nat)
    requires Holds(conditions, args, argIdx, b) && format == Stem(col, op)
    ensures Holds(conditions', args', argIdx', OptCmp(b, col, op, v))
  {
    conditions', args', argIdx' := conditions, args, argIdx;
    if v.Some? {
      CmpBranch(conditions, args, argIdx, b, col, op, v.value);
      conditions' := conditions + [format + Itoa(argIdx)];
      args' := args + [v.value];
      argIdx' := argIdx + 1;
    }
  }

  /** One optional search over three columns, all through the same placeholder. */
  method AppendSearch(conditions: seq<string>, args: seq<Value>, argIdx: nat,
                      opening: string, middle: string, last: string, search: Option<string>,
                      ghost b: Build, ghost first: Column, ghost second: Column, ghost third: Column)
    returns (conditions': seq<string>, args': seq<Value>, argIdx': nat)
    requires Holds(conditions, args, argIdx, b)
    requires opening == "(" + LikeStem(first) && middle == " OR " + LikeStem(second) && last == " OR " + LikeStem(third)
    ensures Holds(conditions', args', argIdx',
                  OptTest(b, AnyLike(first, second, third, NextParam(b)), AsPattern(search)))
  {
    conditions', args', argIdx' := conditions, args, argIdx;
    if search.Some? && search.value != "" {
      AnyLikeText(opening, middle, last, first, second, third, argIdx);
      HoldsWith(conditions, args, argIdx, b, AnyLike(first, second, third, argIdx), Str(Like.SearchPattern(search.value)));
      conditions' := conditions + [opening + Itoa(argIdx) + middle + Itoa(argIdx) + last + Itoa(argIdx) + ")"];
      args' := args + [Str("%" + search.value + "%")];
      argIdx' := argIdx + 1;
    }
  }

  /** The audit log: six optional filters. */
  method ListAudit(filter: AuditFilter, now: int, rows: seq<Row>) returns (r: Option<(seq<Row>, nat)>)
    requires AllRowsOf(AuditQuery(filter), rows)
    ensures r == Listing(AuditQuery(filter), Defaulted(filter.limit, 50), filter.offset, now, rows)
  {
    var conditions: seq<string> := [];
    var args: seq<Value> := [];
    var argIdx: nat := 1;
    ghost var b := EMPTY;
    StemTexts();
    conditions, args, argIdx :=
      AppendComparison(conditions, args, argIdx, "tenant_id = $", AsId(filter.tenantId), b, TenantId, Eq);
    b := OptCmp(b, TenantId, Eq, AsId(filter.tenantId));
    conditions, args, argIdx :=
      AppendComparison(conditions, args, argIdx, "user_id = $", AsId(filter.userId), b, UserId, Eq);
    b := OptCmp(b, UserId, Eq, AsId(filter.userId));
    conditions, args, argIdx :=
      AppendComparison(conditions, args, argIdx, "action = $", AsStr(filter.action), b, Action, Eq);
    b := OptCmp(b, Action, Eq, AsStr(filter.action));
    conditions, args, argIdx :=
      AppendComparison(conditions, args, argIdx, "resource = $", AsStr(filter.resource), b, Resource, Eq);
    b := OptCmp(b, Resource, Eq, AsStr(filter.resource));
    conditions, args, argIdx :=
      AppendComparison(conditions, args, argIdx, "created_at >= $", AsTime(filter.startDate), b, CreatedAt, Ge);
    b := OptCmp(b, CreatedAt, Ge, AsTime(filter.startDate));
    conditions, args, argIdx :=
      AppendComparison(conditions, args, argIdx, "created_at <= $", AsTime(filter.endDate), b, CreatedAt, Le);
    b := OptCmp(b, CreatedAt, Le, AsTime(filter.endDate));
    AuditEverywhere(filter, now, rows, b);
    var whereClause := "";
    if |conditions| > 0 {
      whereClause := "WHERE " + Join(conditions, " AND ");
    }
    var limit := filter.limit;
    if limit == 0 {
      limit := 50;
    }
    r := RunStatements(AuditQuery(filter), whereClause, args, argIdx, limit, filter.offset, now, rows, b);
  }

  lemma AuditEverywhere(f: AuditFilter, now: int, rows: seq<Row>, b: Build)
    requires AllRowsOf(AuditQuery(f), rows) && b == AuditBuild(f)
    ensures WellNumbered(b)
    ensures forall i | 0 <= i < |rows| :: Decides(b, now, rows[i], Matches(AuditQuery(f), now, rows[i]))
  {
    AuditMeaning(f, now, AuditRow(0, None, None, "", None, 0));
    forall i | 0 <= i < |rows|
      ensures Decides(b, now, rows[i], Matches(AuditQuery(f), now, rows[i]))
    {
      AuditMeaning(f, now, rows[i]);
    }
  }

  /** Roles: the tenant's own and the global ones, by status, by a search in code and name. */
  method ListRoles(filter: RoleFilter, now: int, rows: seq<Row>) returns (r: Option<(seq<Row>, nat)>)
    requires AllRowsOf(RoleQuery(filter), rows)
    ensures r == Listing(RoleQuery(filter), Defaulted(filter.limit, 20), filter.offset, now, rows)
  {
    var conditions: seq<string> := [];
    var args: seq<Value> := [];
    var argIdx: nat := 1;
    ghost var b := EMPTY;
    if filter.tenantId.Some? {
      OwnOrGlobalText(argIdx);
      HoldsWith(conditions, args, argIdx, b, OwnOrGlobal(argIdx), Id(filter.tenantId.value));
      conditions := conditions + ["(tenant_id = $" + Itoa(argIdx) + " OR tenant_id IS NULL)"];
      args := args + [Id(filter.tenantId.value)];
      argIdx := argIdx + 1;
    }
    b := OptTest(b, OwnOrGlobal(1), AsId(filter.tenantId));
    StemTexts();
    conditions, args, argIdx :=
      AppendComparison(conditions, args, argIdx, "status = $", AsNum(filter.status), b, Status, Eq);
    b := OptCmp(b, Status, Eq, AsNum(filter.status));
    ghost var e := EitherLike(Code, Name, NextParam(b));
    if filter.search.Some? && filter.search.value != "" {
      SearchTexts();
      EitherLikeText("(code ILIKE $", " OR name ILIKE $", Code, Name, argIdx);
      HoldsWith(conditions, args, argIdx, b, e, Str(Like.SearchPattern(filter.search.value)));
      conditions := conditions + ["(code ILIKE $" + Itoa(argIdx) + " OR name ILIKE $" + Itoa(argIdx) + ")"];
      args := args + [Str("%" + filter.search.value + "%")];
      argIdx := argIdx + 1;
    }
    b := OptTest(b, e, AsPattern(filter.search));
    RolesEverywhere(filter, now, rows, b);
    var whereClause := "";
    if |conditions| > 0 {
      whereClause := "WHERE " + Join(conditions, " AND ");
    }
    var limit := filter.limit;
    if limit == 0 {
      limit := 20;
    }
    r := RunStatements(RoleQuery(filter), whereClause, args, argIdx, limit, filter.offset, now, rows, b);
  }

  lemma RolesEverywhere(f: RoleFilter, now: int, rows: seq<Row>, b: Build)
    requires AllRowsOf(RoleQuery(f), rows) && b == RoleBuild(f)
    ensures WellNumbered(b)
    ensures forall i | 0 <= i < |rows| :: Decides(b, now, rows[i], Matches(RoleQuery(f), now, rows[i]))
  {
    RoleMeaning(f, now, RoleRow(0, None, "", "", 0));
    forall i | 0 <= i < |rows|
      ensures Decides(b, now, rows[i], Matches(RoleQuery(f), now, rows[i]))
    {
      RoleMeaning(f, now, rows[i]);
    }
  }

  /** A user's sessions: by device type, and either the ended or the running ones. */
  method ListSessions(owner: nat, filter: SessionFilter, now: int, rows: seq<Row>)
    returns (r: Option<(seq<Row>, nat)>)
    requires AllRowsOf(SessionQuery(owner, filter), rows)
    ensures r == Listing(SessionQuery(owner, filter), Defaulted(filter.limit, 20), filter.offset, now, rows)
  {
    var conditions: seq<string> := [];
    var args: seq<Value> := [];
    var argIdx := 1;
    ghost var b := EMPTY;
    StemTexts();
    EndedText();
    RunningText();
    CmpBranch(conditions, args, argIdx, b, UserId, Eq, Id(owner));
    conditions := conditions + ["user_id = $" + Itoa(argIdx)];
    args := args + [Id(owner)];
    argIdx := argIdx + 1;
    b := OptCmp(b, UserId, Eq, AsId(Some(owner)));
    assert Holds(conditions, args, argIdx, b);
    conditions, args, argIdx :=
      AppendComparison(conditions, args, argIdx, "device_type = $", AsStr(filter.deviceType), b, DeviceType, Eq);
    b := OptCmp(b, DeviceType, Eq, AsStr(filter.deviceType));
    if filter.isRevoked.Some? {
      HoldsPlain(conditions, args, argIdx, b, if filter.isRevoked.value then ENDED else RUNNING);
      if filter.isRevoked.value {
        conditions := conditions + ["(revoked_at IS NOT NULL OR expires_at <= NOW())"];
      } else {
        conditions := conditions + ["revoked_at IS NULL AND expires_at > NOW()"];
      }
    }
    b := OptEnded(b, filter.isRevoked);
    assert Holds(conditions, args, argIdx, b);
    SessionsEverywhere(owner, filter, now, rows, b);
    var whereClause := "WHERE " + Join(conditions, " AND ");
    var limit := filter.limit;
    if limit == 0 {
      limit := 20;
    }
    assert |conditions| > 0;
    r := RunStatements(SessionQuery(owner, filter), whereClause, args, argIdx, limit, filter.offset, now, rows, b);
  }

  lemma SessionsEverywhere(owner: nat, f: SessionFilter, now: int, rows: seq<Row>, b: Build)
    requires AllRowsOf(SessionQuery(owner, f), rows) && b == SessionBuild(owner, f)
    ensures WellNumbered(b) && |Texts(b.es)| > 0
    ensures forall i | 0 <= i < |rows| :: Decides(b, now, rows[i], Matches(SessionQuery(owner, f), now, rows[i]))
  {
    SessionMeaning(owner, f, now, SessionRow(0, 0, None, 0, None));
    forall i | 0 <= i < |rows|
      ensures Decides(b, now, rows[i], Matches(SessionQuery(owner, f), now, rows[i]))
    {
      SessionMeaning(owner, f, now, rows[i]);
    }
  }

  /** Users that are not deleted: by tenant, by status, by a search in three columns. */
  method ListUsers(filter: UserFilter, now: int, rows: seq<Row>) returns (r: Option<(seq<Row>, nat)>)
    requires AllRowsOf(UserQuery(filter), rows)
    ensures r == Listing(UserQuery(filter), Defaulted(filter.limit, 20), filter.offset, now, rows)
  {
    var args: seq<Value> := [];
    var argIdx: nat := 1;
    DeletedText();
    HoldsPlain([], args, argIdx, EMPTY, IsNull(DeletedAt));
    var conditions := ["deleted_at IS NULL"];
    ghost var b := Plain(EMPTY, IsNull(DeletedAt));
    StemTexts();
    conditions, args, argIdx :=
      AppendComparison(conditions, args, argIdx, "tenant_id = $", AsId(filter.tenantId), b, TenantId, Eq);
    b := OptCmp(b, TenantId, Eq, AsId(filter.tenantId));
    conditions, args, argIdx :=
      AppendComparison(conditions, args, argIdx, "status = $", AsNum(filter.status), b, Status, Eq);
    b := OptCmp(b, Status, Eq, AsNum(filter.status));
    SearchTexts();
    conditions, args, argIdx :=
      AppendSearch(conditions, args, argIdx, "(full_name ILIKE $", " OR email ILIKE $", " OR username ILIKE $",
                   filter.search, b, FullName, Email, Username);
    b := OptTest(b, AnyLike(FullName, Email, Username, NextParam(b)), AsPattern(filter.search));
    UsersEverywhere(filter, now, rows, b);
    var whereClause := "";
    if |conditions| > 0 {
      whereClause := "WHERE " + Join(conditions, " AND ");
    }
    var limit := filter.limit;
    if limit == 0 {
      limit := 20;
    }
    r := RunStatements(UserQuery(filter), whereClause, args, argIdx, limit, filter.offset, now, rows, b);
  }

  lemma UsersEverywhere(f: UserFilter, now: int, rows: seq<Row>, b: Build)
    requires AllRowsOf(UserQuery(f), rows) && b == UserBuild(f)
    ensures WellNumbered(b)
    ensures forall i | 0 <= i < |rows| :: Decides(b, now, rows[i], Matches(UserQuery(f), now, rows[i]))
  {
    UserMeaning(f, now, UserRow(0, 0, "", "", "", 0, None));
    forall i | 0 <= i < |rows|
      ensures Decides(b, now, rows[i], Matches(UserQuery(f), now, rows[i]))
    {
      UserMeaning(f, now, rows[i]);
    }
  }

  /** Tenants that are not deleted: by status, by a search in three columns of which one is nullable. */
  method ListTenants(filter: TenantFilter, now: int, rows: seq<Row>) returns (r: Option<(seq<Row>, nat)>)
    requires AllRowsOf(TenantQuery(filter), rows)
    ensures r == Listing(TenantQuery(filter), Defaulted(filter.limit, 20), filter.offset, now, rows)
  {
    var args: seq<Value> := [];
    var argIdx: nat := 1;
    DeletedText();
    HoldsPlain([], args, argIdx, EMPTY, IsNull(DeletedAt));
    var conditions := ["deleted_at IS NULL"];
    ghost var b := Plain(EMPTY, IsNull(DeletedAt));
    StemTexts();
    conditions, args, argIdx :=
      AppendComparison(conditions, args, argIdx, "status = $", AsNum(filter.status), b, Status, Eq);
    b := OptCmp(b, Status, Eq, AsNum(filter.status));
    SearchTexts();
    conditions, args, argIdx :=
      AppendSearch(conditions, args, argIdx, "(code ILIKE $", " OR name ILIKE $", " OR domain ILIKE $",
                   filter.search, b, Code, Name, Domain);
    b := OptTest(b, AnyLike(Code, Name, Domain, NextParam(b)), AsPattern(filter.search));
    TenantsEverywhere(filter, now, rows, b);
    assert |conditions| > 0;
    var whereClause := "WHERE " + Join(conditions, " AND ");
    var limit := filter.limit;
    if limit == 0 {
      limit := 20;
    }
    r := RunStatements(TenantQuery(filter), whereClause, args, argIdx, limit, filter.offset, now, rows, b);
  }

  lemma TenantsEverywhere(f: TenantFilter, now: int, rows: seq<Row>, b: Build)
    requires AllRowsOf(TenantQuery(f), rows) && b == TenantBuild(f)
    ensures WellNumbered(b) && |Texts(b.es)| > 0
    ensures forall i | 0 <= i < |rows| :: Decides(b, now, rows[i], Matches(TenantQuery(f), now, rows[i]))
  {
    TenantMeaning(f, now, TenantRow(0, "", "", None, 0, None));
    forall i | 0 <= i < |rows|
      ensures Decides(b, now, rows[i], Matches(TenantQuery(f), now, rows[i]))
    {
      TenantMeaning(f, now, rows[i]);
    }
  }

  // ---------- Consequences ----------

  /** Reading every page of a listing yields each matching row once, in order: what the pages of
      TotalPages pages add up to is the whole answer. */
  lemma ListingPagesPartition(q: Query, limit: nat, now: int, rows: seq<Row>)
    requires AllRowsOf(q, rows) && limit > 0
    ensures forall k: nat :: Listing(q, limit, k * limit, now, rows) ==
              Some((Slice(Matching(q, now, rows), limit, k * limit), |Matching(q, now, rows)|))
    ensures Pages(Matching(q, now, rows), limit, TotalPages(limit, |Matching(q, now, rows)|)) == Matching(q, now, rows)
  {
    PagesPartition(Matching(q, now, rows), limit);
    forall k: nat
      ensures Listing(q, limit, k * limit, now, rows) ==
              Some((Slice(Matching(q, now, rows), limit, k * limit), |Matching(q, now, rows)|))
    {
      NonNegative(k, limit);
    }
  }

  lemma NonNegative(a: nat, b: nat)
    ensures a * b >= 0
  {
  }

  function EndedFilter(f: SessionFilter, ended: Option<bool>): SessionFilter { f.(isRevoked := ended) }

  lemma EndedOrRunning(owner: nat, f: SessionFilter, now: int, row: Row)
    requires row.SessionRow?
    ensures var ended := Matches(SessionQuery(owner, EndedFilter(f, Some(true))), now, row);
            var running := Matches(SessionQuery(owner, EndedFilter(f, Some(false))), now, row);
            !(ended && running) &&
            (Matches(SessionQuery(owner, EndedFilter(f, None)), now, row) <==> ended || running)
  {
  }

  lemma MatchingFirst(q: Query, now: int, rows: seq<Row>)
    requires rows != [] && AllRowsOf(q, rows)
    ensures multiset(Matching(q, now, rows)) ==
            Once(rows[0], Matches(q, now, rows[0])) + multiset(Matching(q, now, rows[1..]))
  {
  }

  function Once(row: Row, taken: bool): multiset<Row>
  {
    if taken then multiset{row} else multiset{}
  }

  lemma OnceSplits(row: Row, all: bool, one: bool, other: bool,
                   restAll: multiset<Row>, restOne: multiset<Row>, restOther: multiset<Row>)
    requires !(one && other) && (all <==> one || other) && restAll == restOne + restOther
    ensures Once(row, all) + restAll == (Once(row, one) + restOne) + (Once(row, other) + restOther)
  {
  }

  lemma {:induction false} SplitByQueries(all: Query, one: Query, other: Query, now: int, rows: seq<Row>)
    requires AllRowsOf(all, rows) && AllRowsOf(one, rows) && AllRowsOf(other, rows)
    requires forall i | 0 <= i < |rows| ::
               !(Matches(one, now, rows[i]) && Matches(other, now, rows[i])) &&
               (Matches(all, now, rows[i]) <==> Matches(one, now, rows[i]) || Matches(other, now, rows[i]))
    ensures multiset(Matching(all, now, rows)) ==
            multiset(Matching(one, now, rows)) + multiset(Matching(other, now, rows))
  {
    if rows != [] {
      MatchingFirst(all, now, rows);
      MatchingFirst(one, now, rows);
      MatchingFirst(other, now, rows);
      SplitByQueries(all, one, other, now, rows[1..]);
      OnceSplits(rows[0], Matches(all, now, rows[0]), Matches(one, now, rows[0]), Matches(other, now, rows[0]),
                 multiset(Matching(all, now, rows[1..])), multiset(Matching(one, now, rows[1..])),
                 multiset(Matching(other, now, rows[1..])));
    }
  }

  /** Asking for the ended and for the running sessions splits a user's sessions in two: no session
      is in both lists and none is lost. */
  lemma EndedAndRunningAreComplements(owner: nat, f: SessionFilter, now: int, rows: seq<Row>)
    requires AllRowsOf(SessionQuery(owner, f), rows)
    ensures var all := SessionQuery(owner, EndedFilter(f, None));
            var ended := SessionQuery(owner, EndedFilter(f, Some(true)));
            var running := SessionQuery(owner, EndedFilter(f, Some(false)));
            AllRowsOf(all, rows) && AllRowsOf(ended, rows) && AllRowsOf(running, rows) &&
            multiset(Matching(all, now, rows)) ==
              multiset(Matching(ended, now, rows)) + multiset(Matching(running, now, rows)) &&
            (forall row | row in Matching(ended, now, rows) :: row !in Matching(running, now, rows))
  {
    var all := SessionQuery(owner, EndedFilter(f, None));
    var ended := SessionQuery(owner, EndedFilter(f, Some(true)));
    var running := SessionQuery(owner, EndedFilter(f, Some(false)));
    assert AllRowsOf(all, rows) && AllRowsOf(ended, rows) && AllRowsOf(running, rows) by {
      assert forall i | 0 <= i < |rows| :: RowOf(SessionQuery(owner, f), rows[i]);
    }
    forall i | 0 <= i < |rows|
      ensures !(Matches(ended, now, rows[i]) && Matches(running, now, rows[i]))
      ensures Matches(all, now, rows[i]) <==> Matches(ended, now, rows[i]) || Matches(running, now, rows[i])
    {
      EndedOrRunning(owner, f, now, rows[i]);
    }
    SplitByQueries(all, ended, running, now, rows);
    MatchingMatches(ended, now, rows);
    MatchingMatches(running, now, rows);
    forall row | row in Matching(ended, now, rows)
      ensures row !in Matching(running, now, rows)
    {
      EndedOrRunning(owner, f, now, row);
    }
  }

  lemma {:induction false} MatchingMatches(q: Query, now: int, rows: seq<Row>)
    requires AllRowsOf(q, rows)
    ensures forall row | row in Matching(q, now, rows) :: RowOf(q, row) && Matches(q, now, row)
    ensures forall row | row in Matching(q, now, rows) :: row in rows
  {
    if rows != [] {
      MatchingMatches(q, now, rows[1..]);
    }
  }
}
