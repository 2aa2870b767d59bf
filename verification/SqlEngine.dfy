/** Running the generated statements: rows and their columns, three-valued evaluation, and the
    COUNT and LIMIT/OFFSET queries. A query whose text does not parse, whose placeholders are not
    exactly the arguments supplied, or that compares values of different types has no result. */
module SqlEngine {
  import opened Wrappers
  import opened Text
  import opened SqlLanguage
  import opened Paging
  import Like

  // ---------- Rows ----------

  datatype Row =
    | AuditRow(id: nat, tenantId: Option<nat>, userId: Option<nat>, action: string,
               resource: Option<string>, createdAt: int)
    | RoleRow(id: nat, tenantId: Option<nat>, code: string, name: string, status: int)
    | SessionRow(id: nat, owner: nat, deviceType: Option<string>, expiresAt: int, revokedAt: Option<int>)
    | UserRow(id: nat, tenant: nat, fullName: string, email: string, username: string,
              status: int, deletedAt: Option<int>)
    | TenantRow(id: nat, code: string, name: string, domain: Option<string>, status: int,
                deletedAt: Option<int>)

  function IdOrNull(v: Option<nat>): Value { if v.Some? then Id(v.value) else Null }

  function StrOrNull(v: Option<string>): Value { if v.Some? then Str(v.value) else Null }

  function TimeOrNull(v: Option<int>): Value { if v.Some? then Time(v.value) else Null }

  /** The value of a column, if the row's table has that column. */
  function Cell(row: Row, col: Column): Option<Value>
  {
    match row
    case AuditRow(id, tenantId, userId, action, resource, createdAt) =>
      (match col
       case TenantId => Some(IdOrNull(tenantId))
       case UserId => Some(IdOrNull(userId))
       case Action => Some(Str(action))
       case Resource => Some(StrOrNull(resource))
       case CreatedAt => Some(Time(createdAt))
       case _ => None)
    case RoleRow(id, tenantId, code, name, status) =>
      (match col
       case TenantId => Some(IdOrNull(tenantId))
       case Code => Some(Str(code))
       case Name => Some(Str(name))
       case Status => Some(Num(status))
       case _ => None)
    case SessionRow(id, owner, deviceType, expiresAt, revokedAt) =>
      (match col
       case UserId => Some(Id(owner))
       case DeviceType => Some(StrOrNull(deviceType))
       case ExpiresAt => Some(Time(expiresAt))
       case RevokedAt => Some(TimeOrNull(revokedAt))
       case _ => None)
    case UserRow(id, tenant, fullName, email, username, status, deletedAt) =>
      (match col
       case TenantId => Some(Id(tenant))
       case FullName => Some(Str(fullName))
       case Email => Some(Str(email))
       case Username => Some(Str(username))
       case Status => Some(Num(status))
       case DeletedAt => Some(TimeOrNull(deletedAt))
       case _ => None)
    case TenantRow(id, code, name, domain, status, deletedAt) =>
      (match col
       case Code => Some(Str(code))
       case Name => Some(Str(name))
       case Domain => Some(StrOrNull(domain))
       case Status => Some(Num(status))
       case DeletedAt => Some(TimeOrNull(deletedAt))
       case _ => None)
  }

  // ---------- Three-valued evaluation ----------

  datatype Tri = Yes | No | Unknown | Invalid

  function Bool(b: bool): Tri { if b then Yes else No }

  function And3(a: Tri, b: Tri): Tri
  {
    if a.Invalid? || b.Invalid? then Invalid
    else if a.No? || b.No? then No
    else if a.Unknown? || b.Unknown? then Unknown
    else Yes
  }

  function Or3(a: Tri, b: Tri): Tri
  {
    if a.Invalid? || b.Invalid? then Invalid
    else if a.Yes? || b.Yes? then Yes
    else if a.Unknown? || b.Unknown? then Unknown
    else No
  }

  function Compare(op: Op, v: Value, w: Value): Tri
  {
    if v.Null? || w.Null? then Unknown
    else if op.Eq? then
      if (v.Id? && w.Id?) || (v.Num? && w.Num?) || (v.Str? && w.Str?) || (v.Time? && w.Time?) then Bool(v == w)
      else Invalid
    else if op.ILike? then
      if v.Str? && w.Str? then Bool(Like.ILike(v.str, w.str)) else Invalid
    else if v.Time? && w.Time? then
      Bool(if op.Ge? then v.time >= w.time else if op.Le? then v.time <= w.time else v.time > w.time)
    else Invalid
  }

  function ValueOf(operand: Operand, args: seq<Value>, now: int): Option<Value>
  {
    match operand
    case Now => Some(Time(now))
    case Param(n) => if 1 <= n <= |args| then Some(args[n - 1]) else None
  }

  function Eval(e: Expr, args: seq<Value>, now: int, row: Row): Tri
  {
    match e
    case Cmp(col, op, operand) =>
      var cell, value := Cell(row, col), ValueOf(operand, args, now);
      if cell.None? || value.None? then Invalid else Compare(op, cell.value, value.value)
    case IsNull(col) =>
      var cell := Cell(row, col);
      if cell.None? then Invalid else Bool(cell.value.Null?)
    case NotNull(col) =>
      var cell := Cell(row, col);
      if cell.None? then Invalid else Bool(!cell.value.Null?)
    case And(left, right) => And3(Eval(left, args, now, row), Eval(right, args, now, row))
    case Or(left, right) => Or3(Eval(left, args, now, row), Eval(right, args, now, row))
  }

  function Placeholders(e: Expr): set<nat>
  {
    match e
    case Cmp(_, _, operand) => if operand.Param? then {operand.n} else {}
    case IsNull(_) => {}
    case NotNull(_) => {}
    case And(left, right) => Placeholders(left) + Placeholders(right)
    case Or(left, right) => Placeholders(left) + Placeholders(right)
  }

  // ---------- Statements ----------

  datatype Clause = BadSyntax | NoFilter | Filter(e: Expr)

  function ParseWhere(text: string): Clause
  {
    var ts := Lex(text);
    if ts == [] then NoFilter
    else if ts[0] != Atom("WHERE") then BadSyntax
    else match ParseOr(ts[1..])
      case NoParse => BadSyntax
      case Read(e, rest) => if rest == [] then Filter(e) else BadSyntax
  }

  function Condition(clause: Clause, args: seq<Value>, now: int, row: Row): Tri
  {
    match clause
    case BadSyntax => Invalid
    case NoFilter => Yes
    case Filter(e) => Eval(e, args, now, row)
  }

  function ClausePlaceholders(clause: Clause): set<nat>
  {
    if clause.Filter? then Placeholders(clause.e) else {}
  }

  /** The set {1, ..., n}. */
  function Numbered(n: nat): set<nat>
  {
    if n == 0 then {} else Numbered(n - 1) + {n}
  }

  /** The rows the clause keeps, in table order; none at all if it cannot be evaluated. */
  function Selected(clause: Clause, args: seq<Value>, now: int, rows: seq<Row>): Option<seq<Row>>
  {
    if rows == [] then Some([])
    else
      var verdict, rest := Condition(clause, args, now, rows[0]), Selected(clause, args, now, rows[1..]);
      if verdict.Invalid? || rest.None? then None
      else Some((if verdict.Yes? then [rows[0]] else []) + rest.value)
  }

  /** `SELECT COUNT(*) FROM t <where>` with these arguments. */
  function Count(whereText: string, args: seq<Value>, now: int, rows: seq<Row>): Option<nat>
  {
    var clause := ParseWhere(whereText);
    if clause.BadSyntax? || ClausePlaceholders(clause) != Numbered(|args|) then None
    else match Selected(clause, args, now, rows)
      case None => None
      case Some(kept) => Some(|kept|)
  }

  /** `LIMIT $a OFFSET $b`: the two placeholder numbers. */
  function ParseTail(text: string): Option<(nat, nat)>
  {
    var ts := Lex(text);
    if |ts| == 4 && ts[0] == Atom("LIMIT") && ts[2] == Atom("OFFSET") then
      match (ParseOperand(ts[1..2]), ParseOperand(ts[3..4]))
      case (Read(Param(a), _), Read(Param(b), _)) => Some((a, b))
      case _ => None
    else None
  }

  /** A query is refused when it is prepared, or it delivers rows and may then break off. */
  datatype Reply = Refused | Delivered(rows: seq<Row>, brokenOff: bool)

  /** `SELECT ... FROM t <where> ORDER BY ... <tail>` over rows already in that order. A negative limit
      or offset is noticed only when the first row is fetched. */
  function Page(whereText: string, tailText: string, args: seq<Value>, now: int, rows: seq<Row>): Reply
  {
    var clause, tail := ParseWhere(whereText), ParseTail(tailText);
    if clause.BadSyntax? || tail.None? then Refused
    else
      var (a, b) := tail.value;
      if ClausePlaceholders(clause) + {a, b} != Numbered(|args|) then Refused
      else
        var limit, offset := ValueOf(Param(a), args, now), ValueOf(Param(b), args, now);
        match (Selected(clause, args, now, rows), limit, offset)
        case (Some(kept), Some(Num(l)), Some(Num(o))) =>
          if l < 0 || o < 0 then Delivered([], true) else Delivered(Slice(kept, l, o), false)
        case _ => Refused
  }

  // ---------- What a builder has accumulated ----------

  /** The conditions as expressions, and the arguments their placeholders refer to. */
  datatype Build = Build(es: seq<Expr>, args: seq<Value>)

  const EMPTY := Build([], [])

  function Plain(b: Build, e: Expr): Build { b.(es := b.es + [e]) }

  function With(b: Build, e: Expr, v: Value): Build { Build(b.es + [e], b.args + [v]) }

  function Texts(es: seq<Expr>): seq<string>
  {
    if es == [] then [] else Texts(es[..|es| - 1]) + [TextAnd(es[|es| - 1])]
  }

  lemma TextsSnoc(es: seq<Expr>, e: Expr)
    ensures Texts(es + [e]) == Texts(es) + [TextAnd(e)]
  {
    assert (es + [e])[..|es|] == es;
  }

  function AllPlaceholders(es: seq<Expr>): set<nat>
  {
    if es == [] then {} else AllPlaceholders(es[..|es| - 1]) + Placeholders(es[|es| - 1])
  }

  /** Placeholders are numbered 1, 2, ... and each argument is used. */
  predicate WellNumbered(b: Build)
  {
    AllPlaceholders(b.es) == Numbered(|b.args|)
  }

  lemma WellNumberedPlain(b: Build, e: Expr)
    requires WellNumbered(b) && Placeholders(e) == {}
    ensures WellNumbered(Plain(b, e))
  {
    assert (b.es + [e])[..|b.es|] == b.es;
  }

  lemma WellNumberedWith(b: Build, e: Expr, v: Value)
    requires WellNumbered(b) && Placeholders(e) == {|b.args| + 1}
    ensures WellNumbered(With(b, e, v))
  {
    assert (b.es + [e])[..|b.es|] == b.es;
  }

  // ---------- Joining conditions with AND ----------

  /** Conditions that are conjunctions themselves merge into the surrounding one. */
  function AndJoin(a: Expr, b: Expr): Expr
  {
    match a
    case And(left, right) => And(left, AndJoin(right, b))
    case _ => And(a, b)
  }

  function AndAll(es: seq<Expr>): Expr
    requires es != []
  {
    if |es| == 1 then es[0] else AndJoin(es[0], AndAll(es[1..]))
  }

  lemma InfixAssoc(a: string, b: string, c: string)
    ensures Infix(Infix(a, "AND", b), "AND", c) == Infix(a, "AND", Infix(b, "AND", c))
  {
    var s := " " + ("AND" + " ");
    forall x: string, y: string
      ensures Infix(x, "AND", y) == x + s + y
    {
    }
    assert (a + s + b) + s + c == a + s + (b + s + c);
  }

  lemma {:induction false} TextOfAndJoin(a: Expr, b: Expr)
    ensures TextAnd(AndJoin(a, b)) == Infix(TextAnd(a), "AND", TextAnd(b))
  {
    match a
    case And(left, right) =>
      TextOfAndJoin(right, b);
      InfixAssoc(TextPrim(left), TextAnd(right), TextAnd(b));
    case _ =>
  }

  lemma {:induction false} EvalAndJoin(a: Expr, b: Expr, args: seq<Value>, now: int, row: Row)
    ensures Eval(AndJoin(a, b), args, now, row) == And3(Eval(a, args, now, row), Eval(b, args, now, row))
    ensures Placeholders(AndJoin(a, b)) == Placeholders(a) + Placeholders(b)
  {
    match a
    case And(left, right) => EvalAndJoin(right, b, args, now, row);
    case _ =>
  }

  lemma {:induction false} TextsOfMore(first: Expr, es: seq<Expr>)
    ensures Texts([first] + es) == [TextAnd(first)] + Texts(es)
  {
    if es == [] {
      assert [first] + es == [] + [first];
      TextsSnoc([], first);
    } else {
      var init, last := es[..|es| - 1], es[|es| - 1];
      TextsOfMore(first, init);
      assert [first] + es == ([first] + init) + [last];
      TextsSnoc([first] + init, last);
    }
  }

  lemma TextsCons(es: seq<Expr>)
    requires es != []
    ensures Texts(es) == [TextAnd(es[0])] + Texts(es[1..])
  {
    assert es == [es[0]] + es[1..];
    TextsOfMore(es[0], es[1..]);
  }

  /** `strings.Join(conditions, " AND ")` is the text of the conjunction. */
  lemma {:induction false} JoinIsConjunction(es: seq<Expr>)
    requires es != []
    ensures Join(Texts(es), " AND ") == TextAnd(AndAll(es))
    decreases |es|
  {
    TextsCons(es);
    if |es| > 1 {
      JoinIsConjunction(es[1..]);
      TextOfAndJoin(es[0], AndAll(es[1..]));
      TextsCons(es[1..]);
      assert Texts(es)[1..] == Texts(es[1..]);
      assert " AND " == " " + ("AND" + " ");
      var a, b := TextAnd(es[0]), Join(Texts(es[1..]), " AND ");
      assert a + " AND " + b == a + (" " + ("AND" + (" " + b)));
    } else {
      assert Texts(es[1..]) == [];
    }
  }

  lemma {:induction false} PlaceholdersCons(es: seq<Expr>)
    requires es != []
    ensures AllPlaceholders(es) == Placeholders(es[0]) + AllPlaceholders(es[1..])
  {
    if |es| > 1 {
      var init := es[..|es| - 1];
      PlaceholdersCons(init);
      assert es[1..][..|es| - 2] == init[1..];
    } else {
      assert AllPlaceholders(es[..0]) == {};
    }
  }

  /** The conjunction of a list of conditions. */
  function Verdict(es: seq<Expr>, args: seq<Value>, now: int, row: Row): Tri
  {
    if es == [] then Yes
    else And3(Verdict(es[..|es| - 1], args, now, row), Eval(es[|es| - 1], args, now, row))
  }

  lemma {:induction false} VerdictCons(es: seq<Expr>, args: seq<Value>, now: int, row: Row)
    requires es != []
    ensures Verdict(es, args, now, row) == And3(Eval(es[0], args, now, row), Verdict(es[1..], args, now, row))
  {
    if |es| > 1 {
      var init := es[..|es| - 1];
      VerdictCons(init, args, now, row);
      assert es[1..][..|es| - 2] == init[1..];
    } else {
      assert Verdict(es[..0], args, now, row) == Yes;
    }
  }

  lemma {:induction false} AndAllMeans(es: seq<Expr>, args: seq<Value>, now: int, row: Row)
    requires es != []
    ensures Placeholders(AndAll(es)) == AllPlaceholders(es)
    ensures Eval(AndAll(es), args, now, row) == Verdict(es, args, now, row)
    decreases |es|
  {
    PlaceholdersCons(es);
    VerdictCons(es, args, now, row);
    if |es| > 1 {
      AndAllMeans(es[1..], args, now, row);
      EvalAndJoin(es[0], AndAll(es[1..]), args, now, row);
    } else {
      assert AllPlaceholders(es[1..]) == {};
    }
  }

  // ---------- The generated WHERE text means the conjunction ----------

  function WhereText(conditions: seq<string>): string
  {
    if |conditions| > 0 then "WHERE " + Join(conditions, " AND ") else ""
  }

  lemma ParseOfJoined(e: Expr)
    ensures ParseWhere("WHERE " + TextAnd(e)) == Filter(e)
  {
    WhereWord();
    LexAnd(e, "");
    assert TextAnd(e) + "" == TextAnd(e) && TokensAnd(e) + Lex("") == TokensAnd(e);
    LexAfterWord("WHERE", " ", TextAnd(e));
    ParseOfAnd(e, []);
    assert TokensAnd(e) + [] == TokensAnd(e);
    assert ([Atom("WHERE")] + TokensAnd(e))[1..] == TokensAnd(e);
  }

  lemma WhereWord()
    ensures IsAtom("WHERE") && "WHERE " == "WHERE" + " "
  {
  }

  lemma LexAfterWord(word: string, space: string, rest: string)
    requires IsAtom(word) && space == " "
    ensures Lex(word + space + rest) == [Atom(word)] + Lex(rest)
  {
    assert word + space + rest == word + (space + rest);
    LexWord(word, rest);
  }

  lemma WhereParses(b: Build)
    requires WellNumbered(b)
    ensures ParseWhere(WhereText(Texts(b.es))) == if b.es == [] then NoFilter else Filter(AndAll(b.es))
    ensures ClausePlaceholders(ParseWhere(WhereText(Texts(b.es)))) == Numbered(|b.args|)
  {
    if b.es == [] {
      assert Lex("") == [];
    } else {
      TextsCons(b.es);
      JoinIsConjunction(b.es);
      AndAllMeans(b.es, [], 0, AuditRow(0, None, None, "", None, 0));
      ParseOfJoined(AndAll(b.es));
    }
  }

  /** On `row` the conditions can be evaluated, and all of them hold exactly when `want` does. */
  predicate Decides(b: Build, now: int, row: Row, want: bool)
  {
    var verdict := Verdict(b.es, b.args, now, row);
    verdict != Invalid && (verdict == Yes <==> want)
  }

  lemma {:induction false} EvalIgnoresLaterArgs(e: Expr, args: seq<Value>, more: seq<Value>, now: int, row: Row)
    requires Eval(e, args, now, row) != Invalid
    ensures Eval(e, args + more, now, row) == Eval(e, args, now, row)
  {
    match e
    case And(left, right) =>
      EvalIgnoresLaterArgs(left, args, more, now, row);
      EvalIgnoresLaterArgs(right, args, more, now, row);
    case Or(left, right) =>
      EvalIgnoresLaterArgs(left, args, more, now, row);
      EvalIgnoresLaterArgs(right, args, more, now, row);
    case _ =>
  }

  lemma {:induction false} VerdictIgnoresLaterArgs(es: seq<Expr>, args: seq<Value>, more: seq<Value>, now: int, row: Row)
    requires Verdict(es, args, now, row) != Invalid
    ensures Verdict(es, args + more, now, row) == Verdict(es, args, now, row)
  {
    if es != [] {
      VerdictIgnoresLaterArgs(es[..|es| - 1], args, more, now, row);
      EvalIgnoresLaterArgs(es[|es| - 1], args, more, now, row);
    }
  }

  lemma DecidesPlain(b: Build, e: Expr, now: int, row: Row, want: bool, test: bool)
    requires Decides(b, now, row, want)
    requires Eval(e, b.args, now, row) == Yes <==> test
    requires Eval(e, b.args, now, row) != Invalid
    ensures Decides(Plain(b, e), now, row, want && test)
  {
    assert (b.es + [e])[..|b.es|] == b.es;
  }

  lemma DecidesWith(b: Build, e: Expr, v: Value, now: int, row: Row, want: bool, test: bool)
    requires Decides(b, now, row, want)
    requires Eval(e, b.args + [v], now, row) == Yes <==> test
    requires Eval(e, b.args + [v], now, row) != Invalid
    ensures Decides(With(b, e, v), now, row, want && test)
  {
    VerdictIgnoresLaterArgs(b.es, b.args, [v], now, row);
    assert (b.es + [e])[..|b.es|] == b.es;
  }

  lemma ConditionDecides(b: Build, more: seq<Value>, now: int, row: Row, want: bool)
    requires WellNumbered(b) && Decides(b, now, row, want)
    ensures var verdict := Condition(ParseWhere(WhereText(Texts(b.es))), b.args + more, now, row);
            verdict != Invalid && (verdict == Yes <==> want)
  {
    WhereParses(b);
    if b.es != [] {
      AndAllMeans(b.es, b.args, now, row);
      EvalIgnoresLaterArgs(AndAll(b.es), b.args, more, now, row);
    }
  }

  // ---------- The LIMIT/OFFSET tail ----------

  function TailText(argIdx: nat): string
  {
    "LIMIT $" + Itoa(argIdx) + " OFFSET $" + Itoa(argIdx + 1)
  }

  lemma TailShape(limit: string, offset: string, dollar: string, a: string, b: string)
    ensures (limit + (" " + dollar)) + a + (" " + (offset + (" " + dollar))) + b
            == limit + (" " + ((dollar + a) + (" " + (offset + (" " + (dollar + b))))))
  {
  }

  lemma TailLexes(a: string, b: string)
    requires IsAtom("$" + a) && IsAtom("$" + b)
    ensures Lex("LIMIT $" + a + " OFFSET $" + b) == [Atom("LIMIT")] + [Atom("$" + a), Atom("OFFSET"), Atom("$" + b)]
  {
    assert "LIMIT $" == "LIMIT" + (" " + "$");
    assert " OFFSET $" == " " + ("OFFSET" + (" " + "$"));
    TailShape("LIMIT", "OFFSET", "$", a, b);
    LexTail("LIMIT", "$" + a, "OFFSET", "$" + b);
  }

  lemma LexLastWord(word: string)
    requires IsAtom(word)
    ensures Lex(word) == [Atom(word)]
  {
    LexAtom(word, "");
    assert word + "" == word;
  }

  lemma LexTwoWords(first: string, second: string)
    requires IsAtom(first) && IsAtom(second)
    ensures Lex(first + (" " + second)) == [Atom(first), Atom(second)]
  {
    LexLastWord(second);
    LexWord(first, second);
  }

  lemma LexThreeWords(first: string, second: string, third: string)
    requires IsAtom(first) && IsAtom(second) && IsAtom(third)
    ensures Lex(first + (" " + (second + (" " + third)))) == [Atom(first), Atom(second), Atom(third)]
  {
    LexTwoWords(second, third);
    LexWord(first, second + (" " + third));
  }

  lemma LexTail(limit: string, first: string, offset: string, second: string)
    requires IsAtom(limit) && IsAtom(first) && IsAtom(offset) && IsAtom(second)
    ensures Lex(limit + (" " + (first + (" " + (offset + (" " + second))))))
            == [Atom(limit)] + [Atom(first), Atom(offset), Atom(second)]
  {
    LexThreeWords(first, offset, second);
    LexWord(limit, first + (" " + (offset + (" " + second))));
  }

  lemma TailParses(argIdx: nat)
    ensures ParseTail(TailText(argIdx)) == Some((argIdx, argIdx + 1))
  {
    var a, b := Itoa(argIdx), Itoa(argIdx + 1);
    TailLexes(a, b);
    var ts := Lex(TailText(argIdx));
    ParseOfOperand(Param(argIdx), []);
    ParseOfOperand(Param(argIdx + 1), []);
    assert ts[1..2] == OperandTokens(Param(argIdx)) + [];
    assert ts[3..4] == OperandTokens(Param(argIdx + 1)) + [];
  }
}
