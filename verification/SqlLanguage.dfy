/** The fragment of SQL the repositories generate, from characters to meaning: a lexer, a parser in
    which AND binds tighter than OR, a printer, and evaluation in three-valued logic. */
module SqlLanguage {
  import opened Wrappers
  import opened Text

  datatype Value = Null | Id(id: nat) | Num(num: int) | Str(str: string) | Time(time: int)

  /** The columns the builders filter on. */
  datatype Column =
    | TenantId | UserId | Action | Resource | CreatedAt | Code | Name | Status | DeviceType
    | ExpiresAt | RevokedAt | FullName | Email | Username | Domain | DeletedAt

  datatype Op = Eq | Ge | Le | Gt | ILike

  datatype Operand = Param(n: nat) | Now

  datatype Expr =
    | Cmp(col: Column, op: Op, operand: Operand)
    | IsNull(col: Column)
    | NotNull(col: Column)
    | And(left: Expr, right: Expr)
    | Or(left: Expr, right: Expr)

  // ---------- Lexer ----------

  datatype Token = Open | Close | Atom(text: string)

  predicate IsDelimiter(c: char) { c == ' ' || c == '(' || c == ')' }

  /** Length of the run of ordinary characters `s` starts with. */
  function RunLength(s: string): (n: nat)
    ensures n <= |s| && forall i | 0 <= i < n :: !IsDelimiter(s[i])
    ensures n < |s| ==> IsDelimiter(s[n])
  {
    if s == "" || IsDelimiter(s[0]) then 0 else 1 + RunLength(s[1..])
  }

  function Lex(s: string): seq<Token>
  {
    if s == "" then []
    else if s[0] == ' ' then Lex(s[1..])
    else if s[0] == '(' then [Open] + Lex(s[1..])
    else if s[0] == ')' then [Close] + Lex(s[1..])
    else [Atom(s[..RunLength(s)])] + Lex(s[RunLength(s)..])
  }

  predicate IsAtom(s: string)
  {
    s != "" && forall i | 0 <= i < |s| :: !IsDelimiter(s[i])
  }

  lemma {:induction false} RunOfAtom(s: string, rest: string)
    requires (forall i | 0 <= i < |s| :: !IsDelimiter(s[i])) && (rest == "" || IsDelimiter(rest[0]))
    ensures RunLength(s + rest) == |s|
  {
    if s == "" {
      assert s + rest == rest;
    } else {
      RunOfAtom(s[1..], rest);
      assert (s + rest)[1..] == s[1..] + rest;
    }
  }

  lemma LexAtom(s: string, rest: string)
    requires IsAtom(s) && (rest == "" || IsDelimiter(rest[0]))
    ensures Lex(s + rest) == [Atom(s)] + Lex(rest)
  {
    RunOfAtom(s, rest);
    assert (s + rest)[0] == s[0];
    assert (s + rest)[..|s|] == s && (s + rest)[|s|..] == rest;
  }

  lemma LexSpace(rest: string)
    ensures Lex(" " + rest) == Lex(rest)
  {
    assert (" " + rest)[1..] == rest;
  }

  lemma LexOpen(rest: string)
    ensures Lex("(" + rest) == [Open] + Lex(rest)
  {
    assert ("(" + rest)[1..] == rest;
  }

  lemma LexClose(rest: string)
    ensures Lex(")" + rest) == [Close] + Lex(rest)
  {
    assert (")" + rest)[1..] == rest;
  }

  /** A word followed by a space and more text. */
  lemma LexWord(word: string, rest: string)
    requires IsAtom(word)
    ensures Lex(word + (" " + rest)) == [Atom(word)] + Lex(rest)
  {
    LexAtom(word, " " + rest);
    LexSpace(rest);
  }

  // ---------- Printer, as text and as tokens ----------

  function ColumnText(col: Column): string
  {
    match col
    case TenantId => "tenant_id"
    case UserId => "user_id"
    case Action => "action"
    case Resource => "resource"
    case CreatedAt => "created_at"
    case Code => "code"
    case Name => "name"
    case Status => "status"
    case DeviceType => "device_type"
    case ExpiresAt => "expires_at"
    case RevokedAt => "revoked_at"
    case FullName => "full_name"
    case Email => "email"
    case Username => "username"
    case Domain => "domain"
    case DeletedAt => "deleted_at"
  }

  function OpText(op: Op): string
  {
    match op
    case Eq => "="
    case Ge => ">="
    case Le => "<="
    case Gt => ">"
    case ILike => "ILIKE"
  }

  function OperandText(operand: Operand): string
  {
    match operand
    case Param(n) => "$" + Itoa(n)
    case Now => "NOW()"
  }

  /** Two texts with a word between them, separated by single spaces. */
  function Infix(left: string, word: string, right: string): string
  {
    left + (" " + (word + (" " + right)))
  }

  function Paren(inner: string): string { "(" + (inner + ")") }

  function LeafText(e: Expr): string
    requires !e.And? && !e.Or?
  {
    match e
    case Cmp(col, op, operand) => Infix(ColumnText(col), OpText(op), OperandText(operand))
    case IsNull(col) => Infix(ColumnText(col), "IS", "NULL")
    case NotNull(col) => Infix(ColumnText(col), "IS", "NOT NULL")
  }

  function TextPrim(e: Expr): string
    decreases e, 0
  {
    match e
    case And(left, right) => Paren(Infix(TextPrim(left), "AND", TextAnd(right)))
    case Or(left, right) => Paren(Infix(TextAnd(left), "OR", TextOr(right)))
    case _ => LeafText(e)
  }

  function TextAnd(e: Expr): string
    decreases e, 1
  {
    match e
    case And(left, right) => Infix(TextPrim(left), "AND", TextAnd(right))
    case _ => TextPrim(e)
  }

  function TextOr(e: Expr): string
    decreases e, 2
  {
    match e
    case Or(left, right) => Infix(TextAnd(left), "OR", TextOr(right))
    case _ => TextAnd(e)
  }

  function OperandTokens(operand: Operand): seq<Token>
  {
    match operand
    case Param(n) => [Atom("$" + Itoa(n))]
    case Now => [Atom("NOW"), Open, Close]
  }

  function InfixTokens(left: seq<Token>, word: string, right: seq<Token>): seq<Token>
  {
    left + ([Atom(word)] + right)
  }

  function ParenTokens(inner: seq<Token>): seq<Token> { [Open] + (inner + [Close]) }

  function LeafTokens(e: Expr): seq<Token>
    requires !e.And? && !e.Or?
  {
    match e
    case Cmp(col, op, operand) => [Atom(ColumnText(col)), Atom(OpText(op))] + OperandTokens(operand)
    case IsNull(col) => [Atom(ColumnText(col)), Atom("IS"), Atom("NULL")]
    case NotNull(col) => [Atom(ColumnText(col)), Atom("IS"), Atom("NOT"), Atom("NULL")]
  }

  function TokensPrim(e: Expr): (ts: seq<Token>)
    decreases e, 0
  {
    match e
    case And(left, right) => ParenTokens(InfixTokens(TokensPrim(left), "AND", TokensAnd(right)))
    case Or(left, right) => ParenTokens(InfixTokens(TokensAnd(left), "OR", TokensOr(right)))
    case _ => LeafTokens(e)
  }

  function TokensAnd(e: Expr): (ts: seq<Token>)
    decreases e, 1
  {
    match e
    case And(left, right) => InfixTokens(TokensPrim(left), "AND", TokensAnd(right))
    case _ => TokensPrim(e)
  }

  function TokensOr(e: Expr): (ts: seq<Token>)
    decreases e, 2
  {
    match e
    case Or(left, right) => InfixTokens(TokensAnd(left), "OR", TokensOr(right))
    case _ => TokensAnd(e)
  }

  lemma ColumnTextIsAtom(col: Column)
    ensures IsAtom(ColumnText(col))
  {
  }

  predicate EndsWord(rest: string) { rest == "" || IsDelimiter(rest[0]) }

  /** A word, and then text that lexes on its own. */
  lemma LexInfixWords(first: string, second: string, third: string, rest: string)
    requires IsAtom(first) && IsAtom(second)
    ensures Lex(Infix(first, second, third) + rest) == [Atom(first), Atom(second)] + Lex(third + rest)
  {
    var tail := second + (" " + (third + rest));
    assert Infix(first, second, third) + rest == first + (" " + tail);
    LexWord(first, tail);
    LexWord(second, third + rest);
  }

  lemma LexOperand(operand: Operand, rest: string)
    requires EndsWord(rest)
    ensures Lex(OperandText(operand) + rest) == OperandTokens(operand) + Lex(rest)
  {
    match operand
    case Param(n) =>
      LexAtom("$" + Itoa(n), rest);
    case Now =>
      assert "NOW()" == "NOW" + ("(" + ")");
      assert "NOW()" + rest == "NOW" + ("(" + (")" + rest));
      LexAtom("NOW", "(" + (")" + rest));
      LexOpen(")" + rest);
      LexClose(rest);
  }

  lemma OpTextIsAtom(op: Op)
    ensures IsAtom(OpText(op))
  {
  }

  lemma LexNull(rest: string)
    requires EndsWord(rest)
    ensures Lex("NULL" + rest) == [Atom("NULL")] + Lex(rest)
    ensures Lex("NOT NULL" + rest) == [Atom("NOT")] + ([Atom("NULL")] + Lex(rest))
  {
    NullWords();
    LexAtom("NULL", rest);
    LexPair("NOT", " ", "NULL", rest);
  }

  lemma NullWords()
    ensures IsAtom("NOT") && IsAtom("NULL") && "NOT NULL" == "NOT" + (" " + "NULL")
  {
  }

  lemma LexPair(first: string, space: string, second: string, rest: string)
    requires IsAtom(first) && IsAtom(second) && space == " " && EndsWord(rest)
    ensures Lex(first + (space + second) + rest) == [Atom(first)] + ([Atom(second)] + Lex(rest))
  {
    PairShape(first, space, second, rest);
    LexWord(first, second + rest);
    LexAtom(second, rest);
  }

  lemma PairShape(first: string, space: string, second: string, rest: string)
    ensures first + (space + second) + rest == first + (space + (second + rest))
  {
  }

  lemma LexComparison(col: Column, op: Op, operand: Operand, rest: string)
    requires EndsWord(rest)
    ensures Lex(LeafText(Cmp(col, op, operand)) + rest) == LeafTokens(Cmp(col, op, operand)) + Lex(rest)
  {
    ColumnTextIsAtom(col);
    OpTextIsAtom(op);
    LexInfixWords(ColumnText(col), OpText(op), OperandText(operand), rest);
    LexOperand(operand, rest);
    Regrouped([Atom(ColumnText(col)), Atom(OpText(op))], OperandTokens(operand), Lex(rest));
  }

  lemma Regrouped(a: seq<Token>, b: seq<Token>, c: seq<Token>)
    ensures a + (b + c) == (a + b) + c
  {
  }

  lemma LexIsNull(col: Column, rest: string)
    requires EndsWord(rest)
    ensures Lex(LeafText(IsNull(col)) + rest) == LeafTokens(IsNull(col)) + Lex(rest)
  {
    LexNull(rest);
    ColumnTextIsAtom(col);
    KeywordsAreAtoms();
    LexInfixWords(ColumnText(col), "IS", "NULL", rest);
    Regrouped([Atom(ColumnText(col)), Atom("IS")], [Atom("NULL")], Lex(rest));
    assert [Atom(ColumnText(col)), Atom("IS")] + [Atom("NULL")] == LeafTokens(IsNull(col));
  }

  lemma LexNotNull(col: Column, rest: string)
    requires EndsWord(rest)
    ensures Lex(LeafText(NotNull(col)) + rest) == LeafTokens(NotNull(col)) + Lex(rest)
  {
    LexNull(rest);
    ColumnTextIsAtom(col);
    KeywordsAreAtoms();
    LexInfixWords(ColumnText(col), "IS", "NOT NULL", rest);
    Regrouped([Atom("NOT")], [Atom("NULL")], Lex(rest));
    Regrouped([Atom(ColumnText(col)), Atom("IS")], [Atom("NOT")] + [Atom("NULL")], Lex(rest));
    assert [Atom(ColumnText(col)), Atom("IS")] + ([Atom("NOT")] + [Atom("NULL")]) == LeafTokens(NotNull(col));
  }

  lemma LexLeaf(e: Expr, rest: string)
    requires !e.And? && !e.Or? && EndsWord(rest)
    ensures Lex(LeafText(e) + rest) == LeafTokens(e) + Lex(rest)
  {
    match e
    case Cmp(col, op, operand) => LexComparison(col, op, operand, rest);
    case IsNull(col) => LexIsNull(col, rest);
    case NotNull(col) => LexNotNull(col, rest);
  }

  /** What follows the left operand of an infix text. */
  function Tail(word: string, right: string, rest: string): string
  {
    " " + (word + (" " + (right + rest)))
  }

  lemma InfixShape(left: string, space: string, word: string, right: string, rest: string)
    ensures (left + (space + (word + (space + right)))) + rest == left + (space + (word + (space + (right + rest))))
  {
  }

  lemma TokenShape(left: seq<Token>, word: seq<Token>, right: seq<Token>, rest: seq<Token>)
    ensures left + (word + (right + rest)) == (left + (word + right)) + rest
  {
  }

  /** Lexing `left`, a keyword and `right`, given how each side lexes. */
  lemma LexInfix(left: string, word: string, right: string, rest: string,
                 leftTokens: seq<Token>, rightTokens: seq<Token>)
    requires IsAtom(word)
    requires Lex(left + Tail(word, right, rest)) == leftTokens + Lex(Tail(word, right, rest))
    requires Lex(right + rest) == rightTokens + Lex(rest)
    ensures Lex(Infix(left, word, right) + rest) == InfixTokens(leftTokens, word, rightTokens) + Lex(rest)
  {
    InfixShape(left, " ", word, right, rest);
    TokenShape(leftTokens, [Atom(word)], rightTokens, Lex(rest));
    LexSpace(word + (" " + (right + rest)));
    LexWord(word, right + rest);
  }

  lemma LexParen(inner: string, rest: string, tokens: seq<Token>)
    requires Lex(inner + (")" + rest)) == tokens + Lex(")" + rest)
    ensures Lex(Paren(inner) + rest) == ParenTokens(tokens) + Lex(rest)
  {
    assert Paren(inner) + rest == "(" + (inner + (")" + rest));
    LexOpen(inner + (")" + rest));
    LexClose(rest);
  }

  lemma KeywordsAreAtoms()
    ensures IsAtom("AND") && IsAtom("OR") && IsAtom("IS")
  {
  }

  lemma {:induction false} LexPrim(e: Expr, rest: string)
    requires EndsWord(rest)
    ensures Lex(TextPrim(e) + rest) == TokensPrim(e) + Lex(rest)
    decreases e, 0
  {
    var after := ")" + rest;
    KeywordsAreAtoms();
    match e
    case And(left, right) =>
      LexPrim(left, Tail("AND", TextAnd(right), after));
      LexAnd(right, after);
      LexInfix(TextPrim(left), "AND", TextAnd(right), after, TokensPrim(left), TokensAnd(right));
      LexParen(Infix(TextPrim(left), "AND", TextAnd(right)), rest,
               InfixTokens(TokensPrim(left), "AND", TokensAnd(right)));
    case Or(left, right) =>
      LexAnd(left, Tail("OR", TextOr(right), after));
      LexOr(right, after);
      LexInfix(TextAnd(left), "OR", TextOr(right), after, TokensAnd(left), TokensOr(right));
      LexParen(Infix(TextAnd(left), "OR", TextOr(right)), rest,
               InfixTokens(TokensAnd(left), "OR", TokensOr(right)));
    case _ =>
      LexLeaf(e, rest);
  }

  lemma {:induction false} LexAnd(e: Expr, rest: string)
    requires EndsWord(rest)
    ensures Lex(TextAnd(e) + rest) == TokensAnd(e) + Lex(rest)
    decreases e, 1
  {
    match e
    case And(left, right) =>
      KeywordsAreAtoms();
      LexPrim(left, Tail("AND", TextAnd(right), rest));
      LexAnd(right, rest);
      LexInfix(TextPrim(left), "AND", TextAnd(right), rest, TokensPrim(left), TokensAnd(right));
    case _ =>
      LexPrim(e, rest);
  }

  lemma {:induction false} LexOr(e: Expr, rest: string)
    requires EndsWord(rest)
    ensures Lex(TextOr(e) + rest) == TokensOr(e) + Lex(rest)
    decreases e, 2
  {
    match e
    case Or(left, right) =>
      KeywordsAreAtoms();
      LexAnd(left, Tail("OR", TextOr(right), rest));
      LexOr(right, rest);
      LexInfix(TextAnd(left), "OR", TextOr(right), rest, TokensAnd(left), TokensOr(right));
    case _ =>
      LexAnd(e, rest);
  }

  // ---------- Parser ----------

  datatype Parsed<T> = NoParse | Read(value: T, rest: seq<Token>)

  function ParseOp(t: Token): Option<Op>
  {
    if t == Atom("=") then Some(Eq)
    else if t == Atom(">=") then Some(Ge)
    else if t == Atom("<=") then Some(Le)
    else if t == Atom(">") then Some(Gt)
    else if t == Atom("ILIKE") then Some(ILike)
    else None
  }

  function ParseOperand(ts: seq<Token>): (p: Parsed<Operand>)
    ensures p.Read? ==> |p.rest| < |ts|
  {
    if ts == [] || !ts[0].Atom? then NoParse
    else if ts[0].text == "NOW" then
      if |ts| >= 3 && ts[1] == Open && ts[2] == Close then Read(Now, ts[3..]) else NoParse
    else if ts[0].text != "" && ts[0].text[0] == '$' then
      match Atoi(ts[0].text[1..])
      case Some(n) => Read(Param(n), ts[1..])
      case None => NoParse
    else NoParse
  }

  function ParseColumn(t: Token): Option<Column>
  {
    if !t.Atom? then None
    else if t.text == "tenant_id" then Some(TenantId)
    else if t.text == "user_id" then Some(UserId)
    else if t.text == "action" then Some(Action)
    else if t.text == "resource" then Some(Resource)
    else if t.text == "created_at" then Some(CreatedAt)
    else if t.text == "code" then Some(Code)
    else if t.text == "name" then Some(Name)
    else if t.text == "status" then Some(Status)
    else if t.text == "device_type" then Some(DeviceType)
    else if t.text == "expires_at" then Some(ExpiresAt)
    else if t.text == "revoked_at" then Some(RevokedAt)
    else if t.text == "full_name" then Some(FullName)
    else if t.text == "email" then Some(Email)
    else if t.text == "username" then Some(Username)
    else if t.text == "domain" then Some(Domain)
    else if t.text == "deleted_at" then Some(DeletedAt)
    else None
  }

  function ParseLeaf(ts: seq<Token>): (p: Parsed<Expr>)
    ensures p.Read? ==> |p.rest| < |ts|
  {
    if |ts| < 3 then NoParse
    else
      match ParseColumn(ts[0])
      case None => NoParse
      case Some(col) =>
        if ts[1] == Atom("IS") then
          if ts[2] == Atom("NULL") then Read(IsNull(col), ts[3..])
          else if |ts| >= 4 && ts[2] == Atom("NOT") && ts[3] == Atom("NULL") then Read(NotNull(col), ts[4..])
          else NoParse
        else
          match ParseOp(ts[1])
          case None => NoParse
          case Some(op) =>
            match ParseOperand(ts[2..])
            case NoParse => NoParse
            case Read(operand, rest) => Read(Cmp(col, op, operand), rest)
  }

  function ParsePrim(ts: seq<Token>): (p: Parsed<Expr>)
    ensures p.Read? ==> |p.rest| < |ts|
    decreases |ts|, 0
  {
    if ts != [] && ts[0] == Open then
      match ParseOr(ts[1..])
      case NoParse => NoParse
      case Read(e, rest) => if rest != [] && rest[0] == Close then Read(e, rest[1..]) else NoParse
    else ParseLeaf(ts)
  }

  function ParseAnd(ts: seq<Token>): (p: Parsed<Expr>)
    ensures p.Read? ==> |p.rest| < |ts|
    decreases |ts|, 1
  {
    match ParsePrim(ts)
    case NoParse => NoParse
    case Read(left, rest) =>
      if rest != [] && rest[0] == Atom("AND") then
        match ParseAnd(rest[1..])
        case NoParse => NoParse
        case Read(right, rest') => Read(And(left, right), rest')
      else Read(left, rest)
  }

  function ParseOr(ts: seq<Token>): (p: Parsed<Expr>)
    ensures p.Read? ==> |p.rest| < |ts|
    decreases |ts|, 2
  {
    match ParseAnd(ts)
    case NoParse => NoParse
    case Read(left, rest) =>
      if rest != [] && rest[0] == Atom("OR") then
        match ParseOr(rest[1..])
        case NoParse => NoParse
        case Read(right, rest') => Read(Or(left, right), rest')
      else Read(left, rest)
  }

  lemma ParseOfOperand(operand: Operand, rest: seq<Token>)
    ensures ParseOperand(OperandTokens(operand) + rest) == Read(operand, rest)
  {
    var ts := OperandTokens(operand) + rest;
    match operand
    case Param(n) =>
      AtoiOfItoa(n);
      assert ts[0].text[1..] == Itoa(n);
      assert ts[0].text != "NOW" by { assert ts[0].text[0] == '$'; }
      assert ts[1..] == rest;
    case Now =>
      assert ts[3..] == rest;
  }

  lemma ParseOfOp(op: Op)
    ensures ParseOp(Atom(OpText(op))) == Some(op) && OpText(op) != "IS"
  {
  }

  lemma ParseOfColumn(col: Column)
    ensures ParseColumn(Atom(ColumnText(col))) == Some(col)
  {
  }

  lemma ParseOfLeaf(e: Expr, rest: seq<Token>)
    requires !e.And? && !e.Or?
    ensures ParsePrim(LeafTokens(e) + rest) == Read(e, rest)
  {
    ParseOfColumn(e.col);
    match e
    case Cmp(col, op, operand) => ParseOfComparison(col, op, operand, rest);
    case _ => ParseOfNullTest(e, rest);
  }

  lemma ParseOfComparison(col: Column, op: Op, operand: Operand, rest: seq<Token>)
    requires ParseColumn(Atom(ColumnText(col))) == Some(col)
    ensures ParsePrim(LeafTokens(Cmp(col, op, operand)) + rest) == Read(Cmp(col, op, operand), rest)
  {
    var ts := LeafTokens(Cmp(col, op, operand)) + rest;
    ParseOfOp(op);
    ParseOfOperand(operand, rest);
    assert ts[0] == Atom(ColumnText(col)) && ts[1] == Atom(OpText(op));
    assert ts[2..] == OperandTokens(operand) + rest;
  }

  lemma ParseOfNullTest(e: Expr, rest: seq<Token>)
    requires (e.IsNull? || e.NotNull?) && ParseColumn(Atom(ColumnText(e.col))) == Some(e.col)
    ensures ParsePrim(LeafTokens(e) + rest) == Read(e, rest)
  {
    var ts := LeafTokens(e) + rest;
    assert ts[0] == Atom(ColumnText(e.col)) && ts[1] == Atom("IS");
    if e.IsNull? {
      assert ts[2] == Atom("NULL") && ts[3..] == rest;
    } else {
      assert ts[2] == Atom("NOT") && ts[3] == Atom("NULL") && ts[4..] == rest;
    }
  }

  predicate Follows(rest: seq<Token>, word: string) { rest != [] && rest[0] == Atom(word) }

  lemma {:induction false} ParseOfPrim(e: Expr, rest: seq<Token>)
    ensures ParsePrim(TokensPrim(e) + rest) == Read(e, rest)
    decreases e, 0
  {
    match e
    case And(left, right) =>
      var after := [Close] + rest;
      ParseOfPrim(left, [Atom("AND")] + (TokensAnd(right) + after));
      ParseOfAnd(right, after);
      ReadAnd(left, right, TokensPrim(left), TokensAnd(right), after);
      NoOrFollows(e, InfixTokens(TokensPrim(left), "AND", TokensAnd(right)) + after, after);
      ReadParen(e, InfixTokens(TokensPrim(left), "AND", TokensAnd(right)), rest);
    case Or(left, right) =>
      var after := [Close] + rest;
      ParseOfAnd(left, [Atom("OR")] + (TokensOr(right) + after));
      ParseOfOr(right, after);
      ReadOr(left, right, TokensAnd(left), TokensOr(right), after);
      ReadParen(e, InfixTokens(TokensAnd(left), "OR", TokensOr(right)), rest);
    case _ =>
      ParseOfLeaf(e, rest);
  }

  /** Parsing `a AND b`, given how each side parses. */
  lemma ReadAnd(left: Expr, right: Expr, a: seq<Token>, b: seq<Token>, after: seq<Token>)
    requires ParsePrim(a + ([Atom("AND")] + (b + after))) == Read(left, [Atom("AND")] + (b + after))
    requires ParseAnd(b + after) == Read(right, after)
    ensures ParseAnd(InfixTokens(a, "AND", b) + after) == Read(And(left, right), after)
  {
    TokenShape(a, [Atom("AND")], b, after);
    assert ([Atom("AND")] + (b + after))[1..] == b + after;
  }

  /** Parsing `a OR b`, given how each side parses. */
  lemma ReadOr(left: Expr, right: Expr, a: seq<Token>, b: seq<Token>, after: seq<Token>)
    requires ParseAnd(a + ([Atom("OR")] + (b + after))) == Read(left, [Atom("OR")] + (b + after))
    requires ParseOr(b + after) == Read(right, after)
    ensures ParseOr(InfixTokens(a, "OR", b) + after) == Read(Or(left, right), after)
  {
    TokenShape(a, [Atom("OR")], b, after);
    assert ([Atom("OR")] + (b + after))[1..] == b + after;
  }

  lemma NoOrFollows(e: Expr, ts: seq<Token>, rest: seq<Token>)
    requires ParseAnd(ts) == Read(e, rest) && !Follows(rest, "OR")
    ensures ParseOr(ts) == Read(e, rest)
  {
  }

  /** Parsing a parenthesized condition, given how the inside parses. */
  lemma ReadParen(e: Expr, inner: seq<Token>, rest: seq<Token>)
    requires ParseOr(inner + ([Close] + rest)) == Read(e, [Close] + rest)
    ensures ParsePrim(ParenTokens(inner) + rest) == Read(e, rest)
  {
    var ts := ParenTokens(inner) + rest;
    assert ts[1..] == inner + ([Close] + rest);
    assert ([Close] + rest)[1..] == rest;
  }

  lemma {:induction false} ParseOfAnd(e: Expr, rest: seq<Token>)
    requires !Follows(rest, "AND")
    ensures ParseAnd(TokensAnd(e) + rest) == Read(e, rest)
    decreases e, 1
  {
    match e
    case And(left, right) =>
      ParseOfPrim(left, [Atom("AND")] + (TokensAnd(right) + rest));
      ParseOfAnd(right, rest);
      ReadAnd(left, right, TokensPrim(left), TokensAnd(right), rest);
    case _ =>
      ParseOfPrim(e, rest);
  }

  lemma {:induction false} ParseOfOr(e: Expr, rest: seq<Token>)
    requires !Follows(rest, "AND") && !Follows(rest, "OR")
    ensures ParseOr(TokensOr(e) + rest) == Read(e, rest)
    decreases e, 2
  {
    match e
    case Or(left, right) =>
      ParseOfAnd(left, [Atom("OR")] + (TokensOr(right) + rest));
      ParseOfOr(right, rest);
      ReadOr(left, right, TokensAnd(left), TokensOr(right), rest);
    case _ =>
      ParseOfAnd(e, rest);
  }

  /** Printing any condition and reading the characters back gives the condition. */
  lemma TextRoundTrip(e: Expr)
    ensures ParseOr(Lex(TextOr(e))) == Read(e, [])
  {
    LexOr(e, "");
    assert TextOr(e) + "" == TextOr(e) && TokensOr(e) + Lex("") == TokensOr(e);
    ParseOfOr(e, []);
    assert TokensOr(e) + [] == TokensOr(e);
  }
}
