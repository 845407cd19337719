/** The recursive-descent parser of parse.c.  Every rule reads the token
    sequence from index `i`, threads the table of locals explicitly (the
    source keeps it in a global), and returns the node, the index of the
    first token it did not consume and the new table — or the diagnostic of
    `error_tok`/`skip`.  Termination: tokens left first, grammar level next. */
module Parser {
  import opened Wrappers
  import opened Lexer
  import opened Ast

  datatype Parsed<T> = Parsed(node: T, next: nat, locals: seq<string>)

  /** `find_var`: the position of the entry spelled `name`, searching from the
      most recent declaration. */
  function FindVar(locals: seq<string>, name: string): (r: Option<nat>)
    ensures r.None? <==> name !in locals
    ensures r.Some? ==> r.value < |locals| && locals[r.value] == name
    ensures r.Some? ==> forall j :: 0 <= j < r.value ==> locals[j] != name
  {
    if |locals| == 0 then None
    else if locals[0] == name then Some(0)
    else
      match FindVar(locals[1..], name)
      case None => None
      case Some(j) => Some(j + 1)
  }

  /** `find_var` followed, when it fails, by `new_lvar`, which prepends. */
  function Declare(locals: seq<string>, name: string): (r: seq<string>)
    ensures name in r
    ensures name in locals ==> r == locals
    ensures name !in locals ==> r == [name] + locals
  {
    if FindVar(locals, name).Some? then locals else [name] + locals
  }

  /** `after` is `before` with zero or more names prepended: every entry is
      kept, and a table without duplicates stays without duplicates. */
  predicate Extends(before: seq<string>, after: seq<string>) {
    && |before| <= |after|
    && after[|after| - |before| ..] == before
    && Names(before) <= Names(after)
    && (Distinct(before) ==> Distinct(after))
  }

  lemma DeclareExtends(locals: seq<string>, name: string)
    ensures Extends(locals, Declare(locals, name))
  {
    var r := Declare(locals, name);
    if name !in locals {
      assert r[1..] == locals;
    }
  }

  lemma ExtendsTrans(a: seq<string>, b: seq<string>, c: seq<string>)
    requires Extends(a, b) && Extends(b, c)
    ensures Extends(a, c)
  {
    assert c[|c| - |a| ..] == c[|c| - |b| ..][|b| - |a| ..];
  }

  lemma ExtendsRefl(a: seq<string>)
    ensures Extends(a, a)
  {
    assert a[0..] == a;
  }

  /** The names a table holds. */
  function Names(locals: seq<string>): set<string> {
    set n | n in locals
  }

  /** The table after the parser has met the variables of `e` in textual
      order: the reference the round trip compares the parser's table with. */
  function DeclareAll(locals: seq<string>, e: Expr): seq<string>
    decreases e
  {
    match e
    case Num(_) => locals
    case Var(n) => Declare(locals, n)
    case Binary(_, l, r) => DeclareAll(DeclareAll(locals, l), r)
    case Assign(l, r) => DeclareAll(DeclareAll(locals, l), r)
  }

  function DeclareStmt(locals: seq<string>, s: Stmt): seq<string>
    decreases s
  {
    match s
    case ExprStmt(e) => DeclareAll(locals, e)
    case Return(e) => DeclareAll(locals, e)
    case Block(body) => DeclareList(locals, body)
  }

  function DeclareList(locals: seq<string>, ss: seq<Stmt>): seq<string>
    decreases ss
  {
    if |ss| == 0 then locals else DeclareList(DeclareStmt(locals, ss[0]), ss[1..])
  }

  /** Declaring the variables of an expression keeps every entry, adds
      exactly the new names in front, and leaves every variable declared. */
  lemma {:induction false} DeclareAllExtends(locals: seq<string>, e: Expr)
    ensures Extends(locals, DeclareAll(locals, e))
    ensures ExprVars(e) <= Names(DeclareAll(locals, e))
    decreases e
  {
    match e
    case Num(_) => ExtendsRefl(locals);
    case Var(n) => DeclareExtends(locals, n);
    case Binary(_, l, r) =>
      var a := DeclareAll(locals, l);
      DeclareAllExtends(locals, l);
      DeclareAllExtends(a, r);
      ExtendsTrans(locals, a, DeclareAll(a, r));
    case Assign(l, r) =>
      var a := DeclareAll(locals, l);
      DeclareAllExtends(locals, l);
      DeclareAllExtends(a, r);
      ExtendsTrans(locals, a, DeclareAll(a, r));
  }

  lemma {:induction false} DeclareStmtExtends(locals: seq<string>, s: Stmt)
    ensures Extends(locals, DeclareStmt(locals, s))
    ensures StmtVars(s) <= Names(DeclareStmt(locals, s))
    decreases s
  {
    match s
    case ExprStmt(e) => DeclareAllExtends(locals, e);
    case Return(e) => DeclareAllExtends(locals, e);
    case Block(body) => DeclareListExtends(locals, body);
  }

  lemma {:induction false} DeclareListExtends(locals: seq<string>, ss: seq<Stmt>)
    ensures Extends(locals, DeclareList(locals, ss))
    ensures ListVars(ss) <= Names(DeclareList(locals, ss))
    decreases ss
  {
    if |ss| == 0 {
      ExtendsRefl(locals);
    } else {
      var a := DeclareStmt(locals, ss[0]);
      DeclareStmtExtends(locals, ss[0]);
      DeclareListExtends(a, ss[1..]);
      ExtendsTrans(locals, a, DeclareList(a, ss[1..]));
    }
  }

  /** primary = "(" expr ")" | ident | num */
  function ParsePrimary(src: string, toks: seq<Token>, i: nat, locals: seq<string>): (r: Result<Parsed<Expr>>)
    requires IsStream(toks) && i < |toks|
    ensures r.Ok? ==> i < r.value.next < |toks|
    decreases |toks| - i, 0
  {
    if Equal(src, toks[i], "(") then
      var e :- ParseExpr(src, toks, i + 1, locals);
      var j :- Skip(src, toks, e.next, ")");
      Ok(Parsed(e.node, j, e.locals))
    else if toks[i].kind == Ident then
      var name := Text(src, toks[i]);
      Ok(Parsed(Var(name), i + 1, Declare(locals, name)))
    else if toks[i].kind == Number then
      Ok(Parsed(Num(toks[i].val), i + 1, locals))
    else
      Err(At(toks[i].loc, "expected an expression"))
  }

  /** unary = ("+" | "-") unary | primary */
  function ParseUnary(src: string, toks: seq<Token>, i: nat, locals: seq<string>): (r: Result<Parsed<Expr>>)
    requires IsStream(toks) && i < |toks|
    ensures r.Ok? ==> i < r.value.next < |toks|
    decreases |toks| - i, 1
  {
    if Equal(src, toks[i], "+") then
      ParseUnary(src, toks, i + 1, locals)
    else if Equal(src, toks[i], "-") then
      var x :- ParseUnary(src, toks, i + 1, locals);
      Ok(Parsed(Binary(Sub, Num(0), x.node), x.next, x.locals))
    else
      ParsePrimary(src, toks, i, locals)
  }

  /** The loop of `mul`: `acc` is the tree built so far. */
  function ParseMulRest(src: string, toks: seq<Token>, i: nat, locals: seq<string>, acc: Expr): (r: Result<Parsed<Expr>>)
    requires IsStream(toks) && i < |toks|
    ensures r.Ok? ==> i <= r.value.next < |toks|
    decreases |toks| - i, 2
  {
    if Equal(src, toks[i], "*") || Equal(src, toks[i], "/") then
      var op := if Equal(src, toks[i], "*") then Mul else Div;
      var rhs :- ParseUnary(src, toks, i + 1, locals);
      var node := Binary(op, acc, rhs.node);
      var r := ParseMulRest(src, toks, rhs.next, rhs.locals, node);
      r
    else
      Ok(Parsed(acc, i, locals))
  }

  /** mul = unary ("*" unary | "/" unary)* */
  function ParseMul(src: string, toks: seq<Token>, i: nat, locals: seq<string>): (r: Result<Parsed<Expr>>)
    requires IsStream(toks) && i < |toks|
    ensures r.Ok? ==> i < r.value.next < |toks|
    decreases |toks| - i, 3
  {
    var lhs :- ParseUnary(src, toks, i, locals);
    var r := ParseMulRest(src, toks, lhs.next, lhs.locals, lhs.node);
    r
  }

  /** The loop of `add`. */
  function ParseAddRest(src: string, toks: seq<Token>, i: nat, locals: seq<string>, acc: Expr): (r: Result<Parsed<Expr>>)
    requires IsStream(toks) && i < |toks|
    ensures r.Ok? ==> i <= r.value.next < |toks|
    decreases |toks| - i, 4
  {
    if Equal(src, toks[i], "+") || Equal(src, toks[i], "-") then
      var op := if Equal(src, toks[i], "+") then Add else Sub;
      var rhs :- ParseMul(src, toks, i + 1, locals);
      var node := Binary(op, acc, rhs.node);
      var r := ParseAddRest(src, toks, rhs.next, rhs.locals, node);
      r
    else
      Ok(Parsed(acc, i, locals))
  }

  /** add = mul ("+" mul | "-" mul)* */
  function ParseAdd(src: string, toks: seq<Token>, i: nat, locals: seq<string>): (r: Result<Parsed<Expr>>)
    requires IsStream(toks) && i < |toks|
    ensures r.Ok? ==> i < r.value.next < |toks|
    decreases |toks| - i, 5
  {
    var lhs :- ParseMul(src, toks, i, locals);
    var r := ParseAddRest(src, toks, lhs.next, lhs.locals, lhs.node);
    r
  }

  /** The node one relational operator builds; `>` and `>=` swap the operands. */
  function Relation(src: string, t: Token, acc: Expr, rhs: Expr): (r: Expr)
    ensures ExprVars(r) == ExprVars(acc) + ExprVars(rhs)
  {
    if Equal(src, t, "<") then Binary(Lt, acc, rhs)
    else if Equal(src, t, "<=") then Binary(Le, acc, rhs)
    else if Equal(src, t, ">") then Binary(Lt, rhs, acc)
    else Binary(Le, rhs, acc)
  }

  predicate IsRelational(src: string, t: Token) {
    Equal(src, t, "<") || Equal(src, t, "<=") || Equal(src, t, ">") || Equal(src, t, ">=")
  }

  /** The loop of `relational`. */
  function ParseRelationalRest(src: string, toks: seq<Token>, i: nat, locals: seq<string>, acc: Expr): (r: Result<Parsed<Expr>>)
    requires IsStream(toks) && i < |toks|
    ensures r.Ok? ==> i <= r.value.next < |toks|
    decreases |toks| - i, 6
  {
    if IsRelational(src, toks[i]) then
      var rhs :- ParseAdd(src, toks, i + 1, locals);
      var node := Relation(src, toks[i], acc, rhs.node);
      var r := ParseRelationalRest(src, toks, rhs.next, rhs.locals, node);
      r
    else
      Ok(Parsed(acc, i, locals))
  }

  /** relational = add ("<" add | "<=" add | ">" add | ">=" add)* */
  function ParseRelational(src: string, toks: seq<Token>, i: nat, locals: seq<string>): (r: Result<Parsed<Expr>>)
    requires IsStream(toks) && i < |toks|
    ensures r.Ok? ==> i < r.value.next < |toks|
    decreases |toks| - i, 7
  {
    var lhs :- ParseAdd(src, toks, i, locals);
    var r := ParseRelationalRest(src, toks, lhs.next, lhs.locals, lhs.node);
    r
  }

  /** The loop of `equality`. */
  function ParseEqualityRest(src: string, toks: seq<Token>, i: nat, locals: seq<string>, acc: Expr): (r: Result<Parsed<Expr>>)
    requires IsStream(toks) && i < |toks|
    ensures r.Ok? ==> i <= r.value.next < |toks|
    decreases |toks| - i, 8
  {
    if Equal(src, toks[i], "==") || Equal(src, toks[i], "!=") then
      var op := if Equal(src, toks[i], "==") then Eq else Ne;
      var rhs :- ParseRelational(src, toks, i + 1, locals);
      var node := Binary(op, acc, rhs.node);
      var r := ParseEqualityRest(src, toks, rhs.next, rhs.locals, node);
      r
    else
      Ok(Parsed(acc, i, locals))
  }

  /** equality = relational ("==" relational | "!=" relational)* */
  function ParseEquality(src: string, toks: seq<Token>, i: nat, locals: seq<string>): (r: Result<Parsed<Expr>>)
    requires IsStream(toks) && i < |toks|
    ensures r.Ok? ==> i < r.value.next < |toks|
    decreases |toks| - i, 9
  {
    var lhs :- ParseRelational(src, toks, i, locals);
    var r := ParseEqualityRest(src, toks, lhs.next, lhs.locals, lhs.node);
    r
  }

  /** assign = equality ("=" assign)? — right-associative, and any equality
      expression may stand on the left. */
  function ParseAssign(src: string, toks: seq<Token>, i: nat, locals: seq<string>): (r: Result<Parsed<Expr>>)
    requires IsStream(toks) && i < |toks|
    ensures r.Ok? ==> i < r.value.next < |toks|
    decreases |toks| - i, 10
  {
    var lhs :- ParseEquality(src, toks, i, locals);
    if Equal(src, toks[lhs.next], "=") then
      var rhs :- ParseAssign(src, toks, lhs.next + 1, lhs.locals);
      var node := Assign(lhs.node, rhs.node);
      Ok(Parsed(node, rhs.next, rhs.locals))
    else
      Ok(lhs)
  }

  /** expr = assign */
  function ParseExpr(src: string, toks: seq<Token>, i: nat, locals: seq<string>): (r: Result<Parsed<Expr>>)
    requires IsStream(toks) && i < |toks|
    ensures r.Ok? ==> i < r.value.next < |toks|
    decreases |toks| - i, 11
  {
    ParseAssign(src, toks, i, locals)
  }

  /** expr-stmt = expr ";" */
  function ParseExprStmt(src: string, toks: seq<Token>, i: nat, locals: seq<string>): (r: Result<Parsed<Stmt>>)
    requires IsStream(toks) && i < |toks|
    ensures r.Ok? ==> i < r.value.next < |toks|
    decreases |toks| - i, 12
  {
    var e :- ParseExpr(src, toks, i, locals);
    var j :- Skip(src, toks, e.next, ";");
    Ok(Parsed(ExprStmt(e.node), j, e.locals))
  }

  /** stmt = "return" expr ";" | "{" compound-stmt | expr-stmt */
  function ParseStmt(src: string, toks: seq<Token>, i: nat, locals: seq<string>): (r: Result<Parsed<Stmt>>)
    requires IsStream(toks) && i < |toks|
    ensures r.Ok? ==> i < r.value.next < |toks|
    decreases |toks| - i, 13
  {
    if Equal(src, toks[i], "return") then
      var e :- ParseExpr(src, toks, i + 1, locals);
      var j :- Skip(src, toks, e.next, ";");
      Ok(Parsed(Return(e.node), j, e.locals))
    else if Equal(src, toks[i], "{") then
      ParseCompoundStmt(src, toks, i + 1, locals)
    else
      ParseExprStmt(src, toks, i, locals)
  }

  /** The loop of `compound_stmt`: statements up to the closing brace, which
      is consumed. */
  function ParseStmtList(src: string, toks: seq<Token>, i: nat, locals: seq<string>): (r: Result<Parsed<seq<Stmt>>>)
    requires IsStream(toks) && i < |toks|
    ensures r.Ok? ==> i < r.value.next < |toks|
    decreases |toks| - i, 14
  {
    if Equal(src, toks[i], "}") then
      Ok(Parsed([], i + 1, locals))
    else
      var s :- ParseStmt(src, toks, i, locals);
      var rest :- ParseStmtList(src, toks, s.next, s.locals);
      Ok(Parsed([s.node] + rest.node, rest.next, rest.locals))
  }

  /** compound-stmt = stmt* "}" */
  function ParseCompoundStmt(src: string, toks: seq<Token>, i: nat, locals: seq<string>): (r: Result<Parsed<Stmt>>)
    requires IsStream(toks) && i < |toks|
    ensures r.Ok? ==> i < r.value.next < |toks|
    ensures r.Ok? ==> r.value.node.Block?
    decreases |toks| - i, 15
  {
    var b :- ParseStmtList(src, toks, i, locals);
    Ok(Parsed(Block(b.node), b.next, b.locals))
  }

  /** `parse`: a program is `{` compound-stmt; `parse` does not check that
      the end token follows the block.  The table starts empty. */
  function Parse(src: string, toks: seq<Token>): (r: Result<Program>)
    requires IsStream(toks)
    ensures r.Ok? ==> Equal(src, toks[0], "{") && r.value.body.Block?
    ensures !Equal(src, toks[0], "{") ==> r == Err(At(toks[0].loc, "expected '{'"))
  {
    var j :- Skip(src, toks, 0, "{");
    var b :- ParseCompoundStmt(src, toks, j, []);
    Ok(Program(b.node, b.locals))
  }
}
