/** One-step equations of the parser: each states what a rule returns from
    the tokens it looks at and the results of the rules it calls. */
module ParserSteps {
  import opened Wrappers
  import opened Lexer
  import opened Ast
  import opened Parser

  /** A token that does not continue an operator loop of level 1 to `lvl`
      (for 5: not an operator at all, `=` included). */
  predicate StopsAt(src: string, t: Token, lvl: nat) {
    && (lvl >= 1 ==> !Equal(src, t, "*") && !Equal(src, t, "/"))
    && (lvl >= 2 ==> !Equal(src, t, "+") && !Equal(src, t, "-"))
    && (lvl >= 3 ==> !IsRelational(src, t))
    && (lvl >= 4 ==> !Equal(src, t, "==") && !Equal(src, t, "!="))
    && (lvl >= 5 ==> !Equal(src, t, "="))
  }

  lemma PrimaryParen(src: string, toks: seq<Token>, i: nat, locals: seq<string>, e: Expr, j: nat, names: seq<string>)
    requires IsStream(toks) && i + 1 < |toks| && Text(src, toks[i]) == "("
    requires ParseAssign(src, toks, i + 1, locals) == Ok(Parsed(e, j, names))
    requires j < |toks| && Text(src, toks[j]) == ")"
    ensures ParsePrimary(src, toks, i, locals) == Ok(Parsed(e, j + 1, names))
  {
    assert ParseExpr(src, toks, i + 1, locals) == Ok(Parsed(e, j, names));
    assert Skip(src, toks, j, ")") == Ok(j + 1);
  }

  lemma UnaryPrimary(src: string, toks: seq<Token>, i: nat, locals: seq<string>)
    requires IsStream(toks) && i < |toks|
    requires !Equal(src, toks[i], "+") && !Equal(src, toks[i], "-")
    ensures ParseUnary(src, toks, i, locals) == ParsePrimary(src, toks, i, locals)
  {
  }

  lemma MulStart(src: string, toks: seq<Token>, i: nat, locals: seq<string>, x: Expr, j: nat, names: seq<string>)
    requires IsStream(toks) && i < |toks|
    requires ParseUnary(src, toks, i, locals) == Ok(Parsed(x, j, names)) && j < |toks|
    ensures ParseMul(src, toks, i, locals) == ParseMulRest(src, toks, j, names, x)
  {
  }

  lemma MulStep(src: string, toks: seq<Token>, i: nat, locals: seq<string>, acc: Expr, op: BinOp, y: Expr, j: nat, names: seq<string>)
    requires IsStream(toks) && i + 1 < |toks|
    requires OpPrec(op) == 1 && Text(src, toks[i]) == OpText(op)
    requires ParseUnary(src, toks, i + 1, locals) == Ok(Parsed(y, j, names)) && j < |toks|
    ensures ParseMulRest(src, toks, i, locals, acc) == ParseMulRest(src, toks, j, names, Binary(op, acc, y))
  {
  }

  lemma MulStop(src: string, toks: seq<Token>, i: nat, locals: seq<string>, acc: Expr)
    requires IsStream(toks) && i < |toks|
    requires !Equal(src, toks[i], "*") && !Equal(src, toks[i], "/")
    ensures ParseMulRest(src, toks, i, locals, acc) == Ok(Parsed(acc, i, locals))
  {
  }

  lemma AddStart(src: string, toks: seq<Token>, i: nat, locals: seq<string>, x: Expr, j: nat, names: seq<string>)
    requires IsStream(toks) && i < |toks|
    requires ParseMul(src, toks, i, locals) == Ok(Parsed(x, j, names)) && j < |toks|
    ensures ParseAdd(src, toks, i, locals) == ParseAddRest(src, toks, j, names, x)
  {
  }

  lemma AddStep(src: string, toks: seq<Token>, i: nat, locals: seq<string>, acc: Expr, op: BinOp, y: Expr, j: nat, names: seq<string>)
    requires IsStream(toks) && i + 1 < |toks|
    requires OpPrec(op) == 2 && Text(src, toks[i]) == OpText(op)
    requires ParseMul(src, toks, i + 1, locals) == Ok(Parsed(y, j, names)) && j < |toks|
    ensures ParseAddRest(src, toks, i, locals, acc) == ParseAddRest(src, toks, j, names, Binary(op, acc, y))
  {
  }

  lemma AddStop(src: string, toks: seq<Token>, i: nat, locals: seq<string>, acc: Expr)
    requires IsStream(toks) && i < |toks|
    requires !Equal(src, toks[i], "+") && !Equal(src, toks[i], "-")
    ensures ParseAddRest(src, toks, i, locals, acc) == Ok(Parsed(acc, i, locals))
  {
  }

  lemma RelationalStart(src: string, toks: seq<Token>, i: nat, locals: seq<string>, x: Expr, j: nat, names: seq<string>)
    requires IsStream(toks) && i < |toks|
    requires ParseAdd(src, toks, i, locals) == Ok(Parsed(x, j, names)) && j < |toks|
    ensures ParseRelational(src, toks, i, locals) == ParseRelationalRest(src, toks, j, names, x)
  {
  }

  lemma RelationalStep(src: string, toks: seq<Token>, i: nat, locals: seq<string>, acc: Expr, y: Expr, j: nat, names: seq<string>)
    requires IsStream(toks) && i + 1 < |toks| && IsRelational(src, toks[i])
    requires ParseAdd(src, toks, i + 1, locals) == Ok(Parsed(y, j, names)) && j < |toks|
    ensures ParseRelationalRest(src, toks, i, locals, acc)
            == ParseRelationalRest(src, toks, j, names, Relation(src, toks[i], acc, y))
  {
  }

  /** A printed `<` or `<=` builds the node of its own operator. */
  lemma RelationOfLess(src: string, t: Token, op: BinOp, acc: Expr, y: Expr)
    requires OpPrec(op) == 3 && Text(src, t) == OpText(op)
    ensures IsRelational(src, t) && Relation(src, t, acc, y) == Binary(op, acc, y)
  {
  }

  /** A printed `>` or `>=` builds the node of the swapped operator. */
  lemma RelationOfGreater(src: string, t: Token, ge: bool, acc: Expr, y: Expr)
    requires Text(src, t) == (if ge then ">=" else ">")
    ensures IsRelational(src, t) && Relation(src, t, acc, y) == Binary(if ge then Le else Lt, y, acc)
  {
  }

  /** `>` and `>=` end the loops of `mul` and `add`. */
  lemma GreaterStops(src: string, t: Token, ge: bool)
    requires Text(src, t) == (if ge then ">=" else ">")
    ensures StopsAt(src, t, 2)
  {
  }

  lemma RelationalStop(src: string, toks: seq<Token>, i: nat, locals: seq<string>, acc: Expr)
    requires IsStream(toks) && i < |toks| && !IsRelational(src, toks[i])
    ensures ParseRelationalRest(src, toks, i, locals, acc) == Ok(Parsed(acc, i, locals))
  {
  }

  lemma EqualityStart(src: string, toks: seq<Token>, i: nat, locals: seq<string>, x: Expr, j: nat, names: seq<string>)
    requires IsStream(toks) && i < |toks|
    requires ParseRelational(src, toks, i, locals) == Ok(Parsed(x, j, names)) && j < |toks|
    ensures ParseEquality(src, toks, i, locals) == ParseEqualityRest(src, toks, j, names, x)
  {
  }

  lemma EqualityStep(src: string, toks: seq<Token>, i: nat, locals: seq<string>, acc: Expr, op: BinOp, y: Expr, j: nat, names: seq<string>)
    requires IsStream(toks) && i + 1 < |toks|
    requires OpPrec(op) == 4 && Text(src, toks[i]) == OpText(op)
    requires ParseRelational(src, toks, i + 1, locals) == Ok(Parsed(y, j, names)) && j < |toks|
    ensures ParseEqualityRest(src, toks, i, locals, acc) == ParseEqualityRest(src, toks, j, names, Binary(op, acc, y))
  {
  }

  lemma EqualityStop(src: string, toks: seq<Token>, i: nat, locals: seq<string>, acc: Expr)
    requires IsStream(toks) && i < |toks|
    requires !Equal(src, toks[i], "==") && !Equal(src, toks[i], "!=")
    ensures ParseEqualityRest(src, toks, i, locals, acc) == Ok(Parsed(acc, i, locals))
  {
  }

  lemma AssignStep(src: string, toks: seq<Token>, i: nat, locals: seq<string>, x: Expr, j: nat, names: seq<string>, y: Expr, k: nat, names2: seq<string>)
    requires IsStream(toks) && i < |toks|
    requires ParseEquality(src, toks, i, locals) == Ok(Parsed(x, j, names))
    requires j + 1 < |toks| && Equal(src, toks[j], "=")
    requires ParseAssign(src, toks, j + 1, names) == Ok(Parsed(y, k, names2))
    ensures ParseAssign(src, toks, i, locals) == Ok(Parsed(Assign(x, y), k, names2))
  {
    var lhs := Parsed(x, j, names);
    assert ParseEquality(src, toks, i, locals) == Ok(lhs);
    assert Equal(src, toks[lhs.next], "=");
    assert ParseAssign(src, toks, lhs.next + 1, lhs.locals) == Ok(Parsed(y, k, names2));
  }

  lemma AssignStop(src: string, toks: seq<Token>, i: nat, locals: seq<string>, x: Expr, j: nat, names: seq<string>)
    requires IsStream(toks) && i < |toks|
    requires ParseEquality(src, toks, i, locals) == Ok(Parsed(x, j, names))
    requires j < |toks| && !Equal(src, toks[j], "=")
    ensures ParseAssign(src, toks, i, locals) == Ok(Parsed(x, j, names))
  {
  }

  lemma ExprStmtStep(src: string, toks: seq<Token>, i: nat, locals: seq<string>, e: Expr, j: nat, names: seq<string>)
    requires IsStream(toks) && i < |toks|
    requires ParseAssign(src, toks, i, locals) == Ok(Parsed(e, j, names))
    requires j < |toks| && Text(src, toks[j]) == ";"
    ensures ParseExprStmt(src, toks, i, locals) == Ok(Parsed(ExprStmt(e), j + 1, names))
  {
    assert ParseExpr(src, toks, i, locals) == Ok(Parsed(e, j, names));
    assert Skip(src, toks, j, ";") == Ok(j + 1);
  }

  lemma StmtExpr(src: string, toks: seq<Token>, i: nat, locals: seq<string>)
    requires IsStream(toks) && i < |toks|
    requires !Equal(src, toks[i], "return") && !Equal(src, toks[i], "{")
    ensures ParseStmt(src, toks, i, locals) == ParseExprStmt(src, toks, i, locals)
  {
  }

  lemma StmtReturn(src: string, toks: seq<Token>, i: nat, locals: seq<string>, e: Expr, j: nat, names: seq<string>)
    requires IsStream(toks) && i + 1 < |toks| && Text(src, toks[i]) == "return"
    requires ParseAssign(src, toks, i + 1, locals) == Ok(Parsed(e, j, names))
    requires j < |toks| && Text(src, toks[j]) == ";"
    ensures ParseStmt(src, toks, i, locals) == Ok(Parsed(Return(e), j + 1, names))
  {
    assert ParseExpr(src, toks, i + 1, locals) == Ok(Parsed(e, j, names));
    assert Skip(src, toks, j, ";") == Ok(j + 1);
  }

  lemma StmtBlock(src: string, toks: seq<Token>, i: nat, locals: seq<string>)
    requires IsStream(toks) && i + 1 < |toks| && Text(src, toks[i]) == "{"
    ensures ParseStmt(src, toks, i, locals) == ParseCompoundStmt(src, toks, i + 1, locals)
  {
  }

  lemma ListEnd(src: string, toks: seq<Token>, i: nat, locals: seq<string>)
    requires IsStream(toks) && i < |toks| && Text(src, toks[i]) == "}"
    ensures ParseStmtList(src, toks, i, locals) == Ok(Parsed([], i + 1, locals))
  {
  }

  lemma ListStep(src: string, toks: seq<Token>, i: nat, locals: seq<string>, s: Stmt, j: nat, names: seq<string>,
                 rest: seq<Stmt>, k: nat, after: seq<string>)
    requires IsStream(toks) && i < |toks| && !Equal(src, toks[i], "}")
    requires ParseStmt(src, toks, i, locals) == Ok(Parsed(s, j, names)) && j < |toks|
    requires ParseStmtList(src, toks, j, names) == Ok(Parsed(rest, k, after))
    ensures ParseStmtList(src, toks, i, locals) == Ok(Parsed([s] + rest, k, after))
  {
  }

  lemma CompoundStep(src: string, toks: seq<Token>, i: nat, locals: seq<string>, ss: seq<Stmt>, k: nat, after: seq<string>)
    requires IsStream(toks) && i < |toks|
    requires ParseStmtList(src, toks, i, locals) == Ok(Parsed(ss, k, after))
    ensures ParseCompoundStmt(src, toks, i, locals) == Ok(Parsed(Block(ss), k, after))
  {
  }

  lemma ProgramStep(src: string, toks: seq<Token>, b: Stmt, k: nat, after: seq<string>)
    requires IsStream(toks) && 1 < |toks| && Text(src, toks[0]) == "{"
    requires ParseCompoundStmt(src, toks, 1, []) == Ok(Parsed(b, k, after))
    ensures Parse(src, toks) == Ok(Program(b, after))
  {
    assert Skip(src, toks, 0, "{") == Ok(1);
  }
}
