/** What the grammar of parse.c promises, stated on token sequences:
    associativity, precedence, the swapped operands of `>` and `>=`, the
    desugaring of unary signs, the table entry of an identifier, and the
    diagnostics. */
module ParserProps {
  import opened Wrappers
  import opened Lexer
  import opened Ast
  import opened Parser
  import opened ParserSteps
  import opened Unparse
  import opened RoundTrip

  /** `x op1 y op2 z` with two operators of one level groups to the left,
      `(x op1 y) op2 z`, at every level: `a-b-c` is `SUB(SUB(a,b),c)`. */
  lemma LeftAssociative(src: string, toks: seq<Token>, i: nat, k: nat, locals: seq<string>,
                        op1: BinOp, op2: BinOp, x: Expr, y: Expr, z: Expr)
    requires IsStream(toks) && OpPrec(op1) == OpPrec(op2)
    requires Prec(x) < OpPrec(op1) && Prec(y) < OpPrec(op1) && Prec(z) < OpPrec(op1)
    requires Spells(src, toks, i, Print(x, OpPrec(op1) - 1) + [Punct(OpText(op1))] + Print(y, OpPrec(op1) - 1)
                                  + [Punct(OpText(op2))] + Print(z, OpPrec(op1) - 1))
    requires k == i + |Print(x, OpPrec(op1) - 1) + [Punct(OpText(op1))] + Print(y, OpPrec(op1) - 1)
                       + [Punct(OpText(op2))] + Print(z, OpPrec(op1) - 1)|
    requires k < |toks| && StopsAt(src, toks[k], 5)
    ensures ParseExpr(src, toks, i, locals)
            == Ok(Parsed(Binary(op2, Binary(op1, x, y), z), k, DeclareAll(DeclareAll(DeclareAll(locals, x), y), z)))
  {
    var p := OpPrec(op1);
    var inner := Binary(op1, x, y);
    var e := Binary(op2, inner, z);
    PrintLower(x, p);
    assert Print(inner, p) == Print(x, p - 1) + [Punct(OpText(op1))] + Print(y, p - 1);
    assert Print(e, 5) == Print(inner, p) + [Punct(OpText(op2))] + Print(z, p - 1);
    ReadAssign(src, toks, i, k, locals, e);
  }

  /** `x = y = z` groups to the right, `x = (y = z)`; any expression of the
      equality level may stand on the left of `=`. */
  lemma RightAssociative(src: string, toks: seq<Token>, i: nat, k: nat, locals: seq<string>, x: Expr, y: Expr, z: Expr)
    requires IsStream(toks)
    requires Spells(src, toks, i, Print(x, 4) + [Punct("=")] + Print(y, 4) + [Punct("=")] + Print(z, 5))
    requires k == i + |Print(x, 4) + [Punct("=")] + Print(y, 4) + [Punct("=")] + Print(z, 5)|
    requires k < |toks| && StopsAt(src, toks[k], 5)
    ensures ParseExpr(src, toks, i, locals)
            == Ok(Parsed(Assign(x, Assign(y, z)), k, DeclareAll(DeclareAll(DeclareAll(locals, x), y), z)))
  {
    AssignChainPrint(x, y, z);
    ReadAssign(src, toks, i, k, locals, Assign(x, Assign(y, z)));
  }

  /** A chain of two assignments prints without parentheses. */
  lemma AssignChainPrint(x: Expr, y: Expr, z: Expr)
    ensures Print(Assign(x, Assign(y, z)), 5) == Print(x, 4) + [Punct("=")] + Print(y, 4) + [Punct("=")] + Print(z, 5)
  {
    assert Print(Assign(y, z), 5) == Print(y, 4) + [Punct("=")] + Print(z, 5);
    assert Print(Assign(x, Assign(y, z)), 5) == Print(x, 4) + [Punct("=")] + Print(Assign(y, z), 5);
    assert Print(x, 4) + [Punct("=")] + (Print(y, 4) + [Punct("=")] + Print(z, 5))
        == Print(x, 4) + [Punct("=")] + Print(y, 4) + [Punct("=")] + Print(z, 5);
  }

  /** An operand between a tighter operator `op1` and a looser `op2` belongs
      to `op1`, whichever side `op1` is on: `a+b*c` is `ADD(a,MUL(b,c))` and
      `a*b+c` is `ADD(MUL(a,b),c)`.  Operands are numbers or variables: these
      two are worked instances of `ReadAssign`, which gives the grouping for
      every printed tree, spelled out for three atoms. */
  lemma TighterOnRight(src: string, toks: seq<Token>, i: nat, k: nat, locals: seq<string>,
                       op1: BinOp, op2: BinOp, a: Expr, b: Expr, c: Expr)
    requires IsStream(toks) && OpPrec(op1) < OpPrec(op2)
    requires Prec(a) == 0 && Prec(b) == 0 && Prec(c) == 0
    requires Spells(src, toks, i, Print(a, 0) + [Punct(OpText(op2))] + Print(b, 0) + [Punct(OpText(op1))] + Print(c, 0))
    requires k == i + 5 && k < |toks| && StopsAt(src, toks[k], 5)
    ensures ParseExpr(src, toks, i, locals)
            == Ok(Parsed(Binary(op2, a, Binary(op1, b, c)), k, DeclareAll(DeclareAll(DeclareAll(locals, a), b), c)))
  {
    var inner := Binary(op1, b, c);
    var e := Binary(op2, a, inner);
    AtomPrint(a, OpPrec(op2));
    AtomPrint(b, OpPrec(op1));
    AtomPrint(c, OpPrec(op1) - 1);
    assert Print(inner, OpPrec(op2) - 1) == Print(b, 0) + [Punct(OpText(op1))] + Print(c, 0);
    assert Print(e, 5) == Print(a, 0) + [Punct(OpText(op2))] + Print(inner, OpPrec(op2) - 1);
    assert Print(a, 0) + [Punct(OpText(op2))] + (Print(b, 0) + [Punct(OpText(op1))] + Print(c, 0))
        == Print(a, 0) + [Punct(OpText(op2))] + Print(b, 0) + [Punct(OpText(op1))] + Print(c, 0);
    ReadAssign(src, toks, i, k, locals, e);
  }

  lemma TighterOnLeft(src: string, toks: seq<Token>, i: nat, k: nat, locals: seq<string>,
                      op1: BinOp, op2: BinOp, a: Expr, b: Expr, c: Expr)
    requires IsStream(toks) && OpPrec(op1) < OpPrec(op2)
    requires Prec(a) == 0 && Prec(b) == 0 && Prec(c) == 0
    requires Spells(src, toks, i, Print(a, 0) + [Punct(OpText(op1))] + Print(b, 0) + [Punct(OpText(op2))] + Print(c, 0))
    requires k == i + 5 && k < |toks| && StopsAt(src, toks[k], 5)
    ensures ParseExpr(src, toks, i, locals)
            == Ok(Parsed(Binary(op2, Binary(op1, a, b), c), k, DeclareAll(DeclareAll(DeclareAll(locals, a), b), c)))
  {
    var inner := Binary(op1, a, b);
    var e := Binary(op2, inner, c);
    AtomPrint(a, OpPrec(op1));
    AtomPrint(b, OpPrec(op1) - 1);
    AtomPrint(c, OpPrec(op2) - 1);
    assert Print(inner, OpPrec(op2)) == Print(a, 0) + [Punct(OpText(op1))] + Print(b, 0);
    assert Print(e, 5) == Print(inner, OpPrec(op2)) + [Punct(OpText(op2))] + Print(c, 0);
    ReadAssign(src, toks, i, k, locals, e);
  }

  /** A number or a variable prints as one lexeme at every level. */
  lemma AtomPrint(a: Expr, lvl: nat)
    requires Prec(a) == 0 && lvl <= 5
    ensures Print(a, lvl) == Print(a, 0) && |Print(a, 0)| == 1
  {
  }

  /** `x > y` is read as `y < x` and `x >= y` as `y <= x`; the table still
      meets the variables of `x` first. */
  lemma GreaterSwaps(src: string, toks: seq<Token>, i: nat, j: nat, k: nat, locals: seq<string>, x: Expr, y: Expr, ge: bool)
    requires IsStream(toks)
    requires Spells(src, toks, i, Print(x, 2)) && j == i + |Print(x, 2)| && j < |toks|
    requires Text(src, toks[j]) == (if ge then ">=" else ">")
    requires Spells(src, toks, j + 1, Print(y, 2)) && k == j + 1 + |Print(y, 2)| && k < |toks|
    requires StopsAt(src, toks[k], 5)
    ensures ParseExpr(src, toks, i, locals)
            == Ok(Parsed(Binary(if ge then Le else Lt, y, x), k, DeclareAll(DeclareAll(locals, x), y)))
  {
    var n1 := DeclareAll(locals, x);
    var n2 := DeclareAll(n1, y);
    var e := Binary(if ge then Le else Lt, y, x);
    GreaterStops(src, toks[j], ge);
    ReadAdd(src, toks, i, j, locals, x);
    AddStop(src, toks, j, n1, x);
    RelationalStart(src, toks, i, locals, x, j, n1);
    ReadAdd(src, toks, j + 1, k, n1, y);
    AddStop(src, toks, k, n2, y);
    RelationOfGreater(src, toks[j], ge, x, y);
    RelationalStep(src, toks, j, n1, x, y, k, n2);
    RelationalStop(src, toks, k, n2, e);
    EqualityStart(src, toks, i, locals, e, k, n2);
    EqualityStop(src, toks, k, n2, e);
    AssignStop(src, toks, i, locals, e, k, n2);
  }

  /** `-x` is read as `0 - x`. */
  lemma UnaryMinus(src: string, toks: seq<Token>, i: nat, k: nat, locals: seq<string>, x: Expr)
    requires IsStream(toks) && i < |toks| && Text(src, toks[i]) == "-"
    requires Spells(src, toks, i + 1, Print(x, 0)) && k == i + 1 + |Print(x, 0)| && k < |toks|
    ensures ParseUnary(src, toks, i, locals) == Ok(Parsed(Binary(Sub, Num(0), x), k, DeclareAll(locals, x)))
  {
    ReadUnary(src, toks, i + 1, k, locals, x);
  }

  /** `+x` is read as `x` itself. */
  lemma UnaryPlus(src: string, toks: seq<Token>, i: nat, k: nat, locals: seq<string>, x: Expr)
    requires IsStream(toks) && i < |toks| && Text(src, toks[i]) == "+"
    requires Spells(src, toks, i + 1, Print(x, 0)) && k == i + 1 + |Print(x, 0)| && k < |toks|
    ensures ParseUnary(src, toks, i, locals) == Ok(Parsed(x, k, DeclareAll(locals, x)))
  {
    ReadUnary(src, toks, i + 1, k, locals, x);
  }

  /** An identifier names exactly one entry of the table afterwards: the old
      one if it was declared, else a new one in front. */
  lemma IdentDeclares(src: string, toks: seq<Token>, i: nat, locals: seq<string>)
    requires IsStream(toks) && i < |toks| && toks[i].kind == Ident && !Equal(src, toks[i], "(")
    requires Distinct(locals)
    ensures var name := Text(src, toks[i]);
            && ParsePrimary(src, toks, i, locals) == Ok(Parsed(Var(name), i + 1, Declare(locals, name)))
            && Distinct(Declare(locals, name))
            && (forall k :: 0 <= k < |Declare(locals, name)| && Declare(locals, name)[k] == name
                  ==> k == FindVar(Declare(locals, name), name).value)
            && (name in locals || Declare(locals, name)[1..] == locals)
  {
    var name := Text(src, toks[i]);
    var t := Declare(locals, name);
    DeclareExtends(locals, name);
    DistinctIsPairwise(t);
    if name !in locals {
      assert t[1..] == locals;
    }
  }

  /** A token that cannot begin a primary, and is no sign, makes every
      expression rule fail with "expected an expression" at that token. */
  lemma ExpectedExpression(src: string, toks: seq<Token>, i: nat, locals: seq<string>)
    requires IsStream(toks) && i < |toks|
    requires !Equal(src, toks[i], "(") && !Equal(src, toks[i], "+") && !Equal(src, toks[i], "-")
    requires toks[i].kind != Ident && toks[i].kind != Number
    ensures ParseExpr(src, toks, i, locals) == Err(At(toks[i].loc, "expected an expression"))
  {
    var err := Err(At(toks[i].loc, "expected an expression"));
    assert ParseUnary(src, toks, i, locals) == err;
    assert ParseMul(src, toks, i, locals) == err;
    assert ParseAdd(src, toks, i, locals) == err;
    assert ParseRelational(src, toks, i, locals) == err;
    assert ParseEquality(src, toks, i, locals) == err;
    assert ParseAssign(src, toks, i, locals) == err;
  }

  /** An expression statement not followed by `;` is an error at the token
      after the expression. */
  lemma ExpectedSemicolon(src: string, toks: seq<Token>, i: nat, locals: seq<string>, e: Expr, j: nat, names: seq<string>)
    requires IsStream(toks) && i < |toks|
    requires ParseExpr(src, toks, i, locals) == Ok(Parsed(e, j, names))
    requires j < |toks| && !Equal(src, toks[j], ";")
    ensures ParseExprStmt(src, toks, i, locals) == Err(At(toks[j].loc, "expected ';'"))
  {
    assert Skip(src, toks, j, ";") == Err(At(toks[j].loc, "expected ';'"));
  }

  /** The same for a `return` statement. */
  lemma ReturnExpectsSemicolon(src: string, toks: seq<Token>, i: nat, locals: seq<string>, e: Expr, j: nat, names: seq<string>)
    requires IsStream(toks) && i + 1 < |toks| && Equal(src, toks[i], "return")
    requires ParseExpr(src, toks, i + 1, locals) == Ok(Parsed(e, j, names))
    requires j < |toks| && !Equal(src, toks[j], ";")
    ensures ParseStmt(src, toks, i, locals) == Err(At(toks[j].loc, "expected ';'"))
  {
    assert Skip(src, toks, j, ";") == Err(At(toks[j].loc, "expected ';'"));
  }

  /** The statement loop stops just after a `}`. */
  lemma {:induction false} ListEndsAtBrace(src: string, toks: seq<Token>, i: nat, locals: seq<string>)
    requires IsStream(toks) && i < |toks|
    ensures ParseStmtList(src, toks, i, locals).Ok? ==>
              Equal(src, toks[ParseStmtList(src, toks, i, locals).value.next - 1], "}")
    decreases |toks| - i
  {
    if !Equal(src, toks[i], "}") {
      var s := ParseStmt(src, toks, i, locals);
      if s.Ok? {
        ListEndsAtBrace(src, toks, s.value.next, s.value.locals);
      }
    }
  }

  /** A block, and so a program, ends just after a `}`. */
  lemma CompoundEndsAtBrace(src: string, toks: seq<Token>, i: nat, locals: seq<string>)
    requires IsStream(toks) && i < |toks|
    ensures ParseCompoundStmt(src, toks, i, locals).Ok? ==>
              Equal(src, toks[ParseCompoundStmt(src, toks, i, locals).value.next - 1], "}")
  {
    ListEndsAtBrace(src, toks, i, locals);
  }
}
