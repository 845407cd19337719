/** A printer for syntax trees and the proof that the parser reads back what
    it prints.  Printing is at the granularity of tokens: a lexeme is what
    one token of the stream must spell. */
module Unparse {
  import opened Wrappers
  import opened Chars
  import opened Lexer
  import opened Ast
  import opened Parser
  import opened ParserSteps

  datatype Lexeme = Punct(s: string) | Name(n: string) | Lit(v: int)

  /** The level of a node: operands and parenthesised expressions are 0,
      assignment is 5. */
  function Prec(e: Expr): nat {
    match e
    case Num(_) => 0
    case Var(_) => 0
    case Binary(op, _, _) => OpPrec(op)
    case Assign(_, _) => 5
  }

  /** An identifier the scanner reads as one identifier token that the
      keyword pass leaves alone. */
  predicate ValidName(n: string) {
    && |n| > 0 && IsIdent1(n[0])
    && (forall k :: 0 < k < |n| ==> IsIdent2(n[k]))
    && n != "return"
  }

  /** `e` printed where the grammar expects level `lvl`: a node of a looser
      level is parenthesised; a left operand stays at its operator's level
      and a right operand goes one level tighter, so the loops of parse.c
      rebuild the same tree. */
  function Print(e: Expr, lvl: nat): seq<Lexeme>
    requires lvl <= 5
    decreases e, if Prec(e) > lvl then 1 else 0
  {
    if Prec(e) > lvl then [Punct("(")] + Print(e, 5) + [Punct(")")]
    else
      match e
      case Num(v) => [Lit(v)]
      case Var(n) => [Name(n)]
      case Binary(op, l, r) => Print(l, OpPrec(op)) + [Punct(OpText(op))] + Print(r, OpPrec(op) - 1)
      case Assign(l, r) => Print(l, 4) + [Punct("=")] + Print(r, 5)
  }

  function PrintStmt(s: Stmt): seq<Lexeme> {
    match s
    case ExprStmt(e) => Print(e, 5) + [Punct(";")]
    case Return(e) => [Punct("return")] + Print(e, 5) + [Punct(";")]
    case Block(body) => [Punct("{")] + PrintList(body) + [Punct("}")]
  }

  function PrintList(ss: seq<Stmt>): seq<Lexeme> {
    if |ss| == 0 then [] else PrintStmt(ss[0]) + PrintList(ss[1..])
  }

  /** Token `t` spells lexeme `l` the way the tokenizer would produce it. */
  predicate Matches(src: string, t: Token, l: Lexeme) {
    match l
    case Punct(s) => t.kind == Reserved && Equal(src, t, s)
    case Name(n) => t.kind == Ident && ValidName(n) && Equal(src, t, n)
    case Lit(v) => t.kind == Number && t.val == v && 1 <= t.len && InBounds(src, t) && IsDigit(src[t.loc])
  }

  /** Tokens `i`, `i + 1`, … spell `lexs`. */
  predicate Spells(src: string, toks: seq<Token>, i: nat, lexs: seq<Lexeme>) {
    i + |lexs| <= |toks| && forall k :: 0 <= k < |lexs| ==> Matches(src, toks[i + k], lexs[k])
  }

  lemma SpellsSplit(src: string, toks: seq<Token>, i: nat, a: seq<Lexeme>, b: seq<Lexeme>)
    requires Spells(src, toks, i, a + b)
    ensures Spells(src, toks, i, a) && Spells(src, toks, i + |a|, b)
  {
    forall k | 0 <= k < |a| ensures Matches(src, toks[i + k], a[k]) {
      assert (a + b)[k] == a[k];
    }
    forall k | 0 <= k < |b| ensures Matches(src, toks[i + |a| + k], b[k]) {
      assert (a + b)[|a| + k] == b[k];
    }
  }

  /** The three parts of `a`, one token, `b`. */
  lemma SpellsAround(src: string, toks: seq<Token>, i: nat, a: seq<Lexeme>, x: Lexeme, b: seq<Lexeme>)
    requires Spells(src, toks, i, a + [x] + b)
    ensures Spells(src, toks, i, a) && Matches(src, toks[i + |a|], x) && Spells(src, toks, i + |a| + 1, b)
  {
    SpellsSplit(src, toks, i, a + [x], b);
    SpellsSplit(src, toks, i, a, [x]);
    assert [x][0] == x;
  }

  /** A string the parser tests tokens against: a keyword, or punctuation. */
  predicate IsSymbol(q: string) {
    q == "return" || (|q| > 0 && !IsIdent1(q[0]) && !IsDigit(q[0]))
  }

  /** A token that spells a lexeme is `equal` to a symbol exactly when the
      lexeme is that symbol. */
  lemma MatchesEqual(src: string, t: Token, l: Lexeme)
    requires Matches(src, t, l)
    ensures forall q :: IsSymbol(q) ==> (Equal(src, t, q) <==> l == Punct(q))
  {
    forall q | IsSymbol(q) ensures Equal(src, t, q) <==> l == Punct(q) {
    }
  }

  lemma SpellsParen(src: string, toks: seq<Token>, i: nat, inner: seq<Lexeme>)
    requires Spells(src, toks, i, [Punct("(")] + inner + [Punct(")")])
    ensures Matches(src, toks[i], Punct("(")) && Spells(src, toks, i + 1, inner)
    ensures Matches(src, toks[i + 1 + |inner|], Punct(")"))
  {
    SpellsAround(src, toks, i, [Punct("(")] + inner, Punct(")"), []);
    assert [] + [Punct("(")] + inner == [Punct("(")] + inner;
    SpellsAround(src, toks, i, [], Punct("("), inner);
  }

  lemma SpellsAt(src: string, toks: seq<Token>, i: nat, lexs: seq<Lexeme>, k: nat)
    requires Spells(src, toks, i, lexs) && k < |lexs|
    ensures Matches(src, toks[i + k], lexs[k])
  {
  }

  /** Printing at a level other than the node's own is printing one level
      tighter: either both parenthesise or neither does. */
  lemma PrintLower(e: Expr, lvl: nat)
    requires 1 <= lvl <= 5 && Prec(e) != lvl
    ensures Print(e, lvl) == Print(e, lvl - 1)
  {
  }

  /** A token spelling an operator ends every loop tighter than the operator. */
  lemma OpStops(src: string, t: Token, op: BinOp)
    requires Matches(src, t, Punct(OpText(op)))
    ensures StopsAt(src, t, OpPrec(op) - 1)
  {
    MatchesEqual(src, t, Punct(OpText(op)));
  }

  /** `=` ends every loop of the equality level and below. */
  lemma AssignStops(src: string, t: Token)
    requires Matches(src, t, Punct("="))
    ensures StopsAt(src, t, 4)
  {
    MatchesEqual(src, t, Punct("="));
  }

  /** `)` and `;` end every loop. */
  lemma CloseStops(src: string, t: Token, s: string)
    requires s == ")" || s == ";"
    requires Matches(src, t, Punct(s))
    ensures Text(src, t) == s && StopsAt(src, t, 5)
  {
    MatchesEqual(src, t, Punct(s));
  }

  /** A printed operand does not start with a sign. */
  lemma UnaryParts(src: string, toks: seq<Token>, i: nat, e: Expr)
    requires Spells(src, toks, i, Print(e, 0)) && i + |Print(e, 0)| < |toks|
    ensures !Equal(src, toks[i], "+") && !Equal(src, toks[i], "-")
  {
    SpellsAt(src, toks, i, Print(e, 0), 0);
    MatchesEqual(src, toks[i], Print(e, 0)[0]);
  }

  /** The tokens of a parenthesised expression ending before `k`. */
  lemma ParenParts(src: string, toks: seq<Token>, i: nat, k: nat, locals: seq<string>, e: Expr)
    returns (j: nat, after: seq<string>)
    requires Prec(e) > 0
    requires Spells(src, toks, i, Print(e, 0)) && k == i + |Print(e, 0)| && k < |toks|
    ensures i + 1 + |Print(e, 5)| == j && j + 1 == k
    ensures Text(src, toks[i]) == "(" && Spells(src, toks, i + 1, Print(e, 5))
    ensures Text(src, toks[j]) == ")" && StopsAt(src, toks[j], 5)
    ensures after == DeclareAll(locals, e)
  {
    var inner := Print(e, 5);
    assert Print(e, 0) == [Punct("(")] + inner + [Punct(")")];
    SpellsParen(src, toks, i, inner);
    CloseStops(src, toks[i + 1 + |inner|], ")");
    j, after := i + 1 + |inner|, DeclareAll(locals, e);
  }

  /** The tokens of a printed binary node of level `lvl` ending before `k`:
      the left operand up to `j`, the operator at `j`, the right operand.
      `names` and `after` are the tables after each operand. */
  lemma BinaryParts(src: string, toks: seq<Token>, i: nat, k: nat, locals: seq<string>, e: Expr, lvl: nat)
    returns (j: nat, names: seq<string>, after: seq<string>)
    requires e.Binary? && OpPrec(e.op) == lvl
    requires Spells(src, toks, i, Print(e, lvl)) && k == i + |Print(e, lvl)| && k < |toks|
    ensures lvl >= 1
    ensures j == i + |Print(e.lhs, lvl)| && j + 1 + |Print(e.rhs, lvl - 1)| == k
    ensures Spells(src, toks, i, Print(e.lhs, lvl))
    ensures Text(src, toks[j]) == OpText(e.op) && StopsAt(src, toks[j], lvl - 1)
    ensures Spells(src, toks, j + 1, Print(e.rhs, lvl - 1))
    ensures names == DeclareAll(locals, e.lhs) && after == DeclareAll(names, e.rhs)
    ensures DeclareAll(locals, e) == after
  {
    var pl, x, pr := Print(e.lhs, lvl), Punct(OpText(e.op)), Print(e.rhs, lvl - 1);
    assert Print(e, lvl) == pl + [x] + pr;
    SpellsAround(src, toks, i, pl, x, pr);
    OpStops(src, toks[i + |pl|], e.op);
    j, names := i + |pl|, DeclareAll(locals, e.lhs);
    after := DeclareAll(names, e.rhs);
  }

  /** The tokens of a printed assignment ending before `k`: the target up to
      `j`, `=` at `j`, the value. */
  lemma AssignParts(src: string, toks: seq<Token>, i: nat, k: nat, locals: seq<string>, e: Expr)
    returns (j: nat, names: seq<string>, after: seq<string>)
    requires e.Assign?
    requires Spells(src, toks, i, Print(e, 5)) && k == i + |Print(e, 5)| && k < |toks|
    ensures j == i + |Print(e.lhs, 4)| && j + 1 + |Print(e.rhs, 5)| == k
    ensures Spells(src, toks, i, Print(e.lhs, 4))
    ensures Text(src, toks[j]) == "=" && StopsAt(src, toks[j], 4)
    ensures Spells(src, toks, j + 1, Print(e.rhs, 5))
    ensures names == DeclareAll(locals, e.lhs) && after == DeclareAll(names, e.rhs)
    ensures DeclareAll(locals, e) == after
  {
    var pl, x, pr := Print(e.lhs, 4), Punct("="), Print(e.rhs, 5);
    assert Print(e, 5) == pl + [x] + pr;
    SpellsAround(src, toks, i, pl, x, pr);
    AssignStops(src, toks[i + |pl|]);
    j, names := i + |pl|, DeclareAll(locals, e.lhs);
    after := DeclareAll(names, e.rhs);
  }

  /** A node that is not of level `lvl` prints there as one level tighter. */
  lemma LowerParts(src: string, toks: seq<Token>, i: nat, k: nat, locals: seq<string>, e: Expr, lvl: nat)
    returns (after: seq<string>)
    requires 1 <= lvl <= 5 && Prec(e) != lvl
    requires Spells(src, toks, i, Print(e, lvl)) && k == i + |Print(e, lvl)| && k < |toks|
    ensures Spells(src, toks, i, Print(e, lvl - 1)) && k == i + |Print(e, lvl - 1)|
    ensures after == DeclareAll(locals, e)
  {
    PrintLower(e, lvl);
    after := DeclareAll(locals, e);
  }

  /** A lexeme that can begin a printed expression. */
  predicate StartsOperand(l: Lexeme) {
    l == Punct("(") || l.Name? || l.Lit?
  }

  /** Every printed expression begins with an operand or a parenthesis. */
  lemma {:induction false} PrintStarts(e: Expr, lvl: nat)
    requires lvl <= 5
    ensures |Print(e, lvl)| > 0 && StartsOperand(Print(e, lvl)[0])
    decreases e, if Prec(e) > lvl then 1 else 0
  {
    if Prec(e) > lvl {
    } else {
      match e
      case Num(_) =>
      case Var(_) =>
      case Binary(op, l, r) =>
        PrintStarts(l, OpPrec(op));
        assert Print(e, lvl)[0] == Print(l, OpPrec(op))[0];
      case Assign(l, r) =>
        PrintStarts(l, 4);
        assert Print(e, lvl)[0] == Print(l, 4)[0];
    }
  }

  /** The tokens of a printed expression statement ending before `k`. */
  lemma ExprStmtParts(src: string, toks: seq<Token>, i: nat, k: nat, locals: seq<string>, e: Expr)
    returns (j: nat, after: seq<string>)
    requires Spells(src, toks, i, PrintStmt(ExprStmt(e))) && k == i + |PrintStmt(ExprStmt(e))| && k < |toks|
    ensures j == i + |Print(e, 5)| && j + 1 == k
    ensures Spells(src, toks, i, Print(e, 5))
    ensures Text(src, toks[j]) == ";" && StopsAt(src, toks[j], 5)
    ensures !Equal(src, toks[i], "return") && !Equal(src, toks[i], "{") && !Equal(src, toks[i], "}")
    ensures after == DeclareAll(locals, e) && DeclareStmt(locals, ExprStmt(e)) == after
  {
    var pe := Print(e, 5);
    assert PrintStmt(ExprStmt(e)) == pe + [Punct(";")] + [];
    SpellsAround(src, toks, i, pe, Punct(";"), []);
    CloseStops(src, toks[i + |pe|], ";");
    PrintedHead(src, toks, i, e);
    j, after := i + |pe|, DeclareAll(locals, e);
  }

  /** A printed expression does not begin with a keyword or a brace. */
  lemma PrintedHead(src: string, toks: seq<Token>, i: nat, e: Expr)
    requires Spells(src, toks, i, Print(e, 5))
    ensures i < |toks| && !Equal(src, toks[i], "return") && !Equal(src, toks[i], "{") && !Equal(src, toks[i], "}")
  {
    var pe := Print(e, 5);
    PrintStarts(e, 5);
    SpellsAt(src, toks, i, pe, 0);
    MatchesEqual(src, toks[i], pe[0]);
  }

  /** One lexeme, a run of lexemes, one lexeme. */
  lemma SpellsFramed(src: string, toks: seq<Token>, i: nat, x: Lexeme, a: seq<Lexeme>, y: Lexeme)
    requires Spells(src, toks, i, [x] + a + [y])
    ensures i + |a| + 1 < |toks|
    ensures Matches(src, toks[i], x) && Spells(src, toks, i + 1, a) && Matches(src, toks[i + 1 + |a|], y)
  {
    assert ([x] + a + [y])[0] == x;
    assert ([x] + a + [y])[|a| + 1] == y;
    forall k | 0 <= k < |a| ensures Matches(src, toks[i + 1 + k], a[k]) {
      assert ([x] + a + [y])[k + 1] == a[k];
    }
  }

  /** A token spelling `return` or `{` is not the closing brace. */
  lemma KeywordHead(src: string, t: Token, q: string)
    requires q == "return" || q == "{"
    requires Matches(src, t, Punct(q))
    ensures Text(src, t) == q && !Equal(src, t, "}")
  {
    MatchesEqual(src, t, Punct(q));
  }

  /** The tokens of a printed `return` statement ending before `k`. */
  lemma ReturnParts(src: string, toks: seq<Token>, i: nat, k: nat, locals: seq<string>, e: Expr)
    returns (j: nat, after: seq<string>)
    requires Spells(src, toks, i, PrintStmt(Return(e))) && k == i + |PrintStmt(Return(e))| && k < |toks|
    ensures Text(src, toks[i]) == "return" && !Equal(src, toks[i], "}")
    ensures j == i + 1 + |Print(e, 5)| && j + 1 == k
    ensures Spells(src, toks, i + 1, Print(e, 5))
    ensures Text(src, toks[j]) == ";" && StopsAt(src, toks[j], 5)
    ensures after == DeclareAll(locals, e) && DeclareStmt(locals, Return(e)) == after
  {
    var pe := Print(e, 5);
    SpellsFramed(src, toks, i, Punct("return"), pe, Punct(";"));
    CloseStops(src, toks[i + 1 + |pe|], ";");
    KeywordHead(src, toks[i], "return");
    j, after := i + 1 + |pe|, DeclareAll(locals, e);
  }

  /** The tokens of a printed block ending before `k`: `{`, then the
      statements and the closing `}`. */
  lemma BlockParts(src: string, toks: seq<Token>, i: nat, k: nat, locals: seq<string>, body: seq<Stmt>)
    returns (after: seq<string>)
    requires Spells(src, toks, i, PrintStmt(Block(body))) && k == i + |PrintStmt(Block(body))| && k < |toks|
    ensures Text(src, toks[i]) == "{" && !Equal(src, toks[i], "}")
    ensures Spells(src, toks, i + 1, PrintList(body) + [Punct("}")])
    ensures k == i + 1 + |PrintList(body) + [Punct("}")]|
    ensures after == DeclareList(locals, body) && DeclareStmt(locals, Block(body)) == after
  {
    assert PrintStmt(Block(body)) == [] + [Punct("{")] + (PrintList(body) + [Punct("}")]);
    SpellsAround(src, toks, i, [], Punct("{"), PrintList(body) + [Punct("}")]);
    KeywordHead(src, toks[i], "{");
    after := DeclareList(locals, body);
  }

  /** The tokens of a non-empty statement list and its `}` ending before
      `k`: the first statement up to `j`, then the rest. */
  lemma ListParts(src: string, toks: seq<Token>, i: nat, k: nat, locals: seq<string>, ss: seq<Stmt>)
    returns (j: nat, names: seq<string>, after: seq<string>)
    requires |ss| > 0
    requires Spells(src, toks, i, PrintList(ss) + [Punct("}")]) && k == i + |PrintList(ss) + [Punct("}")]| && k < |toks|
    ensures ss == [ss[0]] + ss[1..] && !Equal(src, toks[i], "}")
    ensures Spells(src, toks, i, PrintStmt(ss[0])) && j == i + |PrintStmt(ss[0])| && j < k
    ensures Spells(src, toks, j, PrintList(ss[1..]) + [Punct("}")]) && k == j + |PrintList(ss[1..]) + [Punct("}")]|
    ensures names == DeclareStmt(locals, ss[0]) && after == DeclareList(names, ss[1..])
    ensures DeclareList(locals, ss) == after
  {
    var ps, tail := PrintStmt(ss[0]), PrintList(ss[1..]) + [Punct("}")];
    assert PrintList(ss) + [Punct("}")] == ps + tail;
    SpellsSplit(src, toks, i, ps, tail);
    StmtStarts(ss[0]);
    SpellsAt(src, toks, i, ps, 0);
    MatchesEqual(src, toks[i], ps[0]);
    j, names := i + |ps|, DeclareStmt(locals, ss[0]);
    after := DeclareList(names, ss[1..]);
  }

  /** The tokens of an empty statement list: just the `}`. */
  lemma ListEndParts(src: string, toks: seq<Token>, i: nat, k: nat, locals: seq<string>, ss: seq<Stmt>)
    requires |ss| == 0
    requires Spells(src, toks, i, PrintList(ss) + [Punct("}")]) && k == i + |PrintList(ss) + [Punct("}")]|
    ensures Text(src, toks[i]) == "}" && k == i + 1 && DeclareList(locals, ss) == locals
  {
    assert PrintList(ss) + [Punct("}")] == [Punct("}")];
    SpellsAt(src, toks, i, [Punct("}")], 0);
  }

  /** No printed statement begins with `}`. */
  lemma StmtStarts(s: Stmt)
    ensures |PrintStmt(s)| > 0 && PrintStmt(s)[0] != Punct("}")
  {
    match s
    case ExprStmt(e) =>
      PrintStarts(e, 5);
      assert PrintStmt(s) == Print(e, 5) + [Punct(";")];
    case Return(_) =>
    case Block(_) =>
  }
}
