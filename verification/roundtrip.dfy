/** The parser reads back what the printer prints: for every tree and every
    token sequence that spells the printed lexemes, each rule of parse.c
    returns the tree, the index just past it and the table with the tree's
    variables declared in textual order.  Each lemma reads the tokens from
    `i` up to `k`; the facts about the printed text come from the `…Parts`
    lemmas and the facts about the parser from the one-step equations. */
module RoundTrip {
  import opened Wrappers
  import opened Lexer
  import opened Ast
  import opened Parser
  import opened ParserSteps
  import opened Unparse

  /** `unary` reads back a printed operand. */
  lemma {:induction false} ReadUnary(src: string, toks: seq<Token>, i: nat, k: nat, locals: seq<string>, e: Expr)
    requires IsStream(toks)
    requires Spells(src, toks, i, Print(e, 0)) && k == i + |Print(e, 0)| && k < |toks|
    ensures ParseUnary(src, toks, i, locals) == Ok(Parsed(e, k, DeclareAll(locals, e)))
    decreases e, if Prec(e) > 0 then 1 else 0, 2
  {
    UnaryParts(src, toks, i, e);
    UnaryPrimary(src, toks, i, locals);
    if Prec(e) > 0 {
      ReadParen(src, toks, i, k, locals, e);
    } else {
      ReadOperand(src, toks, i, k, locals, e);
    }
  }

  /** `primary` reads back a parenthesised expression. */
  lemma {:induction false} ReadParen(src: string, toks: seq<Token>, i: nat, k: nat, locals: seq<string>, e: Expr)
    requires IsStream(toks) && Prec(e) > 0
    requires Spells(src, toks, i, Print(e, 0)) && k == i + |Print(e, 0)| && k < |toks|
    ensures ParsePrimary(src, toks, i, locals) == Ok(Parsed(e, k, DeclareAll(locals, e)))
    decreases e, 1, 1
  {
    var j, after := ParenParts(src, toks, i, k, locals, e);
    ReadAssign(src, toks, i + 1, j, locals, e);
    PrimaryParen(src, toks, i, locals, e, j, after);
  }

  /** `primary` reads back a number or a variable. */
  lemma ReadOperand(src: string, toks: seq<Token>, i: nat, k: nat, locals: seq<string>, e: Expr)
    requires IsStream(toks) && Prec(e) == 0
    requires Spells(src, toks, i, Print(e, 0)) && k == i + |Print(e, 0)| && k < |toks|
    ensures ParsePrimary(src, toks, i, locals) == Ok(Parsed(e, k, DeclareAll(locals, e)))
  {
    var t := toks[i];
    SpellsAt(src, toks, i, Print(e, 0), 0);
    if e.Var? {
      assert Print(e, 0) == [Name(e.name)];
      assert Matches(src, t, Name(e.name));
      assert !Equal(src, t, "(") by {
        assert src[t.loc .. t.loc + t.len][0] == src[t.loc] == e.name[0] != '(';
      }
      assert Text(src, t) == e.name;
      assert ParsePrimary(src, toks, i, locals) == Ok(Parsed(Var(Text(src, t)), i + 1, Declare(locals, Text(src, t))));
    } else {
      assert Print(e, 0) == [Lit(e.val)];
      assert Matches(src, t, Lit(e.val));
      assert !Equal(src, t, "(") by {
        assert src[t.loc .. t.loc + t.len][0] == src[t.loc] != '(';
      }
      assert ParsePrimary(src, toks, i, locals) == Ok(Parsed(Num(t.val), i + 1, locals));
    }
  }

  /** `mul` reads a printed level-1 expression and hands it to its loop. */
  lemma {:induction false} ReadMul(src: string, toks: seq<Token>, i: nat, k: nat, locals: seq<string>, e: Expr)
    requires IsStream(toks)
    requires Spells(src, toks, i, Print(e, 1)) && k == i + |Print(e, 1)| && k < |toks|
    ensures ParseMul(src, toks, i, locals) == ParseMulRest(src, toks, k, DeclareAll(locals, e), e)
    decreases e, if Prec(e) > 1 then 1 else 0, 3
  {
    if e.Binary? && OpPrec(e.op) == 1 {
      var j, names, after := BinaryParts(src, toks, i, k, locals, e, 1);
      ReadMul(src, toks, i, j, locals, e.lhs);
      ReadUnary(src, toks, j + 1, k, names, e.rhs);
      MulStep(src, toks, j, names, e.lhs, e.op, e.rhs, k, after);
    } else {
      var after := LowerParts(src, toks, i, k, locals, e, 1);
      ReadUnary(src, toks, i, k, locals, e);
      MulStart(src, toks, i, locals, e, k, after);
    }
  }

  /** `add` reads a printed level-2 expression and hands it to its loop. */
  lemma {:induction false} ReadAdd(src: string, toks: seq<Token>, i: nat, k: nat, locals: seq<string>, e: Expr)
    requires IsStream(toks)
    requires Spells(src, toks, i, Print(e, 2)) && k == i + |Print(e, 2)| && k < |toks|
    requires StopsAt(src, toks[k], 1)
    ensures ParseAdd(src, toks, i, locals) == ParseAddRest(src, toks, k, DeclareAll(locals, e), e)
    decreases e, if Prec(e) > 2 then 1 else 0, 4
  {
    if e.Binary? && OpPrec(e.op) == 2 {
      var j, names, after := BinaryParts(src, toks, i, k, locals, e, 2);
      ReadAdd(src, toks, i, j, locals, e.lhs);
      ReadMul(src, toks, j + 1, k, names, e.rhs);
      MulStop(src, toks, k, after, e.rhs);
      AddStep(src, toks, j, names, e.lhs, e.op, e.rhs, k, after);
    } else {
      var after := LowerParts(src, toks, i, k, locals, e, 2);
      ReadMul(src, toks, i, k, locals, e);
      MulStop(src, toks, k, after, e);
      AddStart(src, toks, i, locals, e, k, after);
    }
  }

  /** `relational` reads a printed level-3 expression and hands it to its loop. */
  lemma {:induction false} ReadRelational(src: string, toks: seq<Token>, i: nat, k: nat, locals: seq<string>, e: Expr)
    requires IsStream(toks)
    requires Spells(src, toks, i, Print(e, 3)) && k == i + |Print(e, 3)| && k < |toks|
    requires StopsAt(src, toks[k], 2)
    ensures ParseRelational(src, toks, i, locals) == ParseRelationalRest(src, toks, k, DeclareAll(locals, e), e)
    decreases e, if Prec(e) > 3 then 1 else 0, 5
  {
    if e.Binary? && OpPrec(e.op) == 3 {
      var j, names, after := BinaryParts(src, toks, i, k, locals, e, 3);
      RelationOfLess(src, toks[j], e.op, e.lhs, e.rhs);
      ReadRelational(src, toks, i, j, locals, e.lhs);
      ReadAdd(src, toks, j + 1, k, names, e.rhs);
      AddStop(src, toks, k, after, e.rhs);
      RelationalStep(src, toks, j, names, e.lhs, e.rhs, k, after);
    } else {
      var after := LowerParts(src, toks, i, k, locals, e, 3);
      ReadAdd(src, toks, i, k, locals, e);
      AddStop(src, toks, k, after, e);
      RelationalStart(src, toks, i, locals, e, k, after);
    }
  }

  /** `equality` reads a printed level-4 expression and hands it to its loop. */
  lemma {:induction false} ReadEquality(src: string, toks: seq<Token>, i: nat, k: nat, locals: seq<string>, e: Expr)
    requires IsStream(toks)
    requires Spells(src, toks, i, Print(e, 4)) && k == i + |Print(e, 4)| && k < |toks|
    requires StopsAt(src, toks[k], 3)
    ensures ParseEquality(src, toks, i, locals) == ParseEqualityRest(src, toks, k, DeclareAll(locals, e), e)
    decreases e, if Prec(e) > 4 then 1 else 0, 6
  {
    if e.Binary? && OpPrec(e.op) == 4 {
      var j, names, after := BinaryParts(src, toks, i, k, locals, e, 4);
      ReadEquality(src, toks, i, j, locals, e.lhs);
      ReadRelational(src, toks, j + 1, k, names, e.rhs);
      RelationalStop(src, toks, k, after, e.rhs);
      EqualityStep(src, toks, j, names, e.lhs, e.op, e.rhs, k, after);
    } else {
      var after := LowerParts(src, toks, i, k, locals, e, 4);
      ReadRelational(src, toks, i, k, locals, e);
      RelationalStop(src, toks, k, after, e);
      EqualityStart(src, toks, i, locals, e, k, after);
    }
  }

  /** `assign` reads back any printed expression followed by a token that
      is not an operator. */
  lemma {:induction false} ReadAssign(src: string, toks: seq<Token>, i: nat, k: nat, locals: seq<string>, e: Expr)
    requires IsStream(toks)
    requires Spells(src, toks, i, Print(e, 5)) && k == i + |Print(e, 5)| && k < |toks|
    requires StopsAt(src, toks[k], 5)
    ensures ParseAssign(src, toks, i, locals) == Ok(Parsed(e, k, DeclareAll(locals, e)))
    decreases e, 0, 7
  {
    if e.Assign? {
      var j, names, after := AssignParts(src, toks, i, k, locals, e);
      ReadEquality(src, toks, i, j, locals, e.lhs);
      EqualityStop(src, toks, j, names, e.lhs);
      ReadAssign(src, toks, j + 1, k, names, e.rhs);
      AssignStep(src, toks, i, locals, e.lhs, j, names, e.rhs, k, after);
    } else {
      var after := LowerParts(src, toks, i, k, locals, e, 5);
      ReadEquality(src, toks, i, k, locals, e);
      EqualityStop(src, toks, k, after, e);
      AssignStop(src, toks, i, locals, e, k, after);
    }
  }

  /** `stmt` reads back a printed statement. */
  lemma {:induction false} ReadStmt(src: string, toks: seq<Token>, i: nat, k: nat, locals: seq<string>, s: Stmt)
    requires IsStream(toks)
    requires Spells(src, toks, i, PrintStmt(s)) && k == i + |PrintStmt(s)| && k < |toks|
    ensures ParseStmt(src, toks, i, locals) == Ok(Parsed(s, k, DeclareStmt(locals, s)))
    decreases s
  {
    match s
    case ExprStmt(e) =>
      var j, after := ExprStmtParts(src, toks, i, k, locals, e);
      ReadAssign(src, toks, i, j, locals, e);
      ExprStmtStep(src, toks, i, locals, e, j, after);
      StmtExpr(src, toks, i, locals);
    case Return(e) =>
      var j, after := ReturnParts(src, toks, i, k, locals, e);
      ReadAssign(src, toks, i + 1, j, locals, e);
      StmtReturn(src, toks, i, locals, e, j, after);
    case Block(body) =>
      var after := BlockParts(src, toks, i, k, locals, body);
      ReadList(src, toks, i + 1, k, locals, body);
      CompoundStep(src, toks, i + 1, locals, body, k, after);
      StmtBlock(src, toks, i, locals);
  }

  /** The loop of `compound_stmt` reads back printed statements and the
      closing brace. */
  lemma {:induction false} ReadList(src: string, toks: seq<Token>, i: nat, k: nat, locals: seq<string>, ss: seq<Stmt>)
    requires IsStream(toks)
    requires Spells(src, toks, i, PrintList(ss) + [Punct("}")]) && k == i + |PrintList(ss) + [Punct("}")]| && k < |toks|
    ensures ParseStmtList(src, toks, i, locals) == Ok(Parsed(ss, k, DeclareList(locals, ss)))
    decreases ss
  {
    if |ss| == 0 {
      ListEndParts(src, toks, i, k, locals, ss);
      ListEnd(src, toks, i, locals);
    } else {
      var j, names, after := ListParts(src, toks, i, k, locals, ss);
      ReadStmt(src, toks, i, j, locals, ss[0]);
      ReadList(src, toks, j, k, names, ss[1..]);
      ListStep(src, toks, i, locals, ss[0], j, names, ss[1..], k, after);
    }
  }

  /** `parse` reads back a printed program: the tree, and the table of the
      program's variables in the order new_lvar would have built it. */
  lemma ReadProgram(src: string, toks: seq<Token>, body: seq<Stmt>)
    requires IsStream(toks)
    requires Spells(src, toks, 0, PrintStmt(Block(body))) && |PrintStmt(Block(body))| < |toks|
    ensures Parse(src, toks) == Ok(Program(Block(body), DeclareList([], body)))
  {
    var k := |PrintStmt(Block(body))|;
    var after := BlockParts(src, toks, 0, k, [], body);
    ReadList(src, toks, 1, k, [], body);
    CompoundStep(src, toks, 1, [], body, k, after);
    ProgramStep(src, toks, Block(body), k, after);
  }
}
