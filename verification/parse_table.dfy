/** The table of locals under parsing: every rule of parse.c only prepends
    names it has not seen (`new_lvar` after a failed `find_var`), so the
    entries it started with stay, in order, at the end of the table, no name
    is ever entered twice, and every variable of the tree it returns has an
    entry. */
module ParserTable {
  import opened Wrappers
  import opened Lexer
  import opened Ast
  import opened Parser

  /** A successful result whose table extends `locals` and covers its tree. */
  predicate ExprGrows(locals: seq<string>, r: Result<Parsed<Expr>>) {
    r.Ok? ==> Extends(locals, r.value.locals) && ExprVars(r.value.node) <= Names(r.value.locals)
  }

  predicate StmtGrows(locals: seq<string>, r: Result<Parsed<Stmt>>) {
    r.Ok? ==> Extends(locals, r.value.locals) && StmtVars(r.value.node) <= Names(r.value.locals)
  }

  predicate ListGrows(locals: seq<string>, r: Result<Parsed<seq<Stmt>>>) {
    r.Ok? ==> Extends(locals, r.value.locals) && ListVars(r.value.node) <= Names(r.value.locals)
  }

  lemma {:induction false} PrimaryTable(src: string, toks: seq<Token>, i: nat, locals: seq<string>)
    requires IsStream(toks) && i < |toks|
    ensures ExprGrows(locals, ParsePrimary(src, toks, i, locals))
    decreases |toks| - i, 0
  {
    if Equal(src, toks[i], "(") {
      EqualIsNotLast(src, toks, i, "(");
      ExprTable(src, toks, i + 1, locals);
    } else if toks[i].kind == Ident {
      DeclareExtends(locals, Text(src, toks[i]));
    } else {
      ExtendsRefl(locals);
    }
  }

  lemma {:induction false} UnaryTable(src: string, toks: seq<Token>, i: nat, locals: seq<string>)
    requires IsStream(toks) && i < |toks|
    ensures ExprGrows(locals, ParseUnary(src, toks, i, locals))
    decreases |toks| - i, 1
  {
    if Equal(src, toks[i], "+") || Equal(src, toks[i], "-") {
      UnaryTable(src, toks, i + 1, locals);
    } else {
      PrimaryTable(src, toks, i, locals);
    }
  }

  /** Two extensions in a row, and names entered by the first kept by the
      second. */
  lemma Chain(locals: seq<string>, mid: seq<string>, out: seq<string>, vs: set<string>)
    requires Extends(locals, mid) && Extends(mid, out)
    requires vs <= Names(mid)
    ensures Extends(locals, out) && vs <= Names(out)
  {
    ExtendsTrans(locals, mid, out);
  }

  lemma {:induction false} MulRestTable(src: string, toks: seq<Token>, i: nat, locals: seq<string>, acc: Expr)
    requires IsStream(toks) && i < |toks| && ExprVars(acc) <= Names(locals)
    ensures ExprGrows(locals, ParseMulRest(src, toks, i, locals, acc))
    decreases |toks| - i, 2
  {
    if Equal(src, toks[i], "*") || Equal(src, toks[i], "/") {
      var op := if Equal(src, toks[i], "*") then Mul else Div;
      var rhs := ParseUnary(src, toks, i + 1, locals);
      UnaryTable(src, toks, i + 1, locals);
      if rhs.Ok? {
        var p := rhs.value;
        MulRestTable(src, toks, p.next, p.locals, Binary(op, acc, p.node));
        var r := ParseMulRest(src, toks, p.next, p.locals, Binary(op, acc, p.node));
        if r.Ok? {
          Chain(locals, p.locals, r.value.locals, ExprVars(acc));
        }
      }
    } else {
      ExtendsRefl(locals);
    }
  }

  lemma {:induction false} MulTable(src: string, toks: seq<Token>, i: nat, locals: seq<string>)
    requires IsStream(toks) && i < |toks|
    ensures ExprGrows(locals, ParseMul(src, toks, i, locals))
    decreases |toks| - i, 3
  {
    var lhs := ParseUnary(src, toks, i, locals);
    UnaryTable(src, toks, i, locals);
    if lhs.Ok? {
      var p := lhs.value;
      MulRestTable(src, toks, p.next, p.locals, p.node);
      var r := ParseMulRest(src, toks, p.next, p.locals, p.node);
      if r.Ok? {
        ExtendsTrans(locals, p.locals, r.value.locals);
      }
    }
  }

  lemma {:induction false} AddRestTable(src: string, toks: seq<Token>, i: nat, locals: seq<string>, acc: Expr)
    requires IsStream(toks) && i < |toks| && ExprVars(acc) <= Names(locals)
    ensures ExprGrows(locals, ParseAddRest(src, toks, i, locals, acc))
    decreases |toks| - i, 4
  {
    if Equal(src, toks[i], "+") || Equal(src, toks[i], "-") {
      var op := if Equal(src, toks[i], "+") then Add else Sub;
      var rhs := ParseMul(src, toks, i + 1, locals);
      MulTable(src, toks, i + 1, locals);
      if rhs.Ok? {
        var p := rhs.value;
        AddRestTable(src, toks, p.next, p.locals, Binary(op, acc, p.node));
        var r := ParseAddRest(src, toks, p.next, p.locals, Binary(op, acc, p.node));
        if r.Ok? {
          Chain(locals, p.locals, r.value.locals, ExprVars(acc));
        }
      }
    } else {
      ExtendsRefl(locals);
    }
  }

  lemma {:induction false} AddTable(src: string, toks: seq<Token>, i: nat, locals: seq<string>)
    requires IsStream(toks) && i < |toks|
    ensures ExprGrows(locals, ParseAdd(src, toks, i, locals))
    decreases |toks| - i, 5
  {
    var lhs := ParseMul(src, toks, i, locals);
    MulTable(src, toks, i, locals);
    if lhs.Ok? {
      var p := lhs.value;
      AddRestTable(src, toks, p.next, p.locals, p.node);
      var r := ParseAddRest(src, toks, p.next, p.locals, p.node);
      if r.Ok? {
        ExtendsTrans(locals, p.locals, r.value.locals);
      }
    }
  }

  lemma {:induction false} RelationalRestTable(src: string, toks: seq<Token>, i: nat, locals: seq<string>, acc: Expr)
    requires IsStream(toks) && i < |toks| && ExprVars(acc) <= Names(locals)
    ensures ExprGrows(locals, ParseRelationalRest(src, toks, i, locals, acc))
    decreases |toks| - i, 6
  {
    if IsRelational(src, toks[i]) {
      var rhs := ParseAdd(src, toks, i + 1, locals);
      AddTable(src, toks, i + 1, locals);
      if rhs.Ok? {
        var p := rhs.value;
        var node := Relation(src, toks[i], acc, p.node);
        RelationalRestTable(src, toks, p.next, p.locals, node);
        var r := ParseRelationalRest(src, toks, p.next, p.locals, node);
        if r.Ok? {
          Chain(locals, p.locals, r.value.locals, ExprVars(acc));
        }
      }
    } else {
      ExtendsRefl(locals);
    }
  }

  lemma {:induction false} RelationalTable(src: string, toks: seq<Token>, i: nat, locals: seq<string>)
    requires IsStream(toks) && i < |toks|
    ensures ExprGrows(locals, ParseRelational(src, toks, i, locals))
    decreases |toks| - i, 7
  {
    var lhs := ParseAdd(src, toks, i, locals);
    AddTable(src, toks, i, locals);
    if lhs.Ok? {
      var p := lhs.value;
      RelationalRestTable(src, toks, p.next, p.locals, p.node);
      var r := ParseRelationalRest(src, toks, p.next, p.locals, p.node);
      if r.Ok? {
        ExtendsTrans(locals, p.locals, r.value.locals);
      }
    }
  }

  lemma {:induction false} EqualityRestTable(src: string, toks: seq<Token>, i: nat, locals: seq<string>, acc: Expr)
    requires IsStream(toks) && i < |toks| && ExprVars(acc) <= Names(locals)
    ensures ExprGrows(locals, ParseEqualityRest(src, toks, i, locals, acc))
    decreases |toks| - i, 8
  {
    if Equal(src, toks[i], "==") || Equal(src, toks[i], "!=") {
      var op := if Equal(src, toks[i], "==") then Eq else Ne;
      var rhs := ParseRelational(src, toks, i + 1, locals);
      RelationalTable(src, toks, i + 1, locals);
      if rhs.Ok? {
        var p := rhs.value;
        EqualityRestTable(src, toks, p.next, p.locals, Binary(op, acc, p.node));
        var r := ParseEqualityRest(src, toks, p.next, p.locals, Binary(op, acc, p.node));
        if r.Ok? {
          Chain(locals, p.locals, r.value.locals, ExprVars(acc));
        }
      }
    } else {
      ExtendsRefl(locals);
    }
  }

  lemma {:induction false} EqualityTable(src: string, toks: seq<Token>, i: nat, locals: seq<string>)
    requires IsStream(toks) && i < |toks|
    ensures ExprGrows(locals, ParseEquality(src, toks, i, locals))
    decreases |toks| - i, 9
  {
    var lhs := ParseRelational(src, toks, i, locals);
    RelationalTable(src, toks, i, locals);
    if lhs.Ok? {
      var p := lhs.value;
      EqualityRestTable(src, toks, p.next, p.locals, p.node);
      var r := ParseEqualityRest(src, toks, p.next, p.locals, p.node);
      if r.Ok? {
        ExtendsTrans(locals, p.locals, r.value.locals);
      }
    }
  }

  lemma {:induction false} AssignTable(src: string, toks: seq<Token>, i: nat, locals: seq<string>)
    requires IsStream(toks) && i < |toks|
    ensures ExprGrows(locals, ParseAssign(src, toks, i, locals))
    decreases |toks| - i, 10
  {
    var lhs := ParseEquality(src, toks, i, locals);
    EqualityTable(src, toks, i, locals);
    if lhs.Ok? && Equal(src, toks[lhs.value.next], "=") {
      var p := lhs.value;
      EqualIsNotLast(src, toks, p.next, "=");
      AssignTable(src, toks, p.next + 1, p.locals);
      var r := ParseAssign(src, toks, p.next + 1, p.locals);
      if r.Ok? {
        Chain(locals, p.locals, r.value.locals, ExprVars(p.node));
        assert ParseAssign(src, toks, i, locals) == Ok(Parsed(Assign(p.node, r.value.node), r.value.next, r.value.locals));
      }
    } else {
      assert ParseAssign(src, toks, i, locals) == lhs;
    }
  }

  lemma {:induction false} ExprTable(src: string, toks: seq<Token>, i: nat, locals: seq<string>)
    requires IsStream(toks) && i < |toks|
    ensures ExprGrows(locals, ParseExpr(src, toks, i, locals))
    decreases |toks| - i, 11
  {
    AssignTable(src, toks, i, locals);
  }

  lemma {:induction false} StmtTable(src: string, toks: seq<Token>, i: nat, locals: seq<string>)
    requires IsStream(toks) && i < |toks|
    ensures StmtGrows(locals, ParseStmt(src, toks, i, locals))
    decreases |toks| - i, 13
  {
    if Equal(src, toks[i], "return") {
      EqualIsNotLast(src, toks, i, "return");
      ExprTable(src, toks, i + 1, locals);
    } else if Equal(src, toks[i], "{") {
      EqualIsNotLast(src, toks, i, "{");
      CompoundTable(src, toks, i + 1, locals);
    } else {
      ExprTable(src, toks, i, locals);
    }
  }

  lemma {:induction false} ListTable(src: string, toks: seq<Token>, i: nat, locals: seq<string>)
    requires IsStream(toks) && i < |toks|
    ensures ListGrows(locals, ParseStmtList(src, toks, i, locals))
    decreases |toks| - i, 14
  {
    if Equal(src, toks[i], "}") {
      ExtendsRefl(locals);
    } else {
      var s := ParseStmt(src, toks, i, locals);
      StmtTable(src, toks, i, locals);
      if s.Ok? {
        var p := s.value;
        ListTable(src, toks, p.next, p.locals);
        var r := ParseStmtList(src, toks, p.next, p.locals);
        if r.Ok? {
          Chain(locals, p.locals, r.value.locals, StmtVars(p.node));
          assert ([p.node] + r.value.node)[1..] == r.value.node;
        }
      }
    }
  }

  lemma {:induction false} CompoundTable(src: string, toks: seq<Token>, i: nat, locals: seq<string>)
    requires IsStream(toks) && i < |toks|
    ensures StmtGrows(locals, ParseCompoundStmt(src, toks, i, locals))
    decreases |toks| - i, 15
  {
    ListTable(src, toks, i, locals);
  }

  /** The table of a parsed program has no duplicate names and an entry for
      every variable the program mentions. */
  lemma ProgramTable(src: string, toks: seq<Token>)
    requires IsStream(toks)
    ensures Parse(src, toks).Ok? ==>
              var p := Parse(src, toks).value;
              Distinct(p.locals) && StmtVars(p.body) <= Names(p.locals)
  {
    if Equal(src, toks[0], "{") {
      EqualIsNotLast(src, toks, 0, "{");
      CompoundTable(src, toks, 1, []);
    }
  }
}
