/** The syntax tree parse.c builds and codegen.c walks.  Expressions and
    statements are separate sorts, so a statement can never stand where an
    expression is expected. */
module Ast {
  /** The binary node kinds `ND_ADD` … `ND_LE`.  There is no greater-than
      kind: the parser swaps the operands of `>` and `>=`. */
  datatype BinOp = Add | Sub | Mul | Div | Eq | Ne | Lt | Le

  /** `ND_NUM`, `ND_VAR`, the binary kinds and `ND_ASSIGN`.  A variable node
      names its entry in the table of locals. */
  datatype Expr =
    | Num(val: int)
    | Var(name: string)
    | Binary(op: BinOp, lhs: Expr, rhs: Expr)
    | Assign(lhs: Expr, rhs: Expr)

  /** `ND_EXPR_STMT`, `ND_RETURN` and `ND_BLOCK` with its list of statements. */
  datatype Stmt =
    | ExprStmt(expr: Expr)
    | Return(expr: Expr)
    | Block(body: seq<Stmt>)

  /** `struct function`: the outer block and the table of locals, most
      recently declared first. */
  datatype Program = Program(body: Stmt, locals: seq<string>)

  /** No name occurs twice: each one is absent from the names after it. */
  predicate Distinct(names: seq<string>) {
    |names| == 0 || (names[0] !in names[1..] && Distinct(names[1..]))
  }

  lemma {:induction false} DistinctIsPairwise(names: seq<string>)
    ensures Distinct(names) <==> forall i, j :: 0 <= i < j < |names| ==> names[i] != names[j]
  {
    if |names| > 0 {
      DistinctIsPairwise(names[1..]);
      if Distinct(names) {
        forall i, j | 0 <= i < j < |names| ensures names[i] != names[j] {
          if i == 0 {
            assert names[j] == names[1..][j - 1];
          } else {
            assert names[i] == names[1..][i - 1] && names[j] == names[1..][j - 1];
          }
        }
      }
      if forall i, j :: 0 <= i < j < |names| ==> names[i] != names[j] {
        forall j | 0 <= j < |names[1..]| ensures names[1..][j] != names[0] {
          assert names[1..][j] == names[j + 1];
        }
        forall i, j | 0 <= i < j < |names[1..]| ensures names[1..][i] != names[1..][j] {
          assert names[1..][i] == names[i + 1] && names[1..][j] == names[j + 1];
        }
      }
    }
  }

  /** The grammar level that builds each operator: `mul` is 1, `add` 2,
      `relational` 3, `equality` 4. */
  function OpPrec(op: BinOp): nat {
    match op
    case Mul => 1 case Div => 1
    case Add => 2 case Sub => 2
    case Lt => 3 case Le => 3
    case Eq => 4 case Ne => 4
  }

  /** The spelling of each operator. */
  function OpText(op: BinOp): string {
    match op
    case Mul => "*" case Div => "/"
    case Add => "+" case Sub => "-"
    case Lt => "<" case Le => "<="
    case Eq => "==" case Ne => "!="
  }

  /** The variable names an expression mentions. */
  function ExprVars(e: Expr): set<string> {
    match e
    case Num(_) => {}
    case Var(n) => {n}
    case Binary(_, l, r) => ExprVars(l) + ExprVars(r)
    case Assign(l, r) => ExprVars(l) + ExprVars(r)
  }

  function StmtVars(s: Stmt): set<string> {
    match s
    case ExprStmt(e) => ExprVars(e)
    case Return(e) => ExprVars(e)
    case Block(body) => ListVars(body)
  }

  function ListVars(ss: seq<Stmt>): set<string> {
    if |ss| == 0 then {} else StmtVars(ss[0]) + ListVars(ss[1..])
  }
}
