/** The stack-machine code generator of codegen.c.  Emission is a function
    returning the instructions together with the value of the `depth`
    counter that `push` and `pop` keep; `error` becomes a fatal diagnostic. */
module CodeGen {
  import opened Wrappers
  import opened Ast

  /** The condition of one `set<cc> al`. */
  datatype Cond = E | NE | L | LE

  /** The instructions codegen.c prints, one constructor per line shape. */
  datatype Instr =
    | Directive(text: string)   // `.intel_syntax noprefix`, `.global _main`, `_main:`
    | PushRbp                   // push rbp
    | MovRbpRsp                 // mov rbp, rsp
    | SubRsp(size: nat)         // sub rsp, size
    | MovRspRbp                 // mov rsp, rbp
    | PopRbp                    // pop rbp
    | Ret                       // ret
    | MovImm(v: int)            // mov rax, v
    | LeaSlot(offset: int)      // lea rax, [rbp - offset]
    | Load                      // mov rax, [rax]
    | Store                     // mov [rdi], rax
    | PushRax                   // push rax        (`push`)
    | PopRdi                    // pop rdi         (`pop("rdi")`)
    | AddRdi                    // add rax, rdi
    | SubRdi                    // sub rax, rdi
    | IMulRdi                   // imul rax, rdi
    | Cqo                       // cqo
    | IDivRdi                   // idiv rdi
    | CmpRdi                    // cmp rax, rdi
    | SetCc(c: Cond)            // sete / setne / setl / setle al
    | MovzxAl                   // movzx rax, al

  /** The bytes the prologue reserves below `rbp`. */
  const FrameSize: nat := 208

  /** A name codegen.c can place: one lower-case letter, because it reads the
      variable's name as a single character. */
  predicate IsSlotName(n: string) {
    |n| == 1 && 'a' <= n[0] <= 'z'
  }

  predicate SlotNames(vs: set<string>) {
    forall n :: n in vs ==> IsSlotName(n)
  }

  /** `(name - 'a' + 1) * 8`. */
  function SlotOffset(c: char): (off: int)
    requires 'a' <= c <= 'z'
    ensures 8 <= off <= FrameSize && off % 8 == 0
  {
    ((c as int) - ('a' as int) + 1) * 8
  }

  /** Distinct letters get distinct slots. */
  lemma SlotOffsetInjective(c: char, c': char)
    requires 'a' <= c <= 'z' && 'a' <= c' <= 'z'
    ensures SlotOffset(c) == SlotOffset(c') <==> c == c'
  {
  }

  /** What the emitter has produced so far, with the `depth` counter. */
  datatype Emitted = Emitted(code: seq<Instr>, depth: int)

  /** `push`: one `push rax`, and the counter goes up by one. */
  function Push(depth: int): (r: Emitted)
    ensures r.depth == depth + 1 && Net(r.code) == 1
  {
    Emitted([PushRax], depth + 1)
  }

  /** `pop("rdi")`: one `pop rdi`, and the counter goes down by one. */
  function Pop(depth: int): (r: Emitted)
    ensures r.depth == depth - 1 && Net(r.code) == -1
  {
    Emitted([PopRdi], depth - 1)
  }

  /** How an instruction moves the counter: only `push` and `pop` do. */
  function Effect(i: Instr): int {
    match i
    case PushRax => 1
    case PopRdi => -1
    case _ => 0
  }

  /** The counter change of a whole sequence. */
  function Net(code: seq<Instr>): int {
    if |code| == 0 then 0 else Effect(code[0]) + Net(code[1..])
  }

  /** `gen_addr`: only a variable has an address. */
  function GenAddr(e: Expr): (r: Result<seq<Instr>>)
    requires e.Var? ==> IsSlotName(e.name)
    ensures r.Ok? <==> e.Var?
    ensures r.Ok? ==> |r.value| == 1 && r.value[0].LeaSlot?
                      && 8 <= r.value[0].offset <= FrameSize && r.value[0].offset % 8 == 0
    ensures r.Err? ==> r.error == Fatal("not an lvalue")
  {
    if e.Var? then Ok([LeaSlot(SlotOffset(e.name[0]))]) else Err(Fatal("not an lvalue"))
  }

  /** The operator sequence that ends the code of a binary node, with `rax`
      holding the left operand and `rdi` the right. */
  function OpCode(op: BinOp): (r: seq<Instr>)
    ensures 1 <= |r| <= 3
    ensures forall k :: 0 <= k < |r| ==> Effect(r[k]) == 0
    ensures r[0] == CmpRdi <==> !(op.Add? || op.Sub? || op.Mul? || op.Div?)
  {
    match op
    case Add => [AddRdi]
    case Sub => [SubRdi]
    case Mul => [IMulRdi]
    case Div => [Cqo, IDivRdi]
    case Eq => [CmpRdi, SetCc(E), MovzxAl]
    case Ne => [CmpRdi, SetCc(NE), MovzxAl]
    case Lt => [CmpRdi, SetCc(L), MovzxAl]
    case Le => [CmpRdi, SetCc(LE), MovzxAl]
  }

  /** `gen_expr` from counter value `depth`.  An assignment evaluates the
      address first and the value second; a binary node evaluates the right
      operand first. */
  function GenExpr(e: Expr, depth: int): (r: Result<Emitted>)
    requires SlotNames(ExprVars(e))
    ensures r.Ok? ==> r.value.depth == depth
    ensures r.Err? ==> r.error == Fatal("not an lvalue")
    decreases e
  {
    match e
    case Num(v) => Ok(Emitted([MovImm(v)], depth))
    case Var(n) =>
      assert n in ExprVars(e);
      var a := GenAddr(e).value;
      Ok(Emitted(a + [Load], depth))
    case Assign(l, r) =>
      assert l.Var? ==> l.name in ExprVars(e);
      var a :- GenAddr(l);
      var p := Push(depth);
      var v :- GenExpr(r, p.depth);
      var q := Pop(v.depth);
      Ok(Emitted(a + p.code + v.code + q.code + [Store], q.depth))
    case Binary(op, l, r) =>
      var rc :- GenExpr(r, depth);
      var p := Push(rc.depth);
      var lc :- GenExpr(l, p.depth);
      var q := Pop(lc.depth);
      Ok(Emitted(rc.code + p.code + lc.code + q.code + OpCode(op), q.depth))
  }

  /** `gen_stmt`: only an expression statement has code. */
  function GenStmt(s: Stmt, depth: int): (r: Result<Emitted>)
    requires SlotNames(StmtVars(s))
    ensures r.Ok? ==> s.ExprStmt? && r.value.depth == depth
    ensures !s.ExprStmt? ==> r == Err(Fatal("invalid statement"))
    ensures s.ExprStmt? && r.Err? ==> r.error == Fatal("not an lvalue")
  {
    if s.ExprStmt? then GenExpr(s.expr, depth) else Err(Fatal("invalid statement"))
  }

  /** The failure of `codegen`'s `assert(depth == 0)`. */
  const DepthAssertFailed: Diag := Fatal("assertion failed: depth == 0")

  /** The loop of `codegen` over the statement list, with the `assert` on
      the counter after every statement. */
  function GenStmts(ss: seq<Stmt>, depth: int): (r: Result<seq<Instr>>)
    requires SlotNames(ListVars(ss))
    ensures r.Ok? ==> forall s :: s in ss ==> s.ExprStmt?
    ensures depth == 0 && r.Err? ==> r.error == Fatal("invalid statement") || r.error == Fatal("not an lvalue")
    decreases |ss|
  {
    if |ss| == 0 then Ok([])
    else
      ListVarsSplit(ss);
      var s :- GenStmt(ss[0], depth);
      if s.depth != 0 then Err(DepthAssertFailed)
      else
        var rest :- GenStmts(ss[1..], s.depth);
        Ok(s.code + rest)
  }

  lemma ListVarsSplit(ss: seq<Stmt>)
    requires |ss| > 0
    ensures ListVars(ss) == StmtVars(ss[0]) + ListVars(ss[1..])
  {
  }

  const Header: seq<Instr> := [Directive(".intel_syntax noprefix"), Directive(".global _main"), Directive("_main:")]
  const Prologue: seq<Instr> := [PushRbp, MovRbpRsp, SubRsp(FrameSize)]
  const Epilogue: seq<Instr> := [MovRspRbp, PopRbp, Ret]

  /** `codegen` for the statement list; the counter starts at 0. */
  function Codegen(ss: seq<Stmt>): (r: Result<seq<Instr>>)
    requires SlotNames(ListVars(ss))
    ensures r.Err? ==> r.error == Fatal("invalid statement") || r.error == Fatal("not an lvalue")
    ensures r.Ok? ==> forall s :: s in ss ==> s.ExprStmt?
  {
    var body :- GenStmts(ss, 0);
    Ok(Header + Prologue + body + Epilogue)
  }
}
