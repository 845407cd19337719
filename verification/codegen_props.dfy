/** What codegen.c promises about its output: when it fails and with which
    diagnostic, the `depth` counter's discipline, the order of a binary
    node's code and the frame every slot address stays in. */
module CodeGenProps {
  import opened Wrappers
  import opened Ast
  import opened CodeGen

  /** A tree `gen_expr` accepts: the target of every assignment is a
      variable. */
  predicate Lowerable(e: Expr) {
    match e
    case Num(_) => true
    case Var(_) => true
    case Binary(_, l, r) => Lowerable(l) && Lowerable(r)
    case Assign(l, r) => l.Var? && Lowerable(r)
  }

  /** `gen_expr` fails exactly on a tree with an assignment to something
      other than a variable, and then with "not an lvalue". */
  lemma {:induction false} GenExprSucceeds(e: Expr, depth: int)
    requires SlotNames(ExprVars(e))
    ensures GenExpr(e, depth).Ok? <==> Lowerable(e)
    ensures GenExpr(e, depth).Err? ==> GenExpr(e, depth).error == Fatal("not an lvalue")
    decreases e
  {
    match e
    case Num(_) =>
    case Var(n) => assert n in ExprVars(e);
    case Assign(l, r) =>
      assert l.Var? ==> l.name in ExprVars(e);
      GenExprSucceeds(r, depth + 1);
    case Binary(_, l, r) =>
      GenExprSucceeds(r, depth);
      GenExprSucceeds(l, depth + 1);
  }

  lemma {:induction false} NetAppend(a: seq<Instr>, b: seq<Instr>)
    ensures Net(a + b) == Net(a) + Net(b)
    decreases |a|
  {
    if |a| > 0 {
      assert (a + b)[0] == a[0] && (a + b)[1..] == a[1..] + b;
      NetAppend(a[1..], b);
    } else {
      assert a + b == b;
    }
  }

  /** The counter ends where it started and never goes below it. */
  predicate Balanced(code: seq<Instr>) {
    Net(code) == 0 && forall k :: 0 <= k <= |code| ==> Net(code[..k]) >= 0
  }

  /** No `push` and no `pop`. */
  predicate NoStack(code: seq<Instr>) {
    forall k :: 0 <= k < |code| ==> Effect(code[k]) == 0
  }

  lemma {:induction false} NoStackNet(code: seq<Instr>)
    requires NoStack(code)
    ensures Net(code) == 0
    decreases |code|
  {
    if |code| > 0 {
      NoStackNet(code[1..]);
    }
  }

  lemma NoStackBalanced(code: seq<Instr>)
    requires NoStack(code)
    ensures Balanced(code)
  {
    NoStackNet(code);
    forall k | 0 <= k <= |code| ensures Net(code[..k]) >= 0 {
      NoStackNet(code[..k]);
    }
  }

  lemma BalancedAppend(a: seq<Instr>, b: seq<Instr>)
    requires Balanced(a) && Balanced(b)
    ensures Balanced(a + b)
  {
    NetAppend(a, b);
    forall k | 0 <= k <= |a + b| ensures Net((a + b)[..k]) >= 0 {
      if k <= |a| {
        assert (a + b)[..k] == a[..k];
      } else {
        assert (a + b)[..k] == a + b[..k - |a|];
        NetAppend(a, b[..k - |a|]);
      }
    }
  }

  /** Code between a `push` and a `pop` runs one level up. */
  lemma BalancedWrap(b: seq<Instr>)
    requires Balanced(b)
    ensures Balanced([PushRax] + b + [PopRdi])
  {
    var w := [PushRax] + b + [PopRdi];
    NetAppend([PushRax] + b, [PopRdi]);
    NetAppend([PushRax], b);
    forall k | 0 <= k <= |w| ensures Net(w[..k]) >= 0 {
      if 1 <= k <= |b| + 1 {
        assert w[..k] == [PushRax] + b[..k - 1];
        NetAppend([PushRax], b[..k - 1]);
      } else if k == |w| {
        assert w[..k] == w;
      }
    }
  }

  /** `gen_expr` keeps the `push`/`pop` discipline: net change 0, and the
      counter never below its value on entry. */
  lemma {:induction false} GenExprBalanced(e: Expr, depth: int)
    requires SlotNames(ExprVars(e)) && GenExpr(e, depth).Ok?
    ensures Balanced(GenExpr(e, depth).value.code)
    decreases e
  {
    match e
    case Num(_) => NoStackBalanced([MovImm(e.val)]);
    case Var(n) =>
      assert n in ExprVars(e);
      NoStackBalanced(GenExpr(e, depth).value.code);
    case Assign(l, r) =>
      assert l.Var? ==> l.name in ExprVars(e);
      GenExprBalanced(r, depth + 1);
      AssignBalanced(GenAddr(l).value, GenExpr(r, depth + 1).value.code);
    case Binary(op, l, r) =>
      var rc, lc := GenExpr(r, depth).value.code, GenExpr(l, depth + 1).value.code;
      assert GenExpr(e, depth).value.code == rc + [PushRax] + lc + [PopRdi] + OpCode(op);
      GenExprBalanced(r, depth);
      GenExprBalanced(l, depth + 1);
      BinaryBalanced(rc, lc, op);
  }

  lemma AssignBalanced(a: seq<Instr>, v: seq<Instr>)
    requires NoStack(a) && Balanced(v)
    ensures Balanced(a + [PushRax] + v + [PopRdi] + [Store])
  {
    NoStackBalanced(a);
    BalancedWrap(v);
    BalancedAppend(a, [PushRax] + v + [PopRdi]);
    NoStackBalanced([Store]);
    BalancedAppend(a + ([PushRax] + v + [PopRdi]), [Store]);
    assert a + [PushRax] + v + [PopRdi] + [Store] == a + ([PushRax] + v + [PopRdi]) + [Store];
  }

  lemma BinaryBalanced(rc: seq<Instr>, lc: seq<Instr>, op: BinOp)
    requires Balanced(rc) && Balanced(lc)
    ensures Balanced(rc + [PushRax] + lc + [PopRdi] + OpCode(op))
  {
    BalancedWrap(lc);
    BalancedAppend(rc, [PushRax] + lc + [PopRdi]);
    NoStackBalanced(OpCode(op));
    BalancedAppend(rc + ([PushRax] + lc + [PopRdi]), OpCode(op));
    assert rc + [PushRax] + lc + [PopRdi] + OpCode(op) == rc + ([PushRax] + lc + [PopRdi]) + OpCode(op);
  }

  /** The code of a binary node: right operand, `push`, left operand,
      `pop rdi`, and then the one operator sequence of its kind. */
  lemma BinaryLayout(op: BinOp, l: Expr, r: Expr, depth: int)
    requires SlotNames(ExprVars(Binary(op, l, r))) && GenExpr(Binary(op, l, r), depth).Ok?
    ensures GenExpr(r, depth).Ok? && GenExpr(l, depth + 1).Ok?
    ensures GenExpr(Binary(op, l, r), depth).value.code
            == GenExpr(r, depth).value.code + [PushRax] + GenExpr(l, depth + 1).value.code + [PopRdi] + OpCode(op)
  {
  }

  /** The code of an assignment: the variable's address, `push`, the value,
      `pop rdi`, and the store through `rdi`. */
  lemma AssignLayout(x: string, r: Expr, depth: int)
    requires SlotNames(ExprVars(Assign(Var(x), r))) && GenExpr(Assign(Var(x), r), depth).Ok?
    ensures IsSlotName(x) && SlotNames(ExprVars(r)) && GenExpr(r, depth + 1).Ok?
    ensures GenExpr(Assign(Var(x), r), depth).value.code
            == [LeaSlot(SlotOffset(x[0]))] + [PushRax] + GenExpr(r, depth + 1).value.code + ([PopRdi] + [Store])
  {
    assert x in ExprVars(Assign(Var(x), r));
  }

  /** Each comparison ends in `cmp`, exactly one `set<cc>`, and `movzx`;
      arithmetic ends in its one instruction, or `cqo; idiv` for division. */
  lemma OpCodeShape(op: BinOp)
    ensures op in {Eq, Ne, Lt, Le} <==> |OpCode(op)| == 3
    ensures |OpCode(op)| == 3 ==> OpCode(op)[0] == CmpRdi && OpCode(op)[1].SetCc? && OpCode(op)[2] == MovzxAl
    ensures op == Div <==> OpCode(op) == [Cqo, IDivRdi]
    ensures NoStack(OpCode(op))
  {
  }

  /** Every slot address the code computes lies in the reserved frame. */
  predicate InFrame(code: seq<Instr>) {
    forall k :: 0 <= k < |code| && code[k].LeaSlot? ==> 8 <= code[k].offset <= FrameSize
  }

  lemma InFrameAppend(a: seq<Instr>, b: seq<Instr>)
    requires InFrame(a) && InFrame(b)
    ensures InFrame(a + b)
  {
    forall k | 0 <= k < |a + b| && (a + b)[k].LeaSlot? ensures 8 <= (a + b)[k].offset <= FrameSize {
      if k < |a| { assert (a + b)[k] == a[k]; } else { assert (a + b)[k] == b[k - |a|]; }
    }
  }

  lemma {:induction false} GenExprInFrame(e: Expr, depth: int)
    requires SlotNames(ExprVars(e)) && GenExpr(e, depth).Ok?
    ensures InFrame(GenExpr(e, depth).value.code)
    decreases e
  {
    match e
    case Num(_) =>
    case Var(n) =>
      assert n in ExprVars(e);
      InFrameAppend(GenAddr(e).value, [Load]);
    case Assign(l, r) =>
      assert l.Var? ==> l.name in ExprVars(e);
      var a := GenAddr(l).value;
      var v := GenExpr(r, depth + 1).value.code;
      GenExprInFrame(r, depth + 1);
      InFrameAppend(a, [PushRax]);
      InFrameAppend(a + [PushRax], v);
      InFrameAppend(a + [PushRax] + v, [PopRdi]);
      InFrameAppend(a + [PushRax] + v + [PopRdi], [Store]);
    case Binary(op, l, r) =>
      var rc := GenExpr(r, depth).value.code;
      var lc := GenExpr(l, depth + 1).value.code;
      GenExprInFrame(r, depth);
      GenExprInFrame(l, depth + 1);
      InFrameAppend(rc, [PushRax]);
      InFrameAppend(rc + [PushRax], lc);
      InFrameAppend(rc + [PushRax] + lc, [PopRdi]);
      InFrameAppend(rc + [PushRax] + lc + [PopRdi], OpCode(op));
  }

  /** A statement list `codegen` accepts: expression statements whose trees
      are lowerable. */
  predicate Emittable(ss: seq<Stmt>) {
    forall k :: 0 <= k < |ss| ==> ss[k].ExprStmt? && Lowerable(ss[k].expr)
  }

  /** The statement loop succeeds exactly on an emittable list; its
      `assert(depth == 0)` never fires, so the only diagnostics are
      "invalid statement" and "not an lvalue".  The body it emits stays in
      the frame. */
  lemma {:induction false} GenStmtsSucceeds(ss: seq<Stmt>)
    requires SlotNames(ListVars(ss))
    ensures GenStmts(ss, 0).Ok? <==> Emittable(ss)
    ensures GenStmts(ss, 0).Err? ==>
              GenStmts(ss, 0).error == Fatal("invalid statement") || GenStmts(ss, 0).error == Fatal("not an lvalue")
    ensures GenStmts(ss, 0).Ok? ==> InFrame(GenStmts(ss, 0).value)
    decreases |ss|
  {
    if |ss| > 0 {
      ListVarsSplit(ss);
      var s := ss[0];
      if s.ExprStmt? {
        GenExprSucceeds(s.expr, 0);
        GenStmtsSucceeds(ss[1..]);
        if GenExpr(s.expr, 0).Ok? {
          GenExprInFrame(s.expr, 0);
          if GenStmts(ss[1..], 0).Ok? {
            InFrameAppend(GenExpr(s.expr, 0).value.code, GenStmts(ss[1..], 0).value);
          }
        }
        if Emittable(ss) {
          assert forall k :: 0 <= k < |ss[1..]| ==> ss[1..][k] == ss[k + 1];
        }
        if Emittable(ss[1..]) && Lowerable(s.expr) {
          forall k | 0 <= k < |ss| ensures ss[k].ExprStmt? && Lowerable(ss[k].expr) {
            if k > 0 { assert ss[k] == ss[1..][k - 1]; }
          }
        }
      } else {
        assert !Emittable(ss) by { assert !ss[0].ExprStmt?; }
      }
    }
  }

  /** `codegen` succeeds exactly on an emittable list; its output is the
      header, the prologue reserving the frame, the statements' code and the
      epilogue, and every slot address it uses lies in the frame. */
  lemma CodegenShape(ss: seq<Stmt>)
    requires SlotNames(ListVars(ss))
    ensures Codegen(ss).Ok? <==> Emittable(ss)
    ensures Codegen(ss).Ok? ==>
              var out := Codegen(ss).value;
              && |out| >= 9
              && out[..6] == Header + Prologue && out[5] == SubRsp(FrameSize)
              && out[|out| - 3..] == Epilogue
              && InFrame(out)
  {
    GenStmtsSucceeds(ss);
    if GenStmts(ss, 0).Ok? {
      var body := GenStmts(ss, 0).value;
      var out := Header + Prologue + body + Epilogue;
      InFrameAppend(Header + Prologue, body);
      InFrameAppend(Header + Prologue + body, Epilogue);
      assert out[..6] == Header + Prologue;
      assert out[|out| - 3..] == Epilogue;
    }
  }
}
