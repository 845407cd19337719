/** A small abstract machine for the instructions codegen.c emits, and a
    reference evaluator for expressions; together they state that the
    emitted code computes what the tree means.  Registers hold mathematical
    integers; memory is addressed relative to `rbp`, taken as address 0, and
    the stack of `push`/`pop` is a sequence of its own. */
module Machine {
  import opened Wrappers
  import opened Ast
  import opened CodeGen
  import opened CodeGenProps

  /** `rax`, `rdi`, the values pushed, the frame memory and the operands of
      the last `cmp`. */
  datatype State = State(rax: int, rdi: int, stack: seq<int>, mem: map<int, int>, flags: (int, int))

  function Abs(x: int): nat {
    if x < 0 then -x else x
  }

  /** Division as C and `idiv` do it: the quotient is truncated toward zero. */
  function TruncDiv(a: int, b: int): int
    requires b != 0
  {
    var m := Abs(a) / Abs(b);
    if (a < 0) == (b < 0) then m else -m
  }

  /** The quotient times the divisor lies between 0 and the dividend, and
      misses it by less than the divisor: the characterisation of division
      rounding toward zero, which Euclidean division does not meet for a
      negative dividend. */
  lemma TruncDivSpec(a: int, b: int)
    requires b != 0
    ensures var p := TruncDiv(a, b) * b;
            && (a >= 0 ==> 0 <= p <= a)
            && (a < 0 ==> a <= p <= 0)
            && Abs(a - p) < Abs(b)
  {
    var m := Abs(a) / Abs(b);
    var pm := m * Abs(b);
    EuclidBounds(Abs(a), Abs(b));
    if (a < 0) == (b < 0) {
      SignedProduct(m, b, pm);
    } else {
      SignedProduct(-m, b, -pm);
    }
  }

  /** For non-negative operands Euclidean and truncating division agree. */
  lemma EuclidBounds(x: nat, y: nat)
    requires y > 0
    ensures 0 <= x / y && 0 <= (x / y) * y <= x && x - (x / y) * y < y
  {
  }

  /** `x * b` is `pm` or `-pm` according to the sign of `b`, where `pm` is `x`
      times the magnitude of `b`. */
  lemma SignedProduct(x: int, b: int, pm: int)
    requires b != 0 && pm == if x >= 0 then Abs(x) * Abs(b) else -(Abs(x) * Abs(b))
    ensures x * b == if b > 0 then pm else -pm
  {
  }

  /** Where C's division and Dafny's Euclidean `/` part ways.  Truncation
      is symmetric in the sign of either operand; for a positive divisor the
      two agree on a non-negative dividend, and on a negative one they agree
      exactly when the division is exact, truncation being one above
      otherwise (`-7 / 2` is `-3` in C and `-4` in Dafny). */
  lemma TruncDivVsEuclid(a: int, b: int)
    requires b != 0
    ensures TruncDiv(-a, b) == -TruncDiv(a, b) && TruncDiv(a, -b) == -TruncDiv(a, b)
    ensures a >= 0 && b > 0 ==> TruncDiv(a, b) == a / b
    ensures a < 0 && b > 0 ==> TruncDiv(a, b) == if a % b == 0 then a / b else a / b + 1
  {
    TruncDivSigns(a, b);
    if a < 0 && b > 0 {
      TruncDivNegative(a, b);
    }
  }

  lemma TruncDivSigns(a: int, b: int)
    requires b != 0
    ensures TruncDiv(-a, b) == -TruncDiv(a, b) && TruncDiv(a, -b) == -TruncDiv(a, b)
  {
    NegateDividend(a, b);
    NegateDivisor(a, b);
  }

  lemma NegateDividend(a: int, b: int)
    requires b != 0
    ensures TruncDiv(-a, b) == -TruncDiv(a, b)
  {
    if a == 0 {
      DivUnique(0, Abs(b), 0, 0);
    } else {
      assert Abs(-a) == Abs(a);
    }
  }

  lemma NegateDivisor(a: int, b: int)
    requires b != 0
    ensures TruncDiv(a, -b) == -TruncDiv(a, b)
  {
    assert Abs(-b) == Abs(b);
  }

  /** A negative dividend over a positive divisor: truncation rounds up,
      Euclidean division down. */
  lemma TruncDivNegative(a: int, b: int)
    requires a < 0 && b > 0
    ensures TruncDiv(a, b) == if a % b == 0 then a / b else a / b + 1
  {
    var q := (-a) / b;
    var r := (-a) % b;
    assert TruncDiv(a, b) == -q by {
      assert Abs(a) == -a && Abs(b) == b;
    }
    assert -a == q * b + r && 0 <= r < b;
    MulSub(0, q, b);
    assert a == (-q) * b - r;
    if r == 0 {
      DivUnique(a, b, -q, 0);
    } else {
      MulSub(-q, 1, b);
      DivUnique(a, b, -q - 1, b - r);
    }
  }

  /** Euclidean quotient and remainder are the only pair that rebuilds `a`
      with a remainder in `[0, b)`. */
  lemma DivUnique(a: int, b: int, q: int, r: int)
    requires b > 0 && a == q * b + r && 0 <= r < b
    ensures a / b == q && a % b == r
  {
    var q', r' := a / b, a % b;
    assert a == q' * b + r' && 0 <= r' < b;
    MulSub(q', q, b);
    assert (q' - q) * b == r - r';
    if q' > q {
      MulAtLeast(q' - q, b);
    } else if q' < q {
      MulSub(q, q', b);
      MulAtLeast(q - q', b);
    }
  }

  lemma MulSub(x: int, y: int, b: int)
    ensures (x - y) * b == x * b - y * b
  {
  }

  lemma MulAtLeast(d: int, b: int)
    requires d >= 1 && b > 0
    ensures d * b >= b
  {
    assert (d - 1) * b >= 0;
    MulSub(d, 1, b);
  }

  predicate Holds(c: Cond, flags: (int, int)) {
    match c
    case E => flags.0 == flags.1
    case NE => flags.0 != flags.1
    case L => flags.0 < flags.1
    case LE => flags.0 <= flags.1
  }

  /** The frame address of variable `n`'s slot. */
  function Addr(n: string): int
    requires IsSlotName(n)
  {
    -SlotOffset(n[0])
  }

  /** One instruction.  The frame set-up and tear-down, the directives and
      `ret` only move `rbp`/`rsp`, which this machine abstracts away;
      `cqo` only fills `rdx`, which is not modelled; `idiv` by zero traps. */
  function Step(i: Instr, s: State): Option<State> {
    match i
    case Directive(_) => Some(s)
    case PushRbp => Some(s)
    case MovRbpRsp => Some(s)
    case SubRsp(_) => Some(s)
    case MovRspRbp => Some(s)
    case PopRbp => Some(s)
    case Ret => Some(s)
    case MovImm(v) => Some(s.(rax := v))
    case LeaSlot(off) => Some(s.(rax := -off))
    case Load => if s.rax in s.mem then Some(s.(rax := s.mem[s.rax])) else None
    case Store => Some(s.(mem := s.mem[s.rdi := s.rax]))
    case PushRax => Some(s.(stack := s.stack + [s.rax]))
    case PopRdi =>
      if |s.stack| == 0 then None
      else Some(s.(rdi := s.stack[|s.stack| - 1], stack := s.stack[..|s.stack| - 1]))
    case AddRdi => Some(s.(rax := s.rax + s.rdi))
    case SubRdi => Some(s.(rax := s.rax - s.rdi))
    case IMulRdi => Some(s.(rax := s.rax * s.rdi))
    case Cqo => Some(s)
    case IDivRdi => if s.rdi == 0 then None else Some(s.(rax := TruncDiv(s.rax, s.rdi)))
    case CmpRdi => Some(s.(flags := (s.rax, s.rdi)))
    case SetCc(c) => Some(s.(rax := s.rax - s.rax % 256 + (if Holds(c, s.flags) then 1 else 0)))
    case MovzxAl => Some(s.(rax := s.rax % 256))
  }

  function Run(code: seq<Instr>, s: State): Option<State>
    decreases |code|
  {
    if |code| == 0 then Some(s)
    else
      match Step(code[0], s)
      case None => None
      case Some(t) => Run(code[1..], t)
  }

  /** Running `a` then `b` is running `a + b`. */
  lemma {:induction false} RunThen(a: seq<Instr>, b: seq<Instr>, s: State, t: State)
    requires Run(a, s) == Some(t)
    ensures Run(a + b, s) == Run(b, t)
    decreases |a|
  {
    if |a| == 0 {
      assert a + b == b;
    } else {
      assert (a + b)[0] == a[0] && (a + b)[1..] == a[1..] + b;
      RunThen(a[1..], b, Step(a[0], s).value, t);
    }
  }

  /** The composed form of `RunThen`, for two runs that both finish. */
  lemma RunSeq(a: seq<Instr>, b: seq<Instr>, s: State, t: State, u: State)
    requires Run(a, s) == Some(t) && Run(b, t) == Some(u)
    ensures Run(a + b, s) == Some(u)
  {
    RunThen(a, b, s, t);
  }

  /** The value of a binary node from its operands; `None` for a division by
      zero, where `idiv` traps. */
  function Apply(op: BinOp, a: int, b: int): Option<int> {
    match op
    case Add => Some(a + b)
    case Sub => Some(a - b)
    case Mul => Some(a * b)
    case Div => if b == 0 then None else Some(TruncDiv(a, b))
    case Eq => Some(if a == b then 1 else 0)
    case Ne => Some(if a != b then 1 else 0)
    case Lt => Some(if a < b then 1 else 0)
    case Le => Some(if a <= b then 1 else 0)
  }

  datatype Val = Val(v: int, env: map<string, int>)

  /** What an expression means: its value and the variables afterwards.  A
      binary node evaluates its right operand first, as the generated code
      does; reading a variable never assigned is undefined (`None`). */
  function Eval(e: Expr, env: map<string, int>): Option<Val>
    decreases e
  {
    match e
    case Num(v) => Some(Val(v, env))
    case Var(n) => if n in env then Some(Val(env[n], env)) else None
    case Assign(l, r) =>
      if !l.Var? then None
      else
        var x :- Eval(r, env);
        Some(Val(x.v, x.env[l.name := x.v]))
    case Binary(op, l, r) =>
      var y :- Eval(r, env);
      var x :- Eval(l, y.env);
      var v :- Apply(op, x.v, y.v);
      Some(Val(v, x.env))
  }

  /** The frame memory holds every variable of `env` in its slot. */
  predicate Agrees(mem: map<int, int>, env: map<string, int>) {
    forall n :: n in env && IsSlotName(n) ==> Addr(n) in mem && mem[Addr(n)] == env[n]
  }

  /** Storing to a slot and assigning its variable keep memory and
      variables in agreement, because distinct letters have distinct slots. */
  lemma AgreesStore(mem: map<int, int>, env: map<string, int>, x: string, v: int)
    requires Agrees(mem, env) && IsSlotName(x)
    ensures Agrees(mem[Addr(x) := v], env[x := v])
  {
    forall n | n in env[x := v] && IsSlotName(n)
      ensures Addr(n) in mem[Addr(x) := v] && mem[Addr(x) := v][Addr(n)] == env[x := v][n]
    {
      if n != x {
        SlotOffsetInjective(n[0], x[0]);
        assert n == [n[0]] && x == [x[0]];
      }
    }
  }

  /** The operator sequence leaves `Apply` of `rax` and `rdi` in `rax` and
      touches neither the stack nor memory; a comparison leaves exactly 0 or
      1, whatever `rax` held before. */
  lemma OpCodeCorrect(op: BinOp, s: State)
    requires Apply(op, s.rax, s.rdi).Some?
    ensures Run(OpCode(op), s).Some?
    ensures var t := Run(OpCode(op), s).value;
            t.rax == Apply(op, s.rax, s.rdi).value && t.stack == s.stack && t.mem == s.mem
  {
    if op.Div? {
      var t := s.(rax := TruncDiv(s.rax, s.rdi));
      RunOne(IDivRdi, s, t);
      RunCons(Cqo, [IDivRdi], s, s);
    } else if op.Add? || op.Sub? || op.Mul? {
      ArithCorrect(op, s);
    } else {
      CompareCorrect(op, s);
    }
  }

  lemma ArithCorrect(op: BinOp, s: State)
    requires op.Add? || op.Sub? || op.Mul?
    ensures Run(OpCode(op), s).Some?
    ensures var t := Run(OpCode(op), s).value;
            t.rax == Apply(op, s.rax, s.rdi).value && t.stack == s.stack && t.mem == s.mem
  {
    if op.Add? {
      RunOne(AddRdi, s, s.(rax := s.rax + s.rdi));
    } else if op.Sub? {
      RunOne(SubRdi, s, s.(rax := s.rax - s.rdi));
    } else {
      RunOne(IMulRdi, s, s.(rax := s.rax * s.rdi));
    }
  }

  /** A one-instruction sequence does what its instruction does. */
  lemma RunOne(i: Instr, s: State, t: State)
    requires Step(i, s) == Some(t)
    ensures Run([i], s) == Some(t)
  {
    RunCons(i, [], s, t);
    assert [i] + [] == [i];
  }

  lemma CompareCorrect(op: BinOp, s: State)
    requires !(op.Add? || op.Sub? || op.Mul? || op.Div?)
    ensures Run(OpCode(op), s).Some?
    ensures var t := Run(OpCode(op), s).value;
            t.rax == Apply(op, s.rax, s.rdi).value && t.stack == s.stack && t.mem == s.mem
  {
    var c := match op case Eq => E case Ne => NE case Lt => L case _ => LE;
    assert OpCode(op) == [CmpRdi, SetCc(c), MovzxAl];
    var bit := if Holds(c, (s.rax, s.rdi)) then 1 else 0;
    assert bit == Apply(op, s.rax, s.rdi).value;
    CompareRun(c, s);
    LowByte(s.rax, bit);
  }

  /** `cmp`, `set<cc>`, `movzx`: only `rax` and the flags change. */
  lemma CompareRun(c: Cond, s: State)
    ensures var t := s.(flags := (s.rax, s.rdi));
            var bit := if Holds(c, t.flags) then 1 else 0;
            Run([CmpRdi, SetCc(c), MovzxAl], s) == Some(t.(rax := (t.rax - t.rax % 256 + bit) % 256))
  {
    var t := s.(flags := (s.rax, s.rdi));
    var bit := if Holds(c, t.flags) then 1 else 0;
    var u := t.(rax := t.rax - t.rax % 256 + bit);
    var w := u.(rax := u.rax % 256);
    assert [CmpRdi, SetCc(c), MovzxAl] == [CmpRdi] + ([SetCc(c)] + [MovzxAl]);
    RunCons(MovzxAl, [], u, w);
    RunCons(SetCc(c), [MovzxAl], t, u);
    RunCons(CmpRdi, [SetCc(c)] + [MovzxAl], s, t);
  }

  /** Running one instruction and then the rest. */
  lemma RunCons(i: Instr, rest: seq<Instr>, s: State, t: State)
    requires Step(i, s) == Some(t)
    ensures Run([i] + rest, s) == Run(rest, t)
  {
    assert ([i] + rest)[0] == i && ([i] + rest)[1..] == rest;
  }

  /** After `set<cc> al` the low byte of `rax` is the condition bit. */
  lemma LowByte(x: int, bit: int)
    requires 0 <= bit <= 1
    ensures (x - x % 256 + bit) % 256 == bit
  {
    assert x - x % 256 == (x / 256) * 256;
  }

  /** A division whose divisor is 0 traps. */
  lemma DivByZeroTraps(s: State)
    requires s.rdi == 0
    ensures Run(OpCode(Div), s) == None
  {
  }

  /** The code of a lowerable tree, run where memory agrees with the
      variables, ends with the tree's value in `rax`, the stack as it was and
      memory agreeing with the variables after evaluation. */
  lemma {:induction false} GenExprCorrect(e: Expr, depth: int, s: State, env: map<string, int>)
    requires SlotNames(ExprVars(e)) && GenExpr(e, depth).Ok?
    requires Agrees(s.mem, env) && Eval(e, env).Some?
    ensures Run(GenExpr(e, depth).value.code, s).Some?
    ensures var t := Run(GenExpr(e, depth).value.code, s).value;
            t.rax == Eval(e, env).value.v && t.stack == s.stack && Agrees(t.mem, Eval(e, env).value.env)
    decreases e, 1
  {
    match e
    case Num(_) =>
    case Var(n) =>
      assert n in ExprVars(e);
      var t := s.(rax := Addr(n));
      assert Addr(n) in s.mem && s.mem[Addr(n)] == env[n];
      assert Run(GenExpr(e, depth).value.code, s) == Run([Load], t) == Some(t.(rax := env[n]));
    case Assign(l, r) =>
      assert l.name in ExprVars(e) && l == Var(l.name);
      GenAssignCorrect(l.name, r, depth, s, env);
    case Binary(op, l, r) =>
      GenBinaryCorrect(op, l, r, depth, s, env);
  }

  lemma {:induction false} GenAssignCorrect(x: string, r: Expr, depth: int, s: State, env: map<string, int>)
    requires IsSlotName(x) && SlotNames(ExprVars(r)) && SlotNames(ExprVars(Assign(Var(x), r)))
    requires GenExpr(Assign(Var(x), r), depth).Ok?
    requires Agrees(s.mem, env) && Eval(Assign(Var(x), r), env).Some?
    ensures Run(GenExpr(Assign(Var(x), r), depth).value.code, s).Some?
    ensures var t := Run(GenExpr(Assign(Var(x), r), depth).value.code, s).value;
            var w := Eval(Assign(Var(x), r), env).value;
            t.rax == w.v && t.stack == s.stack && Agrees(t.mem, w.env)
    decreases Assign(Var(x), r), 0
  {
    AssignLayout(x, r, depth);
    var vc := GenExpr(r, depth + 1).value.code;
    var off := SlotOffset(x[0]);
    var y := Eval(r, env).value;
    var s1 := s.(rax := -off, stack := s.stack + [-off]);
    AddressPush(off, s);
    GenExprCorrect(r, depth + 1, s1, env);
    var t := Run(vc, s1).value;
    var u := t.(rdi := -off, stack := s.stack, mem := t.mem[-off := t.rax]);
    PopStore(t, s.stack, -off);
    Run3([LeaSlot(off)] + [PushRax], vc, [PopRdi] + [Store], s, s1, t, u);
    AgreesStore(t.mem, y.env, x, y.v);
    assert Eval(Assign(Var(x), r), env) == Some(Val(y.v, y.env[x := y.v]));
  }

  /** The address of a slot, pushed. */
  lemma AddressPush(off: int, s: State)
    ensures Run([LeaSlot(off)] + [PushRax], s) == Some(s.(rax := -off, stack := s.stack + [-off]))
  {
    var s0 := s.(rax := -off);
    var s1 := s.(rax := -off, stack := s.stack + [-off]);
    assert Step(PushRax, s0) == Some(s1);
    RunOne(PushRax, s0, s1);
    RunCons(LeaSlot(off), [PushRax], s, s0);
  }

  /** The address popped into `rdi`, and the value stored there. */
  lemma PopStore(t: State, below: seq<int>, a: int)
    requires t.stack == below + [a]
    ensures Run([PopRdi] + [Store], t) == Some(t.(rdi := a, stack := below, mem := t.mem[a := t.rax]))
  {
    assert t.stack[..|t.stack| - 1] == below;
    var u := t.(rdi := a, stack := below);
    RunOne(Store, u, u.(mem := t.mem[a := t.rax]));
    RunCons(PopRdi, [Store], t, u);
  }

  /** Three runs in a row. */
  lemma Run3(a: seq<Instr>, b: seq<Instr>, c: seq<Instr>, s: State, t: State, u: State, w: State)
    requires Run(a, s) == Some(t) && Run(b, t) == Some(u) && Run(c, u) == Some(w)
    ensures Run(a + b + c, s) == Some(w)
  {
    RunSeq(a, b, s, t, u);
    RunSeq(a + b, c, s, u, w);
  }

  lemma {:induction false} GenBinaryCorrect(op: BinOp, l: Expr, r: Expr, depth: int, s: State, env: map<string, int>)
    requires SlotNames(ExprVars(Binary(op, l, r)))
    requires GenExpr(Binary(op, l, r), depth).Ok?
    requires Agrees(s.mem, env) && Eval(Binary(op, l, r), env).Some?
    ensures Run(GenExpr(Binary(op, l, r), depth).value.code, s).Some?
    ensures var t := Run(GenExpr(Binary(op, l, r), depth).value.code, s).value;
            var w := Eval(Binary(op, l, r), env).value;
            t.rax == w.v && t.stack == s.stack && Agrees(t.mem, w.env)
    decreases Binary(op, l, r), 0
  {
    BinaryLayout(op, l, r, depth);
    var rc := GenExpr(r, depth).value.code;
    var lc := GenExpr(l, depth + 1).value.code;
    var y := Eval(r, env).value;
    GenExprCorrect(r, depth, s, env);
    var t1 := Run(rc, s).value;
    var t2 := t1.(stack := s.stack + [t1.rax]);
    GenExprCorrect(l, depth + 1, t2, y.env);
    var x := Eval(l, y.env).value;
    BinaryRun(op, rc, lc, s, t1, Run(lc, t2).value);
    assert Eval(Binary(op, l, r), env) == Some(Val(Apply(op, x.v, y.v).value, x.env));
  }

  /** The machine half of a binary node: right operand, `push`, left
      operand, `pop rdi`, operator. */
  lemma BinaryRun(op: BinOp, rc: seq<Instr>, lc: seq<Instr>, s: State, t1: State, t3: State)
    requires Run(rc, s) == Some(t1) && t1.stack == s.stack
    requires Run(lc, t1.(stack := s.stack + [t1.rax])) == Some(t3) && t3.stack == s.stack + [t1.rax]
    requires Apply(op, t3.rax, t1.rax).Some?
    ensures Run(rc + [PushRax] + lc + [PopRdi] + OpCode(op), s).Some?
    ensures var t := Run(rc + [PushRax] + lc + [PopRdi] + OpCode(op), s).value;
            t.rax == Apply(op, t3.rax, t1.rax).value && t.stack == s.stack && t.mem == t3.mem
  {
    var t2 := t1.(stack := s.stack + [t1.rax]);
    var t4 := t3.(rdi := t1.rax, stack := s.stack);
    RunCons(PushRax, [], t1, t2);
    RunThen(rc, [PushRax], s, t1);
    RunThen(rc + [PushRax], lc, s, t2);
    assert t3.stack[..|t3.stack| - 1] == s.stack;
    RunCons(PopRdi, [], t3, t4);
    RunThen(rc + [PushRax] + lc, [PopRdi], s, t3);
    RunThen(rc + [PushRax] + lc + [PopRdi], OpCode(op), s, t4);
    OpCodeCorrect(op, t4);
  }

  /** What a statement list means: each expression statement in turn, the
      value of the last one being what `rax` holds at `ret`; `v` is the value
      `rax` held before the first.  Any other statement has no meaning here,
      as it has no code. */
  function Exec(ss: seq<Stmt>, v: int, env: map<string, int>): Option<Val>
    decreases |ss|
  {
    if |ss| == 0 then Some(Val(v, env))
    else if !ss[0].ExprStmt? then None
    else
      var x :- Eval(ss[0].expr, env);
      Exec(ss[1..], x.v, x.env)
  }

  /** The code of a statement list computes `Exec`, statement by statement. */
  lemma {:induction false} GenStmtsCorrect(ss: seq<Stmt>, s: State, env: map<string, int>)
    requires SlotNames(ListVars(ss)) && GenStmts(ss, 0).Ok?
    requires Agrees(s.mem, env) && Exec(ss, s.rax, env).Some?
    ensures Run(GenStmts(ss, 0).value, s).Some?
    ensures var t := Run(GenStmts(ss, 0).value, s).value;
            var w := Exec(ss, s.rax, env).value;
            t.rax == w.v && t.stack == s.stack && Agrees(t.mem, w.env)
    decreases |ss|
  {
    if |ss| == 0 {
      assert Run([], s) == Some(s);
    } else {
      ListVarsSplit(ss);
      var e := ss[0].expr;
      var code := GenExpr(e, 0).value.code;
      var rest := GenStmts(ss[1..], 0).value;
      assert GenStmts(ss, 0).value == code + rest;
      var x := Eval(e, env).value;
      GenExprCorrect(e, 0, s, env);
      var t := Run(code, s).value;
      GenStmtsCorrect(ss[1..], t, x.env);
      RunThen(code, rest, s, t);
    }
  }

  /** The header, the prologue and the epilogue do not touch what this
      machine observes. */
  lemma FrameRun(s: State)
    ensures Run(Header + Prologue, s) == Some(s)
    ensures Run(Epilogue, s) == Some(s)
  {
    assert Header + Prologue == [Directive(".intel_syntax noprefix")] + ([Directive(".global _main")]
      + ([Directive("_main:")] + ([PushRbp] + ([MovRbpRsp] + [SubRsp(FrameSize)]))));
    RunOne(SubRsp(FrameSize), s, s);
    RunCons(MovRbpRsp, [SubRsp(FrameSize)], s, s);
    RunCons(PushRbp, [MovRbpRsp] + [SubRsp(FrameSize)], s, s);
    RunCons(Directive("_main:"), [PushRbp] + ([MovRbpRsp] + [SubRsp(FrameSize)]), s, s);
    RunCons(Directive(".global _main"), [Directive("_main:")] + ([PushRbp] + ([MovRbpRsp] + [SubRsp(FrameSize)])), s, s);
    RunCons(Directive(".intel_syntax noprefix"), [Directive(".global _main")]
      + ([Directive("_main:")] + ([PushRbp] + ([MovRbpRsp] + [SubRsp(FrameSize)]))), s, s);
    assert Epilogue == [MovRspRbp] + ([PopRbp] + [Ret]);
    RunOne(Ret, s, s);
    RunCons(PopRbp, [Ret], s, s);
    RunCons(MovRspRbp, [PopRbp] + [Ret], s, s);
  }

  /** The whole program: started on a fresh frame, where no variable has a
      value yet, the emitted function returns in `rax` the value of the last
      statement, with the stack as it found it, whenever the statements have
      a meaning; with no statements it returns what `rax` held. */
  lemma CodegenCorrect(ss: seq<Stmt>, s: State)
    requires SlotNames(ListVars(ss)) && Codegen(ss).Ok?
    requires Exec(ss, s.rax, map[]).Some?
    ensures Run(Codegen(ss).value, s).Some?
    ensures Run(Codegen(ss).value, s).value.rax == Exec(ss, s.rax, map[]).value.v
    ensures Run(Codegen(ss).value, s).value.stack == s.stack
  {
    var body := GenStmts(ss, 0).value;
    GenStmtsCorrect(ss, s, map[]);
    var t := Run(body, s).value;
    FrameRun(s);
    FrameRun(t);
    RunSeq(Header + Prologue, body, s, s, t);
    RunSeq(Header + Prologue + body, Epilogue, s, t, t);
  }
}
