/** Expressions over frame fields and their postfix bytecode.

    The compiler emits one comparison or one range of this layout; the machine itself runs all of it,
    blocks that FORWARD and TAG jump over included (src/routing/route_vm.c:33-85). The theorem is exact:
    the code of an expression leaves its value if and only if the 64 slots suffice, wherever it lies.
    The opcodes stand here as the numbers of include/ipmb/routing/route_vm.h:6-20.
 */
module RuleExpressions {
  import opened Bytes
  import opened Frames
  import opened RouteVm
  import opened RuleBytecode
  import opened Wrappers

  datatype Comparison = Equal | Greater | Less

  type Skipped = s: seq<byte> | |s| < 0x100

  datatype Expr =
    | Field(id: byte)
    | Number(value: int32)
    | Compare(op: Comparison, left: Expr, right: Expr)
    | Between(operand: Expr, low: Expr, high: Expr)
    | And(left: Expr, right: Expr)
    | Or(left: Expr, right: Expr)
    | Not(operand: Expr)
    | Jump(tag: bool, skipped: Skipped, next: Expr)

  function Truth(b: bool): int32 { if b then 1 else 0 }

  /** The value of an expression: conditions are 1 or 0, and any value but 0 counts as true. */
  function Eval(e: Expr, f: Frame): int32 {
    match e
    case Field(id) => LoadField(f, id)
    case Number(v) => v
    case Compare(Equal, l, r) => Truth(Eval(l, f) == Eval(r, f))
    case Compare(Greater, l, r) => Truth(Eval(l, f) > Eval(r, f))
    case Compare(Less, l, r) => Truth(Eval(l, f) < Eval(r, f))
    case Between(x, low, high) => Truth(Eval(low, f) <= Eval(x, f) <= Eval(high, f))
    case And(l, r) => Truth(Eval(l, f) != 0 && Eval(r, f) != 0)
    case Or(l, r) => Truth(Eval(l, f) != 0 || Eval(r, f) != 0)
    case Not(x) => Truth(Eval(x, f) == 0)
    case Jump(_, _, x) => Eval(x, f)
  }

  /** The kind of value it leaves, a Boolean or a plain number. */
  predicate IsCondition(e: Expr) {
    match e
    case Field(_) => false
    case Number(_) => false
    case Jump(_, _, x) => IsCondition(x)
    case _ => true
  }

  function Result(e: Expr, f: Frame): Value {
    Value(Eval(e, f), IsCondition(e))
  }

  function Opcode(op: Comparison): byte {
    match op
    case Equal => 4
    case Greater => 5
    case Less => 6
  }

  function LoadCode(field: byte): seq<byte> {
    [3, field]
  }

  function PushCode(value: int32): seq<byte> {
    [1] + Le32(ToUint32(value))
  }

  function CodeOf(e: Expr): (code: seq<byte>) {
    match e
    case Field(id) => LoadCode(id)
    case Number(v) => PushCode(v)
    case Compare(op, l, r) => CodeOf(l) + CodeOf(r) + [Opcode(op)]
    case Between(x, low, high) => CodeOf(x) + (CodeOf(low) + (CodeOf(high) + [7, 8]))
    case And(l, r) => CodeOf(l) + CodeOf(r) + [8]
    case Or(l, r) => CodeOf(l) + CodeOf(r) + [9]
    case Not(x) => CodeOf(x) + [10]
    case Jump(tag, skipped, x) => [if tag then 12 else 11, |skipped|] + (skipped + CodeOf(x))
  }

  /** The stack slots an expression needs. RANGE insists on a free slot above its three operands. */
  function Slots(e: Expr): (n: nat)
    ensures n > 0
  {
    match e
    case Field(_) => 1
    case Number(_) => 1
    case Compare(_, l, r) => Deeper(Slots(l), 1 + Slots(r))
    case Between(x, low, high) => Deeper(Deeper(Slots(x), 1 + Slots(low)), Deeper(2 + Slots(high), 4))
    case And(l, r) => Deeper(Slots(l), 1 + Slots(r))
    case Or(l, r) => Deeper(Slots(l), 1 + Slots(r))
    case Not(x) => Slots(x)
    case Jump(_, _, x) => Slots(x)
  }

  function Deeper(a: nat, b: nat): nat {
    if a >= b then a else b
  }

  // ----- single instructions -----

  lemma {:induction false} RunLoad(code: seq<byte>, f: Frame, pc: nat, st: seq<Value>, id: byte)
    requires |st| <= STACK_SLOTS && At(code, pc, LoadCode(id))
    ensures if |st| < STACK_SLOTS
            then Run(code, f, pc, st) == Run(code, f, pc + 2, st + [Value(LoadField(f, id), false)])
            else Run(code, f, pc, st) == Failed
  {
    hide LoadField;
    assert code[pc..pc + 2][0] == OP_LOAD_FIELD && code[pc..pc + 2][1] == id;
  }

  lemma {:induction false} RunPush(code: seq<byte>, f: Frame, pc: nat, st: seq<Value>, v: int32)
    requires |st| <= STACK_SLOTS && At(code, pc, PushCode(v))
    ensures if |st| < STACK_SLOTS
            then Run(code, f, pc, st) == Run(code, f, pc + 5, st + [Value(v, false)])
            else Run(code, f, pc, st) == Failed
  {
    hide Le32, LoadLe32, LoadField, Operate;
    AtParts(code, pc, [1], Le32(ToUint32(v)));
    AtByte(code, pc, 1);
    LoadStored32(ToUint32(v), code, pc + 1);
  }

  lemma {:induction false} RunOperator(code: seq<byte>, f: Frame, pc: nat, st: seq<Value>, op: byte)
    requires |st| <= STACK_SLOTS && IsOperator(op) && At(code, pc, [op])
    ensures Operate(op, st).Some? ==> Run(code, f, pc, st) == Run(code, f, pc + 1, Operate(op, st).value)
    ensures Operate(op, st).None? ==> Run(code, f, pc, st) == Failed
  {
    hide LoadField, Operate;
    AtByte(code, pc, op);
  }

  lemma {:induction false} OperatePair(op: byte, st: seq<Value>, a: Value, b: Value)
    requires IsOperator(op) && op != OP_RANGE && op != OP_NOT && |st| + 2 <= STACK_SLOTS
    ensures Operate(op, st + [a] + [b]) == Some(st + [Bool(Binary(op, a, b))])
  {
    var s := st + [a] + [b];
    assert s[..|s| - 2] == st && s[|s| - 2] == a && s[|s| - 1] == b;
    hide Binary;
  }

  lemma {:induction false} OperateRange(st: seq<Value>, v: Value, low: Value, high: Value)
    requires |st| + 3 <= STACK_SLOTS
    ensures Operate(OP_RANGE, st + [v] + [low] + [high]) ==
            if |st| + 3 < STACK_SLOTS then Some(st + [Bool(v.i >= low.i)] + [Bool(v.i <= high.i)]) else None
  {
    var s := st + [v] + [low] + [high];
    assert s[..|s| - 3] == st && s[|s| - 3] == v && s[|s| - 2] == low && s[|s| - 1] == high;
    assert st + [Bool(v.i >= low.i)] + [Bool(v.i <= high.i)] == st + [Bool(v.i >= low.i), Bool(v.i <= high.i)];
  }

  lemma {:induction false} OperateNot(st: seq<Value>, a: Value)
    requires |st| < STACK_SLOTS
    ensures Operate(10, st + [a]) == Some(st + [Bool(a.i == 0)])
  {
    assert (st + [a])[..|st|] == st;
  }

  /** FORWARD and TAG go on behind the bytes they count, which may be behind the end of the code. */
  lemma {:induction false} RunJump(code: seq<byte>, f: Frame, pc: nat, st: seq<Value>, op: byte, n: byte)
    requires |st| <= STACK_SLOTS && (op == 11 || op == 12) && At(code, pc, [op, n])
    ensures Run(code, f, pc, st) == Run(code, f, pc + 2 + n, st)
  {
    hide LoadField, Operate, LoadLe32;
    assert code[pc..pc + 2][0] == op && code[pc..pc + 2][1] == n;
  }

  // ----- the machine computes the value -----

  /** What running `e` at `pc` on top of `st` must do. */
  ghost predicate Computes(code: seq<byte>, f: Frame, pc: nat, st: seq<Value>, e: Expr)
    requires |st| <= STACK_SLOTS
  {
    if |st| + Slots(e) <= STACK_SLOTS
    then |st| < STACK_SLOTS && Run(code, f, pc, st) == Run(code, f, pc + |CodeOf(e)|, st + [Result(e, f)])
    else Run(code, f, pc, st) == Failed
  }

  lemma {:induction false} RunExpr(code: seq<byte>, f: Frame, pc: nat, st: seq<Value>, e: Expr)
    requires |st| <= STACK_SLOTS && At(code, pc, CodeOf(e))
    ensures Computes(code, f, pc, st, e)
    decreases e
  {
    hide Run, Operate, LoadField, At, Computes, CodeOf, Slots, Eval;
    match e
    case Field(id) => RunField(code, f, pc, st, id);
    case Number(v) => RunNumber(code, f, pc, st, v);
    case Compare(op, l, r) => RunPair(code, f, pc, st, e, l, r, Opcode(op));
    case Between(x, low, high) => RunBetween(code, f, pc, st, x, low, high);
    case And(l, r) => RunPair(code, f, pc, st, e, l, r, 8);
    case Or(l, r) => RunPair(code, f, pc, st, e, l, r, 9);
    case Not(x) => RunNot(code, f, pc, st, x);
    case Jump(tag, skipped, x) => RunSkipped(code, f, pc, st, tag, skipped, x);
  }

  lemma {:induction false} RunField(code: seq<byte>, f: Frame, pc: nat, st: seq<Value>, id: byte)
    requires |st| <= STACK_SLOTS && At(code, pc, CodeOf(Field(id)))
    ensures Computes(code, f, pc, st, Field(id))
  {
    hide Run, LoadField, At;
    RunLoad(code, f, pc, st, id);
  }

  lemma {:induction false} RunNumber(code: seq<byte>, f: Frame, pc: nat, st: seq<Value>, v: int32)
    requires |st| <= STACK_SLOTS && At(code, pc, CodeOf(Number(v)))
    ensures Computes(code, f, pc, st, Number(v))
  {
    hide Run, LoadField, At;
    RunPush(code, f, pc, st, v);
  }

  /** One operand's code with NOT behind it. */
  lemma {:induction false} RunNot(code: seq<byte>, f: Frame, pc: nat, st: seq<Value>, x: Expr)
    requires |st| <= STACK_SLOTS && At(code, pc, CodeOf(Not(x)))
    ensures Computes(code, f, pc, st, Not(x))
    decreases Not(x), 0
  {
    hide Run, Operate, LoadField, At;
    AtParts(code, pc, CodeOf(x), [10]);
    RunExpr(code, f, pc, st, x);
    if |st| + Slots(x) <= STACK_SLOTS {
      RunOperator(code, f, pc + |CodeOf(x)|, st + [Result(x, f)], 10);
      OperateNot(st, Result(x, f));
    }
  }

  /** A jump over bytes that are never looked at, and the code behind them. */
  lemma {:induction false} RunSkipped(code: seq<byte>, f: Frame, pc: nat, st: seq<Value>,
      tag: bool, skipped: Skipped, x: Expr)
    requires |st| <= STACK_SLOTS && At(code, pc, CodeOf(Jump(tag, skipped, x)))
    ensures Computes(code, f, pc, st, Jump(tag, skipped, x))
    decreases Jump(tag, skipped, x), 0
  {
    hide Run, LoadField, At;
    var op := if tag then 12 else 11;
    AtParts(code, pc, [op, |skipped|], skipped + CodeOf(x));
    AtParts(code, pc + 2, skipped, CodeOf(x));
    RunJump(code, f, pc, st, op, |skipped|);
    RunExpr(code, f, pc + 2 + |skipped|, st, x);
  }

  lemma {:induction false} RunPair(code: seq<byte>, f: Frame, pc: nat, st: seq<Value>,
      e: Expr, l: Expr, r: Expr, op: byte)
    requires |st| <= STACK_SLOTS && At(code, pc, CodeOf(e))
    requires (e.Compare? && e == Compare(e.op, l, r) && op == Opcode(e.op)) ||
             (e == And(l, r) && op == 8) || (e == Or(l, r) && op == 9)
    ensures Computes(code, f, pc, st, e)
    decreases e, 2
  {
    hide Run, LoadField, At, Deeper;
    RunOperands(code, f, pc, st, e, l, r, op);
  }

  /** Two operands' code, one after the other. */
  lemma {:induction false} RunTwo(code: seq<byte>, f: Frame, pc: nat, st: seq<Value>, e: Expr, l: Expr, r: Expr)
    requires |st| <= STACK_SLOTS && At(code, pc, CodeOf(l)) && At(code, pc + |CodeOf(l)|, CodeOf(r)) && l < e && r < e
    ensures
      if |st| + Deeper(Slots(l), 1 + Slots(r)) <= STACK_SLOTS
      then |st| + 2 <= STACK_SLOTS &&
           Run(code, f, pc, st) == Run(code, f, pc + |CodeOf(l)| + |CodeOf(r)|, st + [Result(l, f)] + [Result(r, f)])
      else Run(code, f, pc, st) == Failed
    decreases e, 0
  {
    hide Run, Operate, LoadField, At, CodeOf, Slots, Result;
    RunExpr(code, f, pc, st, l);
    if |st| + Slots(l) <= STACK_SLOTS {
      RunExpr(code, f, pc + |CodeOf(l)|, st + [Result(l, f)], r);
    }
  }

  /** Two operands' code with a comparison, AND or OR behind it. */
  lemma {:induction false} RunOperands(code: seq<byte>, f: Frame, pc: nat, st: seq<Value>,
      e: Expr, l: Expr, r: Expr, op: byte)
    requires |st| <= STACK_SLOTS && At(code, pc, CodeOf(l) + CodeOf(r) + [op])
    requires IsOperator(op) && op != 7 && op != 10 && l < e && r < e
    ensures
      if |st| + Deeper(Slots(l), 1 + Slots(r)) <= STACK_SLOTS
      then |st| < STACK_SLOTS &&
           Run(code, f, pc, st) == Run(code, f, pc + |CodeOf(l)| + |CodeOf(r)| + 1,
             st + [Bool(Binary(op, Result(l, f), Result(r, f)))])
      else Run(code, f, pc, st) == Failed
    decreases e, 1
  {
    hide Run, Operate, LoadField, At, CodeOf, Slots, Result, Binary, Deeper;
    AtParts(code, pc, CodeOf(l) + CodeOf(r), [op]);
    AtParts(code, pc, CodeOf(l), CodeOf(r));
    RunTwo(code, f, pc, st, e, l, r);
    if |st| + Deeper(Slots(l), 1 + Slots(r)) <= STACK_SLOTS {
      RunOperator(code, f, pc + |CodeOf(l)| + |CodeOf(r)|, st + [Result(l, f)] + [Result(r, f)], op);
      OperatePair(op, st, Result(l, f), Result(r, f));
    }
  }

  /** Three operands' code with RANGE and AND behind it. */
  lemma {:induction false} RunBetween(code: seq<byte>, f: Frame, pc: nat, st: seq<Value>,
      x: Expr, low: Expr, high: Expr)
    requires |st| <= STACK_SLOTS && At(code, pc, CodeOf(Between(x, low, high)))
    ensures Computes(code, f, pc, st, Between(x, low, high))
    decreases Between(x, low, high), 2
  {
    hide Run, LoadField, At;
    RunThree(code, f, pc, st, Between(x, low, high), x, low, high);
    if |st| + Deeper(Deeper(Slots(x), 1 + Slots(low)), 2 + Slots(high)) <= STACK_SLOTS {
      var end := pc + |CodeOf(x)| + |CodeOf(low)| + |CodeOf(high)|;
      RunRange(code, f, end, st, Result(x, f), Result(low, f), Result(high, f));
    }
  }

  lemma {:induction false} RunThree(code: seq<byte>, f: Frame, pc: nat, st: seq<Value>,
      e: Expr, x: Expr, low: Expr, high: Expr)
    requires |st| <= STACK_SLOTS && At(code, pc, CodeOf(x) + (CodeOf(low) + (CodeOf(high) + [7, 8])))
    requires x < e && low < e && high < e
    ensures At(code, pc + |CodeOf(x)| + |CodeOf(low)| + |CodeOf(high)|, [7, 8])
    ensures
      if |st| + Deeper(Deeper(Slots(x), 1 + Slots(low)), 2 + Slots(high)) <= STACK_SLOTS
      then |st| + 3 <= STACK_SLOTS &&
           Run(code, f, pc, st) == Run(code, f, pc + |CodeOf(x)| + |CodeOf(low)| + |CodeOf(high)|,
             st + [Result(x, f)] + [Result(low, f)] + [Result(high, f)])
      else Run(code, f, pc, st) == Failed
    decreases e, 1
  {
    hide Run, Operate, LoadField, At, CodeOf, Slots, Result;
    var p1 := pc + |CodeOf(x)|;
    var p2 := p1 + |CodeOf(low)|;
    AtParts(code, pc, CodeOf(x), CodeOf(low) + (CodeOf(high) + [7, 8]));
    AtParts(code, p1, CodeOf(low), CodeOf(high) + [7, 8]);
    AtParts(code, p2, CodeOf(high), [7, 8]);
    RunTwo(code, f, pc, st, e, x, low);
    if |st| + Deeper(Slots(x), 1 + Slots(low)) <= STACK_SLOTS {
      RunExpr(code, f, p2, st + [Result(x, f)] + [Result(low, f)], high);
    }
  }

  lemma {:induction false} RunRange(code: seq<byte>, f: Frame, pc: nat, st: seq<Value>,
      v: Value, low: Value, high: Value)
    requires |st| + 3 <= STACK_SLOTS && At(code, pc, [7, 8])
    ensures Run(code, f, pc, st + [v] + [low] + [high]) ==
      if |st| + 4 <= STACK_SLOTS then Run(code, f, pc + 2, st + [Bool(low.i <= v.i <= high.i)]) else Failed
  {
    hide Run, Operate, LoadField;
    assert [7, 8] == [7] + [8];
    AtParts(code, pc, [7], [8]);
    RunOperator(code, f, pc, st + [v] + [low] + [high], 7);
    OperateRange(st, v, low, high);
    if |st| + 4 <= STACK_SLOTS {
      RunOperator(code, f, pc + 1, st + [Bool(v.i >= low.i)] + [Bool(v.i <= high.i)], 8);
      OperatePair(8, st, Bool(v.i >= low.i), Bool(v.i <= high.i));
    }
  }

  /** A whole program: the verdict is whether the value is other than 0, exactly when the slots
      suffice; otherwise the machine reports an evaluation error. Bytes after END never matter. */
  lemma {:induction false} ProgramDecides(e: Expr, f: Frame, rest: seq<byte>)
    ensures Run(CodeOf(e) + [13] + rest, f, 0, []) ==
            if Slots(e) <= STACK_SLOTS then Ended(Eval(e, f) != 0) else Failed
  {
    hide LoadField, Operate, CodeOf, Eval, Slots;
    var code := CodeOf(e) + [13] + rest;
    assert At(code, 0, CodeOf(e));
    RunExpr(code, f, 0, [], e);
    assert code[|CodeOf(e)|] == 13;
    if Slots(e) <= STACK_SLOTS {
      RunSteps(code, f, |CodeOf(e)|, [] + [Result(e, f)]);
    }
  }
}
