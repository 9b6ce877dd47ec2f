/** The stack machine that evaluates routing bytecode (src/routing/route_vm.c). */
module RouteVm {
  import opened Bytes
  import opened Frames
  import opened RuleBytecode
  import opened Wrappers

  const STACK_SLOTS: nat := 64

  datatype Value = Value(i: int32, isBool: bool)

  function Bool(b: bool): Value {
    Value(if b then 1 else 0, true)
  }

  function LoadField(f: Frame, id: byte): int32 {
    match id
    case 1 => f.frameType
    case 2 => f.frameFlags
    case 3 => ToInt32(f.sourceAddr)
    case 4 => ToInt32(f.destAddr)
    case 5 => f.priority
    case 6 => f.ttl
    case 7 => Wrap32(f.payloadLen)
    case _ => 0
  }

  /** The machine between two instructions, or how it stopped. */
  datatype Machine =
    | Running(pc: nat, stack: seq<Value>)
    | Ended(matched: bool)
    | Failed

  predicate Truthy(v: Value) { v.i != 0 }

  predicate IsOperator(op: byte) {
    OP_CMP_EQ <= op <= OP_NOT
  }

  /** An operator's effect on the stack, whose end is its top; `None` when the machine rejects it. */
  function Operate(op: byte, stack: seq<Value>): (r: Option<seq<Value>>)
    requires IsOperator(op) && |stack| <= STACK_SLOTS
    ensures r.Some? ==> |r.value| <= STACK_SLOTS
  {
    var sp := |stack|;
    if op == OP_RANGE then
      if sp < 3 || sp >= STACK_SLOTS then None
      else
        var value, low, high := stack[sp - 3].i, stack[sp - 2].i, stack[sp - 1].i;
        Some(stack[..sp - 3] + [Bool(value >= low), Bool(value <= high)])
    else if op == OP_NOT then
      if sp < 1 then None else Some(stack[..sp - 1] + [Bool(!Truthy(stack[sp - 1]))])
    else
      if sp < 2 then None else Some(stack[..sp - 2] + [Bool(Binary(op, stack[sp - 2], stack[sp - 1]))])
  }

  predicate Binary(op: byte, a: Value, b: Value)
    requires IsOperator(op)
  {
    if op == OP_CMP_EQ then a.i == b.i
    else if op == OP_CMP_GT then a.i > b.i
    else if op == OP_CMP_LT then a.i < b.i
    else if op == OP_AND then Truthy(a) && Truthy(b)
    else Truthy(a) || Truthy(b)
  }

  /** One instruction. */
  function Step(code: seq<byte>, f: Frame, pc: nat, stack: seq<Value>): (m: Machine)
    requires pc < |code| && |stack| <= STACK_SLOTS
    ensures m.Running? ==> m.pc > pc && |m.stack| <= STACK_SLOTS
  {
    var op, sp := code[pc], |stack|;
    var pc := pc + 1;
    if op == OP_PUSH_INT then
      if pc + 4 > |code| || sp >= STACK_SLOTS then Failed
      else Running(pc + 4, stack + [Value(ToInt32(LoadLe32(code, pc)), false)])
    else if op == OP_LOAD_FIELD then
      if pc >= |code| || sp >= STACK_SLOTS then Failed
      else Running(pc + 1, stack + [Value(LoadField(f, code[pc]), false)])
    else if IsOperator(op) then
      match Operate(op, stack)
      case Some(s) => Running(pc, s)
      case None => Failed
    else if op == OP_FORWARD || op == OP_TAG then
      if pc >= |code| then Failed else Running(pc + code[pc] + 1, stack)
    else if op == OP_END then
      if sp == 0 then Failed else Ended(Truthy(stack[sp - 1]))
    else Failed
  }

  /** Runs to a stop: running off the end of the code fails. */
  function Run(code: seq<byte>, f: Frame, pc: nat, stack: seq<Value>): (m: Machine)
    requires |stack| <= STACK_SLOTS
    ensures !m.Running?
    decreases if pc < |code| then |code| - pc else 0
  {
    if pc >= |code| then Failed
    else
      var m := Step(code, f, pc, stack);
      if m.Running? then Run(code, f, m.pc, m.stack) else m
  }

  /** Whether the program accepts the frame. */
  predicate Matches(code: seq<byte>, f: Frame) {
    Run(code, f, 0, []) == Ended(true)
  }

  /** The status and the `*matched` flag of a finished run. */
  function Verdict(m: Machine): (Status, bool) {
    match m
    case Ended(b) => (OK, b)
    case _ => (Eval, false)
  }

  /** The RANGE branch: three values are popped and two pushed. */
  method RangeInPlace(stack: array<Value>, height: nat) returns (ok: bool, sp: nat)
    requires stack.Length == STACK_SLOTS && height <= STACK_SLOTS
    modifies stack
    ensures sp <= STACK_SLOTS
    ensures Operate(OP_RANGE, old(stack[..height])) == if ok then Some(stack[..sp]) else None
  {
    ghost var live := stack[..height];
    sp := height;
    ok := true;
    if sp < 3 || sp >= 64 { return false, sp; }
    sp := sp - 1;
    var high := stack[sp];
    sp := sp - 1;
    var low := stack[sp];
    sp := sp - 1;
    var value := stack[sp];
    stack[sp] := Bool(value.i >= low.i);
    sp := sp + 1;
    stack[sp] := Bool(value.i <= high.i);
    sp := sp + 1;
    assert stack[..sp] == live[..height - 3] + [Bool(value.i >= low.i), Bool(value.i <= high.i)];
  }

  /** The comparison branch: the right operand is on top. */
  method CompareInPlace(op: byte, stack: array<Value>, height: nat) returns (ok: bool, sp: nat)
    requires OP_CMP_EQ <= op <= OP_CMP_LT && stack.Length == STACK_SLOTS && height <= STACK_SLOTS
    modifies stack
    ensures sp <= STACK_SLOTS
    ensures Operate(op, old(stack[..height])) == if ok then Some(stack[..sp]) else None
  {
    ghost var live := stack[..height];
    sp := height;
    ok := true;
    if sp < 2 { return false, sp; }
    sp := sp - 1;
    var rhs := stack[sp];
    sp := sp - 1;
    var lhs := stack[sp];
    var holds := if op == OP_CMP_EQ then lhs.i == rhs.i else if op == OP_CMP_GT then lhs.i > rhs.i else lhs.i < rhs.i;
    stack[sp] := Bool(holds);
    sp := sp + 1;
    assert stack[..sp] == live[..height - 2] + [Bool(holds)];
  }

  /** The operator branches of the loop, popping and pushing in place. */
  method OperateInPlace(op: byte, stack: array<Value>, height: nat) returns (ok: bool, sp: nat)
    requires IsOperator(op) && stack.Length == STACK_SLOTS && height <= STACK_SLOTS
    modifies stack
    ensures sp <= STACK_SLOTS
    ensures Operate(op, old(stack[..height])) == if ok then Some(stack[..sp]) else None
  {
    ghost var live := stack[..height];
    sp := height;
    ok := true;
    if op == OP_CMP_EQ || op == OP_CMP_GT || op == OP_CMP_LT {
      ok, sp := CompareInPlace(op, stack, sp);
    } else if op == OP_RANGE {
      ok, sp := RangeInPlace(stack, sp);
    } else if op == OP_AND || op == OP_OR {
      if sp < 2 { return false, sp; }
      sp := sp - 1;
      var b := Truthy(stack[sp]);
      sp := sp - 1;
      var a := Truthy(stack[sp]);
      stack[sp] := Bool(if op == OP_AND then a && b else a || b);
      sp := sp + 1;
      assert stack[..sp] == live[..height - 2] + [Bool(if op == OP_AND then a && b else a || b)];
    } else {
      if sp < 1 { return false, sp; }
      stack[sp - 1] := Bool(!Truthy(stack[sp - 1]));
      assert stack[..sp] == live[..height - 1] + [Bool(!Truthy(live[height - 1]))];
    }
  }

  /** Every access is within the 64 slots and the code, for arbitrary bytes, and the loop ends. */
  method Evaluate(bc: Bytecode, f: Frame) returns (rc: Status, matched: bool)
    ensures (rc, matched) == Verdict(Run(bc.code, f, 0, []))
    ensures rc == OK || (rc == Eval && !matched)
  {
    hide Run, Operate, LoadField, LoadLe32, ToInt32;
    var stack := new Value[64](_ => Value(0, false));
    var sp := 0;
    var pc := 0;
    var code := bc.code;
    matched := false;
    assert stack[..0] == [];
    while pc < |code|
      invariant bc.code == code && 0 <= sp <= 64 && 0 <= pc
      invariant Run(code, f, pc, stack[..sp]) == Run(code, f, 0, [])
      decreases if pc < |code| then |code| - pc else 0
    {
      ghost var live := stack[..sp];
      ghost var next := Step(code, f, pc, live);
      RunSteps(code, f, pc, live);
      var op := code[pc];
      pc := pc + 1;
      if op == OP_PUSH_INT {
        if pc + 4 > |code| || sp >= 64 { return Eval, false; }
        stack[sp] := Value(ToInt32(LoadLe32(code, pc)), false);
        sp := sp + 1;
        pc := pc + 4;
        assert stack[..sp] == next.stack;
      } else if op == OP_LOAD_FIELD {
        if pc >= |code| || sp >= 64 { return Eval, false; }
        stack[sp] := Value(LoadField(f, code[pc]), false);
        pc := pc + 1;
        sp := sp + 1;
        assert stack[..sp] == next.stack;
      } else if IsOperator(op) {
        var ok;
        ok, sp := OperateInPlace(op, stack, sp);
        if !ok { return Eval, false; }
      } else if op == OP_FORWARD || op == OP_TAG {
        if pc >= |code| { return Eval, false; }
        pc := pc + code[pc] + 1;
      } else if op == OP_END {
        if sp == 0 { return Eval, false; }
        matched := Truthy(stack[sp - 1]);
        return OK, matched;
      } else {
        return Eval, false;
      }
    }
    RunSteps(code, f, pc, stack[..sp]);
    rc := Eval;
  }

  lemma {:induction false} RunSteps(code: seq<byte>, f: Frame, pc: nat, stack: seq<Value>)
    requires |stack| <= STACK_SLOTS
    ensures pc >= |code| ==> Run(code, f, pc, stack) == Failed
    ensures pc < |code| ==>
      var m := Step(code, f, pc, stack);
      Run(code, f, pc, stack) == if m.Running? then Run(code, f, m.pc, m.stack) else m
  {
  }

  // ----- when the machine gets stuck -----

  /** The operand bytes behind an opcode. */
  function Width(op: byte): nat {
    if op == 1 then 4 else if op == 3 || op == 11 || op == 12 then 1 else 0
  }

  /** The values an opcode takes from the stack, or looks at. */
  function Needs(op: byte): nat {
    if op == 7 then 3
    else if op in {4, 5, 6, 8, 9} then 2
    else if op == 10 || op == 13 then 1
    else 0
  }

  /** An unknown opcode, operand bytes missing, too few values, or no room for one more. */
  predicate Stuck(code: seq<byte>, pc: nat, height: nat)
    requires pc < |code|
  {
    var op := code[pc];
    !(op == 1 || 3 <= op <= 13) ||
    pc + 1 + Width(op) > |code| ||
    height < Needs(op) ||
    (op in {1, 3, 7} && height >= 64)
  }

  /** A step fails exactly then; and a run fails there, and at the end of the code. */
  lemma {:induction false} StuckExactly(code: seq<byte>, f: Frame, pc: nat, stack: seq<Value>)
    requires |stack| <= STACK_SLOTS
    ensures pc < |code| ==> (Step(code, f, pc, stack) == Failed <==> Stuck(code, pc, |stack|))
    ensures pc >= |code| || Stuck(code, pc, |stack|) ==> Run(code, f, pc, stack) == Failed
  {
    hide LoadField, LoadLe32;
    RunSteps(code, f, pc, stack);
    hide Run;
  }

  /** The states a run passes through, up to the one it stops in. */
  ghost predicate IsTrail(code: seq<byte>, f: Frame, trail: seq<Machine>) {
    |trail| > 0 &&
    (forall k :: 0 <= k < |trail| ==> trail[k].Running? && trail[k].pc < |code| && |trail[k].stack| <= STACK_SLOTS) &&
    forall k :: 0 <= k < |trail| - 1 ==> Step(code, f, trail[k].pc, trail[k].stack) == trail[k + 1]
  }

  /** A verdict is only ever given by an END instruction, from the value on top of the stack. */
  lemma {:induction false} VerdictComesFromEnd(code: seq<byte>, f: Frame, pc: nat, stack: seq<Value>)
    returns (trail: seq<Machine>)
    requires |stack| <= STACK_SLOTS
    requires Run(code, f, pc, stack).Ended?
    ensures IsTrail(code, f, trail) && trail[0] == Running(pc, stack)
    ensures var last := trail[|trail| - 1];
            code[last.pc] == OP_END && last.stack != [] &&
            Run(code, f, pc, stack).matched == Truthy(last.stack[|last.stack| - 1])
    decreases if pc < |code| then |code| - pc else 0
  {
    var m := Step(code, f, pc, stack);
    if m.Running? {
      var rest := VerdictComesFromEnd(code, f, m.pc, m.stack);
      trail := [Running(pc, stack)] + rest;
      assert forall k :: 1 <= k < |trail| ==> trail[k] == rest[k - 1];
    } else {
      trail := [Running(pc, stack)];
    }
  }
}
