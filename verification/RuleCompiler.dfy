/** Rule records to bytecode (src/routing/rule_compiler.c). */
module RuleCompiler {
  import opened Bytes
  import opened Wrappers
  import opened Frames
  import opened RuleParser
  import opened RuleBytecode
  import opened RouteVm
  import opened RuleExpressions

  function FieldId(field: string): byte {
    if field == "type" then 1
    else if field == "flags" then 2
    else if field == "source" then 3
    else if field == "dest" then 4
    else if field == "priority" then 5
    else if field == "ttl" then 6
    else if field == "payload_len" then 7
    else 0
  }

  method Compile(ast: RuleAst, out: Bytecode) returns (rc: Status)
    modifies out
    ensures (rc, out.code) == Compiled(ast)
  {
    hide FieldId, Le32, ToUint32;
    out.code := [];
    var fid := FieldId(ast.field);
    if fid == 0 { return Invalid; }
    rc := EmitBody(ast, fid, out);
    if rc == OK { rc := out.EmitU8(OP_END); }
    if rc != OK {
      // the cleanup at the `fail` label: a rule's fifteen bytes always fit, so no emission fails
      assert false;
    }
  }

  /** The emissions for a range, behind the load. */
  method EmitRange(ast: RuleAst, fid: byte, out: Bytecode) returns (rc: Status)
    requires out.code == LoadCode(fid)
    modifies out
    ensures rc == OK && out.code == CodeOf(Between(Field(fid), Number(ast.value), Number(ast.high))) && |out.code| == 14
  {
    hide Le32, ToUint32;
    rc := out.EmitU8(OP_PUSH_INT);
    if rc == OK { rc := out.EmitI32(ast.value); }
    if rc != OK { return; }
    ghost var low := LoadCode(fid) + PushCode(ast.value);
    assert out.code == low;
    rc := out.EmitU8(OP_PUSH_INT);
    if rc == OK { rc := out.EmitI32(ast.high); }
    if rc != OK { return; }
    assert out.code == low + PushCode(ast.high);
    rc := out.EmitU8(OP_RANGE);
    if rc == OK { rc := out.EmitU8(OP_AND); }
    assert out.code == low + PushCode(ast.high) + [7, 8];
  }

  /** The emissions before END; the first failing one stops them. */
  method EmitBody(ast: RuleAst, fid: byte, out: Bytecode) returns (rc: Status)
    requires out.code == []
    modifies out
    ensures rc == OK && out.code == CodeOf(ExprOf(ast, fid)) && |out.code| <= 14
  {
    hide Le32, ToUint32;
    rc := out.EmitU8(OP_LOAD_FIELD);
    if rc == OK { rc := out.EmitU8(fid); }
    if rc != OK { return; }
    assert out.code == LoadCode(fid);
    if ast.op == RuleOp.Range {
      rc := EmitRange(ast, fid, out);
    } else {
      var op := OP_CMP_EQ;
      if ast.op == CmpGt { op := OP_CMP_GT; }
      if ast.op == CmpLt { op := OP_CMP_LT; }
      rc := out.EmitU8(OP_PUSH_INT);
      if rc == OK { rc := out.EmitI32(ast.value); }
      if rc != OK { return; }
      assert out.code == LoadCode(fid) + PushCode(ast.value);
      rc := out.EmitU8(op);
    }
  }

  /** The expression a rule stands for. */
  function ExprOf(ast: RuleAst, fid: byte): Expr {
    match ast.op
    case Range => Between(Field(fid), Number(ast.value), Number(ast.high))
    case CmpGt => Compare(Greater, Field(fid), Number(ast.value))
    case CmpLt => Compare(Less, Field(fid), Number(ast.value))
    case CmpEq => Compare(Equal, Field(fid), Number(ast.value))
  }

  function Compiled(ast: RuleAst): (Status, seq<byte>) {
    var fid := FieldId(ast.field);
    if fid == 0 then (Invalid, []) else (OK, CodeOf(ExprOf(ast, fid)) + [13])
  }

  // ----- what a rule means, without bytecode -----

  /** A frame field by name, as the signed 32-bit value rules compare. */
  function FieldValue(f: Frame, name: string): Option<int32> {
    match name
    case "type" => Some(f.frameType)
    case "flags" => Some(f.frameFlags)
    case "source" => Some(ToInt32(f.sourceAddr))
    case "dest" => Some(ToInt32(f.destAddr))
    case "priority" => Some(f.priority)
    case "ttl" => Some(f.ttl)
    case "payload_len" => Some(Wrap32(f.payloadLen))
    case _ => None
  }

  predicate Holds(ast: RuleAst, f: Frame) {
    match FieldValue(f, ast.field)
    case None => false
    case Some(v) =>
      match ast.op
      case CmpEq => v == ast.value
      case CmpGt => v > ast.value
      case CmpLt => v < ast.value
      case Range => ast.value <= v <= ast.high
  }

  /** A rule compiles exactly when it names a field, and then its program decides the rule. */
  lemma CompiledRuleDecides(ast: RuleAst, f: Frame)
    ensures Compiled(ast).0 == (if FieldValue(f, ast.field).Some? then OK else Invalid)
    ensures Compiled(ast).0 == OK ==> Run(Compiled(ast).1, f, 0, []) == Ended(Holds(ast, f))
  {
    hide Run, CodeOf, ToInt32, Wrap32;
    var fid := FieldId(ast.field);
    if fid != 0 {
      assert FieldValue(f, ast.field) == Some(LoadField(f, fid));
      ProgramDecides(ExprOf(ast, fid), f, []);
      assert Compiled(ast).1 + [] == Compiled(ast).1;
    }
  }
}
