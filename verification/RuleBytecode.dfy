/** Opcodes (include/ipmb/routing/route_vm.h) and the byte buffer a program is emitted into
    (src/routing/rule_compiler.c:19-40, 68-85). */
module RuleBytecode {
  import opened Bytes

  const OP_PUSH_INT: byte := 1
  const OP_LOAD_FIELD: byte := 3
  const OP_CMP_EQ: byte := 4
  const OP_CMP_GT: byte := 5
  const OP_CMP_LT: byte := 6
  const OP_RANGE: byte := 7
  const OP_AND: byte := 8
  const OP_OR: byte := 9
  const OP_NOT: byte := 10
  const OP_FORWARD: byte := 11
  const OP_TAG: byte := 12
  const OP_END: byte := 13

  const MAX_RULE_CODE: nat := 4096

  /** A byte program, reallocated to its exact length whenever it grows. */
  class Bytecode {
    var code: seq<byte>

    constructor ()
      ensures code == []
    {
      code := [];
    }

    method Emit(data: seq<byte>) returns (rc: Status)
      modifies this
      ensures if |old(code)| + |data| > 4096
              then rc == Limit && code == old(code)
              else rc == OK && code == old(code) + data
    {
      if |code| + |data| > 4096 { return Limit; }
      code := code + data;
      rc := OK;
    }

    method EmitU8(v: byte) returns (rc: Status)
      modifies this
      ensures if |old(code)| + 1 > MAX_RULE_CODE
              then rc == Limit && code == old(code)
              else rc == OK && code == old(code) + [v]
    {
      rc := Emit([v]);
    }

    method EmitI32(v: int32) returns (rc: Status)
      modifies this
      ensures if |old(code)| + 4 > MAX_RULE_CODE
              then rc == Limit && code == old(code)
              else rc == OK && code == old(code) + Le32(ToUint32(v))
    {
      hide Le32, ToUint32;
      var tmp := new byte[4](_ => 0);
      StoreLe32(tmp, 0, ToUint32(v));
      assert tmp[..] == Le32(ToUint32(v));
      rc := Emit(tmp[..]);
    }

    method Free()
      modifies this
      ensures code == []
    {
      code := [];
    }

    /** A copy that shares nothing with the original. */
    method Clone() returns (rc: Status, dst: Bytecode)
      ensures rc == OK && fresh(dst) && dst.code == code
    {
      dst := new Bytecode();
      dst.code := code;
      rc := OK;
    }
  }
}
