/** The bounds-checked cursor (src/util/byte_read.c). */
module ByteRead {
  import opened Bytes

  /** `len` of the C record is the length of `data`. A read either consumes exactly its bytes or
      leaves the cursor where it was. */
  class Reader {
    var data: seq<byte>
    var pos: nat

    constructor (data: seq<byte>)
      ensures this.data == data && pos == 0
    {
      this.data, pos := data, 0;
    }

    function Remaining(): nat
      reads this
    {
      if pos <= |data| then |data| - pos else 0
    }

    method ReadU8() returns (rc: Status, v: byte)
      modifies this`pos
      ensures rc == (if old(Remaining()) < 1 then ShortRead else OK)
      ensures if rc == OK then pos == old(pos) + 1 && v == data[old(pos)] else pos == old(pos)
    {
      if Remaining() < 1 { return ShortRead, 0; }
      v := data[pos];
      pos := pos + 1;
      rc := OK;
    }

    method ReadLe16() returns (rc: Status, v: uint16)
      modifies this`pos
      ensures rc == (if old(Remaining()) < 2 then ShortRead else OK)
      ensures if rc == OK then pos == old(pos) + 2 && v == LoadLe16(data, old(pos)) else pos == old(pos)
    {
      if Remaining() < 2 { return ShortRead, 0; }
      v := LoadLe16(data, pos);
      pos := pos + 2;
      rc := OK;
    }

    method ReadLe32() returns (rc: Status, v: uint32)
      modifies this`pos
      ensures rc == (if old(Remaining()) < 4 then ShortRead else OK)
      ensures if rc == OK then pos == old(pos) + 4 && v == LoadLe32(data, old(pos)) else pos == old(pos)
    {
      if Remaining() < 4 { return ShortRead, 0; }
      v := LoadLe32(data, pos);
      pos := pos + 4;
      rc := OK;
    }

    method ReadLe64() returns (rc: Status, v: uint64)
      modifies this`pos
      ensures rc == (if old(Remaining()) < 8 then ShortRead else OK)
      ensures if rc == OK then pos == old(pos) + 8 && v == LoadLe64(data, old(pos)) else pos == old(pos)
    {
      if Remaining() < 8 { return ShortRead, 0; }
      v := LoadLe64(data, pos);
      pos := pos + 8;
      rc := OK;
    }

    method ReadBytes(n: nat) returns (rc: Status, v: seq<byte>)
      modifies this`pos
      ensures rc == (if old(Remaining()) < n then ShortRead else OK)
      ensures if rc == OK then pos == old(pos) + n && (n > 0 ==> pos <= |data| && v == data[old(pos)..pos]) &&
                               (n == 0 ==> v == [])
              else pos == old(pos)
    {
      if Remaining() < n { return ShortRead, []; }
      v := if n > 0 then data[pos..pos + n] else [];
      pos := pos + n;
      rc := OK;
    }
  }
}
