/** `BinaryWriter` and `BinaryReader` as the objects the generated code updates. */
module WireIO {
  import opened Prelude
  import opened Wire
  import U = Utf8

  lemma VarintRecord(field: nat, v: nat)
    ensures RecordsBytes([VarintR(field, v)]) == Varint(field * 8) + Varint(v)
    ensures AllWellFormed([VarintR(field, v)]) ==> field * 8 < 0x1_0000_0000
  {
    hide RecordsBytes, AllWellFormed, Varint;
    OneRecord(VarintR(field, v));
  }

  lemma LenRecord(field: nat, p: bytes)
    ensures RecordsBytes([Len(field, p)]) == Varint(field * 8 + 2) + LenBytes(p)
    ensures AllWellFormed([Len(field, p)]) ==> field * 8 + 2 < 0x1_0000_0000 && |p| < 0x1_0000_0000
  {
    hide RecordsBytes, AllWellFormed, Varint, LenBytes;
    OneRecord(Len(field, p));
  }

  class Writer {
    var buf: bytes
    var stack: seq<bytes>  // the buffers set aside by `fork`

    constructor ()
      ensures buf == [] && stack == []
    {
      buf, stack := [], [];
    }

    method Uint32(v: nat)
      requires v < 0x1_0000_0000
      modifies this`buf
      ensures buf == old(buf) + Varint(v)
    {
      buf := buf + Varint(v);
    }

    method Bytes(p: bytes)
      requires |p| < 0x1_0000_0000
      modifies this`buf
      ensures buf == old(buf) + LenBytes(p)
    {
      Uint32(|p|);
      buf := buf + p;
    }

    /** `int32`, `int64` and `bool` write a varint. */
    method Int(v: int)
      requires IsInt64(v)
      modifies this`buf
      ensures buf == old(buf) + Varint(Unsigned64(v))
    {
      buf := buf + Varint(Unsigned64(v));
    }

    method Fork()
      modifies this
      ensures buf == [] && stack == old(stack) + [old(buf)]
    {
      stack := stack + [buf];
      buf := [];
    }

    /** What was written since the matching `fork`, as one length-delimited record. */
    method Join()
      requires |stack| > 0 && |buf| < 0x1_0000_0000
      modifies this
      ensures stack == old(stack)[..|old(stack)| - 1]
      ensures buf == old(stack)[|old(stack)| - 1] + LenBytes(old(buf))
    {
      var inner := buf;
      buf := stack[|stack| - 1];
      stack := stack[..|stack| - 1];
      Bytes(inner);
    }

    // `if (field is not default) writer.uint32(tag).type(field)`

    method TextUnlessEmpty(field: nat, s: string)
      requires AllWellFormed(TextField(field, s))
      modifies this`buf
      ensures buf == old(buf) + RecordsBytes(TextField(field, s))
    {
      hide RecordsBytes, AllWellFormed, LenBytes, Varint, U.Encode;
      NoRecords();
      if s != "" {
        LenRecord(field, U.Encode(s));
        Uint32(field * 8 + 2);
        Bytes(U.Encode(s));
      }
    }

    method BytesUnlessEmpty(field: nat, p: bytes)
      requires AllWellFormed(BytesField(field, p))
      modifies this`buf
      ensures buf == old(buf) + RecordsBytes(BytesField(field, p))
    {
      hide RecordsBytes, AllWellFormed, LenBytes, Varint;
      NoRecords();
      if |p| != 0 {
        LenRecord(field, p);
        Uint32(field * 8 + 2);
        Bytes(p);
      }
    }

    method IntUnlessZero(field: nat, v: int)
      requires IsInt64(v) && AllWellFormed(IntField(field, v))
      modifies this`buf
      ensures buf == old(buf) + RecordsBytes(IntField(field, v))
    {
      hide RecordsBytes, AllWellFormed, Varint;
      NoRecords();
      if v != 0 {
        VarintRecord(field, Unsigned64(v));
        Uint32(field * 8);
        Int(v);
      }
    }

    method BoolUnlessFalse(field: nat, v: bool)
      requires AllWellFormed(BoolField(field, v))
      modifies this`buf
      ensures buf == old(buf) + RecordsBytes(BoolField(field, v))
    {
      hide RecordsBytes, AllWellFormed, Varint;
      NoRecords();
      if v {
        VarintRecord(field, 1);
        Uint32(field * 8);
        Int(1);
      }
    }
  }

  class Reader {
    const buf: bytes
    var pos: nat

    constructor (buf: bytes)
      ensures this.buf == buf && pos == 0
    {
      this.buf, pos := buf, 0;
    }

    method Uint32() returns (v: Read<nat>)
      modifies this
      ensures v == ReadUint32(buf, old(pos)) && pos == old(pos) + (if v.Got? then v.used else 0)
    {
      v := ReadUint32(buf, pos);
      if v.Got? { pos := pos + v.used; }
    }

    method Int32() returns (v: Read<int>)
      modifies this
      ensures v == ReadInt32(buf, old(pos)) && pos == old(pos) + (if v.Got? then v.used else 0)
    {
      v := ReadInt32(buf, pos);
      if v.Got? { pos := pos + v.used; }
    }

    method Int64() returns (v: Read<int>)
      modifies this
      ensures v == ReadInt64(buf, old(pos)) && pos == old(pos) + (if v.Got? then v.used else 0)
    {
      v := ReadInt64(buf, pos);
      if v.Got? { pos := pos + v.used; }
    }

    method Bool() returns (v: Read<bool>)
      modifies this
      ensures v == ReadBool(buf, old(pos)) && pos == old(pos) + (if v.Got? then v.used else 0)
    {
      v := ReadBool(buf, pos);
      if v.Got? { pos := pos + v.used; }
    }

    method Bytes() returns (v: Read<bytes>)
      modifies this
      ensures v == ReadBytes(buf, old(pos)) && pos == old(pos) + (if v.Got? then v.used else 0)
    {
      v := ReadBytes(buf, pos);
      if v.Got? { pos := pos + v.used; }
    }

    method Text() returns (v: Read<string>)
      modifies this
      ensures v == ReadString(buf, old(pos)) && pos == old(pos) + (if v.Got? then v.used else 0)
    {
      v := ReadString(buf, pos);
      if v.Got? { pos := pos + v.used; }
    }

    method SkipType(wireType: nat) returns (v: Read<()>)
      modifies this
      ensures v == Skip(buf, old(pos), wireType) && pos == old(pos) + (if v.Got? then v.used else 0)
    {
      v := Skip(buf, pos, wireType);
      if v.Got? { pos := pos + v.used; }
    }
  }
}
