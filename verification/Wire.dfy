/** The wire primitives behind `BinaryReader` and `BinaryWriter`, after the Protocol
    Buffers Encoding guide, and the message decode loop that every generated
    `decode` repeats. */
module Wire {
  import opened Prelude
  import U = Utf8

  // ------------------------------------------------------------------- varints

  /** Section "Base 128 Varints". */
  function Varint(v: nat): (b: bytes)
    ensures |b| > 0
  {
    if v < 128 then [v] else [128 + v % 128] + Varint(v / 128)
  }

  /** A value read and the number of bytes it took, or a thrown error. */
  datatype Read<+T> = Got(value: T, used: nat) | Bad

  /** A varint that ends before position `limit`. */
  function ReadVarint(b: bytes, pos: nat, limit: nat): (r: Read<nat>)
    ensures r.Got? ==> 1 <= r.used && pos + r.used <= |b|
    decreases limit - pos
  {
    if pos >= limit || pos >= |b| then Bad
    else if b[pos] < 128 then Got(b[pos], 1)
    else match ReadVarint(b, pos + 1, limit)
         case Got(v, n) => Got(b[pos] - 128 + 128 * v, n + 1)
         case Bad => Bad
  }

  function ReadUint64(b: bytes, pos: nat): (r: Read<nat>)
    ensures r.Got? ==> 1 <= r.used && pos + r.used <= |b| && r.value < 0x1_0000_0000_0000_0000
  {
    match ReadVarint(b, pos, pos + 10)
    case Got(v, n) => Got(v % 0x1_0000_0000_0000_0000, n)
    case Bad => Bad
  }

  /** `reader.uint32()`: the low 32 bits of a varint. */
  function ReadUint32(b: bytes, pos: nat): (r: Read<nat>)
    ensures r.Got? ==> 1 <= r.used && pos + r.used <= |b| && r.value < 0x1_0000_0000
  {
    match ReadUint64(b, pos)
    case Got(v, n) => Got(v % 0x1_0000_0000, n)
    case Bad => Bad
  }

  /** Two's complement, section "Signed Integers": a negative number is written as a
      64-bit varint whatever its width. */
  function Unsigned64(v: int): int {
    if v < 0 then v + 0x1_0000_0000_0000_0000 else v
  }

  function ReadInt32(b: bytes, pos: nat): Read<int> {
    match ReadUint32(b, pos)
    case Got(v, n) => Got(if v < 0x8000_0000 then v else v - 0x1_0000_0000, n)
    case Bad => Bad
  }

  function ReadInt64(b: bytes, pos: nat): Read<int> {
    match ReadUint64(b, pos)
    case Got(v, n) => Got(if v < 0x8000_0000_0000_0000 then v else v - 0x1_0000_0000_0000_0000, n)
    case Bad => Bad
  }

  function ReadBool(b: bytes, pos: nat): Read<bool> {
    match ReadUint64(b, pos)
    case Got(v, n) => Got(v != 0, n)
    case Bad => Bad
  }

  /** `x` stands at `pos` in `b`. */
  predicate At(b: bytes, pos: nat, x: bytes) {
    pos + |x| <= |b| && b[pos..pos + |x|] == x
  }

  lemma AtSplit(b: bytes, pos: nat, x: bytes, y: bytes)
    ensures At(b, pos, x + y) <==> At(b, pos, x) && At(b, pos + |x|, y)
  {
    var n, m := |x|, |y|;
    if pos + n + m <= |b| {
      var z := b[pos..pos + n + m];
      assert z == b[pos..pos + n] + b[pos + n..pos + n + m];
      if z == x + y {
        assert b[pos..pos + n] == z[..n] == x;
        assert b[pos + n..pos + n + m] == z[n..] == y;
      }
    }
  }

  function Pow128(n: nat): nat {
    if n == 0 then 1 else 128 * Pow128(n - 1)
  }

  lemma {:induction false} VarintReads(b: bytes, pos: nat, v: nat, room: nat)
    requires At(b, pos, Varint(v)) && v < Pow128(room) && 0 < room
    ensures ReadVarint(b, pos, pos + room) == Got(v, |Varint(v)|)
    decreases room
  {
    VarintHead(b, pos, v);
    hide At;
    if v >= 128 {
      VarintReads(b, pos + 1, v / 128, room - 1);
    }
  }

  lemma VarintHead(b: bytes, pos: nat, v: nat)
    requires At(b, pos, Varint(v))
    ensures pos < |b| && b[pos] == if v < 128 then v else 128 + v % 128
    ensures v >= 128 ==> At(b, pos + 1, Varint(v / 128))
  {
    assert b[pos] == b[pos..pos + |Varint(v)|][0];
    if v >= 128 {
      AtSplit(b, pos, [128 + v % 128], Varint(v / 128));
    }
  }

  /** Every 64-bit varint reads back, and so does every tag and length. */
  lemma Uint64Reads(b: bytes, pos: nat, v: nat)
    requires At(b, pos, Varint(v)) && v < 0x1_0000_0000_0000_0000
    ensures ReadUint64(b, pos) == Got(v, |Varint(v)|)
    ensures ReadUint32(b, pos) == Got(v % 0x1_0000_0000, |Varint(v)|)
  {
    assert Pow128(10) == 0x40_0000_0000_0000_0000;
    VarintReads(b, pos, v, 10);
  }

  lemma Uint32Reads(b: bytes, pos: nat, v: nat)
    requires At(b, pos, Varint(v)) && v < 0x1_0000_0000
    ensures ReadUint32(b, pos) == Got(v, |Varint(v)|)
  {
    Uint64Reads(b, pos, v);
  }

  predicate IsInt32(v: int) {
    -0x8000_0000 <= v < 0x8000_0000
  }

  predicate IsInt64(v: int) {
    -0x8000_0000_0000_0000 <= v < 0x8000_0000_0000_0000
  }

  // ---------------------------------------------------- length-delimited records

  /** Section "Length-Delimited Records". */
  function LenBytes(payload: bytes): bytes {
    Varint(|payload|) + payload
  }

  function ReadBytes(b: bytes, pos: nat): (r: Read<bytes>)
    ensures r.Got? ==> 1 <= r.used && pos + r.used <= |b|
  {
    match ReadUint32(b, pos)
    case Bad => Bad
    case Got(len, n) => if pos + n + len > |b| then Bad else Got(b[pos + n..pos + n + len], n + len)
  }

  lemma BytesRead(b: bytes, pos: nat, payload: bytes)
    requires At(b, pos, LenBytes(payload)) && |payload| < 0x1_0000_0000
    ensures ReadUint32(b, pos) == Got(|payload|, |Varint(|payload|)|)
    ensures ReadBytes(b, pos) == Got(payload, |LenBytes(payload)|)
    ensures At(b, pos + |Varint(|payload|)|, payload)
  {
    AtSplit(b, pos, Varint(|payload|), payload);
    Uint32Reads(b, pos, |payload|);
  }

  // ------------------------------------------------------------------ skipping

  function SkipVarint(b: bytes, pos: nat): (r: Read<()>)
    ensures r.Got? ==> 1 <= r.used && pos + r.used <= |b|
    decreases |b| - pos
  {
    if pos >= |b| then Bad
    else if b[pos] < 128 then Got((), 1)
    else match SkipVarint(b, pos + 1)
         case Got(_, n) => Got((), n + 1)
         case Bad => Bad
  }

  /** `reader.skip(wireType)`. */
  function Skip(b: bytes, pos: nat, wireType: nat): (r: Read<()>)
    ensures r.Got? ==> pos + r.used <= |b|
    decreases |b| - pos, 1
  {
    match wireType
    case 0 => SkipVarint(b, pos)
    case 1 => if pos + 8 <= |b| then Got((), 8) else Bad
    case 2 => (match ReadBytes(b, pos)
               case Got(_, n) => Got((), n)
               case Bad => Bad)
    case 3 => SkipGroup(b, pos)
    case 5 => if pos + 4 <= |b| then Got((), 4) else Bad
    case _ => Bad
  }

  /** The records of a group up to and including its end tag. */
  function SkipGroup(b: bytes, pos: nat): (r: Read<()>)
    ensures r.Got? ==> pos + r.used <= |b|
    decreases |b| - pos, 0
  {
    match ReadUint32(b, pos)
    case Bad => Bad
    case Got(tag, n) =>
      if tag / 8 == 0 then Bad
      else if tag % 8 == 4 then Got((), n)
      else match Skip(b, pos + n, tag % 8)
           case Bad => Bad
           case Got(_, k) =>
             match SkipGroup(b, pos + n + k)
             case Bad => Bad
             case Got(_, l) => Got((), n + k + l)
  }

  // ------------------------------------------------------------------- records

  /** A well-formed field of a message.  A `Sub` is length-delimited like a `Len`, with
      a payload that is itself a sequence of records. */
  datatype Record =
    | VarintR(field: nat, value: nat)
    | Fixed64(field: nat, payload: bytes)
    | Len(field: nat, payload: bytes)
    | Sub(field: nat, records: seq<Record>)
    | Group(field: nat, records: seq<Record>)
    | Fixed32(field: nat, payload: bytes)

  function WireType(r: Record): nat {
    match r
    case VarintR(_, _) => 0
    case Fixed64(_, _) => 1
    case Len(_, _) => 2
    case Sub(_, _) => 2
    case Group(_, _) => 3
    case Fixed32(_, _) => 5
  }

  function Tag(r: Record): nat {
    r.field * 8 + WireType(r)
  }

  /** What follows the tag. */
  function Body(r: Record): bytes
    decreases r, 0
  {
    match r
    case VarintR(_, v) => Varint(v)
    case Fixed64(_, p) => p
    case Len(_, p) => LenBytes(p)
    case Sub(_, rs) => LenBytes(RecordsBytes(rs))
    case Group(_, rs) => RecordsBytes(rs) + Varint(r.field * 8 + 4)
    case Fixed32(_, p) => p
  }

  function RecordBytes(r: Record): (b: bytes)
    ensures |b| > 0
    decreases r, 1
  {
    Varint(Tag(r)) + Body(r)
  }

  function RecordsBytes(rs: seq<Record>): bytes
    decreases rs
  {
    if rs == [] then [] else RecordBytes(rs[0]) + RecordsBytes(rs[1..])
  }

  predicate WellFormed(r: Record)
    decreases r, 0
  {
    && 1 <= r.field < 0x2000_0000
    && match r
       case VarintR(_, v) => v < 0x1_0000_0000_0000_0000
       case Fixed64(_, p) => |p| == 8
       case Len(_, p) => |p| < 0x1_0000_0000
       case Sub(_, rs) => AllWellFormed(rs) && |RecordsBytes(rs)| < 0x1_0000_0000
       case Group(_, rs) => AllWellFormed(rs)
       case Fixed32(_, p) => |p| == 4
  }

  predicate AllWellFormed(rs: seq<Record>)
    decreases rs
  {
    rs == [] || (WellFormed(rs[0]) && AllWellFormed(rs[1..]))
  }

  /** The payload of a length-delimited record. */
  function Payload(r: Record): bytes
    requires WireType(r) == 2
  {
    if r.Len? then r.payload else RecordsBytes(r.records)
  }

  lemma TagReads(b: bytes, pos: nat, r: Record)
    requires WellFormed(r) && At(b, pos, RecordBytes(r))
    ensures ReadUint32(b, pos) == Got(Tag(r), |Varint(Tag(r))|)
    ensures At(b, pos + |Varint(Tag(r))|, Body(r))
    ensures Tag(r) / 8 == r.field >= 1 && Tag(r) % 8 == WireType(r) != 4
  {
    AtSplit(b, pos, Varint(Tag(r)), Body(r));
    Uint32Reads(b, pos, Tag(r));
  }

  lemma {:induction false} VarintSkips(b: bytes, pos: nat, v: nat)
    requires At(b, pos, Varint(v))
    ensures SkipVarint(b, pos) == Got((), |Varint(v)|)
    decreases v
  {
    VarintHead(b, pos, v);
    if v >= 128 {
      VarintSkips(b, pos + 1, v / 128);
    }
  }

  /** Skipping a well-formed record, groups within groups included, ends exactly where
      the record does. */
  lemma {:induction false} BodySkips(b: bytes, pos: nat, r: Record)
    requires WellFormed(r) && At(b, pos, Body(r))
    ensures Skip(b, pos, WireType(r)) == Got((), |Body(r)|)
    decreases r, 0
  {
    match r
    case VarintR(_, v) => VarintSkips(b, pos, v);
    case Len(_, p) => BytesRead(b, pos, p);
    case Sub(_, rs) => BytesRead(b, pos, RecordsBytes(rs));
    case Group(_, rs) =>
      AtSplit(b, pos, RecordsBytes(rs), Varint(r.field * 8 + 4));
      GroupSkips(b, pos, rs, r.field);
    case Fixed64(_, p) =>
    case Fixed32(_, p) =>
  }

  lemma {:induction false} GroupSkips(b: bytes, pos: nat, rs: seq<Record>, field: nat)
    requires AllWellFormed(rs) && 1 <= field < 0x2000_0000
    requires At(b, pos, RecordsBytes(rs)) && At(b, pos + |RecordsBytes(rs)|, Varint(field * 8 + 4))
    ensures SkipGroup(b, pos) == Got((), |RecordsBytes(rs)| + |Varint(field * 8 + 4)|)
    decreases rs
  {
    hide Skip, SkipGroup, RecordBytes, Varint;
    if rs == [] {
      GroupEnds(b, pos, field);
    } else {
      var head, tail := RecordBytes(rs[0]), RecordsBytes(rs[1..]);
      assert RecordsBytes(rs) == head + tail;
      AtSplit(b, pos, head, tail);
      RecordInGroup(b, pos, rs[0]);
      GroupSkips(b, pos + |head|, rs[1..], field);
    }
  }

  lemma GroupEnds(b: bytes, pos: nat, field: nat)
    requires 1 <= field < 0x2000_0000 && At(b, pos, Varint(field * 8 + 4))
    ensures SkipGroup(b, pos) == Got((), |Varint(field * 8 + 4)|)
  {
    Uint32Reads(b, pos, field * 8 + 4);
  }

  lemma {:induction false} RecordInGroup(b: bytes, pos: nat, r: Record)
    requires WellFormed(r) && At(b, pos, RecordBytes(r))
    ensures SkipGroup(b, pos) == match SkipGroup(b, pos + |RecordBytes(r)|)
                                 case Bad => Bad
                                 case Got(_, l) => Got((), |RecordBytes(r)| + l)
    decreases r, 1
  {
    hide ReadUint32, Skip, SkipGroup;
    TagReads(b, pos, r);
    BodySkips(b, pos + |Varint(Tag(r))|, r);
    GroupStep(b, pos, Tag(r), |Varint(Tag(r))|, |Body(r)|);
  }

  lemma GroupStep(b: bytes, pos: nat, tag: nat, n: nat, k: nat)
    requires ReadUint32(b, pos) == Got(tag, n) && tag / 8 != 0 && tag % 8 != 4
    requires Skip(b, pos + n, tag % 8) == Got((), k)
    ensures SkipGroup(b, pos) == match SkipGroup(b, pos + n + k)
                                 case Bad => Bad
                                 case Got(_, l) => Got((), n + k + l)
  {
  }

  // -------------------------------------------------------------- the decode loop

  /** What one `switch` of a generated decoder does with a tag, the reader standing
      just past it: fall through to the skip, read the field, or throw. */
  datatype FieldStep<+M> = Unhandled | Handled(message: M, used: nat) | Broken

  datatype Decoded<+M> = Done(message: M, pos: nat) | Error

  /** `while (reader.pos < end) { ... }` with the message so far.  Reads are bounded by
      the buffer, not by `end`. */
  function DecodeLoop<M>(f: (M, nat, bytes, nat) -> FieldStep<M>, b: bytes, pos: nat, end: nat, m: M): (r: Decoded<M>)
    ensures r.Done? ==> r.pos >= pos
    decreases end - pos
  {
    if pos >= end then Done(m, pos)
    else match ReadUint32(b, pos)
         case Bad => Error
         case Got(tag, n) =>
           match f(m, tag, b, pos + n)
           case Broken => Error
           case Handled(m', used) => DecodeLoop(f, b, pos + n + used, end, m')
           case Unhandled =>
             if tag % 8 == 4 || tag == 0 then Done(m, pos + n)
             else match Skip(b, pos + n, tag % 8)
                  case Bad => Error
                  case Got(_, used) => DecodeLoop(f, b, pos + n + used, end, m)
  }

  /** One record at the reader's position: where the loop goes next. */
  lemma LoopStep<M>(f: (M, nat, bytes, nat) -> FieldStep<M>, b: bytes, pos: nat, end: nat, m: M, r: Record)
    requires WellFormed(r) && At(b, pos, RecordBytes(r)) && pos < end
    ensures At(b, pos + |Varint(Tag(r))|, Body(r))
    ensures var p := pos + |Varint(Tag(r))|;
            match f(m, Tag(r), b, p)
            case Broken => DecodeLoop(f, b, pos, end, m) == Error
            case Handled(m', used) => used == |Body(r)| ==>
              DecodeLoop(f, b, pos, end, m) == DecodeLoop(f, b, pos + |RecordBytes(r)|, end, m')
            case Unhandled =>
              DecodeLoop(f, b, pos, end, m) == DecodeLoop(f, b, pos + |RecordBytes(r)|, end, m)
  {
    hide ReadUint32, Skip, Body, WellFormed, Varint;
    TagReads(b, pos, r);
    BodySkips(b, pos + |Varint(Tag(r))|, r);
  }

  // ------------------------------------------------- decoding records by meaning

  /** What a sequence of records means, one after another, when `apply` says what one
      record means for a message; `None` when some record makes the decoder throw. */
  function Fold<M>(apply: (M, Record) -> Option<M>, m: M, rs: seq<Record>): Option<M> {
    if rs == [] then Some(m)
    else match apply(m, rs[0])
         case None => None
         case Some(m') => Fold(apply, m', rs[1..])
  }

  /** The decoder's `switch` does with record `r`, standing at `p`, what `apply` says. */
  ghost predicate Agrees<M>(
      f: (M, nat, bytes, nat) -> FieldStep<M>, apply: (M, Record) -> Option<M>, m: M, r: Record, b: bytes, p: nat)
  {
    match f(m, Tag(r), b, p)
    case Broken => apply(m, r) == None
    case Handled(m', used) => used == |Body(r)| && apply(m, r) == Some(m')
    case Unhandled => apply(m, r) == Some(m)
  }

  /** A decoder that agrees with `apply` record by record decodes any well-formed
      sequence of records, wherever it stands, to what it means, and stops exactly
      at its end. */
  lemma {:induction false} DecodesByMeaning<M(!new)>(
      f: (M, nat, bytes, nat) -> FieldStep<M>, apply: (M, Record) -> Option<M>,
      m: M, rs: seq<Record>, b: bytes, pos: nat)
    requires AllWellFormed(rs) && At(b, pos, RecordsBytes(rs))
    requires forall m', r, p: nat :: r in rs && At(b, p, Body(r)) ==> Agrees(f, apply, m', r, b, p)
    ensures var end := pos + |RecordsBytes(rs)|;
            DecodeLoop(f, b, pos, end, m) == match Fold(apply, m, rs)
                                             case None => Error
                                             case Some(m') => Done(m', end)
    decreases |rs|
  {
    hide ReadUint32, Skip, Body, WellFormed, AllWellFormed, Varint, At, RecordsBytes, RecordBytes;
    if rs == [] {
      NoRecords();
    } else {
      var r, rest := rs[0], rs[1..];
      var end := pos + |RecordsBytes(rs)|;
      HeadStands(b, pos, rs);
      LoopStep(f, b, pos, end, m, r);
      assert Agrees(f, apply, m, r, b, pos + |Varint(Tag(r))|);
      match apply(m, r)
      case None =>
      case Some(m') => DecodesByMeaning(f, apply, m', rest, b, pos + |RecordBytes(r)|);
    }
  }

  lemma NoRecords()
    ensures RecordsBytes([]) == [] && AllWellFormed([])
  {
  }

  lemma OneRecord(r: Record)
    ensures RecordsBytes([r]) == RecordBytes(r) && (AllWellFormed([r]) <==> WellFormed(r))
  {
    assert [r][1..] == [];
  }

  lemma WholeStands(b: bytes)
    ensures At(b, 0, b)
  {
    assert b[0..|b|] == b;
  }

  lemma HeadStands(b: bytes, pos: nat, rs: seq<Record>)
    requires rs != [] && AllWellFormed(rs) && At(b, pos, RecordsBytes(rs))
    ensures WellFormed(rs[0]) && AllWellFormed(rs[1..])
    ensures At(b, pos, RecordBytes(rs[0])) && At(b, pos + |RecordBytes(rs[0])|, RecordsBytes(rs[1..]))
    ensures |RecordsBytes(rs)| == |RecordBytes(rs[0])| + |RecordsBytes(rs[1..])| > 0
  {
    AtSplit(b, pos, RecordBytes(rs[0]), RecordsBytes(rs[1..]));
  }

  lemma {:induction false} RecordsConcat(a: seq<Record>, b: seq<Record>)
    ensures RecordsBytes(a + b) == RecordsBytes(a) + RecordsBytes(b)
    ensures AllWellFormed(a + b) <==> AllWellFormed(a) && AllWellFormed(b)
    decreases |a|
  {
    if a == [] {
      assert a + b == b;
    } else {
      assert (a + b)[1..] == a[1..] + b;
      RecordsConcat(a[1..], b);
    }
  }

  lemma {:induction false} FoldThen<M>(
      apply: (M, Record) -> Option<M>, m: M, a: seq<Record>, m': M, b: seq<Record>)
    requires Fold(apply, m, a) == Some(m')
    ensures Fold(apply, m, a + b) == Fold(apply, m', b)
    decreases |a|
  {
    if a == [] {
      assert a + b == b;
    } else {
      assert (a + b)[1..] == a[1..] + b;
      FoldThen(apply, apply(m, a[0]).value, a[1..], m', b);
    }
  }

  lemma FoldNone<M>(apply: (M, Record) -> Option<M>, m: M)
    ensures Fold(apply, m, []) == Some(m)
  {
  }

  lemma FoldOne<M>(apply: (M, Record) -> Option<M>, m: M, r: Record)
    ensures Fold(apply, m, [r]) == apply(m, r)
  {
  }

  /** The records that a decoder knows, each cut down by `inner`. */
  function Strip(knows: Record -> bool, inner: Record -> Record, rs: seq<Record>): seq<Record> {
    if rs == [] then [] else (if knows(rs[0]) then [inner(rs[0])] else []) + Strip(knows, inner, rs[1..])
  }

  /** Records that mean nothing can be left out anywhere, and the others be replaced by
      records that mean the same. */
  lemma {:induction false} FoldStrip<M(!new)>(
      apply: (M, Record) -> Option<M>, knows: Record -> bool, inner: Record -> Record, m: M, rs: seq<Record>)
    requires forall m', r :: r in rs && !knows(r) ==> apply(m', r) == Some(m')
    requires forall m', r :: r in rs && knows(r) ==> apply(m', r) == apply(m', inner(r))
    ensures Fold(apply, m, rs) == Fold(apply, m, Strip(knows, inner, rs))
    decreases |rs|
  {
    if rs != [] {
      assert rs[0] in rs;
      var rest := Strip(knows, inner, rs[1..]);
      if knows(rs[0]) {
        assert Strip(knows, inner, rs)[1..] == rest;
        match apply(m, rs[0])
        case None =>
        case Some(m') => FoldStrip(apply, knows, inner, m', rs[1..]);
      } else {
        FoldStrip(apply, knows, inner, m, rs[1..]);
        assert Strip(knows, inner, rs) == rest;
      }
    }
  }

  lemma {:induction false} StripHolds(knows: Record -> bool, inner: Record -> Record, rs: seq<Record>, x: Record)
    ensures x in Strip(knows, inner, rs) <==> exists r :: r in rs && knows(r) && inner(r) == x
    decreases |rs|
  {
    if rs != [] {
      StripHolds(knows, inner, rs[1..], x);
      assert forall r :: r in rs <==> r == rs[0] || r in rs[1..];
    }
  }

  // --------------------------------------------------- fields shared by messages

  function ReadString(b: bytes, pos: nat): Read<string> {
    match ReadBytes(b, pos)
    case Bad => Bad
    case Got(p, n) =>
      match U.Decode(p)
      case None => Bad
      case Some(s) => Got(s, n)
  }

  function Put<T, M>(r: Read<T>, put: T -> M): FieldStep<M> {
    match r
    case Bad => Broken
    case Got(v, n) => Handled(put(v), n)
  }

  /** `X.decode(reader, reader.uint32())` for a nested message. */
  function ReadNested<M>(f: (M, nat, bytes, nat) -> FieldStep<M>, base: M, b: bytes, pos: nat): Read<M> {
    match ReadUint32(b, pos)
    case Bad => Bad
    case Got(len, n) =>
      match DecodeLoop(f, b, pos + n, pos + n + len, base)
      case Error => Bad
      case Done(m, p) => Got(m, p - pos)
  }

  /** A nested message decoded from its length prefix ends exactly at its end. */
  lemma NestedReads<M(!new)>(
      f: (M, nat, bytes, nat) -> FieldStep<M>, apply: (M, Record) -> Option<M>, base: M,
      rs: seq<Record>, b: bytes, pos: nat)
    requires AllWellFormed(rs) && |RecordsBytes(rs)| < 0x1_0000_0000 && At(b, pos, LenBytes(RecordsBytes(rs)))
    requires forall m', r, p: nat :: r in rs && At(b, p, Body(r)) ==> Agrees(f, apply, m', r, b, p)
    ensures ReadNested(f, base, b, pos) == match Fold(apply, base, rs)
                                           case None => Bad
                                           case Some(m) => Got(m, |LenBytes(RecordsBytes(rs))|)
  {
    hide ReadUint32, DecodeLoop, Fold, Body, AllWellFormed, Varint, RecordsBytes;
    BytesRead(b, pos, RecordsBytes(rs));
    DecodesByMeaning(f, apply, base, rs, b, pos + |Varint(|RecordsBytes(rs)|)|);
  }

  // The records an encoder writes for a field, none for a default value.

  function TextField(field: nat, s: string): seq<Record> {
    if s == "" then [] else [Len(field, U.Encode(s))]
  }

  function BytesField(field: nat, p: bytes): seq<Record> {
    if |p| == 0 then [] else [Len(field, p)]
  }

  function IntField(field: nat, v: int): seq<Record>
    requires IsInt64(v)
  {
    if v == 0 then [] else [VarintR(field, Unsigned64(v))]
  }

  function BoolField(field: nat, v: bool): seq<Record> {
    if v then [VarintR(field, 1)] else []
  }

  // What a record of the right wire type holds.

  function Text(r: Record): Option<string>
    requires WireType(r) == 2
  {
    U.Decode(Payload(r))
  }

  function Int32Of(r: Record): int
    requires r.VarintR?
  {
    var low := r.value % 0x1_0000_0000;
    if low < 0x8000_0000 then low else low - 0x1_0000_0000
  }

  function Int64Of(r: Record): int
    requires r.VarintR?
  {
    var low := r.value % 0x1_0000_0000_0000_0000;
    if low < 0x8000_0000_0000_0000 then low else low - 0x1_0000_0000_0000_0000
  }

  /** A varint or length-delimited record at `p` reads as what it holds. */
  lemma RecordReads(b: bytes, p: nat, r: Record)
    requires WellFormed(r) && At(b, p, Body(r))
    ensures r.VarintR? ==>
      && ReadInt32(b, p) == Got(Int32Of(r), |Body(r)|)
      && ReadInt64(b, p) == Got(Int64Of(r), |Body(r)|)
      && ReadBool(b, p) == Got(r.value != 0, |Body(r)|)
    ensures WireType(r) == 2 ==>
      && ReadBytes(b, p) == Got(Payload(r), |Body(r)|)
      && ReadString(b, p) == match Text(r) case None => Bad case Some(s) => Got(s, |Body(r)|)
  {
    if r.VarintR? {
      Uint64Reads(b, p, r.value);
    } else if WireType(r) == 2 {
      BytesRead(b, p, Payload(r));
    }
  }

  lemma FieldsHold(field: nat, v: int)
    requires IsInt64(v)
    ensures Int64Of(VarintR(field, Unsigned64(v))) == v
    ensures IsInt32(v) ==> Int32Of(VarintR(field, Unsigned64(v))) == v
  {
  }
}
