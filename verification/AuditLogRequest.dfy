/** `GetAuditLogRequest` and the `Timestamp` inside it: how the poll worker's watermark
    travels to the daemon. */
module AuditLogRequest {
  import opened Prelude
  import opened Wire
  import R = Registry
  import U = Utf8

  datatype Timestamp = Timestamp(seconds: int, nanos: int)

  /** `since` is a date in epoch milliseconds. */
  datatype Request = Request(ethAddress: string, since: Option<int>, limit: int)

  const BASE_TIMESTAMP := Timestamp(0, 0)
  const BASE_REQUEST := Request("", None, 0)

  /** The milliseconds a JavaScript date can hold. */
  predicate IsDate(ms: int) {
    -8_640_000_000_000_000 <= ms <= 8_640_000_000_000_000
  }

  /** Division and remainder that truncate toward zero. */
  function TruncDiv(a: int, d: nat): int
    requires d > 0
  {
    if a >= 0 then a / d else -((-a) / d)
  }

  function ToTimestamp(ms: int): Timestamp {
    Timestamp(TruncDiv(ms, 1000), (ms - 1000 * TruncDiv(ms, 1000)) * 1_000_000)
  }

  /** `new Date(seconds * 1000 + nanos / 1e6)`, in exact arithmetic. */
  function FromTimestamp(t: Timestamp): int {
    TruncDiv(1_000_000_000 * t.seconds + t.nanos, 1_000_000)
  }

  /** The seconds and nanos of a whole millisecond are the one pair that adds up to it with
      nanos short of a second and of the same sign; they fit their fields and give the
      date back. */
  lemma TimestampRoundTrip(ms: int)
    requires IsDate(ms)
    ensures var t := ToTimestamp(ms);
            && 1_000_000_000 * t.seconds + t.nanos == 1_000_000 * ms
            && -1_000_000_000 < t.nanos < 1_000_000_000
            && (t.nanos > 0 ==> ms > 0) && (t.nanos < 0 ==> ms < 0)
    ensures FromTimestamp(ToTimestamp(ms)) == ms
    ensures IsInt64(ToTimestamp(ms).seconds) && IsInt32(ToTimestamp(ms).nanos)
  {
    var t := ToTimestamp(ms);
    assert 1_000_000_000 * t.seconds + t.nanos == 1_000_000 * ms;
  }

  /** Any timestamp is read as its whole milliseconds, the rest cut off toward zero. */
  lemma TimestampReads(t: Timestamp)
    ensures var n, ms := 1_000_000_000 * t.seconds + t.nanos, FromTimestamp(t);
            && (n >= 0 ==> 0 <= n - 1_000_000 * ms < 1_000_000)
            && (n < 0 ==> -1_000_000 < n - 1_000_000 * ms <= 0)
  {
  }

  // ---------------------------------------------------------------------- codec

  function TimestampRecords(t: Timestamp): seq<Record>
    requires IsInt64(t.seconds) && IsInt32(t.nanos)
  {
    IntField(1, t.seconds) + IntField(2, t.nanos)
  }

  predicate Sendable(m: Request) {
    && (m.since.Some? ==> IsDate(m.since.value)) && IsInt32(m.limit)
    && |U.Encode(m.ethAddress)| < 0x1_0000_0000
  }

  function SinceField(since: Option<int>): seq<Record>
    requires since.Some? ==> IsDate(since.value)
  {
    if since.None? then []
    else
      TimestampRoundTrip(since.value);
      [Sub(2, TimestampRecords(ToTimestamp(since.value)))]
  }

  function RequestRecords(m: Request): seq<Record>
    requires Sendable(m)
  {
    TextField(1, m.ethAddress) + (SinceField(m.since) + IntField(3, m.limit))
  }

  function RequestBytes(m: Request): bytes
    requires Sendable(m)
  {
    RecordsBytes(RequestRecords(m))
  }

  function TimestampField(m: Timestamp, tag: nat, b: bytes, pos: nat): FieldStep<Timestamp> {
    match tag
    case 8 => Put(ReadInt64(b, pos), v => m.(seconds := v))
    case 16 => Put(ReadInt32(b, pos), v => m.(nanos := v))
    case _ => Unhandled
  }

  function RequestField(m: Request, tag: nat, b: bytes, pos: nat): FieldStep<Request> {
    match tag
    case 10 => Put(ReadString(b, pos), v => m.(ethAddress := v))
    case 18 => Put(ReadNested(TimestampField, BASE_TIMESTAMP, b, pos), t => m.(since := Some(FromTimestamp(t))))
    case 24 => Put(ReadInt32(b, pos), v => m.(limit := v))
    case _ => Unhandled
  }

  function DecodeRequest(b: bytes): Decoded<Request> {
    DecodeLoop(RequestField, b, 0, |b|, BASE_REQUEST)
  }

  // ------------------------------------------------------------------- meaning

  function TimestampApply(m: Timestamp, r: Record): Option<Timestamp> {
    if WireType(r) != 0 then Some(m)
    else match r.field
         case 1 => Some(m.(seconds := Int64Of(r)))
         case 2 => Some(m.(nanos := Int32Of(r)))
         case _ => Some(m)
  }

  function RequestApply(m: Request, r: Record): Option<Request> {
    match WireType(r)
    case 0 => if r.field == 3 then Some(m.(limit := Int32Of(r))) else Some(m)
    case 2 =>
      (match r.field
       case 1 => R.WithText(r, s => m.(ethAddress := s))
       case 2 => if r.Len? then None
                 else (match Fold(TimestampApply, BASE_TIMESTAMP, r.records)
                       case None => None
                       case Some(t) => Some(m.(since := Some(FromTimestamp(t)))))
       case _ => Some(m))
    case _ => Some(m)
  }

  predicate RequestTyped(r: Record) {
    WireType(r) == 2 && r.field == 2 ==> r.Sub?
  }

  lemma TimestampAgrees(m: Timestamp, r: Record, b: bytes, p: nat)
    requires WellFormed(r) && At(b, p, Body(r))
    ensures Agrees(TimestampField, TimestampApply, m, r, b, p)
  {
    hide Body, WellFormed, At, ReadInt32, ReadInt64, ReadBool, Int32Of, Int64Of, ReadString, ReadBytes;
    R.FieldNumber(r);
    RecordReads(b, p, r);
  }

  lemma TimestampNested(b: bytes, p: nat, rs: seq<Record>)
    requires AllWellFormed(rs) && |RecordsBytes(rs)| < 0x1_0000_0000 && At(b, p, LenBytes(RecordsBytes(rs)))
    ensures ReadNested(TimestampField, BASE_TIMESTAMP, b, p) == match Fold(TimestampApply, BASE_TIMESTAMP, rs)
                                                                case None => Bad
                                                                case Some(m) => Got(m, |LenBytes(RecordsBytes(rs))|)
  {
    hide *;
    forall m, r, q: nat | r in rs && At(b, q, Body(r))
      ensures Agrees(TimestampField, TimestampApply, m, r, b, q)
    {
      R.AllAreWellFormed(rs, r);
      TimestampAgrees(m, r, b, q);
    }
    NestedReads(TimestampField, TimestampApply, BASE_TIMESTAMP, rs, b, p);
  }

  lemma RequestAgreesOnVarints(m: Request, r: Record, b: bytes, p: nat)
    requires WellFormed(r) && WireType(r) != 2 && At(b, p, Body(r))
    ensures Agrees(RequestField, RequestApply, m, r, b, p)
  {
    hide Body, WellFormed, At, ReadInt32, ReadInt64, ReadBool, Int32Of, Int64Of, ReadString, ReadBytes, ReadNested, Fold;
    R.FieldNumber(r);
    RecordReads(b, p, r);
  }

  lemma RequestAgreesOnPayloads(m: Request, r: Record, b: bytes, p: nat)
    requires WellFormed(r) && RequestTyped(r) && WireType(r) == 2 && At(b, p, Body(r))
    ensures Agrees(RequestField, RequestApply, m, r, b, p)
  {
    R.SubBody(b, p, r);
    hide Body, WellFormed, At, ReadInt32, ReadBytes, ReadString, ReadNested, Fold, Text, Payload, FromTimestamp,
      LenBytes, RecordsBytes, AllWellFormed;
    R.FieldNumber(r);
    RecordReads(b, p, r);
    if r.field == 2 {
      TimestampNested(b, p, r.records);
    }
  }

  lemma RequestAgrees(m: Request, r: Record, b: bytes, p: nat)
    requires WellFormed(r) && RequestTyped(r) && At(b, p, Body(r))
    ensures Agrees(RequestField, RequestApply, m, r, b, p)
  {
    hide *;
    if WireType(r) == 2 {
      RequestAgreesOnPayloads(m, r, b, p);
    } else {
      RequestAgreesOnVarints(m, r, b, p);
    }
  }

  /** A request decodes to what its records mean, whatever they are. */
  lemma RequestDecodesByMeaning(m: Request, rs: seq<Record>, b: bytes, pos: nat)
    requires AllWellFormed(rs) && At(b, pos, RecordsBytes(rs)) && forall r :: r in rs ==> RequestTyped(r)
    ensures var end := pos + |RecordsBytes(rs)|;
            DecodeLoop(RequestField, b, pos, end, m) == match Fold(RequestApply, m, rs)
                                                        case None => Error
                                                        case Some(m') => Done(m', end)
  {
    hide *;
    forall m', r, q: nat | r in rs && At(b, q, Body(r))
      ensures Agrees(RequestField, RequestApply, m', r, b, q)
    {
      R.AllAreWellFormed(rs, r);
      RequestAgrees(m', r, b, q);
    }
    DecodesByMeaning(RequestField, RequestApply, m, rs, b, pos);
  }

  // ---------------------------------------------------------------- round trip

  lemma TimestampMeans(t: Timestamp)
    requires IsInt64(t.seconds) && IsInt32(t.nanos)
    ensures Fold(TimestampApply, BASE_TIMESTAMP, TimestampRecords(t)) == Some(t)
  {
    hide Fold, IntField, Int32Of, Int64Of, Unsigned64;
    FieldsHold(1, t.seconds);
    FieldsHold(2, t.nanos);
    var m := Timestamp(t.seconds, 0);
    R.IntFieldFolds(TimestampApply, BASE_TIMESTAMP, 1, t.seconds, m);
    R.IntFieldFolds(TimestampApply, m, 2, t.nanos, t);
    FoldThen(TimestampApply, BASE_TIMESTAMP, IntField(1, t.seconds), m, IntField(2, t.nanos));
  }

  lemma SinceMeans(m: Request, since: Option<int>)
    requires (since.Some? ==> IsDate(since.value)) && m.since == None
    ensures Fold(RequestApply, m, SinceField(since)) == Some(m.(since := since))
  {
    if since.Some? {
      hide Fold, TimestampRecords, ToTimestamp, FromTimestamp;
      TimestampRoundTrip(since.value);
      TimestampMeans(ToTimestamp(since.value));
      FoldOne(RequestApply, m, Sub(2, TimestampRecords(ToTimestamp(since.value))));
    }
  }

  lemma RequestMeans(m: Request)
    requires Sendable(m)
    ensures Fold(RequestApply, BASE_REQUEST, RequestRecords(m)) == Some(m)
  {
    hide Fold, TextField, SinceField, IntField, Int32Of, Unsigned64, U.Encode, U.Decode;
    U.RoundTrip(m.ethAddress);
    FieldsHold(3, m.limit);
    var m1 := Request(m.ethAddress, None, 0);
    var m2 := m1.(since := m.since);
    var r1, r2, r3 := TextField(1, m.ethAddress), SinceField(m.since), IntField(3, m.limit);
    R.TextFieldFolds(RequestApply, BASE_REQUEST, 1, m.ethAddress, m1);
    SinceMeans(m1, m.since);
    R.IntFieldFolds(RequestApply, m2, 3, m.limit, m);
    FoldThen(RequestApply, m1, r2, m2, r3);
    FoldThen(RequestApply, BASE_REQUEST, r1, m1, r2 + r3);
  }

  lemma {:induction false} VarintLength(v: nat, n: nat)
    requires v < Pow128(n) && n > 0
    ensures |Varint(v)| <= n
    decreases n
  {
    if v >= 128 {
      VarintLength(v / 128, n - 1);
    }
  }

  lemma IntFieldSize(field: nat, v: int)
    requires IsInt64(v) && 1 <= field < 16
    ensures AllWellFormed(IntField(field, v)) && |RecordsBytes(IntField(field, v))| <= 11
  {
    if v != 0 {
      var r := VarintR(field, Unsigned64(v));
      assert Pow128(10) == 0x40_0000_0000_0000_0000 && Pow128(1) == 128;
      VarintLength(Unsigned64(v), 10);
      VarintLength(Tag(r), 1);
      OneRecord(r);
    }
  }

  lemma TimestampIsSmall(t: Timestamp)
    requires IsInt64(t.seconds) && IsInt32(t.nanos)
    ensures AllWellFormed(TimestampRecords(t)) && |RecordsBytes(TimestampRecords(t))| <= 22
  {
    IntFieldSize(1, t.seconds);
    IntFieldSize(2, t.nanos);
    RecordsConcat(IntField(1, t.seconds), IntField(2, t.nanos));
  }

  lemma SinceFieldWellFormed(since: Option<int>)
    requires since.Some? ==> IsDate(since.value)
    ensures AllWellFormed(SinceField(since))
  {
    hide RecordsBytes, TimestampRecords, ToTimestamp;
    if since.Some? {
      TimestampRoundTrip(since.value);
      TimestampIsSmall(ToTimestamp(since.value));
      OneRecord(Sub(2, TimestampRecords(ToTimestamp(since.value))));
    }
  }

  lemma RequestIsWellFormed(m: Request)
    requires Sendable(m)
    ensures AllWellFormed(RequestRecords(m))
  {
    hide AllWellFormed, RecordsBytes, SinceField, IntField;
    var r1, r2, r3 := TextField(1, m.ethAddress), SinceField(m.since), IntField(3, m.limit);
    OneRecord(Len(1, U.Encode(m.ethAddress)));
    NoRecords();
    SinceFieldWellFormed(m.since);
    IntFieldSize(3, m.limit);
    RecordsConcat(r2, r3);
    RecordsConcat(r1, r2 + r3);
  }

  lemma RequestIsTyped(m: Request, r: Record)
    requires Sendable(m) && r in RequestRecords(m)
    ensures RequestTyped(r)
  {
    hide TimestampRecords, U.Encode, Unsigned64;
  }

  /** The watermark survives the wire: for every whole-millisecond date, 0 included, and
      every limit, the decoded request is the one that was encoded. */
  lemma RequestRoundTrip(m: Request)
    requires Sendable(m)
    ensures DecodeRequest(RequestBytes(m)) == Done(m, |RequestBytes(m)|)
  {
    hide DecodeLoop, Fold, RecordsBytes, AllWellFormed, RequestTyped, RequestRecords, At;
    var rs := RequestRecords(m);
    var b := RecordsBytes(rs);
    RequestIsWellFormed(m);
    forall r | r in rs
      ensures RequestTyped(r)
    {
      RequestIsTyped(m, r);
    }
    RequestMeans(m);
    WholeStands(b);
    RequestDecodesByMeaning(BASE_REQUEST, rs, b, 0);
  }
}
