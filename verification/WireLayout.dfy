/** The bytes on the wire, told apart from the records that the proofs go through: the
    Protocol Buffers Encoding guide for the primitives, and each generated `encode` for
    its message. */
module WireLayout {
  import opened Prelude
  import opened Wire
  import opened Registry
  import A = AuditLogRequest
  import U = Utf8

  // ------------------------------------------------------------------ varints

  /** Groups of seven bits, the least significant first. */
  function Groups(b: bytes): nat {
    if b == [] then 0 else b[0] % 128 + 128 * Groups(b[1..])
  }

  /** All bytes but the last have the continuation bit. */
  predicate Continued(b: bytes) {
    b != [] && (forall i :: 0 <= i < |b| - 1 ==> b[i] >= 128) && b[|b| - 1] < 128
  }

  /** Section "Base 128 Varints": the shortest run of continued groups. */
  lemma {:induction false} VarintIs(v: nat)
    ensures Continued(Varint(v)) && Groups(Varint(v)) == v
    ensures |Varint(v)| > 1 ==> Varint(v)[|Varint(v)| - 1] != 0
    decreases v
  {
    if v >= 128 {
      var rest := Varint(v / 128);
      VarintIs(v / 128);
      assert Varint(v)[1..] == rest;
      assert forall i :: 1 <= i < |Varint(v)| ==> Varint(v)[i] == rest[i - 1];
    } else {
      assert Varint(v)[1..] == [];
    }
  }

  /** A varint is read from any bytes that continue and end before the limit, shortest
      form or not, and from no others. */
  lemma {:induction false} VarintReadsExactly(b: bytes, pos: nat, limit: nat, n: nat)
    requires 0 < n && pos + n <= |b|
    ensures ReadVarint(b, pos, limit) == Got(Groups(b[pos..pos + n]), n)
            <==> pos + n <= limit && Continued(b[pos..pos + n])
    decreases n
  {
    var x := b[pos..pos + n];
    assert x[0] == b[pos] && x[1..] == b[pos + 1..pos + n];
    if n > 1 {
      VarintReadsExactly(b, pos + 1, limit, n - 1);
      assert forall i :: 1 <= i < n ==> x[i] == x[1..][i - 1];
      if Continued(x) {
        assert forall i :: 0 <= i < n - 2 ==> x[1..][i] == x[i + 1];
      }
    }
  }

  /** Every integer read takes at most ten bytes; the low bits count, and for a signed
      integer they are its two's complement. */
  lemma IntegersRead(b: bytes, pos: nat, n: nat)
    requires 0 < n <= 10 && pos + n <= |b| && Continued(b[pos..pos + n])
    ensures var v := Groups(b[pos..pos + n]);
            && ReadUint32(b, pos) == Got(v % 4294967296, n)
            && (exists i :: ReadInt32(b, pos) == Got(i, n) && IsInt32(i) && (v - i) % 4294967296 == 0)
            && (exists i :: ReadInt64(b, pos) == Got(i, n) && IsInt64(i) && (v - i) % 18446744073709551616 == 0)
            && ReadBool(b, pos) == Got(v % 18446744073709551616 != 0, n)
  {
    VarintReadsExactly(b, pos, pos + 10, n);
    hide Groups, Continued;
    LowBitsRead(b, pos, Groups(b[pos..pos + n]), n);
  }

  lemma LowBitsRead(b: bytes, pos: nat, v: nat, n: nat)
    requires ReadVarint(b, pos, pos + 10) == Got(v, n)
    ensures ReadUint32(b, pos) == Got(v % 4294967296, n)
    ensures exists i :: ReadInt32(b, pos) == Got(i, n) && IsInt32(i) && (v - i) % 4294967296 == 0
    ensures exists i :: ReadInt64(b, pos) == Got(i, n) && IsInt64(i) && (v - i) % 18446744073709551616 == 0
    ensures ReadBool(b, pos) == Got(v % 18446744073709551616 != 0, n)
  {
    hide ReadVarint, IsInt32, IsInt64;
    TwoModuli(v);
    Complement32(v);
    Complement64(v);
  }

  lemma TwoModuli(v: nat)
    ensures v % 18446744073709551616 % 4294967296 == v % 4294967296
  {
    assert 18446744073709551616 == 4294967296 * 4294967296;
    var q, low := v / 18446744073709551616, v % 18446744073709551616;
    assert v == 4294967296 * (4294967296 * q + low / 4294967296) + low % 4294967296;
  }

  lemma Complement32(v: nat)
    ensures var low := v % 4294967296; var i := if low < 0x8000_0000 then low else low - 0x1_0000_0000;
            IsInt32(i) && (v - i) % 4294967296 == 0
  {
  }

  lemma Complement64(v: nat)
    ensures var low := v % 18446744073709551616;
            var i := if low < 0x8000_0000_0000_0000 then low else low - 0x1_0000_0000_0000_0000;
            IsInt64(i) && (v - i) % 18446744073709551616 == 0
  {
  }

  /** Section "Signed Integers": the two's complement in 64 bits. */
  lemma SignedIs(v: int)
    requires IsInt64(v)
    ensures 0 <= Unsigned64(v) < 18446744073709551616
    ensures (Unsigned64(v) - v) % 18446744073709551616 == 0
  {
  }

  // ----------------------------------------------------- what the encoders write

  function Delimited(p: bytes): bytes {
    Varint(|p|) + p
  }

  function StringAt(tag: byte, s: string): bytes {
    if s == "" then [] else [tag] + Delimited(U.Encode(s))
  }

  function BytesAt(tag: byte, p: bytes): bytes {
    if p == [] then [] else [tag] + Delimited(p)
  }

  function IntAt(tag: byte, v: int): bytes
    requires IsInt64(v)
  {
    if v == 0 then [] else [tag] + Varint(if v < 0 then v + 18446744073709551616 else v)
  }

  /** `Offering.encode`. */
  function OfferingLayout(m: Offering): bytes {
    StringAt(10, m.id) + (StringAt(18, m.pricePerWorkUnitWei) + BytesAt(26, m.constraintsJson))
  }

  function OfferingsLayout(ms: seq<Offering>): bytes {
    if ms == [] then [] else ([26] + Delimited(OfferingLayout(ms[0]))) + OfferingsLayout(ms[1..])
  }

  /** `Capability.encode`. */
  function CapabilityLayout(m: Capability): bytes {
    StringAt(10, m.name) + (StringAt(18, m.workUnit) + (OfferingsLayout(m.offerings) + BytesAt(34, m.extraJson)))
  }

  function CapabilitiesLayout(ms: seq<Capability>): bytes {
    if ms == [] then [] else ([42] + Delimited(CapabilityLayout(ms[0]))) + CapabilitiesLayout(ms[1..])
  }

  function TiersLayout(ts: seq<string>): bytes {
    if ts == [] then [] else ([82] + Delimited(U.Encode(ts[0]))) + TiersLayout(ts[1..])
  }

  /** `Node.encode`. */
  function NodeLayout(m: Node): bytes
    requires IsInt32(m.source) && IsInt32(m.signatureStatus) && IsInt32(m.weight)
  {
    StringAt(10, m.id) + (StringAt(18, m.url) + (StringAt(26, m.workerEthAddress) + (BytesAt(34, m.extraJson)
    + (CapabilitiesLayout(m.capabilities) + (IntAt(48, m.source) + (IntAt(56, m.signatureStatus)
    + (StringAt(66, m.operatorAddress) + ((if m.enabled then [72, 1] else []) + (TiersLayout(m.tierAllowed)
    + IntAt(88, m.weight))))))))))
  }

  /** `GetAuditLogRequest.encode`, with the seconds and nanos of `since`. */
  function RequestLayout(m: A.Request, seconds: int, nanos: int): bytes
    requires IsInt64(seconds) && IsInt64(nanos) && IsInt32(m.limit)
  {
    StringAt(10, m.ethAddress)
    + ((if m.since.Some? then [18] + Delimited(IntAt(8, seconds) + IntAt(16, nanos)) else []) + IntAt(24, m.limit))
  }

  lemma OneByteTag(r: Record)
    requires 1 <= r.field < 16
    ensures RecordsBytes([r]) == [r.field * 8 + WireType(r)] + Body(r)
  {
    OneRecord(r);
    hide Body, RecordsBytes;
    assert Varint(Tag(r)) == [Tag(r)];
  }

  lemma LenLayout(field: nat, p: bytes)
    requires 1 <= field < 16
    ensures RecordsBytes([Len(field, p)]) == [field * 8 + 2] + Delimited(p)
  {
    hide RecordsBytes;
    OneByteTag(Len(field, p));
  }

  lemma VarintLayout(field: nat, v: nat)
    requires 1 <= field < 16
    ensures RecordsBytes([VarintR(field, v)]) == [field * 8] + Varint(v)
  {
    hide RecordsBytes, Varint;
    OneByteTag(VarintR(field, v));
  }

  lemma FieldsLayout(field: nat, s: string, p: bytes, v: int, flag: bool)
    requires 1 <= field < 16 && IsInt64(v)
    ensures RecordsBytes(TextField(field, s)) == StringAt(field * 8 + 2, s)
    ensures RecordsBytes(BytesField(field, p)) == BytesAt(field * 8 + 2, p)
    ensures RecordsBytes(IntField(field, v)) == IntAt(field * 8, v)
    ensures RecordsBytes(BoolField(field, flag)) == if flag then [field * 8, 1] else []
  {
    assert Varint(1) == [1];
    hide RecordsBytes, Varint, Delimited, U.Encode;
    NoRecords();
    LenLayout(field, U.Encode(s));
    LenLayout(field, p);
    VarintLayout(field, Unsigned64(v));
    VarintLayout(field, 1);
  }

  lemma SubLayout(field: nat, rs: seq<Record>, rest: seq<Record>)
    requires 1 <= field < 16
    ensures RecordsBytes([Sub(field, rs)] + rest) == ([field * 8 + 2] + Delimited(RecordsBytes(rs))) + RecordsBytes(rest)
  {
    hide RecordsBytes;
    OneByteTag(Sub(field, rs));
    RecordsConcat([Sub(field, rs)], rest);
  }

  lemma OfferingBytesAre(m: Offering)
    ensures RecordsBytes(OfferingRecords(m)) == OfferingLayout(m)
  {
    hide RecordsBytes, TextField, BytesField, StringAt, BytesAt;
    var r1, r2, r3 := TextField(1, m.id), TextField(2, m.pricePerWorkUnitWei), BytesField(3, m.constraintsJson);
    FieldsLayout(1, m.id, [], 0, false);
    FieldsLayout(2, m.pricePerWorkUnitWei, [], 0, false);
    FieldsLayout(3, "", m.constraintsJson, 0, false);
    RecordsConcat(r2, r3);
    RecordsConcat(r1, r2 + r3);
  }

  lemma {:induction false} OfferingsBytesAre(ms: seq<Offering>)
    ensures RecordsBytes(OfferingFields(ms)) == OfferingsLayout(ms)
    decreases |ms|
  {
    hide RecordsBytes, OfferingRecords, OfferingLayout, Delimited;
    if ms == [] {
      NoRecords();
    } else {
      OfferingBytesAre(ms[0]);
      OfferingsBytesAre(ms[1..]);
      SubLayout(3, OfferingRecords(ms[0]), OfferingFields(ms[1..]));
    }
  }

  lemma CapabilityBytesAre(m: Capability)
    ensures RecordsBytes(CapabilityRecords(m)) == CapabilityLayout(m)
  {
    hide RecordsBytes, TextField, BytesField, StringAt, BytesAt, OfferingFields, OfferingsLayout;
    var r1, r2, r3, r4 := TextField(1, m.name), TextField(2, m.workUnit), OfferingFields(m.offerings),
                          BytesField(4, m.extraJson);
    FieldsLayout(1, m.name, [], 0, false);
    FieldsLayout(2, m.workUnit, [], 0, false);
    OfferingsBytesAre(m.offerings);
    FieldsLayout(4, "", m.extraJson, 0, false);
    RecordsConcat(r3, r4);
    RecordsConcat(r2, r3 + r4);
    RecordsConcat(r1, r2 + (r3 + r4));
  }

  lemma {:induction false} CapabilitiesBytesAre(ms: seq<Capability>)
    ensures RecordsBytes(CapabilityFields(ms)) == CapabilitiesLayout(ms)
    decreases |ms|
  {
    hide RecordsBytes, CapabilityRecords, CapabilityLayout, Delimited;
    if ms == [] {
      NoRecords();
    } else {
      CapabilityBytesAre(ms[0]);
      CapabilitiesBytesAre(ms[1..]);
      SubLayout(5, CapabilityRecords(ms[0]), CapabilityFields(ms[1..]));
    }
  }

  lemma {:induction false} TiersBytesAre(ts: seq<string>)
    ensures RecordsBytes(TierFields(ts)) == TiersLayout(ts)
    decreases |ts|
  {
    hide U.Encode, RecordsBytes, Delimited;
    if ts == [] {
      NoRecords();
    } else {
      LenLayout(10, U.Encode(ts[0]));
      RecordsConcat([Len(10, U.Encode(ts[0]))], TierFields(ts[1..]));
      TiersBytesAre(ts[1..]);
    }
  }

  lemma LateBytesAre(m: Node)
    requires IsInt32(m.source) && IsInt32(m.signatureStatus) && IsInt32(m.weight)
    ensures RecordsBytes(LateRecords(m))
            == IntAt(48, m.source) + (IntAt(56, m.signatureStatus) + (StringAt(66, m.operatorAddress)
               + ((if m.enabled then [72, 1] else []) + (TiersLayout(m.tierAllowed) + IntAt(88, m.weight)))))
  {
    hide RecordsBytes, TextField, IntField, BoolField, TierFields, StringAt, IntAt, TiersLayout;
    var r1, r2, r3 := IntField(6, m.source), IntField(7, m.signatureStatus), TextField(8, m.operatorAddress);
    var r4, r5, r6 := BoolField(9, m.enabled), TierFields(m.tierAllowed), IntField(11, m.weight);
    FieldsLayout(6, "", [], m.source, false);
    FieldsLayout(7, "", [], m.signatureStatus, false);
    FieldsLayout(8, m.operatorAddress, [], 0, false);
    FieldsLayout(9, "", [], 0, m.enabled);
    TiersBytesAre(m.tierAllowed);
    FieldsLayout(11, "", [], m.weight, false);
    RecordsConcat(r5, r6);
    RecordsConcat(r4, r5 + r6);
    RecordsConcat(r3, r4 + (r5 + r6));
    RecordsConcat(r2, r3 + (r4 + (r5 + r6)));
    RecordsConcat(r1, r2 + (r3 + (r4 + (r5 + r6))));
  }

  /** A node's bytes are what the source writes, tag by tag. */
  lemma NodeBytesAre(m: Node)
    requires Encodable(m)
    ensures NodeBytes(m) == NodeLayout(m)
  {
    hide RecordsBytes, AllWellFormed, TextField, BytesField, StringAt, BytesAt, CapabilityFields, CapabilitiesLayout,
      IntField, BoolField, TierFields, IntAt, TiersLayout;
    var r1, r2, r3 := TextField(1, m.id), TextField(2, m.url), TextField(3, m.workerEthAddress);
    var r4, r5, r6 := BytesField(4, m.extraJson), CapabilityFields(m.capabilities), LateRecords(m);
    FieldsLayout(1, m.id, [], 0, false);
    FieldsLayout(2, m.url, [], 0, false);
    FieldsLayout(3, m.workerEthAddress, [], 0, false);
    FieldsLayout(4, "", m.extraJson, 0, false);
    CapabilitiesBytesAre(m.capabilities);
    LateBytesAre(m);
    assert NodeRecords(m) == r1 + (r2 + (r3 + (r4 + (r5 + r6))));
    RecordsConcat(r5, r6);
    RecordsConcat(r4, r5 + r6);
    RecordsConcat(r3, r4 + (r5 + r6));
    RecordsConcat(r2, r3 + (r4 + (r5 + r6)));
    RecordsConcat(r1, r2 + (r3 + (r4 + (r5 + r6))));
  }

  lemma TimestampBytesAre(t: A.Timestamp)
    requires IsInt64(t.seconds) && IsInt32(t.nanos)
    ensures RecordsBytes(A.TimestampRecords(t)) == IntAt(8, t.seconds) + IntAt(16, t.nanos)
  {
    hide RecordsBytes, IntField, IntAt;
    FieldsLayout(1, "", [], t.seconds, false);
    FieldsLayout(2, "", [], t.nanos, false);
    RecordsConcat(IntField(1, t.seconds), IntField(2, t.nanos));
  }

  /** A request's bytes are what the source writes: `since` goes out as the whole seconds
      and the rest in nanos, both with the sign of the date. */
  lemma RequestBytesAre(m: A.Request, seconds: int, nanos: int)
    requires A.Sendable(m) && IsInt64(seconds) && IsInt64(nanos)
    requires m.since.Some? ==>
      && 1_000_000_000 * seconds + nanos == 1_000_000 * m.since.value && -1_000_000_000 < nanos < 1_000_000_000
      && (nanos > 0 ==> m.since.value > 0) && (nanos < 0 ==> m.since.value < 0)
    ensures A.RequestBytes(m) == RequestLayout(m, seconds, nanos)
  {
    if m.since.Some? {
      A.TimestampRoundTrip(m.since.value);
      OnePair(seconds, nanos, A.ToTimestamp(m.since.value), m.since.value);
    }
    hide RecordsBytes, TextField, IntField, IntAt, StringAt, Delimited, A.TimestampRecords, A.ToTimestamp;
    var r1, r2, r3 := TextField(1, m.ethAddress), A.SinceField(m.since), IntField(3, m.limit);
    FieldsLayout(1, m.ethAddress, [], 0, false);
    FieldsLayout(3, "", [], m.limit, false);
    NoRecords();
    if m.since.Some? {
      var t := A.ToTimestamp(m.since.value);
      TimestampBytesAre(t);
      SubLayout(2, A.TimestampRecords(t), []);
      assert [Sub(2, A.TimestampRecords(t))] + [] == r2;
      assert RecordsBytes(r2) == [18] + Delimited(IntAt(8, seconds) + IntAt(16, nanos));
    }
    RecordsConcat(r2, r3);
    RecordsConcat(r1, r2 + r3);
  }

  /** Seconds and nanos of one sign are determined by their sum. */
  lemma OnePair(seconds: int, nanos: int, t: A.Timestamp, ms: int)
    requires 1_000_000_000 * seconds + nanos == 1_000_000 * ms == 1_000_000_000 * t.seconds + t.nanos
    requires -1_000_000_000 < nanos < 1_000_000_000 && -1_000_000_000 < t.nanos < 1_000_000_000
    requires (nanos > 0 ==> ms > 0) && (nanos < 0 ==> ms < 0) && (t.nanos > 0 ==> ms > 0) && (t.nanos < 0 ==> ms < 0)
    ensures seconds == t.seconds && nanos == t.nanos
  {
  }

  // ------------------------------------------------------------------ skipping

  /** Section "Message Structure": how far each wire type is skipped. */
  lemma SkipLengths(b: bytes, p: nat)
    ensures Skip(b, p, 1) == if p + 8 <= |b| then Got((), 8) else Bad
    ensures Skip(b, p, 5) == if p + 4 <= |b| then Got((), 4) else Bad
    ensures Skip(b, p, 4) == Skip(b, p, 6) == Skip(b, p, 7) == Bad
  {
  }

  lemma SkipsByVarint(b: bytes, p: nat, n: nat)
    requires 0 < n && p + n <= |b| && Continued(b[p..p + n])
    ensures Skip(b, p, 0) == Got((), n)
    ensures var len := Groups(b[p..p + n]);
            n <= 10 && len < 4294967296 && p + n + len <= |b| ==> Skip(b, p, 2) == Got((), n + len)
  {
    hide Groups, Continued, ReadUint32;
    SkipsContinued(b, p, n);
    if n <= 10 {
      IntegersRead(b, p, n);
    }
  }

  lemma {:induction false} SkipsContinued(b: bytes, p: nat, n: nat)
    requires 0 < n && p + n <= |b| && Continued(b[p..p + n])
    ensures SkipVarint(b, p) == Got((), n)
    decreases n
  {
    var x := b[p..p + n];
    assert x[0] == b[p] && x[1..] == b[p + 1..p + n];
    if n > 1 {
      assert forall i :: 0 <= i < n - 1 ==> x[1..][i] == x[i + 1];
      SkipsContinued(b, p + 1, n - 1);
    }
  }

  /** The guide's own examples: 150 as a varint, as field 1, and "testing" as field 2; and
      a group of one varint field. */
  lemma GuideExamples()
    ensures Varint(150) == [0x96, 0x01]
    ensures RecordBytes(VarintR(1, 150)) == [0x08, 0x96, 0x01]
    ensures RecordBytes(Len(2, [0x74, 0x65, 0x73, 0x74, 0x69, 0x6e, 0x67]))
            == [0x12, 0x07, 0x74, 0x65, 0x73, 0x74, 0x69, 0x6e, 0x67]
    ensures RecordBytes(Group(1, [VarintR(1, 1)])) == [0x0b, 0x08, 0x01, 0x0c]
  {
    OneRecord(VarintR(1, 1));
    assert Varint(150) == [128 + 150 % 128] + Varint(1);
  }
}
