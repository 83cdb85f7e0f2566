/** The registry messages `Offering`, `Capability` and `Node`: what their encoders write,
    what their decoders do with each tag, and what a record means for each. */
module Registry {
  import opened Prelude
  import opened Wire
  import U = Utf8

  datatype Offering = Offering(id: string, pricePerWorkUnitWei: string, constraintsJson: bytes)

  datatype Capability = Capability(name: string, workUnit: string, offerings: seq<Offering>, extraJson: bytes)

  datatype Node = Node(
    id: string, url: string, workerEthAddress: string, extraJson: bytes, capabilities: seq<Capability>,
    source: int, signatureStatus: int, operatorAddress: string, enabled: bool,
    tierAllowed: seq<string>, weight: int)

  const BASE_OFFERING := Offering("", "", [])
  const BASE_CAPABILITY := Capability("", "", [], [])
  const BASE_NODE := Node("", "", "", [], [], 0, 0, "", false, [], 0)

  // ------------------------------------------------------------------ encoding

  function OfferingRecords(m: Offering): seq<Record> {
    TextField(1, m.id) + (TextField(2, m.pricePerWorkUnitWei) + BytesField(3, m.constraintsJson))
  }

  function OfferingFields(ms: seq<Offering>): seq<Record> {
    if ms == [] then [] else [Sub(3, OfferingRecords(ms[0]))] + OfferingFields(ms[1..])
  }

  function CapabilityRecords(m: Capability): seq<Record> {
    TextField(1, m.name)
    + (TextField(2, m.workUnit) + (OfferingFields(m.offerings) + BytesField(4, m.extraJson)))
  }

  function CapabilityFields(ms: seq<Capability>): seq<Record> {
    if ms == [] then [] else [Sub(5, CapabilityRecords(ms[0]))] + CapabilityFields(ms[1..])
  }

  /** `tierAllowed` is repeated, so its empty strings are written too. */
  function TierFields(ts: seq<string>): seq<Record> {
    if ts == [] then [] else [Len(10, U.Encode(ts[0]))] + TierFields(ts[1..])
  }

  function NodeRecords(m: Node): seq<Record>
    requires IsInt32(m.source) && IsInt32(m.signatureStatus) && IsInt32(m.weight)
  {
    TextField(1, m.id) + (TextField(2, m.url) + (TextField(3, m.workerEthAddress) + (BytesField(4, m.extraJson)
    + (CapabilityFields(m.capabilities) + (IntField(6, m.source) + (IntField(7, m.signatureStatus)
    + (TextField(8, m.operatorAddress) + (BoolField(9, m.enabled) + (TierFields(m.tierAllowed)
    + IntField(11, m.weight))))))))))
  }

  /** In-range int32 fields, and every length below 2^32. */
  predicate Encodable(m: Node) {
    && IsInt32(m.source) && IsInt32(m.signatureStatus) && IsInt32(m.weight)
    && AllWellFormed(NodeRecords(m))
  }

  function NodeBytes(m: Node): bytes
    requires Encodable(m)
  {
    RecordsBytes(NodeRecords(m))
  }

  // ------------------------------------------------------------------ decoding

  function OfferingField(m: Offering, tag: nat, b: bytes, pos: nat): FieldStep<Offering> {
    match tag
    case 10 => Put(ReadString(b, pos), v => m.(id := v))
    case 18 => Put(ReadString(b, pos), v => m.(pricePerWorkUnitWei := v))
    case 26 => Put(ReadBytes(b, pos), v => m.(constraintsJson := v))
    case _ => Unhandled
  }

  function CapabilityField(m: Capability, tag: nat, b: bytes, pos: nat): FieldStep<Capability> {
    match tag
    case 10 => Put(ReadString(b, pos), v => m.(name := v))
    case 18 => Put(ReadString(b, pos), v => m.(workUnit := v))
    case 26 => Put(ReadNested(OfferingField, BASE_OFFERING, b, pos), v => m.(offerings := m.offerings + [v]))
    case 34 => Put(ReadBytes(b, pos), v => m.(extraJson := v))
    case _ => Unhandled
  }

  function NodeField(m: Node, tag: nat, b: bytes, pos: nat): FieldStep<Node> {
    match tag
    case 10 => Put(ReadString(b, pos), v => m.(id := v))
    case 18 => Put(ReadString(b, pos), v => m.(url := v))
    case 26 => Put(ReadString(b, pos), v => m.(workerEthAddress := v))
    case 34 => Put(ReadBytes(b, pos), v => m.(extraJson := v))
    case 42 => Put(ReadNested(CapabilityField, BASE_CAPABILITY, b, pos),
                   v => m.(capabilities := m.capabilities + [v]))
    case 48 => Put(ReadInt32(b, pos), v => m.(source := v))
    case 56 => Put(ReadInt32(b, pos), v => m.(signatureStatus := v))
    case 66 => Put(ReadString(b, pos), v => m.(operatorAddress := v))
    case 72 => Put(ReadBool(b, pos), v => m.(enabled := v))
    case 82 => Put(ReadString(b, pos), v => m.(tierAllowed := m.tierAllowed + [v]))
    case 88 => Put(ReadInt32(b, pos), v => m.(weight := v))
    case _ => Unhandled
  }

  /** `Node.decode(input)`. */
  function DecodeNode(b: bytes): Decoded<Node> {
    DecodeLoop(NodeField, b, 0, |b|, BASE_NODE)
  }

  // ------------------------------------------------------------------- meaning

  function WithText<M>(r: Record, put: string -> M): Option<M>
    requires WireType(r) == 2
  {
    match Text(r)
    case None => None
    case Some(s) => Some(put(s))
  }

  function OfferingApply(m: Offering, r: Record): Option<Offering> {
    if WireType(r) != 2 then Some(m)
    else match r.field
         case 1 => WithText(r, s => m.(id := s))
         case 2 => WithText(r, s => m.(pricePerWorkUnitWei := s))
         case 3 => Some(m.(constraintsJson := Payload(r)))
         case _ => Some(m)
  }

  function CapabilityApply(m: Capability, r: Record): Option<Capability> {
    if WireType(r) != 2 then Some(m)
    else match r.field
         case 1 => WithText(r, s => m.(name := s))
         case 2 => WithText(r, s => m.(workUnit := s))
         case 3 => if r.Len? then None
                   else (match Fold(OfferingApply, BASE_OFFERING, r.records)
                         case None => None
                         case Some(o) => Some(m.(offerings := m.offerings + [o])))
         case 4 => Some(m.(extraJson := Payload(r)))
         case _ => Some(m)
  }

  function NodeApply(m: Node, r: Record): Option<Node> {
    match WireType(r)
    case 0 =>
      (match r.field
       case 6 => Some(m.(source := Int32Of(r)))
       case 7 => Some(m.(signatureStatus := Int32Of(r)))
       case 9 => Some(m.(enabled := r.value != 0))
       case 11 => Some(m.(weight := Int32Of(r)))
       case _ => Some(m))
    case 2 =>
      (match r.field
       case 1 => WithText(r, s => m.(id := s))
       case 2 => WithText(r, s => m.(url := s))
       case 3 => WithText(r, s => m.(workerEthAddress := s))
       case 4 => Some(m.(extraJson := Payload(r)))
       case 5 => if r.Len? then None
                 else (match Fold(CapabilityApply, BASE_CAPABILITY, r.records)
                       case None => None
                       case Some(c) => Some(m.(capabilities := m.capabilities + [c])))
       case 8 => WithText(r, s => m.(operatorAddress := s))
       case 10 => WithText(r, s => m.(tierAllowed := m.tierAllowed + [s]))
       case _ => Some(m))
    case _ => Some(m)
  }

  /** A length-delimited record where a nested message belongs holds records, not
      arbitrary bytes. */
  predicate CapabilityTyped(r: Record) {
    WireType(r) == 2 && r.field == 3 ==> r.Sub?
  }

  predicate NodeTyped(r: Record) {
    WireType(r) == 2 && r.field == 5 ==> r.Sub? && forall x :: x in r.records ==> CapabilityTyped(x)
  }

  // ----------------------------------------------- the decoders follow the meaning

  lemma OfferingAgrees(m: Offering, r: Record, b: bytes, p: nat)
    requires WellFormed(r) && At(b, p, Body(r))
    ensures Agrees(OfferingField, OfferingApply, m, r, b, p)
  {
    hide Body, WellFormed, At, ReadString, ReadBytes, ReadInt32, ReadInt64, ReadBool, Text, Payload;
    FieldNumber(r);
    RecordReads(b, p, r);
  }

  lemma FieldNumber(r: Record)
    ensures Tag(r) / 8 == r.field && Tag(r) % 8 == WireType(r)
  {
  }

  lemma {:induction false} AllAreWellFormed(rs: seq<Record>, r: Record)
    requires AllWellFormed(rs) && r in rs
    ensures WellFormed(r)
    decreases |rs|
  {
    if r != rs[0] {
      AllAreWellFormed(rs[1..], r);
    }
  }

  lemma OfferingNested(b: bytes, p: nat, rs: seq<Record>)
    requires AllWellFormed(rs) && |RecordsBytes(rs)| < 0x1_0000_0000 && At(b, p, LenBytes(RecordsBytes(rs)))
    ensures ReadNested(OfferingField, BASE_OFFERING, b, p) == match Fold(OfferingApply, BASE_OFFERING, rs)
                                                              case None => Bad
                                                              case Some(m) => Got(m, |LenBytes(RecordsBytes(rs))|)
  {
    hide *;
    forall m, r, q: nat | r in rs && At(b, q, Body(r))
      ensures Agrees(OfferingField, OfferingApply, m, r, b, q)
    {
      AllAreWellFormed(rs, r);
      OfferingAgrees(m, r, b, q);
    }
    NestedReads(OfferingField, OfferingApply, BASE_OFFERING, rs, b, p);
  }

  lemma CapabilityAgreesOnPayloads(m: Capability, r: Record, b: bytes, p: nat)
    requires WellFormed(r) && CapabilityTyped(r) && WireType(r) == 2 && At(b, p, Body(r))
    ensures Agrees(CapabilityField, CapabilityApply, m, r, b, p)
  {
    SubBody(b, p, r);
    hide Body, WellFormed, At, ReadString, ReadBytes, Text, Payload, ReadNested, Fold, LenBytes, RecordsBytes,
      AllWellFormed;
    FieldNumber(r);
    RecordReads(b, p, r);
    if r.field == 3 {
      OfferingNested(b, p, r.records);
    }
  }

  lemma CapabilityAgrees(m: Capability, r: Record, b: bytes, p: nat)
    requires WellFormed(r) && CapabilityTyped(r) && At(b, p, Body(r))
    ensures Agrees(CapabilityField, CapabilityApply, m, r, b, p)
  {
    if WireType(r) == 2 {
      hide *;
      CapabilityAgreesOnPayloads(m, r, b, p);
    } else {
      hide Body, WellFormed, At, ReadString, ReadBytes, ReadNested, Fold;
      FieldNumber(r);
    }
  }

  lemma SubBody(b: bytes, p: nat, r: Record)
    requires WellFormed(r) && At(b, p, Body(r))
    ensures r.Sub? ==> AllWellFormed(r.records) && |RecordsBytes(r.records)| < 0x1_0000_0000
                       && Body(r) == LenBytes(RecordsBytes(r.records)) && At(b, p, LenBytes(RecordsBytes(r.records)))
  {
  }

  lemma CapabilityNested(b: bytes, p: nat, rs: seq<Record>)
    requires AllWellFormed(rs) && |RecordsBytes(rs)| < 0x1_0000_0000 && At(b, p, LenBytes(RecordsBytes(rs)))
    requires forall x :: x in rs ==> CapabilityTyped(x)
    ensures ReadNested(CapabilityField, BASE_CAPABILITY, b, p)
            == match Fold(CapabilityApply, BASE_CAPABILITY, rs)
               case None => Bad
               case Some(m) => Got(m, |LenBytes(RecordsBytes(rs))|)
  {
    hide *;
    forall m, r, q: nat | r in rs && At(b, q, Body(r))
      ensures Agrees(CapabilityField, CapabilityApply, m, r, b, q)
    {
      AllAreWellFormed(rs, r);
      CapabilityAgrees(m, r, b, q);
    }
    NestedReads(CapabilityField, CapabilityApply, BASE_CAPABILITY, rs, b, p);
  }

  lemma NodeAgreesOnVarints(m: Node, r: Record, b: bytes, p: nat)
    requires WellFormed(r) && WireType(r) != 2 && At(b, p, Body(r))
    ensures Agrees(NodeField, NodeApply, m, r, b, p)
  {
    hide Body, WellFormed, At, ReadString, ReadBytes, ReadInt32, ReadInt64, ReadBool, Text, ReadNested, Fold, Int32Of;
    FieldNumber(r);
    RecordReads(b, p, r);
  }

  lemma NodeAgreesOnPayloads(m: Node, r: Record, b: bytes, p: nat)
    requires WellFormed(r) && NodeTyped(r) && WireType(r) == 2 && At(b, p, Body(r))
    ensures Agrees(NodeField, NodeApply, m, r, b, p)
  {
    SubBody(b, p, r);
    hide Body, WellFormed, At, ReadString, ReadBytes, ReadInt32, ReadBool, Text, Payload, ReadNested, Fold, Int32Of,
      LenBytes, RecordsBytes, AllWellFormed;
    FieldNumber(r);
    RecordReads(b, p, r);
    if r.field == 5 {
      CapabilityNested(b, p, r.records);
    }
  }

  lemma NodeAgrees(m: Node, r: Record, b: bytes, p: nat)
    requires WellFormed(r) && NodeTyped(r) && At(b, p, Body(r))
    ensures Agrees(NodeField, NodeApply, m, r, b, p)
  {
    hide *;
    if WireType(r) == 2 {
      NodeAgreesOnPayloads(m, r, b, p);
    } else {
      NodeAgreesOnVarints(m, r, b, p);
    }
  }

  /** Decoding any well-formed records of a node, in any order and number, gives what
      they mean one after another, and the decoder stops exactly at their end. */
  lemma NodeDecodesByMeaning(m: Node, rs: seq<Record>, b: bytes, pos: nat)
    requires AllWellFormed(rs) && At(b, pos, RecordsBytes(rs)) && forall r :: r in rs ==> NodeTyped(r)
    ensures var end := pos + |RecordsBytes(rs)|;
            DecodeLoop(NodeField, b, pos, end, m) == match Fold(NodeApply, m, rs)
                                                     case None => Error
                                                     case Some(m') => Done(m', end)
  {
    hide *;
    forall m', r, q: nat | r in rs && At(b, q, Body(r))
      ensures Agrees(NodeField, NodeApply, m', r, b, q)
    {
      AllAreWellFormed(rs, r);
      NodeAgrees(m', r, b, q);
    }
    DecodesByMeaning(NodeField, NodeApply, m, rs, b, pos);
  }

  // ------------------------------------------------------ what an encoding means

  lemma TextFieldFolds<M>(apply: (M, Record) -> Option<M>, m: M, field: nat, s: string, m': M)
    requires s != "" ==> apply(m, Len(field, U.Encode(s))) == Some(m')
    requires s == "" ==> m' == m
    ensures Fold(apply, m, TextField(field, s)) == Some(m')
  {
    if s != "" {
      FoldOne(apply, m, Len(field, U.Encode(s)));
    }
  }

  /** Later non-default scalars win and repeated fields are appended: section "Last One
      Wins" of the Protocol Buffers Encoding guide. */
  function LastText(a: string, b: string): string {
    if b != "" then b else a
  }

  function LastBytes(a: bytes, b: bytes): bytes {
    if |b| != 0 then b else a
  }

  function LastInt(a: int, b: int): int {
    if b != 0 then b else a
  }

  function MergeOffering(a: Offering, b: Offering): Offering {
    Offering(LastText(a.id, b.id), LastText(a.pricePerWorkUnitWei, b.pricePerWorkUnitWei),
             LastBytes(a.constraintsJson, b.constraintsJson))
  }

  function MergeCapability(a: Capability, b: Capability): Capability {
    Capability(LastText(a.name, b.name), LastText(a.workUnit, b.workUnit), a.offerings + b.offerings,
               LastBytes(a.extraJson, b.extraJson))
  }

  function MergeNode(a: Node, b: Node): Node {
    Node(LastText(a.id, b.id), LastText(a.url, b.url), LastText(a.workerEthAddress, b.workerEthAddress),
         LastBytes(a.extraJson, b.extraJson), a.capabilities + b.capabilities, LastInt(a.source, b.source),
         LastInt(a.signatureStatus, b.signatureStatus), LastText(a.operatorAddress, b.operatorAddress),
         a.enabled || b.enabled, a.tierAllowed + b.tierAllowed, LastInt(a.weight, b.weight))
  }

  lemma BytesFieldFolds<M>(apply: (M, Record) -> Option<M>, m: M, field: nat, p: bytes, m': M)
    requires |p| != 0 ==> apply(m, Len(field, p)) == Some(m')
    requires |p| == 0 ==> m' == m
    ensures Fold(apply, m, BytesField(field, p)) == Some(m')
  {
    if |p| != 0 {
      FoldOne(apply, m, Len(field, p));
    }
  }

  lemma IntFieldFolds<M>(apply: (M, Record) -> Option<M>, m: M, field: nat, v: int, m': M)
    requires IsInt64(v)
    requires v != 0 ==> apply(m, VarintR(field, Unsigned64(v))) == Some(m')
    requires v == 0 ==> m' == m
    ensures Fold(apply, m, IntField(field, v)) == Some(m')
  {
    if v != 0 {
      FoldOne(apply, m, VarintR(field, Unsigned64(v)));
    }
  }

  lemma OfferingMeansMerge(a: Offering, b: Offering)
    ensures Fold(OfferingApply, a, OfferingRecords(b)) == Some(MergeOffering(a, b))
  {
    hide Fold, TextField, BytesField, U.Encode, U.Decode;
    U.RoundTrip(b.id);
    U.RoundTrip(b.pricePerWorkUnitWei);
    var m1 := a.(id := LastText(a.id, b.id));
    var m2 := m1.(pricePerWorkUnitWei := LastText(a.pricePerWorkUnitWei, b.pricePerWorkUnitWei));
    TextFieldFolds(OfferingApply, a, 1, b.id, m1);
    TextFieldFolds(OfferingApply, m1, 2, b.pricePerWorkUnitWei, m2);
    BytesFieldFolds(OfferingApply, m2, 3, b.constraintsJson, MergeOffering(a, b));
    var r3 := BytesField(3, b.constraintsJson);
    FoldThen(OfferingApply, m1, TextField(2, b.pricePerWorkUnitWei), m2, r3);
    FoldThen(OfferingApply, a, TextField(1, b.id), m1, TextField(2, b.pricePerWorkUnitWei) + r3);
  }

  lemma OfferingRecordMeans(m: Capability, o: Offering)
    ensures CapabilityApply(m, Sub(3, OfferingRecords(o))) == Some(m.(offerings := m.offerings + [o]))
  {
    hide Fold, OfferingRecords;
    OfferingMeansMerge(BASE_OFFERING, o);
    assert MergeOffering(BASE_OFFERING, o) == o;
  }

  lemma {:induction false} OfferingFieldsMean(m: Capability, os: seq<Offering>)
    ensures Fold(CapabilityApply, m, OfferingFields(os)) == Some(m.(offerings := m.offerings + os))
    decreases |os|
  {
    hide Fold, CapabilityApply, OfferingRecords;
    if os == [] {
      FoldNone(CapabilityApply, m);
      assert m.offerings + os == m.offerings;
    } else {
      var head := Sub(3, OfferingRecords(os[0]));
      var m' := m.(offerings := m.offerings + [os[0]]);
      OfferingRecordMeans(m, os[0]);
      FoldOne(CapabilityApply, m, head);
      FoldThen(CapabilityApply, m, [head], m', OfferingFields(os[1..]));
      OfferingFieldsMean(m', os[1..]);
      assert m.offerings + [os[0]] + os[1..] == m.offerings + os;
    }
  }

  lemma CapabilityMeansMerge(a: Capability, b: Capability)
    ensures Fold(CapabilityApply, a, CapabilityRecords(b)) == Some(MergeCapability(a, b))
  {
    hide Fold, TextField, BytesField, OfferingFields, U.Encode, U.Decode;
    U.RoundTrip(b.name);
    U.RoundTrip(b.workUnit);
    var m1 := a.(name := LastText(a.name, b.name));
    var m2 := m1.(workUnit := LastText(a.workUnit, b.workUnit));
    var m3 := m2.(offerings := a.offerings + b.offerings);
    var r1, r2 := TextField(1, b.name), TextField(2, b.workUnit);
    var r3, r4 := OfferingFields(b.offerings), BytesField(4, b.extraJson);
    TextFieldFolds(CapabilityApply, a, 1, b.name, m1);
    TextFieldFolds(CapabilityApply, m1, 2, b.workUnit, m2);
    OfferingFieldsMean(m2, b.offerings);
    BytesFieldFolds(CapabilityApply, m3, 4, b.extraJson, MergeCapability(a, b));
    FoldThen(CapabilityApply, m2, r3, m3, r4);
    FoldThen(CapabilityApply, m1, r2, m2, r3 + r4);
    FoldThen(CapabilityApply, a, r1, m1, r2 + (r3 + r4));
  }

  lemma CapabilityRecordMeans(m: Node, c: Capability)
    ensures NodeApply(m, Sub(5, CapabilityRecords(c))) == Some(m.(capabilities := m.capabilities + [c]))
  {
    hide Fold, CapabilityRecords;
    CapabilityMeansMerge(BASE_CAPABILITY, c);
    assert MergeCapability(BASE_CAPABILITY, c) == c;
  }

  lemma {:induction false} CapabilityFieldsMean(m: Node, cs: seq<Capability>)
    ensures Fold(NodeApply, m, CapabilityFields(cs)) == Some(m.(capabilities := m.capabilities + cs))
    decreases |cs|
  {
    hide Fold, NodeApply, CapabilityRecords;
    if cs == [] {
      FoldNone(NodeApply, m);
      assert m.capabilities + cs == m.capabilities;
    } else {
      var head := Sub(5, CapabilityRecords(cs[0]));
      var m' := m.(capabilities := m.capabilities + [cs[0]]);
      CapabilityRecordMeans(m, cs[0]);
      FoldOne(NodeApply, m, head);
      FoldThen(NodeApply, m, [head], m', CapabilityFields(cs[1..]));
      CapabilityFieldsMean(m', cs[1..]);
      assert m.capabilities + [cs[0]] + cs[1..] == m.capabilities + cs;
    }
  }

  lemma TierRecordMeans(m: Node, t: string)
    ensures NodeApply(m, Len(10, U.Encode(t))) == Some(m.(tierAllowed := m.tierAllowed + [t]))
  {
    hide U.Encode, U.Decode;
    U.RoundTrip(t);
  }

  lemma {:induction false} TierFieldsMean(m: Node, ts: seq<string>)
    ensures Fold(NodeApply, m, TierFields(ts)) == Some(m.(tierAllowed := m.tierAllowed + ts))
    decreases |ts|
  {
    hide Fold, NodeApply, U.Encode;
    if ts == [] {
      FoldNone(NodeApply, m);
      assert m.tierAllowed + ts == m.tierAllowed;
    } else {
      var head := Len(10, U.Encode(ts[0]));
      var m' := m.(tierAllowed := m.tierAllowed + [ts[0]]);
      TierRecordMeans(m, ts[0]);
      FoldOne(NodeApply, m, head);
      FoldThen(NodeApply, m, [head], m', TierFields(ts[1..]));
      TierFieldsMean(m', ts[1..]);
      assert m.tierAllowed + [ts[0]] + ts[1..] == m.tierAllowed + ts;
    }
  }

  /** The second half of a node's records, from field 6 on. */
  function LateRecords(m: Node): seq<Record>
    requires IsInt32(m.source) && IsInt32(m.signatureStatus) && IsInt32(m.weight)
  {
    IntField(6, m.source) + (IntField(7, m.signatureStatus)
    + (TextField(8, m.operatorAddress) + (BoolField(9, m.enabled) + (TierFields(m.tierAllowed)
    + IntField(11, m.weight)))))
  }

  lemma LateRecordsMean(a: Node, b: Node)
    requires IsInt32(b.source) && IsInt32(b.signatureStatus) && IsInt32(b.weight)
    ensures Fold(NodeApply, a, LateRecords(b)) == Some(a.(
              source := LastInt(a.source, b.source), signatureStatus := LastInt(a.signatureStatus, b.signatureStatus),
              operatorAddress := LastText(a.operatorAddress, b.operatorAddress), enabled := a.enabled || b.enabled,
              tierAllowed := a.tierAllowed + b.tierAllowed, weight := LastInt(a.weight, b.weight)))
  {
    hide Fold, TextField, IntField, BoolField, TierFields, U.Encode, U.Decode, Int32Of, Unsigned64;
    var m1 := a.(source := LastInt(a.source, b.source));
    var m2 := m1.(signatureStatus := LastInt(a.signatureStatus, b.signatureStatus));
    var m3 := m2.(operatorAddress := LastText(a.operatorAddress, b.operatorAddress));
    var m4 := m3.(enabled := a.enabled || b.enabled);
    var m5 := m4.(tierAllowed := a.tierAllowed + b.tierAllowed);
    var m6 := m5.(weight := LastInt(a.weight, b.weight));
    var r1, r2, r3 := IntField(6, b.source), IntField(7, b.signatureStatus), TextField(8, b.operatorAddress);
    var r4, r5, r6 := BoolField(9, b.enabled), TierFields(b.tierAllowed), IntField(11, b.weight);
    FieldsHold(6, b.source);
    FieldsHold(7, b.signatureStatus);
    FieldsHold(11, b.weight);
    U.RoundTrip(b.operatorAddress);
    IntFieldFolds(NodeApply, a, 6, b.source, m1);
    IntFieldFolds(NodeApply, m1, 7, b.signatureStatus, m2);
    TextFieldFolds(NodeApply, m2, 8, b.operatorAddress, m3);
    EnabledMeans(m3, b.enabled);
    TierFieldsMean(m4, b.tierAllowed);
    IntFieldFolds(NodeApply, m5, 11, b.weight, m6);
    FoldThen(NodeApply, m4, r5, m5, r6);
    FoldThen(NodeApply, m3, r4, m4, r5 + r6);
    FoldThen(NodeApply, m2, r3, m3, r4 + (r5 + r6));
    FoldThen(NodeApply, m1, r2, m2, r3 + (r4 + (r5 + r6)));
    FoldThen(NodeApply, a, r1, m1, r2 + (r3 + (r4 + (r5 + r6))));
  }

  lemma EnabledMeans(m: Node, v: bool)
    ensures Fold(NodeApply, m, BoolField(9, v)) == Some(m.(enabled := m.enabled || v))
  {
    if v {
      FoldOne(NodeApply, m, VarintR(9, 1));
    }
  }

  lemma NodeMeansMerge(a: Node, b: Node)
    requires IsInt32(b.source) && IsInt32(b.signatureStatus) && IsInt32(b.weight)
    ensures Fold(NodeApply, a, NodeRecords(b)) == Some(MergeNode(a, b))
  {
    hide Fold, TextField, BytesField, CapabilityFields, IntField, BoolField, TierFields, U.Encode, U.Decode;
    var m1 := a.(id := LastText(a.id, b.id));
    var m2 := m1.(url := LastText(a.url, b.url));
    var m3 := m2.(workerEthAddress := LastText(a.workerEthAddress, b.workerEthAddress));
    var m4 := m3.(extraJson := LastBytes(a.extraJson, b.extraJson));
    var m5 := m4.(capabilities := a.capabilities + b.capabilities);
    var r1, r2, r3 := TextField(1, b.id), TextField(2, b.url), TextField(3, b.workerEthAddress);
    var r4, r5, r6 := BytesField(4, b.extraJson), CapabilityFields(b.capabilities), LateRecords(b);
    U.RoundTrip(b.id);
    U.RoundTrip(b.url);
    U.RoundTrip(b.workerEthAddress);
    TextFieldFolds(NodeApply, a, 1, b.id, m1);
    TextFieldFolds(NodeApply, m1, 2, b.url, m2);
    TextFieldFolds(NodeApply, m2, 3, b.workerEthAddress, m3);
    BytesFieldFolds(NodeApply, m3, 4, b.extraJson, m4);
    CapabilityFieldsMean(m4, b.capabilities);
    LateRecordsMean(m5, b);
    FoldThen(NodeApply, m4, r5, m5, r6);
    FoldThen(NodeApply, m3, r4, m4, r5 + r6);
    FoldThen(NodeApply, m2, r3, m3, r4 + (r5 + r6));
    FoldThen(NodeApply, m1, r2, m2, r3 + (r4 + (r5 + r6)));
    FoldThen(NodeApply, a, r1, m1, r2 + (r3 + (r4 + (r5 + r6))));
  }
}
