/** What the registry codec guarantees as a whole. */
module RegistryTheorems {
  import opened Prelude
  import opened Wire
  import opened Registry
  import U = Utf8

  lemma {:induction false} OfferingFieldsTyped(os: seq<Offering>, r: Record)
    requires r in OfferingFields(os)
    ensures r.Sub?
    decreases |os|
  {
    if os != [] && r in OfferingFields(os[1..]) {
      OfferingFieldsTyped(os[1..], r);
    }
  }

  lemma CapabilityRecordsTyped(c: Capability, r: Record)
    requires r in CapabilityRecords(c)
    ensures CapabilityTyped(r)
  {
    if r in OfferingFields(c.offerings) {
      OfferingFieldsTyped(c.offerings, r);
    }
  }

  lemma {:induction false} CapabilityFieldsTyped(cs: seq<Capability>, r: Record)
    requires r in CapabilityFields(cs)
    ensures NodeTyped(r)
    decreases |cs|
  {
    if cs != [] {
      if r in CapabilityFields(cs[1..]) {
        CapabilityFieldsTyped(cs[1..], r);
      } else {
        forall x | x in r.records
          ensures CapabilityTyped(x)
        {
          CapabilityRecordsTyped(cs[0], x);
        }
      }
    }
  }

  lemma {:induction false} TierFieldsTyped(ts: seq<string>, r: Record)
    requires r in TierFields(ts)
    ensures NodeTyped(r)
    decreases |ts|
  {
    if ts != [] && r in TierFields(ts[1..]) {
      TierFieldsTyped(ts[1..], r);
    }
  }

  lemma ScalarFieldsTyped(field: nat, s: string, v: int, flag: bool, r: Record)
    requires field != 5 && IsInt64(v)
    requires r in TextField(field, s) || r in IntField(field, v) || r in BoolField(field, flag)
    ensures NodeTyped(r)
  {
    hide U.Encode, Unsigned64;
    assert r.field == field;
  }

  lemma LateRecordsTyped(n: Node, r: Record)
    requires IsInt32(n.source) && IsInt32(n.signatureStatus) && IsInt32(n.weight)
    requires r in LateRecords(n)
    ensures NodeTyped(r)
  {
    hide TextField, IntField, BoolField, TierFields;
    if r in TierFields(n.tierAllowed) {
      TierFieldsTyped(n.tierAllowed, r);
    } else if r in IntField(6, n.source) {
      ScalarFieldsTyped(6, "", n.source, false, r);
    } else if r in IntField(7, n.signatureStatus) {
      ScalarFieldsTyped(7, "", n.signatureStatus, false, r);
    } else if r in TextField(8, n.operatorAddress) {
      ScalarFieldsTyped(8, n.operatorAddress, 0, false, r);
    } else if r in BoolField(9, n.enabled) {
      ScalarFieldsTyped(9, "", 0, n.enabled, r);
    } else {
      ScalarFieldsTyped(11, "", n.weight, false, r);
    }
  }

  lemma NodeRecordsTyped(n: Node, r: Record)
    requires IsInt32(n.source) && IsInt32(n.signatureStatus) && IsInt32(n.weight)
    requires r in NodeRecords(n)
    ensures NodeTyped(r)
  {
    hide CapabilityFields, IntField, BoolField, TierFields;
    assert NodeRecords(n) == TextField(1, n.id) + (TextField(2, n.url) + (TextField(3, n.workerEthAddress)
      + (BytesField(4, n.extraJson) + (CapabilityFields(n.capabilities) + LateRecords(n)))));
    if r in LateRecords(n) {
      LateRecordsTyped(n, r);
    } else if r in CapabilityFields(n.capabilities) {
      CapabilityFieldsTyped(n.capabilities, r);
    }
  }

  /** Well-formed records that mean `m` decode to `m`, all of the input used. */
  lemma RecordsDecode(rs: seq<Record>, m: Node)
    requires AllWellFormed(rs) && (forall r :: r in rs ==> NodeTyped(r)) && Fold(NodeApply, BASE_NODE, rs) == Some(m)
    ensures DecodeNode(RecordsBytes(rs)) == Done(m, |RecordsBytes(rs)|)
  {
    hide DecodeLoop, Fold, RecordsBytes, AllWellFormed, NodeTyped, At;
    WholeStands(RecordsBytes(rs));
    NodeDecodesByMeaning(BASE_NODE, rs, RecordsBytes(rs), 0);
  }

  /** `d` has `b`'s scalars, or `a`'s where `b` has the default, and the repeated fields of
      both in order. */
  ghost predicate LaterWins(a: Node, b: Node, d: Node) {
    && (b.id != "" ==> d.id == b.id) && (b.id == "" ==> d.id == a.id)
    && (b.url != "" ==> d.url == b.url) && (b.url == "" ==> d.url == a.url)
    && (b.workerEthAddress != "" ==> d.workerEthAddress == b.workerEthAddress)
    && (b.workerEthAddress == "" ==> d.workerEthAddress == a.workerEthAddress)
    && (b.extraJson != [] ==> d.extraJson == b.extraJson) && (b.extraJson == [] ==> d.extraJson == a.extraJson)
    && (b.source != 0 ==> d.source == b.source) && (b.source == 0 ==> d.source == a.source)
    && (b.signatureStatus != 0 ==> d.signatureStatus == b.signatureStatus)
    && (b.signatureStatus == 0 ==> d.signatureStatus == a.signatureStatus)
    && (b.operatorAddress != "" ==> d.operatorAddress == b.operatorAddress)
    && (b.operatorAddress == "" ==> d.operatorAddress == a.operatorAddress)
    && (b.weight != 0 ==> d.weight == b.weight) && (b.weight == 0 ==> d.weight == a.weight)
    && (d.enabled <==> a.enabled || b.enabled)
    && d.capabilities == a.capabilities + b.capabilities && d.tierAllowed == a.tierAllowed + b.tierAllowed
  }

  lemma MergeIsLaterWins(a: Node, b: Node)
    ensures LaterWins(a, b, MergeNode(a, b))
  {
  }

  /** Decoding two node encodings in a row gives their merge. */
  lemma NodeMerge(a: Node, b: Node)
    requires Encodable(a) && Encodable(b)
    ensures var e := NodeBytes(a) + NodeBytes(b); DecodeNode(e) == Done(MergeNode(a, b), |e|)
    ensures LaterWins(a, b, MergeNode(a, b))
  {
    MergeIsLaterWins(a, b);
    hide DecodeNode, NodeRecords, RecordsBytes, AllWellFormed, NodeTyped, Fold, MergeNode;
    var ra, rb := NodeRecords(a), NodeRecords(b);
    RecordsConcat(ra, rb);
    NodeMeansMerge(BASE_NODE, a);
    MergeWithBase(a);
    FoldThen(NodeApply, BASE_NODE, ra, a, rb);
    NodeMeansMerge(a, b);
    forall r | r in ra + rb
      ensures NodeTyped(r)
    {
      if r in ra {
        NodeRecordsTyped(a, r);
      } else {
        NodeRecordsTyped(b, r);
      }
    }
    RecordsDecode(ra + rb, MergeNode(a, b));
  }

  lemma MergeWithBase(n: Node)
    ensures MergeNode(BASE_NODE, n) == n
  {
  }

  // ------------------------------------------------- records a decoder skips

  // What each decoder reads; every other record, of an unknown field or of the wrong
  // wire type, it skips.

  predicate OfferingKnows(r: Record) {
    WireType(r) == 2 && r.field in {1, 2, 3}
  }

  predicate CapabilityKnows(r: Record) {
    WireType(r) == 2 && r.field in {1, 2, 3, 4}
  }

  predicate NodeKnows(r: Record) {
    || (WireType(r) == 0 && r.field in {6, 7, 9, 11})
    || (WireType(r) == 2 && r.field in {1, 2, 3, 4, 5, 8, 10})
  }

  function Same(r: Record): Record { r }

  function StripOffering(r: Record): Record {
    if r.Sub? && r.field == 3 then Sub(3, Strip(OfferingKnows, Same, r.records)) else r
  }

  function StripCapability(r: Record): Record {
    if r.Sub? && r.field == 5 then Sub(5, Strip(CapabilityKnows, StripOffering, r.records)) else r
  }

  /** A node's records without what the decoders skip, at all three levels. */
  function NodeCore(rs: seq<Record>): seq<Record> {
    Strip(NodeKnows, StripCapability, rs)
  }

  lemma OfferingStrips(m: Capability, r: Record)
    ensures !CapabilityKnows(r) ==> CapabilityApply(m, r) == Some(m)
    ensures CapabilityApply(m, r) == CapabilityApply(m, StripOffering(r))
  {
    hide Fold, Strip;
    if r.Sub? && r.field == 3 {
      FoldStrip(OfferingApply, OfferingKnows, Same, BASE_OFFERING, r.records);
    }
  }

  lemma CapabilityStrips(m: Node, r: Record)
    ensures !NodeKnows(r) ==> NodeApply(m, r) == Some(m)
    ensures NodeApply(m, r) == NodeApply(m, StripCapability(r))
  {
    hide Fold, Strip, CapabilityApply;
    if r.Sub? && r.field == 5 {
      forall c, x | x in r.records
        ensures !CapabilityKnows(x) ==> CapabilityApply(c, x) == Some(c)
        ensures CapabilityApply(c, x) == CapabilityApply(c, StripOffering(x))
      {
        OfferingStrips(c, x);
      }
      FoldStrip(CapabilityApply, CapabilityKnows, StripOffering, BASE_CAPABILITY, r.records);
    }
  }

  /** A node's records mean what their core means. */
  lemma CoreMeans(m: Node, rs: seq<Record>)
    ensures Fold(NodeApply, m, rs) == Fold(NodeApply, m, NodeCore(rs))
  {
    hide Fold, Strip, NodeApply, NodeKnows, StripCapability;
    forall m', r | r in rs
      ensures !NodeKnows(r) ==> NodeApply(m', r) == Some(m')
      ensures NodeApply(m', r) == NodeApply(m', StripCapability(r))
    {
      CapabilityStrips(m', r);
    }
    FoldStrip(NodeApply, NodeKnows, StripCapability, m, rs);
  }

  lemma StripKeepsTyped(r: Record)
    ensures NodeTyped(r) <==> NodeTyped(StripCapability(r))
  {
    hide Strip;
    if r.Sub? && r.field == 5 {
      var core := Strip(CapabilityKnows, StripOffering, r.records);
      forall x | x in r.records
        ensures CapabilityKnows(x) ==> StripOffering(x) in core
      {
        StripHolds(CapabilityKnows, StripOffering, r.records, StripOffering(x));
      }
      forall x | x in core
        ensures exists y :: y in r.records && StripOffering(y) == x
      {
        StripHolds(CapabilityKnows, StripOffering, r.records, x);
      }
      assert forall y :: CapabilityTyped(y) <==> CapabilityTyped(StripOffering(y));
    }
  }

  lemma CoreKeepsTyped(rs: seq<Record>)
    ensures (forall r :: r in rs ==> NodeTyped(r)) <==> (forall r :: r in NodeCore(rs) ==> NodeTyped(r))
  {
    hide Strip, StripCapability;
    forall r | r in rs
      ensures NodeKnows(r) ==> StripCapability(r) in NodeCore(rs)
      ensures NodeTyped(r) <==> NodeTyped(StripCapability(r))
    {
      StripHolds(NodeKnows, StripCapability, rs, StripCapability(r));
      StripKeepsTyped(r);
    }
    forall x | x in NodeCore(rs)
      ensures exists r :: r in rs && StripCapability(r) == x
    {
      StripHolds(NodeKnows, StripCapability, rs, x);
    }
    assert forall r :: !NodeKnows(r) ==> NodeTyped(r);
  }

  /** What a decoder makes of a whole input, apart from where it stopped. */
  function Message<M>(d: Decoded<M>): Option<M> {
    match d
    case Done(m, _) => Some(m)
    case Error => None
  }

  /** Any well-formed records of a node decode to what their core means: records the
      decoders do not know change nothing, at any level, even where decoding fails. */
  lemma UnknownRecordsAreSkipped(rs: seq<Record>)
    requires AllWellFormed(rs) && forall r :: r in rs ==> NodeTyped(r)
    ensures DecodeNode(RecordsBytes(rs)) == match Fold(NodeApply, BASE_NODE, NodeCore(rs))
                                            case None => Error
                                            case Some(m) => Done(m, |RecordsBytes(rs)|)
  {
    hide DecodeLoop, Fold, RecordsBytes, AllWellFormed, NodeTyped, At, NodeCore;
    CoreMeans(BASE_NODE, rs);
    WholeStands(RecordsBytes(rs));
    NodeDecodesByMeaning(BASE_NODE, rs, RecordsBytes(rs), 0);
  }

  /** Inputs with the same core decode alike. */
  lemma SameCoreDecodesAlike(a: seq<Record>, b: seq<Record>)
    requires AllWellFormed(a) && AllWellFormed(b) && NodeCore(a) == NodeCore(b)
    requires forall r :: r in a ==> NodeTyped(r)
    ensures Message(DecodeNode(RecordsBytes(a))) == Message(DecodeNode(RecordsBytes(b)))
  {
    hide DecodeNode, Fold, RecordsBytes, AllWellFormed, NodeTyped, NodeCore;
    CoreKeepsTyped(a);
    CoreKeepsTyped(b);
    UnknownRecordsAreSkipped(a);
    UnknownRecordsAreSkipped(b);
  }

  /** Records the decoders do not know, anywhere among a node's records or inside its
      capabilities and their offerings, change nothing: the node comes back whole. */
  lemma NodeSurvivesUnknownRecords(n: Node, rs: seq<Record>)
    requires Encodable(n) && AllWellFormed(rs) && NodeCore(rs) == NodeCore(NodeRecords(n))
    ensures DecodeNode(RecordsBytes(rs)) == Done(n, |RecordsBytes(rs)|)
  {
    hide DecodeNode, NodeRecords, RecordsBytes, AllWellFormed, Fold, NodeApply, NodeTyped, NodeCore;
    forall r | r in NodeRecords(n)
      ensures NodeTyped(r)
    {
      NodeRecordsTyped(n, r);
    }
    CoreKeepsTyped(NodeRecords(n));
    CoreKeepsTyped(rs);
    NodeMeansMerge(BASE_NODE, n);
    MergeWithBase(n);
    CoreMeans(BASE_NODE, NodeRecords(n));
    UnknownRecordsAreSkipped(rs);
  }

  /** Every node with valid strings and in-range fields, whatever its nesting, comes
      back from its encoding. */
  lemma NodeRoundTrip(n: Node)
    requires Encodable(n)
    ensures DecodeNode(NodeBytes(n)) == Done(n, |NodeBytes(n)|)
  {
    hide DecodeNode, NodeRecords, RecordsBytes, AllWellFormed, Fold, NodeTyped;
    NodeMeansMerge(BASE_NODE, n);
    MergeWithBase(n);
    forall r | r in NodeRecords(n)
      ensures NodeTyped(r)
    {
      NodeRecordsTyped(n, r);
    }
    RecordsDecode(NodeRecords(n), n);
  }

  /** A capability decoded from its length prefix inside a longer buffer is the one that
      was written, and the reader stops exactly at its end. */
  lemma NestedCapabilityRoundTrip(c: Capability, b: bytes, pos: nat)
    requires AllWellFormed(CapabilityRecords(c)) && |RecordsBytes(CapabilityRecords(c))| < 0x1_0000_0000
    requires At(b, pos, LenBytes(RecordsBytes(CapabilityRecords(c))))
    ensures ReadNested(CapabilityField, BASE_CAPABILITY, b, pos)
            == Got(c, |LenBytes(RecordsBytes(CapabilityRecords(c)))|)
  {
    hide CapabilityRecords, RecordsBytes, AllWellFormed, At, LenBytes, Fold, ReadNested, CapabilityTyped;
    forall r | r in CapabilityRecords(c)
      ensures CapabilityTyped(r)
    {
      CapabilityRecordsTyped(c, r);
    }
    CapabilityNested(b, pos, CapabilityRecords(c));
    CapabilityMeansMerge(BASE_CAPABILITY, c);
    assert MergeCapability(BASE_CAPABILITY, c) == c;
  }
}
