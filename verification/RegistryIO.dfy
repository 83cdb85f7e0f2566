/** The generated `encode` and `decode` methods, proved against `Registry` and
    `AuditLogRequest`. */
module RegistryIO {
  import opened Prelude
  import opened Wire
  import opened WireIO
  import opened Registry
  import A = AuditLogRequest
  import T = RegistryTheorems
  import U = Utf8

  // -------------------------------------------------------------------- encode

  method EncodeOffering(m: Offering, w: Writer)
    requires AllWellFormed(OfferingRecords(m))
    modifies w`buf
    ensures w.buf == old(w.buf) + RecordsBytes(OfferingRecords(m))
  {
    hide AllWellFormed, RecordsBytes, TextField, BytesField;
    ghost var r2, r3 := TextField(2, m.pricePerWorkUnitWei), BytesField(3, m.constraintsJson);
    RecordsConcat(TextField(1, m.id), r2 + r3);
    RecordsConcat(r2, r3);
    w.TextUnlessEmpty(1, m.id);
    w.TextUnlessEmpty(2, m.pricePerWorkUnitWei);
    w.BytesUnlessEmpty(3, m.constraintsJson);
  }

  lemma {:induction false} OfferingFieldsSplit(os: seq<Offering>, i: nat)
    requires i < |os|
    ensures OfferingFields(os[..i + 1]) == OfferingFields(os[..i]) + [Sub(3, OfferingRecords(os[i]))]
    ensures AllWellFormed(OfferingFields(os)) ==> WellFormed(Sub(3, OfferingRecords(os[i])))
    decreases i
  {
    if i == 0 {
      assert os[..1] == [os[0]];
    } else {
      OfferingFieldsSplit(os[1..], i - 1);
      assert os[..i + 1][1..] == os[1..][..i] && os[..i][1..] == os[1..][..i - 1];
    }
  }

  method EncodeCapability(m: Capability, w: Writer)
    requires AllWellFormed(CapabilityRecords(m))
    modifies w
    ensures w.buf == old(w.buf) + RecordsBytes(CapabilityRecords(m)) && w.stack == old(w.stack)
  {
    hide AllWellFormed, RecordsBytes, TextField, BytesField, OfferingFields;
    ghost var r1, r2 := TextField(1, m.name), TextField(2, m.workUnit);
    ghost var r3, r4 := OfferingFields(m.offerings), BytesField(4, m.extraJson);
    RecordsConcat(r1, r2 + (r3 + r4));
    RecordsConcat(r2, r3 + r4);
    RecordsConcat(r3, r4);
    w.TextUnlessEmpty(1, m.name);
    w.TextUnlessEmpty(2, m.workUnit);
    EncodeOfferings(m.offerings, w);
    w.BytesUnlessEmpty(4, m.extraJson);
  }

  /** The loop over `message.offerings`. */
  method EncodeOfferings(os: seq<Offering>, w: Writer)
    requires AllWellFormed(OfferingFields(os))
    modifies w
    ensures w.buf == old(w.buf) + RecordsBytes(OfferingFields(os)) && w.stack == old(w.stack)
  {
    hide AllWellFormed, RecordsBytes, OfferingRecords, Varint, LenBytes;
    NoRecords();
    for i := 0 to |os|
      invariant w.buf == old(w.buf) + RecordsBytes(OfferingFields(os[..i])) && w.stack == old(w.stack)
    {
      ghost var before, sub := w.buf, Sub(3, OfferingRecords(os[i]));
      OfferingFieldsSplit(os, i);
      RecordsConcat(OfferingFields(os[..i]), [sub]);
      OneRecord(sub);
      w.Uint32(26);
      w.Fork();
      EncodeOffering(os[i], w);
      assert w.buf == RecordsBytes(sub.records);
      w.Join();
      assert w.buf == before + RecordBytes(sub);
    }
    assert os[..|os|] == os;
  }

  lemma {:induction false} CapabilityFieldsSplit(cs: seq<Capability>, i: nat)
    requires i < |cs|
    ensures CapabilityFields(cs[..i + 1]) == CapabilityFields(cs[..i]) + [Sub(5, CapabilityRecords(cs[i]))]
    ensures AllWellFormed(CapabilityFields(cs)) ==> WellFormed(Sub(5, CapabilityRecords(cs[i])))
    decreases i
  {
    if i == 0 {
      assert cs[..1] == [cs[0]];
    } else {
      CapabilityFieldsSplit(cs[1..], i - 1);
      assert cs[..i + 1][1..] == cs[1..][..i] && cs[..i][1..] == cs[1..][..i - 1];
    }
  }

  method EncodeCapabilities(cs: seq<Capability>, w: Writer)
    requires AllWellFormed(CapabilityFields(cs))
    modifies w
    ensures w.buf == old(w.buf) + RecordsBytes(CapabilityFields(cs)) && w.stack == old(w.stack)
  {
    hide AllWellFormed, RecordsBytes, CapabilityRecords, Varint, LenBytes;
    NoRecords();
    for i := 0 to |cs|
      invariant w.buf == old(w.buf) + RecordsBytes(CapabilityFields(cs[..i])) && w.stack == old(w.stack)
    {
      ghost var before, sub := w.buf, Sub(5, CapabilityRecords(cs[i]));
      CapabilityFieldsSplit(cs, i);
      RecordsConcat(CapabilityFields(cs[..i]), [sub]);
      OneRecord(sub);
      w.Uint32(42);
      w.Fork();
      EncodeCapability(cs[i], w);
      assert w.buf == RecordsBytes(sub.records);
      w.Join();
      assert w.buf == before + RecordBytes(sub);
    }
    assert cs[..|cs|] == cs;
  }

  lemma {:induction false} TierFieldsSplit(ts: seq<string>, i: nat)
    requires i < |ts|
    ensures TierFields(ts[..i + 1]) == TierFields(ts[..i]) + [Len(10, U.Encode(ts[i]))]
    ensures AllWellFormed(TierFields(ts)) ==> WellFormed(Len(10, U.Encode(ts[i])))
    decreases i
  {
    if i == 0 {
      assert ts[..1] == [ts[0]];
    } else {
      TierFieldsSplit(ts[1..], i - 1);
      assert ts[..i + 1][1..] == ts[1..][..i] && ts[..i][1..] == ts[1..][..i - 1];
    }
  }

  method EncodeTiers(ts: seq<string>, w: Writer)
    requires AllWellFormed(TierFields(ts))
    modifies w`buf
    ensures w.buf == old(w.buf) + RecordsBytes(TierFields(ts))
  {
    hide AllWellFormed, RecordsBytes, Varint, LenBytes, U.Encode;
    NoRecords();
    for i := 0 to |ts|
      invariant w.buf == old(w.buf) + RecordsBytes(TierFields(ts[..i]))
    {
      ghost var before, r := w.buf, Len(10, U.Encode(ts[i]));
      TierFieldsSplit(ts, i);
      RecordsConcat(TierFields(ts[..i]), [r]);
      OneRecord(r);
      w.Uint32(82);
      w.Bytes(U.Encode(ts[i]));
      assert w.buf == before + RecordBytes(r);
    }
    assert ts[..|ts|] == ts;
  }

  method EncodeNode(m: Node, w: Writer)
    requires Encodable(m)
    modifies w
    ensures w.buf == old(w.buf) + NodeBytes(m) && w.stack == old(w.stack)
  {
    hide AllWellFormed, RecordsBytes, TextField, BytesField, CapabilityFields, LateRecords;
    ghost var r1, r2, r3 := TextField(1, m.id), TextField(2, m.url), TextField(3, m.workerEthAddress);
    ghost var r4, r5, late := BytesField(4, m.extraJson), CapabilityFields(m.capabilities), LateRecords(m);
    assert NodeRecords(m) == r1 + (r2 + (r3 + (r4 + (r5 + late)))) by {
      NodeRecordsInHalves(m);
    }
    RecordsConcat(r1, r2 + (r3 + (r4 + (r5 + late))));
    RecordsConcat(r2, r3 + (r4 + (r5 + late)));
    RecordsConcat(r3, r4 + (r5 + late));
    RecordsConcat(r4, r5 + late);
    RecordsConcat(r5, late);
    w.TextUnlessEmpty(1, m.id);
    w.TextUnlessEmpty(2, m.url);
    w.TextUnlessEmpty(3, m.workerEthAddress);
    w.BytesUnlessEmpty(4, m.extraJson);
    EncodeCapabilities(m.capabilities, w);
    EncodeLateFields(m, w);
  }

  lemma NodeRecordsInHalves(m: Node)
    requires IsInt32(m.source) && IsInt32(m.signatureStatus) && IsInt32(m.weight)
    ensures NodeRecords(m) == TextField(1, m.id) + (TextField(2, m.url) + (TextField(3, m.workerEthAddress)
              + (BytesField(4, m.extraJson) + (CapabilityFields(m.capabilities) + LateRecords(m)))))
  {
  }

  method EncodeLateFields(m: Node, w: Writer)
    requires IsInt32(m.source) && IsInt32(m.signatureStatus) && IsInt32(m.weight)
    requires AllWellFormed(LateRecords(m))
    modifies w`buf
    ensures w.buf == old(w.buf) + RecordsBytes(LateRecords(m))
  {
    hide AllWellFormed, RecordsBytes, TextField, IntField, BoolField, TierFields;
    ghost var r6, r7, r8 := IntField(6, m.source), IntField(7, m.signatureStatus), TextField(8, m.operatorAddress);
    ghost var r9, r10, r11 := BoolField(9, m.enabled), TierFields(m.tierAllowed), IntField(11, m.weight);
    RecordsConcat(r6, r7 + (r8 + (r9 + (r10 + r11))));
    RecordsConcat(r7, r8 + (r9 + (r10 + r11)));
    RecordsConcat(r8, r9 + (r10 + r11));
    RecordsConcat(r9, r10 + r11);
    RecordsConcat(r10, r11);
    w.IntUnlessZero(6, m.source);
    w.IntUnlessZero(7, m.signatureStatus);
    w.TextUnlessEmpty(8, m.operatorAddress);
    w.BoolUnlessFalse(9, m.enabled);
    EncodeTiers(m.tierAllowed, w);
    w.IntUnlessZero(11, m.weight);
  }

  method EncodeTimestamp(t: A.Timestamp, w: Writer)
    requires IsInt64(t.seconds) && IsInt32(t.nanos)
    modifies w`buf
    ensures w.buf == old(w.buf) + RecordsBytes(A.TimestampRecords(t))
  {
    hide AllWellFormed, RecordsBytes, IntField;
    A.IntFieldSize(1, t.seconds);
    A.IntFieldSize(2, t.nanos);
    RecordsConcat(IntField(1, t.seconds), IntField(2, t.nanos));
    w.IntUnlessZero(1, t.seconds);
    w.IntUnlessZero(2, t.nanos);
  }

  method EncodeRequest(m: A.Request, w: Writer)
    requires A.Sendable(m)
    modifies w
    ensures w.buf == old(w.buf) + A.RequestBytes(m) && w.stack == old(w.stack)
  {
    hide AllWellFormed, RecordsBytes, IntField, A.SinceField, TextField;
    ghost var r1, r2, r3 := TextField(1, m.ethAddress), A.SinceField(m.since), IntField(3, m.limit);
    A.RequestIsWellFormed(m);
    RecordsConcat(r1, r2 + r3);
    RecordsConcat(r2, r3);
    w.TextUnlessEmpty(1, m.ethAddress);
    EncodeSince(m.since, w);
    w.IntUnlessZero(3, m.limit);
  }

  method EncodeSince(since: Option<int>, w: Writer)
    requires since.Some? ==> A.IsDate(since.value)
    modifies w
    ensures w.buf == old(w.buf) + RecordsBytes(A.SinceField(since)) && w.stack == old(w.stack)
  {
    hide AllWellFormed, RecordsBytes, A.TimestampRecords, A.ToTimestamp, Varint, LenBytes;
    NoRecords();
    if since.Some? {
      A.TimestampRoundTrip(since.value);
      A.TimestampIsSmall(A.ToTimestamp(since.value));
      ghost var sub := Sub(2, A.TimestampRecords(A.ToTimestamp(since.value)));
      OneRecord(sub);
      ghost var before := w.buf;
      w.Uint32(18);
      w.Fork();
      EncodeTimestamp(A.ToTimestamp(since.value), w);
      assert w.buf == RecordsBytes(sub.records);
      w.Join();
      assert w.buf == before + RecordBytes(sub);
    }
  }

  // -------------------------------------------------------------------- decode

  /** The `switch` of `Offering.decode`, the reader standing past `tag`. */
  method OfferingSwitch(r: Reader, m: Offering, tag: nat) returns (step: FieldStep<Offering>)
    modifies r
    ensures step == OfferingField(m, tag, r.buf, old(r.pos))
    ensures r.pos == old(r.pos) + (if step.Handled? then step.used else 0) || step.Broken?
  {
    step := Unhandled;
    match tag / 8 {
      case 1 =>
        if tag == 10 {
          var v := r.Text();
          step := if v.Bad? then Broken else Handled(m.(id := v.value), v.used);
        }
      case 2 =>
        if tag == 18 {
          var v := r.Text();
          step := if v.Bad? then Broken else Handled(m.(pricePerWorkUnitWei := v.value), v.used);
        }
      case 3 =>
        if tag == 26 {
          var v := r.Bytes();
          step := if v.Bad? then Broken else Handled(m.(constraintsJson := v.value), v.used);
        }
      case _ =>
    }
  }

  method DecodeOffering(r: Reader, length: Option<nat>) returns (message: Offering, ok: bool)
    modifies r
    ensures var end := if length.None? then |r.buf| else old(r.pos) + length.value;
            match DecodeLoop(OfferingField, r.buf, old(r.pos), end, BASE_OFFERING)
            case Error => !ok
            case Done(m, p) => ok && message == m && r.pos == p
  {
    hide OfferingField, ReadUint32, Skip;
    var end := if length.None? then |r.buf| else r.pos + length.value;
    message, ok := BASE_OFFERING, true;
    while r.pos < end
      invariant ok && DecodeLoop(OfferingField, r.buf, old(r.pos), end, BASE_OFFERING)
                      == DecodeLoop(OfferingField, r.buf, r.pos, end, message)
      decreases end - r.pos
    {
      var tag := r.Uint32();
      if tag.Bad? { return message, false; }
      var step := OfferingSwitch(r, message, tag.value);
      if step.Broken? { return message, false; }
      if step.Handled? {
        message := step.message;
        continue;
      }
      if tag.value % 8 == 4 || tag.value == 0 { return; }
      var skipped := r.SkipType(tag.value % 8);
      if skipped.Bad? { return message, false; }
    }
  }

  /** `Offering.decode(reader, reader.uint32())`. */
  method NestedOffering(r: Reader) returns (v: Read<Offering>)
    modifies r
    ensures v == ReadNested(OfferingField, BASE_OFFERING, r.buf, old(r.pos))
    ensures v.Got? ==> r.pos == old(r.pos) + v.used
  {
    hide DecodeLoop, ReadUint32;
    var start := r.pos;
    var len := r.Uint32();
    if len.Bad? { return Bad; }
    var m, ok := DecodeOffering(r, Some(len.value));
    v := if ok then Got(m, r.pos - start) else Bad;
  }

  /** The `switch` of `Capability.decode`, the reader standing past `tag`. */
  method CapabilitySwitch(r: Reader, m: Capability, tag: nat) returns (step: FieldStep<Capability>)
    modifies r
    ensures step == CapabilityField(m, tag, r.buf, old(r.pos))
    ensures r.pos == old(r.pos) + (if step.Handled? then step.used else 0) || step.Broken?
  {
    step := Unhandled;
    match tag / 8 {
      case 1 =>
        if tag == 10 {
          var v := r.Text();
          step := if v.Bad? then Broken else Handled(m.(name := v.value), v.used);
        }
      case 2 =>
        if tag == 18 {
          var v := r.Text();
          step := if v.Bad? then Broken else Handled(m.(workUnit := v.value), v.used);
        }
      case 3 =>
        if tag == 26 {
          var v := NestedOffering(r);
          step := if v.Bad? then Broken else Handled(m.(offerings := m.offerings + [v.value]), v.used);
        }
      case 4 =>
        if tag == 34 {
          var v := r.Bytes();
          step := if v.Bad? then Broken else Handled(m.(extraJson := v.value), v.used);
        }
      case _ =>
    }
  }

  method DecodeCapability(r: Reader, length: Option<nat>) returns (message: Capability, ok: bool)
    modifies r
    ensures var end := if length.None? then |r.buf| else old(r.pos) + length.value;
            match DecodeLoop(CapabilityField, r.buf, old(r.pos), end, BASE_CAPABILITY)
            case Error => !ok
            case Done(m, p) => ok && message == m && r.pos == p
  {
    hide CapabilityField, ReadUint32, Skip;
    var end := if length.None? then |r.buf| else r.pos + length.value;
    message, ok := BASE_CAPABILITY, true;
    while r.pos < end
      invariant ok && DecodeLoop(CapabilityField, r.buf, old(r.pos), end, BASE_CAPABILITY)
                      == DecodeLoop(CapabilityField, r.buf, r.pos, end, message)
      decreases end - r.pos
    {
      var tag := r.Uint32();
      if tag.Bad? { return message, false; }
      var step := CapabilitySwitch(r, message, tag.value);
      if step.Broken? { return message, false; }
      if step.Handled? {
        message := step.message;
        continue;
      }
      if tag.value % 8 == 4 || tag.value == 0 { return; }
      var skipped := r.SkipType(tag.value % 8);
      if skipped.Bad? { return message, false; }
    }
  }

  /** `Capability.decode(reader, reader.uint32())`. */
  method NestedCapability(r: Reader) returns (v: Read<Capability>)
    modifies r
    ensures v == ReadNested(CapabilityField, BASE_CAPABILITY, r.buf, old(r.pos))
    ensures v.Got? ==> r.pos == old(r.pos) + v.used
  {
    hide DecodeLoop, ReadUint32;
    var start := r.pos;
    var len := r.Uint32();
    if len.Bad? { return Bad; }
    var m, ok := DecodeCapability(r, Some(len.value));
    v := if ok then Got(m, r.pos - start) else Bad;
  }

  /** The `switch` of `Node.decode`, the reader standing past `tag`. */
  method NodeSwitch(r: Reader, m: Node, tag: nat) returns (step: FieldStep<Node>)
    modifies r
    ensures step == NodeField(m, tag, r.buf, old(r.pos))
    ensures r.pos == old(r.pos) + (if step.Handled? then step.used else 0) || step.Broken?
  {
    step := Unhandled;
    match tag / 8 {
      case 1 =>
        if tag == 10 {
          var v := r.Text();
          step := if v.Bad? then Broken else Handled(m.(id := v.value), v.used);
        }
      case 2 =>
        if tag == 18 {
          var v := r.Text();
          step := if v.Bad? then Broken else Handled(m.(url := v.value), v.used);
        }
      case 3 =>
        if tag == 26 {
          var v := r.Text();
          step := if v.Bad? then Broken else Handled(m.(workerEthAddress := v.value), v.used);
        }
      case 4 =>
        if tag == 34 {
          var v := r.Bytes();
          step := if v.Bad? then Broken else Handled(m.(extraJson := v.value), v.used);
        }
      case 5 =>
        if tag == 42 {
          var v := NestedCapability(r);
          step := if v.Bad? then Broken else Handled(m.(capabilities := m.capabilities + [v.value]), v.used);
        }
      case 6 =>
        if tag == 48 {
          var v := r.Int32();
          step := if v.Bad? then Broken else Handled(m.(source := v.value), v.used);
        }
      case 7 =>
        if tag == 56 {
          var v := r.Int32();
          step := if v.Bad? then Broken else Handled(m.(signatureStatus := v.value), v.used);
        }
      case 8 =>
        if tag == 66 {
          var v := r.Text();
          step := if v.Bad? then Broken else Handled(m.(operatorAddress := v.value), v.used);
        }
      case 9 =>
        if tag == 72 {
          var v := r.Bool();
          step := if v.Bad? then Broken else Handled(m.(enabled := v.value), v.used);
        }
      case 10 =>
        if tag == 82 {
          var v := r.Text();
          step := if v.Bad? then Broken else Handled(m.(tierAllowed := m.tierAllowed + [v.value]), v.used);
        }
      case 11 =>
        if tag == 88 {
          var v := r.Int32();
          step := if v.Bad? then Broken else Handled(m.(weight := v.value), v.used);
        }
      case _ =>
    }
  }

  method DecodeNode(r: Reader, length: Option<nat>) returns (message: Node, ok: bool)
    modifies r
    ensures var end := if length.None? then |r.buf| else old(r.pos) + length.value;
            match DecodeLoop(NodeField, r.buf, old(r.pos), end, BASE_NODE)
            case Error => !ok
            case Done(m, p) => ok && message == m && r.pos == p
  {
    hide NodeField, ReadUint32, Skip;
    var end := if length.None? then |r.buf| else r.pos + length.value;
    message, ok := BASE_NODE, true;
    while r.pos < end
      invariant ok && DecodeLoop(NodeField, r.buf, old(r.pos), end, BASE_NODE)
                      == DecodeLoop(NodeField, r.buf, r.pos, end, message)
      decreases end - r.pos
    {
      var tag := r.Uint32();
      if tag.Bad? { return message, false; }
      var step := NodeSwitch(r, message, tag.value);
      if step.Broken? { return message, false; }
      if step.Handled? {
        message := step.message;
        continue;
      }
      if tag.value % 8 == 4 || tag.value == 0 { return; }
      var skipped := r.SkipType(tag.value % 8);
      if skipped.Bad? { return message, false; }
    }
  }

  /** The `switch` of `Timestamp.decode`, the reader standing past `tag`. */
  method TimestampSwitch(r: Reader, m: A.Timestamp, tag: nat) returns (step: FieldStep<A.Timestamp>)
    modifies r
    ensures step == A.TimestampField(m, tag, r.buf, old(r.pos))
    ensures r.pos == old(r.pos) + (if step.Handled? then step.used else 0) || step.Broken?
  {
    step := Unhandled;
    match tag / 8 {
      case 1 =>
        if tag == 8 {
          var v := r.Int64();
          step := if v.Bad? then Broken else Handled(m.(seconds := v.value), v.used);
        }
      case 2 =>
        if tag == 16 {
          var v := r.Int32();
          step := if v.Bad? then Broken else Handled(m.(nanos := v.value), v.used);
        }
      case _ =>
    }
  }

  method DecodeTimestamp(r: Reader, length: Option<nat>) returns (message: A.Timestamp, ok: bool)
    modifies r
    ensures var end := if length.None? then |r.buf| else old(r.pos) + length.value;
            match DecodeLoop(A.TimestampField, r.buf, old(r.pos), end, A.BASE_TIMESTAMP)
            case Error => !ok
            case Done(m, p) => ok && message == m && r.pos == p
  {
    hide A.TimestampField, ReadUint32, Skip;
    var end := if length.None? then |r.buf| else r.pos + length.value;
    message, ok := A.BASE_TIMESTAMP, true;
    while r.pos < end
      invariant ok && DecodeLoop(A.TimestampField, r.buf, old(r.pos), end, A.BASE_TIMESTAMP)
                      == DecodeLoop(A.TimestampField, r.buf, r.pos, end, message)
      decreases end - r.pos
    {
      var tag := r.Uint32();
      if tag.Bad? { return message, false; }
      var step := TimestampSwitch(r, message, tag.value);
      if step.Broken? { return message, false; }
      if step.Handled? {
        message := step.message;
        continue;
      }
      if tag.value % 8 == 4 || tag.value == 0 { return; }
      var skipped := r.SkipType(tag.value % 8);
      if skipped.Bad? { return message, false; }
    }
  }

  /** `Timestamp.decode(reader, reader.uint32())`. */
  method NestedTimestamp(r: Reader) returns (v: Read<A.Timestamp>)
    modifies r
    ensures v == ReadNested(A.TimestampField, A.BASE_TIMESTAMP, r.buf, old(r.pos))
    ensures v.Got? ==> r.pos == old(r.pos) + v.used
  {
    hide DecodeLoop, ReadUint32;
    var start := r.pos;
    var len := r.Uint32();
    if len.Bad? { return Bad; }
    var m, ok := DecodeTimestamp(r, Some(len.value));
    v := if ok then Got(m, r.pos - start) else Bad;
  }

  /** The `switch` of `Request.decode`, the reader standing past `tag`. */
  method RequestSwitch(r: Reader, m: A.Request, tag: nat) returns (step: FieldStep<A.Request>)
    modifies r
    ensures step == A.RequestField(m, tag, r.buf, old(r.pos))
    ensures r.pos == old(r.pos) + (if step.Handled? then step.used else 0) || step.Broken?
  {
    step := Unhandled;
    match tag / 8 {
      case 1 =>
        if tag == 10 {
          var v := r.Text();
          step := if v.Bad? then Broken else Handled(m.(ethAddress := v.value), v.used);
        }
      case 2 =>
        if tag == 18 {
          var v := NestedTimestamp(r);
          step := if v.Bad? then Broken else Handled(m.(since := Some(A.FromTimestamp(v.value))), v.used);
        }
      case 3 =>
        if tag == 24 {
          var v := r.Int32();
          step := if v.Bad? then Broken else Handled(m.(limit := v.value), v.used);
        }
      case _ =>
    }
  }

  method DecodeRequest(r: Reader, length: Option<nat>) returns (message: A.Request, ok: bool)
    modifies r
    ensures var end := if length.None? then |r.buf| else old(r.pos) + length.value;
            match DecodeLoop(A.RequestField, r.buf, old(r.pos), end, A.BASE_REQUEST)
            case Error => !ok
            case Done(m, p) => ok && message == m && r.pos == p
  {
    hide A.RequestField, ReadUint32, Skip;
    var end := if length.None? then |r.buf| else r.pos + length.value;
    message, ok := A.BASE_REQUEST, true;
    while r.pos < end
      invariant ok && DecodeLoop(A.RequestField, r.buf, old(r.pos), end, A.BASE_REQUEST)
                      == DecodeLoop(A.RequestField, r.buf, r.pos, end, message)
      decreases end - r.pos
    {
      var tag := r.Uint32();
      if tag.Bad? { return message, false; }
      var step := RequestSwitch(r, message, tag.value);
      if step.Broken? { return message, false; }
      if step.Handled? {
        message := step.message;
        continue;
      }
      if tag.value % 8 == 4 || tag.value == 0 { return; }
      var skipped := r.SkipType(tag.value % 8);
      if skipped.Bad? { return message, false; }
    }
  }

  // ------------------------------------------------------------------ both ends

  /** What one end encodes, the other end decodes. */
  method NodeOverTheWire(m: Node) returns (received: Node, ok: bool)
    requires Encodable(m)
    ensures ok && received == m
  {
    hide Encodable, NodeBytes, DecodeLoop;
    var w := new Writer();
    EncodeNode(m, w);
    assert w.buf == NodeBytes(m);
    T.NodeRoundTrip(m);
    var r := new Reader(w.buf);
    received, ok := DecodeNode(r, None);
  }

  method RequestOverTheWire(m: A.Request) returns (received: A.Request, ok: bool)
    requires A.Sendable(m)
    ensures ok && received == m
  {
    hide A.Sendable, A.RequestBytes, DecodeLoop;
    var w := new Writer();
    EncodeRequest(m, w);
    assert w.buf == A.RequestBytes(m);
    A.RequestRoundTrip(m);
    var r := new Reader(w.buf);
    received, ok := DecodeRequest(r, None);
  }
}
