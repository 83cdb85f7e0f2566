/** Where the generated decoders stop on any bytes at all.  A nested message is read with
    the whole buffer in reach, so nothing but its own records makes it end at its length. */
module Nesting {
  import opened Prelude
  import opened Wire
  import opened Registry

  /** Where skipping record by record from `pos` stops: at or past `end`, or after a tag
      that is zero or ends a group; nothing when a record cannot be skipped. */
  function Walk(b: bytes, pos: nat, end: nat): (r: Option<nat>)
    ensures r.Some? ==> r.value == pos || r.value <= |b|
    decreases end - pos
  {
    if pos >= end then Some(pos)
    else match ReadUint32(b, pos)
         case Bad => None
         case Got(tag, n) =>
           if tag == 0 || tag % 8 == 4 then Some(pos + n)
           else match Skip(b, pos + n, tag % 8)
                case Bad => None
                case Got(_, k) => Walk(b, pos + n + k, end)
  }

  /** Every record on that walk, its tag and the position after it, satisfies `ok`. */
  predicate Along(ok: (nat, nat) -> bool, b: bytes, pos: nat, end: nat)
    decreases end - pos
  {
    pos < end ==>
      match ReadUint32(b, pos)
      case Bad => true
      case Got(tag, n) =>
        tag == 0 || tag % 8 == 4 ||
        (&& ok(tag, pos + n)
         && match Skip(b, pos + n, tag % 8)
            case Bad => true
            case Got(_, k) => Along(ok, b, pos + n + k, end))
  }

  /** At every record that is `ok`, a field that the switch reads takes the bytes that
      skipping it would take. */
  ghost predicate InStep<M(!new)>(f: (M, nat, bytes, nat) -> FieldStep<M>, ok: (nat, nat) -> bool, b: bytes) {
    forall m, tag: nat, p: nat | f(m, tag, b, p).Handled? ::
      tag != 0 && tag % 8 != 4 && (ok(tag, p) ==> Skip(b, p, tag % 8) == Got((), f(m, tag, b, p).used))
  }

  /** A decoder in step with the walk stops where the walk stops. */
  lemma {:induction false} StopsWithWalk<M(!new)>(
      f: (M, nat, bytes, nat) -> FieldStep<M>, ok: (nat, nat) -> bool, b: bytes, pos: nat, end: nat, m: M)
    requires InStep(f, ok, b) && Along(ok, b, pos, end)
    ensures var d := DecodeLoop(f, b, pos, end, m); d.Done? ==> Walk(b, pos, end) == Some(d.pos)
    decreases end - pos
  {
    hide ReadUint32, Skip;
    if pos < end && ReadUint32(b, pos).Got? {
      var tag, n := ReadUint32(b, pos).value, ReadUint32(b, pos).used;
      match f(m, tag, b, pos + n)
      case Broken =>
      case Handled(m', used) =>
        StopsWithWalk(f, ok, b, pos + n + used, end, m');
      case Unhandled =>
        if tag != 0 && tag % 8 != 4 && Skip(b, pos + n, tag % 8).Got? {
          StopsWithWalk(f, ok, b, pos + n + Skip(b, pos + n, tag % 8).used, end, m);
        }
    }
  }

  /** The payload of the length-delimited field at `p` is a walk to exactly its end. */
  predicate Whole(b: bytes, p: nat) {
    match ReadUint32(b, p)
    case Bad => true
    case Got(len, n) => Walk(b, p + n, p + n + len) == Some(p + n + len)
  }

  /** A nested message decoded at `p` ends exactly at its length just when its payload is
      a walk to that end. */
  ghost predicate EndsWhole<M>(f: (M, nat, bytes, nat) -> FieldStep<M>, base: M, b: bytes, p: nat) {
    match ReadUint32(b, p)
    case Bad => true
    case Got(len, n) =>
      ReadNested(f, base, b, p).Got? ==> (ReadNested(f, base, b, p).used == n + len <==> Whole(b, p))
  }

  function Anything(): (nat, nat) -> bool {
    (tag: nat, p: nat) => true
  }

  function WholeOffering(b: bytes): (nat, nat) -> bool {
    (tag: nat, p: nat) => tag == 26 ==> Whole(b, p)
  }

  /** Every offering on the walk through a capability's payload is whole. */
  predicate OfferingsWhole(b: bytes, pos: nat, end: nat) {
    Along(WholeOffering(b), b, pos, end)
  }

  predicate CapabilityWhole(b: bytes, p: nat) {
    match ReadUint32(b, p)
    case Bad => true
    case Got(len, n) => Whole(b, p) && OfferingsWhole(b, p + n, p + n + len)
  }

  function WholeCapability(b: bytes): (nat, nat) -> bool {
    (tag: nat, p: nat) => tag == 42 ==> CapabilityWhole(b, p)
  }

  /** Every capability on the walk through a node is whole, its offerings included. */
  predicate CapabilitiesWhole(b: bytes) {
    Along(WholeCapability(b), b, 0, |b|)
  }

  // ------------------------------------------------------------ single fields

  lemma {:induction false} VarintInStep(b: bytes, pos: nat, limit: nat)
    ensures ReadVarint(b, pos, limit).Got? ==> SkipVarint(b, pos) == Got((), ReadVarint(b, pos, limit).used)
    decreases limit - pos
  {
    if pos < limit && pos < |b| && b[pos] >= 128 {
      VarintInStep(b, pos + 1, limit);
    }
  }

  lemma ScalarsInStep(b: bytes, p: nat)
    ensures ReadInt32(b, p).Got? ==> Skip(b, p, 0) == Got((), ReadInt32(b, p).used)
    ensures ReadBool(b, p).Got? ==> Skip(b, p, 0) == Got((), ReadBool(b, p).used)
    ensures ReadBytes(b, p).Got? ==> Skip(b, p, 2) == Got((), ReadBytes(b, p).used)
    ensures ReadString(b, p).Got? ==> Skip(b, p, 2) == Got((), ReadString(b, p).used)
  {
    hide U.Decode;
    VarintInStep(b, p, p + 10);
  }

  /** A nested message that ends exactly at its length takes what skipping it takes. */
  lemma NestedInStep<M>(f: (M, nat, bytes, nat) -> FieldStep<M>, base: M, b: bytes, p: nat)
    requires Whole(b, p) && EndsWhole(f, base, b, p)
    ensures ReadNested(f, base, b, p).Got? ==> Skip(b, p, 2) == Got((), ReadNested(f, base, b, p).used)
  {
    hide DecodeLoop, Walk;
  }

  // ----------------------------------------------------------- the three decoders

  lemma NestedEndsWhole<M(!new)>(
      f: (M, nat, bytes, nat) -> FieldStep<M>, ok: (nat, nat) -> bool, base: M, b: bytes, p: nat)
    requires InStep(f, ok, b)
    requires match ReadUint32(b, p)
             case Bad => true
             case Got(len, n) => Along(ok, b, p + n, p + n + len)
    ensures EndsWhole(f, base, b, p)
  {
    hide InStep, Along, Walk, DecodeLoop;
    if ReadUint32(b, p).Got? {
      var len, n := ReadUint32(b, p).value, ReadUint32(b, p).used;
      StopsWithWalk(f, ok, b, p + n, p + n + len, base);
    }
  }

  lemma {:induction false} AlongAnything(b: bytes, pos: nat, end: nat)
    ensures Along(Anything(), b, pos, end)
    decreases end - pos
  {
    hide ReadUint32, Skip;
    if pos < end && ReadUint32(b, pos).Got? {
      var tag, n := ReadUint32(b, pos).value, ReadUint32(b, pos).used;
      if Skip(b, pos + n, tag % 8).Got? {
        AlongAnything(b, pos + n + Skip(b, pos + n, tag % 8).used, end);
      }
    }
  }

  /** On any bytes: a nested offering that decodes ends exactly at its length just when
      its payload is a walk to that end. */
  lemma OfferingEndsExactly(b: bytes, p: nat)
    ensures EndsWhole(OfferingField, BASE_OFFERING, b, p)
  {
    hide Along, EndsWhole, ReadString, ReadBytes, ReadUint32, Skip;
    forall m, tag: nat, q: nat | OfferingField(m, tag, b, q).Handled?
      ensures tag % 8 == 2 && Skip(b, q, tag % 8) == Got((), OfferingField(m, tag, b, q).used)
    {
      ScalarsInStep(b, q);
    }
    if ReadUint32(b, p).Got? {
      AlongAnything(b, p + ReadUint32(b, p).used, p + ReadUint32(b, p).used + ReadUint32(b, p).value);
    }
    NestedEndsWhole(OfferingField, Anything(), BASE_OFFERING, b, p);
  }

  /** The same for a nested capability whose offerings are whole. */
  lemma CapabilityEndsExactly(b: bytes, p: nat)
    requires match ReadUint32(b, p)
             case Bad => true
             case Got(len, n) => OfferingsWhole(b, p + n, p + n + len)
    ensures EndsWhole(CapabilityField, BASE_CAPABILITY, b, p)
  {
    hide Along, EndsWhole, Whole, ReadString, ReadBytes, ReadNested, ReadUint32, Skip;
    var ok := WholeOffering(b);
    forall m, tag: nat, q: nat | CapabilityField(m, tag, b, q).Handled?
      ensures tag % 8 == 2 && (ok(tag, q) ==> Skip(b, q, tag % 8) == Got((), CapabilityField(m, tag, b, q).used))
    {
      ScalarsInStep(b, q);
      if tag == 26 && Whole(b, q) {
        OfferingEndsExactly(b, q);
        NestedInStep(OfferingField, BASE_OFFERING, b, q);
      }
    }
    NestedEndsWhole(CapabilityField, ok, BASE_CAPABILITY, b, p);
  }

  /** On any input whose capabilities are whole, a node that decodes uses all of the
      input just when the input is a walk to its end. */
  lemma NodeEndsExactly(b: bytes)
    requires CapabilitiesWhole(b) && DecodeNode(b).Done?
    ensures DecodeNode(b).pos == |b| <==> Walk(b, 0, |b|) == Some(|b|)
  {
    hide Along, Whole, ReadString, ReadBytes, ReadInt32, ReadBool, ReadNested, ReadUint32, Skip, DecodeLoop, Walk;
    var ok := WholeCapability(b);
    forall m, tag: nat, q: nat | NodeField(m, tag, b, q).Handled?
      ensures tag % 8 in {0, 2} && tag != 0
      ensures ok(tag, q) ==> Skip(b, q, tag % 8) == Got((), NodeField(m, tag, b, q).used)
    {
      ScalarsInStep(b, q);
      if tag == 42 && CapabilityWhole(b, q) {
        CapabilityInStep(b, q);
      }
    }
    StopsWithWalk(NodeField, ok, b, 0, |b|, BASE_NODE);
  }

  lemma CapabilityInStep(b: bytes, q: nat)
    requires CapabilityWhole(b, q)
    ensures ReadNested(CapabilityField, BASE_CAPABILITY, b, q).Got? ==>
      Skip(b, q, 2) == Got((), ReadNested(CapabilityField, BASE_CAPABILITY, b, q).used)
  {
    hide OfferingsWhole, Walk, DecodeLoop, Skip;
    if ReadUint32(b, q).Got? {
      CapabilityEndsExactly(b, q);
      NestedInStep(CapabilityField, BASE_CAPABILITY, b, q);
    }
  }

  // -------------------------------------------------------------- a short stop

  /** A nested payload that starts with a zero byte ends there, whatever its length says. */
  lemma ZeroTagStopsShort<M>(f: (M, nat, bytes, nat) -> FieldStep<M>, base: M, b: bytes, p: nat)
    requires ReadUint32(b, p).Got? && ReadUint32(b, p).value > 0
    requires p + ReadUint32(b, p).used < |b| && b[p + ReadUint32(b, p).used] == 0
    requires f(base, 0, b, p + ReadUint32(b, p).used + 1).Unhandled?
    ensures ReadNested(f, base, b, p) == Got(base, ReadUint32(b, p).used + 1)
  {
    var q := p + ReadUint32(b, p).used;
    assert ReadVarint(b, q, q + 10) == Got(0, 1);
  }

  /** So it does after the end tag of a group, here of any field below 16. */
  lemma EndTagStopsShort<M>(f: (M, nat, bytes, nat) -> FieldStep<M>, base: M, b: bytes, p: nat)
    requires ReadUint32(b, p).Got? && ReadUint32(b, p).value > 0
    requires p + ReadUint32(b, p).used < |b|
    requires b[p + ReadUint32(b, p).used] < 128 && b[p + ReadUint32(b, p).used] % 8 == 4
    requires f(base, b[p + ReadUint32(b, p).used], b, p + ReadUint32(b, p).used + 1).Unhandled?
    ensures ReadNested(f, base, b, p) == Got(base, ReadUint32(b, p).used + 1)
  {
    OneByteReads(b, p + ReadUint32(b, p).used);
  }

  lemma OneByteReads(b: bytes, p: nat)
    requires p < |b| && b[p] < 128
    ensures ReadUint32(b, p) == Got(b[p], 1)
  {
    assert ReadVarint(b, p, p + 10) == Got(b[p], 1);
  }

  /** So the rest of a capability's payload can be read as fields of the node: here the
      four bytes of the capability hold a zero and the field `id`. */
  lemma RestIsReadOutside()
    ensures var b := [42, 4, 0, 10, 1, 97];
            && DecodeNode(b) == Done(BASE_NODE.(id := "a", capabilities := [BASE_CAPABILITY]), 6)
            && !CapabilitiesWhole(b)
  {
    hide ReadUint32, Skip, Along, CapabilityWhole, U.Decode, ReadNested;
    var b: bytes := [42, 4, 0, 10, 1, 97];
    OneByteReads(b, 0);
    OneByteReads(b, 1);
    OneByteReads(b, 2);
    OneByteReads(b, 3);
    OneByteReads(b, 4);
    ZeroTagStopsShort(CapabilityField, BASE_CAPABILITY, b, 1);
    assert b[5..6] == [97];
    LetterA();
    var m := BASE_NODE.(capabilities := [BASE_CAPABILITY]);
    assert BASE_NODE.capabilities + [BASE_CAPABILITY] == [BASE_CAPABILITY];
    assert ReadString(b, 4) == Got("a", 2);
    assert DecodeLoop(NodeField, b, 6, 6, m.(id := "a")) == Done(m.(id := "a"), 6);
    assert DecodeLoop(NodeField, b, 3, 6, m) == Done(m.(id := "a"), 6);
    if CapabilitiesWhole(b) {
      FirstIsWhole(b);
      ZeroTagIsNotWhole(b, 1);
    }
  }

  lemma ZeroTagIsNotWhole(b: bytes, p: nat)
    requires ReadUint32(b, p).Got? && ReadUint32(b, p).value > 1
    requires p + ReadUint32(b, p).used < |b| && b[p + ReadUint32(b, p).used] == 0
    ensures !CapabilityWhole(b, p)
  {
    OneByteReads(b, p + ReadUint32(b, p).used);
  }

  lemma LetterA()
    ensures U.Decode([97]) == Some("a")
  {
    U.RoundTrip("a");
    assert "a"[1..] == "";
    assert U.Encode("a") == [97];
  }

  lemma FirstIsWhole(b: bytes)
    requires |b| > 0 && ReadUint32(b, 0) == Got(42, 1) && CapabilitiesWhole(b)
    ensures CapabilityWhole(b, 1)
  {
    hide ReadUint32, Skip, CapabilityWhole;
    assert WholeCapability(b)(42, 1);
  }
}
