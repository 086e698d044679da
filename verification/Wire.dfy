/** How the messages of the session machines travel. */
module Wire {
  import opened Bytes
  import opened Protocol
  import OC = ObjectCodec
  import IS = IeStores
  import MC = MessageCodec
  import MP = MessageParser

  function ScalarOf(of: OC.ScalarType, v: Option<uint32>): Option<OC.Object> {
    if v.Some? then Some(OC.Scalar(of, 0, v.value)) else None
  }

  /** The object of a unique type, which is always mandatory. */
  function At(m: Msg, t: nat): Option<OC.Object> {
    if t == MC.F_MSN then ScalarOf(OC.MSN, m.msn)
    else if t == MC.F_LIFETIME then ScalarOf(OC.LIFETIME, m.lifetime)
    else if t == MC.F_SEL then ScalarOf(OC.SELECTION, m.sel)
    else if t == MC.F_HOP then ScalarOf(OC.HOP_COUNT, m.hop)
    else if t == MC.F_INFO && m.code.Some? then Some(OC.Info(0, m.code.value.severity, m.code.value.code, 0))
    else None
  }

  const TYPES: set<nat> := {MC.F_MSN, MC.F_LIFETIME, MC.F_SEL, MC.F_HOP, MC.F_INFO}

  function Ipaps(objects: seq<Payload>): (r: seq<OC.Object>)
    ensures |r| == |objects| && forall i :: 0 <= i < |r| ==> r[i] == OC.Ipap(0, objects[i])
  {
    seq(|objects|, i requires 0 <= i < |objects| => OC.Ipap(0, objects[i]))
  }

  function ToWire(m: Msg): MC.Message {
    MC.Message(m.kind, IS.Content(map t | t in TYPES && At(m, t).Some? :: At(m, t).value, Ipaps(m.objects)))
  }

  function Value(c: IS.Content, t: nat): Option<uint32> {
    if t in c.unique && c.unique[t].Scalar? then Some(c.unique[t].value) else None
  }

  function Payloads(objects: seq<OC.Object>): seq<Payload> {
    seq(|objects|, i requires 0 <= i < |objects| => if objects[i].Ipap? then objects[i].payload else [])
  }

  /** What the getters of a message read. */
  function FromWire(w: MC.Message): Msg {
    var c := w.content;
    Msg(w.kind, Value(c, MC.F_MSN), Value(c, MC.F_LIFETIME), Value(c, MC.F_SEL), Value(c, MC.F_HOP),
        if MC.F_INFO in c.unique && c.unique[MC.F_INFO].Info?
        then Some(InfoCode(c.unique[MC.F_INFO].severity, c.unique[MC.F_INFO].code)) else None,
        Payloads(c.ipaps))
  }

  lemma GettersReadWhatWasSet(m: Msg)
    ensures FromWire(ToWire(m)) == m
  {
    assert Payloads(Ipaps(m.objects)) == m.objects;
  }

  predicate IsEmpty(m: Msg) {
    m.msn.None? && m.lifetime.None? && m.sel.None? && m.hop.None? && m.code.None? && m.objects == []
  }

  /** The message passes the check of its type, holds nothing that is not written, and has a severity of four bits. */
  predicate WellFormed(m: Msg) {
    && m.HasOnlyRequired() && !IsEmpty(m) && (m.code.Some? ==> m.code.value.severity < 0x10)
    && (m.kind != RESPONSE ==> m.HasRequired())
    && (m.kind == BIDDING ==> m.objects != [])
  }

  lemma WireIsValid(m: Msg)
    ensures ToWire(m).content.Valid()
  {
  }

  lemma OnWire(m: Msg, t: nat)
    ensures t in ToWire(m).content.unique <==> At(m, t).Some?
  {
  }

  /** A message is complete on the wire exactly when it has the objects that its type writes. */
  lemma CompleteMeansRequired(m: Msg)
    ensures ToWire(m).Complete() <==> m.HasRequired()
  {
    MC.CompleteByType(ToWire(m));
  }

  lemma NothingElseIsThere(m: Msg)
    requires m.HasOnlyRequired()
    ensures ToWire(m).Exact()
  {
    forall t | t in ToWire(m).content.unique ensures t in MC.Required(m.kind) {
      OnWire(m, t);
      InRequired(m.kind, t);
    }
  }

  lemma InRequired(kind: Kind, t: nat)
    ensures t in MC.Required(kind) <==>
            match kind
            case CREATE => t == MC.F_MSN || t == MC.F_LIFETIME || t == MC.F_SEL || t == MC.F_HOP
            case RESPONSE => t == MC.F_MSN || t == MC.F_INFO || t == MC.F_LIFETIME
            case NOTIFY => t == MC.F_INFO
            case REFRESH => t == MC.F_MSN || t == MC.F_LIFETIME
            case BIDDING => t == MC.F_MSN
  {
  }

  /** The payloads can be carried: none is empty or too long, and the IPAP library recognises each. */
  ghost predicate Carriable(objects: seq<Payload>, imp: OC.Import) {
    forall i :: 0 <= i < |objects| ==>
      |objects[i]| > 0 && OC.Ipap(0, objects[i]).Fits() && OC.Importable(imp, OC.Ipap(0, objects[i]))
  }

  /** A well-formed message is one that the serialiser accepts and writes in full. */
  lemma WellFormedIsWritten(m: Msg)
    requires WellFormed(m)
    ensures ToWire(m).Check() && ToWire(m).Exact() && ToWire(m).Count() > 0
  {
    CompleteMeansRequired(m);
    NothingElseIsThere(m);
    MC.CheckOfExact(ToWire(m));
    if m.objects == [] {
      OnWire(m, MC.F_MSN);
      OnWire(m, MC.F_INFO);
      OnWire(m, MC.F_LIFETIME);
    }
  }

  lemma UniqueIsChecked(m: Msg, t: nat, imp: OC.Import)
    requires m.code.Some? ==> m.code.value.severity < 0x10
    ensures At(m, t).Some? ==> At(m, t).value.Check() && OC.Importable(imp, At(m, t).value)
  {
  }

  lemma WrittenIsChecked(m: Msg, imp: OC.Import)
    requires WellFormed(m) && Carriable(m.objects, imp)
    ensures var written := ToWire(m).Written();
            forall i :: 0 <= i < |written| ==> written[i].Check() && OC.Importable(imp, written[i])
  {
    var w := ToWire(m);
    forall i | 0 <= i < |w.Written()| ensures w.Written()[i].Check() && OC.Importable(imp, w.Written()[i]) {
      MC.WrittenIsHeld(w, i);
      if t :| t in w.content.unique && w.content.unique[t] == w.Written()[i] {
        UniqueIsChecked(m, t, imp);
      }
    }
  }

  /** A message of the session machines arrives as it was sent, even one that lacks an object of its type. */
  lemma MessageSurvivesTheWire(m: Msg, imp: OC.Import)
    requires WellFormed(m) && Carriable(m.objects, imp)
    ensures var r := MP.Parse(ToWire(m).Encode(), imp, false);
            r.Accepted? && r.errors == [] && r.used == ToWire(m).Size() && FromWire(r.message) == m
  {
    WireIsValid(m);
    WellFormedIsWritten(m);
    WrittenIsChecked(m, imp);
    GettersReadWhatWasSet(m);
    MP.RoundTrip(ToWire(m), imp, false);
  }

  /** An error response has no lifetime object, although the serialiser of responses writes one. */
  lemma ErrorResponseIsIncomplete(p: Packet, code: InfoCode)
    ensures ToWire(CreateResponse(p, code).msg).Check() && !ToWire(CreateResponse(p, code).msg).Complete()
  {
    CompleteMeansRequired(CreateResponse(p, code).msg);
  }
}
