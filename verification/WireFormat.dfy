/** The bytes of every message, written down without the codec: type codes, object codes, lengths and their order. */
module WireFormat {
  import opened Bytes
  import opened Protocol
  import OC = ObjectCodec
  import IS = IeStores
  import MC = MessageCodec
  import Messages
  import ParserTheorems
  import Wire

  // The reference form

  /** An object of four bytes: treatment 0, its code, a length of one word, and the value. */
  function Field(code: byte, v: Option<uint32>): seq<byte> {
    if v.Some? then [0, code, 0, 1] + Encode32(v.value) else []
  }

  /** An information code: severity and code in the upper half, nothing it is about in the lower one. */
  function InfoField(code: Option<InfoCode>): seq<byte> {
    if code.Some? then [0, 0xF4, 0, 1] + [code.value.severity % 0x10, code.value.code, 0, 0] else []
  }

  /** An IPAP message: its length in words, its bytes, and zero bytes up to a full word. */
  function PayloadField(payload: Payload): seq<byte> {
    var words := (|payload| + 3) / 4 % 0x4000;
    [0, 0xF9, words / 0x100, words % 0x100] + payload + Zeros((4 - |payload| % 4) % 4)
  }

  function PayloadFields(objects: seq<Payload>): seq<byte> {
    if objects == [] then [] else PayloadField(objects[0]) + PayloadFields(objects[1..])
  }

  /** The unique fields of a message in the order of its type. */
  function RequiredFields(m: Msg): seq<byte> {
    match m.kind
    case CREATE => Field(0xF7, m.msn) + (Field(0xF8, m.lifetime) + (Field(0xF5, m.sel) + Field(0xF6, m.hop)))
    case RESPONSE => Field(0xF7, m.msn) + (InfoField(m.code) + Field(0xF8, m.lifetime))
    case NOTIFY => InfoField(m.code)
    case REFRESH => Field(0xF7, m.msn) + Field(0xF8, m.lifetime)
    case BIDDING => Field(0xF7, m.msn)
  }

  /** The registered code of a message type. */
  function Code(kind: Kind): byte {
    match kind
    case CREATE => 1
    case RESPONSE => 2
    case NOTIFY => 3
    case REFRESH => 5
    case BIDDING => 6
  }

  /** The code of a message type, three reserved bytes, the unique fields, and the IPAP messages of the types that carry any. */
  function BytesOf(m: Msg): seq<byte> {
    [Code(m.kind), 0, 0, 0] + RequiredFields(m)
    + if m.kind == CREATE || m.kind == RESPONSE || m.kind == BIDDING then PayloadFields(m.objects) else []
  }

  // Objects

  lemma PlainHeader(code: byte, words: nat)
    requires words < 0x4000
    ensures OC.PackHeader(0, code, words * 4) == code * 0x1_0000 + words
  {
  }

  lemma HeaderBytes(code: byte, words: nat)
    requires words < 0x4000
    ensures Encode32(OC.PackHeader(0, code, words * 4)) == [0, code, words / 0x100, words % 0x100]
  {
    PlainHeader(code, words);
    var high, low := words / 0x100, words % 0x100;
    var v := code * 0x1_0000 + high * 0x100 + low;
    assert v / 0x100 == code * 0x100 + high;
    assert v / 0x1_0000 == code;
  }

  lemma ScalarBytes(of: OC.ScalarType, v: uint32)
    ensures OC.Scalar(of, 0, v).Encode() == Field(OC.ScalarCode(of), Some(v))
  {
    HeaderBytes(OC.ScalarCode(of), 1);
  }

  lemma InfoBytes(code: InfoCode)
    ensures OC.Info(0, code.severity, code.code, 0).Encode() == InfoField(Some(code))
  {
    HeaderBytes(0xF4, 1);
  }

  lemma PaddedWords(n: nat)
    ensures OC.Padding(n) == (4 - n % 4) % 4 && n + OC.Padding(n) == (n + 3) / 4 * 4
  {
  }

  lemma WordsModulo(words: nat)
    ensures words * 4 % 0x1_0000 == words % 0x4000 * 4
  {
    var q, r := words / 0x4000, words % 0x4000;
    assert words * 4 == q * 0x1_0000 + r * 4;
  }

  lemma PayloadHeader(payload: Payload)
    ensures var o, words := OC.Ipap(0, payload), (|payload| + 3) / 4 % 0x4000;
            Encode32(OC.PackHeader(0, o.Type(), (o.Size() - OC.HEADER_LENGTH) % 0x1_0000)) == [0, 0xF9, words / 0x100, words % 0x100]
  {
    var words := (|payload| + 3) / 4;
    OC.PaddingIsPeriodic(|payload|);
    PaddedWords(|payload|);
    WordsModulo(words);
    HeaderBytes(0xF9, words % 0x4000);
  }

  lemma PayloadBytes(payload: Payload)
    ensures OC.Ipap(0, payload).Encode() == PayloadField(payload)
  {
    PayloadHeader(payload);
    PaddedWords(|payload|);
    var words := (|payload| + 3) / 4 % 0x4000;
    Concatenates([0, 0xF9, words / 0x100, words % 0x100], payload, Zeros((4 - |payload| % 4) % 4));
  }

  lemma {:induction false} PayloadsBytes(objects: seq<Payload>)
    ensures MC.EncodeAll(Wire.Ipaps(objects)) == PayloadFields(objects)
  {
    if objects != [] {
      PayloadBytes(objects[0]);
      PayloadsBytes(objects[1..]);
      assert Wire.Ipaps(objects)[1..] == Wire.Ipaps(objects[1..]);
    }
  }

  // Unique objects

  /** The object of a type in its reference form. */
  function FieldAt(m: Msg, t: nat): seq<byte> {
    if t == 0xF7 then Field(0xF7, m.msn)
    else if t == 0xF8 then Field(0xF8, m.lifetime)
    else if t == 0xF5 then Field(0xF5, m.sel)
    else if t == 0xF6 then Field(0xF6, m.hop)
    else if t == 0xF4 then InfoField(m.code)
    else []
  }

  lemma UniqueIsField(m: Msg, t: nat)
    ensures Messages.UniqueBytes(Wire.ToWire(m).content, t) == FieldAt(m, t)
  {
    Wire.OnWire(m, t);
    match Wire.At(m, t)
    case None =>
    case Some(o) =>
      match o
      case Scalar(of, _, v) => ScalarBytes(of, v);
      case Info(_, severity, code, _) => InfoBytes(InfoCode(severity, code));
      case Ipap(_, _) => assert false;
  }

  function FieldsOf(m: Msg, types: seq<nat>): seq<byte> {
    if types == [] then [] else FieldAt(m, types[0]) + FieldsOf(m, types[1..])
  }

  lemma {:induction false} UniquesAreFields(m: Msg, types: seq<nat>)
    ensures Messages.UniquesBytes(Wire.ToWire(m).content, types) == FieldsOf(m, types)
  {
    var c := Wire.ToWire(m).content;
    if types == [] {
      Messages.NoUniques(c, types);
      assert types[|types|..] == types;
    } else {
      UniqueIsField(m, types[0]);
      Messages.UniquesFrom(c, types, 0);
      UniquesAreFields(m, types[1..]);
      assert types[0..] == types;
    }
  }

  /** What a message is made of. */
  lemma Parts(m: Msg)
    ensures var w := Wire.ToWire(m);
            w.Encode() == Encode32(MC.TypeCode(m.kind) * 0x100_0000) + Messages.UniquesBytes(w.content, MC.Required(m.kind))
                          + if MC.CarriesIpaps(m.kind) then PayloadFields(m.objects) else []
  {
    var first, second := Messages.EncodingParts(Wire.ToWire(m));
    PayloadsBytes(m.objects);
  }

  lemma FieldsOfTwo(m: Msg, a: nat, b: nat)
    ensures FieldsOf(m, [b]) == FieldAt(m, b)
    ensures FieldsOf(m, [a, b]) == FieldAt(m, a) + FieldAt(m, b)
  {
    assert [a, b][1..] == [b] && [b][1..] == [];
    assert FieldAt(m, b) + [] == FieldAt(m, b);
  }

  lemma FieldsOfThree(m: Msg, a: nat, b: nat, c: nat)
    ensures FieldsOf(m, [a, b, c]) == FieldAt(m, a) + FieldsOf(m, [b, c])
  {
    assert [a, b, c][1..] == [b, c];
  }

  lemma FieldsOfFour(m: Msg, a: nat, b: nat, c: nat, d: nat)
    ensures FieldsOf(m, [a, b, c, d]) == FieldAt(m, a) + FieldsOf(m, [b, c, d])
  {
    assert [a, b, c, d][1..] == [b, c, d];
  }

  lemma RequiredInOrder(m: Msg)
    ensures FieldsOf(m, MC.Required(m.kind)) == RequiredFields(m)
  {
    match m.kind
    case CREATE =>
      FieldsOfFour(m, 0xF7, 0xF8, 0xF5, 0xF6);
      FieldsOfThree(m, 0xF8, 0xF5, 0xF6);
      FieldsOfTwo(m, 0xF5, 0xF6);
    case RESPONSE =>
      FieldsOfThree(m, 0xF7, 0xF4, 0xF8);
      FieldsOfTwo(m, 0xF4, 0xF8);
    case NOTIFY => FieldsOfTwo(m, 0, 0xF4);
    case REFRESH => FieldsOfTwo(m, 0xF7, 0xF8);
    case BIDDING => FieldsOfTwo(m, 0, 0xF7);
  }

  lemma TypeBytes(kind: Kind)
    ensures Encode32(MC.TypeCode(kind) * 0x100_0000) == [Code(kind), 0, 0, 0]
  {
  }

  /** Every message of the sessions is written in exactly these bytes. */
  lemma MessageBytes(m: Msg)
    ensures Wire.ToWire(m).Encode() == BytesOf(m)
  {
    Parts(m);
    UniquesAreFields(m, MC.Required(m.kind));
    RequiredInOrder(m);
    TypeBytes(m.kind);
  }

  // What a handler reads

  lemma PassedOverAt(m: Msg, t: nat)
    ensures Wire.At(m, t).Some? ==>
              (ParserTheorems.PassedOver(m.kind, Wire.At(m, t).value)
               <==> if m.kind == RESPONSE then t != MC.F_SEL && t != MC.F_HOP else t != MC.F_INFO)
  {
  }

  /** get_mspec_objects reads the same objects of a message on the wire as of the message that the session machines see. */
  lemma MspecObjectsAgree(m: Msg)
    ensures Wire.ToWire(m).content.Valid()
    ensures ParserTheorems.MspecObjectsOf(Wire.ToWire(m))
            == match m.MspecObjects()
               case None => None
               case Some(objects) => Some(Wire.Ipaps(objects))
  {
    var c := Wire.ToWire(m).content;
    Wire.WireIsValid(m);
    ParserTheorems.MspecObjectsInOrder(m.kind, c);
    forall t | t in c.unique ensures c.unique[t] == Wire.At(m, t).value && Wire.At(m, t).Some? {
      Wire.OnWire(m, t);
      PassedOverAt(m, t);
    }
    Wire.OnWire(m, MC.F_SEL);
    Wire.OnWire(m, MC.F_HOP);
    Wire.OnWire(m, MC.F_INFO);
    PassedOverAt(m, MC.F_SEL);
    PassedOverAt(m, MC.F_HOP);
    PassedOverAt(m, MC.F_INFO);
    if forall t :: t in c.unique ==> ParserTheorems.PassedOver(m.kind, c.unique[t]) {
    } else {
      var t :| t in c.unique && !ParserTheorems.PassedOver(m.kind, c.unique[t]);
      PassedOverAt(m, t);
    }
  }
}
