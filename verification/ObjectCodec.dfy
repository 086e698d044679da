/** The objects of a message and their form on the wire (section A.2 of RFC 5971). */
module ObjectCodec {
  import opened Bytes

  // The object header

  const HEADER_LENGTH := 4

  /** What a node should do with an object that it does not know: two bits. */
  type Treatment = t: int | 0 <= t < 4

  /** Bitwise or of two-bit numbers. */
  function Or2(a: Treatment, b: Treatment): Treatment {
    (if a / 2 == 1 || b / 2 == 1 then 2 else 0) + (if a % 2 == 1 || b % 2 == 1 then 1 else 0)
  }

  /** (treatment << 30) | (objectType << 16) | (bodyLength / 4), with the bits that an oversized type shares with others. */
  function PackHeader(treatment: Treatment, objectType: uint16, bodyLength: uint16): uint32 {
    Or2(treatment, objectType / 0x4000) * 0x4000_0000 + objectType % 0x4000 * 0x1_0000 + bodyLength / 4
  }

  /** A type that does not fit shares its upper bits with the treatment. */
  lemma OversizedTypeSharesBits()
    ensures PackHeader(1, 0x8000, 0) == 0xC000_0000 && PackHeader(1, 0x4000, 0) == 0x4000_0000
  {
  }

  function UnpackTreatment(header: uint32): Treatment {
    header / 0x4000_0000
  }

  function UnpackType(header: uint32): uint16 {
    header / 0x1_0000 % 0x1000
  }

  function UnpackLength(header: uint32): uint16 {
    header % 0x1000 * 4
  }

  /** Every header is a treatment, two reserved bits, a type, four reserved bits and a length in words. */
  lemma HeaderFields(t: Treatment, a: int, objectType: int, b: int, words: int)
    requires 0 <= a < 4 && 0 <= objectType < 0x1000 && 0 <= b < 0x10 && 0 <= words < 0x1000
    ensures var header := t * 0x4000_0000 + a * 0x1000_0000 + objectType * 0x1_0000 + b * 0x1000 + words;
            && UnpackTreatment(header) == t && UnpackType(header) == objectType && UnpackLength(header) == words * 4
  {
    var low := b * 0x1000 + words;
    var header := t * 0x4000_0000 + a * 0x1000_0000 + objectType * 0x1_0000 + low;
    assert header / 0x1_0000 == t * 0x4000 + a * 0x1000 + objectType;
    assert (t * 0x4000 + a * 0x1000 + objectType) % 0x1000 == objectType;
  }

  /** Unpacking inverts packing exactly when the type fits 12 bits and the body 4095 words. */
  lemma HeaderRoundTrip(treatment: Treatment, objectType: uint16, bodyLength: uint16)
    requires bodyLength % 4 == 0
    ensures var header := PackHeader(treatment, objectType, bodyLength);
            (UnpackTreatment(header) == treatment && UnpackType(header) == objectType && UnpackLength(header) == bodyLength)
            <==> (objectType < 0x1000 && bodyLength / 4 < 0x1000)
  {
    if objectType < 0x1000 && bodyLength / 4 < 0x1000 {
      assert Or2(treatment, 0) == treatment;
      HeaderFields(treatment, 0, objectType, 0, bodyLength / 4);
    }
  }

  /** The type always comes back reduced to 12 bits, and the length to 4096 words. */
  lemma HeaderTruncates(treatment: Treatment, objectType: uint16, bodyLength: uint16)
    requires objectType < 0x1000
    ensures var header := PackHeader(treatment, objectType, bodyLength);
            && UnpackTreatment(header) == treatment && UnpackType(header) == objectType
            && UnpackLength(header) == bodyLength / 4 % 0x1000 * 4
  {
    var words := bodyLength / 4;
    var q, r := words / 0x1000, words % 0x1000;
    assert words == q * 0x1000 + r && 0 <= q < 0x10;
    assert objectType / 0x4000 == 0 && objectType % 0x4000 == objectType;
    assert Or2(treatment, 0) == treatment;
    assert PackHeader(treatment, objectType, bodyLength) == treatment * 0x4000_0000 + objectType * 0x1_0000 + words;
    HeaderFields(treatment, 0, objectType, q, r);
  }

  // Objects

  datatype ScalarType = SELECTION | HOP_COUNT | MSN | LIFETIME

  /** Objects of four bytes, information codes, and IPAP messages in their exported form. */
  datatype Object =
    | Scalar(of: ScalarType, treatment: Treatment, value: uint32)
    | Info(treatment: Treatment, severity: byte, code: byte, about: uint16)
    | Ipap(treatment: Treatment, payload: Payload)
  {
    predicate IsUnique() {
      !Ipap?
    }

    function Type(): uint16 {
      match this
      case Scalar(of, _, _) => ScalarCode(of)
      case Info(_, _, _, _) => INFORMATION_CODE
      case Ipap(_, _) => IPAP_MESSAGE
    }

    predicate Check() {
      match this
      case Scalar(_, _, _) => true
      case Info(_, severity, _, about) => severity < 0x10 && about == 0
      case Ipap(_, payload) => |payload| > 0
    }

    /** get_serialized_size: the header, the body, and the padding to full words. */
    function Size(): nat {
      if Ipap? then HEADER_LENGTH + |payload| + Padding(HEADER_LENGTH + |payload|) else HEADER_LENGTH + 4
    }

    function Body(): seq<byte> {
      match this
      case Scalar(_, _, value) => Encode32(value)
      case Info(_, severity, code, about) => [severity % 0x10, code, about / 0x100, about % 0x100]
      case Ipap(_, payload) => payload + Zeros(Padding(|payload|))
    }

    function Encode(): seq<byte> {
      Encode32(PackHeader(treatment, Type(), (Size() - HEADER_LENGTH) % 0x1_0000)) + Body()
    }

    /** The length of the body fits its field in the header. */
    predicate Fits() {
      (Size() - HEADER_LENGTH) / 4 <= 0xFFF
    }
  }

  const INFORMATION_CODE: uint16 := 0xF4
  const IPAP_MESSAGE: uint16 := 0xF9

  function ScalarCode(of: ScalarType): uint16 {
    match of
    case SELECTION => 0xF5
    case HOP_COUNT => 0xF6
    case MSN => 0xF7
    case LIFETIME => 0xF8
  }

  function ScalarOf(code: uint16): (of: Option<ScalarType>)
    ensures of.Some? ==> ScalarCode(of.value) == code
    ensures of.None? ==> forall s :: ScalarCode(s) != code
  {
    match code
    case 0xF5 => Some(SELECTION)
    case 0xF6 => Some(HOP_COUNT)
    case 0xF7 => Some(MSN)
    case 0xF8 => Some(LIFETIME)
    case _ => None
  }

  function Padding(n: nat): (p: nat)
    ensures p < 4 && (n + p) % 4 == 0
  {
    if n % 4 == 0 then 0 else 4 - n % 4
  }

  lemma PaddingIsPeriodic(n: nat)
    ensures Padding(HEADER_LENGTH + n) == Padding(n)
  {
    assert (HEADER_LENGTH + n) % 4 == n % 4;
  }

  /** The size that is announced and the bytes that are written agree. */
  lemma SizeIsExact(o: Object)
    ensures |o.Encode()| == o.Size() && |o.Body()| == o.Size() - HEADER_LENGTH
    ensures o.Size() % 4 == 0
  {
    if o.Ipap? {
      PaddingIsPeriodic(|o.payload|);
    }
  }

  // Parsing

  datatype ParseError = TOO_SHORT | WRONG_TYPE | WRONG_SUBTYPE | BAD_INFORMATION_CODE | DUPLICATE_OBJECT | EMPTY_MESSAGE

  /**
   * The import function of the IPAP library: it recognises an exported message at the start of some bytes and tells its
   * length, or throws.
   */
  type Import = imp: seq<byte> -> Option<nat> | forall bs :: imp(bs).Some? ==> 0 < imp(bs).value <= |bs|
    ghost witness ((bs: seq<byte>) => None)

  /** What is recognised does not depend on how many zero bytes follow as padding. */
  ghost predicate Faithful(imp: Import) {
    forall bs, k: nat :: imp(bs).Some? && k < 4 ==> imp(bs[..imp(bs).value] + Zeros(k)) == imp(bs)
  }

  /** The library recognises an object's payload whatever its padding. */
  ghost predicate Importable(imp: Import, o: Object) {
    o.Ipap? ==> imp(o.payload + Zeros(Padding(|o.payload|))) == Some(|o.payload|)
  }

  datatype Decoded =
    | Parsed(obj: Object, used: nat, errors: seq<ParseError>)
    | Refused(errors: seq<ParseError>)
      /** An exception that leaves the parser. */
    | Raised

  predicate AllZero(bs: seq<byte>) {
    forall i :: 0 <= i < |bs| ==> bs[i] == 0
  }

  /** Parse the object at the start of `bs`. */
  function Decode(bs: seq<byte>, imp: Import, skip: bool): Decoded {
    if |bs| < 4 then Refused([TOO_SHORT])
    else
      var header := Decode32(bs);
      var objectType := UnpackType(header);
      if objectType != IPAP_MESSAGE && objectType != INFORMATION_CODE && ScalarOf(objectType).None? then Refused([WRONG_SUBTYPE])
      else if |bs| - 4 < UnpackLength(header) then Refused([TOO_SHORT])
      else if objectType == IPAP_MESSAGE then DecodeIpap(UnpackTreatment(header), UnpackLength(header), bs[4..], imp)
      else if |bs| < 8 then Raised
      else DecodeWord(UnpackTreatment(header), objectType, Decode32(bs[4..]), skip)
  }

  function DecodeIpap(treatment: Treatment, length: uint16, bs: seq<byte>, imp: Import): Decoded
    requires length <= |bs|
  {
    match imp(bs[..length])
    case None => Raised
    case Some(n) =>
      if AllZero(bs[n..length]) then Parsed(Ipap(treatment, bs[..n]), HEADER_LENGTH + length, []) else Refused([])
  }

  /** The other objects take exactly four bytes, whatever length their header tells. */
  function DecodeWord(treatment: Treatment, objectType: uint16, v: uint32, skip: bool): Decoded
    requires objectType == INFORMATION_CODE || ScalarOf(objectType).Some?
  {
    if objectType == INFORMATION_CODE then
      var o := Info(treatment, v / 0x100_0000 % 0x10, v / 0x1_0000 % 0x100, v % 0x1_0000);
      if o.Check() then Parsed(o, HEADER_LENGTH + 4, [])
      else if skip then Parsed(o, HEADER_LENGTH + 4, [BAD_INFORMATION_CODE])
      else Refused([BAD_INFORMATION_CODE])
    else Parsed(Scalar(ScalarOf(objectType).value, treatment, v), HEADER_LENGTH + 4, [])
  }

  /** Zero bytes, and nothing else, may follow a payload up to the end of its body. */
  lemma IpapExactly(treatment: Treatment, length: uint16, bs: seq<byte>, imp: Import)
    requires length <= |bs|
    ensures var d, n := DecodeIpap(treatment, length, bs, imp), imp(bs[..length]);
            && (d.Parsed? <==> n.Some? && bs[..length] == bs[..n.value] + Zeros(length - n.value))
            && (d.Parsed? ==> d.obj == Ipap(treatment, bs[..n.value]) && d.used == HEADER_LENGTH + length)
            && (d.Raised? <==> n.None?)
  {
    var n := imp(bs[..length]);
    if n.Some? {
      var body := bs[..length];
      assert body == body[..n.value] + body[n.value..] && body[..n.value] == bs[..n.value] && body[n.value..] == bs[n.value..length];
      if AllZero(bs[n.value..length]) {
        assert bs[n.value..length] == Zeros(length - n.value);
      } else {
        var i :| 0 <= i < length - n.value && bs[n.value..length][i] != 0;
        assert body[n.value + i] != 0;
        assert (bs[..n.value] + Zeros(length - n.value))[n.value + i] == 0;
      }
    }
  }

  /** Strict parsing takes an information code exactly when the half that tells what it is about is zero. */
  lemma InfoExactly(treatment: Treatment, severity: byte, code: byte, about: uint16, v: uint32)
    requires v == severity * 0x100_0000 + code * 0x1_0000 + about
    ensures DecodeWord(treatment, INFORMATION_CODE, v, false)
            == if about == 0 then Parsed(Info(treatment, severity % 0x10, code, 0), HEADER_LENGTH + 4, [])
               else Refused([BAD_INFORMATION_CODE])
  {
    assert v / 0x100_0000 == severity && v / 0x1_0000 == severity * 0x100 + code && v % 0x1_0000 == about;
  }

  lemma IpapProgress(treatment: Treatment, length: uint16, bs: seq<byte>, imp: Import)
    requires length <= |bs| && length % 4 == 0 && length <= 4 * 0xFFF
    ensures var d := DecodeIpap(treatment, length, bs, imp);
            d.Parsed? ==> length > 0 && d.obj.Ipap? && d.obj.Check() && d.obj.Fits()
                          && (Faithful(imp) ==> Importable(imp, d.obj))
  {
    var d := DecodeIpap(treatment, length, bs, imp);
    if d.Parsed? {
      var n := |d.obj.payload|;
      PaddingIsPeriodic(n);
      assert n + Padding(n) <= length;
      assert bs[..length][..n] == bs[..n];
    }
  }

  lemma WordProgress(treatment: Treatment, objectType: uint16, v: uint32, skip: bool)
    requires objectType == INFORMATION_CODE || ScalarOf(objectType).Some?
    ensures var d := DecodeWord(treatment, objectType, v, skip);
            d.Parsed? ==> d.used == 8 && !d.obj.Ipap? && (d.errors == [] <==> d.obj.Check()) && (!skip ==> d.errors == [])
  {
  }

  lemma LengthInWords(header: uint32)
    ensures UnpackLength(header) % 4 == 0 && UnpackLength(header) <= 4 * 0xFFF
  {
  }

  /** Which parser reads an object that is parsed. */
  lemma ParsedBy(bs: seq<byte>, imp: Import, skip: bool)
    requires Decode(bs, imp, skip).Parsed?
    ensures |bs| >= 4
    ensures var header := Decode32(bs);
            if UnpackType(header) == IPAP_MESSAGE then
              && UnpackLength(header) <= |bs| - 4
              && Decode(bs, imp, skip) == DecodeIpap(UnpackTreatment(header), UnpackLength(header), bs[4..], imp)
            else
              && |bs| >= 8 && (UnpackType(header) == INFORMATION_CODE || ScalarOf(UnpackType(header)).Some?)
              && Decode(bs, imp, skip) == DecodeWord(UnpackTreatment(header), UnpackType(header), Decode32(bs[4..]), skip)
  {
  }

  /** What is true of every object that was parsed from the start of `n` bytes. */
  ghost predicate Progresses(d: Decoded, n: nat, imp: Import, skip: bool)
    requires d.Parsed?
  {
    && 8 <= d.used <= n && d.used % 4 == 0
    && (d.errors == [] <==> d.obj.Check()) && d.obj.Fits()
    && (!skip ==> d.errors == [])
    && (Faithful(imp) ==> Importable(imp, d.obj))
  }

  lemma IpapProgresses(treatment: Treatment, header: uint32, bs: seq<byte>, imp: Import, skip: bool, d: Decoded)
    requires UnpackLength(header) <= |bs| && d == DecodeIpap(treatment, UnpackLength(header), bs, imp) && d.Parsed?
    ensures Progresses(d, |bs| + 4, imp, skip)
  {
    LengthInWords(header);
    IpapProgress(treatment, UnpackLength(header), bs, imp);
  }

  lemma WordProgresses(treatment: Treatment, objectType: uint16, v: uint32, n: nat, imp: Import, skip: bool, d: Decoded)
    requires n >= 8 && (objectType == INFORMATION_CODE || ScalarOf(objectType).Some?)
    requires d == DecodeWord(treatment, objectType, v, skip) && d.Parsed?
    ensures Progresses(d, n, imp, skip)
  {
    WordProgress(treatment, objectType, v, skip);
  }

  /** A parsed object takes whole words: its header and at least one more. It is fit to be written again. */
  lemma DecodeProgress(bs: seq<byte>, imp: Import, skip: bool)
    ensures var d := Decode(bs, imp, skip); d.Parsed? ==> Progresses(d, |bs|, imp, skip)
  {
    var d := Decode(bs, imp, skip);
    if d.Parsed? {
      ParsedBy(bs, imp, skip);
      var header := Decode32(bs);
      if UnpackType(header) == IPAP_MESSAGE {
        IpapProgresses(UnpackTreatment(header), header, bs[4..], imp, skip, d);
      } else {
        WordProgresses(UnpackTreatment(header), UnpackType(header), Decode32(bs[4..]), |bs|, imp, skip, d);
      }
    }
  }



  /** The header of a written object, as the parser sees it: the length comes back reduced to 4096 words. */
  lemma HeaderOfEncoded(o: Object, rest: seq<byte>)
    ensures var bs := o.Encode() + rest;
            && |bs| >= 8 - (if o.Ipap? then 4 else 0) && bs[4..] == o.Body() + rest
            && UnpackTreatment(Decode32(bs)) == o.treatment && UnpackType(Decode32(bs)) == o.Type()
            && UnpackLength(Decode32(bs)) == (o.Size() - HEADER_LENGTH) % 0x1_0000 / 4 % 0x1000 * 4
  {
    SizeIsExact(o);
    var header := PackHeader(o.treatment, o.Type(), (o.Size() - HEADER_LENGTH) % 0x1_0000);
    Decode32Encode32(header, o.Body() + rest);
    assert o.Encode() + rest == Encode32(header) + (o.Body() + rest);
    HeaderTruncates(o.treatment, o.Type(), (o.Size() - HEADER_LENGTH) % 0x1_0000);
  }

  lemma LengthFits(size: nat)
    requires size % 4 == 0
    ensures size % 0x1_0000 / 4 % 0x1000 * 4 == size <==> size / 4 <= 0xFFF
    ensures size % 0x1_0000 / 4 % 0x1000 * 4 <= 4 * 0xFFF
  {
  }

  lemma InfoWord(severity: byte, code: byte, about: uint16, rest: seq<byte>)
    requires severity < 0x10
    ensures var v := Decode32([severity % 0x10, code, about / 0x100, about % 0x100] + rest);
            v / 0x100_0000 % 0x10 == severity && v / 0x1_0000 % 0x100 == code && v % 0x1_0000 == about
  {
    var bs := [severity % 0x10, code, about / 0x100, about % 0x100] + rest;
    assert bs[0] == severity && bs[1] == code && bs[2] == about / 0x100 && bs[3] == about % 0x100;
    var v := Decode32(bs);
    assert v == severity * 0x100_0000 + code * 0x1_0000 + about;
    assert v / 0x1_0000 == severity * 0x100 + code;
  }

  lemma WordLength(o: Object, rest: seq<byte>)
    requires !o.Ipap?
    ensures UnpackLength(Decode32(o.Encode() + rest)) == 4 && |o.Encode() + rest| >= 8
  {
    HeaderOfEncoded(o, rest);
    LengthFits(4);
  }

  lemma DecodeEncodeScalar(o: Object, rest: seq<byte>, imp: Import, skip: bool)
    requires o.Scalar?
    ensures Decode(o.Encode() + rest, imp, skip) == Parsed(o, o.Size(), [])
  {
    HeaderOfEncoded(o, rest);
    Decode32Encode32(o.value, rest);
    WordLength(o, rest);
    assert ScalarOf(o.Type()) == Some(o.of);
    var bs := o.Encode() + rest;
    assert Decode(bs, imp, skip) == DecodeWord(o.treatment, o.Type(), Decode32(bs[4..]), skip);
  }

  lemma DecodeEncodeInfo(o: Object, rest: seq<byte>, imp: Import, skip: bool)
    requires o.Info? && o.Check()
    ensures Decode(o.Encode() + rest, imp, skip) == Parsed(o, o.Size(), [])
  {
    HeaderOfEncoded(o, rest);
    InfoWord(o.severity, o.code, o.about, rest);
    WordLength(o, rest);
    var bs := o.Encode() + rest;
    assert Decode(bs, imp, skip) == DecodeWord(o.treatment, INFORMATION_CODE, Decode32(bs[4..]), skip);
  }

  lemma DecodeEncodeIpap(o: Object, rest: seq<byte>, imp: Import, skip: bool)
    requires o.Check() && Importable(imp, o) && o.Ipap?
    ensures Decode(o.Encode() + rest, imp, skip) == Parsed(o, o.Size(), []) <==> o.Fits()
    ensures !o.Fits() ==> var d := Decode(o.Encode() + rest, imp, skip); d.Parsed? ==> d.obj.Ipap? && |d.obj.payload| < |o.payload|
  {
    HeaderOfEncoded(o, rest);
    SizeIsExact(o);
    PaddingIsPeriodic(|o.payload|);
    LengthFits(o.Size() - HEADER_LENGTH);
    if o.Fits() {
      assert (o.Body() + rest)[..o.Size() - HEADER_LENGTH] == o.Body();
      assert (o.Body() + rest)[..|o.payload|] == o.payload;
    }
  }

  /** Parsing inverts writing for exactly the objects whose body fits 4095 words. */
  lemma DecodeEncode(o: Object, rest: seq<byte>, imp: Import, skip: bool)
    requires o.Check() && Importable(imp, o)
    ensures Decode(o.Encode() + rest, imp, skip) == Parsed(o, o.Size(), []) <==> o.Fits()
  {
    match o
    case Scalar(_, _, _) => DecodeEncodeScalar(o, rest, imp, skip);
    case Info(_, _, _, _) => DecodeEncodeInfo(o, rest, imp, skip);
    case Ipap(_, _) => DecodeEncodeIpap(o, rest, imp, skip);
  }

  // Parsing in another context

  /** The length in the header does not reach beyond the bytes that are read. */
  predicate SelfContained(chunk: seq<byte>)
    requires |chunk| >= 4
  {
    4 + UnpackLength(Decode32(chunk)) <= |chunk|
  }

  /** The bytes of an object parse in front of other bytes as before, unless its header promises more than there are. */
  lemma DecodeElsewhere(bs: seq<byte>, rest: seq<byte>, imp: Import, skip: bool)
    requires Decode(bs, imp, skip).Parsed?
    ensures var d := Decode(bs, imp, skip);
            && 8 <= d.used <= |bs|
            && var chunk := bs[..d.used];
               Decode(chunk + rest, imp, skip)
               == if 4 + UnpackLength(Decode32(chunk)) <= |chunk| + |rest| then d else Refused([TOO_SHORT])
  {
    DecodeProgress(bs, imp, skip);
    var d := Decode(bs, imp, skip);
    var chunk := bs[..d.used];
    assert Decode32(chunk + rest) == Decode32(bs) == Decode32(chunk);
    var length := UnpackLength(Decode32(bs));
    if d.obj.Ipap? {
      assert (chunk + rest)[4..][..length] == bs[4..][..length];
      var n := |d.obj.payload|;
      assert (chunk + rest)[4..][..n] == bs[4..][..n];
      assert (chunk + rest)[4..][n..length] == bs[4..][n..length];
    } else {
      assert Decode32((chunk + rest)[4..]) == Decode32(bs[4..]);
    }
  }
}
