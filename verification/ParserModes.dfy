/** The two modes of the parser: strict parsing stops at the first error, lenient parsing records it and goes on. */
module ParserModes {
  import opened Bytes
  import opened ObjectCodec
  import opened IeStores
  import opened MessageCodec
  import opened MessageParser

  /** An object that lenient parsing takes without an error is taken by strict parsing, else that refuses it with the error. */
  lemma DecodeModes(bs: seq<byte>, imp: Import)
    ensures var strict, lenient := Decode(bs, imp, false), Decode(bs, imp, true);
            if lenient.Parsed? && lenient.errors != [] then strict == Refused(lenient.errors) && |lenient.errors| == 1
            else strict == lenient
  {
  }

  /** What strict parsing makes of a body that lenient parsing reads with some errors. */
  function Strictly(lenient: Body): Body
    requires lenient.Objects?
  {
    if lenient.errors == [] then lenient else Failed([lenient.errors[0]])
  }

  lemma AfterStrictly(used: nat, rest: Body)
    requires rest.Objects?
    ensures After(used, [], Strictly(rest)) == Strictly(After(used, [], rest))
  {
    assert [] + rest.errors == rest.errors;
  }

  lemma {:induction false} BodyModes(c: Content, bs: seq<byte>, imp: Import)
    ensures var lenient := ParseObjects(c, bs, imp, true);
            lenient.Objects? ==> ParseObjects(c, bs, imp, false) == Strictly(lenient)
    decreases |bs|
  {
    var d := Decode(bs, imp, true);
    DecodeModes(bs, imp);
    if bs != [] && d.Parsed? {
      ParseOne(c, bs, imp, true);
      ParseOne(c, bs, imp, false);
      DecodeProgress(bs, imp, true);
      if d.errors == [] && !Duplicate(c, d.obj) {
        BodyModes(c.Put(d.obj), bs[d.used..], imp);
        var rest := ParseObjects(c.Put(d.obj), bs[d.used..], imp, true);
        if rest.Objects? {
          AfterStrictly(d.used, rest);
        }
      }
    }
  }

  /**
   * On every byte string that lenient parsing accepts: strict parsing accepts the same message if there was no error, and
   * otherwise rejects it with the first of the errors.
   */
  lemma StrictStopsAtFirstError(bs: seq<byte>, imp: Import)
    ensures var lenient := Parse(bs, imp, true);
            lenient.Accepted? ==>
              Parse(bs, imp, false) == if lenient.errors == [] then lenient else Rejected([lenient.errors[0]])
  {
    if |bs| >= 4 {
      BodyModes(NOTHING, bs[4..], imp);
    }
  }

  /** And what strict parsing accepts, lenient parsing accepts as well. */
  lemma {:induction false} LenientFollows(c: Content, bs: seq<byte>, imp: Import)
    ensures ParseObjects(c, bs, imp, false).Objects? ==> ParseObjects(c, bs, imp, true) == ParseObjects(c, bs, imp, false)
    decreases |bs|
  {
    var d := Decode(bs, imp, false);
    DecodeModes(bs, imp);
    if bs != [] && d.Parsed? && !Duplicate(c, d.obj) {
      ParseOne(c, bs, imp, true);
      ParseOne(c, bs, imp, false);
      DecodeProgress(bs, imp, false);
      LenientFollows(c.Put(d.obj), bs[d.used..], imp);
    }
  }

  /** Strict parsing accepts exactly what lenient parsing accepts without an error, and reads the same message. */
  lemma ModesAgree(bs: seq<byte>, imp: Import)
    ensures var strict, lenient := Parse(bs, imp, false), Parse(bs, imp, true);
            && (strict.Accepted? <==> lenient.Accepted? && lenient.errors == [])
            && (strict.Accepted? ==> lenient == strict)
  {
    StrictStopsAtFirstError(bs, imp);
    if |bs| >= 4 {
      LenientFollows(NOTHING, bs[4..], imp);
      ParseAccounts(bs, imp);
    }
  }
}
