/** The message parser, and how it relates to what is written. */
module MessageParser {
  import opened Bytes
  import opened ObjectCodec
  import opened IeStores
  import opened MessageCodec

  /** What the object loop comes to. */
  datatype Body =
    | Objects(content: Content, used: nat, errors: seq<ParseError>)
    | Failed(errors: seq<ParseError>)
    | Threw

  function After(used: nat, errors: seq<ParseError>, rest: Body): Body {
    match rest
    case Objects(c, n, es) => Objects(c, used + n, errors + es)
    case Failed(es) => Failed(errors + es)
    case Threw => Threw
  }

  predicate Duplicate(c: Content, o: Object) {
    o.IsUnique() && o.Type() in c.unique
  }

  /** The object loop, with the content read so far: read objects until no bytes are left. */
  function ParseObjects(c: Content, bs: seq<byte>, imp: Import, skip: bool): Body
    decreases |bs|
  {
    if bs == [] then Objects(c, 0, [])
    else
      DecodeProgress(bs, imp, skip);
      match Decode(bs, imp, skip)
      case Refused(es) => Failed(es)
      case Raised => Threw
      case Parsed(o, n, es) =>
        var es' := if Duplicate(c, o) then es + [DUPLICATE_OBJECT] else es;
        if Duplicate(c, o) && !skip then Failed(es')
        else After(n, es', ParseObjects(c.Put(o), bs[n..], imp, skip))
  }

  datatype Reading =
    | Accepted(message: Message, used: nat, errors: seq<ParseError>)
    | Rejected(errors: seq<ParseError>)
      /** An exception that leaves the parser. */
    | Exception

  function Parse(bs: seq<byte>, imp: Import, skip: bool): Reading {
    if |bs| < 4 then Rejected([TOO_SHORT])
    else if KindOf(bs[0]).None? then Rejected([WRONG_TYPE])
    else
      match ParseObjects(NOTHING, bs[4..], imp, skip)
      case Failed(es) => Rejected(es)
      case Threw => Exception
      case Objects(c, n, es) =>
        var m := Message(KindOf(bs[0]).value, c);
        if m.Count() > 0 then Accepted(m, HEADER_LENGTH + n, es)
        else if skip then Accepted(m, HEADER_LENGTH + n, es + [EMPTY_MESSAGE])
        else Rejected(es + [EMPTY_MESSAGE])
  }

  /** What the parser makes of the object loop. */
  lemma ParseFromBody(bs: seq<byte>, imp: Import, skip: bool, kind: Kind, body: Body)
    requires |bs| >= 4 && KindOf(bs[0]) == Some(kind) && body == ParseObjects(NOTHING, bs[4..], imp, skip)
    ensures match body
            case Failed(es) => Parse(bs, imp, skip) == Rejected(es)
            case Threw => Parse(bs, imp, skip) == Exception
            case Objects(c, n, es) =>
              var m := Message(kind, c);
              Parse(bs, imp, skip)
              == if m.Count() > 0 then Accepted(m, HEADER_LENGTH + n, es)
                 else if skip then Accepted(m, HEADER_LENGTH + n, es + [EMPTY_MESSAGE])
                 else Rejected(es + [EMPTY_MESSAGE])
  {
  }

  lemma ParseWithoutHeader(bs: seq<byte>, imp: Import, skip: bool)
    requires |bs| < 4 || KindOf(bs[0]).None?
    ensures Parse(bs, imp, skip) == Rejected([if |bs| < 4 then TOO_SHORT else WRONG_TYPE])
  {
  }

  // Accounting

  /** What every object of an accepted message has: it is valid, its body fits, and its payload can be imported again. */
  ghost predicate ObjectSound(o: Object, imp: Import) {
    o.Check() && o.Fits() && (Faithful(imp) ==> Importable(imp, o))
  }

  ghost predicate Sound(c: Content, imp: Import) {
    && c.Valid()
    && (forall t :: t in c.unique ==> ObjectSound(c.unique[t], imp))
    && (forall i :: 0 <= i < |c.ipaps| ==> ObjectSound(c.ipaps[i], imp))
  }

  /** Strict parsing reads all bytes, at least two words for each object, and ends with a sound content. */
  lemma {:induction false} ObjectsAccount(c: Content, bs: seq<byte>, imp: Import)
    requires Sound(c, imp)
    ensures var r := ParseObjects(c, bs, imp, false);
            r.Objects? ==>
              && r.used == |bs| && r.errors == [] && Sound(r.content, imp)
              && |c.unique| + |c.ipaps| + |bs| / 8 >= |r.content.unique| + |r.content.ipaps|
              && (bs != [] ==> |r.content.unique| + |r.content.ipaps| > |c.unique| + |c.ipaps|)
    decreases |bs|
  {
    DecodeProgress(bs, imp, false);
    var d := Decode(bs, imp, false);
    if bs != [] && d.Parsed? && !Duplicate(c, d.obj) {
      ParseOne(c, bs, imp, false);
      PutIsSound(c, d.obj, imp);
      PutCounts(c, d.obj);
      ObjectsAccount(c.Put(d.obj), bs[d.used..], imp);
    }
  }

  lemma PutIsSound(c: Content, o: Object, imp: Import)
    requires Sound(c, imp) && ObjectSound(o, imp)
    ensures Sound(c.Put(o), imp)
  {
    PutIsValid(c, o);
    var c' := c.Put(o);
    assert forall t :: t in c'.unique ==> c'.unique[t] == o || (t in c.unique && c'.unique[t] == c.unique[t]);
    assert forall i :: 0 <= i < |c'.ipaps| ==> c'.ipaps[i] == o || (i < |c.ipaps| && c'.ipaps[i] == c.ipaps[i]);
  }

  lemma PutCounts(c: Content, o: Object)
    requires !Duplicate(c, o)
    ensures |c.Put(o).unique| + |c.Put(o).ipaps| == |c.unique| + |c.ipaps| + 1
  {
  }

  /** On every byte string: what the strict parser accepts, it has read to the last byte and without an error. */
  lemma ParseAccounts(bs: seq<byte>, imp: Import)
    ensures var r := Parse(bs, imp, false);
            r.Accepted? ==>
              && r.used == |bs| && r.errors == [] && Sound(r.message.content, imp)
              && 0 < r.message.Count() <= (|bs| - HEADER_LENGTH) / 8
  {
    if |bs| >= 4 {
      ObjectsAccount(NOTHING, bs[4..], imp);
    }
  }

  // Round trip

  /** No unique object occurs twice, and none that the content already has. */
  predicate NoDuplicates(c: Content, objects: seq<Object>)
    decreases |objects|
  {
    objects == [] || (!Duplicate(c, objects[0]) && NoDuplicates(c.Put(objects[0]), objects[1..]))
  }

  ghost predicate Fit(objects: seq<Object>, imp: Import) {
    forall i :: 0 <= i < |objects| ==> objects[i].Check() && Importable(imp, objects[i]) && objects[i].Fits()
  }

  /** One turn of the object loop. */
  lemma ParseOne(c: Content, bs: seq<byte>, imp: Import, skip: bool)
    requires bs != []
    ensures var d := Decode(bs, imp, skip);
            d.Parsed? ==>
              && 8 <= d.used <= |bs|
              && (!Duplicate(c, d.obj) ==>
                    ParseObjects(c, bs, imp, skip) == After(d.used, d.errors, ParseObjects(c.Put(d.obj), bs[d.used..], imp, skip)))
              && (Duplicate(c, d.obj) ==>
                    ParseObjects(c, bs, imp, skip)
                    == if skip then After(d.used, d.errors + [DUPLICATE_OBJECT], ParseObjects(c.Put(d.obj), bs[d.used..], imp, skip))
                       else Failed(d.errors + [DUPLICATE_OBJECT]))
    ensures Decode(bs, imp, skip).Refused? ==> ParseObjects(c, bs, imp, skip).Failed?
    ensures Decode(bs, imp, skip).Raised? ==> ParseObjects(c, bs, imp, skip).Threw?
  {
    DecodeProgress(bs, imp, skip);
  }

  /** The first object that was written is read back, whatever follows. */
  lemma ReadFirst(c: Content, o: Object, rest: seq<byte>, imp: Import, skip: bool)
    requires o.Check() && Importable(imp, o) && o.Fits() && !Duplicate(c, o)
    ensures ParseObjects(c, o.Encode() + rest, imp, skip) == After(|o.Encode()|, [], ParseObjects(c.Put(o), rest, imp, skip))
  {
    SizeIsExact(o);
    DecodeEncode(o, rest, imp, skip);
    ParseOne(c, o.Encode() + rest, imp, skip);
    assert (o.Encode() + rest)[o.Size()..] == rest;
  }

  lemma AfterAfter(a: nat, es: seq<ParseError>, b: nat, fs: seq<ParseError>, r: Body)
    ensures After(a, es, After(b, fs, r)) == After(a + b, es + fs, r)
  {
    match r
    case Objects(_, _, gs) => assert es + (fs + gs) == es + fs + gs;
    case Failed(gs) => assert es + (fs + gs) == es + fs + gs;
    case Threw =>
  }

  type Parser = (Content, seq<byte>) -> Body

  /** A parser that reads back an object that was written, whatever follows. */
  ghost predicate ReadsBack(parse: Parser, imp: Import) {
    forall c: Content, o: Object, rest: seq<byte> {:trigger parse(c, o.Encode() + rest)} ::
      o.Check() && Importable(imp, o) && o.Fits() && !Duplicate(c, o) ==>
        parse(c, o.Encode() + rest) == After(|o.Encode()|, [], parse(c.Put(o), rest))
  }

  /** Reading `a` and then `b` is reading them together. */
  lemma ReadsOn(parse: Parser, c: Content, d: Content, a: seq<byte>, b: seq<byte>, tail: seq<byte>, r: Body)
    requires parse(c, a + (b + tail)) == After(|a|, [], parse(d, b + tail))
    requires parse(d, b + tail) == After(|b|, [], r)
    ensures parse(c, a + b + tail) == After(|a + b|, [], r)
  {
    Concatenates(a, b, tail);
    AfterAfter(|a|, [], |b|, [], r);
  }

  /** Such a parser reads back any sequence of objects. */
  lemma {:induction false} ReadsAllBack(parse: Parser, c: Content, objects: seq<Object>, tail: seq<byte>, imp: Import)
    requires ReadsBack(parse, imp) && NoDuplicates(c, objects) && Fit(objects, imp)
    ensures parse(c, EncodeAll(objects) + tail) == After(|EncodeAll(objects)|, [], parse(PutAll(c, objects), tail))
    decreases |objects|
  {
    var r := parse(PutAll(c, objects), tail);
    if objects == [] {
      assert EncodeAll(objects) + tail == tail;
      assert After(0, [], r) == r;
    } else {
      var o, more := objects[0], objects[1..];
      var a, b := o.Encode(), EncodeAll(more);
      assert parse(c, o.Encode() + (b + tail)) == After(|a|, [], parse(c.Put(o), b + tail));
      ReadsAllBack(parse, c.Put(o), more, tail, imp);
      ReadsOn(parse, c, c.Put(o), a, b, tail, r);
      assert EncodeAll(objects) == a + b;
    }
  }

  lemma ParsePrefix(c: Content, objects: seq<Object>, tail: seq<byte>, imp: Import, skip: bool)
    requires NoDuplicates(c, objects) && Fit(objects, imp)
    ensures ParseObjects(c, EncodeAll(objects) + tail, imp, skip)
            == After(|EncodeAll(objects)|, [], ParseObjects(PutAll(c, objects), tail, imp, skip))
  {
    var parse := (c: Content, bs: seq<byte>) => ParseObjects(c, bs, imp, skip);
    forall c: Content, o: Object, rest: seq<byte> | o.Check() && Importable(imp, o) && o.Fits() && !Duplicate(c, o)
      ensures parse(c, o.Encode() + rest) == After(|o.Encode()|, [], parse(c.Put(o), rest))
    {
      ReadFirst(c, o, rest, imp, skip);
    }
    ReadsAllBack(parse, c, objects, tail, imp);
  }

  lemma ParseAll(c: Content, objects: seq<Object>, imp: Import, skip: bool)
    requires NoDuplicates(c, objects) && Fit(objects, imp)
    ensures ParseObjects(c, EncodeAll(objects), imp, skip) == Objects(PutAll(c, objects), |EncodeAll(objects)|, [])
  {
    ParsePrefix(c, objects, [], imp, skip);
    assert EncodeAll(objects) + [] == EncodeAll(objects);
  }

  lemma {:induction false} PutAllIpaps(c: Content, ipaps: seq<Object>)
    requires forall i :: 0 <= i < |ipaps| ==> ipaps[i].Ipap?
    ensures PutAll(c, ipaps) == Content(c.unique, c.ipaps + ipaps) && NoDuplicates(c, ipaps)
    decreases |ipaps|
  {
    if ipaps == [] {
      assert c.ipaps + ipaps == c.ipaps;
    } else {
      PutAllIpaps(c.Put(ipaps[0]), ipaps[1..]);
      assert c.ipaps + [ipaps[0]] + ipaps[1..] == c.ipaps + ipaps;
    }
  }

  lemma {:induction false} PutAllUniques(c: Content, d: Content, types: seq<nat>)
    requires d.Valid() && Distinct(types)
    requires forall i :: 0 <= i < |types| ==> types[i] in d.unique && types[i] !in c.unique
    ensures PutAll(c, UniquesOf(d, types)).ipaps == c.ipaps
    ensures forall t :: t in PutAll(c, UniquesOf(d, types)).unique <==> t in c.unique || t in types
    ensures forall t :: t in PutAll(c, UniquesOf(d, types)).unique ==>
              PutAll(c, UniquesOf(d, types)).unique[t] == if t in types then d.unique[t] else c.unique[t]
    ensures NoDuplicates(c, UniquesOf(d, types))
    decreases |types|
  {
    if types != [] {
      var objects := UniquesOf(d, types);
      assert objects[1..] == UniquesOf(d, types[1..]);
      assert objects[0] == d.unique[types[0]] && objects[0].Type() == types[0];
      PutAllUniques(c.Put(objects[0]), d, types[1..]);
      assert forall t :: t in types <==> t == types[0] || t in types[1..];
    }
  }

  lemma {:induction false} PutAllAdds(c: Content, a: seq<Object>, b: seq<Object>)
    ensures PutAll(c, a + b) == PutAll(PutAll(c, a), b)
    ensures NoDuplicates(c, a + b) <==> NoDuplicates(c, a) && NoDuplicates(PutAll(c, a), b)
    decreases |a|
  {
    if a == [] {
      assert a + b == b;
    } else {
      assert (a + b)[1..] == a[1..] + b;
      PutAllAdds(c.Put(a[0]), a[1..], b);
    }
  }

  function Restricted(c: Content, fields: seq<nat>): map<nat, Object> {
    map t | t in fields && t in c.unique :: c.unique[t]
  }

  lemma UniquesRebuild(c: Content, fields: seq<nat>)
    requires c.Valid() && Distinct(fields) && forall i :: 0 <= i < |fields| ==> fields[i] in c.unique
    ensures NoDuplicates(NOTHING, UniquesOf(c, fields))
    ensures PutAll(NOTHING, UniquesOf(c, fields)) == Content(Restricted(c, fields), [])
  {
    PutAllUniques(NOTHING, c, fields);
    assert PutAll(NOTHING, UniquesOf(c, fields)).unique == Restricted(c, fields);
  }

  lemma ListsRebuild(c: Content, fields: seq<nat>, ipaps: seq<Object>)
    requires c.Valid() && Distinct(fields) && forall i :: 0 <= i < |fields| ==> fields[i] in c.unique
    requires forall i :: 0 <= i < |ipaps| ==> ipaps[i].Ipap?
    ensures NoDuplicates(NOTHING, UniquesOf(c, fields) + ipaps)
    ensures PutAll(NOTHING, UniquesOf(c, fields) + ipaps) == Content(Restricted(c, fields), ipaps)
  {
    UniquesRebuild(c, fields);
    PutAllAdds(NOTHING, UniquesOf(c, fields), ipaps);
    PutAllIpaps(Content(Restricted(c, fields), []), ipaps);
    assert [] + ipaps == ipaps;
  }

  /** The written types are all that a message has exactly when its type writes them all. */
  lemma RestrictedToFields(m: Message)
    ensures Restricted(m.content, m.Fields()) == m.content.unique <==> forall t :: t in m.content.unique ==> t in Required(m.kind)
  {
    var unique := Restricted(m.content, m.Fields());
    if forall t :: t in m.content.unique ==> t in Required(m.kind) {
      assert unique == m.content.unique;
    } else {
      var t :| t in m.content.unique && t !in Required(m.kind);
      assert t !in unique;
    }
  }

  /** Setting the written objects in a new message restores what was written, unless the message holds more than that. */
  lemma WrittenRebuilds(m: Message)
    requires m.content.Valid()
    ensures NoDuplicates(NOTHING, m.Written())
    ensures PutAll(NOTHING, m.Written()) == m.content <==> m.Exact()
  {
    FieldsAreDistinct(m);
    ListsRebuild(m.content, m.Fields(), if CarriesIpaps(m.kind) then m.content.ipaps else []);
    RestrictedToFields(m);
  }

  lemma HeaderOfMessage(kind: Kind, rest: seq<byte>)
    ensures var bs := Encode32(TypeCode(kind) * 0x100_0000) + rest;
            |bs| >= 4 && bs[0] == TypeCode(kind) && bs[4..] == rest
  {
    assert TypeCode(kind) * 0x100_0000 / 0x100_0000 == TypeCode(kind);
  }

  /** A message that passes the check of its type and holds nothing but what is written, all of it valid. */
  ghost predicate Writable(m: Message, imp: Import) {
    && m.content.Valid() && m.Check() && m.Exact() && m.Count() > 0
    && forall i :: 0 <= i < |m.Written()| ==> m.Written()[i].Check() && Importable(imp, m.Written()[i])
  }

  predicate BodiesFit(m: Message) {
    forall i :: 0 <= i < |m.content.ipaps| ==> m.content.ipaps[i].Fits()
  }

  lemma BodyRoundTrip(m: Message, imp: Import, skip: bool)
    requires Writable(m, imp) && BodiesFit(m)
    ensures ParseObjects(NOTHING, EncodeAll(m.Written()), imp, skip)
            == Objects(m.content, |EncodeAll(m.Written())|, [])
  {
    WrittenRebuilds(m);
    WrittenFits(m, imp);
    ParseAll(NOTHING, m.Written(), imp, skip);
  }

  lemma EncodedMessage(m: Message)
    ensures var bs := m.Encode();
            |bs| == HEADER_LENGTH + |EncodeAll(m.Written())| && KindOf(bs[0]) == Some(m.kind) && bs[4..] == EncodeAll(m.Written())
  {
    HeaderOfMessage(m.kind, EncodeAll(m.Written()));
  }

  /** A message survives being written and read: equal content, every byte read, no error. */
  lemma RoundTrip(m: Message, imp: Import, skip: bool)
    requires Writable(m, imp) && BodiesFit(m)
    ensures |m.Encode()| == m.Size()
    ensures Parse(m.Encode(), imp, skip) == Accepted(m, m.Size(), [])
  {
    AnnouncedSize(m);
    EncodedMessage(m);
    BodyRoundTrip(m, imp, skip);
    ParseFromBody(m.Encode(), imp, skip, m.kind, Objects(m.content, |m.Encode()| - HEADER_LENGTH, []));
  }

  lemma WrittenFits(m: Message, imp: Import)
    requires Writable(m, imp) && BodiesFit(m)
    ensures Fit(m.Written(), imp)
  {
    forall i | 0 <= i < |m.Written()| ensures m.Written()[i].Fits() {
      WrittenIsHeld(m, i);
    }
  }
}
