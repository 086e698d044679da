/** What parsing promises: the limits of the round trip, fixed points, and the order of objects. */
module ParserTheorems {
  import opened Bytes
  import opened Collections
  import opened ObjectCodec
  import opened IeStores
  import opened MessageCodec
  import opened MessageParser
  import Protocol

  // The limits of the round trip

  lemma {:induction false} IpapsOnlyGrow(c: Content, bs: seq<byte>, imp: Import, skip: bool)
    ensures var r := ParseObjects(c, bs, imp, skip);
            r.Objects? ==> |c.ipaps| <= |r.content.ipaps| && r.content.ipaps[..|c.ipaps|] == c.ipaps
    decreases |bs|
  {
    if bs != [] {
      ParseOne(c, bs, imp, skip);
      var d := Decode(bs, imp, skip);
      if d.Parsed? {
        IpapsOnlyGrow(c.Put(d.obj), bs[d.used..], imp, skip);
        assert c.Put(d.obj).ipaps[..|c.ipaps|] == c.ipaps;
      }
    }
  }

  lemma OversizedFirst(c: Content, o: Object, rest: seq<byte>, ipaps: seq<Object>, imp: Import, skip: bool)
    requires o.Ipap? && o.Check() && Importable(imp, o) && !o.Fits()
    ensures var r := ParseObjects(c, o.Encode() + rest, imp, skip);
            r.Objects? ==> r.content.ipaps != c.ipaps + [o] + ipaps
  {
    var bs := o.Encode() + rest;
    SizeIsExact(o);
    DecodeEncodeIpap(o, rest, imp, skip);
    var d := Decode(bs, imp, skip);
    if d.Parsed? {
      ParseOne(c, bs, imp, skip);
      var c' := c.Put(d.obj);
      IpapsOnlyGrow(c', bs[d.used..], imp, skip);
      assert c'.ipaps[|c.ipaps|] == d.obj != o;
      assert (c.ipaps + [o] + ipaps)[|c.ipaps|] == o;
    }
  }

  /** A list with an oversized IPAP message is not read back. */
  lemma {:induction false} OversizedIsLost(c: Content, ipaps: seq<Object>, imp: Import, skip: bool)
    requires forall i :: 0 <= i < |ipaps| ==> ipaps[i].Ipap? && ipaps[i].Check() && Importable(imp, ipaps[i])
    requires exists i :: 0 <= i < |ipaps| && !ipaps[i].Fits()
    ensures var r := ParseObjects(c, EncodeAll(ipaps), imp, skip);
            r.Objects? ==> r.content.ipaps != c.ipaps + ipaps
    decreases |ipaps|
  {
    var o, rest := ipaps[0], ipaps[1..];
    assert c.ipaps + ipaps == c.ipaps + [o] + rest;
    if o.Fits() {
      ReadFirst(c, o, EncodeAll(rest), imp, skip);
      OversizedIsLost(c.Put(o), rest, imp, skip);
    } else {
      OversizedFirst(c, o, EncodeAll(rest), rest, imp, skip);
    }
  }

  lemma {:induction false} EncodeAllAdds(a: seq<Object>, b: seq<Object>)
    ensures EncodeAll(a + b) == EncodeAll(a) + EncodeAll(b)
    decreases |a|
  {
    if a == [] {
      assert a + b == b;
    } else {
      assert (a + b)[1..] == a[1..] + b;
      EncodeAllAdds(a[1..], b);
    }
  }

  /** What holds of all written objects holds of the unique ones and of the IPAP messages. */
  lemma BothAreImportable(a: seq<Object>, b: seq<Object>, imp: Import)
    requires forall i :: 0 <= i < |a + b| ==> (a + b)[i].Check() && Importable(imp, (a + b)[i])
    ensures forall i :: 0 <= i < |a| ==> a[i].Check() && Importable(imp, a[i])
    ensures forall i :: 0 <= i < |b| ==> b[i].Check() && Importable(imp, b[i])
  {
    forall i | 0 <= i < |a| ensures a[i].Check() && Importable(imp, a[i]) {
      assert (a + b)[i] == a[i];
    }
    forall i | 0 <= i < |b| ensures b[i].Check() && Importable(imp, b[i]) {
      assert (a + b)[|a| + i] == b[i];
    }
  }

  lemma UniquesFit(c: Content, types: seq<nat>, imp: Import)
    requires c.Valid() && forall i :: 0 <= i < |types| ==> types[i] in c.unique
    requires forall i :: 0 <= i < |types| ==> UniquesOf(c, types)[i].Check() && Importable(imp, UniquesOf(c, types)[i])
    ensures Fit(UniquesOf(c, types), imp)
  {
  }

  lemma OversizedTailIsLost(uniques: seq<Object>, ipaps: seq<Object>, imp: Import, skip: bool)
    requires NoDuplicates(NOTHING, uniques) && Fit(uniques, imp) && PutAll(NOTHING, uniques).ipaps == []
    requires forall i :: 0 <= i < |ipaps| ==> ipaps[i].Ipap? && ipaps[i].Check() && Importable(imp, ipaps[i])
    requires exists i :: 0 <= i < |ipaps| && !ipaps[i].Fits()
    ensures var r := ParseObjects(NOTHING, EncodeAll(uniques + ipaps), imp, skip);
            r.Objects? ==> r.content.ipaps != ipaps
  {
    var c := PutAll(NOTHING, uniques);
    EncodeAllAdds(uniques, ipaps);
    ParsePrefix(NOTHING, uniques, EncodeAll(ipaps), imp, skip);
    OversizedIsLost(c, ipaps, imp, skip);
    assert [] + ipaps == ipaps;
  }

  lemma OversizedListsAreLost(c: Content, fields: seq<nat>, written: seq<Object>, imp: Import, skip: bool)
    requires c.Valid() && Distinct(fields) && forall i :: 0 <= i < |fields| ==> fields[i] in c.unique
    requires written == UniquesOf(c, fields) + c.ipaps
    requires forall i :: 0 <= i < |written| ==> written[i].Check() && Importable(imp, written[i])
    requires exists i :: 0 <= i < |c.ipaps| && !c.ipaps[i].Fits()
    ensures var r := ParseObjects(NOTHING, EncodeAll(written), imp, skip);
            r.Objects? ==> r.content.ipaps != c.ipaps
  {
    BothAreImportable(UniquesOf(c, fields), c.ipaps, imp);
    UniquesFit(c, fields, imp);
    PutAllUniques(NOTHING, c, fields);
    OversizedTailIsLost(UniquesOf(c, fields), c.ipaps, imp, skip);
  }

  lemma OversizedMessageIsLost(m: Message, imp: Import, skip: bool)
    requires Writable(m, imp) && !BodiesFit(m)
    ensures var r := ParseObjects(NOTHING, EncodeAll(m.Written()), imp, skip);
            r.Objects? ==> r.content != m.content
  {
    FieldsAreDistinct(m);
    OversizedListsAreLost(m.content, m.Fields(), m.Written(), imp, skip);
  }

  /** Reading inverts writing for exactly the messages whose bodies fit 4095 words. */
  lemma RoundTripExactly(m: Message, imp: Import, skip: bool)
    requires Writable(m, imp)
    ensures Parse(m.Encode(), imp, skip) == Accepted(m, m.Size(), []) <==> BodiesFit(m)
  {
    if BodiesFit(m) {
      RoundTrip(m, imp, skip);
    } else {
      OversizedMessageIsLost(m, imp, skip);
      EncodedMessage(m);
      ParseFromBody(m.Encode(), imp, skip, m.kind, ParseObjects(NOTHING, EncodeAll(m.Written()), imp, skip));
    }
  }

  // Fixed points

  /** What comes back when a message is written and read. */
  function WrittenAndRead(m: Message, imp: Import, skip: bool): Option<Message> {
    if !m.Check() then None
    else
      var r := Parse(m.Encode(), imp, skip);
      if r.Accepted? then Some(r.message) else None
  }

  lemma SoundObject(m: Message, imp: Import, i: nat)
    requires Faithful(imp) && Sound(m.content, imp) && i < |m.Written()|
    ensures m.Written()[i].Check() && Importable(imp, m.Written()[i]) && m.Written()[i].Fits()
  {
    WrittenIsHeld(m, i);
    assert ObjectSound(m.Written()[i], imp);
  }

  lemma SoundIsFit(m: Message, imp: Import)
    requires Faithful(imp) && Sound(m.content, imp)
    ensures Fit(m.Written(), imp)
  {
    forall i | 0 <= i < |m.Written()| ensures m.Written()[i].Check() && Importable(imp, m.Written()[i]) && m.Written()[i].Fits() {
      SoundObject(m, imp, i);
    }
  }

  /** A sound message is a fixed point of writing and reading exactly when it is checked and nothing of it goes unwritten. */
  lemma FixedPointExactly(m: Message, imp: Import, skip: bool)
    requires Faithful(imp) && Sound(m.content, imp) && m.Count() > 0
    ensures WrittenAndRead(m, imp, skip) == Some(m) <==> m.Check() && m.Exact()
  {
    SoundIsFit(m, imp);
    WrittenRebuilds(m);
    ParseAll(NOTHING, m.Written(), imp, skip);
    EncodedMessage(m);
    ParseFromBody(m.Encode(), imp, skip, m.kind, ParseObjects(NOTHING, EncodeAll(m.Written()), imp, skip));
  }

  /** What the strict parser accepts is a fixed point exactly when it is checked and nothing of it goes unwritten. */
  lemma ParseIsFixedPoint(bs: seq<byte>, imp: Import, skip: bool)
    requires Faithful(imp)
    ensures var r := Parse(bs, imp, false);
            r.Accepted? ==> (WrittenAndRead(r.message, imp, skip) == Some(r.message) <==> r.message.Check() && r.message.Exact())
  {
    ParseAccounts(bs, imp);
    var r := Parse(bs, imp, false);
    if r.Accepted? {
      FixedPointExactly(r.message, imp, skip);
    }
  }

  // Insertion order

  /** The types that get_mspec_objects passes over. */
  predicate PassedOver(kind: Kind, o: Object) {
    if kind == Protocol.RESPONSE then o.Info? || (o.Scalar? && (o.of == MSN || o.of == LIFETIME)) else o.Scalar?
  }

  /** get_mspec_objects: None when it would copy an object that is not an IPAP message through a null pointer. */
  function MspecObjects(kind: Kind, objects: seq<Object>): Option<seq<Object>> {
    if objects == [] then Some([])
    else
      var o := objects[|objects| - 1];
      match MspecObjects(kind, objects[..|objects| - 1])
      case None => None
      case Some(before) => if PassedOver(kind, o) then Some(before) else if o.Ipap? then Some(before + [o]) else None
  }

  lemma {:induction false} MspecObjectsAdd(kind: Kind, uniques: seq<Object>, ipaps: seq<Object>)
    requires forall i :: 0 <= i < |uniques| ==> uniques[i].IsUnique()
    requires forall i :: 0 <= i < |ipaps| ==> ipaps[i].Ipap?
    ensures MspecObjects(kind, uniques + ipaps)
            == if forall i :: 0 <= i < |uniques| ==> PassedOver(kind, uniques[i]) then Some(ipaps) else None
    decreases |uniques| + |ipaps|
  {
    var all := uniques + ipaps;
    if ipaps != [] {
      assert all[..|all| - 1] == uniques + ipaps[..|ipaps| - 1];
      MspecObjectsAdd(kind, uniques, ipaps[..|ipaps| - 1]);
      assert all[|all| - 1] == ipaps[|ipaps| - 1] && ipaps[..|ipaps| - 1] + [ipaps[|ipaps| - 1]] == ipaps;
    } else if uniques != [] {
      assert all == uniques;
      assert all[..|all| - 1] == uniques[..|uniques| - 1] + [];
      MspecObjectsAdd(kind, uniques[..|uniques| - 1], []);
    }
  }

  /** The IPAP messages come back in the order in which they were set, unless a type turns up that should not be there. */
  lemma MspecObjectsInOrder(kind: Kind, c: Content)
    requires c.Valid()
    ensures MspecObjects(kind, Listing(Repr(c), Ascending(Repr(c).Keys)))
            == if forall t :: t in c.unique ==> PassedOver(kind, c.unique[t]) then Some(c.ipaps) else None
  {
    ReprRepresents(c);
    ListingOfRepr(Repr(c), c);
    var types := Types(c);
    MspecObjectsAdd(kind, UniquesOf(c, types), c.ipaps);
    if forall i :: 0 <= i < |types| ==> PassedOver(kind, UniquesOf(c, types)[i]) {
      forall t | t in c.unique ensures PassedOver(kind, c.unique[t]) {
        var i :| 0 <= i < |types| && types[i] == t;
        assert PassedOver(kind, UniquesOf(c, types)[i]);
      }
    }
  }

  /** What get_mspec_objects gives for a message. */
  function MspecObjectsOf(m: Message): Option<seq<Object>>
    requires m.content.Valid()
  {
    var entries := Repr(m.content);
    MspecObjects(m.kind, Listing(entries, Ascending(entries.Keys)))
  }

  /** A message whose store is a copy of another one's. */
  ghost predicate IsCopy(m: Message, m': Message) {
    m.content.Valid() && m'.content.Valid() && m'.kind == m.kind && Repr(m'.content) == Copied(Repr(m.content))
  }

  lemma CopyIsEqual(m: Message, m': Message)
    requires IsCopy(m, m')
    ensures m' == m
  {
    ReprInPlace(m.content);
    CopyIsSame(Repr(m.content));
    EqualStores(m.content, m'.content);
  }

  lemma ReprInPlace(c: Content)
    requires c.Valid()
    ensures InPlace(Repr(c))
  {
    forall s | s in Repr(c) ensures Repr(c)[s].key.Sum() == s {
      ReprAt(c, s);
    }
  }

  /** Each message of a chain is a copy of the one before, or what is read after that one was written. */
  ghost predicate Chain(ms: seq<Message>, cycle: Message -> Option<Message>) {
    forall i :: 0 < i < |ms| ==> IsCopy(ms[i - 1], ms[i]) || cycle(ms[i - 1]) == Some(ms[i])
  }

  lemma {:induction false} ChainIsConstant(ms: seq<Message>, cycle: Message -> Option<Message>)
    requires ms != [] && Chain(ms, cycle) && cycle(ms[0]) == Some(ms[0])
    ensures ms[|ms| - 1] == ms[0]
    decreases |ms|
  {
    var n := |ms| - 1;
    if n > 0 {
      ChainIsConstant(ms[..n], cycle);
      assert ms[n - 1] == ms[0];
      if IsCopy(ms[n - 1], ms[n]) {
        CopyIsEqual(ms[n - 1], ms[n]);
      }
    }
  }

  /** IPAP messages set one by one keep their order through copies and cycles of writing and reading, however mixed. */
  lemma InsertionOrderSurvives(kind: Kind, c: Content, ipaps: seq<Object>, ms: seq<Message>, imp: Import)
    requires c.Valid() && c.ipaps == [] && forall i :: 0 <= i < |ipaps| ==> ipaps[i].Ipap?
    requires ms != [] && ms[0] == Message(kind, PutAll(c, ipaps)) && Chain(ms, m => WrittenAndRead(m, imp, false))
    requires Writable(ms[0], imp) && BodiesFit(ms[0])
    ensures var m := ms[|ms| - 1];
            && m.content.Valid()
            && MspecObjectsOf(m)
               == if forall t :: t in c.unique ==> PassedOver(kind, c.unique[t]) then Some(ipaps) else None
  {
    PutAllIpaps(c, ipaps);
    assert [] + ipaps == ipaps;
    RoundTrip(ms[0], imp, false);
    ChainIsConstant(ms, m => WrittenAndRead(m, imp, false));
    MspecObjectsInOrder(kind, ms[0].content);
  }
}
