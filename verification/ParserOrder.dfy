/** When the order of the objects on the wire does not matter. */
module ParserOrder {
  import opened Bytes
  import opened Collections
  import opened ObjectCodec
  import opened IeStores
  import opened MessageCodec
  import opened MessageParser

  /** The bytes that one object took, and the object. */
  datatype Piece = Piece(bytes: seq<byte>, obj: Object)

  function Joined(pieces: seq<Piece>): seq<byte> {
    if pieces == [] then [] else pieces[0].bytes + Joined(pieces[1..])
  }

  function Objs(pieces: seq<Piece>): (objects: seq<Object>)
    ensures |objects| == |pieces| && forall i :: 0 <= i < |pieces| ==> objects[i] == pieces[i].obj
  {
    seq(|pieces|, i requires 0 <= i < |pieces| => pieces[i].obj)
  }

  /** A piece was read in front of some bytes. */
  ghost predicate Read(x: Piece, imp: Import) {
    |x.bytes| >= 8 && exists rest :: Decode(x.bytes + rest, imp, false) == Parsed(x.obj, |x.bytes|, [])
  }

  predicate Loose(x: Piece) {
    |x.bytes| >= 4 && SelfContained(x.bytes)
  }

  /** The pieces of an accepted body. */
  function Split(bs: seq<byte>, imp: Import): seq<Piece>
    decreases |bs|
  {
    if bs == [] then []
    else
      DecodeProgress(bs, imp, false);
      if Decode(bs, imp, false).Parsed?
      then [First(bs, imp)] + Split(bs[|First(bs, imp).bytes|..], imp) else []
  }

  lemma PieceElsewhere(x: Piece, rest: seq<byte>, imp: Import)
    requires Read(x, imp)
    ensures Decode(x.bytes + rest, imp, false)
            == if 4 + UnpackLength(Decode32(x.bytes)) <= |x.bytes| + |rest| then Parsed(x.obj, |x.bytes|, []) else Refused([TOO_SHORT])
  {
    var other :| Decode(x.bytes + other, imp, false) == Parsed(x.obj, |x.bytes|, []);
    DecodeElsewhere(x.bytes + other, rest, imp, false);
    assert (x.bytes + other)[..|x.bytes|] == x.bytes;
  }

  /** The first piece of a body. */
  function First(bs: seq<byte>, imp: Import): (x: Piece)
    requires bs != [] && Decode(bs, imp, false).Parsed?
    ensures |x.bytes| <= |bs| && x.bytes == bs[..|x.bytes|]
  {
    DecodeProgress(bs, imp, false);
    var d := Decode(bs, imp, false);
    Piece(bs[..d.used], d.obj)
  }

  lemma FirstIsRead(c: Content, bs: seq<byte>, imp: Import)
    requires bs != [] && ParseObjects(c, bs, imp, false).Objects?
    ensures Decode(bs, imp, false).Parsed?
    ensures var x := First(bs, imp);
            && Read(x, imp) && !Duplicate(c, x.obj)
            && var r := ParseObjects(c.Put(x.obj), bs[|x.bytes|..], imp, false);
               r.Objects? && r.content == ParseObjects(c, bs, imp, false).content
  {
    ParseOne(c, bs, imp, false);
    DecodeProgress(bs, imp, false);
    var d := Decode(bs, imp, false);
    assert bs[..d.used] + bs[d.used..] == bs;
  }

  lemma Prepend(c: Content, x: Piece, pieces: seq<Piece>)
    ensures Joined([x] + pieces) == x.bytes + Joined(pieces)
    ensures PutAll(c, Objs([x] + pieces)) == PutAll(c.Put(x.obj), Objs(pieces))
    ensures NoDuplicates(c, Objs([x] + pieces)) <==> !Duplicate(c, x.obj) && NoDuplicates(c.Put(x.obj), Objs(pieces))
  {
    var all := [x] + pieces;
    assert all[1..] == pieces;
    var objects := Objs(all);
    assert objects[0] == x.obj && objects[1..] == Objs(pieces);
  }

  /** A body that is accepted is the concatenation of its pieces, and its content is what they put. */
  lemma {:induction false} SplitRebuilds(c: Content, bs: seq<byte>, imp: Import)
    requires ParseObjects(c, bs, imp, false).Objects?
    ensures var pieces := Split(bs, imp);
            && Joined(pieces) == bs && NoDuplicates(c, Objs(pieces))
            && PutAll(c, Objs(pieces)) == ParseObjects(c, bs, imp, false).content
            && forall i :: 0 <= i < |pieces| ==> Read(pieces[i], imp)
    decreases |bs|
  {
    if bs != [] {
      FirstIsRead(c, bs, imp);
      var x := First(bs, imp);
      var rest := bs[|x.bytes|..];
      assert x.bytes + rest == bs;
      SplitRebuilds(c.Put(x.obj), rest, imp);
      Prepend(c, x, Split(rest, imp));
    }
  }

  // Permutations

  function HasType(t: nat): Object -> bool {
    (o: Object) => o.IsUnique() && o.Type() == t
  }

  function CountType(objects: seq<Object>, t: nat): nat {
    |Filter(HasType(t), objects)|
  }

  lemma CountTypeFirst(objects: seq<Object>, t: nat)
    requires objects != []
    ensures CountType(objects, t)
            == (if objects[0].IsUnique() && objects[0].Type() == t then 1 else 0) + CountType(objects[1..], t)
  {
    assert HasType(t)(objects[0]) <==> objects[0].IsUnique() && objects[0].Type() == t;
  }

  function Allowed(c: Content, t: nat): nat {
    if t in c.unique then 0 else 1
  }

  /** No unique type occurs twice, counted over all objects at once. */
  lemma {:induction false} NoDuplicatesCounts(c: Content, objects: seq<Object>)
    ensures NoDuplicates(c, objects) <==> forall t: nat :: CountType(objects, t) <= Allowed(c, t)
    decreases |objects|
  {
    if objects != [] {
      var o, rest := objects[0], objects[1..];
      var u: nat := o.Type();
      if Duplicate(c, o) {
        CountTypeFirst(objects, u);
        assert CountType(objects, u) > Allowed(c, u);
      } else {
        NoDuplicatesCounts(c.Put(o), rest);
        forall t: nat
          ensures CountType(objects, t) <= Allowed(c, t) <==> CountType(rest, t) <= Allowed(c.Put(o), t)
        {
          CountTypeFirst(objects, t);
        }
      }
    }
  }

  predicate IsIpap(o: Object) {
    o.Ipap?
  }

  function IpapsOf(objects: seq<Object>): seq<Object> {
    Filter(IsIpap, objects)
  }

  /** What putting objects without duplicates comes to. */
  lemma {:induction false} PutAllContents(c: Content, objects: seq<Object>)
    requires NoDuplicates(c, objects)
    ensures var r := PutAll(c, objects);
            && r.ipaps == c.ipaps + IpapsOf(objects)
            && (forall i :: 0 <= i < |objects| && objects[i].IsUnique() ==>
                  objects[i].Type() in r.unique && r.unique[objects[i].Type()] == objects[i])
            && (forall t :: t in c.unique ==> t in r.unique && r.unique[t] == c.unique[t])
            && (forall t :: t in r.unique && t !in c.unique ==> exists i :: 0 <= i < |objects| && objects[i].IsUnique() && objects[i].Type() == t)
    decreases |objects|
  {
    if objects != [] {
      var o, rest := objects[0], objects[1..];
      PutAllContents(c.Put(o), rest);
      var r := PutAll(c, objects);
      forall i | 0 <= i < |objects| && objects[i].IsUnique()
        ensures objects[i].Type() in r.unique && r.unique[objects[i].Type()] == objects[i]
      {
        if i > 0 {
          assert rest[i - 1] == objects[i];
        }
      }
      forall t | t in r.unique && t !in c.unique
        ensures exists i :: 0 <= i < |objects| && objects[i].IsUnique() && objects[i].Type() == t
      {
        if t in c.Put(o).unique {
          assert objects[0].IsUnique() && objects[0].Type() == t;
        } else {
          var i :| 0 <= i < |rest| && rest[i].IsUnique() && rest[i].Type() == t;
          assert objects[i + 1].IsUnique() && objects[i + 1].Type() == t;
        }
      }
    }
  }

  /** The same objects in another order, with the IPAP messages in the same order among themselves. */
  ghost predicate Reorders(a: seq<Object>, b: seq<Object>) {
    multiset(a) == multiset(b) && IpapsOf(a) == IpapsOf(b)
  }

  lemma SameUniques(a: seq<Object>, b: seq<Object>, r: Content, q: Content)
    requires NoDuplicates(NOTHING, a) && NoDuplicates(NOTHING, b) && multiset(a) == multiset(b)
    requires r == PutAll(NOTHING, a) && q == PutAll(NOTHING, b)
    ensures forall t :: t in r.unique ==> t in q.unique && q.unique[t] == r.unique[t]
  {
    PutAllContents(NOTHING, a);
    PutAllContents(NOTHING, b);
    forall t | t in r.unique ensures t in q.unique && q.unique[t] == r.unique[t] {
      var i :| 0 <= i < |a| && a[i].IsUnique() && a[i].Type() == t;
      assert a[i] in multiset(b);
      var k :| 0 <= k < |b| && b[k] == a[i];
    }
  }

  /** Reordered objects put the same content. */
  lemma ReorderedContent(a: seq<Object>, b: seq<Object>)
    requires Reorders(a, b) && NoDuplicates(NOTHING, a)
    ensures NoDuplicates(NOTHING, b) && PutAll(NOTHING, a) == PutAll(NOTHING, b)
  {
    NoDuplicatesCounts(NOTHING, a);
    NoDuplicatesCounts(NOTHING, b);
    forall t: nat ensures CountType(b, t) <= 1 {
      FilterPermutes(HasType(t), a, b);
      assert CountType(a, t) <= Allowed(NOTHING, t);
    }
    SameUniques(a, b, PutAll(NOTHING, a), PutAll(NOTHING, b));
    SameUniques(b, a, PutAll(NOTHING, b), PutAll(NOTHING, a));
    PutAllContents(NOTHING, a);
    PutAllContents(NOTHING, b);
  }

  // Reordered bodies

  lemma LooseFirst(c: Content, x: Piece, rest: seq<byte>, imp: Import)
    requires Read(x, imp) && Loose(x) && !Duplicate(c, x.obj)
    ensures ParseObjects(c, x.bytes + rest, imp, false) == After(|x.bytes|, [], ParseObjects(c.Put(x.obj), rest, imp, false))
  {
    PieceElsewhere(x, rest, imp);
    ParseOne(c, x.bytes + rest, imp, false);
    assert (x.bytes + rest)[|x.bytes|..] == rest;
  }

  /** A parser that reads each of some pieces wherever it stands. */
  ghost predicate ReadsPieces(parse: Parser, loose: Piece -> bool) {
    && (forall c :: parse(c, []) == Objects(c, 0, []))
    && (forall c: Content, x: Piece, rest: seq<byte> {:trigger parse(c, x.bytes + rest)} ::
          loose(x) && !Duplicate(c, x.obj) ==>
            parse(c, x.bytes + rest) == After(|x.bytes|, [], parse(c.Put(x.obj), rest)))
  }

  lemma {:induction false} ReadsAllPieces(parse: Parser, loose: Piece -> bool, c: Content, pieces: seq<Piece>)
    requires ReadsPieces(parse, loose) && NoDuplicates(c, Objs(pieces))
    requires forall i :: 0 <= i < |pieces| ==> loose(pieces[i])
    ensures parse(c, Joined(pieces)) == Objects(PutAll(c, Objs(pieces)), |Joined(pieces)|, [])
    decreases |pieces|
  {
    if pieces != [] {
      var x, rest := pieces[0], pieces[1..];
      Prepend(c, x, rest);
      assert pieces == [x] + rest;
      assert parse(c, x.bytes + Joined(rest)) == After(|x.bytes|, [], parse(c.Put(x.obj), Joined(rest)));
      ReadsAllPieces(parse, loose, c.Put(x.obj), rest);
    }
  }

  lemma LooseParse(c: Content, pieces: seq<Piece>, imp: Import)
    requires NoDuplicates(c, Objs(pieces))
    requires forall i :: 0 <= i < |pieces| ==> Read(pieces[i], imp) && Loose(pieces[i])
    ensures ParseObjects(c, Joined(pieces), imp, false) == Objects(PutAll(c, Objs(pieces)), |Joined(pieces)|, [])
  {
    var parse := (c: Content, bs: seq<byte>) => ParseObjects(c, bs, imp, false);
    ghost var loose := (x: Piece) => Read(x, imp) && Loose(x);
    forall c: Content, x: Piece, rest: seq<byte> | loose(x) && !Duplicate(c, x.obj)
      ensures parse(c, x.bytes + rest) == After(|x.bytes|, [], parse(c.Put(x.obj), rest))
    {
      LooseFirst(c, x, rest, imp);
    }
    ReadsAllPieces(parse, loose, c, pieces);
  }

  /** A piece whose header promises too much is refused at the end of a body. */
  lemma {:induction false} TightEndFails(c: Content, pieces: seq<Piece>, x: Piece, imp: Import)
    requires forall i :: 0 <= i < |pieces| ==> Read(pieces[i], imp)
    requires Read(x, imp) && !Loose(x)
    ensures ParseObjects(c, Joined(pieces + [x]), imp, false).Failed?
    decreases |pieces|
  {
    var all := pieces + [x];
    if pieces == [] {
      assert all[1..] == [] && Joined(all) == x.bytes + [];
      PieceElsewhere(x, [], imp);
      ParseOne(c, Joined(all), imp, false);
    } else {
      var y, rest := pieces[0], pieces[1..];
      assert all[1..] == rest + [x];
      PieceElsewhere(y, Joined(rest + [x]), imp);
      ParseOne(c, Joined(all), imp, false);
      assert Joined(all)[|y.bytes|..] == Joined(rest + [x]);
      TightEndFails(c.Put(y.obj), rest, x, imp);
    }
  }

  /** Another order of the pieces of a body. */
  ghost predicate Rearranges(a: seq<Piece>, b: seq<Piece>) {
    multiset(a) == multiset(b) && IpapsOf(Objs(a)) == IpapsOf(Objs(b))
  }

  lemma ObjsWithout(s: seq<Piece>, k: nat)
    requires k < |s|
    ensures Objs(Without(s, k)) == Without(Objs(s), k)
  {
  }

  lemma {:induction false} ObjsPermute(a: seq<Piece>, b: seq<Piece>)
    requires multiset(a) == multiset(b)
    ensures multiset(Objs(a)) == multiset(Objs(b))
    decreases |a|
  {
    if a == [] {
      assert |multiset(b)| == 0;
      assert Objs(a) == Objs(b);
    } else {
      var k := FirstIn(a, b);
      ObjsPermute(a[1..], Without(b, k));
      ObjsWithout(b, k);
      WithoutOne(Objs(b), k);
      assert Objs(a) == [a[0].obj] + Objs(a[1..]);
      assert Objs(b)[k] == a[0].obj;
    }
  }

  /** Moving a unique object to the end is a rearrangement. */
  lemma MoveToEnd(pieces: seq<Piece>, k: nat)
    requires k < |pieces| && pieces[k].obj.IsUnique()
    ensures Rearranges(pieces, Without(pieces, k) + [pieces[k]])
  {
    var x, others := pieces[k], Without(pieces, k);
    WithoutOne(pieces, k);
    assert multiset(others + [x]) == multiset(others) + multiset{x};
    ObjsWithout(pieces, k);
    assert Objs(others + [x]) == Objs(others) + [x.obj];
    FilterMoves(IsIpap, Objs(pieces), k);
  }

  lemma IpapIsLoose(x: Piece, imp: Import)
    requires Read(x, imp) && x.obj.Ipap?
    ensures Loose(x)
  {
    var rest :| Decode(x.bytes + rest, imp, false) == Parsed(x.obj, |x.bytes|, []);
    assert Decode32(x.bytes + rest) == Decode32(x.bytes);
  }

  /** Every rearrangement of a body is accepted with the same content. */
  ghost predicate AnyOrderWorks(pieces: seq<Piece>, r: Body, imp: Import) {
    forall other :: Rearranges(pieces, other) ==> ParseObjects(NOTHING, Joined(other), imp, false) == r
  }

  lemma RearrangedParse(pieces: seq<Piece>, other: seq<Piece>, imp: Import)
    requires Rearranges(pieces, other) && NoDuplicates(NOTHING, Objs(pieces))
    requires forall i :: 0 <= i < |pieces| ==> Read(pieces[i], imp) && Loose(pieces[i])
    ensures ParseObjects(NOTHING, Joined(other), imp, false)
            == Objects(PutAll(NOTHING, Objs(pieces)), |Joined(pieces)|, [])
  {
    ObjsPermute(pieces, other);
    ReorderedContent(Objs(pieces), Objs(other));
    forall i | 0 <= i < |other| ensures Read(other[i], imp) && Loose(other[i]) {
      assert other[i] in multiset(pieces);
    }
    LooseParse(NOTHING, other, imp);
    JoinedSize(pieces, other);
  }

  lemma {:induction false} JoinedAdds(a: seq<Piece>, b: seq<Piece>)
    ensures Joined(a + b) == Joined(a) + Joined(b)
    decreases |a|
  {
    if a == [] {
      assert a + b == b;
    } else {
      assert (a + b)[1..] == a[1..] + b;
      JoinedAdds(a[1..], b);
    }
  }

  lemma JoinedWithout(s: seq<Piece>, k: nat)
    requires k < |s|
    ensures |Joined(s)| == |Joined(Without(s, k))| + |s[k].bytes|
  {
    JoinedAdds(s[..k], s[k + 1..]);
    JoinedAdds(s[..k], [s[k]]);
    JoinedAdds(s[..k] + [s[k]], s[k + 1..]);
    assert s == s[..k] + [s[k]] + s[k + 1..];
  }

  lemma {:induction false} JoinedSize(a: seq<Piece>, b: seq<Piece>)
    requires multiset(a) == multiset(b)
    ensures |Joined(a)| == |Joined(b)|
    decreases |a|
  {
    if a == [] {
      assert |multiset(b)| == 0;
    } else {
      var k := FirstIn(a, b);
      JoinedSize(a[1..], Without(b, k));
      JoinedWithout(b, k);
    }
  }

  /**
   * The order of the objects of an accepted body does not matter exactly when no header promises more bytes than its
   * object has: the parser ignores the length of a four-byte object, but refuses one that reaches over the end.
   */
  lemma OrderIsFreeExactly(bs: seq<byte>, imp: Import)
    requires ParseObjects(NOTHING, bs, imp, false).Objects?
    ensures var pieces := Split(bs, imp);
            && Joined(pieces) == bs
            && (AnyOrderWorks(pieces, ParseObjects(NOTHING, bs, imp, false), imp)
                <==> forall i :: 0 <= i < |pieces| ==> Loose(pieces[i]))
  {
    var pieces, r := Split(bs, imp), ParseObjects(NOTHING, bs, imp, false);
    SplitRebuilds(NOTHING, bs, imp);
    if forall i :: 0 <= i < |pieces| ==> Loose(pieces[i]) {
      LooseParse(NOTHING, pieces, imp);
      assert r == Objects(PutAll(NOTHING, Objs(pieces)), |Joined(pieces)|, []);
      forall other | Rearranges(pieces, other) ensures ParseObjects(NOTHING, Joined(other), imp, false) == r {
        RearrangedParse(pieces, other, imp);
      }
    } else {
      var k :| 0 <= k < |pieces| && !Loose(pieces[k]);
      TightPieceMatters(pieces, k, imp);
    }
  }

  lemma TightPieceMatters(pieces: seq<Piece>, k: nat, imp: Import)
    requires k < |pieces| && !Loose(pieces[k]) && forall i :: 0 <= i < |pieces| ==> Read(pieces[i], imp)
    ensures exists other :: Rearranges(pieces, other) && ParseObjects(NOTHING, Joined(other), imp, false).Failed?
  {
    if pieces[k].obj.Ipap? {
      IpapIsLoose(pieces[k], imp);
    } else {
      MoveToEnd(pieces, k);
      TightEndFails(NOTHING, Without(pieces, k), pieces[k], imp);
    }
  }

  lemma SameBody(a: seq<byte>, b: seq<byte>, imp: Import, skip: bool)
    requires |a| >= 4 && |b| >= 4 && a[0] == b[0]
    requires ParseObjects(NOTHING, a[4..], imp, skip) == ParseObjects(NOTHING, b[4..], imp, skip)
    ensures Parse(a, imp, skip) == Parse(b, imp, skip)
  {
  }

  lemma BodyIsAccepted(bs: seq<byte>, imp: Import)
    requires Parse(bs, imp, false).Accepted?
    ensures |bs| >= 4 && ParseObjects(NOTHING, bs[4..], imp, false).Objects?
  {
  }

  lemma BodyOrderIsFree(body: seq<byte>, other: seq<Piece>, imp: Import)
    requires ParseObjects(NOTHING, body, imp, false).Objects?
    requires Rearranges(Split(body, imp), other) && forall i :: 0 <= i < |other| ==> Loose(other[i])
    ensures ParseObjects(NOTHING, Joined(other), imp, false) == ParseObjects(NOTHING, body, imp, false)
  {
    var pieces := Split(body, imp);
    forall i | 0 <= i < |pieces| ensures Loose(pieces[i]) {
      assert pieces[i] in multiset(other);
    }
    OrderIsFreeExactly(body, imp);
  }

  /** Any order of the objects of an accepted message gives an equal message, if no header promises too much. */
  lemma MessageOrderIsFree(bs: seq<byte>, other: seq<Piece>, imp: Import)
    requires |bs| >= 4 && Parse(bs, imp, false).Accepted?
    requires Rearranges(Split(bs[4..], imp), other) && forall i :: 0 <= i < |other| ==> Loose(other[i])
    ensures Parse(bs[..4] + Joined(other), imp, false) == Parse(bs, imp, false)
  {
    BodyIsAccepted(bs, imp);
    BodyOrderIsFree(bs[4..], other, imp);
    assert (bs[..4] + Joined(other))[4..] == Joined(other);
    SameBody(bs[..4] + Joined(other), bs, imp, false);
  }

  // An order that matters

  /** A sequence number of four bytes whose header promises eight. */
  const TIGHT: seq<byte> := Encode32(0xF7_0002) + Encode32(7)

  lemma TwoWords(a: uint32, b: uint32, rest: seq<byte>)
    ensures var bs := Encode32(a) + Encode32(b) + rest;
            |bs| == 8 + |rest| && Decode32(bs) == a && Decode32(bs[4..]) == b && bs[8..] == rest
  {
    var bs := Encode32(a) + Encode32(b) + rest;
    Concatenates(Encode32(a), Encode32(b), rest);
    Decode32Encode32(a, Encode32(b) + rest);
    Decode32Encode32(b, rest);
    assert bs[4..] == Encode32(b) + rest;
  }

  lemma TightHeader(rest: seq<byte>)
    ensures var bs := TIGHT + rest;
            && |TIGHT| == 8 && bs[8..] == rest && Decode32(bs[4..]) == 7
            && UnpackTreatment(Decode32(bs)) == 0 && UnpackType(Decode32(bs)) == 0xF7 && UnpackLength(Decode32(bs)) == 8
  {
    TwoWords(0xF7_0002, 7, rest);
    HeaderFields(0, 0, 0xF7, 0, 2);
  }

  lemma TightDecodes(rest: seq<byte>, imp: Import)
    ensures |TIGHT| == 8 && (TIGHT + rest)[8..] == rest
    ensures Decode(TIGHT + rest, imp, false) == if |rest| >= 4 then Parsed(Scalar(MSN, 0, 7), 8, []) else Refused([TOO_SHORT])
  {
    TightHeader(rest);
    assert ScalarOf(0xF7) == Some(MSN);
  }

  /** The same two objects are accepted in one order and refused in the other. */
  lemma OrderMatters(imp: Import)
    ensures var lifetime := Scalar(LIFETIME, 0, 30).Encode();
            && ParseObjects(NOTHING, TIGHT + lifetime, imp, false).Objects?
            && ParseObjects(NOTHING, lifetime + TIGHT, imp, false).Failed?
  {
    var o := Scalar(LIFETIME, 0, 30);
    var msn, lifetime := Scalar(MSN, 0, 7), o.Encode();
    SizeIsExact(o);
    TightDecodes(lifetime, imp);
    ParseOne(NOTHING, TIGHT + lifetime, imp, false);
    DecodeEncodeScalar(o, [], imp, false);
    assert lifetime + [] == lifetime;
    ReadFirst(NOTHING.Put(msn), o, [], imp, false);
    assert ParseObjects(NOTHING.Put(msn).Put(o), [], imp, false).Objects?;

    TightDecodes([], imp);
    assert TIGHT + [] == TIGHT;
    ReadFirst(NOTHING, o, TIGHT, imp, false);
    ParseOne(NOTHING.Put(o), TIGHT, imp, false);
  }
}
