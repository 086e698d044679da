/** Messages as they are built, written and read in place. */
module Messages {
  import opened Bytes
  import opened Collections
  import opened ObjectCodec
  import opened IeStores
  import opened MessageCodec
  import opened MessageParser
  import opened NetMsgs
  import ParserTheorems
  import Protocol

  // Objects

  /** The body of an IPAP object: the exported message, and zero bytes up to a full word. */
  method SerializePayload(payload: Payload, msg: NetMsg) returns (ok: bool)
    requires msg.Valid()
    modifies msg, msg.buffer
    ensures var body := payload + Zeros(Padding(|payload|));
            && msg.Valid() && (ok <==> |body| <= old(msg.BytesLeft()))
            && (ok ==> msg.Done() == old(msg.Done()) + body && msg.Ahead())
  {
    var padding := Zeros(Padding(|payload|));
    ok := msg.Write(payload);
    if ok && |padding| != 0 {
      ok := msg.Write(padding);
    }
  }

  method SerializeBody(o: Object, msg: NetMsg) returns (ok: bool)
    requires msg.Valid()
    modifies msg, msg.buffer
    ensures msg.Valid() && (ok <==> |o.Body()| <= old(msg.BytesLeft()))
    ensures ok ==> msg.Done() == old(msg.Done()) + o.Body() && msg.Ahead()
  {
    match o
    case Scalar(_, _, value) =>
      ok := msg.Write(Encode32(value));
    case Info(_, severity, code, about) =>
      ok := msg.Write([severity % 0x10, code, about / 0x100, about % 0x100]);
    case Ipap(_, payload) =>
      ok := SerializePayload(payload, msg);
  }

  function Header(o: Object): (bs: seq<byte>)
    ensures |bs| == HEADER_LENGTH && o.Encode() == bs + o.Body()
  {
    Encode32(PackHeader(o.treatment, o.Type(), (o.Size() - HEADER_LENGTH) % 0x1_0000))
  }

  method SerializeHeader(o: Object, msg: NetMsg) returns (ok: bool)
    requires msg.Valid()
    modifies msg, msg.buffer
    ensures msg.Valid() && (ok <==> HEADER_LENGTH <= old(msg.BytesLeft()))
    ensures ok ==> msg.Done() == old(msg.Done()) + Header(o) && msg.Ahead()
  {
    var bodyLength: uint16 := (o.Size() - HEADER_LENGTH) % 0x1_0000;
    ok := msg.Write(Encode32(PackHeader(o.treatment, o.Type(), bodyLength)));
  }

  /** anslp_object::serialize; false stands for an exception. */
  method SerializeObject(o: Object, msg: NetMsg) returns (ok: bool)
    requires msg.Valid()
    modifies msg, msg.buffer
    ensures msg.Valid() && (ok <==> o.Check() && o.Size() <= old(msg.BytesLeft())) && |o.Encode()| == o.Size()
    ensures ok ==> msg.Done() == old(msg.Done()) + o.Encode() && msg.Ahead()
  {
    SizeIsExact(o);
    if !o.Check() {
      return false;
    }
    ok := SerializeHeader(o, msg);
    if ok {
      ok := SerializeBody(o, msg);
      Concatenates(old(msg.Done()), Header(o), o.Body());
    }
  }

  /** The padding after an imported message must be zero. */
  method PaddingIsZero(bs: seq<byte>) returns (zero: bool)
    ensures zero <==> AllZero(bs)
  {
    for i := 0 to |bs|
      invariant forall j :: 0 <= j < i ==> bs[j] == 0
    {
      if bs[i] != 0 {
        return false;
      }
    }
    return true;
  }

  /** Look ahead for the object type, then parse the object; the buffer moves on only over an object that was parsed. */
  method DeserializeObject(msg: NetMsg, imp: Import, skip: bool) returns (d: Decoded)
    requires msg.Valid()
    modifies msg
    ensures msg.Valid() && msg.buffer[..] == old(msg.buffer[..])
    ensures d == Decode(old(msg.Rest()), imp, skip)
    ensures d.Parsed? ==> d.used <= old(msg.BytesLeft()) && msg.pos == old(msg.pos) + d.used
  {
    ghost var bs := msg.Rest();
    var start := msg.pos;
    DecodeProgress(bs, imp, skip);
    var peeked := msg.ReadWord(false);
    if peeked.None? {
      return Refused([TOO_SHORT]);
    }
    var objectType := UnpackType(peeked.value);
    if objectType != IPAP_MESSAGE && objectType != INFORMATION_CODE && ScalarOf(objectType).None? {
      return Refused([WRONG_SUBTYPE]);
    }
    var header := msg.ReadWord(true);
    var length := UnpackLength(header.value);
    if msg.BytesLeft() < length {
      msg.SetPos(start);
      return Refused([TOO_SHORT]);
    }
    assert msg.Rest() == bs[4..];
    if objectType == IPAP_MESSAGE {
      var body := msg.buffer[msg.pos..msg.pos + length];
      assert body == bs[4..][..length];
      var n := imp(body);
      if n.None? {
        return Raised;
      }
      var zero := PaddingIsZero(body[n.value..]);
      assert body[n.value..] == bs[4..][n.value..length] && body[..n.value] == bs[4..][..n.value];
      if !zero {
        return Refused([]);
      }
      msg.SetPos(msg.pos + length);
      return Parsed(Ipap(UnpackTreatment(header.value), body[..n.value]), HEADER_LENGTH + length, []);
    }
    var word := msg.ReadWord(true);
    if word.None? {
      return Raised;
    }
    d := DecodeWord(UnpackTreatment(header.value), objectType, word.value, skip);
  }

  // Messages

  /** The objects from some index on are valid. */
  ghost predicate CheckFrom(objects: seq<Object>, i: nat)
    requires i <= |objects|
  {
    AllCheck(objects[i..])
  }

  ghost function BytesFrom(objects: seq<Object>, i: nat): seq<byte>
    requires i <= |objects|
  {
    EncodeAll(objects[i..])
  }

  lemma ObjectsFrom(objects: seq<Object>, i: nat)
    requires i < |objects|
    ensures BytesFrom(objects, i) == objects[i].Encode() + BytesFrom(objects, i + 1)
    ensures CheckFrom(objects, i) <==> objects[i].Check() && CheckFrom(objects, i + 1)
  {
    assert objects[i..][1..] == objects[i + 1..];
    assert objects[i..] == [objects[i]] + objects[i + 1..];
    BothCheck([objects[i]], objects[i + 1..]);
  }

  lemma AllFrom(objects: seq<Object>)
    ensures BytesFrom(objects, 0) == EncodeAll(objects) && (CheckFrom(objects, 0) <==> AllCheck(objects))
    ensures BytesFrom(objects, |objects|) == [] && CheckFrom(objects, |objects|)
  {
    assert objects[0..] == objects;
  }

  lemma TotalSizeSnoc(objects: seq<Object>, n: nat)
    requires n < |objects|
    ensures TotalSize(objects[..n + 1]) == TotalSize(objects[..n]) + objects[n].Size()
  {
    assert objects[..n + 1] == objects[..n] + [objects[n]];
    TotalSizeAdds(objects[..n], [objects[n]]);
    assert [objects[n]][1..] == [];
  }

  /** Every object is valid, as its serialiser demands. */
  predicate AllCheck(objects: seq<Object>) {
    forall i :: 0 <= i < |objects| ==> objects[i].Check()
  }

  /** One more part is written. */
  lemma Proceeds(before: seq<byte>, done: seq<byte>, part: seq<byte>, rest: seq<byte>)
    ensures before + done + part == before + (done + part) && done + (part + rest) == done + part + rest
  {
  }

  /** A content has an object of each of some types. */
  predicate AllIn(types: seq<nat>, c: Content) {
    forall i :: 0 <= i < |types| ==> types[i] in c.unique
  }

  lemma RequiredAreUnique(kind: Kind)
    ensures forall i :: 0 <= i < |Required(kind)| ==> IsUniqueType(Required(kind)[i])
  {
  }

  /** What is written of the object of one type; nothing if it is missing. */
  function UniqueBytes(c: Content, t: nat): seq<byte> {
    if t in c.unique then c.unique[t].Encode() else []
  }

  predicate UniqueChecks(c: Content, t: nat) {
    t in c.unique ==> c.unique[t].Check()
  }

  /** What is written of the objects of some types. */
  ghost function UniquesBytes(c: Content, types: seq<nat>): seq<byte> {
    EncodeAll(UniquesOf(c, Present(c, types)))
  }

  ghost predicate UniquesCheck(c: Content, types: seq<nat>) {
    AllCheck(UniquesOf(c, Present(c, types)))
  }

  lemma UniqueThenMore(c: Content, t: nat, more: seq<nat>)
    requires t in c.unique && AllIn(more, c)
    ensures EncodeAll(UniquesOf(c, [t] + more)) == UniqueBytes(c, t) + EncodeAll(UniquesOf(c, more))
    ensures AllCheck(UniquesOf(c, [t] + more)) <==> UniqueChecks(c, t) && AllCheck(UniquesOf(c, more))
  {
    var objects := UniquesOf(c, [t] + more);
    assert objects == [c.unique[t]] + UniquesOf(c, more);
    assert objects[1..] == UniquesOf(c, more);
    BothCheck([c.unique[t]], UniquesOf(c, more));
  }

  lemma UniquesFrom(c: Content, types: seq<nat>, i: nat)
    requires i < |types|
    ensures UniquesBytes(c, types[i..]) == UniqueBytes(c, types[i]) + UniquesBytes(c, types[i + 1..])
    ensures UniquesCheck(c, types[i..]) <==> UniqueChecks(c, types[i]) && UniquesCheck(c, types[i + 1..])
  {
    var more := Present(c, types[i + 1..]);
    assert types[i..][1..] == types[i + 1..];
    assert Present(c, types[i..]) == (if types[i] in c.unique then [types[i]] else []) + more;
    if types[i] in c.unique {
      UniqueThenMore(c, types[i], more);
    } else {
      assert Present(c, types[i..]) == more;
    }
  }

  lemma NoUniques(c: Content, types: seq<nat>)
    ensures UniquesBytes(c, types[|types|..]) == [] && UniquesCheck(c, types[|types|..])
  {
  }

  class AnslpMsg {
    var kind: Kind
    const store: IeStore
    ghost var content: Content

    ghost predicate Valid()
      reads this, store
    {
      store.Valid() && content.Valid() && Represents(store.entries, content)
    }

    /** The message as a value. */
    ghost function Value(): Message
      reads this
    {
      Message(kind, content)
    }

    constructor (kind: Kind)
      ensures Valid() && fresh(store) && Value() == Message(kind, NOTHING)
    {
      this.kind := kind;
      store := new IeStore();
      content := NOTHING;
    }

    method NewKey(o: Object) returns (k: Key)
      ensures k == KeyFor(store.entries, o)
    {
      var sequence := 1;
      if !o.IsUnique() {
        sequence := store.GetMaxSequence(o.Type());
        sequence := sequence + 1;
      }
      k := Key(o.Type(), sequence);
    }

    method SetObject(o: Object)
      requires Valid()
      modifies this`content, store
      ensures Valid() && content == old(content).Put(o) && store.entries == IeStores.SetObject(old(store.entries), o)
    {
      var k := NewKey(o);
      SetObjectRepresents(store.entries, content, o);
      PutIsValid(content, o);
      store.Insert(k, o);
      content := content.Put(o);
    }

    method GetObject(k: Key) returns (o: Option<Object>)
      requires Valid() && Registered(k)
      ensures o == content.Lookup(k)
    {
      assert k.Sum() in store.entries <==> EntryAt(content, k.Sum()).Some?;
      o := store.Lookup(k);
    }

    /** Equal types and equal stores. */
    method Equals(other: AnslpMsg) returns (equal: bool)
      requires Valid() && other.Valid()
      ensures equal <==> Value() == other.Value()
    {
      if kind != other.kind {
        return false;
      }
      equal := store.Equals(other.store);
      if equal {
        OneContent(store.entries, other.store.entries, content, other.content);
      } else if content == other.content {
        OneRepresentation(store.entries, content);
        OneRepresentation(other.store.entries, content);
      }
    }

    /** The message around a given store. */
    constructor Around(kind: Kind, store: IeStore, ghost content: Content)
      requires store.Valid() && content.Valid() && Represents(store.entries, content)
      ensures Valid() && this.store == store && Value() == Message(kind, content)
    {
      this.kind := kind;
      this.store := store;
      this.content := content;
    }

    /** A deep copy. */
    method Copy() returns (copy: AnslpMsg)
      requires Valid()
      ensures fresh(copy) && fresh(copy.store) && copy.Valid() && copy.Value() == Value()
    {
      var entries := store.Copy();
      copy := new AnslpMsg.Around(kind, entries, content);
    }

    method GetSerializedSize() returns (size: nat)
      requires Valid()
      ensures size == Value().Size()
    {
      size := HEADER_LENGTH;
      var order := Ascending(store.entries.Keys);
      ListingOfRepr(store.entries, content);
      ghost var objects := InOrder(content);
      for i := 0 to |order|
        invariant size == HEADER_LENGTH + TotalSize(objects[..i])
      {
        size := size + store.entries[order[i]].value.Size();
        TotalSizeSnoc(objects, i);
      }
      assert objects[..|objects|] == objects;
    }

    /** Whether some entry has a key of the given type: the flag that a check loop sets. */
    method Includes(objectType: nat) returns (found: bool)
      requires Valid() && (IsUniqueType(objectType) || objectType == IPAP_MESSAGE)
      ensures found <==> if objectType == IPAP_MESSAGE then content.ipaps != [] else objectType in content.unique
    {
      found := false;
      var order := Ascending(store.entries.Keys);
      for i := 0 to |order|
        invariant found <==> exists j :: 0 <= j < i && store.entries[order[j]].key.objectType == objectType
      {
        if store.entries[order[i]].key.objectType == objectType {
          found := true;
        }
      }
      TypesOfEntries(store.entries, content, objectType);
      if s :| s in store.entries && store.entries[s].key.objectType == objectType {
        assert s in order;
      }
    }

    /** The check of each message class. */
    method Check() returns (ok: bool)
      requires Valid()
      ensures ok <==> Value().Check()
    {
      var msn := Includes(F_MSN);
      var info := Includes(F_INFO);
      var sel := Includes(F_SEL);
      var hop := Includes(F_HOP);
      var lifetime := Includes(F_LIFETIME);
      var ipap := Includes(IPAP_MESSAGE);
      var n := store.Size();
      EntriesCount(store.entries, content);
      CheckByType(Value());
      match kind
      case CREATE => ok := msn && sel && lifetime && hop;
      case RESPONSE => ok := !sel && !hop;
      case NOTIFY => ok := info && n == 1;
      case REFRESH => ok := msn && lifetime && n == 2;
      case BIDDING => ok := msn && ipap;
    }

    /** serialize_object: write the object under a key. When there is none, nothing is written and the result is undefined. */
    method WriteObject(k: Key, msg: NetMsg) returns (written: Option<nat>)
      requires Valid() && msg.Valid() && Registered(k)
      modifies msg, msg.buffer
      ensures msg.Valid()
      ensures match content.Lookup(k)
              case None => written.Some? && msg.Done() == old(msg.Done()) && msg.Ahead()
              case Some(o) =>
                && |o.Encode()| == o.Size()
                && written == (if o.Check() && o.Size() <= old(msg.BytesLeft()) then Some(o.Size()) else None)
                && (written.Some? ==> msg.Done() == old(msg.Done()) + o.Encode() && msg.Ahead())
    {
      var o := GetObject(k);
      if o.None? {
        var undefined: nat := *;
        return Some(undefined);
      }
      var ok := SerializeObject(o.value, msg);
      written := if ok then Some(o.value.Size()) else None;
    }

    /** Write the unique object of a type, if there is one. */
    method WriteUnique(t: nat, msg: NetMsg) returns (written: Option<nat>)
      requires Valid() && msg.Valid() && IsUniqueType(t)
      modifies msg, msg.buffer
      ensures msg.Valid()
      ensures written.Some? <==> UniqueChecks(content, t) && |UniqueBytes(content, t)| <= old(msg.BytesLeft())
      ensures written.Some? ==> msg.Done() == old(msg.Done()) + UniqueBytes(content, t) && msg.Ahead()
      ensures written.Some? && t in content.unique ==> written.value == |UniqueBytes(content, t)|
    {
      LookupOfType(content, t);
      written := WriteObject(Key(t, 1), msg);
    }

    /** Write unique objects in a given order of types. */
    method WriteUniques(types: seq<nat>, msg: NetMsg) returns (written: Option<nat>)
      requires Valid() && msg.Valid() && forall i :: 0 <= i < |types| ==> IsUniqueType(types[i])
      modifies msg, msg.buffer
      ensures msg.Valid()
      ensures written.Some? <==> UniquesCheck(content, types) && |UniquesBytes(content, types)| <= old(msg.BytesLeft())
      ensures written.Some? ==> msg.Done() == old(msg.Done()) + UniquesBytes(content, types) && msg.Ahead()
      ensures written.Some? && AllIn(types, content) ==> written.value == |UniquesBytes(content, types)|
    {
      var n: nat := 0;
      ghost var c, whole, done := content, UniquesBytes(content, types), [];
      assert types[0..] == types;
      for i := 0 to |types|
        invariant msg.Valid() && msg.Done() == old(msg.Done()) + done && msg.Ahead()
        invariant done + UniquesBytes(c, types[i..]) == whole
        invariant UniquesCheck(c, types) <==> UniquesCheck(c, types[i..])
        invariant AllIn(types, c) ==> n == |done|
      {
        UniquesFrom(c, types, i);
        written := WriteUnique(types[i], msg);
        if written.None? {
          return;
        }
        n := n + written.value;
        Proceeds(old(msg.Done()), done, UniqueBytes(c, types[i]), UniquesBytes(c, types[i + 1..]));
        done := done + UniqueBytes(c, types[i]);
      }
      NoUniques(c, types);
      written := Some(n);
    }

    /** Write the IPAP message with a sequence number. */
    method WriteIpap(sequence: nat, msg: NetMsg) returns (written: Option<nat>)
      requires Valid() && msg.Valid() && 0 < sequence <= |content.ipaps|
      modifies msg, msg.buffer
      ensures msg.Valid()
      ensures var o := content.ipaps[sequence - 1];
              && written == (if o.Check() && |o.Encode()| <= old(msg.BytesLeft()) then Some(|o.Encode()|) else None)
              && (written.Some? ==> msg.Done() == old(msg.Done()) + o.Encode() && msg.Ahead())
    {
      written := WriteObject(Key(IPAP_MESSAGE, sequence), msg);
    }

    /** Write the IPAP messages by their sequence numbers. */
    method WriteIpaps(msg: NetMsg, ghost whole: seq<byte>) returns (written: Option<nat>)
      requires Valid() && msg.Valid()
      requires whole == EncodeAll(content.ipaps)
      modifies msg, msg.buffer
      ensures msg.Valid()
      ensures written == if AllCheck(content.ipaps) && |whole| <= old(msg.BytesLeft()) then Some(|whole|) else None
      ensures written.Some? ==> msg.Done() == old(msg.Done()) + whole && msg.Ahead()
    {
      var last := store.GetMaxSequence(IPAP_MESSAGE);
      MaxIpapSequence(store.entries, content);
      var n: nat := 0;
      ghost var objects, done := content.ipaps, [];
      AllFrom(objects);
      for i := 0 to last
        invariant msg.Valid() && msg.Done() == old(msg.Done()) + done && msg.Ahead()
        invariant done + BytesFrom(objects, i) == whole && n == |done|
        invariant CheckFrom(objects, 0) <==> CheckFrom(objects, i)
      {
        ObjectsFrom(objects, i);
        written := WriteIpap(i + 1, msg);
        if written.None? {
          return;
        }
        n := n + written.value;
        Proceeds(old(msg.Done()), done, objects[i].Encode(), BytesFrom(objects, i + 1));
        done := done + objects[i].Encode();
      }
      written := Some(n);
    }

    /**
     * Write the message. None stands for an exception, after which the buffer is undefined; the number of bytes is only
     * defined when no object is missing.
     */
    method Serialize(msg: NetMsg) returns (written: Option<nat>)
      requires Valid() && msg.Valid()
      modifies msg, msg.buffer
      ensures msg.Valid()
      ensures written.Some? <==>
              Value().Check() && AllCheck(Value().Written()) && |Value().Encode()| <= old(msg.BytesLeft())
      ensures written.Some? ==> msg.Done() == old(msg.Done()) + Value().Encode() && msg.Ahead()
      ensures written.Some? && Value().Complete() ==> written.value == |Value().Encode()|
    {
      var ok := Check();
      if !ok {
        return None;
      }
      var header := Encode32(TypeCode(kind) * 0x100_0000);
      ghost var first, second := EncodingParts(Value());
      ok := msg.Write(header);
      if ok {
        written := WriteBody(msg, first, second);
        Concatenates(old(msg.Done()), header, first + second);
        Concatenates(header, first, second);
      }
      written := if ok && written.Some? then Some(HEADER_LENGTH + written.value) else None;
    }

    /** The objects of the message in the order that its type prescribes. */
    method WriteBody(msg: NetMsg, ghost first: seq<byte>, ghost second: seq<byte>) returns (written: Option<nat>)
      requires Valid() && msg.Valid()
      requires first == UniquesBytes(content, Required(kind))
      requires second == if CarriesIpaps(kind) then EncodeAll(content.ipaps) else []
      modifies msg, msg.buffer
      ensures msg.Valid()
      ensures written.Some? <==>
              && UniquesCheck(content, Required(kind)) && (CarriesIpaps(kind) ==> AllCheck(content.ipaps))
              && |first + second| <= old(msg.BytesLeft())
      ensures written.Some? ==> msg.Done() == old(msg.Done()) + (first + second) && msg.Ahead()
      ensures written.Some? && AllIn(Required(kind), content) ==> written.value == |first + second|
    {
      RequiredAreUnique(kind);
      written := WriteUniques(Required(kind), msg);
      if written.Some? && CarriesIpaps(kind) {
        var more := WriteIpaps(msg, second);
        written := if more.Some? then Some(written.value + more.value) else None;
      }
      Concatenates(old(msg.Done()), first, second);
    }

    /** get_mspec_objects; None when an object of an unexpected type is copied through a null pointer. */
    method GetMspecObjects() returns (list: Option<seq<Object>>)
      requires Valid()
      ensures list == ParserTheorems.MspecObjects(kind, InOrder(content))
    {
      var objects := [];
      var order := Ascending(store.entries.Keys);
      ListingOfRepr(store.entries, content);
      ghost var all := InOrder(content);
      for i := 0 to |order|
        invariant ParserTheorems.MspecObjects(kind, all[..i]) == Some(objects)
      {
        var o := store.entries[order[i]].value;
        MspecObjectsSnoc(kind, all, i);
        if !ParserTheorems.PassedOver(kind, o) {
          if !o.Ipap? {
            StaysNone(kind, all, i + 1);
            return None;
          }
          objects := objects + [o];
        }
      }
      assert all[..|all|] == all;
      return Some(objects);
    }
  }

  lemma TypesOfEntries(m: Entries, c: Content, t: nat)
    requires c.Valid() && Represents(m, c) && (IsUniqueType(t) || t == IPAP_MESSAGE)
    ensures (exists s :: s in m && m[s].key.objectType == t) <==> if t == IPAP_MESSAGE then c.ipaps != [] else t in c.unique
  {
    if t == IPAP_MESSAGE && c.ipaps != [] {
      assert EntryAt(c, IPAP_MESSAGE + 1).value.key.objectType == t;
    } else if t in c.unique {
      assert EntryAt(c, t + 1).value.key.objectType == t;
    }
  }

  /** A message is its header, its required objects and its IPAP messages. */
  lemma EncodingParts(m: Message) returns (first: seq<byte>, second: seq<byte>)
    ensures first == UniquesBytes(m.content, Required(m.kind))
    ensures second == if CarriesIpaps(m.kind) then EncodeAll(m.content.ipaps) else []
    ensures m.Encode() == Encode32(TypeCode(m.kind) * 0x100_0000) + first + second
    ensures AllCheck(m.Written()) <==>
            UniquesCheck(m.content, Required(m.kind)) && (CarriesIpaps(m.kind) ==> AllCheck(m.content.ipaps))
  {
    var uniques := UniquesOf(m.content, m.Fields());
    var ipaps := if CarriesIpaps(m.kind) then m.content.ipaps else [];
    first, second := EncodeAll(uniques), EncodeAll(ipaps);
    ParserTheorems.EncodeAllAdds(uniques, ipaps);
    BothCheck(uniques, ipaps);
  }

  lemma BothCheck(a: seq<Object>, b: seq<Object>)
    ensures AllCheck(a + b) <==> AllCheck(a) && AllCheck(b)
  {
    if AllCheck(a + b) {
      forall i | 0 <= i < |a| ensures a[i].Check() {
        assert (a + b)[i] == a[i];
      }
      forall i | 0 <= i < |b| ensures b[i].Check() {
        assert (a + b)[|a| + i] == b[i];
      }
    }
  }

  lemma CheckByType(m: Message)
    requires m.content.Valid()
    ensures m.kind.CREATE? ==> (m.Check() <==> F_MSN in m.content.unique && F_SEL in m.content.unique
                                               && F_LIFETIME in m.content.unique && F_HOP in m.content.unique)
    ensures m.kind.RESPONSE? ==> (m.Check() <==> F_SEL !in m.content.unique && F_HOP !in m.content.unique)
  {
    assert forall t :: t in m.content.unique ==> IsUniqueType(t);
    assert forall t :: IsUniqueType(t) ==> t == F_MSN || t == F_INFO || t == F_LIFETIME || t == F_SEL || t == F_HOP;
  }

  lemma EntriesCount(m: Entries, c: Content)
    requires c.Valid() && Represents(m, c)
    ensures |m| == |c.unique| + |c.ipaps|
  {
    var types := Types(c);
    SumsAreOrdered(m, c, types);
    OrderSize(m.Keys, SumsOf(types, |c.ipaps|));
    OrderSize(c.unique.Keys, types);
  }

  lemma MspecObjectsSnoc(kind: Kind, objects: seq<Object>, n: nat)
    requires n < |objects|
    ensures var before, o := ParserTheorems.MspecObjects(kind, objects[..n]), objects[n];
            ParserTheorems.MspecObjects(kind, objects[..n + 1])
            == if before.None? then None
               else if ParserTheorems.PassedOver(kind, o) then before
               else if o.Ipap? then Some(before.value + [o]) else None
  {
    assert objects[..n + 1][..n] == objects[..n];
  }

  lemma {:induction false} StaysNone(kind: Kind, objects: seq<Object>, n: nat)
    requires n <= |objects| && ParserTheorems.MspecObjects(kind, objects[..n]).None?
    ensures ParserTheorems.MspecObjects(kind, objects).None?
    decreases |objects| - n
  {
    if n < |objects| {
      MspecObjectsSnoc(kind, objects, n);
      StaysNone(kind, objects, n + 1);
    } else {
      assert objects[..n] == objects;
    }
  }

  /** How a reading ended; the message itself is an object. */
  datatype Ending = Completed(used: nat, errors: seq<ParseError>) | Stopped(errors: seq<ParseError>) | Escaped

  ghost function EndingOf(r: Reading): Ending {
    match r
    case Accepted(_, n, es) => Completed(n, es)
    case Rejected(es) => Stopped(es)
    case Exception => Escaped
  }

  ghost function EndingOfBody(r: Body): Ending {
    match r
    case Objects(_, n, es) => Completed(n, es)
    case Failed(es) => Stopped(es)
    case Threw => Escaped
  }

  lemma LookupOfType(c: Content, t: nat)
    requires c.Valid() && IsUniqueType(t)
    ensures var k := Key(t, 1); Registered(k) && c.Lookup(k) == if t in c.unique then Some(c.unique[t]) else None
  {
  }

  lemma TypeOfUnique(o: Object)
    requires o.IsUnique()
    ensures IsUniqueType(o.Type())
  {
    match o
    case Scalar(of, _, _) => assert ScalarCode(of) != IPAP_MESSAGE;
    case Info(_, _, _, _) =>
  }

  method IsDuplicate(read: AnslpMsg, o: Object) returns (duplicate: bool)
    requires read.Valid()
    ensures duplicate == Duplicate(read.content, o)
  {
    if !o.IsUnique() {
      return false;
    }
    TypeOfUnique(o);
    LookupOfType(read.content, o.Type());
    var present := read.GetObject(Key(o.Type(), 1));
    duplicate := present.Some?;
  }

  /** Put a parsed object into the message, unless it is a duplicate that is not to be skipped. */
  method Accept(read: AnslpMsg, o: Object, es: seq<ParseError>, skip: bool) returns (r: Option<seq<ParseError>>, failure: seq<ParseError>)
    requires read.Valid()
    modifies read`content, read.store
    ensures read.Valid()
    ensures if Duplicate(old(read.content), o) && !skip then r.None? && failure == es + [DUPLICATE_OBJECT]
            else read.content == old(read.content).Put(o)
                 && r == Some(if Duplicate(old(read.content), o) then es + [DUPLICATE_OBJECT] else es)
  {
    var duplicate := IsDuplicate(read, o);
    failure := if duplicate then es + [DUPLICATE_OBJECT] else es;
    if duplicate && !skip {
      return None, failure;
    }
    read.SetObject(o);
    r := Some(failure);
  }

  /** The object loop, named so that it is only unfolded where one of its turns is looked at. */
  ghost predicate IsLoop(parse: Parser, imp: Import, skip: bool) {
    forall c, bs {:trigger ParseObjects(c, bs, imp, skip)} :: parse(c, bs) == ParseObjects(c, bs, imp, skip)
  }

  lemma LoopEnds(parse: Parser, c: Content, imp: Import, skip: bool)
    requires IsLoop(parse, imp, skip)
    ensures parse(c, []) == Objects(c, 0, [])
  {
    assert ParseObjects(c, [], imp, skip) == Objects(c, 0, []);
  }

  /** Read one object into a message; the ending is that of this turn alone. */
  method ReadObject(msg: NetMsg, read: AnslpMsg, imp: Import, skip: bool, ghost parse: Parser) returns (r: Ending)
    requires msg.Valid() && read.Valid() && msg.BytesLeft() > 0 && IsLoop(parse, imp, skip)
    modifies msg, read`content, read.store
    ensures msg.Valid() && read.Valid() && msg.buffer[..] == old(msg.buffer[..])
    ensures var body := parse(old(read.content), old(msg.Rest()));
            if r.Completed? then
              && 8 <= r.used <= old(msg.BytesLeft()) && msg.pos == old(msg.pos) + r.used
              && body == After(r.used, r.errors, parse(read.content, msg.Rest()))
            else r == EndingOfBody(body)
  {
    ghost var rest, before := msg.Rest(), read.content;
    ParseOne(before, rest, imp, skip);
    var d := DeserializeObject(msg, imp, skip);
    match d
    case Refused(es) => return Stopped(es);
    case Raised => return Escaped;
    case Parsed(o, n, es) =>
      var errors, failure := Accept(read, o, es, skip);
      if errors.None? {
        return Stopped(failure);
      }
      assert msg.Rest() == rest[n..];
      return Completed(n, errors.value);
  }

  /** Read as many objects as there are. */
  method ReadObjects(msg: NetMsg, read: AnslpMsg, imp: Import, skip: bool, ghost parse: Parser) returns (r: Ending)
    requires msg.Valid() && read.Valid() && IsLoop(parse, imp, skip)
    modifies msg, read`content, read.store
    ensures msg.Valid() && read.Valid() && msg.buffer[..] == old(msg.buffer[..])
    ensures var body := parse(old(read.content), old(msg.Rest()));
            && r == EndingOfBody(body)
            && (r.Completed? ==> read.content == body.content && msg.pos == old(msg.pos) + r.used)
  {
    var used, errors := 0, [];
    ghost var whole := parse(read.content, msg.Rest());
    assert whole == After(used, errors, whole);
    while msg.BytesLeft() > 0
      invariant msg.Valid() && read.Valid() && msg.buffer[..] == old(msg.buffer[..]) && msg.pos == old(msg.pos) + used
      invariant whole == After(used, errors, parse(read.content, msg.Rest()))
      decreases msg.BytesLeft()
    {
      var turn := ReadObject(msg, read, imp, skip, parse);
      match turn
      case Stopped(es) => return Stopped(errors + es);
      case Escaped => return Escaped;
      case Completed(n, es) =>
        AfterAfter(used, errors, n, es, parse(read.content, msg.Rest()));
        used := used + n;
        errors := errors + es;
    }
    assert msg.Rest() == [];
    LoopEnds(parse, read.content, imp, skip);
    r := Completed(used, errors);
  }

  /** Look ahead for the message type, then read the header; None stands for an error. */
  method ReadHeader(msg: NetMsg) returns (kind: Option<Kind>, error: ParseError)
    requires msg.Valid()
    modifies msg
    ensures msg.Valid() && msg.buffer[..] == old(msg.buffer[..])
    ensures var bs := old(msg.Rest());
            if |bs| < 4 then kind.None? && error == TOO_SHORT
            else kind == KindOf(bs[0]) && (kind.None? ==> error == WRONG_TYPE)
                 && (kind.Some? ==> msg.Rest() == bs[4..] && msg.pos == old(msg.pos) + HEADER_LENGTH)
  {
    ghost var bs := msg.Rest();
    var header := msg.ReadWord(false);
    if header.None? {
      return None, TOO_SHORT;
    }
    var code: byte := header.value / 0x100_0000;
    assert code == bs[0];
    kind, error := KindOf(code), WRONG_TYPE;
    if kind.Some? {
      header := msg.ReadWord(true);
    }
  }

  /** Empty messages are not allowed. */
  method RejectEmpty(read: AnslpMsg, n: nat, es: seq<ParseError>, skip: bool) returns (r: Ending)
    requires read.Valid()
    ensures r == if read.Value().Count() > 0 then Completed(HEADER_LENGTH + n, es)
                 else if skip then Completed(HEADER_LENGTH + n, es + [EMPTY_MESSAGE])
                 else Stopped(es + [EMPTY_MESSAGE])
  {
    var count := read.store.Size();
    EntriesCount(read.store.entries, read.content);
    r := if count > 0 then Completed(HEADER_LENGTH + n, es)
         else if skip then Completed(HEADER_LENGTH + n, es + [EMPTY_MESSAGE])
         else Stopped(es + [EMPTY_MESSAGE]);
  }

  /** Read a header, and then objects into a new message until no bytes are left. */
  method Deserialize(msg: NetMsg, imp: Import, skip: bool) returns (r: Ending, message: AnslpMsg?)
    requires msg.Valid()
    modifies msg
    ensures msg.Valid() && msg.buffer[..] == old(msg.buffer[..])
    ensures r == EndingOf(Parse(old(msg.Rest()), imp, skip))
    ensures r.Completed? ==>
      && message != null && fresh(message) && fresh(message.store) && message.Valid()
      && message.Value() == Parse(old(msg.Rest()), imp, skip).message && msg.pos == old(msg.pos) + r.used
  {
    ghost var bs := msg.Rest();
    var kind, error := ReadHeader(msg);
    if kind.None? {
      ParseWithoutHeader(bs, imp, skip);
      return Stopped([error]), null;
    }
    var read := new AnslpMsg(kind.value);
    ghost var parse := (c: Content, bs: seq<byte>) => ParseObjects(c, bs, imp, skip);
    var body := ReadObjects(msg, read, imp, skip, parse);
    ParseFromBody(bs, imp, skip, kind.value, parse(NOTHING, bs[4..]));
    match body
    case Stopped(es) => return Stopped(es), null;
    case Escaped => return Escaped, null;
    case Completed(n, es) =>
      r := RejectEmpty(read, n, es, skip);
      message := read;
  }
}
