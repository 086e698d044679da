/** Whole messages: their form on the wire, and the parser. */
module MessageCodec {
  import opened Bytes
  import opened Collections
  import opened ObjectCodec
  import opened IeStores
  import Protocol

  type Kind = Protocol.Kind

  // Message types

  function TypeCode(kind: Kind): (code: byte)
    ensures KindOf(code) == Some(kind)
  {
    match kind
    case CREATE => 1
    case RESPONSE => 2
    case NOTIFY => 3
    case REFRESH => 5
    case BIDDING => 6
  }

  function KindOf(code: byte): Option<Kind> {
    match code
    case 1 => Some(Protocol.CREATE)
    case 2 => Some(Protocol.RESPONSE)
    case 3 => Some(Protocol.NOTIFY)
    case 5 => Some(Protocol.REFRESH)
    case 6 => Some(Protocol.BIDDING)
    case _ => None
  }

  const F_INFO: nat := INFORMATION_CODE
  const F_SEL: nat := ScalarCode(SELECTION)
  const F_HOP: nat := ScalarCode(HOP_COUNT)
  const F_MSN: nat := ScalarCode(MSN)
  const F_LIFETIME: nat := ScalarCode(LIFETIME)

  datatype Message = Message(kind: Kind, content: Content) {
    /** What the message classes demand before they serialise. */
    predicate Check() {
      match kind
      case CREATE => {F_MSN, F_SEL, F_LIFETIME, F_HOP} <= content.unique.Keys
      case RESPONSE => content.unique.Keys <= {F_MSN, F_INFO, F_LIFETIME}
      case NOTIFY => F_INFO in content.unique && Count() == 1
      case REFRESH => F_MSN in content.unique && F_LIFETIME in content.unique && Count() == 2
      case BIDDING => F_MSN in content.unique && content.ipaps != []
    }

    function Count(): nat {
      |content.unique| + |content.ipaps|
    }

    /** All unique objects that this type of message should carry are there. */
    predicate Complete() {
      forall i :: 0 <= i < |Required(kind)| ==> Required(kind)[i] in content.unique
    }

    /** The message holds nothing but what is written for its type. */
    predicate Exact() {
      && (forall t :: t in content.unique ==> t in Required(kind))
      && (!CarriesIpaps(kind) ==> content.ipaps == [])
    }

    /** The types of the unique objects that are written, in their order. */
    function Fields(): seq<nat> {
      Present(content, Required(kind))
    }

    /** The objects in the order in which they are written; one that is missing is passed over. */
    function Written(): seq<Object> {
      UniquesOf(content, Fields()) + if CarriesIpaps(kind) then content.ipaps else []
    }

    function Encode(): seq<byte> {
      Encode32(TypeCode(kind) * 0x100_0000) + EncodeAll(Written())
    }

    /** get_serialized_size: the header and every object, in the order of the store. */
    function Size(): nat {
      HEADER_LENGTH + TotalSize(InOrder(content))
    }
  }

  function Required(kind: Kind): seq<nat> {
    match kind
    case CREATE => [F_MSN, F_LIFETIME, F_SEL, F_HOP]
    case RESPONSE => [F_MSN, F_INFO, F_LIFETIME]
    case NOTIFY => [F_INFO]
    case REFRESH => [F_MSN, F_LIFETIME]
    case BIDDING => [F_MSN]
  }

  /** Those of some types of which a content has an object. */
  function Present(c: Content, types: seq<nat>): (present: seq<nat>)
    ensures forall t :: t in present <==> t in types && t in c.unique
  {
    if types == [] then [] else (if types[0] in c.unique then [types[0]] else []) + Present(c, types[1..])
  }

  predicate CarriesIpaps(kind: Kind) {
    kind == Protocol.CREATE || kind == Protocol.RESPONSE || kind == Protocol.BIDDING
  }

  function EncodeAll(objects: seq<Object>): seq<byte> {
    if objects == [] then [] else objects[0].Encode() + EncodeAll(objects[1..])
  }

  function TotalSize(objects: seq<Object>): nat {
    if objects == [] then 0 else objects[0].Size() + TotalSize(objects[1..])
  }

  // Sizes

  lemma {:induction false} TotalSizeAdds(a: seq<Object>, b: seq<Object>)
    ensures TotalSize(a + b) == TotalSize(a) + TotalSize(b)
    decreases |a|
  {
    if a == [] {
      assert a + b == b;
    } else {
      assert (a + b)[1..] == a[1..] + b;
      TotalSizeAdds(a[1..], b);
    }
  }

  lemma {:induction false} EncodedSize(objects: seq<Object>)
    ensures |EncodeAll(objects)| == TotalSize(objects)
  {
    if objects != [] {
      SizeIsExact(objects[0]);
      EncodedSize(objects[1..]);
    }
  }

  lemma {:induction false} SizeOfUniques(objects: seq<Object>)
    requires forall i :: 0 <= i < |objects| ==> objects[i].IsUnique()
    ensures TotalSize(objects) == 8 * |objects|
  {
    if objects != [] {
      SizeOfUniques(objects[1..]);
    }
  }

  lemma {:induction false} SizeOfIpaps(objects: seq<Object>)
    requires forall i :: 0 <= i < |objects| ==> objects[i].Ipap?
    ensures TotalSize(objects) >= 4 * |objects|
  {
    if objects != [] {
      SizeOfIpaps(objects[1..]);
    }
  }

  predicate Distinct(types: seq<nat>) {
    forall i, j :: 0 <= i < j < |types| ==> types[i] != types[j]
  }

  lemma RequiredAreDistinct(kind: Kind)
    ensures Distinct(Required(kind))
  {
  }

  lemma {:induction false} PresentAreDistinct(c: Content, types: seq<nat>)
    requires Distinct(types)
    ensures Distinct(Present(c, types))
  {
    if types != [] {
      PresentAreDistinct(c, types[1..]);
      assert types[0] !in types[1..];
    }
  }

  lemma {:induction false} AllPresent(c: Content, types: seq<nat>)
    requires forall i :: 0 <= i < |types| ==> types[i] in c.unique
    ensures Present(c, types) == types
  {
    if types != [] {
      AllPresent(c, types[1..]);
    }
  }

  function ToSet(s: seq<nat>): set<nat> {
    set t | t in s
  }

  lemma {:induction false} SizeOfDistinct(s: seq<nat>)
    requires Distinct(s)
    ensures |ToSet(s)| == |s|
  {
    if s != [] {
      SizeOfDistinct(s[1..]);
      assert s[0] !in s[1..];
      assert ToSet(s) == {s[0]} + ToSet(s[1..]);
    }
  }

  /** What is written of a message are objects that it holds. */
  lemma WrittenIsHeld(m: Message, i: nat)
    requires i < |m.Written()|
    ensures var o := m.Written()[i]; (exists t :: t in m.content.unique && m.content.unique[t] == o) || o in m.content.ipaps
  {
    var fields := m.Fields();
    if i < |fields| {
      assert fields[i] in fields;
    }
  }

  lemma FieldsAreDistinct(m: Message)
    ensures Distinct(m.Fields())
  {
    RequiredAreDistinct(m.kind);
    PresentAreDistinct(m.content, Required(m.kind));
  }

  /** A message has no other unique objects than those that are written exactly when it has no more of them. */
  lemma ExactByCount(m: Message)
    ensures |m.Fields()| <= |m.content.unique|
    ensures |m.Fields()| == |m.content.unique| <==> forall t :: t in m.content.unique ==> t in Required(m.kind)
  {
    var keys, fields := m.content.unique.Keys, ToSet(m.Fields());
    FieldsAreDistinct(m);
    SizeOfDistinct(m.Fields());
    assert fields <= keys;
    SubsetSize(fields, keys);
    if forall t :: t in m.content.unique ==> t in Required(m.kind) {
      assert keys == fields;
    } else if |fields| == |keys| {
      SubsetOfEqualSize(fields, keys);
    }
  }

  lemma SizeInTerms(m: Message)
    requires m.content.Valid()
    ensures m.Size() == HEADER_LENGTH + 8 * |m.content.unique| + TotalSize(m.content.ipaps)
    ensures |m.Encode()| == HEADER_LENGTH + 8 * |m.Fields()| + if CarriesIpaps(m.kind) then TotalSize(m.content.ipaps) else 0
  {
    var c := m.content;
    var uniques, written := UniquesOf(c, Types(c)), UniquesOf(c, m.Fields());
    TotalSizeAdds(uniques, c.ipaps);
    TotalSizeAdds(written, if CarriesIpaps(m.kind) then c.ipaps else []);
    EncodedSize(m.Written());
    SizeOfUniques(uniques);
    SizeOfUniques(written);
    OrderSize(c.unique.Keys, Types(c));
  }

  /** The announced size is never too small, and it is exact for exactly the messages that hold only what is written. */
  lemma AnnouncedSize(m: Message)
    requires m.content.Valid()
    ensures |m.Encode()| <= m.Size()
    ensures |m.Encode()| == m.Size() <==> m.Exact()
  {
    SizeInTerms(m);
    ExactByCount(m);
    SizeOfIpaps(m.content.ipaps);
  }

  lemma CompleteByType(m: Message)
    ensures var u := m.content.unique;
            m.Complete() <==>
              match m.kind
              case CREATE => F_MSN in u && F_LIFETIME in u && F_SEL in u && F_HOP in u
              case RESPONSE => F_MSN in u && F_INFO in u && F_LIFETIME in u
              case NOTIFY => F_INFO in u
              case REFRESH => F_MSN in u && F_LIFETIME in u
              case BIDDING => F_MSN in u
  {
    var required := Required(m.kind);
    match m.kind
    case CREATE => assert required[0] == F_MSN && required[1] == F_LIFETIME && required[2] == F_SEL && required[3] == F_HOP;
    case RESPONSE => assert required[0] == F_MSN && required[1] == F_INFO && required[2] == F_LIFETIME;
    case NOTIFY => assert required[0] == F_INFO;
    case REFRESH => assert required[0] == F_MSN && required[1] == F_LIFETIME;
    case BIDDING => assert required[0] == F_MSN;
  }

  lemma CompleteCount(m: Message)
    requires m.Complete() && m.Exact()
    ensures |m.content.unique| == |Required(m.kind)|
  {
    AllPresent(m.content, Required(m.kind));
    ExactByCount(m);
  }

  /** A message that holds only what is written passes the check of its type, unless something it demands is missing. */
  lemma CheckOfExact(m: Message)
    requires m.Exact()
    ensures m.Check() <==> m.kind == Protocol.RESPONSE || (m.Complete() && (m.kind == Protocol.BIDDING ==> m.content.ipaps != []))
  {
    CompleteByType(m);
    if m.Complete() {
      CompleteCount(m);
    }
    if m.kind == Protocol.RESPONSE {
      assert m.content.unique.Keys <= {F_MSN, F_INFO, F_LIFETIME} by {
        assert forall t :: t in m.content.unique ==> t in Required(Protocol.RESPONSE);
      }
    }
  }

  lemma ResponseCheck(m: Message)
    requires m.content.Valid() && m.kind == Protocol.RESPONSE
    ensures m.Check() <==> m.Exact()
  {
    assert Required(Protocol.RESPONSE)[0] == F_MSN && Required(Protocol.RESPONSE)[1] == F_INFO
        && Required(Protocol.RESPONSE)[2] == F_LIFETIME;
  }

  lemma CountedCheck(m: Message)
    requires m.content.Valid() && (m.kind == Protocol.NOTIFY || m.kind == Protocol.REFRESH)
    ensures m.Check() <==> m.Complete() && m.Exact()
  {
    CompleteByType(m);
    if m.Complete() {
      AllPresent(m.content, Required(m.kind));
      ExactByCount(m);
    }
  }

  /**
   * What each check guarantees: that all objects of the type are there, except for responses; that there is nothing else,
   * except for CREATEs and BIDDINGs; and that a BIDDING has an IPAP message.
   */
  lemma CheckExactly(m: Message)
    requires m.content.Valid()
    ensures m.Check() <==>
              match m.kind
              case CREATE => m.Complete()
              case RESPONSE => m.Exact()
              case NOTIFY => m.Complete() && m.Exact()
              case REFRESH => m.Complete() && m.Exact()
              case BIDDING => m.Complete() && m.content.ipaps != []
  {
    CompleteByType(m);
    match m.kind
    case CREATE =>
    case RESPONSE => ResponseCheck(m);
    case NOTIFY => CountedCheck(m);
    case REFRESH => CountedCheck(m);
    case BIDDING =>
  }
}
