/** The values that sessions exchange: messages, rules, events, and the calls they make on the dispatcher. */
module Protocol {
  import opened Bytes
  import Collections

  /** Timer ids are fresh and positive; a stopped timer has id 0. */
  type TimerId = nat

  const STOPPED: TimerId := 0

  /** The key of an object in an auction rule. */
  type Key = nat

  type Objects = map<Key, Payload>

  datatype Rule = Rule(requests: Objects, responses: Objects)

  const EMPTY_RULE := Rule(map[], map[])

  // Messages

  datatype Kind = CREATE | RESPONSE | NOTIFY | REFRESH | BIDDING

  datatype InfoCode = InfoCode(severity: byte, code: byte)

  const SUCCESS := InfoCode(2, 1)
  const INTERNAL_ERROR := InfoCode(5, 4)
  const NR_NOT_REACHED := InfoCode(5, 7)
  const CONFIGURATION_FAILED := InfoCode(5, 9)
  const PROTOCOL_ERROR := InfoCode(3, 0)

  /** What an installer error may report: anything but success. */
  type FailureCode = c: InfoCode | c != SUCCESS witness INTERNAL_ERROR

  /** One optional object of each unique type, and the IPAP objects in order. */
  datatype Msg = Msg(kind: Kind, msn: Option<uint32>, lifetime: Option<uint32>, sel: Option<uint32>, hop: Option<uint32>,
                     code: Option<InfoCode>, objects: seq<Payload>) {
    /** get_mspec_objects; None stands for its call through a null pointer when an unexpected object type is present. */
    function MspecObjects(): Option<seq<Payload>> {
      if kind == RESPONSE then if sel.None? && hop.None? then Some(objects) else None
      else if code.None? then Some(objects)
      else None
    }

    predicate IsSuccess() {
      code == Some(SUCCESS)
    }

    /** The unique objects that the type of the message writes are there. */
    predicate HasRequired() {
      match kind
      case CREATE => msn.Some? && lifetime.Some? && sel.Some? && hop.Some?
      case RESPONSE => msn.Some? && code.Some? && lifetime.Some?
      case NOTIFY => code.Some?
      case REFRESH => msn.Some? && lifetime.Some?
      case BIDDING => msn.Some?
    }

    /** The message holds nothing but what its type writes. */
    predicate HasOnlyRequired() {
      match kind
      case CREATE => code.None?
      case RESPONSE => sel.None? && hop.None?
      case NOTIFY => msn.None? && lifetime.None? && sel.None? && hop.None? && objects == []
      case REFRESH => sel.None? && hop.None? && code.None? && objects == []
      case BIDDING => lifetime.None? && sel.None? && hop.None? && code.None?
    }
  }

  /** Message routing information, reduced to its method and its direction. */
  datatype Mri = Mri(pathCoupled: bool, downstream: bool) {
    function Inverted(): Mri {
      this.(downstream := !downstream)
    }
  }

  datatype Packet = Packet(msg: Msg, mri: Mri)

  /** An error response to a message: same sequence number, opposite direction. */
  function CreateResponse(p: Packet, code: InfoCode): Packet {
    Packet(Msg(RESPONSE, p.msg.msn, None, None, None, Some(code), []), p.mri.Inverted())
  }

  function CreateSuccessResponse(p: Packet, lifetime: uint32): Packet {
    var r := CreateResponse(p, SUCCESS);
    r.(msg := r.msg.(lifetime := Some(lifetime)))
  }

  // Events

  /** Objects that a handler only iterates over are listed in the order of their map. */
  datatype Event =
    | ApiCreate(lifetime: uint32, sel: uint32, objects: seq<Payload>, hasQueue: bool)
    | ApiCheck(keys: set<Key>)
    | ApiInstall(installed: Objects)
    | ApiTeardown
    | ApiRemove
    | ApiBidding(objects: seq<Payload>, hasQueue: bool)
    | ApiOther
    | Timer(id: TimerId)
    | NoNextNode
    | RouteBad
    | NetworkNotification
    | RoutingStateCheck
    | MsgIn(packet: Packet, forThisNode: bool)
    | BadMsgIn(mri: Mri)
  {
    predicate Is(kind: Kind) {
      MsgIn? && packet.msg.kind == kind
    }

    /** is_anslp_response: a RESPONSE that carries the sequence number of the message sent. */
    predicate Answers(sent: Packet) {
      Is(RESPONSE) && sent.msg.msn.Some? && packet.msg.msn == sent.msg.msn
    }
  }

  // Calls on the dispatcher

  datatype Effect =
    | Sent(packet: Packet)
    | Started(id: TimerId, seconds: nat)
    | Checked(requests: Objects)
    | Installed(rule: Rule)
    | Responded(rule: Rule)
    | Removed(rule: Rule)
    | Interacted(server: bool, objects: seq<Payload>)
    | Enqueued

  /** What the installer does if it is called while the current event is processed; Rejects is a thrown error. */
  datatype Verdict = Accepts | Rejects(code: FailureCode)

  /** The dispatcher as one event sees it: supplies of fresh ids, the installer's verdict, and the calls so far. */
  datatype Ctx = Ctx(nextTimer: TimerId, nextKey: Key, verdict: Verdict, log: seq<Effect>) {
    function Do(e: Effect): Ctx {
      this.(log := log + [e])
    }

    function Send(p: Packet): Ctx {
      Do(Sent(p))
    }

    /** Starts a timer, whose id is the old `nextTimer`. */
    function Start(seconds: nat): Ctx {
      Do(Started(nextTimer, seconds)).(nextTimer := nextTimer + 1)
    }

    function TakeKeys(n: nat): Ctx {
      this.(nextKey := nextKey + n)
    }
  }

  /** What a handler does: the next session state, an exception for the dispatcher, or a failed assertion. */
  datatype Outcome<S> = Next(s: S, ctx: Ctx) | Threw(ctx: Ctx) | Halted

  /** Whether timer message `id` is under way after one event; the event consumes its own message if it is a timer. */
  predicate Live(out: set<TimerId>, evt: Event, from: TimerId, to: TimerId, id: TimerId) {
    (id in out && evt != Timer(id)) || from <= id < to
  }

  /** The timer messages under way carry positive ids that were drawn before `next`. */
  predicate Supplied(out: set<TimerId>, next: TimerId) {
    next > 0 && forall id :: id in out ==> 0 < id < next
  }

  // Objects

  /** The objects under consecutive fresh keys. */
  function Assign(from: Key, objects: seq<Payload>): (m: Objects)
    ensures |m| == |objects| && forall k :: k in m ==> from <= k < from + |objects|
  {
    if objects == [] then map[]
    else Assign(from, objects[..|objects| - 1])[from + |objects| - 1 := objects[|objects| - 1]]
  }

  /** The objects stand under the keys in their order. */
  lemma {:induction false} AssignAt(from: Key, objects: seq<Payload>, k: Key)
    ensures k in Assign(from, objects) <==> from <= k < from + |objects|
    ensures k in Assign(from, objects) ==> Assign(from, objects)[k] == objects[k - from]
    decreases |objects|
  {
    if objects != [] {
      AssignAt(from, objects[..|objects| - 1], k);
    }
  }

  function Keep(requests: Objects, keys: set<Key>): Objects {
    map k | k in requests && k in keys :: requests[k]
  }

  /** The objects under some keys, in the order of the keys. */
  function At(m: Objects, keys: seq<Key>): (objects: seq<Payload>)
    requires forall i :: 0 <= i < |keys| ==> keys[i] in m
    ensures |objects| == |keys| && forall i :: 0 <= i < |keys| ==> objects[i] == m[keys[i]]
  {
    seq(|keys|, i requires 0 <= i < |keys| => m[keys[i]])
  }

  /** The objects of a rule in the order in which its map is iterated: by ascending keys. */
  function Listing(m: Objects): (objects: seq<Payload>)
    ensures |objects| == |m|
  {
    Collections.OrderSize(m.Keys, Collections.Ascending(m.Keys));
    At(m, Collections.Ascending(m.Keys))
  }

  lemma ListingInOrder(m: Objects, order: seq<Key>)
    requires Collections.IsOrder(m.Keys, order)
    ensures Listing(m) == At(m, order)
  {
    Collections.OneOrder(m.Keys, order, Collections.Ascending(m.Keys));
  }

  /** Some objects stand under consecutive keys, and nothing else does. */
  ghost predicate Consecutive(m: Objects, from: Key, objects: seq<Payload>) {
    && (forall k :: k in m <==> from <= k < from + |objects|)
    && (forall k :: k in m ==> m[k] == objects[k - from])
  }

  /** An order of consecutive keys goes through them one by one. */
  lemma {:induction false} OrderOfConsecutive(m: Objects, from: Key, objects: seq<Payload>, order: seq<Key>, i: nat)
    requires Consecutive(m, from, objects) && Collections.IsOrder(m.Keys, order) && i < |order|
    ensures order[i] == from + i
  {
    if i > 0 {
      OrderOfConsecutive(m, from, objects, order, i - 1);
    }
    assert order[i] in m.Keys && from + i <= order[i];
    assert from + i in order;
    var j :| 0 <= j < |order| && order[j] == from + i;
    assert i <= j;
  }

  lemma ListingOfConsecutive(m: Objects, from: Key, objects: seq<Payload>)
    requires Consecutive(m, from, objects) && |m| == |objects|
    ensures Listing(m) == objects
  {
    var order := Collections.Ascending(m.Keys);
    Collections.OrderSize(m.Keys, order);
    forall i | 0 <= i < |order| ensures m[order[i]] == objects[i] {
      OrderOfConsecutive(m, from, objects, order, i);
    }
  }

  /** Fresh keys ascend, so objects that were put into a rule are listed in their order. */
  lemma ListingOfAssign(from: Key, objects: seq<Payload>)
    ensures Listing(Assign(from, objects)) == objects
  {
    var m := Assign(from, objects);
    forall k: Key ensures (k in m <==> from <= k < from + |objects|) && (k in m ==> m[k] == objects[k - from]) {
      AssignAt(from, objects, k);
    }
    ListingOfConsecutive(m, from, objects);
  }

  /** set_reponse_objects: the installed objects are copied into the rule under fresh keys, in the order of the event. */
  function Install(responses: Objects, from: Key, installed: Objects): Objects {
    responses + Assign(from, Listing(installed))
  }

  lemma NothingBefore(m: Objects)
    ensures map[] + m == m
  {
  }

  /** The first installation into a rule keeps the number of the objects and their order. */
  lemma InstallFirst(from: Key, installed: Objects)
    ensures var m := Install(map[], from, installed); |m| == |installed| && Listing(m) == Listing(installed)
  {
    var objects := Listing(installed);
    NothingBefore(Assign(from, objects));
    ListingOfAssign(from, objects);
  }

  /** A response, extended by the objects installed at a node. */
  function ExtendResponse(p: Packet, installed: Objects): Packet {
    p.(msg := p.msg.(objects := p.msg.objects + Listing(installed)))
  }

  // Configuration and roles

  datatype Config = Config(
    niResponseTimeout: uint32, niMaxRetries: uint32, niHopCount: uint32,
    nfMaxLifetime: uint32, nfIsEdge: bool,
    nrMaxLifetime: uint32, nrResponseTimeout: uint32, nrMaxRetries: uint32,
    installRules: bool)

  datatype Role = INITIATOR | FORWARDER | RECEIVER

  const SME_ALL: uint32 := 1
  const SME_ANY: uint32 := 2
  const SME_FIRST: uint32 := 3
  const SME_LAST: uint32 := 4
  const SME_FIRST_LAST: uint32 := 5

  predicate Participates(role: Role, sme: uint32) {
    match role
    case INITIATOR => sme == SME_ALL || sme == SME_ANY || sme == SME_FIRST || sme == SME_FIRST_LAST
    case FORWARDER => sme == SME_ALL || sme == SME_ANY
    case RECEIVER => sme == SME_ALL || sme == SME_ANY || sme == SME_FIRST_LAST || sme == SME_LAST
  }

  function Min(a: uint32, b: uint32): uint32 {
    if a <= b then a else b
  }
}
