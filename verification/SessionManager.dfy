/** The session table and the list of done sessions, updated in place. */
module SessionManagers {
  import opened Bytes
  import opened Protocol
  import opened SessionIds
  import opened DispatcherServices
  import opened SystemSpec
  import opened NiSessions
  import opened NfSessions
  import opened NrSessions
  import Ni = NiSpec
  import Nf = NfSpec
  import Nr = NrSpec

  /** A pointer to a session of any role. */
  datatype SessionRef = NiRef(ni: NiSession) | NfRef(nf: NfSession) | NrRef(nr: NrSession) {
    function GetId(): SessionId {
      match this
      case NiRef(s) => s.id
      case NfRef(s) => s.id
      case NrRef(s) => s.id
    }

    ghost function Number(): nat {
      match this
      case NiRef(s) => s.number
      case NfRef(s) => s.number
      case NrRef(s) => s.number
    }

    /** The session object and its timers. */
    ghost function Footprint(): set<object> {
      match this
      case NiRef(s) => {s, s.responseTimer, s.refreshTimer}
      case NfRef(s) => {s, s.stateTimer, s.responseTimer}
      case NrRef(s) => {s, s.stateTimer}
    }

    ghost predicate Valid(cfg: Config) {
      match this
      case NiRef(s) => s.Valid()
      case NfRef(s) => s.Valid() && s.cfg == cfg
      case NrRef(s) => s.Valid() && s.cfg == cfg
    }

    /** The session as a value. */
    ghost function View(): Session
      reads Footprint()
    {
      match this
      case NiRef(s) => Initiator(s.View())
      case NfRef(s) => Forwarder(s.View())
      case NrRef(s) => Responder(s.View())
    }
  }

  /** Sessions with different numbers share no object. */
  lemma Apart(a: SessionRef, b: SessionRef, cfg: Config)
    requires a.Valid(cfg) && b.Valid(cfg) && a.Number() != b.Number()
    ensures a.Footprint() !! b.Footprint()
  {
  }

  class SessionManager {
    const cfg: Config
    var table: map<SessionId, SessionRef>
    var done: seq<SessionRef>
    /** The numbers of the sessions that were deleted, in order. */
    ghost var freed: seq<nat>
    /** How many sessions were ever created. */
    ghost var created: nat

    ghost function Repr(): set<object>
      reads this
    {
      set sid, o | sid in table && o in table[sid].Footprint() :: o
    }

    ghost predicate Valid()
      reads this
    {
      && (forall sid :: sid in table ==> table[sid].Valid(cfg) && table[sid].GetId() == sid && table[sid].Number() < created)
      && (forall a, b :: a in table && b in table && a != b ==> table[a].Number() != table[b].Number())
    }

    /** The table, as a value, is `t`. */
    ghost predicate Shows(t: map<SessionId, Entry>)
      reads *
    {
      && t.Keys == table.Keys
      && forall sid :: sid in t ==> t[sid] == Entry(table[sid].Number(), sid, table[sid].View())
    }

    /** The table shows `t` but for one session. */
    lemma ShowsChange(sid: SessionId, t: map<SessionId, Entry>)
      requires sid in table && t.Keys == table.Keys && t[sid].number == table[sid].Number() && t[sid].id == sid
      requires forall other :: other in t && other != sid ==> t[other] == Entry(table[other].Number(), other, table[other].View())
      ensures Shows(t[sid := t[sid].(session := table[sid].View())])
    {
    }

    ghost function Numbers(refs: seq<SessionRef>): (numbers: seq<nat>)
      ensures |numbers| == |refs| && forall i :: 0 <= i < |refs| ==> numbers[i] == refs[i].Number()
    {
      seq(|refs|, i requires 0 <= i < |refs| => refs[i].Number())
    }

    constructor (cfg: Config)
      ensures Valid() && this.cfg == cfg && table == map[] && done == [] && freed == [] && created == 0
    {
      this.cfg := cfg;
      table, done, freed, created := map[], [], [], 0;
    }

    /** create_unique_id: draw ids until one is not in the table. */
    method CreateUniqueId(ids: seq<SessionId>) returns (id: SessionId)
      requires exists x :: x in ids && x !in table
      ensures id == FirstUnused(ids, table.Keys)
    {
      id := ids[0];
      var i := 0;
      while id in table
        invariant 0 <= i < |ids| && id == ids[i]
        invariant exists x :: x in ids[i..] && x !in table
        invariant FirstUnused(ids, table.Keys) == FirstUnused(ids[i..], table.Keys)
        decreases |ids| - i
      {
        assert ids[i..][1..] == ids[i + 1..];
        assert ids[i..] == [ids[i]] + ids[i + 1..];
        i := i + 1;
        id := ids[i];
      }
    }

    /** Insert a new session into the table. */
    method Insert(r: SessionRef, ghost t: map<SessionId, Entry>)
      requires Valid() && Shows(t) && r.Valid(cfg) && r.Number() == created && r.GetId() !in table
      modifies this
      ensures Valid() && table == old(table)[r.GetId() := r]
      ensures Shows(t[r.GetId() := Entry(old(created), r.GetId(), r.View())])
      ensures done == old(done) && freed == old(freed) && created == old(created) + 1
    {
      table := table[r.GetId() := r];
      created := created + 1;
    }

    method CreateNiSession(ids: seq<SessionId>, msn: uint32, counter: uint32, ghost t: map<SessionId, Entry>) returns (r: SessionRef)
      requires Valid() && Shows(t) && exists x :: x in ids && x !in table
      modifies this
      ensures Valid() && fresh(r.Footprint()) && r.GetId() == FirstUnused(ids, old(table).Keys) && table == old(table)[r.GetId() := r]
      ensures Shows(t[r.GetId() := Entry(old(created), r.GetId(), Initiator(Ni.Initial(cfg, msn, counter)))])
      ensures done == old(done) && freed == old(freed) && created == old(created) + 1
    {
      var id := CreateUniqueId(ids);
      var s := new NiSession(id, cfg, msn, counter, created);
      r := NiRef(s);
      Insert(r, t);
    }

    method CreateNfSession(sid: SessionId, ghost t: map<SessionId, Entry>) returns (r: SessionRef)
      requires Valid() && Shows(t) && sid !in table
      modifies this
      ensures Valid() && fresh(r.Footprint()) && table == old(table)[sid := r]
      ensures r.GetId() == sid && Shows(t[sid := Entry(old(created), sid, Forwarder(Nf.INITIAL))])
      ensures done == old(done) && freed == old(freed) && created == old(created) + 1
    {
      var s := new NfSession(sid, cfg, created);
      r := NfRef(s);
      Insert(r, t);
    }

    method CreateNrSession(sid: SessionId, biddingMsn: uint32, ghost t: map<SessionId, Entry>) returns (r: SessionRef)
      requires Valid() && Shows(t) && sid !in table
      modifies this
      ensures Valid() && fresh(r.Footprint()) && table == old(table)[sid := r]
      ensures r.GetId() == sid && Shows(t[sid := Entry(old(created), sid, Responder(Nr.Initial(cfg, biddingMsn)))])
      ensures done == old(done) && freed == old(freed) && created == old(created) + 1
    {
      var s := new NrSession(sid, cfg, biddingMsn, created);
      r := NrRef(s);
      Insert(r, t);
    }

    method GetSession(sid: SessionId) returns (r: Option<SessionRef>)
      ensures r == if sid in table then Some(table[sid]) else None
    {
      if sid in table {
        r := Some(table[sid]);
      } else {
        r := None;
      }
    }

    /** store_session_asdone: keep a removed session for a while, and delete the oldest one when the list is full. */
    method StoreSessionAsDone(s: SessionRef, ghost t: map<SessionId, Entry>)
      requires Valid() && Shows(t)
      modifies this`done, this`freed
      ensures Valid() && Shows(t)
      ensures var all := old(done) + [s];
              if |all| > DONE_LIST_SIZE then done == all[1..] && freed == old(freed) + [all[0].Number()]
              else done == all && freed == old(freed)
    {
      done := done + [s];
      if |done| > DONE_LIST_SIZE {
        freed := freed + [done[0].Number()];
        done := done[1..];
      }
    }

    method RemoveSession(sid: SessionId, ghost t: map<SessionId, Entry>)
      requires Valid() && Shows(t) && sid in table
      modifies this`table, this`done, this`freed
      ensures Valid() && Shows(t - {sid}) && table == old(table) - {sid}
      ensures var all := old(done) + [old(table)[sid]];
              if |all| > DONE_LIST_SIZE then done == all[1..] && freed == old(freed) + [all[0].Number()]
              else done == all && freed == old(freed)
    {
      var s := table[sid];
      table := table - {sid};
      StoreSessionAsDone(s, t - {sid});
    }
  }
}
