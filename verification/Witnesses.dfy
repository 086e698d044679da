/** Runs that show the failures of the daemon: each begins at the start, and every event in it is an ordinary one. */
module Witnesses {
  import opened Bytes
  import opened Protocol
  import opened SessionIds
  import Runs
  import SerialNumber
  import Ni = NiSpec
  import Nf = NfSpec
  import NfTheorems
  import NfRuns
  import NfTimers
  import NfCap
  import NiTheorems
  import opened SystemSpec
  import SystemTheorems
  import SystemRuns

  // A forwarder

  /** A CREATE that concerns the first node only, so that a forwarder neither checks nor installs anything for it. */
  function Create(msn: uint32, lifetime: uint32): Packet {
    Packet(Msg(CREATE, Some(msn), Some(lifetime), Some(SME_FIRST), Some(0), None, []), Mri(true, true))
  }

  function Answer(msn: uint32, lifetime: uint32): Packet {
    Packet(Msg(RESPONSE, Some(msn), Some(lifetime), None, None, Some(SUCCESS), []), Mri(true, false))
  }

  function Refresh(msn: uint32, lifetime: uint32): Packet {
    Packet(Msg(REFRESH, Some(msn), Some(lifetime), None, None, None, []), Mri(true, true))
  }

  /** The forwarder after it has passed a CREATE on. */
  function Passed(s: Nf.Nf, create: Packet, lifetime: uint32, cfg: Config, ctx: Ctx): Nf.Nf {
    s.(state := Nf.PENDING, msn := create.msg.msn.GetOr(0), lifetime := lifetime,
       maxLifetime := cfg.nfMaxLifetime, responseTimeout := cfg.nfMaxLifetime, stateTimer := ctx.nextTimer,
       nrMri := Some(create.mri), lastCreate := Some(create), rule := EMPTY_RULE)
  }

  lemma FirstCreate(lifetime: uint32, ctx: Ctx, cfg: Config)
    requires lifetime > 0 && cfg.nfMaxLifetime > 0
    ensures var o := Nf.Step(Nf.INITIAL, MsgIn(Create(1, lifetime), false), ctx, cfg);
            o.Next? && o.ctx.verdict == ctx.verdict
            && o.s == Passed(Nf.INITIAL, Create(1, lifetime), Min(lifetime, cfg.nfMaxLifetime), cfg, ctx)
  {
  }

  lemma SecondCreate(s: Nf.Nf, lifetime: uint32, ctx: Ctx, cfg: Config)
    requires s.state == Nf.PENDING && s.lastCreate.Some? && s.lastCreate.value.msg.msn == Some(1) && s.rule == EMPTY_RULE
    requires lifetime > 0 && s.maxLifetime == cfg.nfMaxLifetime && s.responseTimeout == cfg.nfMaxLifetime
    ensures var o := Nf.Step(s, MsgIn(Create(2, lifetime), false), ctx, cfg);
            o.Next? && o.s == Passed(s, Create(2, lifetime), lifetime, cfg, ctx)
  {
  }

  function Input(evt: Event, next: TimerId): Runs.Input {
    Runs.Input(evt, Ctx(next, 0, Accepts, []), 0)
  }

  lemma RunOne(s: Nf.Nf, a: Runs.Input, cfg: Config)
    requires NfRuns.Act(cfg)(s, a).Next?
    ensures var r := Runs.Run(NfRuns.Act(cfg), NfRuns.IsFinal, s, [a]);
            r.Some? && r.value.states == [s, NfRuns.Act(cfg)(s, a).s]
  {
    assert [a][..0] == [];
  }

  lemma RunMore(s: Nf.Nf, inputs: seq<Runs.Input>, a: Runs.Input, cfg: Config)
    requires inputs != [] && Runs.Run(NfRuns.Act(cfg), NfRuns.IsFinal, s, inputs).Some?
    requires var last := Runs.Run(NfRuns.Act(cfg), NfRuns.IsFinal, s, inputs).value.Last();
             last.state != Nf.CLOSE && NfRuns.Act(cfg)(last, a).Next?
    ensures var t := Runs.Run(NfRuns.Act(cfg), NfRuns.IsFinal, s, inputs).value;
            var r := Runs.Run(NfRuns.Act(cfg), NfRuns.IsFinal, s, inputs + [a]);
            r.Some? && r.value.states == t.states + [NfRuns.Act(cfg)(t.Last(), a).s]
  {
    assert (inputs + [a])[..|inputs|] == inputs;
  }

  /** Under any cap, two CREATEs take the lifetime of a forwarder over it. */
  lemma ReplacementLiftsOverCap(cfg: Config)
    requires 0 < cfg.nfMaxLifetime < TWO_32 - 1
    ensures var inputs := [Input(MsgIn(Create(1, 1), false), 1), Input(MsgIn(Create(2, cfg.nfMaxLifetime + 1), false), 2)];
            var r := Runs.Run(NfRuns.Act(cfg), NfRuns.IsFinal, Nf.INITIAL, inputs);
            r.Some? && NfCap.Over(r.value.Last()) && r.value.Last().state == Nf.PENDING
  {
    var a, b := Input(MsgIn(Create(1, 1), false), 1), Input(MsgIn(Create(2, cfg.nfMaxLifetime + 1), false), 2);
    FirstCreate(1, a.Begin(), cfg);
    RunOne(Nf.INITIAL, a, cfg);
    var s := NfRuns.Act(cfg)(Nf.INITIAL, a).s;
    SecondCreate(s, cfg.nfMaxLifetime + 1, b.Begin(), cfg);
    RunMore(Nf.INITIAL, [a], b, cfg);
    assert [a] + [b] == [a, b];
  }

  lemma FirstAnswer(s: Nf.Nf, ctx: Ctx, cfg: Config)
    requires s.state == Nf.PENDING && s.lastCreate.Some? && s.lastCreate.value.msg.msn == Some(1) && ctx.verdict.Accepts?
    ensures var o := Nf.Step(s, MsgIn(Answer(1, 1), false), ctx, cfg);
            && o.Next? && o.ctx.verdict.Accepts?
            && o.s == s.(state := Nf.PENDING_INSTALLING, lastResponse := Some(Answer(1, 1)),
                         responseTimer := ctx.nextTimer, stateTimer := ctx.nextTimer + 1)
  {
  }

  lemma NothingToInstall(s: Nf.Nf, ctx: Ctx, cfg: Config)
    requires s.state == Nf.PENDING_INSTALLING && s.lastResponse.Some? && s.rule.requests == map[]
    ensures var o := Nf.Step(s, ApiInstall(map[]), ctx, cfg);
            && o.Next? && o.ctx.verdict == ctx.verdict && o.s.state == Nf.AUCTIONING
            && o.s.lastRefresh == s.lastRefresh && o.s.msn == s.msn && o.s.maxLifetime == s.maxLifetime
            && o.s.responseTimer == s.responseTimer && o.s.stateTimer == ctx.nextTimer
  {
  }

  lemma ForwarderInstallsNothing(a: Runs.Input, b: Runs.Input, c: Runs.Input, cfg: Config) returns (s: Nf.Nf)
    requires a == Input(MsgIn(Create(1, 1), false), 1) && b == Input(MsgIn(Answer(1, 1), false), 2)
    requires c == Input(ApiInstall(map[]), 4) && cfg.nfMaxLifetime > 0
    ensures var r := Runs.Run(NfRuns.Act(cfg), NfRuns.IsFinal, Nf.INITIAL, [a, b, c]);
            r.Some? && r.value.Last() == s && s.state == Nf.AUCTIONING && s.msn == 1 && s.maxLifetime == cfg.nfMaxLifetime
  {
    FirstCreate(1, a.Begin(), cfg);
    RunOne(Nf.INITIAL, a, cfg);
    var s1 := NfRuns.Act(cfg)(Nf.INITIAL, a).s;
    FirstAnswer(s1, b.Begin(), cfg);
    RunMore(Nf.INITIAL, [a], b, cfg);
    var s2 := NfRuns.Act(cfg)(s1, b).s;
    NothingToInstall(s2, c.Begin(), cfg);
    RunMore(Nf.INITIAL, [a] + [b], c, cfg);
    assert [a] + [b] + [c] == [a, b, c];
    s := NfRuns.Act(cfg)(s2, c).s;
  }

  /** An answered REFRESH, and then the message of the timer that it has started: the session is torn down. */
  lemma AnsweredForwarderIsTornDown(cfg: Config)
    requires cfg.nfMaxLifetime > 0
    ensures var inputs := [Input(MsgIn(Create(1, 1), false), 1), Input(MsgIn(Answer(1, 1), false), 2),
                           Input(ApiInstall(map[]), 4), Input(MsgIn(Refresh(2, 1), false), 5),
                           Input(MsgIn(Answer(2, 1), false), 6)];
            var r := Runs.Run(NfRuns.Act(cfg), NfRuns.IsFinal, Nf.INITIAL, inputs);
            && r.Some? && r.value.Last().state == Nf.AUCTIONING && Sent(Answer(2, 1)) in r.value.log
            && NfTimers.Leaves(NfRuns.Act(cfg)(r.value.Last(), Input(Timer(5), 7)))
  {
    var a, b, c := Input(MsgIn(Create(1, 1), false), 1), Input(MsgIn(Answer(1, 1), false), 2), Input(ApiInstall(map[]), 4);
    var d, e := Input(MsgIn(Refresh(2, 1), false), 5), Input(MsgIn(Answer(2, 1), false), 6);
    var s := ForwarderInstallsNothing(a, b, c, cfg);
    NfTimers.AnsweredRefreshStillExpires(s, Refresh(2, 1), Answer(2, 1), d.Begin(), e.Begin(), Input(Timer(5), 7).Begin(), cfg);
    RunMore(Nf.INITIAL, [a, b, c], d, cfg);
    RunMore(Nf.INITIAL, [a, b, c] + [d], e, cfg);
    assert [a, b, c] + [d] + [e] == [a, b, c, d, e];
  }

  // A whole node

  const SID := SessionId(1, 2, 3, 4)

  function Arrives(evt: Event, ids: seq<SessionId>): Arrival {
    Arrival(if evt.ApiCreate? then None else Some(SID), evt, Accepts, ids, 0, 0, 0)
  }

  /** An event for a session of the table that leaves it open. */
  lemma Stays(sys: Sys, a: Arrival, cfg: Config)
    requires SID in sys.table && a.sid == Some(SID) && Deliverable(sys, a)
    requires !a.evt.RoutingStateCheck? && !a.evt.BadMsgIn? && !a.evt.Timer?
    requires var o := StepSession(sys.table[SID].session, a.evt, Ctx(sys.nextTimer, sys.nextKey, a.verdict, []), cfg, a.random);
             o.Next? && !o.s.IsFinal()
    ensures var o := StepSession(sys.table[SID].session, a.evt, Ctx(sys.nextTimer, sys.nextKey, a.verdict, []), cfg, a.random);
            var p := Process(sys, a, cfg);
            p.Running? && SID in p.sys.table && p.sys.table[SID].session == o.s
  {
  }

  /** An event that opens a session that stays open. */
  lemma Opens(a: Arrival, cfg: Config, x: Opened)
    requires Deliverable(EMPTY, a) && Open(EMPTY, a, cfg) == Some(x) && x.sid == SID
    requires !a.evt.RoutingStateCheck? && !a.evt.BadMsgIn? && !a.evt.Timer?
    requires var o := StepSession(x.session, a.evt, Ctx(1, 0, a.verdict, []), cfg, a.random); o.Next? && !o.s.IsFinal()
    ensures var o := StepSession(x.session, a.evt, Ctx(1, 0, a.verdict, []), cfg, a.random);
            var p := Process(EMPTY, a, cfg);
            p.Running? && SID in p.sys.table && p.sys.table[SID].session == o.s
  {
  }

  lemma RunAhead(sys: Sys, a: Arrival, rest: seq<Arrival>, cfg: Config)
    requires Deliverable(sys, a) && Process(sys, a, cfg).Running?
    ensures SystemRuns.Run(sys, [a] + rest, cfg) == SystemRuns.Run(Process(sys, a, cfg).sys, rest, cfg)
  {
    assert ([a] + rest)[1..] == rest;
  }

  lemma RunThree(a: Arrival, b: Arrival, c: Arrival, s1: Sys, s2: Sys, s3: Sys, cfg: Config)
    requires Deliverable(EMPTY, a) && Process(EMPTY, a, cfg).Running? && Process(EMPTY, a, cfg).sys == s1
    requires Deliverable(s1, b) && Process(s1, b, cfg).Running? && Process(s1, b, cfg).sys == s2
    requires Deliverable(s2, c) && Process(s2, c, cfg).Running? && Process(s2, c, cfg).sys == s3
    ensures SystemRuns.Run(EMPTY, [a, b, c], cfg) == Some(s3)
  {
    RunAhead(EMPTY, a, [b, c], cfg);
    RunAhead(s1, b, [c], cfg);
    RunAhead(s2, c, [], cfg);
    assert [a] + [b, c] == [a, b, c] && [b] + [c] == [b, c] && [c] + [] == [c];
  }

  /** After a run the node stops at an event for an auctioning session that has seen no REFRESH yet. */
  lemma StopsThere(arrivals: seq<Arrival>, a: Arrival, cfg: Config)
    requires SystemRuns.Run(EMPTY, arrivals, cfg).Some?
    requires var sys := SystemRuns.Run(EMPTY, arrivals, cfg).value;
             Deliverable(sys, a) && SystemRuns.NodeStops(sys, a, cfg)
    ensures Process(SystemRuns.Run(EMPTY, arrivals, cfg).value, a, cfg).Down?
  {
    SystemRuns.EmptyInv();
    SystemRuns.RunKeepsInv(EMPTY, arrivals, cfg);
    SystemRuns.NodeStopsExactly(SystemRuns.Run(EMPTY, arrivals, cfg).value, a, cfg);
  }

  lemma ForwarderAuctions(a: Arrival, b: Arrival, c: Arrival, cfg: Config) returns (sys: Sys)
    requires a == Arrives(MsgIn(Create(1, 1), false), []) && b == Arrives(MsgIn(Answer(1, 1), false), [])
    requires c == Arrives(ApiInstall(map[]), []) && cfg.nfMaxLifetime > 0 && !cfg.nfIsEdge
    ensures SystemRuns.Run(EMPTY, [a, b, c], cfg) == Some(sys) && SID in sys.table
    ensures sys.table[SID].session.Forwarder?
    ensures sys.table[SID].session.nf.state == Nf.AUCTIONING && sys.table[SID].session.nf.lastRefresh == None
  {
    FirstCreate(1, Ctx(1, 0, Accepts, []), cfg);
    Opens(a, cfg, Opened(SID, Forwarder(Nf.INITIAL)));
    var s1 := Process(EMPTY, a, cfg).sys;
    FirstAnswer(s1.table[SID].session.nf, Ctx(s1.nextTimer, s1.nextKey, Accepts, []), cfg);
    Stays(s1, b, cfg);
    var s2 := Process(s1, b, cfg).sys;
    NothingToInstall(s2.table[SID].session.nf, Ctx(s2.nextTimer, s2.nextKey, Accepts, []), cfg);
    Stays(s2, c, cfg);
    sys := Process(s2, c, cfg).sys;
    RunThree(a, b, c, s1, s2, sys, cfg);
  }

  /** A repeated response stops the node of an auctioning forwarder that has seen no REFRESH yet. */
  lemma RepeatedResponseStopsForwarder(cfg: Config)
    requires cfg.nfMaxLifetime > 0 && !cfg.nfIsEdge
    ensures var arrivals := [Arrives(MsgIn(Create(1, 1), false), []), Arrives(MsgIn(Answer(1, 1), false), []),
                             Arrives(ApiInstall(map[]), [])];
            var r := SystemRuns.Run(EMPTY, arrivals, cfg);
            && r.Some? && SID in r.value.table && r.value.table[SID].session.Forwarder?
            && r.value.table[SID].session.nf.state == Nf.AUCTIONING
            && Process(r.value, Arrives(MsgIn(Answer(1, 1), false), []), cfg).Down?
  {
    var a, b := Arrives(MsgIn(Create(1, 1), false), []), Arrives(MsgIn(Answer(1, 1), false), []);
    var c := Arrives(ApiInstall(map[]), []);
    var sys := ForwarderAuctions(a, b, c, cfg);
    var arrivals := [a, b, c];
    assert SystemRuns.Run(EMPTY, arrivals, cfg) == Some(sys);
    StopsThere(arrivals, b, cfg);
  }

  // An initiator

  const ASKED := ApiCreate(1, SME_FIRST, [], true)

  lemma InitiatorAsks(s: Ni.Ni, cfg: Config, ctx: Ctx)
    requires s == Ni.Initial(cfg, 0, 0)
    ensures var o := Ni.Step(s, ASKED, ctx, 0);
            && o.Next? && o.s.state == Ni.PENDING && o.s.lastRefresh == None && o.s.lifetime == 1
            && o.s.lastCreate.Some? && o.s.lastCreate.value.msg.msn == Some(1)
  {
    NiTheorems.RefreshIntervalIsLeast(1, cfg.niMaxRetries);
  }

  lemma InitiatorIsAnswered(s: Ni.Ni, ctx: Ctx)
    requires s.state == Ni.PENDING && s.lastCreate.Some? && s.lastCreate.value.msg.msn == Some(1) && s.lastRefresh == None
    requires ctx.verdict.Accepts?
    ensures var o := Ni.Step(s, MsgIn(Answer(1, 1), false), ctx, 0);
            && o.Next? && o.s.state == Ni.PENDING_INSTALLING && o.s.lastRefresh == None && o.s.installRule.requests == map[]
  {
  }

  lemma InitiatorInstalls(s: Ni.Ni, ctx: Ctx)
    requires s.state == Ni.PENDING_INSTALLING && s.installRule.requests == map[] && s.lastRefresh == None
    ensures var o := Ni.Step(s, ApiInstall(map[]), ctx, 0);
            && o.Next? && o.s.state == Ni.AUCTIONING && o.s.lastRefresh == None
  {
  }

  lemma InitiatorAuctions(a: Arrival, b: Arrival, c: Arrival, cfg: Config) returns (sys: Sys)
    requires a == Arrives(ASKED, [SID]) && b == Arrives(MsgIn(Answer(1, 1), false), [])
    requires c == Arrives(ApiInstall(map[]), [])
    ensures SystemRuns.Run(EMPTY, [a, b, c], cfg) == Some(sys) && SID in sys.table
    ensures sys.table[SID].session.Initiator?
    ensures sys.table[SID].session.ni.state == Ni.AUCTIONING && sys.table[SID].session.ni.lastRefresh == None
  {
    assert SID in [SID] && SID !in EMPTY.table;
    InitiatorAsks(Ni.Initial(cfg, 0, 0), cfg, Ctx(1, 0, Accepts, []));
    Opens(a, cfg, Opened(SID, Initiator(Ni.Initial(cfg, 0, 0))));
    var s1 := Process(EMPTY, a, cfg).sys;
    InitiatorIsAnswered(s1.table[SID].session.ni, Ctx(s1.nextTimer, s1.nextKey, Accepts, []));
    Stays(s1, b, cfg);
    var s2 := Process(s1, b, cfg).sys;
    InitiatorInstalls(s2.table[SID].session.ni, Ctx(s2.nextTimer, s2.nextKey, Accepts, []));
    Stays(s2, c, cfg);
    sys := Process(s2, c, cfg).sys;
    RunThree(a, b, c, s1, s2, sys, cfg);
  }

  /** A repeated response stops the node of an auctioning initiator that has sent no REFRESH yet. */
  lemma RepeatedResponseStopsInitiator(cfg: Config)
    ensures var arrivals := [Arrives(ASKED, [SID]), Arrives(MsgIn(Answer(1, 1), false), []), Arrives(ApiInstall(map[]), [])];
            var r := SystemRuns.Run(EMPTY, arrivals, cfg);
            && r.Some? && SID in r.value.table && r.value.table[SID].session.Initiator?
            && r.value.table[SID].session.ni.state == Ni.AUCTIONING
            && Process(r.value, Arrives(MsgIn(Answer(1, 1), false), []), cfg).Down?
  {
    var a, b := Arrives(ASKED, [SID]), Arrives(MsgIn(Answer(1, 1), false), []);
    var c := Arrives(ApiInstall(map[]), []);
    var sys := InitiatorAuctions(a, b, c, cfg);
    StopsThere([a, b, c], b, cfg);
  }

  /** The first request of a client stops the node if it asks for the lifetime 0. */
  lemma ZeroLifetimeStopsNode(sel: uint32, objects: seq<Payload>, hasQueue: bool, cfg: Config)
    ensures var a := Arrives(ApiCreate(0, sel, objects, hasQueue), [SID]);
            Deliverable(EMPTY, a) && Process(EMPTY, a, cfg).Down?
  {
    var a := Arrives(ApiCreate(0, sel, objects, hasQueue), [SID]);
    assert SID in a.ids && SID !in EMPTY.table;
    SystemRuns.EmptyInv();
    SystemRuns.NodeStopsExactly(EMPTY, a, cfg);
  }
}
