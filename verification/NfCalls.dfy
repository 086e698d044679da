/** What a forwarder hands to its installer, compared with a record of what it was asked and was told. */
module NfCalls {
  import opened Bytes
  import opened Protocol
  import opened Runs
  import opened NfSpec
  import NfTheorems
  import NfRuns
  import NfChart

  /** The CREATE last accepted, its objects under the keys of the rule, and the keys that a check has named. */
  datatype Memory = Memory(create: Option<Packet>, asked: Objects, named: Option<set<Key>>) {
    /** The requests that the installer should have. */
    function Wanted(): Objects {
      match named
      case None => asked
      case Some(keys) => map k | k in asked && k in keys :: asked[k]
    }

    function Objects(): seq<Payload> {
      if create.Some? then create.value.msg.objects else []
    }
  }

  const NOTHING_YET := Memory(None, map[], None)

  /** The first CREATE, or one that replaces it. */
  predicate Takes(s: Nf, evt: Event) {
    evt.Is(CREATE) && (s.state == CLOSE || (NfTheorems.Pends(s) && NfTheorems.Replaces(s, evt.packet)))
  }

  function Recall(m: Memory, s: Nf, input: Input): Memory {
    if Takes(s, input.evt) then
      Memory(Some(input.evt.packet), Assign(input.ctx.nextKey, input.evt.packet.msg.objects), None)
    else if s.state == PENDING_CHECK && input.evt.ApiCheck? then m.(named := Some(input.evt.keys))
    else m
  }

  function Recalled(states: seq<Nf>, inputs: seq<Input>): Memory
    requires |states| == |inputs| + 1
  {
    if inputs == [] then NOTHING_YET
    else
      var n := |inputs| - 1;
      Recall(Recalled(states[..n + 1], inputs[..n]), states[n], inputs[n])
  }

  /** This node takes part in what a CREATE asks for. */
  predicate TakesPart(m: Memory, cfg: Config) {
    m.create.Some? && Participates(FORWARDER, m.create.value.msg.sel.GetOr(0)) && cfg.installRules
  }

  /** A session in accordance with the record. */
  predicate Accords(s: Nf, m: Memory, cfg: Config) {
    NfTheorems.Pends(s) ==>
      && s.lastCreate == m.create && s.rule == Rule(m.Wanted(), map[]) && MayAsk(m)
      && (m.named.Some? <==> s.state != PENDING_CHECK && TakesPart(m, cfg))
      && (s.state == PENDING_CHECK ==> TakesPart(m, cfg))
  }

  predicate MayAsk(m: Memory) {
    m.create.Some? && m.create.value.msg.kind == CREATE && m.create.value.msg.code.None?
  }

  /** What is checked are the objects of the CREATE; what is installed are those that a check has named, if there was one. */
  predicate CallOk(e: Effect, m: Memory, cfg: Config) {
    && (e.Checked? ==> e.requests == m.asked && m.named.None?)
    && (e.Installed? ==> e.rule == Rule(m.Wanted(), map[]) && (m.named.Some? <==> TakesPart(m, cfg)))
    && !e.Responded?
  }

  predicate CallsOk(o: Outcome<Nf>, m: Memory, cfg: Config) {
    !o.Halted? ==>
      && (o.Next? ==> Accords(o.s, m, cfg))
      && forall k :: 0 <= k < |o.ctx.log| ==> CallOk(o.ctx.log[k], m, cfg)
  }

  // One event

  lemma AcceptCalls(s: Nf, p: Packet, ctx: Ctx, cfg: Config)
    requires ctx.log == [] && p.msg.kind == CREATE && s.rule.responses == map[]
    ensures CallsOk(Accept(s, p, ctx, cfg), Memory(Some(p), Assign(ctx.nextKey, p.msg.objects), None), cfg)
  {
  }

  lemma OpenCalls(m: Memory, input: Input, cfg: Config)
    ensures CallsOk(NfRuns.Act(cfg)(INITIAL, input), Recall(m, INITIAL, input), cfg)
  {
    if input.evt.Is(CREATE) {
      var p := input.evt.packet;
      var s := INITIAL.(maxLifetime := cfg.nfMaxLifetime, responseTimeout := cfg.nfMaxLifetime,
                        lifetime := Min(p.msg.lifetime.GetOr(0), cfg.nfMaxLifetime), msn := p.msg.msn.GetOr(0));
      AcceptCalls(s, p, input.Begin(), cfg);
    }
  }

  lemma CreateAgainCalls(s: Nf, m: Memory, input: Input, cfg: Config, passOn: bool)
    requires NfTheorems.Pends(s) && Accords(s, m, cfg) && input.evt.Is(CREATE)
    ensures CallsOk(StepCreateAgain(s, input.evt.packet, input.Begin(), cfg, passOn), Recall(m, s, input), cfg)
  {
    var p := input.evt.packet;
    if NfTheorems.Replaces(s, p) {
      AcceptCalls(s.(lifetime := p.msg.lifetime.GetOr(0), msn := p.msg.msn.GetOr(0)), p, input.Begin(), cfg);
    }
  }

  lemma CheckedCalls(s: Nf, m: Memory, input: Input, cfg: Config)
    requires s.state == PENDING_CHECK && Accords(s, m, cfg) && !input.evt.Is(CREATE)
    ensures CallsOk(NfRuns.Act(cfg)(s, input), Recall(m, s, input), cfg)
  {
  }

  lemma PendingCalls(s: Nf, m: Memory, input: Input, cfg: Config)
    requires s.state == PENDING && Accords(s, m, cfg) && !input.evt.Is(CREATE)
    ensures CallsOk(NfRuns.Act(cfg)(s, input), Recall(m, s, input), cfg)
  {
  }

  lemma OneReport(response: Packet, timer: Effect, o: Outcome<Nf>, m: Memory, cfg: Config)
    requires o.Next? && o.s.state == AUCTIONING && o.ctx.log == [Sent(response), timer] && timer.Started?
    ensures CallsOk(o, m, cfg)
  {
  }

  lemma ReportedCalls(s: Nf, m: Memory, installed: Objects, ctx: Ctx, cfg: Config)
    requires s.state == PENDING_INSTALLING && ctx.log == [] && |s.rule.requests| == |installed|
    ensures CallsOk(StepInstalled(s, installed, ctx), m, cfg)
  {
    if s.lastResponse.Some? {
      NfChart.ReportIsDone(s, s.lastResponse.value, installed, ctx);
      OneReport(ExtendResponse(s.lastResponse.value, Install(s.rule.responses, ctx.nextKey, installed)),
                Started(ctx.nextTimer, s.lifetime), StepInstalled(s, installed, ctx), m, cfg);
    }
  }

  lemma MismatchedCalls(s: Nf, m: Memory, installed: Objects, ctx: Ctx, cfg: Config)
    requires s.state == PENDING_INSTALLING && ctx.log == [] && |s.rule.requests| != |installed|
    ensures CallsOk(StepInstalled(s, installed, ctx), m, cfg)
  {
  }

  lemma InstallingCalls(s: Nf, m: Memory, input: Input, cfg: Config)
    requires s.state == PENDING_INSTALLING && Accords(s, m, cfg) && !input.evt.Is(CREATE)
    ensures CallsOk(NfRuns.Act(cfg)(s, input), Recall(m, s, input), cfg)
  {
    if input.evt.NoNextNode? || input.evt == Timer(s.stateTimer) {
      UnreachableCalls(s, m, input.Begin(), cfg);
    } else if input.evt.ApiInstall? && |s.rule.requests| == |input.evt.installed| {
      ReportedCalls(s, m, input.evt.installed, input.Begin(), cfg);
    } else if input.evt.ApiInstall? {
      MismatchedCalls(s, m, input.evt.installed, input.Begin(), cfg);
    } else {
      assert NfRuns.Act(cfg)(s, input) == Next(s, input.Begin());
    }
  }

  lemma UnreachableCalls(s: Nf, m: Memory, ctx: Ctx, cfg: Config)
    requires ctx.log == []
    ensures CallsOk(StepUnreachable(s, ctx), m, cfg)
  {
  }

  lemma RefreshCalls(s: Nf, m: Memory, p: Packet, ctx: Ctx, cfg: Config)
    requires s.state == AUCTIONING && ctx.log == []
    ensures CallsOk(StepRefresh(s, p, ctx), m, cfg) && CallsOk(StepRefreshAnswered(s, p, ctx), m, cfg)
  {
  }

  lemma EndCalls(s: Nf, m: Memory, ctx: Ctx, seconds: nat, cfg: Config)
    requires s.state == AUCTIONING && ctx.log == []
    ensures CallsOk(Teardown(s, ctx, seconds), m, cfg)
  {
  }

  lemma MessageCalls(s: Nf, m: Memory, input: Input, cfg: Config)
    requires s.state == AUCTIONING && input.evt.MsgIn?
    ensures CallsOk(NfRuns.Act(cfg)(s, input), Recall(m, s, input), cfg)
  {
    RefreshCalls(s, m, input.evt.packet, input.Begin(), cfg);
  }

  lemma AuctioningCalls(s: Nf, m: Memory, input: Input, cfg: Config)
    requires s.state == AUCTIONING
    ensures CallsOk(NfRuns.Act(cfg)(s, input), Recall(m, s, input), cfg)
  {
    var evt, ctx := input.evt, input.Begin();
    if evt.MsgIn? {
      MessageCalls(s, m, input, cfg);
    } else if evt == Timer(s.stateTimer) && evt != Timer(s.responseTimer) {
      EndCalls(s.(responseTimer := STOPPED), m, ctx, s.lifetime, cfg);
    } else if evt.RouteBad? {
      EndCalls(s, m, ctx, s.responseTimeout, cfg);
    } else {
      EndCalls(s.(stateTimer := STOPPED), m, ctx, s.lifetime, cfg);
    }
  }

  lemma TeardownCalls(s: Nf, m: Memory, input: Input, cfg: Config)
    requires s.state == PENDING_TEARDOWN
    ensures CallsOk(NfRuns.Act(cfg)(s, input), Recall(m, s, input), cfg)
  {
  }

  lemma ActCalls(s: Nf, m: Memory, input: Input, cfg: Config)
    requires Accords(s, m, cfg) && (s.state == CLOSE ==> s == INITIAL)
    ensures CallsOk(NfRuns.Act(cfg)(s, input), Recall(m, s, input), cfg)
  {
    if s.state == CLOSE {
      OpenCalls(m, input, cfg);
    } else if NfTheorems.Pends(s) && input.evt.Is(CREATE) {
      CreateAgainCalls(s, m, input, cfg, s.state != PENDING_CHECK);
    } else {
      match s.state
      case PENDING_CHECK => CheckedCalls(s, m, input, cfg);
      case PENDING => PendingCalls(s, m, input, cfg);
      case PENDING_INSTALLING => InstallingCalls(s, m, input, cfg);
      case AUCTIONING => AuctioningCalls(s, m, input, cfg);
      case PENDING_TEARDOWN => TeardownCalls(s, m, input, cfg);
    }
  }

  // Whole runs

  lemma {:induction false} RunAccords(inputs: seq<Input>, cfg: Config)
    ensures var t := Run(NfRuns.Act(cfg), NfRuns.IsFinal, INITIAL, inputs);
            t.Some? ==> Accords(t.value.Last(), Recalled(t.value.states, inputs), cfg)
  {
    if inputs != [] && Run(NfRuns.Act(cfg), NfRuns.IsFinal, INITIAL, inputs).Some? {
      var n := |inputs| - 1;
      var shorter, input := inputs[..n], inputs[n];
      RunAccords(shorter, cfg);
      var t := Run(NfRuns.Act(cfg), NfRuns.IsFinal, INITIAL, shorter).value;
      var t' := Run(NfRuns.Act(cfg), NfRuns.IsFinal, INITIAL, inputs).value;
      assert t'.states[..n + 1] == t.states && t'.states[n] == t.Last();
      assert n == 0 ==> t == Trace([INITIAL], []);
      ActCalls(t.Last(), Recalled(t.states, shorter), input, cfg);
    }
  }

  /**
   * After any run, whatever comes next: the installer checks the objects of the CREATE last accepted, and installs exactly
   * those that the check has named, or all of them at a node that takes no part.
   */
  lemma CallsAreAsRecalled(inputs: seq<Input>, input: Input, cfg: Config)
    ensures var t := Run(NfRuns.Act(cfg), NfRuns.IsFinal, INITIAL, inputs);
            t.Some? && (inputs != [] ==> t.value.Last().state != CLOSE) ==>
              CallsOk(NfRuns.Act(cfg)(t.value.Last(), input), Recall(Recalled(t.value.states, inputs), t.value.Last(), input), cfg)
  {
    RunAccords(inputs, cfg);
    var t := Run(NfRuns.Act(cfg), NfRuns.IsFinal, INITIAL, inputs);
    if t.Some? && (inputs != [] ==> t.value.Last().state != CLOSE) {
      assert inputs == [] ==> t.value == Trace([INITIAL], []);
      ActCalls(t.value.Last(), Recalled(t.value.states, inputs), input, cfg);
    }
  }

  /** In the record the objects stand in the order in which the CREATE carries them. */
  lemma {:induction false} AskedListsCreate(states: seq<Nf>, inputs: seq<Input>)
    requires |states| == |inputs| + 1
    ensures var m := Recalled(states, inputs); Listing(m.asked) == m.Objects()
  {
    if inputs == [] {
      ListingOfAssign(0, []);
    } else {
      var n := |inputs| - 1;
      AskedListsCreate(states[..n + 1], inputs[..n]);
      if Takes(states[n], inputs[n].evt) {
        ListingOfAssign(inputs[n].ctx.nextKey, inputs[n].evt.packet.msg.objects);
      }
    }
  }

  // That the calls are made

  /** In PENDING the success of the CREATE has the rule installed, and nothing else does. */
  lemma Installs(s: Nf, evt: Event, ctx: Ctx, cfg: Config)
    requires ctx.log == [] && s.state == PENDING && !evt.Is(CREATE)
    ensures var o := Step(s, evt, ctx, cfg);
            NfRuns.Confirms(s, evt) <==> !o.Halted? && |o.ctx.log| > 1 && o.ctx.log[1] == Installed(s.rule)
  {
  }

  /** A CREATE that is accepted is checked exactly when this node takes part in it; else it is passed on at once. */
  lemma ChecksCreate(s: Nf, p: Packet, ctx: Ctx, cfg: Config)
    requires ctx.log == [] && p.msg.kind == CREATE && p.mri == Mri(true, true) && p.msg.code.None?
    ensures var o := Accept(s, p, ctx, cfg);
            && !o.Halted? && |o.ctx.log| > 0
            && if Participates(FORWARDER, p.msg.sel.GetOr(0)) && cfg.installRules
               then o.ctx.log[0] == Checked(Assign(ctx.nextKey, p.msg.objects))
               else o.Next? && o.s.state == PENDING && o.ctx.log[0].Sent? && o.ctx.log[0].packet.msg.objects == p.msg.objects
  {
  }
}
