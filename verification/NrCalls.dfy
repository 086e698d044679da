/** What a responder hands to its installer, compared with a record of what it was asked and was told. */
module NrCalls {
  import opened Bytes
  import opened Protocol
  import opened Runs
  import opened NrSpec
  import NrTheorems
  import NrRuns
  import NrChart

  /**
   * The CREATE, its objects under the keys of the last check, the keys that the check has named, and how often the installer
   * was asked to check and to install.
   */
  datatype Memory = Memory(create: Option<Packet>, asked: Objects, named: Option<set<Key>>, checks: nat, installs: nat) {
    /** The requests that the installer should have. */
    function Wanted(): Objects {
      match named
      case None => asked
      case Some(keys) => map k | k in asked && k in keys :: asked[k]
    }

    function Objects(): seq<Payload> {
      if create.Some? then create.value.msg.objects else []
    }
  }

  const NOTHING_YET := Memory(None, map[], None, 0, 0)

  /** The check is repeated when no answer comes in time. */
  predicate ChecksAgain(s: Nr, evt: Event) {
    s.state == PENDING && (evt.NoNextNode? || evt == Timer(s.stateTimer))
  }

  predicate InstallsAgain(s: Nr, evt: Event) {
    s.state == PENDING_INSTALLING && evt == Timer(s.stateTimer)
  }

  function Recall(m: Memory, s: Nr, input: Input): Memory {
    if s.state == CLOSE && input.evt.Is(CREATE) then
      Memory(Some(input.evt.packet), Assign(input.ctx.nextKey, input.evt.packet.msg.objects), None, 1, 0)
    else if ChecksAgain(s, input.evt) then m.(asked := Assign(input.ctx.nextKey, m.Objects()), checks := m.checks + 1)
    else if s.state == PENDING && input.evt.ApiCheck? then m.(named := Some(input.evt.keys), installs := 1)
    else if InstallsAgain(s, input.evt) then m.(installs := m.installs + 1)
    else m
  }

  function Recalled(states: seq<Nr>, inputs: seq<Input>): Memory
    requires |states| == |inputs| + 1
  {
    if inputs == [] then NOTHING_YET
    else
      var n := |inputs| - 1;
      Recall(Recalled(states[..n + 1], inputs[..n]), states[n], inputs[n])
  }

  /** A session in accordance with the record. */
  predicate Accords(s: Nr, m: Memory) {
    match s.state
    case PENDING =>
      && s.lastCreate == m.create && s.rule == Rule(m.asked, map[]) && m.named.None? && MayAsk(m)
      && s.createCounter == m.checks && 1 <= m.checks && (m.checks > 1 ==> m.checks <= s.maxRetries)
    case PENDING_INSTALLING =>
      && s.lastCreate == m.create && s.rule == Rule(m.Wanted(), map[]) && m.named.Some? && MayAsk(m)
      && s.createCounter + 1 == m.installs && m.installs <= s.maxRetries + 1
    case _ => true
  }

  predicate MayAsk(m: Memory) {
    m.create.Some? && m.create.value.msg.kind == CREATE && m.create.value.msg.code.None?
  }

  /** What is checked are the objects of the CREATE, what is installed are those of them that the check has named. */
  predicate CallOk(e: Effect, m: Memory, maxRetries: uint32) {
    && (e.Checked? ==> e.requests == m.asked && m.named.None? && (m.checks > 1 ==> m.checks <= maxRetries))
    && (e.Installed? ==> m.named.Some? && e.rule == Rule(m.Wanted(), map[]) && m.installs <= maxRetries + 1)
    && !e.Responded?
  }

  predicate CallsOk(o: Outcome<Nr>, m: Memory, maxRetries: uint32) {
    !o.Halted? ==>
      && (o.Next? ==> Accords(o.s, m) && o.s.maxRetries == maxRetries)
      && forall k :: 0 <= k < |o.ctx.log| ==> CallOk(o.ctx.log[k], m, maxRetries)
  }

  // One event

  lemma OpenCalls(s: Nr, m: Memory, input: Input, cfg: Config)
    requires s.state == CLOSE && NrTheorems.IsNew(s)
    ensures CallsOk(NrRuns.Act(cfg)(s, input), Recall(m, s, input), s.maxRetries)
  {
  }

  lemma PendingCalls(s: Nr, m: Memory, input: Input, cfg: Config)
    requires s.state == PENDING && Accords(s, m)
    ensures CallsOk(NrRuns.Act(cfg)(s, input), Recall(m, s, input), s.maxRetries)
  {
  }

  lemma RepeatedCalls(s: Nr, m: Memory, ctx: Ctx)
    requires s.state == PENDING_INSTALLING && Accords(s, m) && ctx.log == []
    ensures CallsOk(StepInstallUnanswered(s, ctx), m.(installs := m.installs + 1), s.maxRetries)
  {
  }

  lemma OneReport(response: Packet, timer: Effect, o: Outcome<Nr>, m: Memory, maxRetries: uint32)
    requires o.Next? && Accords(o.s, m) && o.s.maxRetries == maxRetries && o.ctx.log == [Sent(response), timer] && timer.Started?
    ensures CallsOk(o, m, maxRetries)
  {
  }

  lemma ReportedCalls(s: Nr, m: Memory, installed: Objects, ctx: Ctx, cfg: Config)
    requires s.state == PENDING_INSTALLING && Accords(s, m) && ctx.log == [] && |s.rule.requests| == |installed|
    ensures CallsOk(StepInstalled(s, installed, ctx, cfg), m, s.maxRetries)
  {
    var create := s.lastCreate.value;
    NrChart.ReportIsDone(s, create, installed, ctx, cfg);
    var response := ExtendResponse(NrChart.ResponseTo(create, InfoCode(2, 1), Some(s.lifetime), []),
                                   Install(s.rule.responses, ctx.nextKey, installed));
    OneReport(response, Started(ctx.nextTimer, s.lifetime), StepInstalled(s, installed, ctx, cfg), m, s.maxRetries);
  }

  lemma MismatchedCalls(s: Nr, m: Memory, installed: Objects, ctx: Ctx, cfg: Config)
    requires s.state == PENDING_INSTALLING && Accords(s, m) && ctx.log == [] && |s.rule.requests| != |installed|
    ensures CallsOk(StepInstalled(s, installed, ctx, cfg), m, s.maxRetries)
  {
  }

  lemma InstallingCalls(s: Nr, m: Memory, input: Input, cfg: Config)
    requires s.state == PENDING_INSTALLING && Accords(s, m)
    ensures CallsOk(NrRuns.Act(cfg)(s, input), Recall(m, s, input), s.maxRetries)
  {
    if input.evt == Timer(s.stateTimer) {
      RepeatedCalls(s, m, input.Begin());
    } else if input.evt.ApiInstall? && |s.rule.requests| == |input.evt.installed| {
      ReportedCalls(s, m, input.evt.installed, input.Begin(), cfg);
    } else if input.evt.ApiInstall? {
      MismatchedCalls(s, m, input.evt.installed, input.Begin(), cfg);
    } else {
      assert NrRuns.Act(cfg)(s, input) == Next(s, input.Begin());
    }
  }

  lemma EndCalls(s: Nr, m: Memory, ctx: Ctx, cfg: Config)
    requires s.state == AUCTIONING && |ctx.log| <= 1 && (|ctx.log| == 1 ==> ctx.log[0].Sent?)
    ensures CallsOk(Teardown(s, ctx, cfg), m, s.maxRetries)
  {
  }

  lemma MessageCalls(s: Nr, m: Memory, input: Input, cfg: Config)
    requires s.state == AUCTIONING && input.evt.MsgIn?
    ensures CallsOk(NrRuns.Act(cfg)(s, input), Recall(m, s, input), s.maxRetries)
  {
    var granted := Min(input.evt.packet.msg.lifetime.GetOr(0), s.maxLifetime);
    EndCalls(s, m, input.Begin().Send(CreateSuccessResponse(input.evt.packet, granted)), cfg);
  }

  lemma AuctioningCalls(s: Nr, m: Memory, input: Input, cfg: Config)
    requires s.state == AUCTIONING
    ensures CallsOk(NrRuns.Act(cfg)(s, input), Recall(m, s, input), s.maxRetries)
  {
    if input.evt.MsgIn? {
      MessageCalls(s, m, input, cfg);
    } else {
      EndCalls(s, m, input.Begin(), cfg);
    }
  }

  lemma TeardownCalls(s: Nr, m: Memory, input: Input, cfg: Config)
    requires s.state == PENDING_TEARDOWN
    ensures CallsOk(NrRuns.Act(cfg)(s, input), Recall(m, s, input), s.maxRetries)
  {
  }

  lemma ActCalls(s: Nr, m: Memory, input: Input, cfg: Config)
    requires Accords(s, m) && (s.state == CLOSE ==> NrTheorems.IsNew(s))
    ensures CallsOk(NrRuns.Act(cfg)(s, input), Recall(m, s, input), s.maxRetries)
  {
    match s.state
    case CLOSE => OpenCalls(s, m, input, cfg);
    case PENDING => PendingCalls(s, m, input, cfg);
    case PENDING_INSTALLING => InstallingCalls(s, m, input, cfg);
    case AUCTIONING => AuctioningCalls(s, m, input, cfg);
    case PENDING_TEARDOWN => TeardownCalls(s, m, input, cfg);
  }

  // Whole runs

  lemma {:induction false} RunAccords(s: Nr, inputs: seq<Input>, cfg: Config)
    requires NrTheorems.IsNew(s)
    ensures var t := Run(NrRuns.Act(cfg), NrRuns.IsFinal, s, inputs);
            t.Some? ==> Accords(t.value.Last(), Recalled(t.value.states, inputs)) && t.value.Last().maxRetries == s.maxRetries
  {
    if inputs != [] && Run(NrRuns.Act(cfg), NrRuns.IsFinal, s, inputs).Some? {
      var n := |inputs| - 1;
      var shorter, input := inputs[..n], inputs[n];
      RunAccords(s, shorter, cfg);
      var t, t' := Run(NrRuns.Act(cfg), NrRuns.IsFinal, s, shorter).value, Run(NrRuns.Act(cfg), NrRuns.IsFinal, s, inputs).value;
      assert t'.states[..n + 1] == t.states && t'.states[n] == t.Last();
      assert n == 0 ==> t == Trace([s], []);
      ActCalls(t.Last(), Recalled(t.states, shorter), input, cfg);
    }
  }

  /**
   * After any run, whatever comes next: the calls of the installer, first or repeated, check the objects of the CREATE under
   * fresh keys, and install exactly those that the check has named; there are at most K checks, if not just one, and at most
   * K + 1 installations.
   */
  lemma CallsAreAsRecalled(s: Nr, inputs: seq<Input>, input: Input, cfg: Config)
    requires NrTheorems.IsNew(s)
    ensures var t := Run(NrRuns.Act(cfg), NrRuns.IsFinal, s, inputs);
            t.Some? && (inputs != [] ==> t.value.Last().state != CLOSE) ==>
              CallsOk(NrRuns.Act(cfg)(t.value.Last(), input), Recall(Recalled(t.value.states, inputs), t.value.Last(), input), s.maxRetries)
  {
    RunAccords(s, inputs, cfg);
    var t := Run(NrRuns.Act(cfg), NrRuns.IsFinal, s, inputs);
    if t.Some? && (inputs != [] ==> t.value.Last().state != CLOSE) {
      assert inputs == [] ==> t.value == Trace([s], []);
      ActCalls(t.value.Last(), Recalled(t.value.states, inputs), input, cfg);
    }
  }

  /** In the record the objects stand in the order in which the CREATE carries them. */
  lemma {:induction false} AskedListsCreate(states: seq<Nr>, inputs: seq<Input>)
    requires |states| == |inputs| + 1
    ensures var m := Recalled(states, inputs); Listing(m.asked) == m.Objects()
  {
    if inputs == [] {
      ListingOfAssign(0, []);
    } else {
      var n := |inputs| - 1;
      var m := Recalled(states[..n + 1], inputs[..n]);
      AskedListsCreate(states[..n + 1], inputs[..n]);
      if states[n].state == CLOSE && inputs[n].evt.Is(CREATE) {
        ListingOfAssign(inputs[n].ctx.nextKey, inputs[n].evt.packet.msg.objects);
      } else if ChecksAgain(states[n], inputs[n].evt) {
        ListingOfAssign(inputs[n].ctx.nextKey, m.Objects());
      }
    }
  }

  // That the calls are made

  /** The answer to the check has the named requests installed, and an installation that is not confirmed is repeated. */
  lemma Installs(s: Nr, evt: Event, ctx: Ctx, cfg: Config)
    requires ctx.log == [] && s.state != CLOSE
    ensures var o := Step(s, evt, ctx, cfg);
            (s.state == PENDING && evt.ApiCheck?)
            || (s.state == PENDING_INSTALLING && evt == Timer(s.stateTimer) && s.createCounter < s.maxRetries)
            <==> !o.Halted? && |o.ctx.log| > 0 && o.ctx.log[0].Installed?
  {
  }

  /** A CREATE that concerns this node is checked, and the check is repeated. */
  lemma ChecksCreate(s: Nr, p: Packet, forThisNode: bool, ctx: Ctx, cfg: Config)
    requires ctx.log == [] && s.state == CLOSE && p.msg.kind == CREATE && p.mri.pathCoupled && p.msg.code.None?
    requires p.msg.lifetime.GetOr(0) > 0 && s.maxLifetime > 0
    ensures var o := Step(s, MsgIn(p, forThisNode), ctx, cfg);
            && o.Next?
            && (if Participates(RECEIVER, p.msg.sel.GetOr(0)) && cfg.installRules
                then |o.ctx.log| > 0 && o.ctx.log[0] == Checked(Assign(ctx.nextKey, p.msg.objects))
                else o.s.state == AUCTIONING && o.s.rule == EMPTY_RULE && forall k :: 0 <= k < |o.ctx.log| ==> !o.ctx.log[k].Checked?)
  {
  }
}
