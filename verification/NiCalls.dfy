/** What an initiator hands to its client. */
module NiCalls {
  import opened Bytes
  import opened Protocol
  import opened Runs
  import opened NiSpec
  import NiRuns
  import NiIntervals

  /** The objects of the response, under the keys of the rule that the client is to install. */
  datatype Memory = Memory(answered: seq<Payload>, asked: Objects)

  const NOTHING_YET := Memory([], map[])

  function Recall(m: Memory, s: Ni, input: Input): Memory {
    if NiIntervals.Grants(s, input.evt) then
      Memory(input.evt.packet.msg.objects, Assign(input.ctx.nextKey, input.evt.packet.msg.objects))
    else m
  }

  function Recalled(states: seq<Ni>, inputs: seq<Input>): Memory
    requires |states| == |inputs| + 1
  {
    if inputs == [] then NOTHING_YET
    else
      var n := |inputs| - 1;
      Recall(Recalled(states[..n + 1], inputs[..n]), states[n], inputs[n])
  }

  /** A session in accordance with the record. */
  predicate Accords(s: Ni, m: Memory) {
    match s.state
    case PENDING_INSTALLING => s.installRule == Rule(m.asked, map[])
    case AUCTIONING => s.rule.requests == m.asked && |s.rule.responses| == |m.asked|
    case PENDING_TEARDOWN => s.rule.requests == m.asked && |s.rule.responses| == |m.asked|
    case _ => true
  }

  /** The client is asked to install the objects of the response, and nothing but these. */
  predicate CallOk(e: Effect, m: Memory) {
    && (e.Responded? ==> e.rule == Rule(m.asked, map[]))
    && (e.Removed? ==> e.rule.requests == m.asked && |e.rule.responses| == |m.asked|)
    && !e.Checked? && !e.Installed?
  }

  predicate CallsOk(o: Outcome<Ni>, m: Memory) {
    !o.Halted? ==>
      && (o.Next? ==> Accords(o.s, m))
      && forall k :: 0 <= k < |o.ctx.log| ==> CallOk(o.ctx.log[k], m)
  }

  // One event

  lemma OpenCalls(s: Ni, m: Memory, input: Input)
    requires s.state == CLOSE
    ensures CallsOk(NiRuns.Act(s, input), Recall(m, s, input))
  {
  }

  lemma PendingCalls(s: Ni, m: Memory, input: Input)
    requires s.state == PENDING
    ensures CallsOk(NiRuns.Act(s, input), Recall(m, s, input))
  {
  }

  lemma AbandonCalls(s: Ni, m: Memory, ctx: Ctx)
    requires s.installRule.responses == map[] && ctx.log == []
    ensures CallsOk(Abandon(s, ctx), m)
  {
  }

  lemma InstallationEnters(s: Ni, installed: Objects, ctx: Ctx)
    requires s.state == PENDING_INSTALLING && |installed| == |s.installRule.requests| && ctx.log == []
    ensures var o := StepPendingInstalling(s, ApiInstall(installed), ctx);
            && o.Next? && o.s.state == AUCTIONING && o.ctx.log == [Started(ctx.nextTimer, s.refreshInterval)]
            && o.s.rule == Rule(s.installRule.requests, Install(s.installRule.responses, ctx.nextKey, installed))
  {
  }

  /** As many objects are installed as the client was asked to install. */
  lemma InstalledCalls(s: Ni, m: Memory, installed: Objects, ctx: Ctx)
    requires s.state == PENDING_INSTALLING && Accords(s, m) && |installed| == |m.asked| && ctx.log == []
    ensures CallsOk(StepPendingInstalling(s, ApiInstall(installed), ctx), m)
  {
    InstallFirst(ctx.nextKey, installed);
    InstallationEnters(s, installed, ctx);
    OnlyTimer(StepPendingInstalling(s, ApiInstall(installed), ctx), Started(ctx.nextTimer, s.refreshInterval), m);
  }

  lemma OnlyTimer(o: Outcome<Ni>, timer: Effect, m: Memory)
    requires o.Next? && Accords(o.s, m) && o.ctx.log == [timer] && timer.Started?
    ensures CallsOk(o, m)
  {
  }

  lemma InstallingCalls(s: Ni, m: Memory, input: Input)
    requires s.state == PENDING_INSTALLING && Accords(s, m)
    ensures CallsOk(NiRuns.Act(s, input), Recall(m, s, input))
  {
    AbandonCalls(s, m, input.Begin());
    AbandonCalls(s.(rule := EMPTY_RULE), m, input.Begin());
    if input.evt.ApiInstall? && |input.evt.installed| == |m.asked| {
      InstalledCalls(s, m, input.evt.installed, input.Begin());
    }
  }

  lemma AlarmCalls(s: Ni, m: Memory, ctx: Ctx)
    requires s.state == AUCTIONING && Accords(s, m) && ctx.log == []
    ensures CallsOk(Teardown(s, ctx), m) && CallsOk(StepRefreshTimer(s, ctx), m)
  {
  }

  lemma AuctioningCalls(s: Ni, m: Memory, input: Input)
    requires s.state == AUCTIONING && Accords(s, m)
    ensures CallsOk(NiRuns.Act(s, input), Recall(m, s, input))
  {
    AlarmCalls(s, m, input.Begin());
  }

  lemma TeardownCalls(s: Ni, m: Memory, input: Input)
    requires s.state == PENDING_TEARDOWN && Accords(s, m)
    ensures CallsOk(NiRuns.Act(s, input), Recall(m, s, input))
  {
  }

  lemma ActCalls(s: Ni, m: Memory, input: Input)
    requires Accords(s, m)
    ensures CallsOk(NiRuns.Act(s, input), Recall(m, s, input))
  {
    match s.state
    case CLOSE => OpenCalls(s, m, input);
    case PENDING => PendingCalls(s, m, input);
    case PENDING_INSTALLING => InstallingCalls(s, m, input);
    case AUCTIONING => AuctioningCalls(s, m, input);
    case PENDING_TEARDOWN => TeardownCalls(s, m, input);
  }

  // Whole runs

  lemma {:induction false} RunAccords(s: Ni, inputs: seq<Input>)
    requires s.state == CLOSE
    ensures var t := Run(NiRuns.Act, NiRuns.IsFinal, s, inputs);
            t.Some? ==> Accords(t.value.Last(), Recalled(t.value.states, inputs))
  {
    if inputs != [] && Run(NiRuns.Act, NiRuns.IsFinal, s, inputs).Some? {
      var n := |inputs| - 1;
      var shorter, input := inputs[..n], inputs[n];
      RunAccords(s, shorter);
      var t, t' := Run(NiRuns.Act, NiRuns.IsFinal, s, shorter).value, Run(NiRuns.Act, NiRuns.IsFinal, s, inputs).value;
      assert t'.states[..n + 1] == t.states && t'.states[n] == t.Last();
      ActCalls(t.Last(), Recalled(t.states, shorter), input);
    }
  }

  /**
   * After any run, whatever comes next: the client is asked, first or again, to install exactly the objects of the
   * response, and what is removed at the end is a rule with as many objects.
   */
  lemma CallsAreAsRecalled(s: Ni, inputs: seq<Input>, input: Input)
    requires s.state == CLOSE
    ensures var t := Run(NiRuns.Act, NiRuns.IsFinal, s, inputs);
            t.Some? ==>
              CallsOk(NiRuns.Act(t.value.Last(), input), Recall(Recalled(t.value.states, inputs), t.value.Last(), input))
  {
    RunAccords(s, inputs);
    var t := Run(NiRuns.Act, NiRuns.IsFinal, s, inputs);
    if t.Some? {
      ActCalls(t.value.Last(), Recalled(t.value.states, inputs), input);
    }
  }

  /** In the record the objects stand in the order in which the response carries them. */
  lemma {:induction false} AskedListsResponse(states: seq<Ni>, inputs: seq<Input>)
    requires |states| == |inputs| + 1
    ensures var m := Recalled(states, inputs); Listing(m.asked) == m.answered
  {
    if inputs == [] {
      ListingOfAssign(0, []);
    } else {
      var n := |inputs| - 1;
      AskedListsResponse(states[..n + 1], inputs[..n]);
      if NiIntervals.Grants(states[n], inputs[n].evt) {
        ListingOfAssign(inputs[n].ctx.nextKey, inputs[n].evt.packet.msg.objects);
      }
    }
  }

  // That the calls are made

  /** The client is asked when the path grants the session, */
  lemma AsksFirst(s: Ni, evt: Event, ctx: Ctx, random: nat)
    requires ctx.log == [] && NiIntervals.Grants(s, evt) && evt.packet.msg.MspecObjects().Some?
    ensures var o := Step(s, evt, ctx, random);
            && !o.Halted? && |o.ctx.log| == 2 && o.ctx.log[0] == Started(ctx.nextTimer, s.responseTimeout)
            && o.ctx.log[1] == Responded(Rule(Assign(ctx.nextKey, evt.packet.msg.objects), map[]))
            && (o.Next? ==> o.s.state == PENDING_INSTALLING && o.s.createCounter == 0 && o.s.responseTimer == ctx.nextTimer)
  {
  }

  /** and again while it does not answer. */
  lemma AsksAgain(s: Ni, ctx: Ctx, random: nat)
    requires ctx.log == [] && s.state == PENDING_INSTALLING && s.createCounter < s.maxRetries
    ensures var o := Step(s, Timer(s.responseTimer), ctx, random);
            && !o.Halted? && |o.ctx.log| > 0 && o.ctx.log[0] == Responded(s.installRule)
            && (o.Next? ==> o.s.state == PENDING_INSTALLING && o.s.createCounter == s.createCounter + 1)
  {
  }
}
