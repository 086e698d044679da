/** How an initiator ends its session: once the client has asked for it, nothing brings the session back. */
module NiTeardown {
  import opened Bytes
  import opened Protocol
  import opened Runs
  import opened SerialNumber
  import opened NiSpec
  import NiRuns
  import PathRefresh
  import PathRounds

  /** An auctioning session that is to end: its lifetime and that of its last REFRESH are 0. */
  predicate IsEnding(s: Ni) {
    && s.state == AUCTIONING && s.lifetime == 0
    && s.lastRefresh.Some? && s.lastRefresh.value.msg.kind == REFRESH && s.lastRefresh.value.msg.lifetime == Some(0)
  }

  /** A REFRESH that ends the sessions it reaches. */
  predicate Ends(e: Effect) {
    e.Sent? && e.packet.msg.kind == REFRESH ==> e.packet.msg.lifetime == Some(0) && e.packet.mri == Mri(true, true)
  }

  // One event

  /** The event ends the session or leaves it ending; it sends no REFRESH but one with lifetime 0. */
  predicate EndingStep(o: Outcome<Ni>) {
    o.Next? ==>
      && (IsEnding(o.s) || o.s.state == PENDING_TEARDOWN || o.s.state == CLOSE)
      && forall k :: 0 <= k < |o.ctx.log| ==> Ends(o.ctx.log[k])
  }

  /** All REFRESHes of a session go downstream. */
  predicate KeptDownstream(s: Ni) {
    s.lastRefresh.Some? ==> s.lastRefresh.value.mri == Mri(true, true)
  }

  lemma MessageStaysEnding(s: Ni, evt: Event, ctx: Ctx, random: nat)
    requires ctx.log == [] && IsEnding(s) && evt.MsgIn?
    ensures EndingStep(Step(s, evt, ctx, random))
  {
  }

  lemma AlarmStaysEnding(s: Ni, evt: Event, ctx: Ctx, random: nat)
    requires ctx.log == [] && IsEnding(s) && KeptDownstream(s) && evt.Timer?
    ensures EndingStep(Step(s, evt, ctx, random))
  {
  }

  lemma OtherStaysEnding(s: Ni, evt: Event, ctx: Ctx, random: nat)
    requires ctx.log == [] && IsEnding(s) && !evt.MsgIn? && !evt.Timer?
    ensures EndingStep(Step(s, evt, ctx, random))
  {
  }

  lemma TornDownStays(s: Ni, evt: Event, ctx: Ctx, random: nat)
    requires ctx.log == [] && s.state == PENDING_TEARDOWN
    ensures EndingStep(Step(s, evt, ctx, random))
  {
  }

  lemma ActStaysEnding(s: Ni, input: Input)
    requires (IsEnding(s) && KeptDownstream(s)) || s.state == PENDING_TEARDOWN
    ensures EndingStep(NiRuns.Act(s, input))
  {
    if s.state == PENDING_TEARDOWN {
      TornDownStays(s, input.evt, input.Begin(), input.random);
    } else if input.evt.MsgIn? {
      MessageStaysEnding(s, input.evt, input.Begin(), input.random);
    } else if input.evt.Timer? {
      AlarmStaysEnding(s, input.evt, input.Begin(), input.random);
    } else {
      OtherStaysEnding(s, input.evt, input.Begin(), input.random);
    }
  }

  lemma ActKeepsDownstream(s: Ni, input: Input)
    requires KeptDownstream(s)
    ensures var o := NiRuns.Act(s, input); o.Next? ==> KeptDownstream(o.s)
  {
  }

  /** The client's request in AUCTIONING: one REFRESH, with lifetime 0 and the next number. */
  lemma TeardownBegins(s: Ni, ctx: Ctx, random: nat)
    requires s.state == AUCTIONING && ctx.log == []
    ensures var o := Step(s, ApiTeardown, ctx, random);
            && o.Next? && IsEnding(o.s) && KeptDownstream(o.s) && o.s.rule == s.rule
            && o.ctx.log == [Sent(PathRounds.RefreshOf(s, 0))] && o.s.lastRefresh == Some(PathRounds.RefreshOf(s, 0))
  {
    PathRounds.TeardownStarts(s, ctx);
  }

  /** The answer to the last REFRESH, a success or an error, ends a session that is to end. */
  lemma AnswerEnds(s: Ni, evt: Event, ctx: Ctx, random: nat)
    requires IsEnding(s) && evt.Answers(s.lastRefresh.value)
    ensures PathRounds.NiTornDown(s, ctx.log, ctx, Step(s, evt, ctx, random))
  {
  }

  // Whole runs

  /** After the request the session is ending until it waits for the confirmation or is closed. */
  ghost predicate EndingRun(t: Trace<Ni>) {
    && t.states != []
    && ((IsEnding(t.Last()) && KeptDownstream(t.Last())) || t.Last().state == PENDING_TEARDOWN || t.Last().state == CLOSE)
    && forall k :: 0 <= k < |t.log| ==> Ends(t.log[k])
  }

  lemma EndingRunGrows(t: Trace<Ni>, o: Outcome<Ni>)
    requires EndingRun(t) && t.Last().state != CLOSE && o.Next? && EndingStep(o)
    requires IsEnding(o.s) ==> KeptDownstream(o.s)
    ensures EndingRun(t.Extend(o))
  {
    var t' := t.Extend(o);
    forall k | 0 <= k < |t'.log| ensures Ends(t'.log[k]) {
      if k >= |t.log| {
        assert t'.log[k] == o.ctx.log[k - |t.log|];
      }
    }
  }

  /** Whatever happens afterwards, the lifetime stays 0 and every REFRESH carries it, first sent or repeated. */
  lemma {:induction false} TeardownIsFinal(s: Ni, inputs: seq<Input>)
    requires IsEnding(s) && KeptDownstream(s)
    ensures var t := Run(NiRuns.Act, NiRuns.IsFinal, s, inputs); t.Some? ==> EndingRun(t.value)
  {
    if inputs != [] && Run(NiRuns.Act, NiRuns.IsFinal, s, inputs).Some? {
      var shorter, input := inputs[..|inputs| - 1], inputs[|inputs| - 1];
      TeardownIsFinal(s, shorter);
      var t := Run(NiRuns.Act, NiRuns.IsFinal, s, shorter).value;
      assert shorter == [] ==> t == Trace([s], []);
      ActStaysEnding(t.Last(), input);
      if IsEnding(t.Last()) {
        ActKeepsDownstream(t.Last(), input);
      }
      EndingRunGrows(t, NiRuns.Act(t.Last(), input));
    }
  }

  // Ends before the auction

  /** A client that gives up while the CREATE is pending: the path is told, and the session closes. */
  lemma TeardownOfPending(s: Ni, ctx: Ctx, random: nat)
    requires s.state == PENDING && ctx.log == []
    ensures var o := Step(s, ApiTeardown, ctx, random);
            o.Next? && o.s.state == CLOSE && o.ctx.log == [Sent(PathRounds.RefreshOf(s, 0))]
  {
  }

  /**
   * While the client installs, the session closes only by telling the path so: on its request, after too many repetitions,
   * and when the client has installed another number of objects than the path has.
   */
  lemma GivingUpTellsPath(s: Ni, evt: Event, ctx: Ctx, random: nat)
    requires s.state == PENDING_INSTALLING && s.installRule.responses == map[] && ctx.log == []
    ensures var o := Step(s, evt, ctx, random);
            o.Next? && o.s.state == CLOSE ==> o.ctx.log == [Sent(PathRounds.RefreshOf(s, 0))] && o.s.lifetime == 0
    ensures evt.ApiTeardown? || (evt.ApiInstall? && |evt.installed| != |s.installRule.requests|)
            || (evt == Timer(s.responseTimer) && s.createCounter >= s.maxRetries)
            <==> var o := Step(s, evt, ctx, random); o.Next? && o.s.state == CLOSE
  {
  }
}
