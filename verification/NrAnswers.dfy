/** A responder answers every request exactly once. */
module NrAnswers {
  import opened Bytes
  import opened Protocol
  import opened Runs
  import opened NrSpec
  import NrTheorems
  import NrRuns
  import NrGrants
  import NrChart

  /** The answer to the CREATE is still to come. */
  predicate Owes(s: Nr) {
    s.state == PENDING || s.state == PENDING_INSTALLING
  }

  /** The event decides about a request: the CREATE is refused, given up or served, or a newer REFRESH comes in. */
  predicate Decides(s: Nr, evt: Event, o: Outcome<Nr>) {
    if Owes(s) then o.Next? && !Owes(o.s)
    else NrGrants.Requests(s, evt) && !(o.Next? && Owes(o.s))
  }

  /** The request that a session answers. */
  function Request(s: Nr, evt: Event): Option<Packet> {
    if Owes(s) then s.lastCreate else if evt.MsgIn? then Some(evt.packet) else None
  }

  /** A response to a request, against its direction and with its number; an error says whether it was refused or failed. */
  predicate Answers(response: Packet, s: Nr, evt: Event, o: Outcome<Nr>) {
    var request := Request(s, evt);
    && request.Some? && response.mri == request.value.mri.Inverted() && response.msg.msn == request.value.msg.msn
    && (if s.state == AUCTIONING || (o.Next? && o.s.state == AUCTIONING) then response.msg.code == Some(InfoCode(2, 1))
        else if s.state == CLOSE then response.msg.code == Some(InfoCode(5, 9))
        else response.msg.code == Some(InfoCode(5, 4)))
  }

  predicate AnswerStep(s: Nr, evt: Event, o: Outcome<Nr>) {
    o.Next? ==>
      && |o.ctx.log| <= 3 && SentNow(o.ctx.log, RESPONSE) == One(Decides(s, evt, o))
      && forall k :: 0 <= k < |o.ctx.log| && Sends(o.ctx.log[k], RESPONSE) ==> Answers(o.ctx.log[k].packet, s, evt, o)
  }

  // One event

  lemma OpenAnswers(s: Nr, evt: Event, ctx: Ctx, cfg: Config)
    requires ctx.log == [] && s.state == CLOSE
    ensures AnswerStep(s, evt, Step(s, evt, ctx, cfg))
  {
  }

  lemma PendingAnswers(s: Nr, evt: Event, ctx: Ctx, cfg: Config)
    requires ctx.log == [] && s.state == PENDING
    ensures AnswerStep(s, evt, Step(s, evt, ctx, cfg))
  {
  }

  lemma OneReport(s: Nr, evt: Event, create: Packet, response: Packet, timer: Effect, o: Outcome<Nr>)
    requires s.state == PENDING_INSTALLING && s.lastCreate == Some(create) && o.Next? && o.s.state == AUCTIONING
    requires o.ctx.log == [Sent(response), timer] && timer.Started? && response.msg.kind == RESPONSE
    requires response.mri == create.mri.Inverted() && response.msg.msn == create.msg.msn && response.msg.code == Some(InfoCode(2, 1))
    ensures AnswerStep(s, evt, o)
  {
  }

  lemma ReportAnswers(s: Nr, installed: Objects, ctx: Ctx, cfg: Config)
    requires ctx.log == [] && s.state == PENDING_INSTALLING && |installed| == |s.rule.requests|
    ensures AnswerStep(s, ApiInstall(installed), StepInstalled(s, installed, ctx, cfg))
  {
    if s.lastCreate.Some? {
      var create := s.lastCreate.value;
      NrChart.ReportIsDone(s, create, installed, ctx, cfg);
      var response := ExtendResponse(NrChart.ResponseTo(create, InfoCode(2, 1), Some(s.lifetime), []),
                                     Install(s.rule.responses, ctx.nextKey, installed));
      OneReport(s, ApiInstall(installed), create, response, Started(ctx.nextTimer, s.lifetime), StepInstalled(s, installed, ctx, cfg));
    }
  }

  lemma MismatchAnswers(s: Nr, installed: Objects, ctx: Ctx, cfg: Config)
    requires ctx.log == [] && s.state == PENDING_INSTALLING && |installed| != |s.rule.requests|
    ensures AnswerStep(s, ApiInstall(installed), StepInstalled(s, installed, ctx, cfg))
  {
  }

  lemma InstallingAnswers(s: Nr, evt: Event, ctx: Ctx, cfg: Config)
    requires ctx.log == [] && s.state == PENDING_INSTALLING && !evt.ApiInstall?
    ensures AnswerStep(s, evt, Step(s, evt, ctx, cfg))
  {
  }

  lemma AuctioningAnswers(s: Nr, evt: Event, ctx: Ctx, cfg: Config)
    requires ctx.log == [] && s.state == AUCTIONING
    ensures AnswerStep(s, evt, Step(s, evt, ctx, cfg))
  {
  }

  lemma TeardownAnswers(s: Nr, evt: Event, ctx: Ctx, cfg: Config)
    requires ctx.log == [] && s.state == PENDING_TEARDOWN
    ensures AnswerStep(s, evt, Step(s, evt, ctx, cfg))
  {
  }

  lemma ActAnswers(s: Nr, input: Input, cfg: Config)
    ensures AnswerStep(s, input.evt, NrRuns.Act(cfg)(s, input))
  {
    var evt, ctx := input.evt, input.Begin();
    match s.state
    case CLOSE => OpenAnswers(s, evt, ctx, cfg);
    case PENDING => PendingAnswers(s, evt, ctx, cfg);
    case PENDING_INSTALLING =>
      if !evt.ApiInstall? {
        InstallingAnswers(s, evt, ctx, cfg);
      } else if |evt.installed| == |s.rule.requests| {
        ReportAnswers(s, evt.installed, ctx, cfg);
      } else {
        MismatchAnswers(s, evt.installed, ctx, cfg);
      }
    case AUCTIONING => AuctioningAnswers(s, evt, ctx, cfg);
    case PENDING_TEARDOWN => TeardownAnswers(s, evt, ctx, cfg);
  }

  // Whole runs

  /** The requests that came in along a run: the CREATE, and each newer REFRESH. */
  function Requested(states: seq<Nr>, inputs: seq<Input>): nat
    requires |states| == |inputs| + 1
  {
    if inputs == [] then 0
    else
      var n := |inputs| - 1;
      Requested(states[..n + 1], inputs[..n]) + One(NrGrants.Requests(states[n], inputs[n].evt))
  }

  /** In every run there are as many responses as requests, but for the CREATE that is still being worked on. */
  lemma {:induction false} OneAnswerEach(s: Nr, inputs: seq<Input>, cfg: Config)
    requires NrTheorems.IsNew(s)
    ensures var t := Run(NrRuns.Act(cfg), NrRuns.IsFinal, s, inputs);
            t.Some? ==> CountSent(t.value.log, RESPONSE) + One(Owes(t.value.Last())) == Requested(t.value.states, inputs)
  {
    if inputs != [] && Run(NrRuns.Act(cfg), NrRuns.IsFinal, s, inputs).Some? {
      var n := |inputs| - 1;
      var shorter, input := inputs[..n], inputs[n];
      OneAnswerEach(s, shorter, cfg);
      var t, t' := Run(NrRuns.Act(cfg), NrRuns.IsFinal, s, shorter).value, Run(NrRuns.Act(cfg), NrRuns.IsFinal, s, inputs).value;
      assert t'.states[..n + 1] == t.states && t'.states[n] == t.Last();
      ActAnswers(t.Last(), input, cfg);
      Owed(t.Last(), input, cfg);
      var log := NrRuns.Act(cfg)(t.Last(), input).ctx.log;
      CountsNow(log, RESPONSE);
      CountsAdd(t.log, log, RESPONSE);
    }
  }

  /** A session owes an answer only after a request, and until it has decided. */
  lemma Owed(s: Nr, input: Input, cfg: Config)
    ensures var o := NrRuns.Act(cfg)(s, input);
            o.Next? ==> One(Owes(s)) + One(NrGrants.Requests(s, input.evt)) == One(Owes(o.s)) + One(Decides(s, input.evt, o))
  {
  }
}
