/** What a request is recorded as, from what its providers answered
    (apps/gateway/internal/application/services/proxy.go, Proxy, observeJSON, observeSystemOne). */
module SettlementLaws {
  import opened Wrappers
  import opened ChatEvents
  import opened Relay
  import opened StreamOutcome
  import opened ProxyStream
  import opened Settlement

  /** A System One response with its usage: it names its model, has answers, and its counts add up within 64 bits. */
  predicate Reports(body: Option<Judgement>, input: int, output: int) {
    && body.Some? && body.value.named && body.value.answers > 0
    && body.value.input == Some(input) && body.value.output == Some(output)
    && input >= 0 && output >= 0 && input + output <= 9_223_372_036_854_775_807
  }

  /** Why a reply is no response. */
  ghost predicate FailsAs(reply: Reply, f: Fault) {
    match reply
    case Invalid(status) => f == Gateway(status)
    case Unregistered => f == Gateway(503)
    case Refused(fault) => f == fault
    case Answered(body) => (body.None? || Fails(body.value)) && f == Gateway(502)
    case Judged(body) => (forall i, o :: !Reports(body, i, o)) && f == Gateway(502)
    case Streaming(lines, broken) =>
      !OutputFirst(lines) && !(Silent(lines) && !broken && Events(lines) > 0) && f == Gateway(502)
  }

  /** The primary failed in a way that another provider may not, while the client waits and the hold lasts. */
  ghost predicate GoesOn(run: Run) {
    && !run.clientGone && !run.lostEarly && run.fallback.Some? && run.supported
    && exists f :: FailsAs(run.primary, f) && (f.Foreign? || f.status == 429 || f.status >= 500)
  }

  lemma FailsAsFault(reply: Reply)
    ensures forall f :: FailsAs(reply, f) <==> FaultOf(reply) == Some(f)
  {
    hide OutputFirst, Silent, Events, PrimeFailure, Fails;
    match reply
    case Judged(body) =>
      ReportsValid(body);
      hide Reports, Judgement.Valid;
    case Streaming(lines, broken) => PrimedIff(lines, broken);
    case _ =>
  }

  lemma ReportsValid(body: Option<Judgement>)
    ensures (body.Some? && body.value.Valid()) <==> exists i, o :: Reports(body, i, o)
  {
    if body.Some? && body.value.Valid() { assert Reports(body, body.value.input.value, body.value.output.value); }
  }

  lemma GoesOnIff(run: Run)
    ensures GoesOn(run) <==> FallsBack(run)
  {
    FailsAsFault(run.primary);
    hide FailsAs, FaultOf;
    if FallsBack(run) { assert FailsAs(run.primary, FaultOf(run.primary).value); }
  }

  /** The provider is asked unless the request does not fit its model or nobody knows it. */
  predicate Asked(reply: Reply) { !reply.Invalid? && !reply.Unregistered? }

  /** Which providers are asked, and in which order. */
  ghost function CallsMade(run: Run): seq<Effect> {
    (if Asked(run.primary) then [CallProvider(Primary)] else [])
    + (if GoesOn(run) && Asked(run.fallback.value) then [CallProvider(Fallback)] else [])
  }

  lemma EffectsAre(cfg: Config, run: Run)
    ensures Effects(cfg, run) == CallsMade(run) + Settling(cfg, run)
  {
    GoesOnIff(run);
    hide Settling, GoesOn, FallsBack;
  }

  /** What a request that is not streamed leaves behind: the calls, one record for the target that answered last, and
      the end of the lease. A failed attempt is recorded with its cause, or the lost hold; a complete answer with the
      usage it reports. */
  lemma CompleteSettlement(cfg: Config, run: Run)
    ensures var target, reply := if GoesOn(run) then Fallback else Primary,
      if GoesOn(run) then run.fallback.value else run.primary;
      var trace, calls := Effects(cfg, run), CallsMade(run);
      && (forall f | FailsAs(reply, f) ::
            var cause := if run.lostEarly || run.lostLate then HoldLost else Failed(f);
            trace == calls + [RecordFailure(target, cause, None), StopLease])
      && (reply.Answered? && reply.body.Some? && !Fails(reply.body.value) ==>
            trace == calls + [RecordSuccess(target, reply.body.value.usage), StopLease])
      && (forall i, o | reply.Judged? && Reports(reply.judgement, i, o) ::
            trace == calls + [RecordSuccess(target, Some(Usage(i, o, i + o, 0))), StopLease])
  {
    EffectsAre(cfg, run);
    GoesOnIff(run);
    var target, reply := LastTarget(run), LastReply(run);
    assert target == (if GoesOn(run) then Fallback else Primary)
      && reply == if GoesOn(run) then run.fallback.value else run.primary;
    FailsAsFault(reply);
    hide Effects, GoesOn, FailsAs, CallsMade, FallsBack, LastReply, LastTarget, Fails, FinishedAll, EndsOf;
    if reply.Answered? && reply.body.Some? && !Fails(reply.body.value) {
      OneEnd(target, OutcomeOf(reply.body.value), run.Lost());
    }
    forall i, o | reply.Judged? && Reports(reply.judgement, i, o)
      ensures Settling(cfg, run) == [RecordSuccess(target, Some(Usage(i, o, i + o, 0))), StopLease]
    {
      OneEnd(target, JudgedOutcome(reply.judgement.value), run.Lost());
    }
  }
}
