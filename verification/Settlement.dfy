/** What happens to a credit reservation once it was made: provider calls, one record, the end of the lease
    (apps/gateway/internal/application/services/proxy.go, Proxy, finishProxy;
      generate_service.go, shouldTryFallback). */
module Settlement {
  import opened Wrappers
  import opened Mappings
  import opened ChatEvents
  import opened Relay
  import opened StreamOutcome
  import opened ProxyStream

  /** An error with its HTTP status, or one that is not the gateway's own. */
  datatype Fault = Gateway(status: int) | Foreign

  datatype Target = Primary | Fallback

  /** A System One response: whether it names its model, how many answers it has, and the tokens it reports. */
  datatype Judgement = Judgement(named: bool, answers: nat, input: Option<int>, output: Option<int>)
  {
    /** The response reports usage that adds up within 64 bits. */
    predicate Valid() {
      && named && answers > 0 && input.Some? && output.Some?
      && input.value >= 0 && output.value >= 0 && input.value <= MAX_INT64 - output.value
    }
  }

  /** What comes of calling a target: the request may not fit it, its provider may be unknown or refuse,
      answer with one body, which may not decode, judge the request, or stream. */
  datatype Reply =
    | Invalid(status: int)
    | Unregistered
    | Refused(fault: Fault)
    | Answered(body: Option<Event>)
    | Judged(judgement: Option<Judgement>)
    | Streaming(lines: seq<Line>, broken: bool)

  datatype Cause = HoldLost | Failed(fault: Fault) | StreamEnded(failure: Failure)

  datatype Effect =
    | CallProvider(target: Target)
    | RecordSuccess(target: Target, usage: Option<Usage>)
    | RecordFailure(target: Target, cause: Cause, usage: Option<Usage>)
    | StopLease
  {
    predicate Records() { RecordSuccess? || RecordFailure? }
  }

  /** What a request meets: the replies, whether the fallback serves the endpoint, whether the client is gone after the
      first attempt, whether the hold was lost by then or by the record, and what the handler does with a stream. */
  datatype Run = Run(
    primary: Reply, fallback: Option<Reply>, supported: bool, clientGone: bool, lostEarly: bool, lostLate: bool,
      calls: seq<Call>)
  {
    predicate Lost() { lostEarly || lostLate }
  }

  const MAX_INT64 := 0x7FFF_FFFF_FFFF_FFFF

  const BAD_GATEWAY := 502

  const UNAVAILABLE := 503

  // ---------- Attempts ----------

  /** Rate limits, server-side failures and foreign errors change the provider. */
  predicate ChangesProvider(f: Fault) { f.Foreign? || f.status == 429 || f.status >= 500 }

  /** Why an attempt fails. */
  function FaultOf(reply: Reply): Option<Fault> {
    match reply
    case Invalid(status) => Some(Gateway(status))
    case Unregistered => Some(Gateway(UNAVAILABLE))
    case Refused(fault) => Some(fault)
    case Answered(body) => if body.None? || Fails(body.value) then Some(Gateway(BAD_GATEWAY)) else None
    case Judged(body) => if body.None? || !body.value.Valid() then Some(Gateway(BAD_GATEWAY)) else None
    case Streaming(lines, broken) => if PrimeFailure(lines, broken).Some? then Some(Gateway(BAD_GATEWAY)) else None
  }

  predicate Called(reply: Reply) { !reply.Invalid? && !reply.Unregistered? }

  /** The fallback is tried: the first attempt failed in a way that another provider may not, while the client waits
      and the hold lasts. */
  predicate FallsBack(run: Run) {
    && FaultOf(run.primary).Some? && ChangesProvider(FaultOf(run.primary).value)
    && !run.clientGone && !run.lostEarly && run.fallback.Some? && run.supported
  }

  function LastTarget(run: Run): Target { if FallsBack(run) then Fallback else Primary }

  function LastReply(run: Run): Reply { if FallsBack(run) then run.fallback.value else run.primary }

  // ---------- The effects ----------

  /** Metering a response, then ending the lease. */
  function Finished(target: Target, o: Outcome, lost: bool): seq<Effect> {
    [if o.err.Some? then RecordFailure(target, if lost then HoldLost else StreamEnded(o.err.value), o.usage)
     else RecordSuccess(target, o.usage),
     StopLease]
  }

  /** Metering a response each time it ends. */
  function FinishedAll(target: Target, ends: seq<Outcome>, lost: bool): seq<Effect> {
    if ends == [] then []
    else FinishedAll(target, ends[..|ends| - 1], lost) + Finished(target, ends[|ends| - 1], lost)
  }

  /** What the gateway reads from a complete response. */
  function OutcomeOf(e: Event): Outcome { Outcome(e.id, FinishReason(e.choices), e.usage, None, Complete, 0, 0) }

  function JudgedOutcome(j: Judgement): Outcome
    requires j.Valid()
  {
    var usage := Usage(j.input.value, j.output.value, j.input.value + j.output.value, 0);
    Outcome("", None, Some(usage), None, Complete, 0, 0)
  }

  ghost function Endings(cfg: Config, reply: Reply, calls: seq<Call>): seq<Outcome> {
    match reply
    case Answered(body) => if body.Some? then [OutcomeOf(body.value)] else []
    case Judged(body) => if body.Some? && body.value.Valid() then [JudgedOutcome(body.value)] else []
    case Streaming(lines, broken) => EndsOf(cfg, lines, broken, ReadsIn(calls), Closes(calls))
    case _ => []
  }

  /** How the last attempt is settled. */
  ghost function Settling(cfg: Config, run: Run): seq<Effect> {
    var fault := FaultOf(LastReply(run));
    if fault.Some? then
      [RecordFailure(LastTarget(run), if run.Lost() then HoldLost else Failed(fault.value), None), StopLease]
    else FinishedAll(LastTarget(run), Endings(cfg, LastReply(run), run.calls), run.Lost())
  }

  ghost function Effects(cfg: Config, run: Run): seq<Effect> {
    (if Called(run.primary) then [CallProvider(Primary)] else [])
    + (if FallsBack(run) && Called(run.fallback.value) then [CallProvider(Fallback)] else [])
    + Settling(cfg, run)
  }

  // ---------- The properties ----------

  function Calls(trace: seq<Effect>): nat
  {
    if trace == [] then 0 else (if trace[0].CallProvider? then 1 else 0) + Calls(trace[1..])
  }

  function Records(trace: seq<Effect>): nat
  {
    if trace == [] then 0 else (if trace[0].Records() then 1 else 0) + Records(trace[1..])
  }

  function Stops(trace: seq<Effect>): nat
  {
    if trace == [] then 0 else (if trace[0].StopLease? then 1 else 0) + Stops(trace[1..])
  }

  /** The request is over: no stream was returned, or the one returned was drained or closed. */
  ghost predicate Over(cfg: Config, run: Run) {
    var reply := LastReply(run);
    reply.Streaming? && PrimeFailure(reply.lines, reply.broken).None? ==>
      Closes(run.calls) || ReadsIn(run.calls) > |Transduced(cfg, reply.lines)|
  }

  lemma {:induction false} CountsConcat(a: seq<Effect>, b: seq<Effect>)
    ensures Calls(a + b) == Calls(a) + Calls(b) && Records(a + b) == Records(a) + Records(b)
      && Stops(a + b) == Stops(a) + Stops(b)
  {
    if a == [] {
      assert a + b == b;
    } else {
      CountsConcat(a[1..], b);
      assert (a + b)[1..] == a[1..] + b;
    }
  }

  lemma CountsOfPair(x: Effect)
    requires x.Records()
    ensures Calls([x, StopLease]) == 0 && Records([x, StopLease]) == 1 && Stops([x, StopLease]) == 1
  {
    assert [x, StopLease][1..] == [StopLease] && [StopLease][1..] == [];
  }

  lemma CountsOfCall(t: Target)
    ensures Calls([CallProvider(t)]) == 1 && Records([CallProvider(t)]) == 0 && Stops([CallProvider(t)]) == 0
  {
    assert [CallProvider(t)][1..] == [];
  }

  lemma OneEnd(target: Target, o: Outcome, lost: bool)
    ensures FinishedAll(target, [o], lost) == Finished(target, o, lost)
  {
    assert [o][..0] == [];
  }

  /** No response ends twice. */
  lemma EndsAtMostOnce(cfg: Config, reply: Reply, calls: seq<Call>)
    ensures |Endings(cfg, reply, calls)| <= 1
  {
    hide Transduced, EndOf, ClosedWith, After, ReadBy, PrimeFailure;
  }

  lemma SettlingIs(cfg: Config, run: Run)
    ensures var tail := Settling(cfg, run);
      if Over(cfg, run) then |tail| == 2 && tail[0].Records() && tail[1] == StopLease else tail == []
  {
    hide Transduced, EndOf, ClosedWith, After, ReadBy, PrimeFailure, FallsBack, FinishedAll, Finished;
    var ends, lost := Endings(cfg, LastReply(run), run.calls), run.Lost();
    EndsAtMostOnce(cfg, LastReply(run), run.calls);
    if FaultOf(LastReply(run)).None? {
      if ends == [] {
        NoEnds(LastTarget(run), lost);
      } else {
        assert ends == [ends[0]];
        OneEnd(LastTarget(run), ends[0], lost);
        FinishedRecords(LastTarget(run), ends[0], lost);
      }
    }
  }

  lemma NoEnds(target: Target, lost: bool)
    ensures FinishedAll(target, [], lost) == []
  {
  }

  lemma FinishedRecords(target: Target, o: Outcome, lost: bool)
    ensures var f := Finished(target, o, lost);
      && |f| == 2 && f[0].Records() && f[1] == StopLease && f[0].target == target && f[0].usage == o.usage
      && (f[0].RecordFailure? <==> o.err.Some?)
      && (f[0].RecordFailure? ==> (f[0].cause.HoldLost? <==> lost))
  {
  }

  /** Exactly once: a reservation is recorded exactly once when the request is over and not before, at most two
      providers are called, and the lease ends exactly with the record, right after it. */
  lemma SettledExactlyOnce(cfg: Config, run: Run)
    ensures var trace := Effects(cfg, run); var settled := if Over(cfg, run) then 1 else 0;
      && Records(trace) == settled && Stops(trace) == settled
      && Calls(trace) <= (if FallsBack(run) then 2 else 1)
      && (Over(cfg, run) ==> |trace| >= 2 && trace[|trace| - 2].Records() && trace[|trace| - 1] == StopLease)
  {
    var first := if Called(run.primary) then [CallProvider(Primary)] else [];
    var second := if FallsBack(run) && Called(run.fallback.value) then [CallProvider(Fallback)] else [];
    var tail := Settling(cfg, run);
    SettlingIs(cfg, run);
    CountsOfCall(Primary);
    CountsOfCall(Fallback);
    hide Settling, FallsBack, Called, Over, Calls, Records, Stops;
    CountsConcat(first, second);
    CountsConcat(first + second, tail);
    if Over(cfg, run) {
      assert tail == [tail[0], StopLease];
      CountsOfPair(tail[0]);
    }
  }

  /** A relayed stream is recorded as failed exactly when a provider error was read, or no finish reason was while it
      was closed early or broke; either way with the last usage read. */
  lemma StreamSettlement(cfg: Config, run: Run)
    requires LastReply(run).Streaming? && FaultOf(LastReply(run)).None? && Over(cfg, run)
    ensures var lines, broken := LastReply(run).lines, LastReply(run).broken;
      var n := ReadsIn(run.calls); var seen, ranOut := lines[..ReadBy(cfg, lines, n)], n > |Transduced(cfg, lines)|;
      var record := Settling(cfg, run)[0];
      && (record.RecordFailure? <==> ErrorSeen(seen) || (!FinishSeen(seen) && (!ranOut || broken)))
      && record.Records() && record.usage == LastUsage(seen) && record.target == LastTarget(run)
      && (record.RecordFailure? && run.Lost() ==> record.cause.HoldLost?)
      && (record.RecordFailure? && !run.Lost() ==>
            record.cause.StreamEnded? && Some(record.cause.failure)
              == if ErrorSeen(seen) then FirstFailure(seen) else if ranOut then Some(StreamFailed)
                 else Some(ClientCanceled))
  {
    var lines, broken := LastReply(run).lines, LastReply(run).broken;
    var n := ReadsIn(run.calls);
    var seen := lines[..ReadBy(cfg, lines, n)];
    SeenIff(seen);
    SettlingIs(cfg, run);
    EndsSeen(cfg, lines, broken, n, Closes(run.calls));
    hide Transduced, EndsOf, ReadBy, FallsBack, PrimeFailure, ErrorSeen, FinishSeen, LastUsage, ReadsIn, Closes;
  }

  lemma EndsSeen(cfg: Config, lines: seq<Line>, broken: bool, n: nat, closed: bool)
    ensures var ends := EndsOf(cfg, lines, broken, n, closed);
      var seen, ranOut := lines[..ReadBy(cfg, lines, n)], n > |Transduced(cfg, lines)|;
      (ends == [] <==> !closed && !ranOut)
      && (ends != [] ==>
            ends[0].usage == LastUsage(seen)
            && (ends[0].err.Some? <==> ErrorSeen(seen) || (!FinishSeen(seen) && (!ranOut || broken)))
            && (ends[0].err.Some? ==>
                  ends[0].err == if ErrorSeen(seen) then FirstFailure(seen)
                                 else if ranOut then Some(StreamFailed) else Some(ClientCanceled)))
  {
    var seen := lines[..ReadBy(cfg, lines, n)];
    SeenIff(seen);
    OutcomeRead(cfg, START, seen);
    FailureIsDecidedByTheLines(cfg, seen, broken);
    assert n > |Transduced(cfg, lines)| ==> seen == lines;
    hide Transduced, ReadBy, After, ErrorSeen, FinishSeen, FirstFailure, LastFinish, LastUsage, LastID, Events,
      Malformations;
  }

  /** The effects of one attempt. */
  ghost function Attempted(cfg: Config, target: Target, reply: Reply, calls: seq<Call>, lost: bool): seq<Effect> {
    (if Called(reply) then [CallProvider(target)] else [])
    + (if FaultOf(reply).Some? then [] else FinishedAll(target, Endings(cfg, reply, calls), lost))
  }

  lemma AttemptedIs(cfg: Config, target: Target, reply: Reply, calls: seq<Call>, lost: bool)
    ensures var fault, all := FaultOf(reply), Attempted(cfg, target, reply, calls, lost);
      && (fault.Some? && Called(reply) ==> all == [CallProvider(target)])
      && (fault.Some? && !Called(reply) ==> all == [])
      && (fault.None? ==> all == [CallProvider(target)] + FinishedAll(target, Endings(cfg, reply, calls), lost))
  {
    hide Endings, FinishedAll, Fails, PrimeFailure;
  }

  lemma EffectsOfAttempts(cfg: Config, run: Run)
    ensures var lost := run.Lost(); var first := Attempted(cfg, Primary, run.primary, run.calls, lost);
      var fault := FaultOf(LastReply(run));
      && (!FallsBack(run) && fault.None? ==> Effects(cfg, run) == first)
      && (fault.Some? ==>
            var cause := if lost then HoldLost else Failed(fault.value);
            Settling(cfg, run) == [RecordFailure(LastTarget(run), cause, None), StopLease])
      && (!FallsBack(run) && fault.Some? ==> Effects(cfg, run) == first + Settling(cfg, run))
      && (FallsBack(run) ==>
            var second := Attempted(cfg, Fallback, run.fallback.value, run.calls, lost);
            Effects(cfg, run) == if fault.None? then first + second else first + second + Settling(cfg, run))
  {
    hide Endings, Finished, FaultOf;
  }

  // ---------- The service ----------

  class Settlement {
    const public: string
    const hideUsage: bool
    const mapping: PIIMapping?
    const calls: seq<Call>
    var trace: seq<Effect>

    constructor (public: string, hideUsage: bool, mapping: PIIMapping?, calls: seq<Call>)
      ensures this.public == public && this.hideUsage == hideUsage && this.mapping == mapping && this.calls == calls
        && trace == []
    {
      this.public, this.hideUsage, this.mapping, this.calls, trace := public, hideUsage, mapping, calls, [];
    }

    ghost function Cfg(): Config
      reads this, mapping
    {
      Config(public, hideUsage, MaskedWith(mapping))
    }

    /** Meters a response, and then ends the lease. */
    method Finish(target: Target, o: Outcome, lost: bool)
      modifies this
      ensures trace == old(trace) + Finished(target, o, lost)
    {
      if o.err.Some? {
        var cause := if lost then HoldLost else StreamEnded(o.err.value);
        trace := trace + [RecordFailure(target, cause, o.usage)];
      } else {
        trace := trace + [RecordSuccess(target, o.usage)];
      }
      trace := trace + [StopLease];
    }

    /** Every end of a stream is metered. */
    method FinishAll(target: Target, ends: seq<Outcome>, lost: bool)
      modifies this
      ensures trace == old(trace) + FinishedAll(target, ends, lost)
    {
      for i := 0 to |ends|
        invariant trace == old(trace) + FinishedAll(target, ends[..i], lost)
      {
        Finish(target, ends[i], lost);
        assert ends[..i + 1][..i] == ends[..i];
      }
      assert ends[..|ends|] == ends;
    }

    /** A streaming answer: given up while priming, or handed out and metered when it ends. */
    method Stream(target: Target, lines: seq<Line>, broken: bool, lost: bool) returns (err: Option<Failure>)
      requires mapping != null ==> mapping.View().WF()
      modifies this
      ensures err == PrimeFailure(lines, broken)
      ensures err.Some? ==> trace == old(trace)
      ensures err.None? ==>
        trace == old(trace)
          + FinishedAll(target, EndsOf(Cfg(), lines, broken, ReadsIn(calls), Closes(calls)), lost)
    {
      hide Transduced, EndsOf, ReadBy, PrimeFailure, FinishedAll, Mapping.WF, ErrorSeen, FinishSeen;
      var sent, ends;
      err, sent, ends := Serve(lines, broken, public, hideUsage, mapping, calls);
      FinishAll(target, ends, lost);
      if err.Some? { NoEnds(target, lost); }
    }

    /** One attempt; without an error the response is the client's, and is metered when it ends. */
    method Attempt(target: Target, reply: Reply, lost: bool) returns (err: Option<Fault>)
      requires mapping != null ==> mapping.View().WF()
      modifies this
      ensures err == FaultOf(reply)
      ensures trace == old(trace) + Attempted(Cfg(), target, reply, calls, lost)
    {
      hide Transduced, EndsOf, ReadBy, PrimeFailure, FinishReason, Finished, FinishedAll, Mapping.WF, Attempted;
      hide OutcomeOf, JudgedOutcome, Fails, ReadsIn, Closes, Judgement.Valid;
      AttemptedIs(Cfg(), target, reply, calls, lost);
      match reply
      case Invalid(status) => err := Some(Gateway(status));
      case Unregistered => err := Some(Gateway(UNAVAILABLE));
      case Refused(fault) =>
        trace := trace + [CallProvider(target)];
        err := Some(fault);
      case Answered(body) =>
        trace := trace + [CallProvider(target)];
        if body.None? || Fails(body.value) { return Some(Gateway(BAD_GATEWAY)); }
        FinishAll(target, [OutcomeOf(body.value)], lost);
        err := None;
      case Judged(body) =>
        trace := trace + [CallProvider(target)];
        if body.None? || !body.value.Valid() { return Some(Gateway(BAD_GATEWAY)); }
        FinishAll(target, [JudgedOutcome(body.value)], lost);
        err := None;
      case Streaming(lines, broken) =>
        trace := trace + [CallProvider(target)];
        var failure := Stream(target, lines, broken, lost);
        err := if failure.Some? then Some(Gateway(BAD_GATEWAY)) else None;
    }

    /** A request with its reservation. */
    method Proxy(run: Run)
      requires mapping != null ==> mapping.View().WF()
      requires run.calls == calls && trace == []
      modifies this
      ensures trace == Effects(Cfg(), run)
    {
      EffectsOfAttempts(Cfg(), run);
      hide Effects, Attempted, Settling, FaultOf, Mapping.WF;
      var executed := Primary;
      var err := Attempt(Primary, run.primary, run.Lost());
      if err.Some? && !run.clientGone && run.fallback.Some? && !run.lostEarly && ChangesProvider(err.value)
        && run.supported {
        executed := Fallback;
        err := Attempt(Fallback, run.fallback.value, run.Lost());
      }
      if err.Some? {
        var cause := if run.Lost() then HoldLost else Failed(err.value);
        trace := trace + [RecordFailure(executed, cause, None)];
        trace := trace + [StopLease];
      }
    }
  }

  /** Runs a request: its effects, settled exactly once. */
  method Settle(run: Run, public: string, hideUsage: bool, mapping: PIIMapping?) returns (trace: seq<Effect>)
    requires mapping != null ==> mapping.View().WF()
    ensures var cfg := Config(public, hideUsage, MaskedWith(mapping));
      && trace == Effects(cfg, run)
      && Records(trace) == Stops(trace) == (if Over(cfg, run) then 1 else 0)
      && Calls(trace) <= 2
  {
    hide Effects, Over, Records, Stops, Calls;
    var service := new Settlement(public, hideUsage, mapping, run.calls);
    service.Proxy(run);
    trace := service.trace;
    SettledExactlyOnce(service.Cfg(), run);
  }
}
