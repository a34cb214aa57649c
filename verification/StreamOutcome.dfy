/** What the outcome of a relayed response says about the lines that were read
    (apps/gateway/internal/application/services/proxy.go, observe, end). */
module StreamOutcome {
  import opened Wrappers
  import opened ChatEvents
  import opened Relay

  // ---------- What happened in the lines ----------

  predicate FailsAt(line: Line) { line.Data? && Fails(line.event) }

  predicate FinishesAt(line: Line) { line.Data? && FinishReason(line.event.choices).Some? }

  /** A provider error is among the lines. */
  predicate ErrorSeen(lines: seq<Line>) { exists i | 0 <= i < |lines| :: FailsAt(lines[i]) }

  /** A finish reason is among the lines. */
  predicate FinishSeen(lines: seq<Line>) { exists i | 0 <= i < |lines| :: FinishesAt(lines[i]) }

  predicate DoneSeen(lines: seq<Line>) { exists i | 0 <= i < |lines| :: lines[i].Done? }

  function FailureAt(line: Line): Option<Failure> { if line.Data? then FailureOf(line.event) else None }

  function FinishAt(line: Line): Option<string> { if line.Data? then FinishReason(line.event.choices) else None }

  /** The first provider error. */
  function FirstFailure(lines: seq<Line>): Option<Failure> {
    if lines == [] then None else if FailsAt(lines[0]) then FailureAt(lines[0]) else FirstFailure(lines[1..])
  }

  /** The last finish reason. */
  function LastFinish(lines: seq<Line>): Option<string> {
    if lines == [] then None else if LastFinish(lines[1..]).Some? then LastFinish(lines[1..]) else FinishAt(lines[0])
  }

  /** The last usage reported. */
  function LastUsage(lines: seq<Line>): Option<Usage> {
    if lines == [] then None
    else if LastUsage(lines[1..]).Some? then LastUsage(lines[1..])
    else if lines[0].Data? then lines[0].event.usage else None
  }

  /** The last nonempty response id. */
  function LastID(lines: seq<Line>): string {
    if lines == [] then ""
    else if LastID(lines[1..]) != "" then LastID(lines[1..])
    else if lines[0].Data? then lines[0].event.id else ""
  }

  function Events(lines: seq<Line>): nat
  {
    if lines == [] then 0 else (if lines[0].Data? then 1 else 0) + Events(lines[1..])
  }

  function Malformations(lines: seq<Line>): nat
  {
    if lines == [] then 0 else (if lines[0].Malformed? then 1 else 0) + Malformations(lines[1..])
  }

  lemma {:induction false} SeenIff(lines: seq<Line>)
    ensures FirstFailure(lines).Some? <==> ErrorSeen(lines)
    ensures LastFinish(lines).Some? <==> FinishSeen(lines)
    ensures Events(lines) > 0 <==> exists i | 0 <= i < |lines| :: lines[i].Data?
  {
    if lines != [] {
      SeenIff(lines[1..]);
      assert forall i | 1 <= i < |lines| :: lines[i] == lines[1..][i - 1];
      assert forall i | 0 <= i < |lines| - 1 :: lines[1..][i] == lines[i + 1];
    }
  }

  predicate OutcomeAfter(o: Outcome, before: Outcome, lines: seq<Line>) {
    && o.err == (if before.err.Some? then before.err else FirstFailure(lines))
    && o.finish == (if LastFinish(lines).Some? then LastFinish(lines) else before.finish)
    && o.usage == (if LastUsage(lines).Some? then LastUsage(lines) else before.usage)
    && o.providerID == (if LastID(lines) != "" then LastID(lines) else before.providerID)
    && o.chunks == before.chunks + Events(lines) && o.malformed == before.malformed + Malformations(lines)
    && o.end == before.end
  }

  lemma OneLineNoted(cfg: Config, s: State, line: Line)
    ensures var o := Observe(cfg, s, line).o;
      && o.err == (if s.o.err.Some? then s.o.err else FailureAt(line))
      && o.finish == (if FinishAt(line).Some? then FinishAt(line) else s.o.finish)
      && o.usage == (if line.Data? && line.event.usage.Some? then line.event.usage else s.o.usage)
      && o.providerID == (if line.Data? && line.event.id != "" then line.event.id else s.o.providerID)
      && o.chunks == s.o.chunks + (if line.Data? then 1 else 0)
        && o.malformed == s.o.malformed + (if line.Malformed? then 1 else 0)
      && o.end == s.o.end
    ensures Observe(cfg, s, line).sawDone <==> s.sawDone || line.Done?
  {
    hide HeldBack, RolesAfter;
  }

  lemma {:induction false} OutcomeRead(cfg: Config, s: State, lines: seq<Line>)
    ensures OutcomeAfter(After(cfg, s, lines).o, s.o, lines)
    ensures After(cfg, s, lines).sawDone <==> s.sawDone || DoneSeen(lines)
    decreases |lines|
  {
    if lines != [] {
      OneLineNoted(cfg, s, lines[0]);
      hide Observe, FinishReason, FailureOf;
      OutcomeRead(cfg, Observe(cfg, s, lines[0]), lines[1..]);
      assert forall i | 1 <= i < |lines| :: lines[i] == lines[1..][i - 1];
      assert forall i | 0 <= i < |lines| - 1 :: lines[1..][i] == lines[i + 1];
    }
  }

  // ---------- Priming ----------

  /** Priming ends at a line that fails, ends the stream or carries output. */
  predicate Primes(line: Line) { line.Done? || (line.Data? && (Fails(line.event) || Commits(line.event))) }

  /** How many lines priming reads. */
  function PrimeCount(lines: seq<Line>): (n: nat)
    ensures n <= |lines|
    ensures forall i | 0 <= i < n - 1 :: !Primes(lines[i])
    ensures n < |lines| ==> n > 0 && Primes(lines[n - 1])
  {
    if lines == [] then 0 else if Primes(lines[0]) then 1 else 1 + PrimeCount(lines[1..])
  }

  /** Why priming gives the stream up, so that another provider can be tried. */
  function PrimeFailure(lines: seq<Line>, broken: bool): Option<Failure> {
    var n := PrimeCount(lines);
    if n > 0 && Primes(lines[n - 1]) then FailureAt(lines[n - 1])
    else if broken then Some(FailedBeforeOutput)
    else if Events(lines) == 0 then Some(EmptyStream)
    else None
  }

  predicate CarriesAt(line: Line) { line.Done? || (line.Data? && Commits(line.event)) }

  /** Output or an end marker comes, and no provider error comes before or with it. */
  predicate OutputFirst(lines: seq<Line>)
  {
    exists i | 0 <= i < |lines| :: CarriesAt(lines[i]) && !ErrorSeen(lines[..i + 1])
  }

  /** Neither output, nor an end marker, nor a provider error. */
  predicate Silent(lines: seq<Line>) { forall i | 0 <= i < |lines| :: !Primes(lines[i]) }

  /** The first line that ends priming decides whether output comes first. */
  lemma FirstStopDecides(lines: seq<Line>, n: nat)
    requires 0 < n <= |lines| && Primes(lines[n - 1]) && forall i | 0 <= i < n - 1 :: !Primes(lines[i])
    ensures OutputFirst(lines) <==> FailureAt(lines[n - 1]).None?
    ensures !Silent(lines)
  {
    PrimedLine(lines[n - 1]);
    hide Primes, CarriesAt, FailsAt, FailureAt;
    if FailsAt(lines[n - 1]) {
      forall i | 0 <= i < |lines| && CarriesAt(lines[i]) ensures ErrorSeen(lines[..i + 1]) {
        PrimedLine(lines[i]);
        assert lines[..i + 1][n - 1] == lines[n - 1];
      }
    } else {
      forall i | 0 <= i < n ensures !FailsAt(lines[..n][i]) { PrimedLine(lines[i]); }
      assert !ErrorSeen(lines[..n]) && CarriesAt(lines[n - 1]);
    }
  }

  lemma NoStopIsSilent(lines: seq<Line>)
    requires PrimeCount(lines) == 0 || !Primes(lines[PrimeCount(lines) - 1])
    ensures Silent(lines)
  {
    hide Primes;
    var n := PrimeCount(lines);
    assert n == |lines|;
  }

  lemma SilentHasNoOutput(lines: seq<Line>)
    requires Silent(lines)
    ensures !OutputFirst(lines)
  {
    forall i | 0 <= i < |lines| ensures !CarriesAt(lines[i]) { PrimedLine(lines[i]); }
  }

  /** A stream can be relayed exactly when its first output or end marker comes before any provider error,
      or when it has none of these, has events and ends cleanly. */
  lemma PrimedIff(lines: seq<Line>, broken: bool)
    ensures PrimeFailure(lines, broken).None? <==> OutputFirst(lines) || (Silent(lines) && !broken && Events(lines) > 0)
  {
    hide OutputFirst, Silent, Primes, FailureAt, Events;
    var n := PrimeCount(lines);
    if n > 0 && Primes(lines[n - 1]) {
      FirstStopDecides(lines, n);
    } else {
      NoStopIsSilent(lines);
      SilentHasNoOutput(lines);
    }
  }

  /** A finish reason counts as output. */
  lemma FinishPrimes(line: Line)
    ensures FinishesAt(line) ==> Primes(line)
  {
    if line.Data? { FinishCommits(line.event.choices); }
  }

  lemma {:induction false} FinishCommits(choices: seq<Choice>)
    ensures FinishReason(choices).Some? ==> exists i | 0 <= i < |choices| :: CarriesOutput(choices[i])
  {
    if choices != [] {
      FinishCommits(choices[1..]);
      if i :| 0 <= i < |choices[1..]| && CarriesOutput(choices[1..][i]) { assert CarriesOutput(choices[i + 1]); }
      if choices[0].finish.Some? { assert CarriesOutput(choices[0]); }
    }
  }

  /** What is reported for a stream without output, end marker or provider error that cannot be relayed. */
  lemma SilentFailure(lines: seq<Line>, broken: bool)
    requires Silent(lines)
    ensures PrimeFailure(lines, broken)
         == if broken then Some(FailedBeforeOutput) else if exists i | 0 <= i < |lines| :: lines[i].Data? then None
            else Some(EmptyStream)
  {
    SeenIff(lines);
    hide Primes, FailureAt, Events;
  }

  lemma PrimedLine(line: Line)
    ensures FailureAt(line).Some? <==> FailsAt(line)
    ensures Primes(line) <==> FailsAt(line) || CarriesAt(line)
  {
  }

  // ---------- The end ----------

  /** The outcome when the lines have run out; `broken` says that reading failed behind them. */
  function EndOf(s: State, broken: bool): Outcome {
    if s.o.err.Some? then s.o.(end := ProviderError)
    else if !broken then s.o.(end := if s.sawDone || s.o.finish.Some? then Complete else EofWithoutFinish)
    else if s.o.finish.Some? then s.o.(end := ReadErrorAfterFinish)
    else s.o.(end := ReadError, err := Some(StreamFailed))
  }

  /** The outcome when the stream is closed before its end. */
  function ClosedWith(s: State): Outcome {
    s.o.(end := ClosedBeforeEof, err := if s.o.finish.None? && s.o.err.None? then Some(ClientCanceled) else s.o.err)
  }

  /** A response that ended failed exactly when a provider error was seen, or reading broke with no finish reason;
      one that was closed failed exactly when a provider error was seen, or no finish reason. */
  lemma FailureIsDecidedByTheLines(cfg: Config, lines: seq<Line>, broken: bool)
    ensures EndOf(After(cfg, START, lines), broken).err.Some? <==> ErrorSeen(lines) || (broken && !FinishSeen(lines))
    ensures ClosedWith(After(cfg, START, lines)).err.Some? <==> ErrorSeen(lines) || !FinishSeen(lines)
  {
    OutcomeRead(cfg, START, lines);
    SeenIff(lines);
    hide After, FirstFailure, LastFinish, ErrorSeen, FinishSeen, LastUsage, LastID, Events, Malformations;
  }

  /** The first choice with a nonempty finish reason gives the reason of its event. */
  lemma {:induction false} FirstFinishCounts(choices: seq<Choice>, i: nat)
    requires i < |choices| && forall j | 0 <= j < i :: choices[j].finish.None? || choices[j].finish.value == ""
    ensures choices[i].finish.Some? && choices[i].finish.value != "" ==> FinishReason(choices) == choices[i].finish
    ensures i == |choices| - 1 && (choices[i].finish.None? || choices[i].finish.value == "") ==>
      FinishReason(choices) == None
  {
    if i > 0 { FirstFinishCounts(choices[1..], i - 1); }
  }

  /** How a response is said to have ended. */
  lemma EndIsDecidedByTheLines(cfg: Config, lines: seq<Line>, broken: bool)
    ensures EndOf(After(cfg, START, lines), broken).end
         == if ErrorSeen(lines) then ProviderError
            else if !broken && (DoneSeen(lines) || FinishSeen(lines)) then Complete
            else if !broken then EofWithoutFinish
            else if FinishSeen(lines) then ReadErrorAfterFinish else ReadError
    ensures ClosedWith(After(cfg, START, lines)).end == ClosedBeforeEof
  {
    OutcomeRead(cfg, START, lines);
    SeenIff(lines);
    hide After, FirstFailure, LastFinish, ErrorSeen, FinishSeen, LastUsage, LastID, Events, Malformations, DoneSeen;
  }

  /** An end marker alone does not save a response that is closed before its end. */
  lemma ClosedAfterDoneIsCanceled(cfg: Config, text: string)
    ensures DoneSeen([Done(text)]) && ClosedWith(After(cfg, START, [Done(text)])).err == Some(ClientCanceled)
    ensures EndOf(After(cfg, START, [Done(text)]), false).err.None?
  {
    OutcomeRead(cfg, START, [Done(text)]);
    assert [Done(text)][1..] == [];
    assert [Done(text)][0].Done?;
  }
}
