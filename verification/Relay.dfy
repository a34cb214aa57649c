/** What the gateway sends on for the lines of a provider's stream
    (apps/gateway/internal/application/services/proxy.go, observe, dropRepeatedRole, heldTail, keep). */
module Relay {
  import opened Common
  import opened Wrappers
  import opened Text
  import opened Mappings
  import opened Unmasking
  import opened ChatEvents
  import opened Unmasker
  import opened UnmaskerLaws

  /** A line of the stream without its newline: a data line holds an event, the end marker or bytes that do not decode.
      */
  datatype Line = Plain(text: string) | Done(text: string) | Malformed(text: string) | Data(event: Event)

  const BLANK := Plain("")

  datatype Failure = Unsuccessful(code: int) | StreamFailed | FailedBeforeOutput | EmptyStream | ClientCanceled

  datatype End = NotEnded | ProviderError | Complete | EofWithoutFinish | ReadErrorAfterFinish | ReadError
    | ClosedBeforeEof

  /** What the gateway read from a response. */
  datatype Outcome = Outcome(
    providerID: string, finish: Option<string>, usage: Option<Usage>, err: Option<Failure>, end: End, chunks: nat,
      malformed: nat)

  const NO_OUTCOME := Outcome("", None, None, None, NotEnded, 0, 0)

  /** The error a provider sent inside a successful response. */
  function FailureOf(e: Event): (r: Option<Failure>)
    ensures r.Some? <==> Fails(e)
  {
    if e.baseStatus.Some? && e.baseStatus.value != 0 then Some(Unsuccessful(e.baseStatus.value))
    else if e.error.Present? then Some(StreamFailed)
    else None
  }

  /** The mapping is present when something was masked. */
  datatype Config = Config(public: string, hideUsage: bool, mapping: Option<Mapping>)

  datatype State = State(o: Outcome, sawDone: bool, roles: set<Index>, held: Held)

  const START := State(NO_OUTCOME, false, {}, map[])

  // ---------- Roles ----------

  predicate HasRole(c: Choice) { c.delta.Some? && c.delta.value.role.Some? }

  /** How many choices with key `k` carry a role. */
  function RolesIn(choices: seq<Choice>, pos: nat, k: Index): nat {
    if choices == [] then 0
    else (if HasRole(choices[0]) && choices[0].Key(pos) == k then 1 else 0) + RolesIn(choices[1..], pos + 1, k)
  }

  function RolesAfter(roles: set<Index>, choices: seq<Choice>, pos: nat): set<Index>
    decreases |choices|
  {
    if choices == [] then roles
    else RolesAfter(if HasRole(choices[0]) then roles + {choices[0].Key(pos)} else roles, choices[1..], pos + 1)
  }

  /** The keys whose role was already sent, or comes twice. */
  function Repeated(roles: set<Index>, choices: seq<Choice>, pos: nat): set<Index>
    decreases |choices|
  {
    if choices == [] then {}
    else if !HasRole(choices[0]) then Repeated(roles, choices[1..], pos + 1)
    else
      var k := choices[0].Key(pos);
      (if k in roles then {k} else {}) + Repeated(roles + {k}, choices[1..], pos + 1)
  }

  function WithoutRole(drop: set<Index>, c: Choice, pos: nat): Choice {
    if c.delta.Some? && c.Key(pos) in drop then c.(delta := Some(c.delta.value.(role := None))) else c
  }

  function WithoutRoles(drop: set<Index>, choices: seq<Choice>, pos: nat): (r: seq<Choice>)
    ensures |r| == |choices|
  {
    if choices == [] then [] else [WithoutRole(drop, choices[0], pos)] + WithoutRoles(drop, choices[1..], pos + 1)
  }

  // ---------- One line ----------

  function Noted(o: Outcome, e: Event): Outcome {
    o.(providerID := if e.id != "" then e.id else o.providerID,
       finish := if FinishReason(e.choices).Some? then FinishReason(e.choices) else o.finish,
       usage := if e.usage.Some? then e.usage else o.usage,
       err := if o.err.Some? then o.err else FailureOf(e),
       chunks := o.chunks + 1)
  }

  /** The event to send: no repeated role, restored text, the public model name. */
  ghost function Relayed(cfg: Config, s: State, e: Event): Event {
    var once := e.(choices := WithoutRoles(Repeated(s.roles, e.choices, 0), e.choices, 0));
    (if cfg.mapping.Some? && e.choices != [] then EventOut(cfg.mapping.value, s.held, once) else once)
    .(model := if e.model.Some? then Some(cfg.public) else None)
  }

  ghost function HeldBack(cfg: Config, s: State, e: Event): Held {
    if cfg.mapping.Some? && e.choices != []
    then FeedChoices(cfg.mapping.value, s.held, WithoutRoles(Repeated(s.roles, e.choices, 0), e.choices, 0), 0)
    else s.held
  }

  /** The closing event with the text still held back, behind it a blank line. */
  ghost function Closing(cfg: Config, s: State): seq<Line> {
    var tail := if cfg.mapping.Some? then Tail(cfg.mapping.value, s.held, s.o.providerID, cfg.public) else None;
    if tail.Some? then [Data(tail.value), BLANK] else []
  }

  ghost function Released(cfg: Config, s: State): State { if cfg.mapping.Some? then s.(held := map[]) else s }

  ghost function Observe(cfg: Config, s: State, line: Line): State {
    match line
    case Plain(_) => s
    case Done(_) => Released(cfg, s).(sawDone := true)
    case Malformed(_) => s.(o := s.o.(malformed := s.o.malformed + 1))
    case Data(e) => State(Noted(s.o, e), s.sawDone, RolesAfter(s.roles, e.choices, 0), HeldBack(cfg, s, e))
  }

  ghost function Observed(cfg: Config, s: State, line: Line): seq<Line> {
    match line
    case Plain(_) => [line]
    case Done(_) => Closing(cfg, s) + [line]
    case Malformed(_) => [line]
    case Data(e) => [Data(Relayed(cfg, s, e))]
  }

  // ---------- All lines ----------

  ghost function After(cfg: Config, s: State, lines: seq<Line>): State
    decreases |lines|
  {
    if lines == [] then s else After(cfg, Observe(cfg, s, lines[0]), lines[1..])
  }

  ghost function AllObserved(cfg: Config, s: State, lines: seq<Line>): seq<Line>
    decreases |lines|
  {
    if lines == [] then [] else Observed(cfg, s, lines[0]) + AllObserved(cfg, Observe(cfg, s, lines[0]), lines[1..])
  }

  /** An event that only reports usage. An error field of null makes it more than that. */
  predicate UsageOnly(line: Line) {
    line.Data? && line.event.choices == [] && line.event.usage.Some? && line.event.error.Absent?
  }

  function Keeps(hideUsage: bool, skipBlank: bool, line: Line): bool {
    !(skipBlank && line == BLANK) && !(hideUsage && UsageOnly(line))
  }

  /** The lines kept when `skipBlank` says that the line before was hidden. */
  function Kept(hideUsage: bool, skipBlank: bool, lines: seq<Line>): seq<Line>
    decreases |lines|
  {
    if lines == [] then []
    else (if Keeps(hideUsage, skipBlank, lines[0]) then [lines[0]] else [])
         + Kept(hideUsage, hideUsage && UsageOnly(lines[0]), lines[1..])
  }

  function SkipsNext(hideUsage: bool, skipBlank: bool, lines: seq<Line>): bool {
    if lines == [] then skipBlank else hideUsage && UsageOnly(lines[|lines| - 1])
  }

  /** What is still to be sent after `s`. */
  ghost function Rest(cfg: Config, s: State, skipBlank: bool, lines: seq<Line>): seq<Line> {
    Kept(cfg.hideUsage, skipBlank, AllObserved(cfg, s, lines)) + Closing(cfg, After(cfg, s, lines))
  }

  /** Everything the client is sent for a stream. */
  ghost function Transduced(cfg: Config, lines: seq<Line>): seq<Line> { Rest(cfg, START, false, lines) }

  // ---------- Reading line by line ----------

  lemma ConsConcat(a: seq<Line>, b: seq<Line>)
    requires a != []
    ensures a + b != [] && (a + b)[0] == a[0] && (a + b)[1..] == a[1..] + b
  {
  }

  lemma KeptCons(hideUsage: bool, skipBlank: bool, lines: seq<Line>)
    requires lines != []
    ensures Kept(hideUsage, skipBlank, lines)
         == (if Keeps(hideUsage, skipBlank, lines[0]) then [lines[0]] else [])
           + Kept(hideUsage, hideUsage && UsageOnly(lines[0]), lines[1..])
    ensures SkipsNext(hideUsage, skipBlank, lines) == SkipsNext(hideUsage, hideUsage && UsageOnly(lines[0]), lines[1..])
  {
    hide UsageOnly, Keeps;
  }

  lemma {:induction false} KeptConcat(hideUsage: bool, skipBlank: bool, a: seq<Line>, b: seq<Line>)
    ensures Kept(hideUsage, skipBlank, a + b)
      == Kept(hideUsage, skipBlank, a) + Kept(hideUsage, SkipsNext(hideUsage, skipBlank, a), b)
    decreases |a|
  {
    if a == [] {
      assert a + b == b;
    } else {
      hide *;
      var skip := hideUsage && UsageOnly(a[0]);
      KeptConcat(hideUsage, skip, a[1..], b);
      KeptCons(hideUsage, skipBlank, a);
      ConsConcat(a, b);
      KeptCons(hideUsage, skipBlank, a + b);
      Assoc(if Keeps(hideUsage, skipBlank, a[0]) then [a[0]] else [], Kept(hideUsage, skip, a[1..]),
                 Kept(hideUsage, SkipsNext(hideUsage, skip, a[1..]), b));
    }
  }

  /** Reading one line moves what it gives from the rest to the front. */
  lemma RestUnfolded(cfg: Config, s: State, skipBlank: bool, lines: seq<Line>)
    ensures Rest(cfg, s, skipBlank, lines)
      == Kept(cfg.hideUsage, skipBlank, AllObserved(cfg, s, lines)) + Closing(cfg, After(cfg, s, lines))
    ensures lines != [] ==>
      var s' := Observe(cfg, s, lines[0]);
      && AllObserved(cfg, s, lines) == Observed(cfg, s, lines[0]) + AllObserved(cfg, s', lines[1..])
      && After(cfg, s, lines) == After(cfg, s', lines[1..])
  {
    hide Observed, Observe, Closing, Kept;
  }

  lemma ReadOne(cfg: Config, s: State, skipBlank: bool, lines: seq<Line>)
    requires lines != []
    ensures var out := Observed(cfg, s, lines[0]); var s' := Observe(cfg, s, lines[0]);
      Rest(cfg, s, skipBlank, lines)
      == Kept(cfg.hideUsage, skipBlank, out) + Rest(cfg, s', SkipsNext(cfg.hideUsage, skipBlank, out), lines[1..])
  {
    hide *;
    var out, s' := Observed(cfg, s, lines[0]), Observe(cfg, s, lines[0]);
    var skip, rest := SkipsNext(cfg.hideUsage, skipBlank, out), AllObserved(cfg, s', lines[1..]);
    RestUnfolded(cfg, s, skipBlank, lines);
    RestUnfolded(cfg, s', skip, lines[1..]);
    KeptConcat(cfg.hideUsage, skipBlank, out, rest);
    Assoc(Kept(cfg.hideUsage, skipBlank, out), Kept(cfg.hideUsage, skip, rest),
      Closing(cfg, After(cfg, s', lines[1..])));
  }

  lemma {:induction false} AfterConcat(cfg: Config, s: State, a: seq<Line>, b: seq<Line>)
    ensures After(cfg, s, a + b) == After(cfg, After(cfg, s, a), b)
    ensures AllObserved(cfg, s, a + b) == AllObserved(cfg, s, a) + AllObserved(cfg, After(cfg, s, a), b)
    decreases |a|
  {
    hide Observe, Observed;
    if a == [] {
      assert a + b == b;
    } else {
      AfterConcat(cfg, Observe(cfg, s, a[0]), a[1..], b);
      assert (a + b)[1..] == a[1..] + b;
    }
  }

  // ---------- Which lines are dropped ----------

  /** An event without choices that reports usage and has no error field. */
  predicate JustUsage(line: Line) {
    match line
    case Data(Event(_, _, choices, usage, error, _)) => |choices| == 0 && usage.Some? && error == Absent
    case _ => false
  }

  /** Line `i` is such an event, or the blank line directly after one. */
  predicate Dropped(hideUsage: bool, lines: seq<Line>, i: nat)
    requires i < |lines|
  {
    hideUsage && (JustUsage(lines[i]) || (lines[i] == Plain("") && i > 0 && JustUsage(lines[i - 1])))
  }

  /** The lines among the first `n` that are not dropped. */
  function Undropped(hideUsage: bool, lines: seq<Line>, n: nat): seq<Line>
    requires n <= |lines|
  {
    if n == 0 then []
    else Undropped(hideUsage, lines, n - 1) + if Dropped(hideUsage, lines, n - 1) then [] else [lines[n - 1]]
  }

  lemma {:induction false} KeptIsUndropped(hideUsage: bool, lines: seq<Line>, n: nat)
    requires n <= |lines|
    ensures Kept(hideUsage, false, lines[..n]) == Undropped(hideUsage, lines, n)
  {
    if n > 0 {
      KeptIsUndropped(hideUsage, lines, n - 1);
      assert lines[..n] == lines[..n - 1] + [lines[n - 1]];
      KeptConcat(hideUsage, false, lines[..n - 1], [lines[n - 1]]);
      if n > 1 { assert lines[..n - 1][n - 2] == lines[n - 2]; }
    }
  }

  /** The closing lines are never dropped. */
  lemma ClosingKept(cfg: Config, s: State, hideUsage: bool, skipBlank: bool)
    ensures Kept(hideUsage, skipBlank, Closing(cfg, s)) == Closing(cfg, s)
  {
    hide TailChoices, SortedKeys;
    var closing := Closing(cfg, s);
    if closing != [] {
      assert !UsageOnly(closing[0]) && closing[0] != BLANK;
      assert closing[1..] == [BLANK] && closing[1..][1..] == [];
      assert Kept(hideUsage, false, [BLANK]) == [BLANK];
    }
  }

  /** With `hideUsage`, what is left out of a stream is exactly the usage-only events and the blank line directly after
      each. */
  lemma OnlyUsageIsDropped(cfg: Config, lines: seq<Line>)
    ensures var all := AllObserved(cfg, START, lines) + Closing(cfg, After(cfg, START, lines));
      Transduced(cfg, lines) == Undropped(cfg.hideUsage, all, |all|)
  {
    var observed, closing := AllObserved(cfg, START, lines), Closing(cfg, After(cfg, START, lines));
    var all := observed + closing;
    assert all[..|all|] == all;
    KeptIsUndropped(cfg.hideUsage, all, |all|);
    KeptConcat(cfg.hideUsage, false, observed, closing);
    ClosingKept(cfg, After(cfg, START, lines), cfg.hideUsage, SkipsNext(cfg.hideUsage, false, observed));
  }
}
