/** The line-by-line relay of a provider's stream, and how its response ends
    (apps/gateway/internal/application/services/proxy.go, ProxyStream). */
module ProxyStream {
  import opened Common
  import opened Wrappers
  import opened Mappings
  import opened ChatEvents
  import opened Unmasker
  import opened StreamUnmasker
  import opened Relay
  import opened StreamOutcome

  // ---------- Lines read so far ----------

  /** After `n` of the lines the stream is in state `s`, with `rest` still to be read. */
  ghost predicate ReadTo(cfg: Config, s: State, rest: seq<Line>, lines: seq<Line>, n: nat) {
    n <= |lines| && rest == lines[n..]
    && var t := After(cfg, START, lines[..n]); s == t || (rest == [] && s == Released(cfg, t))
  }

  lemma ReadNothing(cfg: Config, lines: seq<Line>)
    ensures ReadTo(cfg, START, lines, lines, 0)
  {
  }

  lemma ReadAnother(cfg: Config, s: State, rest: seq<Line>, lines: seq<Line>, n: nat)
    requires ReadTo(cfg, s, rest, lines, n) && rest != []
    ensures n < |lines| && rest[0] == lines[n] && ReadTo(cfg, Relay.Observe(cfg, s, rest[0]), rest[1..], lines, n + 1)
  {
    hide Relay.Observe, Observed;
    AfterConcat(cfg, START, lines[..n], [lines[n]]);
    assert lines[..n + 1] == lines[..n] + [lines[n]] && [lines[n]][1..] == [];
    assert After(cfg, s, [lines[n]]) == Relay.Observe(cfg, s, lines[n]);
  }

  /** Nothing failed and nothing ended while priming went on. */
  lemma SilentState(cfg: Config, lines: seq<Line>)
    requires Silent(lines)
    ensures After(cfg, START, lines).o.err.None? && !After(cfg, START, lines).sawDone
  {
    OutcomeRead(cfg, START, lines);
    SeenIff(lines);
    hide After, Primes, FailsAt, OutcomeAfter, FirstFailure;
    forall i | 0 <= i < |lines| ensures !FailsAt(lines[i])
      && !lines[i].Done? { PrimedLine(lines[i]); IsDoneLine(lines[i]); }
    assert OutcomeAfter(After(cfg, START, lines).o, NO_OUTCOME, lines);
    FailureOfOutcome(After(cfg, START, lines).o, lines);
  }

  lemma IsDoneLine(line: Line)
    ensures line.Done? ==> Primes(line)
    ensures Primes(line) <==> FailureAt(line).Some? || line.Done? || (line.Data? && Commits(line.event))
  {
    hide Commits;
  }

  lemma FailureOfOutcome(o: Outcome, lines: seq<Line>)
    requires OutcomeAfter(o, NO_OUTCOME, lines)
    ensures o.err == FirstFailure(lines)
  {
  }

  /** The lines before and with the one that ends priming. */
  lemma PrimeCountIs(lines: seq<Line>, n: nat)
    requires 0 < n <= |lines| && Silent(lines[..n - 1])
    ensures Primes(lines[n - 1]) ==> PrimeCount(lines) == n
    ensures !Primes(lines[n - 1]) ==> Silent(lines[..n])
  {
    hide Primes;
    assert forall i | 0 <= i < n - 1 :: lines[..n - 1][i] == lines[i];
  }

  /** What priming knows after reading one more line, when none before it ends priming. */
  lemma PrimeStep(cfg: Config, s: State, rest: seq<Line>, lines: seq<Line>, n: nat)
    requires 0 < n && ReadTo(cfg, s, rest, lines, n) && Silent(lines[..n - 1])
    ensures s.o.err == FailureAt(lines[n - 1])
    ensures s.o.err.Some? || s.sawDone || (lines[n - 1].Data? && Commits(lines[n - 1].event)) <==> Primes(lines[n - 1])
  {
    hide Silent, Primes, FailureAt, FinishAt, Commits, Relay.Observe, After;
    var before, x := lines[..n - 1], lines[n - 1];
    SilentState(cfg, before);
    ReadAnother(cfg, After(cfg, START, before), lines[n - 1..], lines, n - 1);
    OneLineNoted(cfg, After(cfg, START, before), x);
    IsDoneLine(x);
  }

  lemma PrimeEnds(cfg: Config, s: State, lines: seq<Line>, broken: bool)
    requires ReadTo(cfg, s, [], lines, |lines|) && Silent(lines)
    ensures PrimeCount(lines) == |lines| && s.o.chunks == Events(lines) && (s.o.err.None? && !s.sawDone)
    ensures PrimeFailure(lines, broken) == if broken then Some(FailedBeforeOutput)
      else if s.o.chunks == 0 then Some(EmptyStream) else None
  {
    assert lines[..|lines|] == lines;
    OutcomeRead(cfg, START, lines);
    SeenIff(lines);
    forall i | 0 <= i < |lines| ensures !FailsAt(lines[i]) && !lines[i].Done? { PrimedLine(lines[i]); }
    hide Primes, After;
  }

  /** The lines kept of the first `n`. */
  ghost function KeptOf(cfg: Config, lines: seq<Line>, n: nat): seq<Line>
    requires n <= |lines|
  {
    Kept(cfg.hideUsage, false, AllObserved(cfg, START, lines[..n]))
  }

  /** After `n` lines, `count` lines were kept, and `skipBlank` says whether a blank line comes next is dropped. */
  ghost predicate KeptTo(cfg: Config, skipBlank: bool, count: nat, lines: seq<Line>, n: nat) {
    n <= |lines| && count == |KeptOf(cfg, lines, n)|
    && skipBlank == SkipsNext(cfg.hideUsage, false, AllObserved(cfg, START, lines[..n]))
  }

  lemma KeptAnother(cfg: Config, s: State, skipBlank: bool, count: nat, rest: seq<Line>, lines: seq<Line>, n: nat)
    requires ReadTo(cfg, s, rest, lines, n) && rest != [] && KeptTo(cfg, skipBlank, count, lines, n)
    ensures var out := Observed(cfg, s, rest[0]);
      KeptTo(cfg, SkipsNext(cfg.hideUsage, skipBlank, out), count + |Kept(cfg.hideUsage, skipBlank, out)|, lines, n + 1)
  {
    var all, out := AllObserved(cfg, START, lines[..n]), Observed(cfg, s, rest[0]);
    AfterConcat(cfg, START, lines[..n], [lines[n]]);
    assert lines[..n + 1] == lines[..n] + [lines[n]] && [lines[n]][1..] == [];
    OneObserved(cfg, s, lines[n]);
    hide Observed, Relay.Observe, Kept, AllObserved, After, UsageOnly;
    KeptConcat(cfg.hideUsage, false, all, out);
    SkipsConcat(cfg.hideUsage, all, out);
  }

  lemma OneObserved(cfg: Config, s: State, line: Line)
    ensures AllObserved(cfg, s, [line]) == Observed(cfg, s, line)
  {
    hide Observed, Relay.Observe;
    assert [line][1..] == [];
    assert AllObserved(cfg, s, [line]) == Observed(cfg, s, line) + [];
  }

  lemma SkipsConcat(hideUsage: bool, a: seq<Line>, b: seq<Line>)
    ensures SkipsNext(hideUsage, false, a + b) == SkipsNext(hideUsage, SkipsNext(hideUsage, false, a), b)
  {
    hide UsageOnly;
    if b == [] { assert a + b == a; }
  }

  /** How many lines are read, from the first `k` on, until `n` are kept or the lines run out. */
  ghost function LinesFor(cfg: Config, lines: seq<Line>, n: nat, k: nat): (r: nat)
    requires k <= |lines|
    ensures k <= r <= |lines|
    ensures r == |lines| || |KeptOf(cfg, lines, r)| >= n
    ensures forall j | k <= j < r :: |KeptOf(cfg, lines, j)| < n
    decreases |lines| - k
  {
    if k == |lines| || |KeptOf(cfg, lines, k)| >= n then k else LinesFor(cfg, lines, n, k + 1)
  }

  lemma LinesForStep(cfg: Config, s: State, skipBlank: bool, count: nat, rest: seq<Line>, lines: seq<Line>, k: nat,
        n: nat)
    requires ReadTo(cfg, s, rest, lines, k) && (rest != [] ==> KeptTo(cfg, skipBlank, count, lines, k))
    ensures rest == [] || count >= n ==> LinesFor(cfg, lines, n, k) == k
    ensures rest != [] && count < n ==> LinesFor(cfg, lines, n, k) == LinesFor(cfg, lines, n, k + 1)
  {
    hide KeptOf, After;
  }

  lemma {:induction false} LinesForMore(cfg: Config, lines: seq<Line>, n: nat, k: nat)
    requires k <= |lines|
    ensures LinesFor(cfg, lines, n + 1, LinesFor(cfg, lines, n, k)) == LinesFor(cfg, lines, n + 1, k)
    decreases |lines| - k
  {
    hide KeptOf;
    if k < |lines| && |KeptOf(cfg, lines, k)| < n { LinesForMore(cfg, lines, n, k + 1); }
  }

  lemma ReadMeans(cfg: Config, s: State, rest: seq<Line>, lines: seq<Line>, n: nat)
    requires ReadTo(cfg, s, rest, lines, n)
    ensures n <= |lines| && rest == lines[n..] && (rest == [] <==> n == |lines|) && lines[..|lines|] == lines
  {
  }

  lemma NoLineSilent(lines: seq<Line>)
    ensures Silent(lines[..0])
  {
  }

  /** Reading stops at the first line that ends priming. */
  lemma PrimeStop(lines: seq<Line>, n: nat, broken: bool)
    requires 0 < n <= |lines| && PrimeCount(lines) == n && Primes(lines[n - 1])
    ensures PrimeFailure(lines, broken) == FailureAt(lines[n - 1])
  {
  }

  lemma FutureStep(queued: seq<Line>, rest: seq<Line>)
    requires queued != []
    ensures (queued + rest)[0] == queued[0] && (queued + rest)[1..] == queued[1..] + rest
  {
  }

  // ---------- Helpers about kept lines ----------

  lemma KeptSnoc(hideUsage: bool, skipBlank: bool, lines: seq<Line>, i: nat)
    requires i < |lines|
    ensures var skip := SkipsNext(hideUsage, skipBlank, lines[..i]);
      && Kept(hideUsage, skipBlank, lines[..i + 1])
         == Kept(hideUsage, skipBlank, lines[..i]) + (if Keeps(hideUsage, skip, lines[i]) then [lines[i]] else [])
      && SkipsNext(hideUsage, skipBlank, lines[..i + 1]) == (hideUsage && UsageOnly(lines[i]))
  {
    var skip := SkipsNext(hideUsage, skipBlank, lines[..i]);
    assert lines[..i + 1] == lines[..i] + [lines[i]];
    KeptConcat(hideUsage, skipBlank, lines[..i], [lines[i]]);
    assert [lines[i]][1..] == [];
    assert Kept(hideUsage, skip, [lines[i]]) == if Keeps(hideUsage, skip, lines[i]) then [lines[i]] else [];
  }

  /** What is left when every line is read. */
  lemma NothingLeft(cfg: Config, s: State, skipBlank: bool)
    ensures Rest(cfg, s, skipBlank, []) == Closing(cfg, s)
    ensures s.held == map[] ==> Closing(cfg, s) == []
  {
    hide Tail;
    if cfg.mapping.Some? { NoTail(cfg.mapping.value, s.o.providerID, cfg.public); }
  }

  lemma FutureOf(queued: seq<Line>, rest: seq<Line>)
    ensures queued == [] ==> queued + rest == rest
    ensures rest == [] ==> queued + rest == queued
  {
  }

  lemma TailQueued(cfg: Config, s: State, skipBlank: bool)
    requires cfg.mapping.None? ==> s.held == map[]
    ensures [] + Rest(cfg, s, skipBlank, []) == Closing(cfg, s)
    ensures Closing(cfg, s) + Rest(cfg, Released(cfg, s), skipBlank, []) == Closing(cfg, s)
    ensures Released(cfg, s).held == map[]
  {
    NothingLeft(cfg, s, skipBlank);
    NothingLeft(cfg, Released(cfg, s), skipBlank);
    hide Closing, Rest;
    FutureOf([], Closing(cfg, s));
    FutureOf(Closing(cfg, s), []);
  }

  lemma ReleasedToo(cfg: Config, s: State, rest: seq<Line>, lines: seq<Line>, n: nat)
    requires rest == [] && ReadTo(cfg, s, rest, lines, n)
    ensures ReadTo(cfg, Released(cfg, s), rest, lines, n)
  {
    hide After;
  }

  /** The outcome is decided by all lines, whether held text was released or not. */
  lemma EndedWith(cfg: Config, s: State, rest: seq<Line>, lines: seq<Line>, n: nat, broken: bool)
    requires rest == [] && ReadTo(cfg, s, rest, lines, n)
    ensures var o := EndOf(After(cfg, START, lines), broken);
      if s.o.err.Some? then o == s.o.(end := ProviderError)
      else if !broken && (s.sawDone || s.o.finish.Some?) then o == s.o.(end := Complete)
      else if !broken then o == s.o.(end := EofWithoutFinish)
      else if s.o.finish.Some? then o == s.o.(end := ReadErrorAfterFinish)
      else o == s.o.(err := Some(StreamFailed)).(end := ReadError)
  {
    ReadMeans(cfg, s, rest, lines, n);
    hide After;
  }

  lemma ClosedAt(cfg: Config, s: State, rest: seq<Line>, lines: seq<Line>, n: nat)
    requires ReadTo(cfg, s, rest, lines, n)
    ensures n <= |lines|
    ensures ClosedWith(After(cfg, START, lines[..n]))
         == (if s.o.finish.None?
           && s.o.err.None? then s.o.(err := Some(ClientCanceled)) else s.o).(end := ClosedBeforeEof)
  {
    hide After;
  }

  lemma NoTail(m: Mapping, id: string, model: string)
    ensures Tail(m, map[], id, model) == None
  {
    var none: Held := map[];
    assert none.Keys == {};
  }

  lemma AllLinesTaken(out: seq<Line>)
    ensures out[..|out|] == out
  {
  }

  lemma NothingKept(hideUsage: bool, skipBlank: bool, out: seq<Line>)
    ensures Kept(hideUsage, skipBlank, out[..0]) == [] && SkipsNext(hideUsage, skipBlank, out[..0]) == skipBlank
  {
  }

  /** The lines sent for a line report usage only when the event read does. */
  lemma ObservedUsage(cfg: Config, s: State, line: Line)
    ensures forall x | x in Observed(cfg, s, line) :: UsageOnly(x) <==> line.Data? && UsageOnly(line)
  {
    hide TailChoices, SortedKeys, Repeated;
    if line.Data? && cfg.mapping.Some? {
      var once := WithoutRoles(Repeated(s.roles, line.event.choices, 0), line.event.choices, 0);
      if line.event.choices != [] { RestoredNotEmpty(cfg.mapping.value, s.held, once); }
    }
  }

  lemma RestoredNotEmpty(m: Mapping, held: Held, choices: seq<Choice>)
    ensures choices != [] ==> ChoicesOut(m, held, choices, 0) != []
  {
    hide ChoiceOut, HeldAfter;
  }

  lemma NothingRepeated(roles: set<Index>, choices: seq<Choice>, pos: nat)
    ensures WithoutRoles({}, choices, pos) == choices
    decreases |choices|
  {
  }

  /** What is sent for an event does not depend on what was noted. */
  lemma NotesDoNotMatter(cfg: Config, s: State, t: State, e: Event)
    requires s.roles == t.roles && s.held == t.held
    ensures Relayed(cfg, s, e) == Relayed(cfg, t, e) && HeldBack(cfg, s, e) == HeldBack(cfg, t, e)
  {
  }

  // ---------- The relay ----------

  /** The mapping of a stream whose request was masked. */
  ghost function MaskedWith(mapping: PIIMapping?): Option<Mapping>
    reads mapping
  {
    if mapping == null || |mapping.View().tokenToOriginal| == 0 then None else Some(mapping.View())
  }

  class ProxyStream {
    const public: string
    const hideUsage: bool
    const unmask: StreamUnmasker?
    /** The lines the provider will still send; `broken` says that reading fails behind them. */
    var lines: seq<Line>
    var broken: bool
    var pending: seq<Line>
    var skipBlank: bool
    var o: Outcome
    var sawDone: bool
    var roleSent: set<Index>
    var finished: bool
    /** The outcomes handed to the end callback. */
    var ends: seq<Outcome>
    /** Everything the provider sends, and how many lines of it were read before the response ended. */
    ghost const upstream: seq<Line>
    ghost const cfg: Config
    /** How many lines were sent. */
    ghost var given: nat
    ghost var read: nat

    ghost predicate Masks()
      reads this, unmask, if unmask == null then {} else {unmask.mapping}
    {
      && (unmask != null ==> unmask.mapping.View().WF())
      && cfg == Config(public, hideUsage, if unmask == null then None else Some(unmask.mapping.View()))
    }

    ghost predicate Valid()
      reads this, unmask, if unmask == null then {} else {unmask.mapping}
    {
      && Masks()
      && |ends| == (if finished then 1 else 0)
      && (!finished ==> ReadTo(cfg, Now(), lines, upstream, read))
      && (!finished && lines != [] ==> KeptTo(cfg, skipBlank, given + |pending|, upstream, read))
    }

    ghost function Now(): State
      reads this, unmask
    {
      State(o, sawDone, roleSent, if unmask == null then map[] else unmask.held)
    }

    /** What the client will still be sent. */
    ghost function Future(): seq<Line>
      reads this, unmask
    {
      pending + Rest(cfg, Now(), skipBlank, lines)
    }

    constructor (lines: seq<Line>, broken: bool, public: string, hideUsage: bool, unmask: StreamUnmasker?)
      requires unmask != null ==> unmask.mapping.View().WF() && unmask.held == map[]
      ensures Valid() && this.public == public && this.hideUsage == hideUsage && this.unmask == unmask
      ensures cfg == Config(public, hideUsage, if unmask == null then None else Some(unmask.mapping.View()))
      ensures upstream == lines && read == 0 && given == 0 && this.lines == lines && this.broken == broken
        && pending == [] && skipBlank == false
      ensures Now() == START && !finished
    {
      this.lines, this.broken, this.public, this.hideUsage, this.unmask := lines, broken, public, hideUsage, unmask;
      pending, skipBlank, o, sawDone, roleSent, finished, ends := [], false, NO_OUTCOME, false, {}, false, [];
      upstream, read, given := lines, 0, 0;
      cfg := Config(public, hideUsage, if unmask == null then None else Some(unmask.mapping.View()));
    }

    /** Drops the roles that were already sent. */
    method DropRepeatedRole(e: Event) returns (once: Event)
      modifies this`roleSent
      ensures once == e.(choices := WithoutRoles(Repeated(old(roleSent), e.choices, 0), e.choices, 0))
      ensures roleSent == RolesAfter(old(roleSent), e.choices, 0)
    {
      var drop: set<Index> := {};
      for pos := 0 to |e.choices|
        invariant drop + Repeated(roleSent, e.choices[pos..], pos) == Repeated(old(roleSent), e.choices, 0)
        invariant RolesAfter(roleSent, e.choices[pos..], pos) == RolesAfter(old(roleSent), e.choices, 0)
      {
        var c := e.choices[pos];
        assert e.choices[pos..][0] == c && e.choices[pos..][1..] == e.choices[pos + 1..];
        if c.delta.Some? && c.delta.value.role.Some? {
          var index := c.Key(pos);
          if index in roleSent {
            drop := drop + {index};
            assert roleSent + {index} == roleSent;
          } else {
            roleSent := roleSent + {index};
          }
        }
      }
      if drop == {} {
        NothingRepeated(old(roleSent), e.choices, 0);
        once := e;
      } else {
        var choices := [];
        for pos := 0 to |e.choices|
          invariant choices + WithoutRoles(drop, e.choices[pos..], pos) == WithoutRoles(drop, e.choices, 0)
        {
          var c := e.choices[pos];
          assert e.choices[pos..][0] == c && e.choices[pos..][1..] == e.choices[pos + 1..];
          if c.delta.Some? && c.Key(pos) in drop {
            c := c.(delta := Some(c.delta.value.(role := None)));
          }
          choices := choices + [c];
        }
        once := e.(choices := choices);
      }
    }

    /** An event with restored text still held back, if any. */
    method HeldTail() returns (tail: seq<Line>)
      requires Masks()
      modifies unmask
      ensures Masks() && tail == Closing(cfg, old(Now())) && Now() == Released(cfg, old(Now()))
    {
      tail := [];
      if unmask != null {
        var e := unmask.TailEvent(o.providerID, public);
        if e.Some? { tail := [Data(e.value), BLANK]; }
      }
    }

    /** Notes what an event reports. */
    method Note(e: Event)
      modifies this`o
      ensures o == Noted(old(o), e)
    {
      o := o.(chunks := o.chunks + 1);
      if e.id != "" { o := o.(providerID := e.id); }
      if e.usage.Some? { o := o.(usage := e.usage); }
      var f := FinishReason(e.choices);
      if f.Some? { o := o.(finish := f); }
      var err := FailureOf(e);
      if err.Some? && o.err.None? { o := o.(err := err); }
    }

    /** The event to send for an event read. */
    method Rewrite(e: Event) returns (sent: Event)
      requires Masks()
      modifies this`roleSent, unmask
      ensures Masks()
      ensures sent == Relayed(cfg, old(Now()), e)
      ensures roleSent == RolesAfter(old(roleSent), e.choices, 0) && Now().held == HeldBack(cfg, old(Now()), e)
    {
      hide ChoicesOut, FeedChoices, Repeated, WithoutRoles, RolesAfter, Mapping.WF;
      sent := DropRepeatedRole(e);
      if unmask != null && |e.choices| > 0 { sent := unmask.RestoreEvent(sent); }
      if e.model.Some? && e.model.value != public { sent := sent.(model := Some(public)); }
    }

    /** Reads one line and returns the lines to send for it, and its event. */
    method Observe(line: Line) returns (out: seq<Line>, c: Option<Event>)
      requires Masks()
      modifies this`o, this`sawDone, this`roleSent, unmask
      ensures out == Observed(cfg, old(Now()), line) && Now() == Relay.Observe(cfg, old(Now()), line)
      ensures c == if line.Data? then Some(line.event) else None
      ensures Masks()
    {
      hide Tail, Noted, Relayed, HeldBack, RolesAfter, Mapping.WF;
      c := None;
      match line
      case Plain(_) => out := [line];
      case Done(_) =>
        sawDone := true;
        var tail := HeldTail();
        out := tail + [line];
      case Malformed(_) =>
        o := o.(malformed := o.malformed + 1);
        out := [line];
      case Data(e) =>
        c := Some(e);
        Note(e);
        NotesDoNotMatter(cfg, Now(), old(Now()), e);
        var sent := Rewrite(e);
        out := [Data(sent)];
    }

    /** Whether a line goes to the client; `c` is the event it was read from. */
    method Keep(line: Line, c: Option<Event>) returns (kept: bool)
      requires UsageOnly(line) <==> c.Some? && UsageOnly(Data(c.value))
      modifies this`skipBlank
      ensures kept == Keeps(hideUsage, old(skipBlank), line) && skipBlank == (hideUsage && UsageOnly(line))
    {
      if skipBlank && line == BLANK {
        skipBlank := false;
        return false;
      }
      skipBlank := false;
      if hideUsage && c.Some? && |c.value.choices| == 0 && c.value.usage.Some? && c.value.error.Absent? {
        skipBlank := true;
        return false;
      }
      kept := true;
    }

    /** Queues the lines that go to the client; `c` is the event they were read from. */
    method Queue(out: seq<Line>, c: Option<Event>)
      requires forall x | x in out :: UsageOnly(x) <==> c.Some? && UsageOnly(Data(c.value))
      modifies this`pending, this`skipBlank
      ensures pending == old(pending) + Kept(hideUsage, old(skipBlank), out)
      ensures skipBlank == SkipsNext(hideUsage, old(skipBlank), out)
    {
      hide Kept, SkipsNext, Keeps, UsageOnly;
      NothingKept(hideUsage, skipBlank, out);
      for i := 0 to |out|
        invariant pending == old(pending) + Kept(hideUsage, old(skipBlank), out[..i])
        invariant skipBlank == SkipsNext(hideUsage, old(skipBlank), out[..i])
      {
        KeptSnoc(hideUsage, old(skipBlank), out, i);
        assert out[i] in out;
        var kept := Keep(out[i], c);
        if kept { pending := pending + [out[i]]; }
      }
      AllLinesTaken(out);
    }

    /** Reads the next line and queues what it gives. */
    method Take() returns (c: Option<Event>)
      requires Valid() && lines != []
      modifies this`lines, this`pending, this`skipBlank, this`o, this`sawDone, this`roleSent, this`read, unmask
      ensures Valid() && Future() == old(Future())
      ensures lines == old(lines)[1..] && read == old(read) + 1
      ensures Now() == Relay.Observe(cfg, old(Now()), old(lines)[0])
      ensures c == if old(lines)[0].Data? then Some(old(lines)[0].event) else None
    {
      hide Relay.Observe, Observed, Kept, SkipsNext, Keeps, Rest, ReadTo, KeptTo, Mapping.WF;
      if !finished {
        ReadAnother(cfg, Now(), lines, upstream, read);
        KeptAnother(cfg, Now(), skipBlank, given + |pending|, lines, upstream, read);
      }
      read := read + 1;
      var line := lines[0];
      lines := lines[1..];
      var out;
      out, c := Observe(line);
      ObservedUsage(cfg, old(Now()), line);
      Queue(out, c);
      ReadOne(cfg, old(Now()), old(skipBlank), old(lines));
      Assoc(old(pending), Kept(hideUsage, old(skipBlank), out), Rest(cfg, Now(), skipBlank, lines));
    }

    /** Reads until the first output, so that a provider which fails first can be replaced before the client sees
        anything. */
    method Prime() returns (err: Option<Failure>)
      requires Valid() && read == 0 && given == 0 && Now() == START && !finished
      modifies this`lines, this`pending, this`skipBlank, this`o, this`sawDone, this`roleSent, this`read, unmask
      ensures Valid() && Future() == old(Future())
      ensures err == PrimeFailure(upstream, broken) && read == PrimeCount(upstream)
    {
      NoLineSilent(upstream);
      hide After, Rest, Closing, Relay.Observe, Observed, ReadTo, KeptTo, Primes, Silent, PrimeCount, PrimeFailure,
        FailureAt, Commits, Mapping.WF;
      while lines != []
        invariant Valid() && !finished && Future() == old(Future())
        invariant read <= |upstream| && Silent(upstream[..read])
        decreases |lines|
      {
        ReadMeans(cfg, Now(), lines, upstream, read);
        var c := Take();
        ReadMeans(cfg, Now(), lines, upstream, read);
        PrimeStep(cfg, Now(), lines, upstream, read);
        PrimeCountIs(upstream, read);
        if Primes(upstream[read - 1]) { PrimeStop(upstream, read, broken); }
        if o.err.Some? { return o.err; }
        if sawDone || (c.Some? && Commits(c.value)) { return None; }
      }
      ReadMeans(cfg, Now(), lines, upstream, read);
      PrimeEnds(cfg, Now(), upstream, broken);
      if broken { return Some(FailedBeforeOutput); }
      if o.chunks == 0 { return Some(EmptyStream); }
      err := None;
    }

    /** Hands the outcome to the end callback, once. */
    method Finish(how: End)
      modifies this`finished, this`o, this`ends
      ensures finished && ends == if old(finished) then old(ends) else old(ends) + [old(o).(end := how)]
      ensures old(finished) ==> o == old(o)
    {
      if finished { return; }
      finished := true;
      o := o.(end := how);
      ends := ends + [o];
    }

    method Pop() returns (line: Option<Line>)
      requires pending != []
      modifies this`pending, this`given
      ensures line == Some(old(pending)[0]) && pending == old(pending)[1..] && given == old(given) + 1
    {
      given := given + 1;
      line := Some(pending[0]);
      pending := pending[1..];
    }

    /** Reads until something is to be sent, or the lines run out. */
    method Fill()
      requires Valid() && pending == []
      modifies this`lines, this`pending, this`skipBlank, this`o, this`sawDone, this`roleSent, this`read, unmask
      ensures Valid() && Future() == old(Future()) && (pending != [] || lines == [])
      ensures !finished ==> old(read) <= |upstream| && read == LinesFor(cfg, upstream, given + 1, old(read))
    {
      hide After, Rest, Closing, Relay.Observe, Observed, ReadTo, KeptTo, LinesFor, Mapping.WF;
      if !finished {
        ReadMeans(cfg, Now(), lines, upstream, read);
        LinesForStep(cfg, Now(), skipBlank, given, lines, upstream, read, given + 1);
      }
      while lines != [] && pending == []
        invariant Valid() && Future() == old(Future())
        invariant !finished ==> old(read) <= |upstream| && read <= |upstream|
        invariant !finished ==>
          LinesFor(cfg, upstream, given + 1, old(read)) == LinesFor(cfg, upstream, given + 1, read)
        decreases |lines|
      {
        if !finished { LinesForStep(cfg, Now(), skipBlank, given, lines, upstream, read, given + 1); }
        var c := Take();
        if !finished { ReadMeans(cfg, Now(), lines, upstream, read); }
      }
      if !finished { LinesForStep(cfg, Now(), skipBlank, given + |pending|, lines, upstream, read, given + 1); }
    }

    /** The next line to send; none at the end, where `clean` says that reading did not fail. */
    method Next() returns (line: Option<Line>, clean: bool)
      requires Valid()
      modifies this`lines, this`pending, this`skipBlank, this`o, this`sawDone, this`roleSent, this`finished,
        this`ends, this`read, this`given, unmask
      ensures Valid()
      ensures line == (if old(Future()) == [] then None else Some(old(Future())[0]))
      ensures Future() == (if old(Future()) == [] then [] else old(Future())[1..])
      ensures line.Some? ==> finished == old(finished) && ends == old(ends)
      ensures line.None? ==> finished && clean == !broken
      ensures line.None? ==> ends == if old(finished) then old(ends) else [EndOf(After(cfg, START, upstream), broken)]
      ensures !finished ==> given == old(given) + 1 && old(read) <= |upstream|
      ensures !finished ==> read == LinesFor(cfg, upstream, given, old(read))
    {
      hide After, Rest, Closing, ReadTo, KeptTo, LinesFor, EndOf, Mapping.WF;
      clean := true;
      if pending == [] {
        Fill();
      } else if !finished {
        ReadMeans(cfg, Now(), lines, upstream, read);
        LinesForStep(cfg, Now(), skipBlank, given + |pending|, lines, upstream, read, given + 1);
      }
      if pending != [] {
        FutureStep(pending, Rest(cfg, Now(), skipBlank, lines));
        line := Pop();
      } else {
        line := Last();
        clean := line.Some? || !broken;
      }
    }

    /** Queues what was held back. */
    method QueueTail()
      requires Valid() && lines == [] && pending == []
      modifies this`pending, unmask
      ensures Valid() && Now().held == map[]
      ensures pending == Future() == old(Future())
    {
      hide After, Rest, Closing, ReadTo, KeptTo, Released, Mapping.WF;
      TailQueued(cfg, Now(), skipBlank);
      if !finished { ReleasedToo(cfg, Now(), lines, upstream, read); }
      pending := HeldTail();
    }

    /** Sends what was held back, and ends the response when there is nothing. */
    method Last() returns (line: Option<Line>)
      requires Valid() && lines == [] && pending == []
      modifies this`pending, this`o, this`finished, this`ends, this`given, unmask
      ensures Valid()
      ensures line == (if old(Future()) == [] then None else Some(old(Future())[0]))
      ensures Future() == (if old(Future()) == [] then [] else old(Future())[1..])
      ensures line.Some? ==> finished == old(finished) && ends == old(ends)
      ensures line.None? ==> finished
      ensures line.Some? ==> given == old(given) + 1
      ensures line.None? ==> ends == if old(finished) then old(ends) else [EndOf(After(cfg, START, upstream), broken)]
    {
      hide After, Rest, Closing, ReadTo, KeptTo, EndOf, Mapping.WF;
      QueueTail();
      if pending != [] {
        FutureStep(pending, Rest(cfg, Now(), skipBlank, lines));
        line := Pop();
      } else {
        EndRead();
        line := None;
      }
    }

    /** The lines have run out. */
    method EndRead()
      requires Valid() && lines == [] && pending == [] && Now().held == map[]
      modifies this`o, this`finished, this`ends
      ensures Valid() && finished && Future() == []
      ensures ends == if old(finished) then old(ends) else [EndOf(After(cfg, START, upstream), broken)]
    {
      hide After, EndOf, ReadTo, KeptTo, Mapping.WF, Rest, Closing;
      if !finished { EndedWith(cfg, Now(), lines, upstream, read, broken); }
      if o.err.Some? {
        Finish(ProviderError);
      } else if !broken && (sawDone || o.finish.Some?) {
        Finish(Complete);
      } else if !broken {
        Finish(EofWithoutFinish);
      } else if o.finish.Some? {
        Finish(ReadErrorAfterFinish);
      } else {
        o := o.(err := Some(StreamFailed));
        Finish(ReadError);
      }
      NothingLeft(cfg, Now(), skipBlank);
    }

    /** Releases the provider's stream, of which `left` lines can still be read; reading may then fail.
        Closing before the end is a cancellation, unless the response had already finished. */
    method Close(left: nat, fails: bool)
      requires Valid()
      modifies this`lines, this`broken, this`o, this`finished, this`ends
      ensures Valid() && finished && pending == old(pending)
      ensures ends == if old(finished) then old(ends) else [ClosedWith(After(cfg, START, upstream[..read]))]
    {
      if !finished {
        ClosedAt(cfg, Now(), lines, upstream, read);
        if o.finish.None? && o.err.None? { o := o.(err := Some(ClientCanceled)); }
        Finish(ClosedBeforeEof);
      }
      lines := lines[..if left < |lines| then left else |lines|];
      broken := broken || fails;
    }
  }

  // ---------- A whole response ----------

  /** What a handler does with a stream. */
  datatype Call = ReadNext | CloseBody(left: nat, fails: bool)

  predicate Closes(calls: seq<Call>) { calls != [] && (calls[0].CloseBody? || Closes(calls[1..])) }

  /** How often the handler reads before it first closes. */
  function ReadsIn(calls: seq<Call>): nat {
    if calls == [] || calls[0].CloseBody? then 0 else 1 + ReadsIn(calls[1..])
  }

  lemma {:induction false} FirstClose(calls: seq<Call>, k: nat)
    requires k <= |calls| && (forall i | 0 <= i < k :: calls[i].ReadNext?) && (k < |calls| ==> calls[k].CloseBody?)
    ensures ReadsIn(calls) == k && (Closes(calls) <==> k < |calls|)
  {
    if k > 0 { FirstClose(calls[1..], k - 1); }
  }

  function Upto(n: nat, all: seq<Line>): (r: nat)
    ensures r <= |all|
  {
    if n <= |all| then n else |all|
  }

  /** How many lines are read for `n` reads: as many as priming needs, and then no more than these reads need. */
  ghost function ReadBy(cfg: Config, upstream: seq<Line>, n: nat): (r: nat)
    ensures r <= |upstream|
  {
    if n > |Transduced(cfg, upstream)| then |upstream| else LinesFor(cfg, upstream, n, PrimeCount(upstream))
  }

  /** The outcomes of a response after `n` reads before the first close. */
  ghost function EndsOf(cfg: Config, upstream: seq<Line>, broken: bool, n: nat, closed: bool): seq<Outcome> {
    if n > |Transduced(cfg, upstream)| then [EndOf(After(cfg, START, upstream), broken)]
    else if closed then [ClosedWith(After(cfg, START, upstream[..ReadBy(cfg, upstream, n)]))]
    else []
  }

  /** A response after `n` reads before the first close: what was sent, and how it ended. */
  ghost predicate Served(cfg: Config, upstream: seq<Line>, broken: bool, n: nat, closed: bool, sent: seq<Line>,
        ends: seq<Outcome>)
  {
    var all := Transduced(cfg, upstream);
    sent == all[..Upto(n, all)] && ends == EndsOf(cfg, upstream, broken, n, closed)
  }

  /** How a response ended follows from the lines read: a provider error, or no finish reason when it was closed early
      or reading broke. */
  lemma ServedFails(cfg: Config, upstream: seq<Line>, broken: bool, n: nat, closed: bool, sent: seq<Line>,
        ends: seq<Outcome>)
    requires Served(cfg, upstream, broken, n, closed, sent, ends)
    ensures |ends| <= 1 && (ends == [] <==> !closed && n <= |Transduced(cfg, upstream)|)
    ensures ends != [] ==>
      var seen := upstream[..ReadBy(cfg, upstream, n)]; var ranOut := n > |Transduced(cfg, upstream)|;
      ends[0].err.Some? <==> ErrorSeen(seen) || (!FinishSeen(seen) && (!ranOut || broken))
  {
    hide After, EndOf, ClosedWith, ErrorSeen, FinishSeen, Transduced, LinesFor;
    FailureIsDecidedByTheLines(cfg, upstream[..ReadBy(cfg, upstream, n)], broken);
    assert upstream[..|upstream|] == upstream;
  }

  /** A response served up to `n` reads and not closed, with what will be sent next. */
  ghost predicate Serving(
    cfg: Config, upstream: seq<Line>, broken: bool, n: nat, sent: seq<Line>, ends: seq<Outcome>, future: seq<Line>)
  {
    var all := Transduced(cfg, upstream);
    Served(cfg, upstream, broken, n, false, sent, ends) && future == all[Upto(n, all)..]
  }

  lemma ServingFirst(cfg: Config, upstream: seq<Line>, broken: bool)
    ensures Serving(cfg, upstream, broken, 0, [], [], Transduced(cfg, upstream))
    ensures ReadBy(cfg, upstream, 0) == PrimeCount(upstream)
  {
    hide Transduced;
  }

  lemma ServingMeans(cfg: Config, upstream: seq<Line>, broken: bool, n: nat, sent: seq<Line>, ends: seq<Outcome>,
        future: seq<Line>)
    requires Serving(cfg, upstream, broken, n, sent, ends, future)
    ensures Served(cfg, upstream, broken, n, false, sent, ends)
    ensures ends == [] <==> n <= |Transduced(cfg, upstream)|
    ensures ends != [] ==> future == []
  {
    hide Transduced, EndOf, After;
  }

  /** One more read of a response that was not closed. */
  lemma ServingNext(cfg: Config, upstream: seq<Line>, broken: bool, n: nat, sent: seq<Line>, ends: seq<Outcome>,
        future: seq<Line>)
    requires Serving(cfg, upstream, broken, n, sent, ends, future)
    ensures if future != [] then Serving(cfg, upstream, broken, n + 1, sent + [future[0]], ends, future[1..])
            else Serving(cfg, upstream, broken, n + 1, sent, if ends != [] then ends
              else [EndOf(After(cfg, START, upstream), broken)], [])
    ensures future != [] ==> ReadBy(cfg, upstream, n + 1) == LinesFor(cfg, upstream, n + 1, ReadBy(cfg, upstream, n))
  {
    hide Transduced, EndOf, After, LinesFor;
    LinesForMore(cfg, upstream, n, PrimeCount(upstream));
  }

  lemma ServedClosed(cfg: Config, upstream: seq<Line>, broken: bool, n: nat, sent: seq<Line>, ends: seq<Outcome>)
    requires Served(cfg, upstream, broken, n, false, sent, ends)
    ensures var cut := upstream[..ReadBy(cfg, upstream, n)];
      Served(cfg, upstream, broken, n, true, sent, if ends != [] then ends else [ClosedWith(After(cfg, START, cut))])
  {
    hide Transduced, EndOf, After, ClosedWith;
  }

  /** Calls after the response ended do not end it again. */
  method HandleEnded(stream: ProxyStream, calls: seq<Call>)
    requires stream.Valid() && stream.finished
    modifies stream, stream.unmask
    ensures stream.Valid() && stream.ends == old(stream.ends)
  {
    hide After, EndOf, ClosedWith, ReadTo, KeptTo, LinesFor, Rest, Mapping.WF;
    for k := 0 to |calls|
      invariant stream.Valid() && stream.finished && stream.ends == old(stream.ends)
    {
      match calls[k]
      case ReadNext => var line, clean := stream.Next();
      case CloseBody(left, fails) => stream.Close(left, fails);
    }
  }

  /** One read. */
  method HandleRead(stream: ProxyStream, ghost n: nat, sent: seq<Line>) returns (sent': seq<Line>)
    requires stream.Valid()
      && Serving(stream.cfg, stream.upstream, stream.broken, n, sent, stream.ends, stream.Future())
    requires !stream.finished ==> stream.given == n && stream.read == ReadBy(stream.cfg, stream.upstream, n)
    modifies stream, stream.unmask
    ensures stream.Valid()
      && Serving(stream.cfg, stream.upstream, stream.broken, n + 1, sent', stream.ends, stream.Future())
    ensures !stream.finished ==> stream.given == n + 1 && stream.read == ReadBy(stream.cfg, stream.upstream, n + 1)
    ensures stream.broken == old(stream.broken)
  {
    hide After, EndOf, ClosedWith, ReadTo, KeptTo, LinesFor, ReadBy, Rest, Serving, Mapping.WF;
    ServingNext(stream.cfg, stream.upstream, stream.broken, n, sent, stream.ends, stream.Future());
    var line, clean := stream.Next();
    sent' := if line.Some? then sent + [line.value] else sent;
  }

  /** Any order of reads and closes of a stream that nothing was read from but by priming. */
  method Handle(stream: ProxyStream, calls: seq<Call>) returns (sent: seq<Line>)
    requires stream.Valid() && !stream.finished && stream.given == 0 && stream.read == PrimeCount(stream.upstream)
    requires stream.Future() == Transduced(stream.cfg, stream.upstream)
    modifies stream, stream.unmask
    ensures stream.Valid()
    ensures Served(stream.cfg, stream.upstream, old(stream.broken), ReadsIn(calls), Closes(calls), sent, stream.ends)
  {
    hide After, EndOf, ClosedWith, Served, Serving, ReadTo, KeptTo, ReadBy, Transduced, Rest, PrimeCount, Mapping.WF;
    sent := [];
    ServingFirst(stream.cfg, stream.upstream, stream.broken);
    var k: nat := 0;
    while k < |calls| && calls[k].ReadNext?
      invariant k <= |calls| && stream.Valid() && stream.broken == old(stream.broken)
      invariant forall i | 0 <= i < k :: calls[i].ReadNext?
      invariant Serving(stream.cfg, stream.upstream, stream.broken, k, sent, stream.ends, stream.Future())
      invariant !stream.finished ==> stream.given == k && stream.read == ReadBy(stream.cfg, stream.upstream, k)
    {
      sent := HandleRead(stream, k, sent);
      k := k + 1;
    }
    FirstClose(calls, k);
    ServingMeans(stream.cfg, stream.upstream, stream.broken, k, sent, stream.ends, stream.Future());
    if k < |calls| {
      ServedClosed(stream.cfg, stream.upstream, stream.broken, k, sent, stream.ends);
      stream.Close(calls[k].left, calls[k].fails);
      HandleEnded(stream, calls[k + 1..]);
    }
  }

  /** Serves a response with any order of reads and closes, after priming it. */
  method Serve(upstream: seq<Line>, broken: bool, public: string, hideUsage: bool, mapping: PIIMapping?,
        calls: seq<Call>)
      returns (err: Option<Failure>, sent: seq<Line>, ends: seq<Outcome>)
    requires mapping != null ==> mapping.View().WF()
    ensures err == PrimeFailure(upstream, broken)
    ensures err.Some? ==> sent == [] && ends == []
    ensures var cfg, n := Config(public, hideUsage, MaskedWith(mapping)), ReadsIn(calls);
      && (err.None? ==> Served(cfg, upstream, broken, n, Closes(calls), sent, ends))
      && |ends| <= 1
      && (ends != [] ==>
            var seen, ranOut := upstream[..ReadBy(cfg, upstream, n)], n > |Transduced(cfg, upstream)|;
            ends[0].err.Some? <==> ErrorSeen(seen) || (!FinishSeen(seen) && (!ranOut || broken)))
  {
    hide After, EndOf, ClosedWith, Served, ReadTo, KeptTo, ReadBy, Transduced, Rest, PrimeFailure, PrimeCount,
      ErrorSeen, FinishSeen, Mapping.WF;
    var unmask: StreamUnmasker? := null;
    sent, ends := [], [];
    if mapping != null {
      var masked := mapping.Len();
      if masked > 0 { unmask := new StreamUnmasker(mapping); }
    }
    var stream := new ProxyStream(upstream, broken, public, hideUsage, unmask);
    ghost var cfg := stream.cfg;
    assert cfg == Config(public, hideUsage, MaskedWith(mapping));
    StartOf(cfg, upstream);
    err := stream.Prime();
    if err.Some? { return; }
    sent := Handle(stream, calls);
    ends := stream.ends;
    ServedFails(cfg, upstream, broken, ReadsIn(calls), Closes(calls), sent, ends);
  }

  lemma StartOf(cfg: Config, upstream: seq<Line>)
    ensures [] + Rest(cfg, START, false, upstream) == Transduced(cfg, upstream)
  {
    FutureOf([], Rest(cfg, START, false, upstream));
  }
}
