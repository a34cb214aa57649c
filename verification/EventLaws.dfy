/** What restoring and relaying leave of an event (apps/gateway/internal/application/services/pii.go, unmasker.event,
    release, tail; proxy.go, observe): everything but the text, a repeated role and the model name. */
module EventLaws {
  import opened Common
  import opened Wrappers
  import opened Text
  import opened Mappings
  import opened Unmasking
  import opened ChatEvents
  import opened Unmasker
  import opened UnmaskerLaws
  import opened Relay
  import opened RelayLaws
  import opened StreamOutcome

  // ---------- One choice ----------

  /** The calls keep their places and indexes; new ones come behind them, each with an index. */
  predicate CallsKept(calls: seq<ToolCall>, after: seq<ToolCall>) {
    && |calls| <= |after| && (forall i | 0 <= i < |calls| :: after[i].index == calls[i].index)
    && forall i | |calls| <= i < |after| :: after[i].index.Some?
  }

  predicate DeltaKept(d: Delta, after: Delta) {
    after.role == d.role && d.text.Keys <= after.text.Keys && CallsKept(d.toolCalls, after.toolCalls)
  }

  /** Index, finish reason, role and calls stay; nothing is added to a choice that does not finish. */
  predicate ChoiceKept(c: Choice, after: Choice) {
    && after.index == c.index && after.finish == c.finish
    && (c.delta.Some? ==> after.delta.Some? && DeltaKept(c.delta.value, after.delta.value))
    && (c.delta.None? && after.delta.Some? ==> DeltaKept(NO_DELTA, after.delta.value))
    && (c.finish.None? ==> after.delta.Some? == c.delta.Some?)
    && (c.finish.None? && c.delta.Some? ==>
          after.delta.value.text.Keys == c.delta.value.text.Keys
          && |after.delta.value.toolCalls| == |c.delta.value.toolCalls|)
  }

  lemma {:induction false} FedFieldsKept(m: Mapping, t: Texts, fields: seq<Field>)
    ensures FeedFields(m, t, fields).text.Keys == t.text.Keys
    decreases |fields|
  {
    if fields != [] {
      hide FeedBuffer, FeedOut;
      FedFieldsKept(m, FeedField(m, t, fields[0]), fields[1..]);
    }
  }

  lemma {:induction false} FedCallsKept(m: Mapping, tools: map<Index, string>, calls: seq<ToolCall>)
    ensures var after := CallsOut(m, tools, calls); |after| == |calls| && CallsKept(calls, after)
    decreases |calls|
  {
    if calls != [] {
      hide FeedBuffer, FeedOut;
      var k, x := calls[0].Key(), calls[0].Text();
      FedCallsKept(m, if x == "" then tools else tools[k := FeedBuffer(m, ToolBuffer(tools, k), x)], calls[1..]);
    }
  }

  lemma {:induction false} ReleasedFieldsKept(m: Mapping, held: map<Field, string>, text: map<Field, string>,
        fields: seq<Field>)
    ensures text.Keys <= ReleaseFields(m, held, text, fields).Keys
    decreases |fields|
  {
    if fields != [] {
      hide Unmask;
      ReleasedFieldsKept(m, held, ReleaseField(m, held, text, fields[0]), fields[1..]);
    }
  }

  lemma {:induction false} AppendedKept(calls: seq<ToolCall>, k: Index, tail: string)
    ensures CallsKept(calls, AppendToCalls(calls, k, tail))
  {
    if calls != [] { AppendedKept(calls[1..], k, tail); }
  }

  lemma KeptTransitive(a: seq<ToolCall>, b: seq<ToolCall>, c: seq<ToolCall>)
    requires CallsKept(a, b) && CallsKept(b, c)
    ensures CallsKept(a, c)
  {
  }

  lemma {:induction false} ReleasedCallsKept(m: Mapping, tools: map<Index, string>, keys: seq<Index>,
        calls: seq<ToolCall>)
    ensures CallsKept(calls, ReleaseCalls(m, tools, keys, calls))
    decreases |keys|
  {
    if keys != [] {
      hide Unmask, HasCall;
      var tail := Unmask(m, ToolBuffer(tools, keys[0]));
      var next := ReleaseCall(calls, keys[0], tail);
      AppendedKept(calls, keys[0], tail);
      ReleasedCallsKept(m, tools, keys[1..], next);
      KeptTransitive(calls, next, ReleaseCalls(m, tools, keys[1..], next));
    }
  }

  lemma FedKept(m: Mapping, h: HeldChoice, d: Delta)
    ensures var after := DeltaOut(m, h, d);
      && DeltaKept(d, after) && after.text.Keys == d.text.Keys && |after.toolCalls| == |d.toolCalls|
  {
    FedFieldsKept(m, Texts(h.text, d.text), GENERATED);
    FedCallsKept(m, h.tools, d.toolCalls);
    hide FeedFields, CallsOut;
  }

  lemma ReleasedKept(m: Mapping, h: HeldChoice, d: Delta)
    ensures DeltaKept(d, ReleaseDelta(m, h, d))
  {
    ReleasedFieldsKept(m, h.text, d.text, GENERATED);
    ReleasedCallsKept(m, h.tools, SortedKeys(h.tools.Keys), d.toolCalls);
    hide ReleaseFields, ReleaseCalls, SortedKeys;
  }

  lemma ChoiceOutKept(m: Mapping, h: HeldChoice, c: Choice)
    ensures ChoiceKept(c, ChoiceOut(m, h, c))
  {
    hide DeltaOut, ReleaseDelta, Releases, FeedChoice;
    var fed, d := FedChoice(m, h, c), if c.delta.Some? then c.delta.value else NO_DELTA;
    FedKept(m, h, d);
    var d' := if fed.delta.Some? then fed.delta.value else NO_DELTA;
    ReleasedKept(m, FeedChoice(m, h, c), d');
    KeptTransitive(d.toolCalls, d'.toolCalls, ReleaseDelta(m, FeedChoice(m, h, c), d').toolCalls);
  }

  // ---------- One event ----------

  predicate EventKept(e: Event, after: Event) {
    && after.id == e.id && after.model == e.model && after.usage == e.usage && after.error == e.error
    && after.baseStatus == e.baseStatus && |after.choices| == |e.choices|
    && forall i | 0 <= i < |e.choices| :: ChoiceKept(e.choices[i], after.choices[i])
  }

  lemma {:induction false} ChoicesOutKept(m: Mapping, held: Held, choices: seq<Choice>, pos: nat)
    ensures var after := ChoicesOut(m, held, choices, pos);
      |after| == |choices| && forall i | 0 <= i < |choices| :: ChoiceKept(choices[i], after[i])
    decreases |choices|
  {
    if choices != [] {
      var k := choices[0].Key(pos);
      ChoiceOutKept(m, HeldOf(held, k), choices[0]);
      hide ChoiceOut, HeldAfter, ChoiceKept;
      ChoicesOutKept(m, HeldAfter(m, held, k, choices[0]), choices[1..], pos + 1);
    }
  }

  /** Restoring an event changes nothing but its text, and adds only what a finishing choice still held. */
  lemma RestoringKeepsEvent(m: Mapping, held: Held, e: Event)
    ensures EventKept(e, EventOut(m, held, e))
  {
    ChoicesOutKept(m, held, e.choices, 0);
    hide ChoicesOut, ChoiceKept;
  }

  // ---------- Which channel a choice belongs to ----------

  lemma AtInjective(i: nat, j: nat)
    requires At(i) == At(j)
    ensures i == j
  {
    DecimalInjective(i, j);
  }

  /** Without indexes each choice of an event is fed to the channels of its own place. */
  lemma {:induction false} PlacesCount(choices: seq<Choice>, pos: nat, i: nat, ch: Channel)
    requires forall c | c in choices :: c.index.None?
    requires i < |choices| && ch.choice == At(pos + i)
    ensures EventInputs(choices, pos, ch) == ChoiceInputs(choices[i], ch)
    decreases |choices|
  {
    hide At, ChoiceInputs;
    assert choices[0] in choices;
    if i == 0 {
      PlacesBehind(choices[1..], pos + 1, pos, ch);
    } else {
      if At(pos) == At(pos + i) { AtInjective(pos, pos + i); }
      PlacesCount(choices[1..], pos + 1, i - 1, ch);
    }
  }

  lemma {:induction false} PlacesBehind(choices: seq<Choice>, pos: nat, before: nat, ch: Channel)
    requires (forall c | c in choices :: c.index.None?) && before < pos && ch.choice == At(before)
    ensures EventInputs(choices, pos, ch) == []
    decreases |choices|
  {
    hide At, ChoiceInputs;
    if choices != [] {
      assert choices[0] in choices;
      if At(pos) == At(before) { AtInjective(pos, before); }
      PlacesBehind(choices[1..], pos + 1, before, ch);
    }
  }

  // ---------- The closing event ----------

  /** Sorted as strings, index 10 comes before index 2. */
  lemma TenBeforeTwo()
    ensures Precedes(At(10), At(2)) && !Precedes(At(2), At(10))
  {
    assert Decimal(1) == "1" && Decimal(10)[0] == '1' && Decimal(2) == "2";
  }

  /** A choice that only carries text still held: an index, something to read, no role and no finish reason. */
  predicate ClosesOne(c: Choice) {
    c.index.Some? && c.finish.None? && c.delta.Some? && c.delta.value.role.None? && CarriesOutput(c)
  }

  /** One choice for each index, sorted by spelling. */
  predicate ClosesChoices(choices: seq<Choice>) {
    && (forall i | 0 <= i < |choices| :: ClosesOne(choices[i]))
    && forall i, j | 0 <= i < j < |choices| :: Precedes(choices[i].index.value, choices[j].index.value)
  }

  predicate ClosingEvent(e: Event, id: string, public: string) {
    && e.id == id && e.model == Some(public) && e.usage.None? && e.error.Absent? && e.baseStatus.None?
    && e.choices != [] && ClosesChoices(e.choices)
  }

  lemma ReleasedCarries(m: Mapping, h: HeldChoice, k: Index)
    requires Releases(m, h)
    ensures var c := Release(m, h, Choice(Some(k), Some(NO_DELTA), None)); ClosesOne(c) && c.index == Some(k)
  {
    var empty := Choice(Some(k), Some(NO_DELTA), None);
    var c := Release(m, h, empty);
    ReleasedKept(m, h, NO_DELTA);
    if f :| f in h.text && Unmask(m, h.text[f]) != "" {
      TextReleased(m, h, k, f);
    } else {
      var t :| t in h.tools && Unmask(m, h.tools[t]) != "";
      CallReleased(m, h, k, t);
    }
  }

  lemma TextReleased(m: Mapping, h: HeldChoice, k: Index, f: Field)
    requires f in h.text && Unmask(m, h.text[f]) != ""
    ensures CarriesOutput(Release(m, h, Choice(Some(k), Some(NO_DELTA), None)))
  {
    TailChoice(m, h, k, 0, TextChannel(k, f));
    hide Unmask, Release;
  }

  lemma CallReleased(m: Mapping, h: HeldChoice, k: Index, t: Index)
    requires t in h.tools && Unmask(m, h.tools[t]) != ""
    ensures CarriesOutput(Release(m, h, Choice(Some(k), Some(NO_DELTA), None)))
  {
    TailChoice(m, h, k, 0, ArgsChannel(k, t));
    hide Unmask, Release;
  }

  lemma {:induction false} TailCloses(m: Mapping, held: Held, keys: seq<Index>)
    requires Ordered(keys)
    ensures var choices := TailChoices(m, held, keys);
      ClosesChoices(choices) && forall i | 0 <= i < |choices| :: choices[i].index.value in keys
    decreases |keys|
  {
    hide Release, Releases, Precedes, CarriesOutput;
    if keys != [] {
      OrderedTail(keys, keys[0]);
      var h := HeldOf(held, keys[0]);
      if Releases(m, h) { ReleasedCarries(m, h, keys[0]); }
      TailCloses(m, held, keys[1..]);
      var rest, choices := TailChoices(m, held, keys[1..]), TailChoices(m, held, keys);
      assert keys == [keys[0]] + keys[1..];
      forall i, j | 0 <= i < j < |choices|
        ensures Precedes(choices[i].index.value, choices[j].index.value)
      {
        if Releases(m, h) && i == 0 {
          assert choices[j] == rest[j - 1];
          var l :| 0 < l < |keys| && keys[l] == choices[j].index.value;
        }
      }
    }
  }

  /** The closing event carries nothing but text still held, for each choice once. */
  lemma TailIsClosing(m: Mapping, held: Held, id: string, public: string)
    ensures var tail := Tail(m, held, id, public); tail.Some? ==> ClosingEvent(tail.value, id, public)
  {
    TailCloses(m, held, SortedKeys(held.Keys));
    hide TailChoices, SortedKeys, ClosesChoices;
  }

  // ---------- Every line of a stream ----------

  function NoRole(c: Choice): Choice {
    if c.delta.Some? then c.(delta := Some(c.delta.value.(role := None))) else c
  }

  /** The choice with its role, or without it, and with its text restored when something is masked. */
  predicate ChoiceRelayed(masked: bool, c: Choice, after: Choice) {
    if masked then ChoiceKept(c, after) || ChoiceKept(NoRole(c), after) else after == c || after == NoRole(c)
  }

  /** The event as it was, with the public model name where it names a model. */
  predicate EventRelayed(cfg: Config, e: Event, after: Event) {
    && after.id == e.id && after.usage == e.usage && after.error == e.error && after.baseStatus == e.baseStatus
    && after.model == (if e.model.Some? then Some(cfg.public) else None)
    && |after.choices| == |e.choices|
    && forall i | 0 <= i < |e.choices| :: ChoiceRelayed(cfg.mapping.Some?, e.choices[i], after.choices[i])
  }

  /** Nothing, or the closing event under the id of the response and a blank line. */
  predicate ClosingLines(cfg: Config, id: string, closing: seq<Line>) {
    closing != [] ==>
      && cfg.mapping.Some? && |closing| == 2 && closing[1] == Plain("")
      && closing[0].Data? && ClosingEvent(closing[0].event, id, cfg.public)
  }

  /** The lines sent are the upstream lines one for one; what is still held comes before the end marker. */
  ghost predicate SentFor(cfg: Config, id: string, lines: seq<Line>, out: seq<Line>)
    decreases |lines|
  {
    if lines == [] then out == []
    else if lines[0].Done? then exists n: nat | n < |out| :: EndsAt(cfg, id, lines, out, n)
    else
      && out != [] && LineSent(cfg, lines[0], out[0])
      && SentFor(cfg, IdAfter(id, lines[0]), lines[1..], out[1..])
  }

  /** The end marker is line `n`, behind the closing lines. */
  ghost predicate EndsAt(cfg: Config, id: string, lines: seq<Line>, out: seq<Line>, n: nat)
    requires lines != [] && n < |out|
    decreases |lines|, 0
  {
    ClosingLines(cfg, id, out[..n]) && out[n] == lines[0] && SentFor(cfg, id, lines[1..], out[n + 1..])
  }

  predicate LineSent(cfg: Config, line: Line, out: Line) {
    if line.Data? then out.Data? && EventRelayed(cfg, line.event, out.event) else out == line
  }

  function IdAfter(id: string, line: Line): string {
    if line.Data? && line.event.id != "" then line.event.id else id
  }

  lemma {:induction false} RolesRemoved(drop: set<Index>, choices: seq<Choice>, pos: nat)
    ensures var after := WithoutRoles(drop, choices, pos);
      forall i | 0 <= i < |choices| :: after[i] == choices[i] || after[i] == NoRole(choices[i])
    decreases |choices|
  {
    if choices != [] { RolesRemoved(drop, choices[1..], pos + 1); }
  }

  lemma RelayedKeeps(cfg: Config, s: State, e: Event)
    ensures EventRelayed(cfg, e, Relayed(cfg, s, e))
  {
    var drop := Repeated(s.roles, e.choices, 0);
    var once := WithoutRoles(drop, e.choices, 0);
    RolesRemoved(drop, e.choices, 0);
    hide Repeated, WithoutRoles, EventOut, ChoiceKept, NoRole;
    if cfg.mapping.Some? { RestoringKeepsEvent(cfg.mapping.value, s.held, e.(choices := once)); }
  }

  lemma ClosingIs(cfg: Config, s: State)
    ensures ClosingLines(cfg, s.o.providerID, Closing(cfg, s))
  {
    hide ClosingEvent, Tail;
    if cfg.mapping.Some? { TailIsClosing(cfg.mapping.value, s.held, s.o.providerID, cfg.public); }
  }

  lemma {:induction false} ObservedIsSent(cfg: Config, s: State, lines: seq<Line>)
    ensures SentFor(cfg, s.o.providerID, lines, AllObserved(cfg, s, lines))
    decreases |lines|
  {
    hide Relayed, Closing, HeldBack, RolesAfter, EventRelayed, ClosingLines;
    if lines != [] {
      var line, s', out := lines[0], Observe(cfg, s, lines[0]), AllObserved(cfg, s, lines);
      var rest := AllObserved(cfg, s', lines[1..]);
      ObservedIsSent(cfg, s', lines[1..]);
      if line.Done? {
        var closing := Closing(cfg, s);
        ClosingIs(cfg, s);
        assert out == closing + [line] + rest;
        assert out[..|closing|] == closing && out[|closing| + 1..] == rest;
        assert EndsAt(cfg, s.o.providerID, lines, out, |closing|);
      } else {
        if line.Data? { RelayedKeeps(cfg, s, line.event); }
        assert out[1..] == rest;
      }
    }
  }

  /** The client is sent the upstream lines one for one and in order, apart from the hidden usage lines; text still held
      comes before the end marker or at the very end. */
  lemma LinesAreRelayed(cfg: Config, lines: seq<Line>) returns (sent: seq<Line>, closing: seq<Line>)
    ensures SentFor(cfg, "", lines, sent) && ClosingLines(cfg, LastID(lines), closing)
    ensures Transduced(cfg, lines) == Undropped(cfg.hideUsage, sent + closing, |sent + closing|)
  {
    sent, closing := AllObserved(cfg, START, lines), Closing(cfg, After(cfg, START, lines));
    ObservedIsSent(cfg, START, lines);
    ClosingIs(cfg, After(cfg, START, lines));
    OutcomeRead(cfg, START, lines);
    OnlyUsageIsDropped(cfg, lines);
    hide AllObserved, Closing, After, SentFor, ClosingLines, LastID, Undropped, Transduced;
  }
}
