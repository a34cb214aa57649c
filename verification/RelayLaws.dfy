/** What a relayed stream carries: each role once, and the restored text of every channel. */
module RelayLaws {
  import opened Common
  import opened Wrappers
  import opened Text
  import opened Mappings
  import opened Unmasking
  import opened PIIStream
  import opened ChatEvents
  import opened Unmasker
  import opened UnmaskerLaws
  import opened Relay

  // ---------- Roles in one event ----------

  lemma {:induction false} RepeatedIff(roles: set<Index>, choices: seq<Choice>, pos: nat, k: Index)
    ensures k in Repeated(roles, choices, pos) <==> RolesIn(choices, pos, k) >= if k in roles then 1 else 2
    ensures k in RolesAfter(roles, choices, pos) <==> k in roles || RolesIn(choices, pos, k) >= 1
    decreases |choices|
  {
    if choices != [] {
      RepeatedIff(if HasRole(choices[0]) then roles + {choices[0].Key(pos)} else roles, choices[1..], pos + 1, k);
    }
  }

  lemma {:induction false} WithoutRolesIn(drop: set<Index>, choices: seq<Choice>, pos: nat, k: Index)
    ensures RolesIn(WithoutRoles(drop, choices, pos), pos, k) == if k in drop then 0 else RolesIn(choices, pos, k)
    decreases |choices|
  {
    if choices != [] {
      WithoutRolesIn(drop, choices[1..], pos + 1, k);
      assert WithoutRoles(drop, choices, pos)[1..] == WithoutRoles(drop, choices[1..], pos + 1);
    }
  }

  lemma ReleaseKeepsRole(m: Mapping, h: HeldChoice, c: Choice)
    ensures Release(m, h, c).index == c.index && HasRole(Release(m, h, c)) == HasRole(c)
  {
    hide Releases, ReleaseFields, ReleaseCalls, SortedKeys;
  }

  lemma ChoiceOutKeepsRole(m: Mapping, h: HeldChoice, c: Choice)
    ensures ChoiceOut(m, h, c).index == c.index && HasRole(ChoiceOut(m, h, c)) == HasRole(c)
  {
    hide Release, FeedChoice, FeedFields, CallsOut;
    ReleaseKeepsRole(m, FeedChoice(m, h, c), FedChoice(m, h, c));
  }

  /** Restoring text neither adds nor removes a role. */
  lemma {:induction false} RestoringKeepsRoles(m: Mapping, held: Held, choices: seq<Choice>, pos: nat, k: Index)
    ensures RolesIn(ChoicesOut(m, held, choices, pos), pos, k) == RolesIn(choices, pos, k)
    decreases |choices|
  {
    if choices != [] {
      var key := choices[0].Key(pos);
      ChoiceOutKeepsRole(m, HeldOf(held, key), choices[0]);
      hide ChoiceOut, HeldAfter, HasRole;
      RestoringKeepsRoles(m, HeldAfter(m, held, key, choices[0]), choices[1..], pos + 1, k);
      assert ChoicesOut(m, held, choices, pos)[1..]
        == ChoicesOut(m, HeldAfter(m, held, key, choices[0]), choices[1..], pos + 1);
    }
  }

  lemma {:induction false} TailHasNoRole(m: Mapping, held: Held, keys: seq<Index>, pos: nat, k: Index)
    ensures RolesIn(TailChoices(m, held, keys), pos, k) == 0
    decreases |keys|
  {
    if keys != [] {
      var h := HeldOf(held, keys[0]);
      ReleaseKeepsRole(m, h, Choice(Some(keys[0]), Some(NO_DELTA), None));
      hide Release, Releases;
      var rest := TailChoices(m, held, keys[1..]);
      if Releases(m, h) {
        assert TailChoices(m, held, keys)[1..] == rest;
        TailHasNoRole(m, held, keys[1..], pos + 1, k);
      } else {
        assert TailChoices(m, held, keys) == rest;
        TailHasNoRole(m, held, keys[1..], pos, k);
      }
    }
  }

  // ---------- Roles in a stream ----------

  function RolesOf(line: Line, k: Index): nat { if line.Data? then RolesIn(line.event.choices, 0, k) else 0 }

  /** How often the lines carry a role for choice `k`. */
  function RolesFor(lines: seq<Line>, k: Index): nat {
    if lines == [] then 0 else RolesOf(lines[0], k) + RolesFor(lines[1..], k)
  }

  /** How often the first event with a role for choice `k` carries it. */
  function FirstRoles(lines: seq<Line>, k: Index): nat {
    if lines == [] then 0 else if RolesOf(lines[0], k) > 0 then RolesOf(lines[0], k) else FirstRoles(lines[1..], k)
  }

  lemma {:induction false} RolesConcat(a: seq<Line>, b: seq<Line>, k: Index)
    ensures RolesFor(a + b, k) == RolesFor(a, k) + RolesFor(b, k)
  {
    if a == [] {
      assert a + b == b;
    } else {
      RolesConcat(a[1..], b, k);
      assert (a + b)[1..] == a[1..] + b;
    }
  }

  lemma {:induction false} HiddenHaveNoRole(hideUsage: bool, skipBlank: bool, lines: seq<Line>, k: Index)
    ensures RolesFor(Kept(hideUsage, skipBlank, lines), k) == RolesFor(lines, k)
    decreases |lines|
  {
    if lines != [] {
      HiddenHaveNoRole(hideUsage, hideUsage && UsageOnly(lines[0]), lines[1..], k);
      RolesConcat(if Keeps(hideUsage, skipBlank, lines[0]) then [lines[0]] else [],
                  Kept(hideUsage, hideUsage && UsageOnly(lines[0]), lines[1..]), k);
      assert RolesFor([lines[0]], k) == RolesOf(lines[0], k);
    }
  }

  lemma RolesOfOne(line: Line, k: Index)
    ensures RolesFor([line], k) == RolesOf(line, k)
  {
    assert [line][1..] == [];
  }

  lemma ClosingHasNoRole(cfg: Config, s: State, k: Index)
    ensures RolesFor(Closing(cfg, s), k) == 0
  {
    var closing := Closing(cfg, s);
    if closing != [] {
      TailHasNoRole(cfg.mapping.value, s.held, SortedKeys(s.held.Keys), 0, k);
      var tail := closing[0];
      assert closing == [tail] + [BLANK] && RolesOf(tail, k) == RolesOf(BLANK, k) == 0;
      hide TailChoices, SortedKeys, Closing, RolesOf;
      RolesConcat([tail], [BLANK], k);
      RolesOfOne(tail, k);
      RolesOfOne(BLANK, k);
    }
  }

  lemma EventRoles(cfg: Config, s: State, e: Event, k: Index)
    ensures RolesIn(Relayed(cfg, s, e).choices, 0, k) == if k in s.roles || RolesIn(e.choices, 0, k) != 1 then 0 else 1
  {
    var drop := Repeated(s.roles, e.choices, 0);
    var once := WithoutRoles(drop, e.choices, 0);
    RepeatedIff(s.roles, e.choices, 0, k);
    WithoutRolesIn(drop, e.choices, 0, k);
    if cfg.mapping.Some? { RestoringKeepsRoles(cfg.mapping.value, s.held, once, 0, k); }
    hide RolesIn, Repeated, WithoutRoles, ChoicesOut;
  }

  lemma LineRoles(cfg: Config, s: State, line: Line, k: Index)
    ensures RolesFor(Observed(cfg, s, line), k) == if k in s.roles || RolesOf(line, k) != 1 then 0 else 1
    ensures k in Observe(cfg, s, line).roles <==> k in s.roles || RolesOf(line, k) > 0
  {
    hide Relayed, HeldBack, RolesAfter, Closing, RolesIn;
    var out := Observed(cfg, s, line);
    if line.Data? {
      EventRoles(cfg, s, line.event, k);
      RepeatedIff(s.roles, line.event.choices, 0, k);
      assert out[1..] == [];
    } else if line.Done? {
      ClosingHasNoRole(cfg, s, k);
      RolesConcat(Closing(cfg, s), [line], k);
      assert RolesFor([line], k) == 0;
    } else {
      assert out[1..] == [];
    }
  }

  lemma {:induction false} RolesObserved(cfg: Config, s: State, lines: seq<Line>, k: Index)
    ensures RolesFor(AllObserved(cfg, s, lines), k) == if k in s.roles || FirstRoles(lines, k) != 1 then 0 else 1
    decreases |lines|
  {
    if lines != [] {
      LineRoles(cfg, s, lines[0], k);
      hide Observe, Observed, RolesOf;
      var s' := Observe(cfg, s, lines[0]);
      RolesObserved(cfg, s', lines[1..], k);
      RolesConcat(Observed(cfg, s, lines[0]), AllObserved(cfg, s', lines[1..]), k);
    }
  }

  /** Over a whole stream a role is sent at most once per choice: when the first event that has one has one. */
  lemma RoleSentOnce(cfg: Config, lines: seq<Line>, k: Index)
    ensures RolesFor(Transduced(cfg, lines), k) == if FirstRoles(lines, k) == 1 then 1 else 0
  {
    var observed, closing := AllObserved(cfg, START, lines), Closing(cfg, After(cfg, START, lines));
    RolesObserved(cfg, START, lines, k);
    HiddenHaveNoRole(cfg.hideUsage, false, observed, k);
    ClosingHasNoRole(cfg, After(cfg, START, lines), k);
    hide AllObserved, Closing, RolesFor, FirstRoles, Kept, After;
    RolesConcat(Kept(cfg.hideUsage, false, observed), closing, k);
  }

  // ---------- Text in one event ----------

  function LineText(line: Line, ch: Channel): string { if line.Data? then EventText(line.event.choices, 0, ch) else "" }

  /** The text that the lines carry on a channel. */
  function TextFor(lines: seq<Line>, ch: Channel): string {
    if lines == [] then "" else LineText(lines[0], ch) + TextFor(lines[1..], ch)
  }

  lemma TextCons(lines: seq<Line>, ch: Channel)
    requires lines != []
    ensures TextFor(lines, ch) == LineText(lines[0], ch) + TextFor(lines[1..], ch)
  {
  }

  lemma TextOfNone(ch: Channel)
    ensures TextFor([], ch) == ""
  {
  }

  lemma {:induction false} TextConcat(a: seq<Line>, b: seq<Line>, ch: Channel)
    ensures TextFor(a + b, ch) == TextFor(a, ch) + TextFor(b, ch)
  {
    hide *;
    if a == [] {
      assert a + b == b;
      TextOfNone(ch);
      NothingAround(TextFor(b, ch));
    } else {
      TextConcat(a[1..], b, ch);
      TextCons(a, ch);
      ConsConcat(a, b);
      TextCons(a + b, ch);
      Assoc(LineText(a[0], ch), TextFor(a[1..], ch), TextFor(b, ch));
    }
  }

  lemma TextOfOne(line: Line, ch: Channel)
    ensures TextFor([line], ch) == LineText(line, ch)
  {
    assert [line][1..] == [];
  }

  lemma {:induction false} HiddenHaveNoText(hideUsage: bool, skipBlank: bool, lines: seq<Line>, ch: Channel)
    ensures TextFor(Kept(hideUsage, skipBlank, lines), ch) == TextFor(lines, ch)
    decreases |lines|
  {
    if lines != [] {
      HiddenHaveNoText(hideUsage, hideUsage && UsageOnly(lines[0]), lines[1..], ch);
      TextOfOne(lines[0], ch);
      var kept := if Keeps(hideUsage, skipBlank, lines[0]) then [lines[0]] else [];
      TextConcat(kept, Kept(hideUsage, hideUsage && UsageOnly(lines[0]), lines[1..]), ch);
      assert kept == [] ==> TextFor([lines[0]], ch) == "";
    }
  }

  lemma {:induction false} WithoutRolesSameText(drop: set<Index>, choices: seq<Choice>, pos: nat, ch: Channel)
    ensures EventText(WithoutRoles(drop, choices, pos), pos, ch) == EventText(choices, pos, ch)
    ensures EventInputs(WithoutRoles(drop, choices, pos), pos, ch) == EventInputs(choices, pos, ch)
    decreases |choices|
  {
    if choices != [] {
      WithoutRolesSameText(drop, choices[1..], pos + 1, ch);
      var out := WithoutRoles(drop, choices, pos);
      assert out[1..] == WithoutRoles(drop, choices[1..], pos + 1);
      assert ChoiceText(out[0], ch) == ChoiceText(choices[0], ch);
      assert ChoiceInputs(out[0], ch) == ChoiceInputs(choices[0], ch);
    }
  }

  lemma {:induction false} WithoutRolesClean(m: Mapping, buf: string, drop: set<Index>, choices: seq<Choice>, pos: nat,
        ch: Channel)
    ensures CleanEvent(m, buf, WithoutRoles(drop, choices, pos), pos, ch) == CleanEvent(m, buf, choices, pos, ch)
    decreases |choices|
  {
    if choices != [] {
      var out := WithoutRoles(drop, choices, pos);
      assert out[1..] == WithoutRoles(drop, choices[1..], pos + 1);
      assert ChoiceFeeds(out[0], ch) == ChoiceFeeds(choices[0], ch) && Named(out[0], ch) == Named(choices[0], ch);
      hide RunBuffer, ChoiceFeeds, Named;
      WithoutRolesClean(m, buf, drop, choices[1..], pos + 1, ch);
      WithoutRolesClean(m, RunBuffer(m, buf, ChoiceInputs(choices[0], ch)), drop, choices[1..], pos + 1, ch);
    }
  }

  // ---------- Text in a stream ----------

  /** What one line gives a channel: an event its pieces, the end marker an end. */
  function LineInput(line: Line, ch: Channel): seq<Input> {
    match line
    case Data(e) => EventInputs(e.choices, 0, ch)
    case Done(_) => [Input("", true)]
    case _ => []
  }

  function LineInputs(lines: seq<Line>, ch: Channel): seq<Input> {
    if lines == [] then [] else LineInput(lines[0], ch) + LineInputs(lines[1..], ch)
  }

  ghost predicate CleanLine(m: Mapping, buf: string, line: Line, ch: Channel) {
    line.Data? ==> CleanEvent(m, buf, line.event.choices, 0, ch)
  }

  /** At every finishing choice of the stream the channel's call is named at most once or holds nothing to flush. */
  ghost predicate CleanLines(m: Mapping, buf: string, lines: seq<Line>, ch: Channel)
    decreases |lines|
  {
    lines == []
    || (CleanLine(m, buf, lines[0], ch) && CleanLines(m, RunBuffer(m, buf, LineInput(lines[0], ch)), lines[1..], ch))
  }

  /** A stream is clean for every text channel, and for the arguments of a call that no finishing choice names twice. */
  lemma {:induction false} NamedOnceLinesAreClean(m: Mapping, buf: string, lines: seq<Line>, ch: Channel)
    requires ch.TextChannel?
      || forall i | 0 <= i < |lines| && lines[i].Data? :: NamedOnce(lines[i].event.choices, 0, ch)
    ensures CleanLines(m, buf, lines, ch)
    decreases |lines|
  {
    if lines != [] {
      hide RunBuffer, LineInput, NamedOnce, CleanEvent;
      assert forall i | 0 <= i < |lines| - 1 :: lines[1..][i] == lines[i + 1];
      if lines[0].Data? { NamedOnceIsClean(m, buf, lines[0].event.choices, 0, ch); }
      NamedOnceLinesAreClean(m, RunBuffer(m, buf, LineInput(lines[0], ch)), lines[1..], ch);
    }
  }

  /** The pieces make up the text that the lines carry. */
  lemma {:induction false} LineInputsText(lines: seq<Line>, ch: Channel)
    ensures AllText(LineInputs(lines, ch)) == TextFor(lines, ch)
  {
    if lines != [] {
      if lines[0].Data? { EventInputsText(lines[0].event.choices, 0, ch); }
      LineInputsText(lines[1..], ch);
      AllTextConcat(LineInput(lines[0], ch), LineInputs(lines[1..], ch));
      assert AllText([Input("", true)]) == "" + "";
      hide EventText, EventInputs;
    }
  }

  lemma RelayedText(m: Mapping, cfg: Config, s: State, e: Event, ch: Channel)
    requires cfg.mapping == Some(m)
    ensures var b, inputs := Buffered(s.held, ch), EventInputs(e.choices, 0, ch);
      && Agrees(EventText(Relayed(cfg, s, e).choices, 0, ch), RunOut(m, b, inputs),
                CleanEvent(m, b, e.choices, 0, ch))
      && Buffered(HeldBack(cfg, s, e), ch) == RunBuffer(m, b, inputs)
  {
    var drop := Repeated(s.roles, e.choices, 0);
    var once := WithoutRoles(drop, e.choices, 0);
    WithoutRolesSameText(drop, e.choices, 0, ch);
    WithoutRolesClean(m, Buffered(s.held, ch), drop, e.choices, 0, ch);
    EventChannel(m, s.held, once, 0, ch);
    assert Behaves(m, s.held, once, 0, ch);
    hide Repeated, WithoutRoles, Buffered, RunOut, RunBuffer, EventInputs, CleanEvent, Agrees;
    if e.choices == [] { NoChoices(m, s.held, once, ch); }
  }

  lemma NoChoices(m: Mapping, held: Held, choices: seq<Choice>, ch: Channel)
    ensures choices == [] ==> ChoicesOut(m, held, choices, 0) == [] && FeedChoices(m, held, choices, 0) == held
  {
  }

  lemma ClosingText(m: Mapping, cfg: Config, s: State, ch: Channel)
    requires cfg.mapping == Some(m)
    ensures TextFor(Closing(cfg, s), ch) == Unmask(m, Buffered(s.held, ch))
  {
    var closing := Closing(cfg, s);
    TailFlushes(m, s.held, s.o.providerID, cfg.public, ch);
    hide TailChoices, SortedKeys, Unmask, EventText, Tail;
    var tail := Tail(m, s.held, s.o.providerID, cfg.public);
    if tail.Some? {
      var line := Data(tail.value);
      assert closing == [line] + [BLANK] && LineText(line, ch) == Unmask(m, Buffered(s.held, ch))
        && LineText(BLANK, ch) == "";
      hide LineText, TextFor;
      TextConcat([line], [BLANK], ch);
      TextOfOne(line, ch);
      TextOfOne(BLANK, ch);
    }
  }

  lemma NothingHeldAnywhere(ch: Channel)
    ensures Buffered(map[], ch) == ""
  {
  }

  lemma LineChannel(m: Mapping, cfg: Config, s: State, line: Line, ch: Channel)
    requires cfg.mapping == Some(m)
    ensures var b, inputs := Buffered(s.held, ch), LineInput(line, ch);
      && Agrees(TextFor(Observed(cfg, s, line), ch), RunOut(m, b, inputs), CleanLine(m, b, line, ch))
      && Buffered(Observe(cfg, s, line).held, ch) == RunBuffer(m, b, inputs)
  {
    hide Relayed, HeldBack, Closing, EventText, EventInputs, CleanEvent, RunOut, RunBuffer, Unmask, Buffered;
    var b := Buffered(s.held, ch);
    match line
    case Data(e) =>
      RelayedText(m, cfg, s, e, ch);
      TextOfOne(Data(Relayed(cfg, s, e)), ch);
    case Done(_) =>
      ClosingText(m, cfg, s, ch);
      TextConcat(Closing(cfg, s), [line], ch);
      TextOfOne(line, ch);
      NothingAround(Unmask(m, b));
      FlushedText(m, b);
      OnePiece(m, b, Input("", true));
      NothingHeldAnywhere(ch);
    case _ =>
      TextOfOne(line, ch);
      NoInputs(m, b);
  }

  /** The text of a whole stream on one channel, from a given state on. */
  ghost function StreamText(cfg: Config, s: State, lines: seq<Line>, ch: Channel): string {
    TextFor(AllObserved(cfg, s, lines) + Closing(cfg, After(cfg, s, lines)), ch)
  }

  lemma {:induction false} TextObserved(m: Mapping, cfg: Config, s: State, lines: seq<Line>, ch: Channel)
    requires cfg.mapping == Some(m)
    ensures Agrees(StreamText(cfg, s, lines, ch), ChannelRun(m, Buffered(s.held, ch), LineInputs(lines, ch)),
                   CleanLines(m, Buffered(s.held, ch), lines, ch))
    decreases |lines|
  {
    hide Observe, Observed, Closing, RunOut, RunBuffer, Buffered, LineInput, CleanLine, Unmask;
    if lines == [] {
      ClosingText(m, cfg, s, ch);
      assert [] + Closing(cfg, s) == Closing(cfg, s);
      NoInputs(m, Buffered(s.held, ch));
      NothingAround(Unmask(m, Buffered(s.held, ch)));
    } else {
      LineChannel(m, cfg, s, lines[0], ch);
      var s', b := Observe(cfg, s, lines[0]), Buffered(s.held, ch);
      TextObserved(m, cfg, s', lines[1..], ch);
      ObservedCons(cfg, s, lines, ch);
      var i, rest := LineInput(lines[0], ch), LineInputs(lines[1..], ch);
      hide AllObserved, After, TextFor, ChannelRun, StreamText, Agrees;
      ChannelRunConcat(m, b, i, rest);
      AgreesConcat(TextFor(Observed(cfg, s, lines[0]), ch), StreamText(cfg, s', lines[1..], ch), RunOut(m, b, i),
                   ChannelRun(m, Buffered(s'.held, ch), rest), CleanLine(m, b, lines[0], ch),
                   CleanLines(m, Buffered(s'.held, ch), lines[1..], ch));
    }
  }

  lemma ObservedCons(cfg: Config, s: State, lines: seq<Line>, ch: Channel)
    requires lines != []
    ensures StreamText(cfg, s, lines, ch)
         == TextFor(Observed(cfg, s, lines[0]), ch)
            + StreamText(cfg, Observe(cfg, s, lines[0]), lines[1..], ch)
  {
    hide Observe, Observed, Closing, TextFor;
    var s' := Observe(cfg, s, lines[0]);
    var a, b, c := Observed(cfg, s, lines[0]), AllObserved(cfg, s', lines[1..]),
      Closing(cfg, After(cfg, s', lines[1..]));
    assert AllObserved(cfg, s, lines) + Closing(cfg, After(cfg, s, lines)) == a + (b + c);
    TextConcat(a, b + c, ch);
  }

  /** The text the client gets on a channel is that channel's own upstream text, fed and flushed, exactly when the
      stream is clean for it; it is never less, and nothing stays held. */
  lemma ChannelsAreRelayed(cfg: Config, lines: seq<Line>, ch: Channel)
    requires cfg.mapping.Some?
    ensures var m := cfg.mapping.value;
      var sent, wanted := TextFor(Transduced(cfg, lines), ch), ChannelRun(m, "", LineInputs(lines, ch));
      (sent == wanted <==> CleanLines(m, "", lines, ch)) && |sent| >= |wanted|
  {
    hide LineInputs, CleanLines, ChannelRun;
    TextObserved(cfg.mapping.value, cfg, START, lines, ch);
    NothingHeldAnywhere(ch);
    TextTransduced(cfg, lines, ch);
  }

  /** Dropping lines loses no text. */
  lemma TextTransduced(cfg: Config, lines: seq<Line>, ch: Channel)
    ensures TextFor(Transduced(cfg, lines), ch)
         == StreamText(cfg, START, lines, ch)
  {
    hide AllObserved, Closing, After, TextFor, Kept;
    var observed, closing := AllObserved(cfg, START, lines), Closing(cfg, After(cfg, START, lines));
    HiddenHaveNoText(cfg.hideUsage, false, observed, ch);
    TextConcat(observed, closing, ch);
    TextConcat(Kept(cfg.hideUsage, false, observed), closing, ch);
  }

  // ---------- A channel that is quiet after its choice finished ----------

  predicate Quiet(inputs: seq<Input>) { forall i | 0 <= i < |inputs| :: inputs[i].text == "" }

  predicate QuietAfterFinish(inputs: seq<Input>) {
    inputs == [] || (if inputs[0].finishes then Quiet(inputs[1..]) else QuietAfterFinish(inputs[1..]))
  }

  lemma {:induction false} QuietRun(m: Mapping, inputs: seq<Input>)
    requires Quiet(inputs)
    ensures ChannelRun(m, "", inputs) == "" && Chunks(inputs) == []
    decreases |inputs|
  {
    if inputs != [] {
      EmptyFeed(m, "");
      assert inputs == [inputs[0]] + inputs[1..];
      ChannelRunCons(m, "", inputs[0], inputs[1..]);
      assert inputs[0].text == "";
      hide ChannelRun;
      if inputs[0].finishes { FlushedText(m, ""); } else { FedPiece(m, "", ""); }
      NothingToRestore(m);
      QuietRun(m, inputs[1..]);
    }
  }

  lemma {:induction false} QuietIsStream(m: Mapping, buf: string, inputs: seq<Input>)
    requires QuietAfterFinish(inputs)
    ensures ChannelRun(m, buf, inputs) == Stream(m, buf, Chunks(inputs))
    decreases |inputs|
  {
    if inputs == [] {
      NoInputs(m, buf);
      NothingAround(Unmask(m, buf));
    } else {
      var i, tail := inputs[0], inputs[1..];
      StreamOfChunks(m, buf, i.text, tail);
      assert inputs == [i] + tail;
      ChannelRunCons(m, buf, i, tail);
      hide FeedOut, FeedBuffer, ChannelOut, ChannelBuffer, Stream, ChannelRun;
      if i.finishes {
        QuietRun(m, tail);
        LastInput(m, buf, i);
        NothingAround(ChannelOut(m, buf, i));
      } else {
        QuietIsStream(m, FeedBuffer(m, buf, i.text), tail);
        MiddleInput(m, buf, i);
      }
    }
  }

  /** End to end: however the provider splits a channel's text over its events, and wherever the stream ends,
      the client reads the text restored as in one piece, exactly when the stream is clean for the channel. For a text
      channel it always is. */
  lemma ClientReadsRestoredText(cfg: Config, lines: seq<Line>, ch: Channel)
    requires cfg.mapping.Some? && cfg.mapping.value.WF()
    requires QuietAfterFinish(LineInputs(lines, ch)) && Faithful(cfg.mapping.value, TextFor(lines, ch))
    ensures TextFor(Transduced(cfg, lines), ch) == Unmask(cfg.mapping.value, TextFor(lines, ch))
      <==> CleanLines(cfg.mapping.value, "", lines, ch)
    ensures ch.TextChannel? ==> CleanLines(cfg.mapping.value, "", lines, ch)
  {
    hide CleanLines, Unmask, Faithful, Mapping.WF, Transduced, TextFor;
    var m, inputs := cfg.mapping.value, LineInputs(lines, ch);
    ChannelsAreRelayed(cfg, lines, ch);
    QuietIsStream(m, "", inputs);
    ChunksAreAllText(inputs);
    LineInputsText(lines, ch);
    assert "" + AllText(inputs) == AllText(inputs);
    StreamRefinesUnmask(m, "", Chunks(inputs));
    if ch.TextChannel? { NamedOnceLinesAreClean(m, "", lines, ch); }
  }

  lemma {:induction false} UnmaskedTextObserved(cfg: Config, s: State, lines: seq<Line>, ch: Channel)
    requires cfg.mapping.None?
    ensures TextFor(AllObserved(cfg, s, lines), ch) == TextFor(lines, ch)
    decreases |lines|
  {
    if lines != [] {
      var s', out := Observe(cfg, s, lines[0]), Observed(cfg, s, lines[0]);
      if lines[0].Data? { WithoutRolesSameText(Repeated(s.roles, lines[0].event.choices, 0), lines[0].event.choices,
        0, ch); }
      assert |out| == 1 && out == [out[0]] && LineText(out[0], ch) == LineText(lines[0], ch);
      hide Observed, Observe, LineText;
      UnmaskedTextObserved(cfg, s', lines[1..], ch);
      TextConcat(out, AllObserved(cfg, s', lines[1..]), ch);
      TextOfOne(out[0], ch);
    }
  }

  /** Without masking the text passes unchanged. */
  lemma UnmaskedTextPasses(cfg: Config, lines: seq<Line>, ch: Channel)
    requires cfg.mapping.None?
    ensures TextFor(Transduced(cfg, lines), ch) == TextFor(lines, ch)
  {
    UnmaskedTextObserved(cfg, START, lines, ch);
    TextTransduced(cfg, lines, ch);
    assert Closing(cfg, After(cfg, START, lines)) == [];
    assert AllObserved(cfg, START, lines) + [] == AllObserved(cfg, START, lines);
  }
}
