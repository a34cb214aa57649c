/** When the channels of a restored stream do not interfere: exactly when what each one emits is its own input, fed
    piece by piece and flushed. */
module UnmaskerLaws {
  import opened Common
  import opened Wrappers
  import opened Text
  import opened Mappings
  import opened Unmasking
  import opened PIIStream
  import opened ChatEvents
  import opened Unmasker

  datatype Channel = TextChannel(choice: Index, field: Field) | ArgsChannel(choice: Index, call: Index)

  // ---------- What a channel sees ----------

  /** The arguments of the calls with key `k`, in order. */
  function CallsText(calls: seq<ToolCall>, k: Index): string {
    if calls == [] then "" else (if calls[0].Key() == k then calls[0].Text() else "") + CallsText(calls[1..], k)
  }

  function DeltaText(d: Delta, ch: Channel): string {
    match ch
    case TextChannel(_, f) => TextOf(d, f)
    case ArgsChannel(_, k) => CallsText(d.toolCalls, k)
  }

  function ChoiceText(c: Choice, ch: Channel): string {
    if c.delta.Some? then DeltaText(c.delta.value, ch) else ""
  }

  function EventText(choices: seq<Choice>, pos: nat, ch: Channel): string {
    if choices == [] then ""
    else
      (if choices[0].Key(pos) == ch.choice then ChoiceText(choices[0], ch) else "")
      + EventText(choices[1..], pos + 1, ch)
  }

  function HeldText(h: HeldChoice, ch: Channel): string {
    match ch
    case TextChannel(_, f) => BufferOf(h.text, f)
    case ArgsChannel(_, k) => ToolBuffer(h.tools, k)
  }

  function Buffered(held: Held, ch: Channel): string { HeldText(HeldOf(held, ch.choice), ch) }

  // ---------- A channel's own input ----------

  /** A piece of a channel's input: its text, and whether its choice finishes with it. */
  datatype Input = Input(text: string, finishes: bool)

  function CallInputs(calls: seq<ToolCall>, k: Index): seq<Input> {
    if calls == [] then []
    else (if calls[0].Key() == k then [Input(calls[0].Text(), false)] else []) + CallInputs(calls[1..], k)
  }

  /** The pieces of one choice: its field, or each of its calls with the key. */
  function ChoiceFeeds(c: Choice, ch: Channel): seq<Input> {
    if c.delta.None? then []
    else match ch
      case TextChannel(_, f) => [Input(TextOf(c.delta.value, f), false)]
      case ArgsChannel(_, k) => CallInputs(c.delta.value.toolCalls, k)
  }

  function ChoiceInputs(c: Choice, ch: Channel): seq<Input> {
    ChoiceFeeds(c, ch) + if c.finish.Some? then [Input("", true)] else []
  }

  function EventInputs(choices: seq<Choice>, pos: nat, ch: Channel): seq<Input> {
    if choices == [] then []
    else
      (if choices[0].Key(pos) == ch.choice then ChoiceInputs(choices[0], ch) else [])
      + EventInputs(choices[1..], pos + 1, ch)
  }

  function Inputs(events: seq<Event>, ch: Channel): seq<Input> {
    if events == [] then [] else EventInputs(events[0].choices, 0, ch) + Inputs(events[1..], ch)
  }

  // ---------- What a channel emits from its own input ----------

  ghost function ChannelOut(m: Mapping, buf: string, i: Input): string {
    FeedOut(m, buf, i.text) + if i.finishes then Unmask(m, FeedBuffer(m, buf, i.text)) else ""
  }

  ghost function ChannelBuffer(m: Mapping, buf: string, i: Input): string {
    if i.finishes then "" else FeedBuffer(m, buf, i.text)
  }

  ghost function RunOut(m: Mapping, buf: string, inputs: seq<Input>): string
    decreases |inputs|
  {
    if inputs == [] then ""
    else ChannelOut(m, buf, inputs[0]) + RunOut(m, ChannelBuffer(m, buf, inputs[0]), inputs[1..])
  }

  ghost function RunBuffer(m: Mapping, buf: string, inputs: seq<Input>): string
    decreases |inputs|
  {
    if inputs == [] then buf else RunBuffer(m, ChannelBuffer(m, buf, inputs[0]), inputs[1..])
  }

  /** What a channel emits from its own input alone, ending with a flush. */
  ghost function ChannelRun(m: Mapping, buf: string, inputs: seq<Input>): string {
    RunOut(m, buf, inputs) + Unmask(m, RunBuffer(m, buf, inputs))
  }

  lemma RunCons(m: Mapping, buf: string, i: Input, rest: seq<Input>)
    ensures RunOut(m, buf, [i] + rest) == ChannelOut(m, buf, i) + RunOut(m, ChannelBuffer(m, buf, i), rest)
    ensures RunBuffer(m, buf, [i] + rest) == RunBuffer(m, ChannelBuffer(m, buf, i), rest)
  {
    hide ChannelOut, ChannelBuffer;
    assert ([i] + rest)[1..] == rest;
  }

  lemma {:induction false} RunConcat(m: Mapping, buf: string, a: seq<Input>, b: seq<Input>)
    ensures RunOut(m, buf, a + b) == RunOut(m, buf, a) + RunOut(m, RunBuffer(m, buf, a), b)
    ensures RunBuffer(m, buf, a + b) == RunBuffer(m, RunBuffer(m, buf, a), b)
    decreases |a|
  {
    hide ChannelOut, ChannelBuffer;
    if a == [] {
      assert a + b == b;
    } else {
      var i, rest := a[0], a[1..];
      RunConcat(m, ChannelBuffer(m, buf, i), rest, b);
      assert a == [i] + rest && a + b == [i] + (rest + b);
      RunCons(m, buf, i, rest);
      RunCons(m, buf, i, rest + b);
      hide RunOut, RunBuffer;
      Assoc(ChannelOut(m, buf, i), RunOut(m, ChannelBuffer(m, buf, i), rest),
            RunOut(m, RunBuffer(m, buf, a), b));
    }
  }

  lemma ChannelRunConcat(m: Mapping, buf: string, a: seq<Input>, b: seq<Input>)
    ensures ChannelRun(m, buf, a + b) == RunOut(m, buf, a) + ChannelRun(m, RunBuffer(m, buf, a), b)
  {
    hide RunOut, RunBuffer, Unmask;
    RunConcat(m, buf, a, b);
    Assoc(RunOut(m, buf, a), RunOut(m, RunBuffer(m, buf, a), b), Unmask(m, RunBuffer(m, buf, a + b)));
  }

  lemma NoInputs(m: Mapping, buf: string)
    ensures RunOut(m, buf, []) == "" && RunBuffer(m, buf, []) == buf
  {
  }

  lemma OnePiece(m: Mapping, buf: string, i: Input)
    ensures RunOut(m, buf, [i]) == ChannelOut(m, buf, i) && RunBuffer(m, buf, [i]) == ChannelBuffer(m, buf, i)
  {
    hide ChannelOut, ChannelBuffer;
    assert [i] == [i] + [];
    RunCons(m, buf, i, []);
    NothingAround(ChannelOut(m, buf, i));
  }

  /** A piece that does not finish is fed. */
  lemma FedPiece(m: Mapping, buf: string, x: string)
    ensures ChannelOut(m, buf, Input(x, false)) == FeedOut(m, buf, x)
    ensures ChannelBuffer(m, buf, Input(x, false)) == FeedBuffer(m, buf, x)
  {
    hide FeedOut, FeedBuffer, Unmask;
    NothingAround(FeedOut(m, buf, x));
  }

  /** A finish on its own flushes. */
  lemma FlushedText(m: Mapping, buf: string)
    ensures ChannelOut(m, buf, Input("", true)) == Unmask(m, buf) && ChannelBuffer(m, buf, Input("", true)) == ""
  {
    NothingAround(Unmask(m, buf));
  }

  lemma NothingAround(s: string)
    ensures "" + s == s && s + "" == s
  {
  }

  // ---------- When a channel emits just that ----------

  /** How often a choice names the channel. */
  function Named(c: Choice, ch: Channel): nat {
    match ch
    case TextChannel(_, _) => 1
    case ArgsChannel(_, k) => if c.delta.Some? then CallCount(c.delta.value.toolCalls, k) else 0
  }

  function CallCount(calls: seq<ToolCall>, k: Index): nat {
    if calls == [] then 0 else (if calls[0].Key() == k then 1 else 0) + CallCount(calls[1..], k)
  }

  /** A choice that finishes names the call at most once, or the call holds nothing to flush. */
  ghost predicate CleanChoice(m: Mapping, buf: string, c: Choice, ch: Channel) {
    c.finish.None? || Named(c, ch) <= 1 || Unmask(m, RunBuffer(m, buf, ChoiceFeeds(c, ch))) == ""
  }

  ghost predicate CleanEvent(m: Mapping, buf: string, choices: seq<Choice>, pos: nat, ch: Channel)
    decreases |choices|
  {
    choices == []
    || (if choices[0].Key(pos) == ch.choice
        then CleanChoice(m, buf, choices[0], ch)
             && CleanEvent(m, RunBuffer(m, buf, ChoiceInputs(choices[0], ch)), choices[1..], pos + 1, ch)
        else CleanEvent(m, buf, choices[1..], pos + 1, ch))
  }

  ghost predicate Clean(m: Mapping, buf: string, events: seq<Event>, ch: Channel)
    decreases |events|
  {
    events == []
    || (CleanEvent(m, buf, events[0].choices, 0, ch)
        && Clean(m, RunBuffer(m, buf, EventInputs(events[0].choices, 0, ch)), events[1..], ch))
  }

  /** What is sent is what is wanted, or else more. */
  predicate Agrees(sent: string, wanted: string, clean: bool) {
    if clean then sent == wanted else |sent| > |wanted|
  }

  lemma AgreesConcat(a: string, b: string, x: string, y: string, c: bool, d: bool)
    requires Agrees(a, x, c) && Agrees(b, y, d)
    ensures Agrees(a + b, x + y, c && d)
  {
  }

  // ---------- Tool calls ----------

  lemma {:induction false} NoCallNoText(calls: seq<ToolCall>, k: Index)
    requires CallCount(calls, k) == 0
    ensures CallsText(calls, k) == ""
  {
    if calls != [] { NoCallNoText(calls[1..], k); }
  }

  lemma {:induction false} HasCallIff(calls: seq<ToolCall>, k: Index)
    ensures HasCall(calls, k) <==> CallCount(calls, k) > 0
  {
    if calls != [] {
      HasCallCons(calls, k);
      HasCallIff(calls[1..], k);
    }
  }

  lemma HasCallCons(calls: seq<ToolCall>, k: Index)
    requires calls != []
    ensures HasCall(calls, k) <==> calls[0].Key() == k || HasCall(calls[1..], k)
  {
    if HasCall(calls, k) {
      var i :| 0 <= i < |calls| && calls[i].Key() == k;
      if i > 0 { assert calls[1..][i - 1].Key() == k; }
    }
    if HasCall(calls[1..], k) {
      var i :| 0 <= i < |calls[1..]| && calls[1..][i].Key() == k;
      assert calls[i + 1].Key() == k;
    }
  }

  lemma CallsOutCons(m: Mapping, tools: map<Index, string>, calls: seq<ToolCall>, k: Index)
    requires calls != []
    ensures var key, x := calls[0].Key(), calls[0].Text();
      var tools' := if x == "" then tools else tools[key := FeedBuffer(m, ToolBuffer(tools, key), x)];
      && FeedCalls(m, tools, calls) == FeedCalls(m, tools', calls[1..])
      && CallsText(CallsOut(m, tools, calls), k)
         == (if key == k then FeedOut(m, ToolBuffer(tools, key), x) else "")
           + CallsText(CallsOut(m, tools', calls[1..]), k)
  {
    hide FeedBuffer, FeedOut;
    var key, x := calls[0].Key(), calls[0].Text();
    var tools' := if x == "" then tools else tools[key := FeedBuffer(m, ToolBuffer(tools, key), x)];
    var out := CallsOut(m, tools, calls);
    assert out[1..] == CallsOut(m, tools', calls[1..]);
    EmptyFeed(m, ToolBuffer(tools, key));
  }

  lemma EmptyFeed(m: Mapping, buf: string)
    ensures FeedOut(m, buf, "") == "" && FeedBuffer(m, buf, "") == buf
  {
  }

  lemma CallInputsCons(calls: seq<ToolCall>, k: Index)
    requires calls != []
    ensures CallInputs(calls, k)
         == (if calls[0].Key() == k then [Input(calls[0].Text(), false)] else []) + CallInputs(calls[1..], k)
  {
  }

  lemma {:induction false} CallsChannel(m: Mapping, tools: map<Index, string>, calls: seq<ToolCall>, k: Index)
    ensures ToolBuffer(FeedCalls(m, tools, calls), k) == RunBuffer(m, ToolBuffer(tools, k), CallInputs(calls, k))
    ensures CallsText(CallsOut(m, tools, calls), k) == RunOut(m, ToolBuffer(tools, k), CallInputs(calls, k))
    decreases |calls|
  {
    hide FeedBuffer, FeedOut, ChannelOut, ChannelBuffer;
    if calls != [] {
      var key, x, buf := calls[0].Key(), calls[0].Text(), ToolBuffer(tools, k);
      var tools' := if x == "" then tools else tools[key := FeedBuffer(m, ToolBuffer(tools, key), x)];
      EmptyFeed(m, buf);
      CallsOutCons(m, tools, calls, k);
      CallsChannel(m, tools', calls[1..], k);
      assert ToolBuffer(tools', k) == if key == k then FeedBuffer(m, buf, x) else buf;
      CallInputsCons(calls, k);
      FedPiece(m, buf, x);
      var rest := CallInputs(calls[1..], k);
      hide RunOut, RunBuffer, CallsText, CallInputs, CallsOut, FeedCalls;
      if key == k {
        RunCons(m, buf, Input(x, false), rest);
      } else {
        assert [] + rest == rest;
        NothingAround(RunOut(m, buf, rest));
      }
    }
  }

  /** Feeding keeps the keys of the calls. */
  lemma {:induction false} CallsOutCount(m: Mapping, tools: map<Index, string>, calls: seq<ToolCall>, k: Index)
    ensures CallCount(CallsOut(m, tools, calls), k) == CallCount(calls, k)
    decreases |calls|
  {
    hide FeedBuffer, FeedOut;
    if calls != [] {
      var key, x := calls[0].Key(), calls[0].Text();
      var tools' := if x == "" then tools else tools[key := FeedBuffer(m, ToolBuffer(tools, key), x)];
      assert CallsOut(m, tools, calls)[1..] == CallsOut(m, tools', calls[1..]);
      CallsOutCount(m, tools', calls[1..], k);
    }
  }

  // ---------- Releasing calls ----------

  /** Every call with the key gets the text. */
  lemma {:induction false} Appended(calls: seq<ToolCall>, key: Index, tail: string, k: Index)
    ensures CallCount(AppendToCalls(calls, key, tail), k) == CallCount(calls, k)
    ensures k != key || CallCount(calls, k) == 0 ==>
      CallsText(AppendToCalls(calls, key, tail), k) == CallsText(calls, k)
    ensures k == key && CallCount(calls, k) > 0 ==>
      Agrees(CallsText(AppendToCalls(calls, key, tail), k), CallsText(calls, k) + tail,
             CallCount(calls, k) <= 1 || tail == "")
  {
    if calls != [] {
      var out := AppendToCalls(calls, key, tail);
      assert out[1..] == AppendToCalls(calls[1..], key, tail);
      Appended(calls[1..], key, tail, k);
      CallsCons(calls, k);
      CallsCons(out, k);
      if CallCount(calls[1..], k) == 0 { NoCallNoText(calls[1..], k); }
      hide AppendToCalls, CallsText, CallCount;
    }
  }

  lemma CallsCons(calls: seq<ToolCall>, k: Index)
    requires calls != []
    ensures CallsText(calls, k) == (if calls[0].Key() == k then calls[0].Text() else "") + CallsText(calls[1..], k)
    ensures CallCount(calls, k) == (if calls[0].Key() == k then 1 else 0) + CallCount(calls[1..], k)
  {
  }

  lemma {:induction false} AddCall(calls: seq<ToolCall>, key: Index, tail: string, k: Index)
    ensures var out := calls + [ToolCall(Some(key), Some(tail))];
      && CallsText(out, k) == CallsText(calls, k) + (if k == key then tail else "")
      && CallCount(out, k) == CallCount(calls, k) + (if k == key then 1 else 0)
  {
    var call := ToolCall(Some(key), Some(tail));
    if calls == [] {
      assert calls + [call] == [call] && [call][1..] == [];
      CallsCons([call], k);
    } else {
      hide CallsText, CallCount;
      var out := calls + [call];
      assert out[1..] == calls[1..] + [call] && out[0] == calls[0];
      CallsCons(calls, k);
      CallsCons(out, k);
      AddCall(calls[1..], key, tail, k);
    }
  }

  lemma ReleaseCallChannel(calls: seq<ToolCall>, key: Index, tail: string, k: Index)
    ensures k != key ==> CallsText(ReleaseCall(calls, key, tail), k) == CallsText(calls, k)
    ensures k != key ==> CallCount(ReleaseCall(calls, key, tail), k) == CallCount(calls, k)
    ensures k == key ==>
      Agrees(CallsText(ReleaseCall(calls, key, tail), k), CallsText(calls, k) + tail,
             CallCount(calls, k) <= 1 || tail == "")
  {
    Appended(calls, key, tail, k);
    HasCallIff(calls, key);
    AddCall(calls, key, tail, k);
    NothingAround(CallsText(calls, k));
  }

  lemma {:induction false} ReleaseCallsChannel(m: Mapping, tools: map<Index, string>, keys: seq<Index>,
        calls: seq<ToolCall>, k: Index)
    requires Ordered(keys)
    ensures Agrees(CallsText(ReleaseCalls(m, tools, keys, calls), k),
                   CallsText(calls, k) + if k in keys then Unmask(m, ToolBuffer(tools, k)) else "",
                   k !in keys || CallCount(calls, k) <= 1 || Unmask(m, ToolBuffer(tools, k)) == "")
    ensures k !in keys ==> CallsText(ReleaseCalls(m, tools, keys, calls), k) == CallsText(calls, k)
    decreases |keys|
  {
    hide Unmask, ReleaseCall, CallsText, CallCount, Precedes;
    NothingAround(CallsText(calls, k));
    if keys != [] {
      var calls' := ReleaseCall(calls, keys[0], Unmask(m, ToolBuffer(tools, keys[0])));
      ReleaseCallChannel(calls, keys[0], Unmask(m, ToolBuffer(tools, keys[0])), k);
      ReleaseCallsChannel(m, tools, keys[1..], calls', k);
      assert keys == [keys[0]] + keys[1..];
      assert k == keys[0] ==> k !in keys[1..];
    }
  }

  // ---------- One choice ----------

  predicate DistinctFields(fields: seq<Field>) { forall i, j | 0 <= i < j < |fields| :: fields[i] != fields[j] }

  lemma GeneratedFields(f: Field)
    ensures DistinctFields(GENERATED) && f in GENERATED
  {
    assert GENERATED[0] == Content && GENERATED[1] == ReasoningContent && GENERATED[2] == Reasoning;
  }

  lemma TailFields(fields: seq<Field>, f: Field)
    requires fields != [] && DistinctFields(fields)
    ensures DistinctFields(fields[1..]) && (f in fields <==> f == fields[0] || f in fields[1..])
      && fields[0] !in fields[1..]
  {
    assert fields == [fields[0]] + fields[1..];
  }

  lemma FeedFieldChannel(m: Mapping, t: Texts, g: Field, f: Field)
    ensures var t' := FeedField(m, t, g);
      && BufferOf(t'.held, f)
        == (if f == g then FeedBuffer(m, BufferOf(t.held, f), BufferOf(t.text, f)) else BufferOf(t.held, f))
      && BufferOf(t'.text, f)
        == (if f == g then FeedOut(m, BufferOf(t.held, f), BufferOf(t.text, f)) else BufferOf(t.text, f))
  {
    EmptyFeed(m, BufferOf(t.held, f));
    hide FeedBuffer, FeedOut;
  }

  lemma {:induction false} FieldsChannel(m: Mapping, t: Texts, fields: seq<Field>, f: Field)
    requires DistinctFields(fields)
    ensures var t' := FeedFields(m, t, fields);
      && BufferOf(t'.held, f)
        == (if f in fields then FeedBuffer(m, BufferOf(t.held, f), BufferOf(t.text, f)) else BufferOf(t.held, f))
      && BufferOf(t'.text, f)
        == (if f in fields then FeedOut(m, BufferOf(t.held, f), BufferOf(t.text, f)) else BufferOf(t.text, f))
    decreases |fields|
  {
    if fields != [] {
      TailFields(fields, f);
      FeedFieldChannel(m, t, fields[0], f);
      FieldsChannel(m, FeedField(m, t, fields[0]), fields[1..], f);
      hide FeedBuffer, FeedOut, FeedField, BufferOf, DistinctFields;
    }
  }

  lemma ReleaseFieldChannel(m: Mapping, held: map<Field, string>, text: map<Field, string>, g: Field, f: Field)
    ensures BufferOf(ReleaseField(m, held, text, g), f)
         == BufferOf(text, f) + if f == g then Unmask(m, BufferOf(held, f)) else ""
  {
    assert Unmask(m, "") == "";
    hide Unmask;
  }

  lemma {:induction false} ReleaseFieldsChannel(m: Mapping, held: map<Field, string>, text: map<Field, string>,
        fields: seq<Field>, f: Field)
    requires DistinctFields(fields)
    ensures BufferOf(ReleaseFields(m, held, text, fields), f)
         == BufferOf(text, f) + if f in fields then Unmask(m, BufferOf(held, f)) else ""
    decreases |fields|
  {
    if fields != [] {
      TailFields(fields, f);
      ReleaseFieldChannel(m, held, text, fields[0], f);
      ReleaseFieldsChannel(m, held, ReleaseField(m, held, text, fields[0]), fields[1..], f);
      hide Unmask, ReleaseField, BufferOf, DistinctFields;
    }
  }

  lemma FedText(m: Mapping, h: HeldChoice, d: Delta, f: Field)
    ensures BufferOf(FeedDelta(m, h, d).text, f) == FeedBuffer(m, BufferOf(h.text, f), TextOf(d, f))
    ensures TextOf(DeltaOut(m, h, d), f) == FeedOut(m, BufferOf(h.text, f), TextOf(d, f))
  {
    hide FeedFields, FeedCalls, CallsOut, FeedBuffer, FeedOut;
    GeneratedFields(f);
    FieldsChannel(m, Texts(h.text, d.text), GENERATED, f);
  }

  lemma FedChannel(m: Mapping, h: HeldChoice, c: Choice, ch: Channel)
    ensures HeldText(FeedChoice(m, h, c), ch) == RunBuffer(m, HeldText(h, ch), ChoiceFeeds(c, ch))
    ensures ChoiceText(FedChoice(m, h, c), ch) == RunOut(m, HeldText(h, ch), ChoiceFeeds(c, ch))
    ensures Named(FedChoice(m, h, c), ch) == Named(c, ch)
  {
    hide FeedFields, FeedCalls, CallsOut, FeedBuffer, FeedOut, RunOut, RunBuffer, CallInputs, CallsText, CallCount;
    NoInputs(m, HeldText(h, ch));
    if c.delta.Some? {
      var d := c.delta.value;
      match ch {
        case TextChannel(_, f) =>
          hide FeedDelta, DeltaOut;
          FedText(m, h, d, f);
          OnePiece(m, HeldText(h, ch), Input(TextOf(d, f), false));
          FedPiece(m, HeldText(h, ch), TextOf(d, f));
        case ArgsChannel(_, k) =>
          CallsChannel(m, h.tools, d.toolCalls, k);
          CallsOutCount(m, h.tools, d.toolCalls, k);
      }
    }
  }

  lemma NothingReleased(m: Mapping, h: HeldChoice, ch: Channel)
    requires !Releases(m, h)
    ensures Unmask(m, HeldText(h, ch)) == ""
  {
    assert Unmask(m, "") == "";
  }

  lemma ReleaseChannel(m: Mapping, h: HeldChoice, c: Choice, ch: Channel)
    ensures Agrees(ChoiceText(Release(m, h, c), ch), ChoiceText(c, ch) + Unmask(m, HeldText(h, ch)),
                   Named(c, ch) <= 1 || Unmask(m, HeldText(h, ch)) == "")
  {
    NothingAround(ChoiceText(c, ch));
    if Releases(m, h) {
      var d := if c.delta.Some? then c.delta.value else NO_DELTA;
      match ch {
        case TextChannel(_, f) =>
          GeneratedFields(f);
          ReleaseFieldsChannel(m, h.text, d.text, GENERATED, f);
        case ArgsChannel(_, k) =>
          ReleaseCallsChannel(m, h.tools, SortedKeys(h.tools.Keys), d.toolCalls, k);
          assert Unmask(m, "") == "";
      }
    } else {
      NothingReleased(m, h, ch);
    }
  }

  // ---------- One channel in one event ----------

  lemma FinishedFeeds(m: Mapping, buf: string, c: Choice, ch: Channel)
    ensures var b := RunBuffer(m, buf, ChoiceFeeds(c, ch));
      && RunOut(m, buf, ChoiceInputs(c, ch))
         == RunOut(m, buf, ChoiceFeeds(c, ch)) + (if c.finish.Some? then Unmask(m, b) else "")
      && RunBuffer(m, buf, ChoiceInputs(c, ch)) == if c.finish.Some? then "" else b
  {
    var feeds, finish := ChoiceFeeds(c, ch), Input("", true);
    var b := RunBuffer(m, buf, feeds);
    hide RunOut, RunBuffer, ChoiceFeeds, Unmask, ChannelOut, ChannelBuffer;
    FlushedText(m, b);
    OnePiece(m, b, finish);
    RunConcat(m, buf, feeds, [finish]);
    NothingAround(RunOut(m, buf, feeds));
    assert feeds + [] == feeds;
  }

  /** What one choice emits on a channel, and what stays held. */
  lemma ChoiceChannel(m: Mapping, h: HeldChoice, c: Choice, ch: Channel)
    ensures Agrees(ChoiceText(ChoiceOut(m, h, c), ch), RunOut(m, HeldText(h, ch), ChoiceInputs(c, ch)),
                   CleanChoice(m, HeldText(h, ch), c, ch))
    ensures RunBuffer(m, HeldText(h, ch), ChoiceInputs(c, ch))
         == if c.finish.Some? then "" else HeldText(FeedChoice(m, h, c), ch)
  {
    FedChannel(m, h, c, ch);
    FinishedFeeds(m, HeldText(h, ch), c, ch);
    if c.finish.Some? { ReleaseChannel(m, FeedChoice(m, h, c), FedChoice(m, h, c), ch); }
    hide Unmask, RunOut, RunBuffer, Release, FedChoice, FeedChoice, ChoiceInputs, ChoiceFeeds, Named;
    NothingAround(RunOut(m, HeldText(h, ch), ChoiceFeeds(c, ch)));
  }

  lemma ChoiceKeepsKey(m: Mapping, h: HeldChoice, c: Choice, pos: nat)
    ensures ChoiceOut(m, h, c).Key(pos) == c.Key(pos)
  {
  }

  lemma ChoicesOutCons(m: Mapping, held: Held, choices: seq<Choice>, pos: nat, ch: Channel)
    requires choices != []
    ensures var k := choices[0].Key(pos);
      EventText(ChoicesOut(m, held, choices, pos), pos, ch)
      == (if k == ch.choice then ChoiceText(ChoiceOut(m, HeldOf(held, k), choices[0]), ch) else "")
         + EventText(ChoicesOut(m, HeldAfter(m, held, k, choices[0]), choices[1..], pos + 1), pos + 1, ch)
  {
    var k := choices[0].Key(pos);
    ChoiceKeepsKey(m, HeldOf(held, k), choices[0], pos);
    hide ChoiceOut, HeldAfter, ChoiceText;
    var out := ChoicesOut(m, held, choices, pos);
    assert out[1..] == ChoicesOut(m, HeldAfter(m, held, k, choices[0]), choices[1..], pos + 1);
  }

  /** A channel emits its own input, fed and flushed, or more when a finishing choice is not clean; and it holds what
      its own input leaves. */
  ghost predicate Behaves(m: Mapping, held: Held, choices: seq<Choice>, pos: nat, ch: Channel) {
    var b, inputs := Buffered(held, ch), EventInputs(choices, pos, ch);
    && Agrees(EventText(ChoicesOut(m, held, choices, pos), pos, ch), RunOut(m, b, inputs),
              CleanEvent(m, b, choices, pos, ch))
    && Buffered(FeedChoices(m, held, choices, pos), ch) == RunBuffer(m, b, inputs)
  }

  lemma EventCons(m: Mapping, held: Held, choices: seq<Choice>, pos: nat, ch: Channel)
    requires choices != []
    ensures var c, b := choices[0], Buffered(held, ch); var named := c.Key(pos) == ch.choice; var rest := choices[1..];
      && EventInputs(choices, pos, ch) == (if named then ChoiceInputs(c, ch) else []) + EventInputs(rest, pos + 1, ch)
      && FeedChoices(m, held, choices, pos) == FeedChoices(m, HeldAfter(m, held, c.Key(pos), c), rest, pos + 1)
      && CleanEvent(m, b, choices, pos, ch)
         == (if named then CleanChoice(m, b, c, ch)
               && CleanEvent(m, RunBuffer(m, b, ChoiceInputs(c, ch)), rest, pos + 1, ch)
             else CleanEvent(m, b, rest, pos + 1, ch))
  {
    hide FeedChoice, ChoiceInputs, CleanChoice, RunBuffer;
  }

  lemma HeldBehindChoice(m: Mapping, held: Held, k: Index, c: Choice, ch: Channel)
    ensures var held' := HeldAfter(m, held, k, c);
      && Buffered(held, ch) == HeldText(HeldOf(held, ch.choice), ch)
      && Buffered(held', ch) == (if k != ch.choice then Buffered(held, ch) else if c.finish.Some? then ""
                                 else HeldText(FeedChoice(m, HeldOf(held, k), c), ch))
  {
    hide FeedChoice;
  }

  /** In every event a channel emits its own input, fed and flushed, exactly when the event is clean for it. */
  lemma {:induction false} EventChannel(m: Mapping, held: Held, choices: seq<Choice>, pos: nat, ch: Channel)
    ensures Behaves(m, held, choices, pos, ch)
    decreases |choices|
  {
    if choices != [] {
      hide *;
      var c, rest, k := choices[0], choices[1..], choices[0].Key(pos);
      var held', b := HeldAfter(m, held, k, c), Buffered(held, ch);
      EventChannel(m, held', rest, pos + 1, ch);
      EventCons(m, held, choices, pos, ch);
      ChoicesOutCons(m, held, choices, pos, ch);
      HeldBehindChoice(m, held, k, c, ch);
      ChoiceChannel(m, HeldOf(held, ch.choice), c, ch);
      BehavesCons(m, held, choices, pos, ch);
    }
  }

  lemma BehavesCons(m: Mapping, held: Held, choices: seq<Choice>, pos: nat, ch: Channel)
    requires choices != []
    requires Behaves(m, HeldAfter(m, held, choices[0].Key(pos), choices[0]), choices[1..], pos + 1, ch)
    ensures Behaves(m, held, choices, pos, ch)
  {
    var c, rest, k := choices[0], choices[1..], choices[0].Key(pos);
    var held', b := HeldAfter(m, held, k, c), Buffered(held, ch);
    EventCons(m, held, choices, pos, ch);
    ChoicesOutCons(m, held, choices, pos, ch);
    HeldBehindChoice(m, held, k, c, ch);
    ChoiceChannel(m, HeldOf(held, ch.choice), c, ch);
    hide HeldAfter, Buffered, RunOut, RunBuffer, CleanChoice, CleanEvent, ChoiceOut, ChoicesOut, FeedChoices;
    hide FeedChoice, ChoiceInputs, EventInputs, EventText, ChoiceText, HeldText, HeldOf, Agrees;
    var later, out := EventInputs(rest, pos + 1, ch), EventText(ChoicesOut(m, held', rest, pos + 1), pos + 1, ch);
    if k == ch.choice {
      RunConcat(m, b, ChoiceInputs(c, ch), later);
      AgreesConcat(ChoiceText(ChoiceOut(m, HeldOf(held, k), c), ch), out, RunOut(m, b, ChoiceInputs(c, ch)),
                   RunOut(m, Buffered(held', ch), later), CleanChoice(m, b, c, ch),
                   CleanEvent(m, Buffered(held', ch), rest, pos + 1, ch));
    } else {
      assert [] + later == later;
      NothingAround(out);
    }
  }

  // ---------- Runs of events, and the closing event ----------

  ghost function HeldRun(m: Mapping, held: Held, events: seq<Event>): Held
    decreases |events|
  {
    if events == [] then held else HeldRun(m, FeedChoices(m, held, events[0].choices, 0), events[1..])
  }

  ghost function OutRun(m: Mapping, held: Held, events: seq<Event>): seq<Event>
    decreases |events|
  {
    if events == [] then []
    else [EventOut(m, held, events[0])] + OutRun(m, FeedChoices(m, held, events[0].choices, 0), events[1..])
  }

  function Emitted(events: seq<Event>, ch: Channel): string {
    if events == [] then "" else EventText(events[0].choices, 0, ch) + Emitted(events[1..], ch)
  }

  /** What releasing one choice into an empty delta emits. */
  lemma TailChoice(m: Mapping, h: HeldChoice, k: Index, pos: nat, ch: Channel)
    ensures var c := Release(m, h, Choice(Some(k), Some(NO_DELTA), None));
      c.Key(pos) == k && ChoiceText(c, ch) == Unmask(m, HeldText(h, ch))
  {
    var c := Choice(Some(k), Some(NO_DELTA), None);
    assert Named(c, ch) <= 1;
    ReleaseChannel(m, h, c, ch);
    assert ChoiceText(c, ch) == "";
    NothingAround(Unmask(m, HeldText(h, ch)));
  }

  lemma TailCons(m: Mapping, held: Held, keys: seq<Index>, pos: nat, ch: Channel)
    requires keys != []
    ensures var h := HeldOf(held, keys[0]);
      EventText(TailChoices(m, held, keys), pos, ch)
      == if Releases(m, h)
         then (if keys[0] == ch.choice then Unmask(m, HeldText(h, ch)) else "")
           + EventText(TailChoices(m, held, keys[1..]), pos + 1, ch)
         else EventText(TailChoices(m, held, keys[1..]), pos, ch)
  {
    var h := HeldOf(held, keys[0]);
    TailChoice(m, h, keys[0], pos, ch);
    hide Unmask, Release, Releases, ChoiceText, HeldText;
    var out, rest := TailChoices(m, held, keys), TailChoices(m, held, keys[1..]);
    if Releases(m, h) {
      assert out[1..] == rest;
    } else {
      assert out == rest;
    }
  }

  lemma OrderedTail(keys: seq<Index>, k: Index)
    requires keys != [] && Ordered(keys)
    ensures Ordered(keys[1..]) && (k in keys <==> k == keys[0] || k in keys[1..]) && keys[0] !in keys[1..]
  {
    assert keys == [keys[0]] + keys[1..];
  }

  lemma {:induction false} TailChannel(m: Mapping, held: Held, keys: seq<Index>, pos: nat, ch: Channel)
    requires Ordered(keys)
    ensures EventText(TailChoices(m, held, keys), pos, ch) == if ch.choice in keys then Unmask(m, Buffered(held, ch))
      else ""
    decreases |keys|
  {
    if keys != [] {
      var h := HeldOf(held, keys[0]);
      OrderedTail(keys, ch.choice);
      TailCons(m, held, keys, pos, ch);
      if !Releases(m, h) { NothingReleased(m, h, ch); }
      assert keys[0] == ch.choice ==> Buffered(held, ch) == HeldText(h, ch);
      hide Unmask, TailChoices, EventText, Releases, HeldText, Ordered, Buffered;
      NothingAround(EventText(TailChoices(m, held, keys[1..]), pos + 1, ch));
      NothingAround(Unmask(m, HeldText(h, ch)));
      TailChannel(m, held, keys[1..], if Releases(m, h) then pos + 1 else pos, ch);
    }
  }

  function TailText(tail: Option<Event>, ch: Channel): string {
    if tail.Some? then EventText(tail.value.choices, 0, ch) else ""
  }

  /** The closing event flushes every channel and leaves nothing held. */
  lemma TailFlushes(m: Mapping, held: Held, id: string, model: string, ch: Channel)
    ensures TailText(Tail(m, held, id, model), ch) == Unmask(m, Buffered(held, ch))
  {
    TailChannel(m, held, SortedKeys(held.Keys), 0, ch);
    assert Unmask(m, "") == "";
  }

  /** Over every run of events and its closing event, a channel emits its own input, fed and flushed, exactly when the
      run is clean for it: at every finishing choice its call is named at most once or holds nothing to flush. It
      never emits less. */
  lemma ChannelsDoNotInterfere(m: Mapping, held: Held, events: seq<Event>, id: string,
        model: string, ch: Channel)
    ensures var tail := Tail(m, HeldRun(m, held, events), id, model);
      var sent := Emitted(OutRun(m, held, events), ch) + TailText(tail, ch);
      var wanted := ChannelRun(m, Buffered(held, ch), Inputs(events, ch));
      && (sent == wanted <==> Clean(m, Buffered(held, ch), events, ch))
      && |sent| >= |wanted|
  {
    RunAgrees(m, held, events, id, model, ch);
  }

  ghost predicate RunAgreeing(m: Mapping, held: Held, events: seq<Event>, id: string, model: string, ch: Channel) {
    Agrees(Emitted(OutRun(m, held, events), ch) + TailText(Tail(m, HeldRun(m, held, events), id, model), ch),
           ChannelRun(m, Buffered(held, ch), Inputs(events, ch)), Clean(m, Buffered(held, ch), events, ch))
  }

  lemma {:induction false} RunAgrees(m: Mapping, held: Held, events: seq<Event>, id: string, model: string, ch: Channel)
    ensures RunAgreeing(m, held, events, id, model, ch)
    decreases |events|
  {
    if events == [] {
      TailFlushes(m, held, id, model, ch);
      NoInputs(m, Buffered(held, ch));
      NothingAround(Unmask(m, Buffered(held, ch)));
    } else {
      hide *;
      RunAgrees(m, FeedChoices(m, held, events[0].choices, 0), events[1..], id, model, ch);
      EventChannel(m, held, events[0].choices, 0, ch);
      RunAgreesCons(m, held, events, id, model, ch);
    }
  }

  lemma RunAgreesCons(m: Mapping, held: Held, events: seq<Event>, id: string, model: string, ch: Channel)
    requires events != [] && Behaves(m, held, events[0].choices, 0, ch)
    requires RunAgreeing(m, FeedChoices(m, held, events[0].choices, 0), events[1..], id, model, ch)
    ensures RunAgreeing(m, held, events, id, model, ch)
  {
    var choices, rest, b := events[0].choices, events[1..], Buffered(held, ch);
    var held' := FeedChoices(m, held, choices, 0);
    RunEvents(m, held, events, ch);
    hide EventInputs, RunOut, RunBuffer, ChannelRun, FeedChoices, OutRun, HeldRun, Emitted, Inputs, Clean, CleanEvent;
    hide ChoicesOut, EventText, Tail, TailText, Buffered, Agrees;
    var first, tail := EventText(ChoicesOut(m, held, choices, 0), 0, ch), TailText(Tail(m, HeldRun(m, held', rest),
      id, model), ch);
    ChannelRunConcat(m, b, EventInputs(choices, 0, ch), Inputs(rest, ch));
    AgreesConcat(first, Emitted(OutRun(m, held', rest), ch) + tail, RunOut(m, b, EventInputs(choices, 0, ch)),
                 ChannelRun(m, Buffered(held', ch), Inputs(rest, ch)), CleanEvent(m, b, choices, 0, ch),
                 Clean(m, Buffered(held', ch), rest, ch));
    Assoc(first, Emitted(OutRun(m, held', rest), ch), tail);
  }

  lemma RunEvents(m: Mapping, held: Held, events: seq<Event>, ch: Channel)
    requires events != []
    ensures var choices, b := events[0].choices, Buffered(held, ch);
      var held' := FeedChoices(m, held, choices, 0);
      && HeldRun(m, held, events) == HeldRun(m, held', events[1..])
      && Emitted(OutRun(m, held, events), ch)
         == EventText(ChoicesOut(m, held, choices, 0), 0, ch) + Emitted(OutRun(m, held', events[1..]), ch)
      && Inputs(events, ch) == EventInputs(choices, 0, ch) + Inputs(events[1..], ch)
      && Clean(m, b, events, ch) == (CleanEvent(m, b, choices, 0, ch)
           && Clean(m, RunBuffer(m, b, EventInputs(choices, 0, ch)), events[1..], ch))
  {
    hide FeedChoices, ChoicesOut, EventText, EventInputs, RunBuffer, CleanEvent;
    var out := OutRun(m, held, events);
    assert out[1..] == OutRun(m, FeedChoices(m, held, events[0].choices, 0), events[1..]);
  }

  // ---------- Runs that are clean ----------

  /** No finishing choice of an event names the channel twice. Text channels are never named twice. */
  predicate NamedOnce(choices: seq<Choice>, pos: nat, ch: Channel) {
    choices == []
    || ((choices[0].Key(pos) == ch.choice && choices[0].finish.Some? ==> Named(choices[0], ch) <= 1)
        && NamedOnce(choices[1..], pos + 1, ch))
  }

  lemma {:induction false} NamedOnceIsClean(m: Mapping, buf: string, choices: seq<Choice>, pos: nat, ch: Channel)
    requires NamedOnce(choices, pos, ch) || ch.TextChannel?
    ensures CleanEvent(m, buf, choices, pos, ch)
    decreases |choices|
  {
    if choices != [] {
      var c := choices[0];
      hide RunBuffer, ChoiceInputs;
      NamedOnceIsClean(m, buf, choices[1..], pos + 1, ch);
      NamedOnceIsClean(m, RunBuffer(m, buf, ChoiceInputs(c, ch)), choices[1..], pos + 1, ch);
    }
  }

  /** Every run is clean for a text channel, and for the arguments of a call that no finishing choice names twice. */
  lemma {:induction false} NamedOnceRunIsClean(m: Mapping, buf: string, events: seq<Event>, ch: Channel)
    requires ch.TextChannel? || forall i | 0 <= i < |events| :: NamedOnce(events[i].choices, 0, ch)
    ensures Clean(m, buf, events, ch)
    decreases |events|
  {
    if events != [] {
      hide RunBuffer, EventInputs, NamedOnce;
      assert forall i | 0 <= i < |events| - 1 :: events[1..][i] == events[i + 1];
      NamedOnceIsClean(m, buf, events[0].choices, 0, ch);
      NamedOnceRunIsClean(m, RunBuffer(m, buf, EventInputs(events[0].choices, 0, ch)), events[1..], ch);
    }
  }

  // ---------- A run that is not clean ----------

  lemma OneKey(keys: seq<Index>, k: Index)
    requires Ordered(keys) && forall j :: j in keys <==> j == k
    ensures keys == [k]
  {
    assert k in keys && forall i | 0 <= i < |keys| :: keys[i] in keys;
    var last := |keys| - 1;
    assert keys[0] == keys[last] == k;
  }

  lemma FirstCallFed(m: Mapping, tools: map<Index, string>, c: ToolCall, rest: seq<ToolCall>)
        returns (tools': map<Index, string>, c': ToolCall)
    ensures FeedCalls(m, tools, [c] + rest) == FeedCalls(m, tools', rest)
    ensures CallsOut(m, tools, [c] + rest) == [c'] + CallsOut(m, tools', rest)
    ensures c'.Key() == c.Key() && c'.Text() == FeedOut(m, ToolBuffer(tools, c.Key()), c.Text())
    ensures ToolBuffer(tools', c.Key()) == FeedBuffer(m, ToolBuffer(tools, c.Key()), c.Text())
    ensures tools'.Keys <= tools.Keys + {c.Key()}
  {
    var k, x := c.Key(), c.Text();
    var buf := ToolBuffer(tools, k);
    EmptyFeed(m, buf);
    hide FeedBuffer, FeedOut;
    assert ([c] + rest)[1..] == rest;
    tools' := if x == "" then tools else tools[k := FeedBuffer(m, buf, x)];
    c' := if x == "" then c else c.(arguments := Some(FeedOut(m, buf, x)));
  }

  lemma TwoCallsFed(m: Mapping, c: ToolCall, d: ToolCall, k: Index)
    requires c.Key() == d.Key() == k
    ensures var buf := FeedBuffer(m, "", c.Text());
      var tools, out := FeedCalls(m, map[], [c, d]), CallsOut(m, map[], [c, d]);
      && |out| == 2 && out[0].Key() == out[1].Key() == k
      && out[0].Text() == FeedOut(m, "", c.Text()) && out[1].Text() == FeedOut(m, buf, d.Text())
      && ToolBuffer(tools, k) == FeedBuffer(m, buf, d.Text()) && tools.Keys <= {k}
  {
    hide FeedBuffer, FeedOut;
    var tools1, c1 := FirstCallFed(m, map[], c, [d]);
    var tools2, d1 := FirstCallFed(m, tools1, d, []);
    assert [c, d] == [c] + [d] && [d] == [d] + [];
    assert CallsOut(m, map[], [c, d]) == [c1] + ([d1] + []);
  }

  lemma TwoCallsReleased(m: Mapping, tools: map<Index, string>, calls: seq<ToolCall>, k: Index)
    requires |calls| == 2 && calls[0].Key() == calls[1].Key() == k && tools.Keys <= {k}
    requires Unmask(m, ToolBuffer(tools, k)) != ""
    ensures var tail := Unmask(m, ToolBuffer(tools, k));
      CallsText(ReleaseCalls(m, tools, SortedKeys(tools.Keys), calls), k)
      == calls[0].Text() + tail + (calls[1].Text() + tail)
  {
    var tail := Unmask(m, ToolBuffer(tools, k));
    assert Unmask(m, "") == "";
    hide Unmask;
    assert k in tools.Keys;
    OneKey(SortedKeys(tools.Keys), k);
    assert [k][1..] == [];
    var c, d := calls[0], calls[1];
    var c', d' := c.(arguments := Some(c.Text() + tail)), d.(arguments := Some(d.Text() + tail));
    assert calls == [c] + [d] && calls[1..] == [d] && [d][1..] == [];
    assert AppendToCalls([d], k, tail) == [d'];
    assert ReleaseCall(calls, k, tail) == [c'] + [d'];
    assert ([c'] + [d'])[1..] == [d'] && [d'][1..] == [];
    assert CallsText([d'], k) == d'.Text() + "";
  }

  /** An event that finishes its only choice with two calls, neither with an index. */
  function TwoCalls(x: string, y: string): Event {
    var calls := [ToolCall(None, Some(x)), ToolCall(None, Some(y))];
    Event("", None, [Choice(None, Some(Delta(None, map[], calls)), Some("tool_calls"))], None, Absent, None)
  }

  /** Two calls without an index count as one call named twice, so what is held for it is sent twice. */
  lemma RepeatedCallReleasesTwice(m: Mapping, x: string, y: string)
    ensures var buf, ch := FeedBuffer(m, "", x), ArgsChannel(At(0), At(0));
      var tail := Unmask(m, FeedBuffer(m, buf, y));
      && (Clean(m, "", [TwoCalls(x, y)], ch) <==> tail == "")
      && (tail != "" ==> EventText(EventOut(m, map[], TwoCalls(x, y)).choices, 0, ch)
                         == FeedOut(m, "", x) + tail + (FeedOut(m, buf, y) + tail))
  {
    var e, ch := TwoCalls(x, y), ArgsChannel(At(0), At(0));
    var c := e.choices[0];
    var calls := c.delta.value.toolCalls;
    var tail := Unmask(m, FeedBuffer(m, FeedBuffer(m, "", x), y));
    TwoCallsFed(m, calls[0], calls[1], At(0));
    assert calls == [calls[0], calls[1]];
    TwoCallsClean(m, x, y);
    var tools, out := FeedCalls(m, map[], calls), CallsOut(m, map[], calls);
    if tail != "" {
      TwoCallsReleased(m, tools, out, At(0));
      hide Unmask, FeedBuffer, FeedOut, FeedFields, FeedCalls, CallsOut, CallsText, ReleaseCalls, ReleaseFields;
      hide SortedKeys;
      assert At(0) in tools;
      assert e.choices[1..] == [];
      ChoicesOutCons(m, map[], e.choices, 0, ch);
      NothingAround(ChoiceText(ChoiceOut(m, NOTHING_HELD, c), ch));
    }
  }

  lemma OneChoiceClean(m: Mapping, buf: string, e: Event, ch: Channel)
    requires |e.choices| == 1 && e.choices[0].Key(0) == ch.choice
    ensures Clean(m, buf, [e], ch) <==> CleanChoice(m, buf, e.choices[0], ch)
  {
    hide CleanChoice, RunBuffer, ChoiceInputs, EventInputs;
    assert e.choices[1..] == [] && [e][1..] == [];
    assert CleanEvent(m, buf, e.choices, 0, ch) == CleanChoice(m, buf, e.choices[0], ch);
    assert Clean(m, RunBuffer(m, buf, EventInputs(e.choices, 0, ch)), [e][1..], ch);
    assert [e] != [] && [e][0] == e;
  }

  lemma TwoCallsClean(m: Mapping, x: string, y: string)
    ensures var tail := Unmask(m, FeedBuffer(m, FeedBuffer(m, "", x), y));
      Clean(m, "", [TwoCalls(x, y)], ArgsChannel(At(0), At(0))) <==> tail == ""
  {
    var e, ch := TwoCalls(x, y), ArgsChannel(At(0), At(0));
    var calls := e.choices[0].delta.value.toolCalls;
    hide FeedBuffer, FeedOut, Unmask, RunBuffer, RunOut, FeedCalls, CallsOut, CallInputs, Clean;
    OneChoiceClean(m, "", e, ch);
    TwoCallsFed(m, calls[0], calls[1], At(0));
    assert calls == [calls[0], calls[1]];
    CallsChannel(m, map[], calls, At(0));
    assert calls[1..] == [calls[1]] && [calls[1]][1..] == [];
    assert CallCount([calls[1]], At(0)) == 1;
  }

  lemma BracketStays(m: Mapping)
    ensures Unmask(m, "[") == "["
  {
    FindUnique("[", ']', 1);
    assert ItemLen("[") == 1 && RestoreItem(m, "[") == "[";
    hide *;
    UnmaskFirst(m, "[", 1);
    NothingToRestore(m);
    assert "["[..1] == "[" && "["[1..] == "";
    NothingAround("[");
  }

  lemma BracketCut(m: Mapping)
    ensures Cut(m, "[") == 0
  {
    assert OpenStart("[") == 0;
    hide HoldStart, OpenStart;
  }

  lemma BracketIsHeld(m: Mapping)
    ensures FeedBuffer(m, "", "[") == "[" && FeedOut(m, "", "[") == "" && Unmask(m, "[") == "["
  {
    BracketStays(m);
    BracketCut(m);
    NothingToRestore(m);
    hide Unmask, Cut;
    NothingAround("[");
    assert "["[..0] == "" && "["[0..] == "[";
  }

  lemma TextOfTwoCalls(x: string, y: string)
    ensures EventText(TwoCalls(x, y).choices, 0, ArgsChannel(At(0), At(0))) == x + y
  {
    var e := TwoCalls(x, y);
    var calls := e.choices[0].delta.value.toolCalls;
    assert calls[1..] == [calls[1]] && [calls[1]][1..] == [] && e.choices[1..] == [];
    CallsCons(calls, At(0));
    CallsCons([calls[1]], At(0));
  }

  /** An opening bracket in such a call arrives twice. */
  lemma BracketArrivesTwice(m: Mapping)
    ensures var e, ch := TwoCalls("[", ""), ArgsChannel(At(0), At(0));
      EventText(EventOut(m, map[], e).choices, 0, ch) == "[[" && EventText(e.choices, 0, ch) == "["
  {
    hide *;
    TextOfTwoCalls("[", "");
    BracketIsHeld(m);
    EmptyFeed(m, "[");
    RepeatedCallReleasesTwice(m, "[", "");
    assert "" + "[" + ("" + "[") == "[[" && "[" + "" == "[";
  }

  // ---------- Up to the end of a choice a channel is a stream ----------

  function Chunks(inputs: seq<Input>): seq<string> {
    if inputs == [] then [] else (if inputs[0].text == "" then [] else [inputs[0].text]) + Chunks(inputs[1..])
  }

  function AllText(inputs: seq<Input>): string { if inputs == [] then "" else inputs[0].text + AllText(inputs[1..]) }

  lemma {:induction false} ChunksAreAllText(inputs: seq<Input>)
    ensures Flatten(Chunks(inputs)) == AllText(inputs)
  {
    if inputs != [] {
      ChunksAreAllText(inputs[1..]);
      if inputs[0].text != "" {
        assert ([inputs[0].text] + Chunks(inputs[1..]))[1..] == Chunks(inputs[1..]);
      } else {
        assert [] + Chunks(inputs[1..]) == Chunks(inputs[1..]);
      }
    }
  }

  lemma {:induction false} AllTextConcat(a: seq<Input>, b: seq<Input>)
    ensures AllText(a + b) == AllText(a) + AllText(b)
  {
    if a == [] {
      assert a + b == b;
    } else {
      AllTextConcat(a[1..], b);
      assert (a + b)[0] == a[0] && (a + b)[1..] == a[1..] + b;
      AllTextCons(a);
      AllTextCons(a + b);
      hide AllText;
      Assoc(a[0].text, AllText(a[1..]), AllText(b));
    }
  }

  lemma AllTextCons(inputs: seq<Input>)
    requires inputs != []
    ensures AllText(inputs) == inputs[0].text + AllText(inputs[1..])
  {
  }

  lemma {:induction false} CallInputsText(calls: seq<ToolCall>, k: Index)
    ensures AllText(CallInputs(calls, k)) == CallsText(calls, k)
  {
    if calls != [] {
      var i := Input(calls[0].Text(), false);
      CallInputsText(calls[1..], k);
      AllTextConcat(if calls[0].Key() == k then [i] else [], CallInputs(calls[1..], k));
      assert AllText([i]) == i.text + "";
    }
  }

  lemma ChoiceInputsText(c: Choice, ch: Channel)
    ensures AllText(ChoiceInputs(c, ch)) == ChoiceText(c, ch)
  {
    var finish := Input("", true);
    assert AllText([finish]) == "" + "";
    AllTextConcat(ChoiceFeeds(c, ch), [finish]);
    assert ChoiceFeeds(c, ch) + [] == ChoiceFeeds(c, ch);
    if c.delta.Some? {
      match ch
      case TextChannel(_, f) =>
        var x := TextOf(c.delta.value, f);
        assert AllText([Input(x, false)]) == x + "";
      case ArgsChannel(_, k) => CallInputsText(c.delta.value.toolCalls, k);
    }
  }

  /** The pieces of a channel's input make up the text that the event carries for it. */
  lemma {:induction false} EventInputsText(choices: seq<Choice>, pos: nat, ch: Channel)
    ensures AllText(EventInputs(choices, pos, ch)) == EventText(choices, pos, ch)
    decreases |choices|
  {
    if choices != [] {
      hide ChoiceInputs, ChoiceText;
      EventInputsText(choices[1..], pos + 1, ch);
      ChoiceInputsText(choices[0], ch);
      AllTextConcat(if choices[0].Key(pos) == ch.choice then ChoiceInputs(choices[0], ch) else [],
                    EventInputs(choices[1..], pos + 1, ch));
    }
  }

  lemma ChannelRunCons(m: Mapping, buf: string, i: Input, rest: seq<Input>)
    ensures ChannelRun(m, buf, [i] + rest) == ChannelOut(m, buf, i) + ChannelRun(m, ChannelBuffer(m, buf, i), rest)
  {
    ChannelRunConcat(m, buf, [i], rest);
    OnePiece(m, buf, i);
  }

  /** The part of a channel's input that belongs to one choice, behind it the rest. */
  lemma {:induction false} EpisodeIsStream(m: Mapping, buf: string, inputs: seq<Input>, rest: seq<Input>)
    requires inputs != [] && inputs[|inputs| - 1].finishes && forall i | 0 <= i < |inputs| - 1 :: !inputs[i].finishes
    ensures ChannelRun(m, buf, inputs + rest) == Stream(m, buf, Chunks(inputs)) + ChannelRun(m, "", rest)
    decreases |inputs|
  {
    var i, tail := inputs[0], inputs[1..];
    var out, buf' := FeedOut(m, buf, i.text), FeedBuffer(m, buf, i.text);
    assert inputs + rest == [i] + (tail + rest);
    ChannelRunCons(m, buf, i, tail + rest);
    StreamOfChunks(m, buf, i.text, tail);
    if tail == [] {
      assert i == inputs[|inputs| - 1] && tail + rest == rest;
      LastInput(m, buf, i);
    } else {
      assert tail[|tail| - 1] == inputs[|inputs| - 1] && !i.finishes;
      assert forall j | 0 <= j < |tail| - 1 :: tail[j] == inputs[j + 1];
      EpisodeIsStream(m, buf', tail, rest);
      MiddleInput(m, buf, i);
      hide *;
      Assoc(out, Stream(m, buf', Chunks(tail)), ChannelRun(m, "", rest));
    }
  }

  lemma LastInput(m: Mapping, buf: string, i: Input)
    requires i.finishes
    ensures ChannelOut(m, buf, i) == FeedOut(m, buf, i.text) + Stream(m, FeedBuffer(m, buf, i.text), Chunks([]))
    ensures ChannelBuffer(m, buf, i) == ""
  {
  }

  lemma MiddleInput(m: Mapping, buf: string, i: Input)
    requires !i.finishes
    ensures ChannelOut(m, buf, i) == FeedOut(m, buf, i.text)
    ensures ChannelBuffer(m, buf, i) == FeedBuffer(m, buf, i.text)
  {
    hide FeedOut, FeedBuffer, Unmask;
    NothingAround(FeedOut(m, buf, i.text));
  }

  /** A choice whose text meets the streaming condition is emitted as one pass over the text would restore it. */
  lemma EpisodeRestored(m: Mapping, inputs: seq<Input>, rest: seq<Input>)
    requires inputs != [] && inputs[|inputs| - 1].finishes && forall i | 0 <= i < |inputs| - 1 :: !inputs[i].finishes
    requires m.WF() && Faithful(m, AllText(inputs))
    ensures ChannelRun(m, "", inputs + rest) == Unmask(m, AllText(inputs)) + ChannelRun(m, "", rest)
  {
    EpisodeIsStream(m, "", inputs, rest);
    ChunksAreAllText(inputs);
    assert "" + AllText(inputs) == AllText(inputs);
    StreamRefinesUnmask(m, "", Chunks(inputs));
  }

  lemma StreamOfChunks(m: Mapping, buf: string, x: string, tail: seq<Input>)
    ensures Stream(m, buf, (if x == "" then [] else [x]) + Chunks(tail))
         == FeedOut(m, buf, x) + Stream(m, FeedBuffer(m, buf, x), Chunks(tail))
  {
    if x == "" {
      assert [] + Chunks(tail) == Chunks(tail);
    } else {
      assert ([x] + Chunks(tail))[1..] == Chunks(tail);
    }
  }
}
