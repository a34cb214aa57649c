/** The restorer of a streamed response as it runs
    (apps/gateway/internal/application/services/pii.go, unmasker.event, release and tail). */
module StreamUnmasker {
  import opened Common
  import opened Wrappers
  import opened Text
  import opened Mappings
  import opened Unmasking
  import opened PIIStream
  import opened PIIStreamBuffer
  import opened ChatEvents
  import opened Unmasker
  import opened UnmaskerLaws

  /** One buffer fed with one nonempty chunk. */
  method FeedText(buf: string, chunk: string, mapping: PIIMapping) returns (out: string, rest: string)
    requires mapping.View().WF() && chunk != ""
    ensures out == FeedOut(mapping.View(), buf, chunk) && rest == FeedBuffer(mapping.View(), buf, chunk)
  {
    var b := new Builder();
    b.WriteString(buf);
    assert "" + buf == buf;
    out := FeedPIIStreamBuffer(b, chunk, mapping);
    rest := b.text;
  }

  method FlushText(buf: string, mapping: PIIMapping) returns (out: string)
    requires mapping.View().WF()
    ensures out == Unmask(mapping.View(), buf)
  {
    var b := new Builder();
    b.WriteString(buf);
    assert "" + buf == buf;
    out := FlushPIIStreamBuffer(b, mapping);
  }

  // ---------- The loops over fields, calls and keys ----------

  method FeedTextFields(t0: Texts, mapping: PIIMapping) returns (t: Texts)
    requires mapping.View().WF()
    ensures t == FeedFields(mapping.View(), t0, GENERATED)
  {
    ghost var m := mapping.View();
    t := t0;
    hide FeedBuffer, FeedOut, Mapping.WF;
    for i := 0 to |GENERATED|
      invariant FeedFields(m, t, GENERATED[i..]) == FeedFields(m, t0, GENERATED)
    {
      var g := GENERATED[i];
      assert GENERATED[i..][0] == g && GENERATED[i..][1..] == GENERATED[i + 1..];
      if g in t.text && t.text[g] != "" {
        var out, rest := FeedText(BufferOf(t.held, g), t.text[g], mapping);
        t := Texts(t.held[g := rest], t.text[g := out]);
      }
    }
  }

  /** The first `i` calls are fed. */
  ghost predicate CallsFed(
    m: Mapping, tools: map<Index, string>, calls: seq<ToolCall>, i: nat, tools': map<Index, string>,
      calls': seq<ToolCall>)
  {
    && i <= |calls| && FeedCalls(m, tools', calls[i..]) == FeedCalls(m, tools, calls)
    && calls' + CallsOut(m, tools', calls[i..]) == CallsOut(m, tools, calls)
  }

  lemma NoCallFed(m: Mapping, tools: map<Index, string>, calls: seq<ToolCall>)
    ensures CallsFed(m, tools, calls, 0, tools, [])
  {
    hide FeedCalls, CallsOut;
    assert calls[0..] == calls;
  }

  lemma AllCallsFed(m: Mapping, tools: map<Index, string>, calls: seq<ToolCall>, tools': map<Index, string>,
        calls': seq<ToolCall>)
    requires CallsFed(m, tools, calls, |calls|, tools', calls')
    ensures tools' == FeedCalls(m, tools, calls) && calls' == CallsOut(m, tools, calls)
  {
    assert calls[|calls|..] == [];
  }

  lemma NextCallFed(m: Mapping, tools: map<Index, string>, calls: seq<ToolCall>, i: nat)
    requires i < |calls|
    ensures var k, x := calls[i].Key(), calls[i].Text();
      var tools' := if x == "" then tools else tools[k := FeedBuffer(m, ToolBuffer(tools, k), x)];
      var call := if x == "" then calls[i] else calls[i].(arguments := Some(FeedOut(m, ToolBuffer(tools, k), x)));
      && FeedCalls(m, tools, calls[i..]) == FeedCalls(m, tools', calls[i + 1..])
      && CallsOut(m, tools, calls[i..]) == [call] + CallsOut(m, tools', calls[i + 1..])
  {
    hide FeedBuffer, FeedOut;
    assert calls[i..][0] == calls[i] && calls[i..][1..] == calls[i + 1..];
  }

  lemma FeedCallsStep(
    m: Mapping, tools: map<Index, string>, calls: seq<ToolCall>, i: nat, tools': map<Index, string>,
      calls': seq<ToolCall>)
    requires i < |calls| && CallsFed(m, tools, calls, i, tools', calls')
    ensures var k, x := calls[i].Key(), calls[i].Text();
      if x == "" then CallsFed(m, tools, calls, i + 1, tools', calls' + [calls[i]])
      else CallsFed(m, tools, calls, i + 1, tools'[k := FeedBuffer(m, ToolBuffer(tools', k), x)],
                    calls' + [calls[i].(arguments := Some(FeedOut(m, ToolBuffer(tools', k), x)))])
  {
    hide FeedCalls, CallsOut, FeedBuffer, FeedOut;
    NextCallFed(m, tools', calls, i);
  }

  method FeedToolCalls(tools: map<Index, string>, calls: seq<ToolCall>, mapping: PIIMapping)
      returns (tools': map<Index, string>, calls': seq<ToolCall>)
    requires mapping.View().WF()
    ensures tools' == FeedCalls(mapping.View(), tools, calls) && calls' == CallsOut(mapping.View(), tools, calls)
  {
    hide FeedBuffer, FeedOut, FeedCalls, CallsOut, CallsFed, Mapping.WF;
    ghost var m := mapping.View();
    tools', calls' := tools, [];
    NoCallFed(m, tools, calls);
    for i := 0 to |calls|
      invariant CallsFed(m, tools, calls, i, tools', calls')
    {
      var call := calls[i];
      FeedCallsStep(m, tools, calls, i, tools', calls');
      if call.Text() != "" {
        var out, rest := FeedText(ToolBuffer(tools', call.Key()), call.Text(), mapping);
        tools' := tools'[call.Key() := rest];
        calls' := calls' + [call.(arguments := Some(out))];
      } else {
        calls' := calls' + [call];
      }
    }
    AllCallsFed(m, tools, calls, tools', calls');
  }

  ghost predicate FieldReleases(m: Mapping, held: map<Field, string>, done: seq<Field>) {
    exists f | f in held :: f in done && Unmask(m, held[f]) != ""
  }

  lemma FieldReleasesSnoc(m: Mapping, held: map<Field, string>, done: seq<Field>, g: Field)
    ensures FieldReleases(m, held, done + [g]) <==>
      FieldReleases(m, held, done) || (g in held && Unmask(m, held[g]) != "")
  {
    hide Unmask;
  }

  method ReleaseTextFields(held: map<Field, string>, text: map<Field, string>, mapping: PIIMapping)
      returns (text': map<Field, string>, released: bool)
    requires mapping.View().WF()
    ensures text' == ReleaseFields(mapping.View(), held, text, GENERATED)
    ensures released <==> exists f | f in held :: Unmask(mapping.View(), held[f]) != ""
  {
    ghost var m := mapping.View();
    text', released := text, false;
    hide Unmask, Mapping.WF;
    for i := 0 to |GENERATED|
      invariant ReleaseFields(m, held, text', GENERATED[i..]) == ReleaseFields(m, held, text, GENERATED)
      invariant released <==> FieldReleases(m, held, GENERATED[..i])
    {
      var g := GENERATED[i];
      assert GENERATED[i..][0] == g && GENERATED[i..][1..] == GENERATED[i + 1..]
        && GENERATED[..i + 1] == GENERATED[..i] + [g];
      FieldReleasesSnoc(m, held, GENERATED[..i], g);
      if g in held {
        var tail := FlushText(held[g], mapping);
        if tail != "" {
          text' := text'[g := BufferOf(text', g) + tail];
          released := true;
        }
      }
    }
    assert GENERATED[..|GENERATED|] == GENERATED;
    forall f ensures f in GENERATED { GeneratedFields(f); }
  }

  lemma NextKey(s: set<Index>, k: Index)
    requires IsLeast(s, k)
    ensures SortedKeys(s) == [k] + SortedKeys(s - {k})
  {
    LeastIsUnique(s, k, Least(s));
  }

  /** The key that comes first. */
  method First(s: set<Index>) returns (k: Index)
    requires s != {}
    ensures IsLeast(s, k)
  {
    k :| k in s;
    var rest := s - {k};
    while rest != {}
      invariant k in s && rest <= s && forall j | j in s - rest && j != k :: Precedes(k, j)
      decreases |rest|
    {
      hide Precedes;
      var x :| x in rest;
      rest := rest - {x};
      PrecedesOrders(x, k, k);
      if Precedes(x, k) {
        forall j | j in s - rest && j != x ensures Precedes(x, j) { PrecedesOrders(x, k, j); }
        k := x;
      }
    }
  }

  /** The keys in the order in which they are released. */
  method KeysInOrder(s: set<Index>) returns (keys: seq<Index>)
    ensures keys == SortedKeys(s)
  {
    keys := [];
    var rest := s;
    hide SortedKeys, Least, Ordered;
    while rest != {}
      invariant keys + SortedKeys(rest) == SortedKeys(s)
      decreases |rest|
    {
      var k := First(rest);
      NextKey(rest, k);
      keys := keys + [k];
      rest := rest - {k};
    }
    NoKeys();
  }

  lemma NoKeys()
    ensures SortedKeys({}) == []
  {
  }

  ghost predicate CallReleases(m: Mapping, tools: map<Index, string>, keys: seq<Index>) {
    exists i | 0 <= i < |keys| :: Unmask(m, ToolBuffer(tools, keys[i])) != ""
  }

  method ReleaseToolCalls(tools: map<Index, string>, calls: seq<ToolCall>, mapping: PIIMapping)
      returns (calls': seq<ToolCall>, released: bool)
    requires mapping.View().WF()
    ensures calls' == ReleaseCalls(mapping.View(), tools, SortedKeys(tools.Keys), calls)
    ensures released <==> exists k | k in tools :: Unmask(mapping.View(), tools[k]) != ""
  {
    hide Unmask, ReleaseCall, ReleaseCalls, CallReleases, Mapping.WF, SortedKeys, Precedes, Ordered;
    ghost var m := mapping.View();
    var keys := KeysInOrder(tools.Keys);
    SomeCallReleases(m, tools, keys);
    calls', released := calls, false;
    NoKeyReleased(m, tools, keys, calls);
    for i := 0 to |keys|
      invariant ReleaseCalls(m, tools, keys[i..], calls') == ReleaseCalls(m, tools, keys, calls)
      invariant released <==> CallReleases(m, tools, keys[..i])
    {
      var tail := FlushText(ToolBuffer(tools, keys[i]), mapping);
      ReleaseCallsStep(m, tools, keys, i, calls');
      ReleaseSnoc(m, tools, keys, i);
      calls' := ReleaseCall(calls', keys[i], tail);
      if tail != "" {
        released := true;
      }
    }
    AllKeysReleased(m, tools, keys, calls');
  }

  lemma NoKeyReleased(m: Mapping, tools: map<Index, string>, keys: seq<Index>, calls: seq<ToolCall>)
    ensures ReleaseCalls(m, tools, keys[0..], calls) == ReleaseCalls(m, tools, keys, calls)
    ensures !CallReleases(m, tools, keys[..0])
  {
    assert keys[0..] == keys;
  }

  lemma AllKeysReleased(m: Mapping, tools: map<Index, string>, keys: seq<Index>, calls: seq<ToolCall>)
    ensures ReleaseCalls(m, tools, keys[|keys|..], calls) == calls
    ensures keys[..|keys|] == keys
  {
  }

  lemma ReleaseCallsStep(m: Mapping, tools: map<Index, string>, keys: seq<Index>, i: nat, calls: seq<ToolCall>)
    requires i < |keys|
    ensures ReleaseCalls(m, tools, keys[i..], calls)
         == ReleaseCalls(m, tools, keys[i + 1..], ReleaseCall(calls, keys[i], Unmask(m, ToolBuffer(tools, keys[i]))))
  {
    hide Unmask, ReleaseCall;
    assert keys[i..][0] == keys[i] && keys[i..][1..] == keys[i + 1..];
  }

  lemma ReleaseSnoc(m: Mapping, tools: map<Index, string>, keys: seq<Index>, i: nat)
    requires i < |keys|
    ensures CallReleases(m, tools, keys[..i + 1]) <==>
      CallReleases(m, tools, keys[..i]) || Unmask(m, ToolBuffer(tools, keys[i])) != ""
  {
    hide Unmask;
    if CallReleases(m, tools, keys[..i]) {
      var j :| 0 <= j < |keys[..i]| && Unmask(m, ToolBuffer(tools, keys[..i][j])) != "";
      assert keys[..i + 1][j] == keys[..i][j];
    }
    if Unmask(m, ToolBuffer(tools, keys[i])) != "" { assert keys[..i + 1][i] == keys[i]; }
    if CallReleases(m, tools, keys[..i + 1]) {
      var j :| 0 <= j < |keys[..i + 1]| && Unmask(m, ToolBuffer(tools, keys[..i + 1][j])) != "";
      if j < i { assert keys[..i][j] == keys[..i + 1][j]; }
    }
  }

  lemma SomeCallReleases(m: Mapping, tools: map<Index, string>, keys: seq<Index>)
    requires forall k :: k in keys <==> k in tools
    ensures CallReleases(m, tools, keys) <==> exists k | k in tools :: Unmask(m, tools[k]) != ""
  {
    hide Unmask;
    if CallReleases(m, tools, keys) {
      var i :| 0 <= i < |keys| && Unmask(m, ToolBuffer(tools, keys[i])) != "";
      assert keys[i] in keys;
    }
    if k :| k in tools && Unmask(m, tools[k]) != "" {
      var i :| 0 <= i < |keys| && keys[i] == k;
      assert Unmask(m, ToolBuffer(tools, keys[i])) != "";
    }
  }

  // ---------- One event ----------

  /** The first `pos` choices are restored. */
  ghost predicate ChoicesFed(m: Mapping, before: Held, choices: seq<Choice>, pos: nat, held: Held, out: seq<Choice>) {
    && pos <= |choices| && FeedChoices(m, held, choices[pos..], pos) == FeedChoices(m, before, choices, 0)
    && out + ChoicesOut(m, held, choices[pos..], pos) == ChoicesOut(m, before, choices, 0)
  }

  lemma NoChoiceFed(m: Mapping, before: Held, choices: seq<Choice>)
    ensures ChoicesFed(m, before, choices, 0, before, [])
  {
    hide FeedChoices, ChoicesOut;
    assert choices[0..] == choices;
  }

  lemma OneChoiceFed(m: Mapping, held: Held, choices: seq<Choice>, pos: nat)
    requires pos < |choices|
    ensures var c := choices[pos];
      var k := c.Key(pos);
      && FeedChoices(m, held, choices[pos..], pos)
         == FeedChoices(m, HeldAfter(m, held, k, c), choices[pos + 1..], pos + 1)
      && ChoicesOut(m, held, choices[pos..], pos)
         == [ChoiceOut(m, HeldOf(held, k), c)] + ChoicesOut(m, HeldAfter(m, held, k, c), choices[pos + 1..], pos + 1)
  {
    hide HeldAfter, ChoiceOut;
    assert choices[pos..][0] == choices[pos] && choices[pos..][1..] == choices[pos + 1..];
  }

  lemma NextChoiceFed(m: Mapping, before: Held, choices: seq<Choice>, pos: nat, held: Held, out: seq<Choice>)
    requires ChoicesFed(m, before, choices, pos, held, out) && pos < |choices|
    ensures var c := choices[pos];
      var k := c.Key(pos);
      ChoicesFed(m, before, choices, pos + 1, HeldAfter(m, held, k, c), out + [ChoiceOut(m, HeldOf(held, k), c)])
  {
    hide HeldAfter, ChoiceOut, FeedChoices, ChoicesOut;
    var c := choices[pos];
    var held' := HeldAfter(m, held, c.Key(pos), c);
    OneChoiceFed(m, held, choices, pos);
    Assoc(out, [ChoiceOut(m, HeldOf(held, c.Key(pos)), c)], ChoicesOut(m, held', choices[pos + 1..], pos + 1));
  }

  lemma AllChoicesFed(m: Mapping, before: Held, choices: seq<Choice>, held: Held, out: seq<Choice>)
    requires ChoicesFed(m, before, choices, |choices|, held, out)
    ensures held == FeedChoices(m, before, choices, 0) && out == ChoicesOut(m, before, choices, 0)
  {
    assert choices[|choices|..] == [];
  }

  // ---------- The restorer ----------

  class StreamUnmasker {
    const mapping: PIIMapping
    var held: Held

    constructor (mapping: PIIMapping)
      ensures this.mapping == mapping && held == map[]
    {
      this.mapping := mapping;
      held := map[];
    }

    /** Adds what a choice still holds to its delta. */
    method ReleaseChoice(k: Index, choice: Choice) returns (out: Choice, released: bool)
      requires mapping.View().WF()
      modifies this
      ensures held == old(held) - {k}
      ensures out == Release(mapping.View(), HeldOf(old(held), k), choice)
      ensures released <==> Releases(mapping.View(), HeldOf(old(held), k))
    {
      if k !in held {
        NothingToRelease(mapping.View(), choice);
        return choice, false;
      }
      var h := held[k];
      hide Unmask, ReleaseFields, ReleaseCalls, Mapping.WF, SortedKeys;
      held := held - {k};
      var d := if choice.delta.Some? then choice.delta.value else NO_DELTA;
      var text, textReleased := ReleaseTextFields(h.text, d.text, mapping);
      var calls, callsReleased := ReleaseToolCalls(h.tools, d.toolCalls, mapping);
      released := textReleased || callsReleased;
      out := if released then choice.(delta := Some(d.(text := text, toolCalls := calls))) else choice;
    }

    /** Restores one choice of an event. */
    method RestoreChoice(k: Index, choice: Choice) returns (out: Choice)
      requires mapping.View().WF()
      modifies this
      ensures out == ChoiceOut(mapping.View(), HeldOf(old(held), k), choice)
      ensures held == HeldAfter(mapping.View(), old(held), k, choice)
    {
      var h := HeldOf(held, k);
      hide Unmask, FeedFields, FeedCalls, CallsOut, Release, Mapping.WF;
      out := choice;
      if choice.delta.Some? {
        var d := choice.delta.value;
        var t := FeedTextFields(Texts(h.text, d.text), mapping);
        var heldTools, calls := FeedToolCalls(h.tools, d.toolCalls, mapping);
        h := HeldChoice(t.held, heldTools);
        out := choice.(delta := Some(d.(text := t.text, toolCalls := calls)));
      }
      held := held[k := h];
      if choice.finish.Some? {
        ghost var before := held;
        var released;
        out, released := ReleaseChoice(k, out);
        assert before - {k} == old(held) - {k};
      }
    }

    /** Restores one streamed event. */
    method RestoreEvent(e: Event) returns (out: Event)
      requires mapping.View().WF()
      modifies this
      ensures out == EventOut(mapping.View(), old(held), e)
      ensures held == FeedChoices(mapping.View(), old(held), e.choices, 0)
    {
      hide HeldAfter, ChoiceOut, FeedChoices, ChoicesOut, ChoicesFed, Mapping.WF;
      ghost var m := mapping.View();
      var choices := [];
      NoChoiceFed(m, held, e.choices);
      for pos := 0 to |e.choices|
        invariant mapping.View() == m && ChoicesFed(m, old(held), e.choices, pos, held, choices)
      {
        var c := e.choices[pos];
        NextChoiceFed(m, old(held), e.choices, pos, held, choices);
        var restored := RestoreChoice(c.Key(pos), c);
        choices := choices + [restored];
      }
      AllChoicesFed(m, old(held), e.choices, held, choices);
      out := e.(choices := choices);
    }

    /** An event with the text still held for choices the provider never finished. */
    method TailEvent(id: string, model: string) returns (tail: Option<Event>)
      requires mapping.View().WF()
      modifies this
      ensures tail == Tail(mapping.View(), old(held), id, model) && held == map[]
    {
      ghost var m := mapping.View();
      ghost var before := held;
      var keys := KeysInOrder(held.Keys);
      var choices := [];
      TailAtFirst(m, before, keys);
      hide Release, Releases, Mapping.WF, SortedKeys, TailSoFar, Tail;
      var i: nat := 0;
      while i < |keys|
        invariant i <= |keys| && mapping.View() == m && TailSoFar(m, before, keys, i, held, choices)
      {
        TailStep(m, before, keys, i, held, choices);
        var c, released := ReleaseChoice(keys[i], Choice(Some(keys[i]), Some(NO_DELTA), None));
        if released {
          choices := choices + [c];
        }
        i := i + 1;
      }
      TailAtLast(m, before, keys, held, choices, id, model);
      tail := if choices == [] then None else Some(Event(id, Some(model), choices, None, Absent, None));
    }
  }

  ghost predicate TailSoFar(m: Mapping, before: Held, keys: seq<Index>, i: nat, held: Held, choices: seq<Choice>) {
    StillHeld(before, keys, i, held) && choices + TailChoices(m, before, keys[i..]) == TailChoices(m, before, keys)
  }

  lemma TailAtFirst(m: Mapping, before: Held, keys: seq<Index>)
    requires keys == SortedKeys(before.Keys)
    ensures TailSoFar(m, before, keys, 0, before, [])
  {
    assert keys[0..] == keys;
    StillHeldAtFirst(before, keys);
  }

  lemma TailStep(m: Mapping, before: Held, keys: seq<Index>, i: nat, held: Held, choices: seq<Choice>)
    requires i < |keys| && TailSoFar(m, before, keys, i, held, choices)
    ensures var h := HeldOf(held, keys[i]); var c := Release(m, h, Choice(Some(keys[i]), Some(NO_DELTA), None));
      TailSoFar(m, before, keys, i + 1, held - {keys[i]}, if Releases(m, h) then choices + [c] else choices)
  {
    hide Precedes, Ordered;
    StillHeldStep(before, keys, i, held);
    TailChoicesStep(m, before, keys, i);
    hide Release, Releases, StillHeld, TailChoices;
  }

  lemma TailAtLast(m: Mapping, before: Held, keys: seq<Index>, held: Held, choices: seq<Choice>, id: string,
        model: string)
    requires keys == SortedKeys(before.Keys) && TailSoFar(m, before, keys, |keys|, held, choices)
    ensures held == map[]
    ensures Tail(m, before, id, model) == if choices == [] then None
      else Some(Event(id, Some(model), choices, None, Absent, None))
  {
    StillHeldAtLast(before, keys, held);
    NoMoreTail(m, before, keys);
    assert choices + [] == choices;
  }

  /** The choices with the first `i` keys are released, the others are as they were. */
  ghost predicate StillHeld(before: Held, keys: seq<Index>, i: nat, held: Held) {
    && i <= |keys| && Ordered(keys)
    && held.Keys == (set k | k in keys[i..])
    && forall k | k in held :: k in before && held[k] == before[k]
  }

  lemma StillHeldAtFirst(before: Held, keys: seq<Index>)
    requires keys == SortedKeys(before.Keys)
    ensures StillHeld(before, keys, 0, before)
  {
    assert keys[0..] == keys;
  }

  lemma StillHeldStep(before: Held, keys: seq<Index>, i: nat, held: Held)
    requires StillHeld(before, keys, i, held) && i < |keys|
    ensures HeldOf(held, keys[i]) == HeldOf(before, keys[i])
    ensures StillHeld(before, keys, i + 1, held - {keys[i]})
  {
    assert keys[i..] == [keys[i]] + keys[i + 1..];
    assert keys[i] in keys[i..] && keys[i] !in keys[i + 1..];
  }

  lemma StillHeldAtLast(before: Held, keys: seq<Index>, held: Held)
    requires StillHeld(before, keys, |keys|, held)
    ensures held == map[]
  {
  }

  lemma TailChoicesStep(m: Mapping, before: Held, keys: seq<Index>, i: nat)
    requires i < |keys|
    ensures var h := HeldOf(before, keys[i]);
      TailChoices(m, before, keys[i..])
      == (if Releases(m, h) then [Release(m, h, Choice(Some(keys[i]), Some(NO_DELTA), None))] else [])
         + TailChoices(m, before, keys[i + 1..])
  {
    hide Releases, Release;
    assert keys[i..][0] == keys[i] && keys[i..][1..] == keys[i + 1..];
  }

  lemma NoMoreTail(m: Mapping, before: Held, keys: seq<Index>)
    ensures TailChoices(m, before, keys[|keys|..]) == []
  {
  }

  lemma NothingToRelease(m: Mapping, c: Choice)
    ensures !Releases(m, NOTHING_HELD) && Release(m, NOTHING_HELD, c) == c
  {
  }
}
