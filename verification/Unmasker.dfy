/** Restoring the channels of a streamed response (apps/gateway/internal/application/services/pii.go, unmasker):
    one buffer per choice and field, and per choice and tool call. */
module Unmasker {
  import opened Wrappers
  import opened Text
  import opened Mappings
  import opened Unmasking
  import opened PIIStream
  import opened ChatEvents

  /** What is held back for one choice. */
  datatype HeldChoice = HeldChoice(text: map<Field, string>, tools: map<Index, string>)

  type Held = map<Index, HeldChoice>

  const NOTHING_HELD := HeldChoice(map[], map[])

  // ---------- One channel ----------

  /** Feeding one chunk: what stays buffered and what is emitted. Empty chunks are not fed. */
  ghost function FeedBuffer(m: Mapping, buf: string, chunk: string): string {
    if chunk == "" then buf else (buf + chunk)[Cut(m, buf + chunk)..]
  }

  ghost function FeedOut(m: Mapping, buf: string, chunk: string): string {
    if chunk == "" then "" else Unmask(m, (buf + chunk)[..Cut(m, buf + chunk)])
  }

  // ---------- One choice ----------

  function BufferOf(text: map<Field, string>, f: Field): string { if f in text then text[f] else "" }

  function ToolBuffer(tools: map<Index, string>, k: Index): string { if k in tools then tools[k] else "" }

  /** The fields restored, in the order of the code. */
  const GENERATED: seq<Field> := [Content, ReasoningContent, Reasoning]

  /** The held and the event's texts. */
  datatype Texts = Texts(held: map<Field, string>, text: map<Field, string>)

  ghost function FeedField(m: Mapping, t: Texts, g: Field): Texts {
    if g in t.text && t.text[g] != ""
    then Texts(t.held[g := FeedBuffer(m, BufferOf(t.held, g), t.text[g])],
      t.text[g := FeedOut(m, BufferOf(t.held, g), t.text[g])])
    else t
  }

  /** Feeds the fields that are present and not empty, in order. */
  ghost function FeedFields(m: Mapping, t: Texts, fields: seq<Field>): Texts
    decreases |fields|
  {
    if fields == [] then t else FeedFields(m, FeedField(m, t, fields[0]), fields[1..])
  }

  /** Feeds the tool-call arguments that are present and not empty, in order. */
  ghost function FeedCalls(m: Mapping, tools: map<Index, string>, calls: seq<ToolCall>): map<Index, string>
    decreases |calls|
  {
    if calls == [] then tools
    else
      var k, x := calls[0].Key(), calls[0].Text();
      FeedCalls(m, if x == "" then tools else tools[k := FeedBuffer(m, ToolBuffer(tools, k), x)], calls[1..])
  }

  ghost function CallsOut(m: Mapping, tools: map<Index, string>, calls: seq<ToolCall>): seq<ToolCall>
    decreases |calls|
  {
    if calls == [] then []
    else
      var k, x := calls[0].Key(), calls[0].Text();
      if x == "" then [calls[0]] + CallsOut(m, tools, calls[1..])
      else [calls[0].(arguments := Some(FeedOut(m, ToolBuffer(tools, k), x)))]
           + CallsOut(m, tools[k := FeedBuffer(m, ToolBuffer(tools, k), x)], calls[1..])
  }

  ghost function FeedDelta(m: Mapping, h: HeldChoice, d: Delta): HeldChoice {
    HeldChoice(FeedFields(m, Texts(h.text, d.text), GENERATED).held, FeedCalls(m, h.tools, d.toolCalls))
  }

  ghost function DeltaOut(m: Mapping, h: HeldChoice, d: Delta): Delta {
    d.(text := FeedFields(m, Texts(h.text, d.text), GENERATED).text, toolCalls := CallsOut(m, h.tools, d.toolCalls))
  }

  // ---------- Releasing a choice ----------

  ghost function ReleaseField(m: Mapping, held: map<Field, string>, text: map<Field, string>,
        g: Field): map<Field, string>
  {
    if g in held && Unmask(m, held[g]) != "" then text[g := BufferOf(text, g) + Unmask(m, held[g])] else text
  }

  ghost function ReleaseFields(m: Mapping, held: map<Field, string>, text: map<Field, string>,
        fields: seq<Field>): map<Field, string>
    decreases |fields|
  {
    if fields == [] then text else ReleaseFields(m, held, ReleaseField(m, held, text, fields[0]), fields[1..])
  }

  /** Adds text to every call with the key. */
  function AppendToCalls(calls: seq<ToolCall>, k: Index, tail: string): (r: seq<ToolCall>)
    ensures |r| == |calls|
  {
    if calls == [] then []
    else [if calls[0].Key() == k then calls[0].(arguments := Some(calls[0].Text() + tail)) else calls[0]]
         + AppendToCalls(calls[1..], k, tail)
  }

  predicate HasCall(calls: seq<ToolCall>, k: Index) { exists i | 0 <= i < |calls| :: calls[i].Key() == k }

  function ReleaseCall(calls: seq<ToolCall>, k: Index, tail: string): seq<ToolCall> {
    if tail == "" then calls
    else if HasCall(calls, k) then AppendToCalls(calls, k, tail)
    else calls + [ToolCall(Some(k), Some(tail))]
  }

  /** Releases the tool calls key by key. */
  ghost function ReleaseCalls(m: Mapping, tools: map<Index, string>, keys: seq<Index>,
        calls: seq<ToolCall>): seq<ToolCall>
    decreases |keys|
  {
    if keys == [] then calls
    else ReleaseCalls(m, tools, keys[1..], ReleaseCall(calls, keys[0], Unmask(m, ToolBuffer(tools, keys[0]))))
  }

  /** Indexes are sorted by their spelling: 10 comes before 2. */
  predicate Precedes(a: Index, b: Index) { LexLess(a.spelling, b.spelling) }

  lemma PrecedesOrders(a: Index, b: Index, c: Index)
    ensures !Precedes(a, a)
    ensures a == b || Precedes(a, b) || Precedes(b, a)
    ensures Precedes(a, b) && Precedes(b, c) ==> Precedes(a, c)
  {
    LexOrders(a.spelling, b.spelling, c.spelling);
  }

  predicate IsLeast(s: set<Index>, k: Index) { k in s && forall j | j in s && j != k :: Precedes(k, j) }

  lemma {:induction false} LeastExists(s: set<Index>) returns (k: Index)
    requires s != {}
    ensures IsLeast(s, k)
  {
    hide Precedes;
    var x :| x in s;
    var r := s - {x};
    assert s == r + {x};
    if r == {} {
      k := x;
    } else {
      k := LeastExists(r);
      PrecedesOrders(x, k, k);
      if Precedes(x, k) {
        forall j | j in r ensures Precedes(x, j) { PrecedesOrders(x, k, j); }
        k := x;
      }
    }
  }

  lemma LeastIsUnique(s: set<Index>, k: Index, l: Index)
    requires IsLeast(s, k) && IsLeast(s, l)
    ensures k == l
  {
    hide Precedes;
    PrecedesOrders(k, l, k);
  }

  ghost function Least(s: set<Index>): (k: Index)
    requires s != {}
    ensures IsLeast(s, k)
  {
    LeastIs(s);
    var k: Index :| IsLeast(s, k);
    k
  }

  lemma LeastIs(s: set<Index>)
    requires s != {}
    ensures exists k: Index :: IsLeast(s, k)
  {
    var k := LeastExists(s);
  }

  predicate Ordered(keys: seq<Index>)
  {
    forall i, j | 0 <= i < j < |keys| :: keys[i] != keys[j] && Precedes(keys[i], keys[j])
  }

  /** The keys in the order in which they are released. */
  ghost function SortedKeys(s: set<Index>): (keys: seq<Index>)
    ensures forall k :: k in keys <==> k in s
    ensures Ordered(keys)
    decreases |s|
  {
    hide Precedes;
    if s == {} then [] else
      var rest := SortedKeys(s - {Least(s)});
      [Least(s)] + rest
  }

  /** Whether a choice still holds text that restores to something. */
  ghost predicate Releases(m: Mapping, h: HeldChoice) {
    (exists f | f in h.text :: Unmask(m, h.text[f]) != "") || exists k | k in h.tools :: Unmask(m, h.tools[k]) != ""
  }

  ghost function ReleaseDelta(m: Mapping, h: HeldChoice, d: Delta): Delta {
    d.(text := ReleaseFields(m, h.text, d.text, GENERATED),
      toolCalls := ReleaseCalls(m, h.tools, SortedKeys(h.tools.Keys), d.toolCalls))
  }

  ghost function Release(m: Mapping, h: HeldChoice, c: Choice): Choice {
    if Releases(m, h)
    then c.(delta := Some(ReleaseDelta(m, h, if c.delta.Some? then c.delta.value else NO_DELTA)))
    else c
  }

  // ---------- One event ----------

  function HeldOf(held: Held, k: Index): HeldChoice { if k in held then held[k] else NOTHING_HELD }

  ghost function FeedChoice(m: Mapping, h: HeldChoice, c: Choice): HeldChoice {
    if c.delta.Some? then FeedDelta(m, h, c.delta.value) else h
  }

  ghost function FedChoice(m: Mapping, h: HeldChoice, c: Choice): Choice {
    if c.delta.Some? then c.(delta := Some(DeltaOut(m, h, c.delta.value))) else c
  }

  ghost function ChoiceOut(m: Mapping, h: HeldChoice, c: Choice): Choice {
    var out := FedChoice(m, h, c);
    if c.finish.Some? then Release(m, FeedChoice(m, h, c), out) else out
  }

  ghost function HeldAfter(m: Mapping, held: Held, k: Index, c: Choice): Held {
    if c.finish.Some? then held - {k} else held[k := FeedChoice(m, HeldOf(held, k), c)]
  }

  ghost function FeedChoices(m: Mapping, held: Held, choices: seq<Choice>, pos: nat): Held
    decreases |choices|
  {
    if choices == [] then held
    else FeedChoices(m, HeldAfter(m, held, choices[0].Key(pos), choices[0]), choices[1..], pos + 1)
  }

  ghost function ChoicesOut(m: Mapping, held: Held, choices: seq<Choice>, pos: nat): (r: seq<Choice>)
    decreases |choices|
  {
    if choices == [] then []
    else
      var k := choices[0].Key(pos);
      [ChoiceOut(m, HeldOf(held, k), choices[0])]
      + ChoicesOut(m, HeldAfter(m, held, k, choices[0]), choices[1..], pos + 1)
  }

  ghost function EventOut(m: Mapping, held: Held, e: Event): Event {
    e.(choices := ChoicesOut(m, held, e.choices, 0))
  }

  /** The choices of the closing event: those with text still held. */
  ghost function TailChoices(m: Mapping, held: Held, keys: seq<Index>): seq<Choice>
    decreases |keys|
  {
    if keys == [] then []
    else
      var h := HeldOf(held, keys[0]);
      (if Releases(m, h) then [Release(m, h, Choice(Some(keys[0]), Some(NO_DELTA), None))] else [])
      + TailChoices(m, held, keys[1..])
  }

  ghost function Tail(m: Mapping, held: Held, id: string, model: string): Option<Event> {
    var choices := TailChoices(m, held, SortedKeys(held.Keys));
    if choices == [] then None else Some(Event(id, Some(model), choices, None, Absent, None))
  }
}
