/** Masking detected spans (pkg/domain/pii.go, ApplyMask; services/pii.go, maskText),
    and why restoring undoes it. */
module Masking {
  import opened Common
  import opened Wrappers
  import opened Text
  import opened Mappings
  import opened Unmasking
  import opened PIIStream

  datatype PIIEntity = PIIEntity(entityType: string, start: int, end: int)

  // ---------- Which spans are kept ----------

  predicate Less(a: PIIEntity, b: PIIEntity) {
    if a.start == b.start then a.end > b.end else a.start < b.start
  }

  function InsertSpan(x: PIIEntity, sorted: seq<PIIEntity>): (r: seq<PIIEntity>)
    ensures forall e :: e in r <==> e == x || e in sorted
  {
    if sorted == [] || !Less(sorted[0], x) then [x] + sorted else [sorted[0]] + InsertSpan(x, sorted[1..])
  }

  /** Stable sort by start, longer spans first among equal starts. */
  function SortSpans(list: seq<PIIEntity>): (r: seq<PIIEntity>)
    ensures forall e :: e in r <==> e in list
  {
    if list == [] then [] else InsertSpan(list[0], SortSpans(list[1..]))
  }

  predicate StartsBefore(x: PIIEntity, list: seq<PIIEntity>) { forall e | e in list :: !Less(e, x) }

  predicate Sorted(list: seq<PIIEntity>) {
    list == [] || (StartsBefore(list[0], list[1..]) && Sorted(list[1..]))
  }

  lemma {:induction false} InsertSpanSorts(x: PIIEntity, sorted: seq<PIIEntity>)
    requires Sorted(sorted)
    ensures Sorted(InsertSpan(x, sorted))
    ensures multiset(InsertSpan(x, sorted)) == multiset(sorted) + multiset{x}
  {
    if sorted != [] {
      assert sorted == [sorted[0]] + sorted[1..];
      if Less(sorted[0], x) {
        InsertSpanSorts(x, sorted[1..]);
        assert InsertSpan(x, sorted)[1..] == InsertSpan(x, sorted[1..]);
      } else {
        assert ([x] + sorted)[1..] == sorted;
      }
    }
  }

  /** Sorting orders the spans and neither drops nor repeats one. */
  lemma {:induction false} SortSpansSorts(list: seq<PIIEntity>)
    ensures Sorted(SortSpans(list)) && multiset(SortSpans(list)) == multiset(list)
  {
    if list != [] {
      assert list == [list[0]] + list[1..];
      SortSpansSorts(list[1..]);
      InsertSpanSorts(list[0], SortSpans(list[1..]));
    }
  }

  predicate InText(e: PIIEntity, len: nat) { 0 <= e.start < e.end <= len }

  /** Drops spans outside the text and spans that start before the last kept one ended. */
  function Keep(sorted: seq<PIIEntity>, len: nat, lastEnd: int): seq<PIIEntity> {
    if sorted == [] then []
    else if !InText(sorted[0], len) || sorted[0].start < lastEnd then Keep(sorted[1..], len, lastEnd)
    else [sorted[0]] + Keep(sorted[1..], len, sorted[0].end)
  }

  function KeptSpans(text: string, entities: seq<PIIEntity>): seq<PIIEntity> {
    Keep(SortSpans(entities), |text|, -1)
  }

  /** Spans lie behind `cursor`, inside the text, in order and apart. */
  predicate SpansOk(spans: seq<PIIEntity>, len: nat, cursor: nat) {
    if spans == [] then cursor <= len
    else cursor <= spans[0].start && InText(spans[0], len) && SpansOk(spans[1..], len, spans[0].end)
  }

  lemma {:induction false} KeepIsOk(sorted: seq<PIIEntity>, len: nat, lastEnd: int)
    requires lastEnd <= len
    ensures SpansOk(Keep(sorted, len, lastEnd), len, if lastEnd < 0 then 0 else lastEnd)
    ensures forall e | e in Keep(sorted, len, lastEnd) :: e in sorted && InText(e, len)
  {
    if sorted != [] {
      var e := sorted[0];
      if !InText(e, len) || e.start < lastEnd {
        KeepIsOk(sorted[1..], len, lastEnd);
      } else {
        KeepIsOk(sorted[1..], len, e.end);
      }
    }
  }

  lemma {:induction false} KeepCovers(sorted: seq<PIIEntity>, len: nat, last: PIIEntity, e: PIIEntity)
        returns (k: PIIEntity)
    requires Sorted(sorted) && StartsBefore(last, sorted) && e in sorted && InText(e, len)
    ensures k == last || k in Keep(sorted, len, last.end)
    ensures k.start <= e.start < k.end
  {
    var x := sorted[0];
    if e.start < last.end {
      k := last;
    } else if e == x {
      k := x;
    } else if !InText(x, len) || x.start < last.end {
      k := KeepCovers(sorted[1..], len, last, e);
    } else {
      k := KeepCovers(sorted[1..], len, x, e);
    }
  }

  lemma {:induction false} KeepCoversAll(sorted: seq<PIIEntity>, len: nat, e: PIIEntity) returns (k: PIIEntity)
    requires Sorted(sorted) && e in sorted && InText(e, len)
    ensures k in Keep(sorted, len, -1) && k.start <= e.start < k.end
  {
    var x := sorted[0];
    if x == e {
      k := x;
    } else if InText(x, len) {
      k := KeepCovers(sorted[1..], len, x, e);
    } else {
      k := KeepCoversAll(sorted[1..], len, e);
    }
  }

  /** Every detected span inside the text starts inside a kept one: only spans that overlap are dropped. */
  lemma KeptSpansCover(text: string, entities: seq<PIIEntity>, e: PIIEntity) returns (k: PIIEntity)
    requires e in entities && InText(e, |text|)
    ensures k in KeptSpans(text, entities) && k.start <= e.start < k.end
  {
    SortSpansSorts(entities);
    k := KeepCoversAll(SortSpans(entities), |text|, e);
  }

  /** Kept spans are detected ones, in order, apart, and inside the text. */
  lemma KeptSpansOk(text: string, entities: seq<PIIEntity>)
    ensures SpansOk(KeptSpans(text, entities), |text|, 0)
    ensures forall e | e in KeptSpans(text, entities) :: e in entities && InText(e, |text|)
  {
    KeepIsOk(SortSpans(entities), |text|, -1);
  }

  // ---------- The masked text ----------

  /** The text from `cursor` on with every span replaced by the token its (type, value) pair owns in `m`. */
  function Render(m: Mapping, text: string, spans: seq<PIIEntity>, cursor: nat): string
    requires SpansOk(spans, |text|, cursor)
    decreases |spans|
  {
    if spans == [] then text[cursor..]
    else
      var e := spans[0];
      text[cursor..e.start] + m.TokenFor(e.entityType, text[e.start..e.end]) + Render(m, text, spans[1..], e.end)
  }

  /** Every span's value has its token. */
  ghost predicate AllKnown(m: Mapping, text: string, spans: seq<PIIEntity>)
  {
    forall e | e in spans :: InText(e, |text|) && ValidType(e.entityType)
      && KeyOf(e.entityType, text[e.start..e.end]) in m.originalToToken
  }

  /** Later tokens do not change what a masked text looks like. */
  lemma {:induction false} RenderStable(m: Mapping, m': Mapping, text: string, spans: seq<PIIEntity>, cursor: nat)
    requires SpansOk(spans, |text|, cursor) && AllKnown(m, text, spans) && Extends(m, m')
    ensures AllKnown(m', text, spans) && Render(m', text, spans, cursor) == Render(m, text, spans, cursor)
    decreases |spans|
  {
    if spans != [] {
      var e := spans[0];
      RenderStable(m, m', text, spans[1..], e.end);
      assert e in spans;
      assert m'.TokenFor(e.entityType, text[e.start..e.end]) == m.TokenFor(e.entityType, text[e.start..e.end]);
    }
  }

  // ---------- Round trip ----------

  /** Unmasked text restores to itself and leaves no bracket open in front of a token. */
  ghost predicate GapOk(m: Mapping, gap: string) { Balanced(gap) && Unmask(m, gap) == gap }

  ghost predicate GapsOk(m: Mapping, text: string, spans: seq<PIIEntity>, cursor: nat)
    requires SpansOk(spans, |text|, cursor)
    decreases |spans|
  {
    if spans == [] then Unmask(m, text[cursor..]) == text[cursor..]
    else GapOk(m, text[cursor..spans[0].start]) && GapsOk(m, text, spans[1..], spans[0].end)
  }

  lemma {:induction false} BoundaryIsHarmless(m: Mapping, a: string, b: string)
    requires Balanced(a) && (a == "" || b == "" || !IsWordChar(a[|a| - 1]) || !IsWordChar(b[0]))
    ensures |a| <= |a + b| && Harmless(m, a + b, |a|)
    decreases |a|
  {
    hide Unmask, Harmless, Balanced;
    if a == "" {
      HarmlessAtStart(m, a + b);
    } else {
      var n := ItemLen(a + b);
      ItemBeforeBoundary(a, b, n);
      BalancedDrop(a, n);
      BoundaryIsHarmless(m, a[n..], b);
      assert (a + b)[n..] == a[n..] + b;
      HarmlessBehindItem(m, a + b, |a|, n);
    }
  }

  /** Text without an open bracket, up to a boundary, is restored on its own. */
  lemma UnmaskConcat(m: Mapping, a: string, b: string)
    requires Balanced(a) && (a == "" || b == "" || !IsWordChar(a[|a| - 1]) || !IsWordChar(b[0]))
    ensures Unmask(m, a + b) == Unmask(m, a) + Unmask(m, b)
  {
    BoundaryIsHarmless(m, a, b);
    hide *;
    HarmlessMeans(m, a + b, |a|);
    assert (a + b)[..|a|] == a && (a + b)[|a|..] == b;
  }

  lemma ItemBeforeBoundary(a: string, b: string, n: nat)
    requires a != "" && Balanced(a) && (b == "" || !IsWordChar(a[|a| - 1]) || !IsWordChar(b[0]))
    requires n == ItemLen(a + b)
    ensures n <= |a| && (n < |a| ==> a[n..] != "" && a[n..][|a| - n - 1] == a[|a| - 1])
  {
    FirstItem(a, b, n);
    var s := a + b;
    assert forall i | 0 <= i < n :: s[..n][i] == s[i];
    assert s[|a| - 1] == a[|a| - 1] && (b != "" ==> s[|a|] == b[0]);
  }

  lemma BalancedDrop(a: string, n: nat)
    requires Balanced(a) && n <= |a|
    ensures Balanced(a[n..])
  {
    forall i | 0 <= i < |a[n..]| && a[n..][i] == '[' ensures exists j | i < j < |a[n..]| :: a[n..][j] == ']' {
      var j :| n + i < j < |a| && a[j] == ']';
      assert a[n..][j - n] == ']';
    }
  }

  /** A bracket group with no bracket inside. */
  predicate SingleGroup(token: string) {
    && |token| >= 2 && token[0] == '[' && token[|token| - 1] == ']'
    && forall i | 0 < i < |token| - 1 :: !IsBracket(token[i])
  }

  lemma KnownToken(m: Mapping, t: string, original: string)
    requires m.WF() && ValidType(t) && KeyOf(t, original) in m.originalToToken
    ensures var token := m.TokenFor(t, original);
      SingleGroup(token) && token in m.tokenToOriginal && m.tokenToOriginal[token] == original
  {
    var token := m.TokenFor(t, original);
    assert m.Owns(t, original, token);
    var n :| 1 <= n <= m.Counter(t) && token == TokenOf(t, n);
    var b := BareToken(t, n);
    BareTokenShape(t, n);
    assert forall i | 0 <= i < |b| :: token[i + 1] == b[i] && IsTypeChar(b[i]);
  }

  /** A known token in front of anything is restored to its value. */
  lemma UnmaskToken(m: Mapping, t: string, original: string, rest: string)
    requires m.WF() && ValidType(t) && KeyOf(t, original) in m.originalToToken
    ensures var token := m.TokenFor(t, original);
      SingleGroup(token) && Unmask(m, token + rest) == original + Unmask(m, rest)
  {
    KnownToken(m, t, original);
    TokenItem(m, m.TokenFor(t, original), rest);
  }

  lemma TokenItem(m: Mapping, token: string, rest: string)
    requires |token| >= 2 && token[0] == '[' && token[|token| - 1] == ']' && token in m.tokenToOriginal
    requires forall i | 0 <= i < |token| - 1 :: token[i] != ']'
    ensures Unmask(m, token + rest) == m.tokenToOriginal[token] + Unmask(m, rest)
  {
    var s := token + rest;
    FindUnique(s, ']', |token| - 1);
    assert s[..|token|] == token && s[|token|..] == rest;
    UnmaskGroup(m, s, |token|);
  }

  // ---------- A part that leaves a bracket open ----------

  /** The first bracket that stays open. */
  lemma FirstOpen(gap: string) returns (p: nat)
    requires !Balanced(gap)
    ensures p < |gap| && gap[p] == '[' && Balanced(gap[..p]) && forall j | p < j < |gap| :: gap[j] != ']'
    decreases |gap|
  {
    p :| p < |gap| && gap[p] == '[' && forall j | p < j < |gap| :: gap[j] != ']';
    if !Balanced(gap[..p]) {
      var q := p;
      p := FirstOpen(gap[..q]);
      assert gap[..q][p] == gap[p] && gap[..q][..p] == gap[..p];
      assert forall j | p < j < q :: gap[..q][j] == gap[j];
    }
  }

  lemma OpenGroup(m: Mapping, open: string, token: string, rest: string)
    requires m.WF() && open != "" && open[0] == '[' && (forall j | 0 <= j < |open| :: open[j] != ']')
    requires SingleGroup(token)
    ensures Unmask(m, open) == open && Unmask(m, open + token + rest) == open + token + Unmask(m, rest)
  {
    FindUnique(open, ']', |open|);
    var s, n := open + token + rest, |open| + |token|;
    FindUnique(s, ']', n - 1);
    assert s[..n] == open + token && s[n..] == rest;
    assert s[..n][|open|] == token[0];
    NestedGroupCopied(m, s[..n], |open|);
    UnmaskGroup(m, s, n);
    NothingToRestore(m);
    hide RestoreGroup, Mapping.WF;
    UnmaskFirst(m, open, |open|);
  }

  /** Behind a part that leaves a bracket open a token is copied instead of restored. */
  lemma OpenGapHidesToken(m: Mapping, gap: string, token: string, rest: string)
    requires m.WF() && !Balanced(gap) && SingleGroup(token)
    ensures Unmask(m, gap + token + rest) == Unmask(m, gap) + token + Unmask(m, rest)
  {
    hide Unmask, Mapping.WF, Balanced, SingleGroup;
    var p := FirstOpen(gap);
    var a, open := gap[..p], gap[p..];
    assert open[0] == '[' && forall j | 0 <= j < |open| :: open[j] != ']';
    OpenGroup(m, open, token, rest);
    UnmaskConcat(m, a, open);
    UnmaskConcat(m, a, open + token + rest);
    assert gap == a + open && gap + token + rest == a + (open + token + rest);
  }

  /** A part that leaves a bracket open in front of a token hides it: the value does not come back. */
  lemma OpenGapIsNotRestored(m: Mapping, gap: string, t: string, original: string, rest: string)
    requires m.WF() && ValidType(t) && KeyOf(t, original) in m.originalToToken && !Balanced(gap)
    ensures Unmask(m, gap + m.TokenFor(t, original) + rest)
         == Unmask(m, gap) + m.TokenFor(t, original) + Unmask(m, rest)
  {
    KnownToken(m, t, original);
    OpenGapHidesToken(m, gap, m.TokenFor(t, original), rest);
  }

  // ---------- What a masked text is restored to ----------

  /** The text with each part outside the spans restored on its own, and with the token instead of the value behind
      a part that leaves a bracket open. */
  function Restored(m: Mapping, text: string, spans: seq<PIIEntity>, cursor: nat): string
    requires SpansOk(spans, |text|, cursor)
    decreases |spans|
  {
    if spans == [] then Unmask(m, text[cursor..])
    else
      var e := spans[0];
      var gap, value := text[cursor..e.start], text[e.start..e.end];
      Unmask(m, gap) + (if Balanced(gap) then value else m.TokenFor(e.entityType, value))
      + Restored(m, text, spans[1..], e.end)
  }

  /** What a masked text is restored to, for every text and all spans. */
  lemma {:induction false} MaskedIsRestored(m: Mapping, text: string, spans: seq<PIIEntity>, cursor: nat)
    requires m.WF() && SpansOk(spans, |text|, cursor) && AllKnown(m, text, spans)
    ensures Unmask(m, Render(m, text, spans, cursor)) == Restored(m, text, spans, cursor)
    decreases |spans|
  {
    if spans != [] {
      var e := spans[0];
      assert e in spans && AllKnown(m, text, spans[1..]);
      MaskedIsRestored(m, text, spans[1..], e.end);
      var gap, value, rest := text[cursor..e.start], text[e.start..e.end], Render(m, text, spans[1..], e.end);
      UnmaskToken(m, e.entityType, value, rest);
      hide Unmask, Mapping.WF, Mapping.TokenFor, KeyOf, ValidType, Balanced, SingleGroup;
      if Balanced(gap) {
        RestoredStep(m, gap, m.TokenFor(e.entityType, value), value, rest);
      } else {
        OpenGapIsNotRestored(m, gap, e.entityType, value, rest);
      }
    }
  }

  lemma RestoredStep(m: Mapping, gap: string, token: string, value: string, rest: string)
    requires Balanced(gap) && SingleGroup(token)
    requires Unmask(m, token + rest) == value + Unmask(m, rest)
    ensures Unmask(m, gap + token + rest) == Unmask(m, gap) + value + Unmask(m, rest)
  {
    hide Unmask, Balanced;
    assert (token + rest)[0] == '[';
    UnmaskConcat(m, gap, token + rest);
    Assoc(gap, token, rest);
    Assoc(Unmask(m, gap), value, Unmask(m, rest));
  }

  lemma {:induction false} GapsOkRestored(m: Mapping, text: string, spans: seq<PIIEntity>, cursor: nat)
    requires SpansOk(spans, |text|, cursor) && GapsOk(m, text, spans, cursor)
    ensures Restored(m, text, spans, cursor) == text[cursor..]
    decreases |spans|
  {
    hide Unmask, Balanced;
    if spans != [] {
      GapsOkRestored(m, text, spans[1..], spans[0].end);
      Slices(text, cursor, spans[0].start, spans[0].end);
    }
  }

  /** A masked text comes back exactly when its parts, restored on their own, make up the text; they do when each
      closes its brackets and restores to itself. */
  lemma RoundTrip(m: Mapping, text: string, spans: seq<PIIEntity>, cursor: nat)
    requires m.WF() && SpansOk(spans, |text|, cursor) && AllKnown(m, text, spans)
    ensures Unmask(m, Render(m, text, spans, cursor)) == text[cursor..] <==>
      Restored(m, text, spans, cursor) == text[cursor..]
    ensures GapsOk(m, text, spans, cursor) ==> Unmask(m, Render(m, text, spans, cursor)) == text[cursor..]
  {
    if GapsOk(m, text, spans, cursor) { GapsOkRestored(m, text, spans, cursor); }
    MaskedIsRestored(m, text, spans, cursor);
  }

  // ---------- When the parts hold no placeholders ----------

  /** Every part outside the spans restores to itself. */
  predicate GapsStay(m: Mapping, text: string, spans: seq<PIIEntity>, cursor: nat)
    requires SpansOk(spans, |text|, cursor)
    decreases |spans|
  {
    if spans == [] then Unmask(m, text[cursor..]) == text[cursor..]
    else
      var gap := text[cursor..spans[0].start];
      Unmask(m, gap) == gap && GapsStay(m, text, spans[1..], spans[0].end)
  }

  /** Every part in front of a span closes its brackets. */
  predicate GapsBalanced(text: string, spans: seq<PIIEntity>, cursor: nat)
    requires SpansOk(spans, |text|, cursor)
    decreases |spans|
  {
    spans == [] || (Balanced(text[cursor..spans[0].start]) && GapsBalanced(text, spans[1..], spans[0].end))
  }

  /** No masked value has a closing bracket. */
  predicate ValuesOpen(text: string, spans: seq<PIIEntity>) {
    forall e | e in spans :: InText(e, |text|) && ']' !in text[e.start..e.end]
  }

  /** Each hidden token adds a closing bracket that the text does not have. */
  lemma {:induction false} ClosersCount(m: Mapping, text: string, spans: seq<PIIEntity>, cursor: nat)
    requires m.WF() && SpansOk(spans, |text|, cursor) && AllKnown(m, text, spans)
    requires GapsStay(m, text, spans, cursor) && ValuesOpen(text, spans)
    ensures var had, has := multiset(text[cursor..])[']'], multiset(Restored(m, text, spans, cursor))[']'];
      if GapsBalanced(text, spans, cursor) then Restored(m, text, spans, cursor) == text[cursor..] else has > had
    ensures multiset(Restored(m, text, spans, cursor))[']'] >= multiset(text[cursor..])[']']
    decreases |spans|
  {
    if spans != [] {
      var e := spans[0];
      var gap, value, rest := text[cursor..e.start], text[e.start..e.end], Restored(m, text, spans[1..], e.end);
      assert e in spans && AllKnown(m, text, spans[1..]);
      ClosersCount(m, text, spans[1..], e.end);
      KnownToken(m, e.entityType, value);
      var token := m.TokenFor(e.entityType, value);
      assert token[|token| - 1] in token;
      hide Unmask, Mapping.WF, Mapping.TokenFor, KeyOf, ValidType, Balanced, SingleGroup, SpansOk, AllKnown;
      Slices(text, cursor, e.start, e.end);
      assert multiset(text[cursor..]) == multiset(gap) + multiset(value) + multiset(text[e.end..]) by {
        assert text[cursor..] == gap + value + text[e.end..];
      }
    }
  }

  /** When nothing outside the spans looks like a placeholder, the masked text comes back exactly when every part in
      front of a span closes its brackets. */
  lemma OpenBracketsLoseValues(m: Mapping, text: string, spans: seq<PIIEntity>, cursor: nat)
    requires m.WF() && SpansOk(spans, |text|, cursor) && AllKnown(m, text, spans)
    requires GapsStay(m, text, spans, cursor) && ValuesOpen(text, spans)
    ensures Unmask(m, Render(m, text, spans, cursor)) == text[cursor..] <==> GapsBalanced(text, spans, cursor)
  {
    ClosersCount(m, text, spans, cursor);
    MaskedIsRestored(m, text, spans, cursor);
  }

  lemma Slices(text: string, i: nat, j: nat, k: nat)
    requires i <= j <= k <= |text|
    ensures text[i..j] + text[j..k] + text[k..] == text[i..]
  {
  }

  // ---------- ApplyMask ----------

  function Asks(text: string, spans: seq<PIIEntity>): seq<Ask>
    requires forall e | e in spans :: InText(e, |text|)
  {
    if spans == [] then []
    else
      var e := spans[0];
      assert InText(e, |text|);
      [Ask(e.entityType, text[e.start..e.end])] + Asks(text, spans[1..])
  }

  /** The mapping after a text's spans have asked for their tokens in order. */
  function MapSpans(m: Mapping, text: string, spans: seq<PIIEntity>): Mapping
    requires forall e | e in spans :: InText(e, |text|)
  {
    AssignAll(m, Asks(text, spans))
  }

  predicate ValidTypes(entities: seq<PIIEntity>) { forall e | e in entities :: ValidType(e.entityType) }

  lemma MapSpansStep(m: Mapping, text: string, spans: seq<PIIEntity>)
    requires spans != [] && InText(spans[0], |text|) && forall e | e in spans :: InText(e, |text|)
    ensures MapSpans(m, text, spans)
         == MapSpans(m.Assign(spans[0].entityType, text[spans[0].start..spans[0].end]), text, spans[1..])
  {
    assert Asks(text, spans)[1..] == Asks(text, spans[1..]);
  }

  lemma MapSpansKeepsWF(m: Mapping, text: string, spans: seq<PIIEntity>)
    requires m.WF() && ValidTypes(spans) && forall e | e in spans :: InText(e, |text|)
    ensures MapSpans(m, text, spans).WF() && Extends(m, MapSpans(m, text, spans))
  {
    AsksValid(text, spans);
    AssignAllKeepsWF(m, Asks(text, spans));
  }

  lemma {:induction false} AsksValid(text: string, spans: seq<PIIEntity>)
    requires ValidTypes(spans) && forall e | e in spans :: InText(e, |text|)
    ensures forall i | 0 <= i < |Asks(text, spans)| :: ValidType(Asks(text, spans)[i].entityType)
  {
    if spans != [] {
      assert spans[0] in spans;
      AsksValid(text, spans[1..]);
    }
  }

  /** What has been written stays right while the remaining spans ask for their tokens. */
  ghost predicate MaskedSoFar(m: Mapping, m1: Mapping, text: string, kept: seq<PIIEntity>, i: nat, cursor: nat,
        out: string)
  {
    && i <= |kept| && SpansOk(kept[i..], |text|, cursor) && SpansOk(kept, |text|, 0)
    && (forall e | e in kept :: InText(e, |text|))
    && m1.WF() && MapSpans(m1, text, kept[i..]) == m
    && AllKnown(m1, text, kept[..i])
    && out + Render(m, text, kept[i..], cursor) == Render(m, text, kept, 0)
  }

  lemma MaskedStep(m: Mapping, m1: Mapping, text: string, kept: seq<PIIEntity>, i: nat, cursor: nat, out: string)
    requires MaskedSoFar(m, m1, text, kept, i, cursor, out) && i < |kept| && ValidTypes(kept) && cursor <= kept[i].start
    ensures var e := kept[i]; var value := text[e.start..e.end];
      MaskedSoFar(m, m1.Assign(e.entityType, value), text, kept, i + 1, e.end,
                  out + text[cursor..e.start] + m1.TokenFor(e.entityType, value))
  {
    var e := kept[i];
    var value := text[e.start..e.end];
    var m2 := m1.Assign(e.entityType, value);
    assert kept[i..][0] == e && kept[i..][1..] == kept[i + 1..] && e in kept;
    MapSpansStep(m1, text, kept[i..]);
    AssignKeepsWF(m1, e.entityType, value);
    MapSpansKeepsWF(m2, text, kept[i + 1..]);
    TokenStays(m1, m2, m, e.entityType, value);
    KnownStep(m1, m2, text, kept, i);
    RenderStep(m, text, kept, i, cursor, out);
  }

  lemma TokenStays(m1: Mapping, m2: Mapping, m: Mapping, t: string, value: string)
    requires KeyOf(t, value) in m2.originalToToken && m2.TokenFor(t, value) == m1.TokenFor(t, value) && Extends(m2, m)
    ensures m.TokenFor(t, value) == m1.TokenFor(t, value)
  {
  }

  lemma KnownStep(m1: Mapping, m2: Mapping, text: string, kept: seq<PIIEntity>, i: nat)
    requires i < |kept| && AllKnown(m1, text, kept[..i]) && Extends(m1, m2)
    requires InText(kept[i], |text|) && ValidType(kept[i].entityType)
    requires KeyOf(kept[i].entityType, text[kept[i].start..kept[i].end]) in m2.originalToToken
    ensures AllKnown(m2, text, kept[..i + 1])
  {
    assert kept[..i + 1] == kept[..i] + [kept[i]];
  }

  lemma RenderStep(m: Mapping, text: string, kept: seq<PIIEntity>, i: nat, cursor: nat, out: string)
    requires i < |kept| && SpansOk(kept[i..], |text|, cursor) && SpansOk(kept, |text|, 0)
    requires out + Render(m, text, kept[i..], cursor) == Render(m, text, kept, 0)
    ensures SpansOk(kept[i + 1..], |text|, kept[i].end)
    ensures var e := kept[i];
      out + text[cursor..e.start] + m.TokenFor(e.entityType, text[e.start..e.end])
        + Render(m, text, kept[i + 1..], e.end)
        == Render(m, text, kept, 0)
  {
    var e := kept[i];
    assert kept[i..][1..] == kept[i + 1..];
    var gap, token, rest := text[cursor..e.start], m.TokenFor(e.entityType, text[e.start..e.end]),
      Render(m, text, kept[i + 1..], e.end);
    assert Render(m, text, kept[i..], cursor) == gap + token + rest;
    hide *;
    Assoc(out, gap, token);
    Assoc(out, gap + token, rest);
  }

  /** Sorting and filtering leave exactly the kept spans. */
  method KeepSpans(text: string, entities: seq<PIIEntity>) returns (kept: seq<PIIEntity>)
    ensures kept == KeptSpans(text, entities)
  {
    var sorted := SortSpans(entities);
    kept := [];
    var lastEnd := -1;
    for i := 0 to |sorted|
      invariant kept + Keep(sorted[i..], |text|, lastEnd) == Keep(sorted, |text|, -1)
    {
      var e := sorted[i];
      assert sorted[i..][0] == e && sorted[i..][1..] == sorted[i + 1..];
      if e.start < 0 || e.end > |text| || e.end <= e.start {
        continue;
      }
      if e.start < lastEnd {
        continue;
      }
      kept := kept + [e];
      lastEnd := e.end;
    }
  }

  /** The mapping and the text after masking from `cursor` on, span by span. */
  function Masked(m: Mapping, text: string, spans: seq<PIIEntity>, cursor: nat): (Mapping, string)
    requires SpansOk(spans, |text|, cursor)
    decreases |spans|
  {
    if spans == [] then (m, text[cursor..])
    else
      var e := spans[0];
      var value := text[e.start..e.end];
      var (m', rest) := Masked(m.Assign(e.entityType, value), text, spans[1..], e.end);
      (m', text[cursor..e.start] + m.TokenFor(e.entityType, value) + rest)
  }

  /** The spans before `i` are masked. */
  ghost predicate MaskedUpTo(m0: Mapping, m1: Mapping, text: string, kept: seq<PIIEntity>, i: nat, cursor: nat,
        out: string)
  {
    && i <= |kept| && SpansOk(kept, |text|, 0) && SpansOk(kept[i..], |text|, cursor)
    && Masked(m0, text, kept, 0) == (Masked(m1, text, kept[i..], cursor).0, out + Masked(m1, text, kept[i..], cursor).1)
  }

  lemma MaskNext(m0: Mapping, m1: Mapping, text: string, kept: seq<PIIEntity>, i: nat, cursor: nat, out: string)
    requires MaskedUpTo(m0, m1, text, kept, i, cursor, out) && i < |kept|
    ensures var e := kept[i];
      cursor <= e.start < e.end <= |text|
      && var value := text[e.start..e.end];
         MaskedUpTo(m0, m1.Assign(e.entityType, value), text, kept, i + 1, e.end,
                    out + text[cursor..e.start] + m1.TokenFor(e.entityType, value))
  {
    hide Mapping.Assign, Mapping.TokenFor;
    var e := kept[i];
    assert kept[i..][0] == e && kept[i..][1..] == kept[i + 1..];
    var value := text[e.start..e.end];
    var token, rest := m1.TokenFor(e.entityType, value),
      Masked(m1.Assign(e.entityType, value), text, kept[i + 1..], e.end).1;
    Assoc(out, text[cursor..e.start] + token, rest);
    Assoc(out, text[cursor..e.start], token);
  }

  lemma MaskFirst(m: Mapping, text: string, kept: seq<PIIEntity>)
    requires SpansOk(kept, |text|, 0)
    ensures MaskedUpTo(m, m, text, kept, 0, 0, "")
    ensures kept == [] ==> Masked(m, text, kept, 0) == (m, text)
  {
    hide Mapping.Assign, Mapping.TokenFor;
    var r := Masked(m, text, kept, 0);
    assert kept[0..] == kept && text[0..] == text;
    assert "" + r.1 == r.1;
    assert (r.0, "" + r.1) == (r.0, r.1) == r;
  }

  lemma MaskLast(m0: Mapping, m1: Mapping, text: string, kept: seq<PIIEntity>, cursor: nat, out: string)
    requires MaskedUpTo(m0, m1, text, kept, |kept|, cursor, out)
    ensures cursor <= |text| && Masked(m0, text, kept, 0) == (m1, out + text[cursor..])
  {
    assert kept[|kept|..] == [];
  }

  lemma {:induction false} MaskedRest(m: Mapping, m1: Mapping, text: string, kept: seq<PIIEntity>, i: nat,
        cursor: nat, out: string)
    requires MaskedSoFar(m, m1, text, kept, i, cursor, out) && ValidTypes(kept)
    ensures SpansOk(kept[i..], |text|, cursor)
    ensures Masked(m1, text, kept[i..], cursor).0 == m && m.WF() && AllKnown(m, text, kept)
    ensures out + Masked(m1, text, kept[i..], cursor).1 == Render(m, text, kept, 0)
    decreases |kept| - i
  {
    hide Mapping.WF, Mapping.Assign, Mapping.TokenFor, Render, AllKnown, MapSpans;
    if i == |kept| {
      assert kept[i..] == [];
      MaskedLast(m, m1, text, kept, cursor, out);
    } else {
      SpanAhead(m, m1, text, kept, i, cursor, out);
      MaskedStep(m, m1, text, kept, i, cursor, out);
      var e := kept[i];
      var value := text[e.start..e.end];
      assert kept[i..][0] == e && kept[i..][1..] == kept[i + 1..];
      var token, m2 := m1.TokenFor(e.entityType, value), m1.Assign(e.entityType, value);
      MaskedRest(m, m2, text, kept, i + 1, e.end, out + text[cursor..e.start] + token);
      var rest := Masked(m2, text, kept[i + 1..], e.end).1;
      Assoc(out, text[cursor..e.start] + token, rest);
      Assoc(out, text[cursor..e.start], token);
    }
  }

  /** The masked text shows, for every span, the token its value owns afterwards, and everything else as it was. */
  lemma MaskedShowsTokens(m: Mapping, text: string, kept: seq<PIIEntity>)
    requires m.WF() && SpansOk(kept, |text|, 0) && ValidTypes(kept) && forall e | e in kept :: InText(e, |text|)
    ensures var (m', masked) := Masked(m, text, kept, 0);
      && m'.WF() && Extends(m, m') && m' == MapSpans(m, text, kept)
      && AllKnown(m', text, kept) && masked == Render(m', text, kept, 0)
  {
    MaskedFirst(m, text, kept);
    hide *;
    MaskedRest(MapSpans(m, text, kept), m, text, kept, 0, 0, "");
    assert kept[0..] == kept && "" + Masked(m, text, kept, 0).1 == Masked(m, text, kept, 0).1;
  }

  /** Masks the kept spans. With entity types over the documented alphabet every span shows the token its value owns. */
  method ApplyMask(text: string, entities: seq<PIIEntity>, mapping: PIIMapping?) returns (masked: string)
    modifies mapping
    ensures SpansOk(KeptSpans(text, entities), |text|, 0)
      && (forall e | e in KeptSpans(text, entities) :: InText(e, |text|))
    ensures mapping == null ==> masked == text
    ensures mapping != null ==>
      (mapping.View(), masked) == Masked(old(mapping.View()), text, KeptSpans(text, entities), 0)
    ensures mapping != null && old(mapping.View()).WF() && ValidTypes(entities) ==>
      && mapping.View().WF() && Extends(old(mapping.View()), mapping.View())
      && mapping.View() == MapSpans(old(mapping.View()), text, KeptSpans(text, entities))
      && AllKnown(mapping.View(), text, KeptSpans(text, entities))
      && masked == Render(mapping.View(), text, KeptSpans(text, entities), 0)
  {
    hide *;
    KeptSpansOk(text, entities);
    if mapping == null {
      return text;
    }
    ghost var m0, kept0 := mapping.View(), KeptSpans(text, entities);
    MaskFirst(m0, text, kept0);
    if ValidTypes(entities) { KeptTypes(text, entities); }
    if m0.WF() && ValidTypes(entities) { MaskedShowsTokens(m0, text, kept0); }
    if |entities| == 0 || text == "" {
      NothingKept(text, entities);
      return text;
    }
    var kept := KeepSpans(text, entities);
    if |kept| == 0 {
      return text;
    }
    masked := "";
    var cursor: nat := 0;
    for i := 0 to |kept|
      invariant MaskedUpTo(m0, mapping.View(), text, kept, i, cursor, masked)
    {
      var e := kept[i];
      MaskNext(m0, mapping.View(), text, kept, i, cursor, masked);
      var token := mapping.Token(e.entityType, text[e.start..e.end]);
      masked := masked + text[cursor..e.start] + token;
      cursor := e.end;
    }
    MaskLast(m0, mapping.View(), text, kept, cursor, masked);
    masked := masked + text[cursor..];
  }

  lemma SpanAhead(m: Mapping, m1: Mapping, text: string, kept: seq<PIIEntity>, i: nat, cursor: nat, out: string)
    requires MaskedSoFar(m, m1, text, kept, i, cursor, out) && i < |kept|
    ensures cursor <= kept[i].start < kept[i].end <= |text|
  {
    hide MapSpans, Render, AllKnown, Mapping.WF;
  }

  lemma KeptTypes(text: string, entities: seq<PIIEntity>)
    requires ValidTypes(entities)
    ensures ValidTypes(KeptSpans(text, entities))
  {
    hide KeptSpans, SpansOk, ValidType;
    KeptSpansOk(text, entities);
  }

  lemma MaskedFirst(m: Mapping, text: string, kept: seq<PIIEntity>)
    requires m.WF() && SpansOk(kept, |text|, 0) && ValidTypes(kept) && forall e | e in kept :: InText(e, |text|)
    ensures MaskedSoFar(MapSpans(m, text, kept), m, text, kept, 0, 0, "")
    ensures Extends(m, MapSpans(m, text, kept))
  {
    hide MapSpans, Render, SpansOk, Mapping.WF, Extends;
    assert kept[0..] == kept && kept[..0] == [];
    MapSpansKeepsWF(m, text, kept);
  }

  lemma MaskedLast(m: Mapping, m1: Mapping, text: string, kept: seq<PIIEntity>, cursor: nat, out: string)
    requires MaskedSoFar(m, m1, text, kept, |kept|, cursor, out)
    ensures cursor <= |text| && m1 == m && m.WF() && AllKnown(m, text, kept)
    ensures out + text[cursor..] == Render(m, text, kept, 0)
  {
    hide AllKnown, Mapping.WF;
    assert kept[|kept|..] == [] && kept[..|kept|] == kept;
  }

  lemma NothingKept(text: string, entities: seq<PIIEntity>)
    requires |entities| == 0 || text == ""
    ensures KeptSpans(text, entities) == []
  {
    KeptSpansOk(text, entities);
    assert forall e :: e !in KeptSpans(text, entities);
  }
}
