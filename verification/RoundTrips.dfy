/** Masked texts that come back in a stream, and a condition on texts that needs no restoring to check
    (apps/gateway/internal/application/services/pii.go, feedPIIStreamBuffer; pkg/domain/pii.go, ApplyMask). */
module RoundTrips {
  import opened Text
  import opened Mappings
  import opened Unmasking
  import opened PIIStream
  import opened PIIStreamExact
  import opened Masking
  import opened PlainGaps
  import opened PIIMasker
  import opened BareSpelling

  // ---------- A condition on brackets and aliases alone ----------

  /** No bracket opens inside a bracket group, and a word run that is no alias does not end in one. */
  predicate SimpleItem(m: Mapping, item: string) {
    if IsGroupStart(item) then forall p | 0 < p < |item| :: item[p] != '['
    else if item != "" && IsWordChar(item[0]) then
      IsBareAlias(m, item) || forall k | 0 < k < |item| :: !IsBareAlias(m, item[k..])
    else true
  }

  predicate Simple(m: Mapping, s: string) {
    s == "" || (SimpleItem(m, s[..ItemLen(s)]) && Simple(m, s[ItemLen(s)..]))
  }

  lemma FoldFront(a: string, b: string, k: nat)
    requires EqualFold(a, b) && k <= |b|
    ensures |a| == |b| && EqualFold(a[..k], b[..k])
  {
    assert |Fold(a)| == |Fold(b)|;
    FoldPrefix(a, k);
    FoldPrefix(b, k);
  }

  /** Every front of an alias may still become one. */
  lemma AliasFrontsLive(m: Mapping, run: string, k: nat)
    requires m.WF() && run != "" && AllWord(run) && IsBareAlias(m, run) && k <= |run|
    ensures IsAliasPrefix(m, run[..k])
  {
    RunRestoredIff(m, run);
    hide Mapping.WF, IsBare, EqualFold, IsBareAlias;
    var a :| IsBare(m, a) && EqualFold(a, run);
    FoldFront(a, run, k);
    assert StartsAlias(a, run[..k]);
  }

  lemma SimpleRunOk(m: Mapping, run: string)
    requires m.WF() && run != "" && AllWord(run)
    requires IsBareAlias(m, run) || forall k | 0 < k < |run| :: !IsBareAlias(m, run[k..])
    ensures RunOk(m, run)
  {
    hide Mapping.WF, IsAliasPrefix, IsBareAlias;
    forall k | 0 < k < |run| && !IsAliasPrefix(m, run[..k]) ensures RestoreRun(m, run[k..]) == run[k..] {
      if IsBareAlias(m, run) { AliasFrontsLive(m, run, k); }
    }
  }

  lemma RunItemIsWord(s: string)
    requires s != "" && IsWordChar(s[0])
    ensures var item := s[..ItemLen(s)]; item != "" && item[0] == s[0] && AllWord(item) && !IsGroupStart(item)
  {
    RunLength(s);
  }

  lemma SimpleItemOk(m: Mapping, s: string)
    requires m.WF() && s != "" && SimpleItem(m, s[..ItemLen(s)])
    ensures ItemOk(m, s[..ItemLen(s)])
  {
    var item := s[..ItemLen(s)];
    assert item[0] == s[0];
    hide Mapping.WF, IsBareAlias, RestoreGroup, RestoreRun, IsAliasPrefix, ItemLen, Find;
    if IsGroupStart(item) {
      assert GroupOk(m, item);
    } else if IsWordChar(item[0]) {
      RunItemIsWord(s);
      SimpleRunOk(m, item);
    }
  }

  lemma {:induction false} SimpleIsFaithful(m: Mapping, s: string)
    requires m.WF() && Simple(m, s)
    ensures Faithful(m, s)
    decreases |s|
  {
    hide ItemOk, SimpleItem, ItemLen, Mapping.WF;
    if s != "" {
      SimpleItemOk(m, s);
      SimpleIsFaithful(m, s[ItemLen(s)..]);
    }
  }

  /** Texts whose brackets do not nest and whose word runs do not end in an alias are restored alike in every chunking.
      */
  lemma SimpleTextsStream(m: Mapping, chunks: seq<string>)
    requires m.WF() && Simple(m, Flatten(chunks))
    ensures Stream(m, "", chunks) == Unmask(m, Flatten(chunks))
  {
    SimpleIsFaithful(m, Flatten(chunks));
    hide *;
    assert "" + Flatten(chunks) == Flatten(chunks);
    StreamRefinesUnmask(m, "", chunks);
  }

  // ---------- Text without opening brackets ----------

  predicate NoOpen(s: string) { forall i | 0 <= i < |s| :: s[i] != '[' }

  /** Every maximal word run can be cut where the stream may cut it. */
  ghost predicate RunsOk(m: Mapping, s: string) { forall i: nat, j: nat | RunAt(s, i, j) :: RunOk(m, s[i..j]) }

  lemma FirstRunIsItem(s: string, i: nat, j: nat)
    requires s != "" && NoOpen(s) && RunAt(s, i, j) && i < ItemLen(s)
    ensures i == 0 && j == ItemLen(s) && IsWordChar(s[0])
  {
    var n := ItemLen(s);
    assert s[i..j][0] == s[i] && forall k | 0 <= k < n :: s[..n][k] == s[k];
    if IsWordChar(s[0]) {
      RunLength(s);
      assert s[i..j] == s[..j];
      RunLenUnique(s, j);
    }
  }

  lemma ItemIsRun(s: string)
    requires s != "" && NoOpen(s) && IsWordChar(s[0])
    ensures RunAt(s, 0, ItemLen(s)) && s[0..ItemLen(s)] == s[..ItemLen(s)] && !IsGroupStart(s[..ItemLen(s)])
  {
    RunLength(s);
  }

  lemma RunBehindItem(s: string, i: nat, j: nat)
    requires s != "" && NoOpen(s) && RunAt(s, i, j) && i >= ItemLen(s)
    ensures var n := ItemLen(s); RunAt(s[n..], i - n, j - n) && s[n..][i - n..j - n] == s[i..j]
  {
    var n := ItemLen(s);
    assert s[n..][i - n..j - n] == s[i..j];
    assert i > n ==> s[n..][i - n - 1] == s[i - 1];
    assert j < |s| ==> s[n..][j - n] == s[j];
  }

  lemma RunsOkCons(m: Mapping, s: string)
    requires s != "" && NoOpen(s)
    ensures var n := ItemLen(s); NoOpen(s[n..]) && (RunsOk(m, s) <==> ItemOk(m, s[..n]) && RunsOk(m, s[n..]))
  {
    var n := ItemLen(s);
    assert s[..n][0] == s[0];
    assert !IsGroupStart(s[..n]);
    if IsWordChar(s[0]) { ItemIsRun(s); }
    hide RunOk, RunAt, ItemLen, IsWordChar, IsGroupStart;
    if RunsOk(m, s) {
      forall i: nat, j: nat | RunAt(s[n..], i, j) ensures RunOk(m, s[n..][i..j]) { RunInRest(s, n, i, j); }
    }
    if ItemOk(m, s[..n]) && RunsOk(m, s[n..]) {
      forall i: nat, j: nat | RunAt(s, i, j) ensures RunOk(m, s[i..j]) {
        if i < n { FirstRunIsItem(s, i, j); } else { RunBehindItem(s, i, j); }
      }
    }
  }

  lemma {:induction false} FaithfulGap(m: Mapping, gap: string)
    requires NoOpen(gap)
    ensures Faithful(m, gap) <==> RunsOk(m, gap)
    decreases |gap|
  {
    if gap != "" {
      RunsOkCons(m, gap);
      FaithfulGap(m, gap[ItemLen(gap)..]);
      hide ItemOk, RunsOk, ItemLen, NoOpen;
    }
  }

  // ---------- Masked texts ----------

  lemma FaithfulCons(m: Mapping, s: string)
    ensures s == "" ==> Faithful(m, s)
    ensures s != "" ==> (Faithful(m, s) <==> ItemOk(m, s[..ItemLen(s)]) && Faithful(m, s[ItemLen(s)..]))
  {
    hide ItemOk, ItemLen;
  }

  /** The first item of two texts that meet at a boundary is the first item of the first. */
  lemma ItemOfFirst(m: Mapping, a: string, b: string)
    requires a != "" && Balanced(a) && (b == "" || !IsWordChar(a[|a| - 1]) || !IsWordChar(b[0]))
    ensures var n := ItemLen(a);
      && n == ItemLen(a + b) && (a + b)[..n] == a[..n] && (a + b)[n..] == a[n..] + b && Balanced(a[n..])
      && (n < |a| ==> a[n..][|a[n..]| - 1] == a[|a| - 1])
  {
    hide *;
    var n := ItemLen(a + b);
    ItemBeforeBoundary(a, b, n);
    FrontOf(a, b, n);
    CutBehindItem(m, a + b, |a|, n);
    BalancedDrop(a, n);
  }

  lemma FrontOf(a: string, b: string, n: nat)
    requires n <= |a|
    ensures (a + b)[..|a|] == a && (a + b)[..n] == a[..n] && (a + b)[n..] == a[n..] + b
  {
  }

  /** Texts that meet at a boundary can be cut like each on its own. */
  lemma {:induction false} FaithfulConcat(m: Mapping, a: string, b: string)
    requires Balanced(a) && (a == "" || b == "" || !IsWordChar(a[|a| - 1]) || !IsWordChar(b[0]))
    ensures Faithful(m, a + b) <==> Faithful(m, a) && Faithful(m, b)
    decreases |a|
  {
    hide *;
    FaithfulCons(m, a);
    FaithfulCons(m, a + b);
    if a == "" {
      assert a + b == b;
    } else {
      ItemOfFirst(m, a, b);
      FaithfulConcat(m, a[ItemLen(a)..], b);
    }
  }

  lemma FaithfulToken(m: Mapping, t: string, original: string, rest: string)
    requires m.WF() && ValidType(t) && KeyOf(t, original) in m.originalToToken
    ensures Faithful(m, m.TokenFor(t, original) + rest) <==> Faithful(m, rest)
  {
    var token := m.TokenFor(t, original);
    var s := token + rest;
    assert m.Owns(t, original, token);
    var n :| 1 <= n <= m.Counter(t) && token == TokenOf(t, n);
    TokenIsGroup(t, n);
    hide Mapping.WF, TokenOf, RestoreGroup, ValidType, KeyOf, RunOk;
    FindUnique(s, ']', |token| - 1);
    assert s[..|token|] == token && s[|token|..] == rest && ItemLen(s) == |token|;
  }

  lemma TokenIsGroup(t: string, n: nat)
    requires ValidType(t)
    ensures var token := TokenOf(t, n);
      && |token| > 2 && token[0] == '[' && token[|token| - 1] == ']' && IsGroupStart(token)
      && forall i | 0 < i < |token| - 1 :: token[i] != '[' && token[i] != ']'
  {
    BareTokenShape(t, n);
    var token, bare := TokenOf(t, n), BareToken(t, n);
    assert forall i | 0 <= i < |bare| :: token[i + 1] == bare[i] && IsTypeChar(bare[i]);
    FindUnique(token, ']', |token| - 1);
  }

  /** Everything outside the spans can be cut where the stream may cut it. */
  ghost predicate GapRunsOk(m: Mapping, text: string, spans: seq<PIIEntity>, cursor: nat)
    requires SpansOk(spans, |text|, cursor)
    decreases |spans|
  {
    if spans == [] then RunsOk(m, text[cursor..])
    else RunsOk(m, text[cursor..spans[0].start]) && GapRunsOk(m, text, spans[1..], spans[0].end)
  }

  lemma GapIsFaithful(m: Mapping, gap: string, token: string, rest: string)
    requires Plain(m, gap) && token != "" && token[0] == '['
    ensures Faithful(m, gap + token + rest) <==> RunsOk(m, gap) && Faithful(m, token + rest)
  {
    assert NoOpen(gap) && Balanced(gap);
    assert (token + rest)[0] == '[';
    CloseIsNoWord();
    hide Plain, NoOpen, Balanced, IsWordChar, Faithful, RunsOk;
    FaithfulConcat(m, gap, token + rest);
    FaithfulGap(m, gap);
    assert gap + token + rest == gap + (token + rest);
  }

  lemma {:induction false} FaithfulRender(m: Mapping, text: string, spans: seq<PIIEntity>, cursor: nat)
    requires m.WF() && SpansOk(spans, |text|, cursor) && AllKnown(m, text, spans) && GapsPlain(m, text, spans, cursor)
    ensures Faithful(m, Render(m, text, spans, cursor)) <==> GapRunsOk(m, text, spans, cursor)
    decreases |spans|
  {
    if spans == [] {
      assert NoOpen(text[cursor..]);
      FaithfulGap(m, text[cursor..]);
    } else {
      var e := spans[0];
      assert e in spans && AllKnown(m, text, spans[1..]);
      FaithfulRender(m, text, spans[1..], e.end);
      var gap, value, rest := text[cursor..e.start], text[e.start..e.end], Render(m, text, spans[1..], e.end);
      UnmaskToken(m, e.entityType, value, rest);
      hide Plain, RunsOk, Faithful, Mapping.WF, Mapping.TokenFor, Unmask, KeyOf, ValidType;
      FaithfulToken(m, e.entityType, value, rest);
      GapIsFaithful(m, gap, m.TokenFor(e.entityType, value), rest);
    }
  }

  /** A masked text whose parts outside the spans hold no placeholder comes back from a stream, however it is chunked
      and whatever was masked after it,
      exactly when the word runs of these parts can be cut where the stream may cut. */
  lemma StreamedRoundTrip(m: Mapping, m': Mapping, text: string, spans: seq<PIIEntity>, masked: string)
    requires MaskedAs(m, text, spans, masked) && Extends(m, m') && m'.WF() && GapsPlain(m', text, spans, 0)
    ensures GapRunsOk(m', text, spans, 0) <==>
      forall chunks: seq<string> | Flatten(chunks) == masked :: Stream(m', "", chunks) == text
  {
    MaskedStays(m, m', text, spans, masked);
    PlainRoundTrip(m, m', text, spans, masked);
    FaithfulRender(m', text, spans, 0);
    hide Mapping.WF, Unmask, Stream, Faithful, GapRunsOk, GapsPlain, Render, AllKnown, Extends;
    StreamExact(m', masked);
  }

  // ---------- The condition of the round trip is not needed for every text ----------

  /** Two parts that are restored wrongly around one span, and what comes of them. */
  lemma WrongGaps(m: Mapping, text: string, e: PIIEntity, left: string, right: string)
    requires m.WF() && InText(e, |text|) && AllKnown(m, text, [e]) && Balanced(text[..e.start])
    requires Unmask(m, text[..e.start]) == left && Unmask(m, text[e.end..]) == right
    ensures SpansOk([e], |text|, 0) && Unmask(m, Render(m, text, [e], 0)) == left + text[e.start..e.end] + right
    ensures left != text[..e.start] ==> !GapsOk(m, text, [e], 0)
  {
    hide Unmask, Mapping.WF, Balanced;
    assert [e][1..] == [] && text[0..e.start] == text[..e.start];
    assert Restored(m, text, [], e.end) == right;
    MaskedIsRestored(m, text, [e], 0);
  }

  lemma ThreeRequests(p: Ask, q: Ask, r: Ask)
    requires ValidAsks([p, q, r]) && p.entityType != q.entityType
    requires forall u | TypeAlias(u) == p.entityType :: u == p.entityType
    requires forall u | TypeAlias(u) == q.entityType :: u == q.entityType
    ensures var m := MappingAt([p, q, r], 3);
      && m.WF() && KeyOf(r.entityType, r.original) in m.originalToToken
      && Unmask(m, BareToken(p.entityType, 1)) == p.original && Unmask(m, BareToken(q.entityType, 1)) == q.original
  {
    var asks := [p, q, r];
    hide MappingAt, Mapping.WF, Unmask, TypeAlias, KeyOf, BareToken, ValidType;
    FinalMapping(asks);
    FirstBareRestores(asks, 0);
    FirstBareRestores(asks, 1);
    NextMapping(asks, 2);
    AssignKeepsWF(MappingAt(asks, 2), r.entityType, r.original);
  }

  /** The text in front of, between and behind. */
  lemma Around(a: string, b: string, c: string)
    ensures var text := a + b + c;
      text[..|a|] == a && text[|a|..|a| + |b|] == b && text[|a| + |b|..] == c
  {
  }

  /** Two bracketless placeholders around a masked value are restored, which is wrong for both; the text comes back
      all the same when what one part gains is what the other loses. */
  lemma WrongRestoringsCancelAround(p: Ask, q: Ask, r: Ask)
    requires ValidAsks([p, q, r]) && p.entityType != q.entityType && r.original != ""
    requires forall u | TypeAlias(u) == p.entityType :: u == p.entityType
    requires forall u | TypeAlias(u) == q.entityType :: u == q.entityType
    requires var left, right := BareToken(p.entityType, 1), BareToken(q.entityType, 1);
      p.original != left && p.original + r.original + q.original == left + r.original + right
    ensures var m, left, right := MappingAt([p, q, r], 3), BareToken(p.entityType, 1), BareToken(q.entityType, 1);
      var text, e := left + r.original + right, PIIEntity(r.entityType, |left|, |left| + |r.original|);
      && m.WF() && SpansOk([e], |text|, 0) && AllKnown(m, text, [e])
      && !GapsOk(m, text, [e], 0) && Unmask(m, Render(m, text, [e], 0)) == text
  {
    var m, left, right := MappingAt([p, q, r], 3), BareToken(p.entityType, 1), BareToken(q.entityType, 1);
    var text, e := left + r.original + right, PIIEntity(r.entityType, |left|, |left| + |r.original|);
    assert ValidType([p, q, r][0].entityType) && ValidType([p, q, r][2].entityType);
    ThreeRequests(p, q, r);
    Around(left, r.original, right);
    BareTokenShape(p.entityType, 1);
    assert Balanced(left) by { assert forall i | 0 <= i < |left| :: IsTypeChar(left[i]); }
    hide MappingAt, Mapping.WF, Unmask, Render, GapsOk, BareToken, Balanced, KeyOf, TypeAlias;
    WrongGaps(m, text, e, p.original, q.original);
  }

  lemma OneLetterTypes()
    ensures ValidType("P") && ValidType("Q") && ValidType("R")
    ensures (forall u | TypeAlias(u) == "P" :: u == "P") && forall u | TypeAlias(u) == "Q" :: u == "Q"
    ensures BareToken("P", 1) == "P_1" && BareToken("Q", 1) == "Q_1"
  {
    assert Decimal(1) == "1";
  }

  /** Only the middle Q of P_1QQ_1 is masked: both parts around it are restored to something else, and yet it comes
      back. */
  lemma WrongRestoringsCancel()
    ensures var m := MappingAt([Ask("P", "P_1Q"), Ask("Q", "_1"), Ask("R", "Q")], 3);
      var text, e := "P_1" + "Q" + "Q_1", PIIEntity("R", 3, 4);
      && m.WF() && SpansOk([e], |text|, 0) && AllKnown(m, text, [e])
      && !GapsOk(m, text, [e], 0) && Unmask(m, Render(m, text, [e], 0)) == text
  {
    OneLetterTypes();
    assert "P_1Q" + "Q" + "_1" == "P_1" + "Q" + "Q_1";
    hide *;
    WrongRestoringsCancelAround(Ask("P", "P_1Q"), Ask("Q", "_1"), Ask("R", "Q"));
  }
}
