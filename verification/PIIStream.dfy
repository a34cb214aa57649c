/** Restoring a stream of chunks (apps/gateway/internal/application/services/pii.go):
    what is held back, and exactly when the stream restores what one pass over the whole text would. */
module PIIStream {
  import opened Common
  import opened Wrappers
  import opened Text
  import opened Mappings
  import opened Unmasking

  // ---------- What is held back ----------

  /** `word` may still grow into a bare placeholder. */
  ghost predicate IsAliasPrefix(m: Mapping, word: string) {
    exists a :: IsBare(m, a) && StartsAlias(a, word)
  }

  predicate StartsAlias(alias: string, word: string) {
    |word| <= |alias| && EqualFold(alias[..|word|], word)
  }

  /** The start of the trailing word run when it may become a placeholder, or the end of the text. */
  ghost function HoldStart(m: Mapping, text: string): (k: nat)
    ensures k <= |text|
  {
    var k := TrailingRun(text);
    if k < |text| && IsAliasPrefix(m, text[k..]) then k else |text|
  }

  /** The last bracket when it is an opening one, or the end of the text. */
  function OpenStart(text: string): (k: nat)
    ensures k <= |text|
    ensures k < |text| ==> text[k] == '[' && forall i | k < i < |text| :: !IsBracket(text[i])
  {
    if text == "" then 0
    else if text[|text| - 1] == '[' then |text| - 1
    else if text[|text| - 1] == ']' then |text|
    else
      var k := OpenStart(text[..|text| - 1]);
      if k == |text| - 1 then |text| else k
  }

  ghost function Cut(m: Mapping, text: string): (c: nat)
    ensures c <= |text|
  {
    if HoldStart(m, text) < OpenStart(text) then HoldStart(m, text) else OpenStart(text)
  }

  /** The text emitted for `chunks` when `held` is already buffered, up to and including the final flush. */
  ghost function Stream(m: Mapping, held: string, chunks: seq<string>): string
    decreases |chunks|
  {
    if chunks == [] then Unmask(m, held)
    else
      var full := held + chunks[0];
      var c := Cut(m, full);
      Unmask(m, full[..c]) + Stream(m, full[c..], chunks[1..])
  }

  // ---------- When the stream agrees with one pass ----------

  /** No suffix of the group that starts at an inner bracket is restored to something else. */
  ghost predicate GroupOk(m: Mapping, group: string) {
    forall p | 0 < p < |group| && group[p] == '[' :: RestoreGroup(m, group[p..]) == group[p..]
  }

  /** No suffix of the run is restored to something else once what is before it cannot start a placeholder. */
  ghost predicate RunOk(m: Mapping, run: string) {
    forall k | 0 < k < |run| && !IsAliasPrefix(m, run[..k]) :: RestoreRun(m, run[k..]) == run[k..]
  }

  ghost predicate ItemOk(m: Mapping, item: string) {
    if IsGroupStart(item) then GroupOk(m, item)
    else if item != "" && IsWordChar(item[0]) then RunOk(m, item)
    else true
  }

  /** Every item of the text can be cut where the stream may cut it. */
  ghost predicate Faithful(m: Mapping, s: string) {
    s == "" || (ItemOk(m, s[..ItemLen(s)]) && Faithful(m, s[ItemLen(s)..]))
  }

  // ---------- Where the stream may cut ----------

  /** A cut that leaves every innermost bracket pair whole and splits a run only behind a dead prefix. */
  ghost predicate LegalCut(m: Mapping, s: string, c: nat)
    requires c <= |s|
    decreases |s|
  {
    if c == 0 then true
    else if c >= ItemLen(s) then LegalCut(m, s[ItemLen(s)..], c - ItemLen(s))
    else if s[0] == '[' then s[c] == '['
    else !IsAliasPrefix(m, s[..c])
  }

  predicate Balanced(s: string) {
    forall i | 0 <= i < |s| && s[i] == '[' :: exists j | i < j < |s| :: s[j] == ']'
  }

  /** How a cut comes about: an open bracket, or no open bracket and a held run. */
  ghost predicate CutAt(m: Mapping, full: string, c: nat) {
    && c <= |full|
    && (|| (c < |full| && full[c] == '[' && forall i | c < i < |full| :: full[i] != ']')
        || (Balanced(full) && c == HoldStart(m, full)))
  }

  lemma {:induction false} OpenStartBalanced(s: string)
    ensures OpenStart(s) == |s| <==> Balanced(s)
  {
    if s != "" {
      var t := s[..|s| - 1];
      OpenStartBalanced(t);
      assert forall i | 0 <= i < |t| :: t[i] == s[i];
      if s[|s| - 1] == '[' {
        assert !Balanced(s);
      } else if s[|s| - 1] == ']' {
        assert Balanced(s);
      } else if OpenStart(t) == |t| {
        forall i | 0 <= i < |s| && s[i] == '[' ensures exists j | i < j < |s| :: s[j] == ']' {
          assert t[i] == '[';
          var j :| i < j < |t| && t[j] == ']';
          assert s[j] == ']';
        }
      } else {
        var k := OpenStart(t);
        assert s[k] == '[' && forall j | k < j < |s| :: s[j] != ']';
      }
    }
  }

  lemma {:induction false} TrailingRunUnique(s: string, k: nat)
    requires k <= |s| && AllWord(s[k..]) && (k > 0 ==> !IsWordChar(s[k - 1]))
    ensures TrailingRun(s) == k
  {
    var t := TrailingRun(s);
    assert forall j | t <= j < |s| :: s[j] == s[t..][j - t];
    assert forall j | k <= j < |s| :: s[j] == s[k..][j - k];
  }

  lemma TrailingRunDrop(s: string, n: nat)
    requires n <= TrailingRun(s)
    ensures TrailingRun(s[n..]) == TrailingRun(s) - n
    ensures s[TrailingRun(s)..] == s[n..][TrailingRun(s) - n..]
  {
    var t := TrailingRun(s);
    assert s[n..][t - n..] == s[t..];
    TrailingRunUnique(s[n..], t - n);
  }

  lemma HoldStartDrop(m: Mapping, s: string, n: nat)
    requires n <= TrailingRun(s)
    ensures HoldStart(m, s[n..]) == HoldStart(m, s) - n
  {
    hide TrailingRun, IsAliasPrefix;
    TrailingRunDrop(s, n);
  }

  lemma TrailingRunAfter(s: string, i: nat)
    requires i < |s| && !IsWordChar(s[i])
    ensures i < TrailingRun(s)
  {
    var t := TrailingRun(s);
    assert forall j | t <= j < |s| :: s[j] == s[t..][j - t];
  }

  lemma CutIsCutAt(m: Mapping, full: string)
    ensures CutAt(m, full, Cut(m, full))
  {
    OpenStartBalanced(full);
    var o := OpenStart(full);
    if o < |full| { TrailingRunAfter(full, o); }
  }

  /** Dropping a whole first item drops it from the cut. */
  lemma CutAtDrop(m: Mapping, full: string, c: nat, n: nat)
    requires CutAt(m, full, c) && n <= c && (n < |full| ==> n <= TrailingRun(full))
    ensures CutAt(m, full[n..], c - n)
  {
    var t := full[n..];
    assert forall i | 0 <= i < |t| :: t[i] == full[n + i];
    if c < |full| && full[c] == '[' && forall i | c < i < |full| :: full[i] != ']' {
    } else {
      forall i | 0 <= i < |t| && t[i] == '[' ensures exists j | i < j < |t| :: t[j] == ']' {
        var j :| n + i < j < |full| && full[j] == ']';
        assert t[j - n] == ']';
      }
      if n < |full| { HoldStartDrop(m, full, n); }
    }
  }

  lemma FirstGroup(full: string, rest: string, n: nat)
    requires full != "" && full[0] == '[' && n == ItemLen(full + rest)
    ensures n < |full| ==> n <= TrailingRun(full)
    ensures Balanced(full) ==> n <= |full| && n <= TrailingRun(full)
    ensures forall i | 0 <= i < n - 1 :: (full + rest)[i] != ']'
  {
    hide TrailingRun, RunLen, IsWordChar;
    var s := full + rest;
    assert s[0] == full[0];
    if Balanced(full) {
      var j :| 0 < j < |full| && full[j] == ']';
      assert s[j] == ']';
    }
    if n <= |full| && s[n - 1] == ']' {
      assert full[n - 1] == ']';
      CloseIsNoWord();
      TrailingRunAfter(full, n - 1);
    }
  }

  lemma CloseIsNoWord()
    ensures !IsWordChar(']') && !IsWordChar('[')
  {
  }

  lemma FirstRun(full: string, rest: string, n: nat)
    requires full != "" && IsWordChar(full[0]) && n == ItemLen(full + rest)
    ensures n < |full| ==> n <= TrailingRun(full)
    ensures AllWord((full + rest)[..n]) && (|full| <= n ==> TrailingRun(full) == 0)
  {
    hide TrailingRun, Find;
    var s := full + rest;
    assert s[0] == full[0];
    if n < |full| {
      assert s[n] == full[n];
      TrailingRunAfter(full, n);
    } else {
      assert forall i | 0 <= i < |full| :: full[i] == s[..n][i];
      TrailingRunUnique(full, 0);
    }
  }

  lemma FirstByte(full: string, rest: string, n: nat)
    requires full != "" && full[0] != '[' && !IsWordChar(full[0]) && n == ItemLen(full + rest)
    ensures n == 1 && (n < |full| ==> n <= TrailingRun(full))
  {
    hide TrailingRun, Find, RunLen;
    assert (full + rest)[0] == full[0];
    TrailingRunAfter(full, 0);
  }

  /** The first item of a longer text, as far as it lies in `full`. */
  lemma FirstItem(full: string, rest: string, n: nat)
    requires full != "" && n == ItemLen(full + rest)
    ensures n < |full| ==> n <= TrailingRun(full)
    ensures !IsWordChar(full[0]) && full[0] != '[' ==> n == 1
    ensures IsWordChar(full[0]) ==> full[0] != '[' && AllWord((full + rest)[..n])
    ensures IsWordChar(full[0]) && |full| <= n ==> TrailingRun(full) == 0
    ensures full[0] == '[' && Balanced(full) ==> n <= |full| && n <= TrailingRun(full)
    ensures full[0] == '[' ==> forall i | 0 <= i < n - 1 :: (full + rest)[i] != ']'
  {
    hide *;
    CloseIsNoWord();
    if full[0] == '[' {
      FirstGroup(full, rest, n);
    } else if IsWordChar(full[0]) {
      FirstRun(full, rest, n);
    } else {
      FirstByte(full, rest, n);
    }
  }

  lemma LegalBehindItem(m: Mapping, s: string, c: nat, n: nat)
    requires s != "" && n == ItemLen(s) && n <= c <= |s| && LegalCut(m, s[n..], c - n)
    ensures LegalCut(m, s, c)
  {
    hide ItemLen, IsAliasPrefix;
  }

  lemma LegalInItem(m: Mapping, s: string, c: nat)
    requires s != "" && 0 < c < ItemLen(s) && (if s[0] == '[' then s[c] == '[' else !IsAliasPrefix(m, s[..c]))
    ensures LegalCut(m, s, c)
  {
    hide ItemLen, IsAliasPrefix;
  }

  /** A cut in the first item that is not at a bracket keeps a whole dead run together. */
  lemma CutInFirstItem(m: Mapping, full: string, rest: string, c: nat, n: nat)
    requires CutAt(m, full, c) && full != "" && 0 < c < n && n == ItemLen(full + rest)
      && !(c < |full| && full[c] == '[')
    ensures full[0] != '[' && !IsAliasPrefix(m, full[..c])
  {
    FirstItem(full, rest, n);
    hide ItemLen, IsAliasPrefix, TrailingRun, AllWord;
    assert full[0..] == full;
  }

  lemma {:induction false} CutAtIsLegal(m: Mapping, full: string, rest: string, c: nat)
    requires CutAt(m, full, c)
    ensures LegalCut(m, full + rest, c)
    decreases |full|
  {
    hide *;
    var s := full + rest;
    CutInText(m, full, c);
    if c == 0 {
      LegalAtStart(m, s);
    } else {
      var n := ItemLen(s);
      if c >= n {
        FirstItem(full, rest, n);
        CutAtDrop(m, full, c, n);
        DropConcat(full, rest, n);
        CutAtIsLegal(m, full[n..], rest, c - n);
        LegalBehindItem(m, s, c, n);
      } else if c < |full| && full[c] == '[' {
        OpenInItem(full, rest, c, n);
        LegalInItem(m, s, c);
      } else {
        CutInFirstItem(m, full, rest, c, n);
        DropConcat(full, rest, c);
        LegalInItem(m, s, c);
      }
    }
  }

  lemma CutInText(m: Mapping, full: string, c: nat)
    requires CutAt(m, full, c)
    ensures c <= |full|
  {
    hide Balanced, HoldStart;
  }

  lemma LegalAtStart(m: Mapping, s: string)
    ensures LegalCut(m, s, 0)
  {
  }

  lemma DropConcat(a: string, b: string, n: nat)
    requires n <= |a|
    ensures (a + b)[..n] == a[..n] && (a + b)[n..] == a[n..] + b
    ensures a != "" ==> (a + b)[0] == a[0]
  {
  }

  lemma OpenInItem(full: string, rest: string, c: nat, n: nat)
    requires 0 < c < n && c < |full| && n == ItemLen(full + rest) && full[c] == '['
    ensures (full + rest)[0] == '[' && (full + rest)[c] == '['
  {
    FirstItem(full, rest, n);
    assert (full + rest)[..n][c] == full[c];
  }

  /** Wherever the stream cuts, whatever comes next, the cut is legal in the whole text. */
  lemma CutIsLegal(m: Mapping, full: string, rest: string)
    ensures LegalCut(m, full + rest, Cut(m, full))
  {
    CutIsCutAt(m, full);
    CutAtIsLegal(m, full, rest, Cut(m, full));
  }

  // ---------- What a cut does to the restored text ----------

  /** Cutting at `c` changes neither the restored text nor the condition for later cuts. */
  ghost predicate Harmless(m: Mapping, s: string, c: nat)
    requires c <= |s|
  {
    Unmask(m, s[..c]) + Unmask(m, s[c..]) == Unmask(m, s)
  }

  lemma HarmlessMeans(m: Mapping, s: string, c: nat)
    requires c <= |s|
    ensures Harmless(m, s, c) <==> Unmask(m, s) == Unmask(m, s[..c]) + Unmask(m, s[c..])
  {
    hide Unmask;
  }

  /** A cut behind the first item splits the text between its items. */
  lemma CutBehindItem(m: Mapping, s: string, c: nat, n: nat)
    requires s != "" && n == ItemLen(s) <= c <= |s|
    ensures ItemLen(s[..c]) == n && s[..c][..n] == s[..n] && s[..c][n..] == s[n..][..c - n] && s[c..] == s[n..][c - n..]
    ensures Unmask(m, s[..c]) == RestoreItem(m, s[..n]) + Unmask(m, s[n..][..c - n])
  {
    assert s[..c][0] == s[0];
    if s[0] == '[' {
      FindUnique(s[..c], ']', Find(s, ']'));
    } else if IsWordChar(s[0]) {
      assert s[..c][..n] == s[..n];
      RunLenUnique(s[..c], n);
    }
    assert s[..c][..n] == s[..n] && s[..c][n..] == s[n..][..c - n];
  }

  lemma {:induction false} FindUnique(s: string, c: char, k: nat)
    requires forall i | 0 <= i < k && i < |s| :: s[i] != c
    requires k < |s| ==> s[k] == c
    ensures Find(s, c) == if k < |s| then k else |s|
  {
    var f := Find(s, c);
  }

  lemma HarmlessBehindItem(m: Mapping, s: string, c: nat, n: nat)
    requires s != "" && n == ItemLen(s) <= c <= |s|
    ensures Harmless(m, s, c) <==> Harmless(m, s[n..], c - n)
  {
    CutBehindItem(m, s, c, n);
    var a, b, d, e := RestoreItem(m, s[..n]), Unmask(m, s[n..][..c - n]), Unmask(m, s[c..]), Unmask(m, s[n..]);
    assert Unmask(m, s) == a + e;
    hide *;
    Assoc(a, b, d);
    CancelLeft(a, b + d, e);
  }

  lemma CancelLeft(a: string, x: string, y: string)
    ensures a + x == a + y <==> x == y
  {
    assert (a + x)[|a|..] == x && (a + y)[|a|..] == y;
  }

  /** Text from an unterminated bracket on is copied. */
  lemma UnmaskOpen(m: Mapping, s: string)
    requires s != "" && s[0] == '[' && Find(s, ']') == |s|
    ensures Unmask(m, s) == s
  {
    assert s[..|s|] == s && s[|s|..] == "";
  }

  lemma UnmaskGroup(m: Mapping, s: string, n: nat)
    requires s != "" && s[0] == '[' && Find(s, ']') < |s| && n == Find(s, ']') + 1
    ensures ItemLen(s) == n && IsGroupStart(s[..n])
    ensures Unmask(m, s) == RestoreGroup(m, s[..n]) + Unmask(m, s[n..])
  {
    GroupItem(m, s, n);
    FindUnique(s[..n], ']', n - 1);
  }

  lemma UnmaskRun(m: Mapping, s: string, n: nat)
    requires s != "" && IsWordChar(s[0]) && n == RunLen(s)
    ensures ItemLen(s) == n && s[..n] != "" && s[..n][0] == s[0]
    ensures Unmask(m, s) == RestoreRun(m, s[..n]) + Unmask(m, s[n..])
  {
    RunItem(m, s);
  }

  lemma OpenBracketBeforeToken(t: string, n: nat)
    requires ValidType(t)
    ensures var s := "[" + TokenOf(t, n);
      ItemLen(s) == |s| && IsGroupStart(s) && s[1] == '[' && s[1..] == TokenOf(t, n) && Find(s, ']') == |s| - 1
  {
    BareTokenShape(t, n);
    var s, bare := "[" + TokenOf(t, n), BareToken(t, n);
    assert forall i | 0 <= i < |bare| :: s[i + 2] == bare[i] && IsTypeChar(bare[i]);
    assert s[1..] == TokenOf(t, n);
    FindUnique(s, ']', |s| - 1);
  }

  /** A group with a second opening bracket is no placeholder. */
  lemma NestedGroupUnknown(m: Mapping, group: string, p: nat)
    requires m.WF() && |group| >= 2 && group[0] == '[' && group[|group| - 1] == ']'
    requires 0 < p < |group| && group[p] == '['
    ensures m.Original(group) == None
  {
    NestedGroupNoToken(m, group, p);
    NestedGroupNoAlias(group, p);
    NormalizeNested(group, p);
  }

  lemma NoInnerBracket(bare: string, p: nat)
    requires AllType(bare) && 0 < p < |bare| + 2
    ensures ("[" + bare + "]")[p] != '['
  {
    if p <= |bare| { assert ("[" + bare + "]")[p] == bare[p - 1]; }
  }

  lemma TokenHasNoInnerBracket(t: string, n: nat, p: nat)
    requires ValidType(t) && 0 < p < |TokenOf(t, n)|
    ensures TokenOf(t, n)[p] != '['
  {
    BareTokenShape(t, n);
    NoInnerBracket(BareToken(t, n), p);
  }

  lemma NestedGroupNoToken(m: Mapping, group: string, p: nat)
    requires m.TokensWF() && 0 < p < |group| && group[p] == '['
    ensures group !in m.tokenToOriginal
  {
    if group in m.tokenToOriginal {
      assert m.Issued(group);
      var t, n :| ValidType(t) && 1 <= n <= m.Counter(t) && group == TokenOf(t, n);
      TokenHasNoInnerBracket(t, n, p);
    }
  }

  lemma NestedGroupNoAlias(group: string, p: nat)
    requires 0 < p < |group| && group[p] == '['
    ensures !IsAlias(group)
  {
    forall b | b != "" && AllType(b) ensures group != "[" + b + "]" {
      if |group| == |b| + 2 { NoInnerBracket(b, p); }
    }
  }

  lemma StripsPair(group: string)
    requires |group| >= 2 && group[0] == '[' && group[|group| - 1] == ']'
    ensures TrimSpace(group) == group && StripClose(StripOpen(group)) == group[1..|group| - 1]
  {
    assert StripOpen(group) == group[1..];
    assert group[1..][..|group| - 2] == group[1..|group| - 1];
  }

  lemma InnerBracketStays(group: string, p: nat)
    requires 0 < p < |group| - 1 && group[p] == '['
    ensures '[' in TrimSpace(group[1..|group| - 1])
  {
    var inner := group[1..|group| - 1];
    assert inner[p - 1] == '[';
    TrimSpaceKeeps(inner);
  }

  lemma NormalizeNested(group: string, p: nat)
    requires |group| >= 2 && group[0] == '[' && group[|group| - 1] == ']'
    requires 0 < p < |group| && group[p] == '['
    ensures Normalize(group) == ""
  {
    hide TrimSpace, StripOpen, StripClose, TrimUnderscores, Squeeze;
    StripsPair(group);
    InnerBracketStays(group, p);
  }

  lemma {:induction false} TrimSpaceKeeps(s: string)
    requires '[' in s
    ensures '[' in TrimSpace(s)
    decreases |s|
  {
    if IsSpace(s[0]) {
      assert s == [s[0]] + s[1..];
      TrimSpaceKeeps(s[1..]);
    } else if IsSpace(s[|s| - 1]) {
      assert s == s[..|s| - 1] + [s[|s| - 1]];
      TrimSpaceKeeps(s[..|s| - 1]);
    }
  }

  lemma SplitGroupFront(s: string, c: nat, n: nat)
    requires s != "" && s[0] == '[' && Find(s, ']') < |s| && n == Find(s, ']') + 1 && 0 < c < n
    ensures Find(s[..c], ']') == c && s[..c] == s[..n][..c] && s[..c] != "" && s[..c][0] == '['
  {
    hide *;
    FindUnique(s[..c], ']', c);
  }

  lemma SplitGroupBack(s: string, c: nat, n: nat)
    requires s != "" && s[0] == '[' && Find(s, ']') < |s| && n == Find(s, ']') + 1 && 0 < c < n && s[c] == '['
    ensures Find(s[c..], ']') == n - 1 - c && s[c..] != "" && s[c..][0] == '['
    ensures s[c..][..n - c] == s[..n][c..] && s[c..][n - c..] == s[n..]
  {
    hide *;
    FindUnique(s[c..], ']', n - 1 - c);
  }

  lemma SplitGroupParts(s: string, c: nat, n: nat)
    requires s != "" && s[0] == '[' && Find(s, ']') < |s| && n == Find(s, ']') + 1
    requires 0 < c < n && s[c] == '['
    ensures Find(s[..c], ']') == c && s[..c] == s[..n][..c] && s[..c] != "" && s[..c][0] == '['
    ensures Find(s[c..], ']') == n - 1 - c && s[c..] != "" && s[c..][0] == '['
    ensures s[c..][..n - c] == s[..n][c..] && s[c..][n - c..] == s[n..]
    ensures s[..n][0] == '[' && s[..n][n - 1] == ']' && s[..n][c] == '['
  {
    hide *;
    SplitGroupFront(s, c, n);
    SplitGroupBack(s, c, n);
  }

  /** Splitting a group at an inner bracket is harmless exactly when the suffix is not restored to something else. */
  lemma SplitGroup(m: Mapping, s: string, c: nat, n: nat)
    requires m.WF() && s != "" && s[0] == '[' && Find(s, ']') < |s| && n == Find(s, ']') + 1
    requires 0 < c < n && s[c] == '['
    ensures Harmless(m, s, c) <==> RestoreGroup(m, s[..n][c..]) == s[..n][c..]
    ensures ItemLen(s[c..]) == n - c && s[c..][..n - c] == s[..n][c..] && s[c..][n - c..] == s[n..]
      && IsGroupStart(s[c..][..n - c])
  {
    hide *;
    SplitGroupParts(s, c, n);
    UnmaskGroup(m, s, n);
    NestedGroupCopied(m, s[..n], c);
    UnmaskOpen(m, s[..c]);
    UnmaskGroup(m, s[c..], n - c);
    SplitItem(m, s, c, s[..n], RestoreGroup(m, s[..n][c..]), Unmask(m, s[n..]));
  }

  lemma NestedGroupCopied(m: Mapping, group: string, p: nat)
    requires m.WF() && |group| >= 2 && group[0] == '[' && group[|group| - 1] == ']'
    requires 0 < p < |group| && group[p] == '['
    ensures RestoreGroup(m, group) == group
  {
    NestedGroupUnknown(m, group, p);
  }

  lemma SplitItem(m: Mapping, s: string, c: nat, item: string, restored: string, after: string)
    requires c <= |item| && c <= |s| && Unmask(m, s) == item + after
    requires Unmask(m, s[..c]) == item[..c] && Unmask(m, s[c..]) == restored + after
    ensures Harmless(m, s, c) <==> restored == item[c..]
  {
    hide *;
    assert item == item[..c] + item[c..];
    Assoc(item[..c], item[c..], after);
    CancelLeft(item[..c], restored + after, item[c..] + after);
    CancelRight(restored, item[c..], after);
    assert Unmask(m, s) == item[..c] + (item[c..] + after);
    HarmlessIff(m, s, c, item[..c] + (restored + after), item[..c] + (item[c..] + after));
  }

  lemma HarmlessIff(m: Mapping, s: string, c: nat, a: string, b: string)
    requires c <= |s| && a == Unmask(m, s[..c]) + Unmask(m, s[c..]) && b == Unmask(m, s)
    ensures Harmless(m, s, c) <==> a == b
  {
  }

  lemma CancelRight(x: string, y: string, b: string)
    ensures x + b == y + b <==> x == y
  {
    if x + b == y + b {
      assert |x| == |y|;
      assert (x + b)[..|x|] == x && (y + b)[..|y|] == y;
    }
  }

  lemma SplitRunParts(s: string, c: nat, n: nat)
    requires s != "" && IsWordChar(s[0]) && n == RunLen(s) && 0 < c < n
    ensures AllWord(s[..n]) && s[..n][..c] == s[..c] && s[..c] != "" && IsWordChar(s[..c][0]) && AllWord(s[..c])
    ensures RunLen(s[..c]) == c && s[..c][..c] == s[..c] && s[..c][c..] == ""
    ensures RunLen(s[c..]) == n - c && s[c..] != "" && s[c..][0] == s[c] && IsWordChar(s[c])
    ensures s[c..][..n - c] == s[..n][c..] && s[c..][n - c..] == s[n..]
  {
    assert forall i | 0 <= i < n :: s[..n][i] == s[i];
    RunLenUnique(s[..c], c);
    assert s[c..][..n - c] == s[..n][c..];
    RunLenUnique(s[c..], n - c);
  }

  /** Splitting a run behind a dead prefix is harmless exactly when the suffix is not restored to something else. */
  lemma SplitRun(m: Mapping, s: string, c: nat, n: nat)
    requires m.WF() && s != "" && IsWordChar(s[0]) && n == RunLen(s)
    requires 0 < c < n && !IsAliasPrefix(m, s[..c])
    ensures Harmless(m, s, c) <==> RestoreRun(m, s[..n][c..]) == s[..n][c..]
    ensures ItemLen(s[c..]) == n - c && s[c..][..n - c] == s[..n][c..] && s[c..][n - c..] == s[n..] && IsWordChar(s[c])
  {
    hide *;
    SplitRunParts(s, c, n);
    UnmaskRun(m, s, n);
    DeadRunIsCopied(m, s[..n], c);
    DeadRunIsCopied(m, s[..c], c);
    UnmaskRun(m, s[..c], c);
    UnmaskEmpty(m, s[..c]);
    UnmaskRun(m, s[c..], n - c);
    SplitItem(m, s, c, s[..n], RestoreRun(m, s[..n][c..]), Unmask(m, s[n..]));
  }

  lemma UnmaskEmpty(m: Mapping, s: string)
    ensures Unmask(m, "") == "" && s + "" == s
  {
  }

  /** A run with a prefix that cannot start a placeholder is no placeholder. */
  lemma DeadRunIsCopied(m: Mapping, run: string, c: nat)
    requires m.WF() && 0 < c <= |run| && AllWord(run) && !IsAliasPrefix(m, run[..c])
    ensures RestoreRun(m, run) == run
  {
    assert !IsBareAlias(m, run) by {
      if IsBareAlias(m, run) { AliasRunIsAlive(m, run, c); }
    }
  }

  lemma AliasRunIsAlive(m: Mapping, run: string, c: nat)
    requires m.WF() && 0 < c <= |run| && AllWord(run) && IsBareAlias(m, run)
    ensures IsAliasPrefix(m, run[..c])
  {
    RunIsListed(m, run);
    BareIsAlias(m, Fold(run));
    FoldPrefix(run, c);
    FoldPrefix(Fold(run), c);
    FoldType(Fold(run));
    assert StartsAlias(Fold(run), run[..c]);
  }

  // ---------- The stream refines one pass ----------

  /** Under the condition a legal cut changes nothing, and the condition holds again behind it. */
  lemma {:induction false} LegalCutIsHarmless(m: Mapping, s: string, c: nat)
    requires m.WF() && c <= |s| && Faithful(m, s) && LegalCut(m, s, c)
    ensures Harmless(m, s, c) && Faithful(m, s[c..])
    decreases |s|
  {
    if c == 0 {
      HarmlessAtStart(m, s);
    } else {
      var n := ItemLen(s);
      if c >= n {
        LegalCutIsHarmless(m, s[n..], c - n);
        HarmlessBehindItem(m, s, c, n);
        assert s[c..] == s[n..][c - n..];
      } else if s[0] == '[' && Find(s, ']') == |s| {
        OpenCutIsHarmless(m, s, c);
      } else if s[0] == '[' {
        GroupCutIsHarmless(m, s, c, n);
      } else {
        RunCutIsHarmless(m, s, c, n);
      }
    }
  }

  lemma HarmlessAtStart(m: Mapping, s: string)
    ensures Harmless(m, s, 0) && s[0..] == s
  {
    assert s[..0] == "" && s[0..] == s;
  }

  lemma OpenCutParts(s: string, c: nat)
    requires s != "" && s[0] == '[' && Find(s, ']') == |s| && 0 < c < |s| && s[c] == '['
    ensures s[..c] != "" && s[..c][0] == '[' && Find(s[..c], ']') == |s[..c]|
    ensures s[c..] != "" && s[c..][0] == '[' && Find(s[c..], ']') == |s[c..]|
    ensures s[..c] + s[c..] == s
  {
    FindUnique(s[..c], ']', c);
    FindUnique(s[c..], ']', |s| - c);
  }

  lemma OpenCutIsHarmless(m: Mapping, s: string, c: nat)
    requires s != "" && s[0] == '[' && Find(s, ']') == |s| && 0 < c < |s| && s[c] == '['
    ensures Harmless(m, s, c) && Faithful(m, s[c..])
  {
    hide *;
    OpenCutParts(s, c);
    UnmaskOpen(m, s);
    UnmaskOpen(m, s[..c]);
    UnmaskOpen(m, s[c..]);
    OpenIsFaithful(m, s[c..]);
    HarmlessMeans(m, s, c);
  }

  lemma OpenIsFaithful(m: Mapping, s: string)
    requires s != "" && s[0] == '[' && Find(s, ']') == |s|
    ensures Faithful(m, s)
  {
    assert s[..|s|] == s && s[|s|..] == "";
  }

  lemma GroupOkAt(m: Mapping, group: string, p: nat)
    requires IsGroupStart(group) && ItemOk(m, group) && 0 < p < |group| && group[p] == '['
    ensures GroupOk(m, group) && RestoreGroup(m, group[p..]) == group[p..]
  {
    hide RestoreGroup;
  }

  lemma GroupIsOk(m: Mapping, group: string)
    requires IsGroupStart(group) && GroupOk(m, group)
    ensures ItemOk(m, group)
  {
    hide GroupOk;
  }

  lemma GroupCutIsHarmless(m: Mapping, s: string, c: nat, n: nat)
    requires m.WF() && s != "" && Faithful(m, s) && n == ItemLen(s) && s[0] == '[' && Find(s, ']') < |s|
    requires 0 < c < n && s[c] == '['
    ensures Harmless(m, s, c) && Faithful(m, s[c..])
  {
    hide *;
    UnmaskGroup(m, s, Find(s, ']') + 1);
    FaithfulItem(m, s, n);
    SplitGroup(m, s, c, n);
    assert s[..n][c] == s[c];
    GroupOkAt(m, s[..n], c);
    GroupOkSuffix(m, s[..n], c);
    GroupIsOk(m, s[c..][..n - c]);
    FaithfulFrom(m, s[c..], n - c);
  }

  lemma RunOkAt(m: Mapping, run: string, k: nat)
    requires run != "" && IsWordChar(run[0]) && ItemOk(m, run) && 0 < k < |run| && !IsAliasPrefix(m, run[..k])
    ensures RunOk(m, run) && RestoreRun(m, run[k..]) == run[k..]
  {
    hide RestoreRun, IsAliasPrefix, GroupOk;
  }

  lemma RunIsOk(m: Mapping, run: string)
    requires run != "" && IsWordChar(run[0]) && RunOk(m, run)
    ensures ItemOk(m, run)
  {
    hide RunOk, GroupOk;
  }

  lemma RunLength(s: string)
    requires s != "" && IsWordChar(s[0])
    ensures ItemLen(s) == RunLen(s)
  {
  }

  lemma RunCutIsHarmless(m: Mapping, s: string, c: nat, n: nat)
    requires m.WF() && s != "" && Faithful(m, s) && n == ItemLen(s) && IsWordChar(s[0])
    requires 0 < c < n && !IsAliasPrefix(m, s[..c])
    ensures Harmless(m, s, c) && Faithful(m, s[c..])
  {
    hide *;
    RunLength(s);
    UnmaskRun(m, s, n);
    FaithfulItem(m, s, n);
    SplitRun(m, s, c, n);
    assert s[..n][..c] == s[..c] && s[c..][..n - c][0] == s[c];
    RunOkAt(m, s[..n], c);
    RunOkSuffix(m, s[..n], c);
    RunIsOk(m, s[c..][..n - c]);
    FaithfulFrom(m, s[c..], n - c);
  }

  lemma FaithfulItem(m: Mapping, s: string, n: nat)
    requires s != "" && Faithful(m, s) && n == ItemLen(s)
    ensures ItemOk(m, s[..n]) && Faithful(m, s[n..])
  {
  }

  lemma FaithfulFrom(m: Mapping, s: string, n: nat)
    requires s != "" && n == ItemLen(s) && ItemOk(m, s[..n]) && Faithful(m, s[n..])
    ensures Faithful(m, s)
  {
  }

  lemma GroupOkSuffix(m: Mapping, group: string, c: nat)
    requires GroupOk(m, group) && c <= |group|
    ensures GroupOk(m, group[c..])
  {
    forall p | 0 < p < |group[c..]| && group[c..][p] == '['
      ensures RestoreGroup(m, group[c..][p..]) == group[c..][p..]
    {
      assert group[c..][p..] == group[c + p..];
    }
  }

  lemma RunOkSuffix(m: Mapping, run: string, c: nat)
    requires RunOk(m, run) && 0 < c <= |run| && !IsAliasPrefix(m, run[..c])
    ensures RunOk(m, run[c..])
  {
    forall k | 0 < k < |run[c..]| && !IsAliasPrefix(m, run[c..][..k])
      ensures RestoreRun(m, run[c..][k..]) == run[c..][k..]
    {
      assert run[c..][k..] == run[c + k..];
      DeadPrefixGrows(m, run, c, c + k);
    }
  }

  lemma DeadPrefixGrows(m: Mapping, run: string, c: nat, k: nat)
    requires c <= k <= |run| && !IsAliasPrefix(m, run[..c])
    ensures !IsAliasPrefix(m, run[..k])
  {
    forall a | IsBare(m, a) ensures !StartsAlias(a, run[..k]) {
      StartsAliasShorter(a, run, c, k);
    }
  }

  lemma StartsAliasShorter(alias: string, run: string, c: nat, k: nat)
    requires c <= k <= |run|
    ensures StartsAlias(alias, run[..k]) ==> StartsAlias(alias, run[..c])
  {
    if StartsAlias(alias, run[..k]) {
      FoldPrefix(alias[..k], c);
      FoldPrefix(run[..k], c);
      assert alias[..k][..c] == alias[..c] && run[..k][..c] == run[..c];
    }
  }

  /** For every chunking of a text that meets the condition, the stream emits what one pass over the text would. */
  lemma {:induction false} StreamRefinesUnmask(m: Mapping, held: string, chunks: seq<string>)
    requires m.WF() && Faithful(m, held + Flatten(chunks))
    ensures Stream(m, held, chunks) == Unmask(m, held + Flatten(chunks))
    decreases |chunks|
  {
    hide *;
    if chunks == [] {
      StreamOfNothing(m, held);
    } else {
      var full, rest := held + chunks[0], Flatten(chunks[1..]);
      var c := Cut(m, full);
      assert chunks == [chunks[0]] + chunks[1..];
      FlattenCons(chunks[0], chunks[1..]);
      Assoc(held, chunks[0], rest);
      CutIsLegal(m, full, rest);
      LegalCutIsHarmless(m, full + rest, c);
      assert (full + rest)[..c] == full[..c] && (full + rest)[c..] == full[c..] + rest;
      StreamRefinesUnmask(m, full[c..], chunks[1..]);
      StreamStep(m, held, chunks, c);
      HarmlessMeans(m, full + rest, c);
    }
  }

  lemma StreamOfNothing(m: Mapping, held: string)
    ensures Stream(m, held, []) == Unmask(m, held) && Flatten([]) == "" && held + "" == held
  {
  }

  lemma StreamStep(m: Mapping, held: string, chunks: seq<string>, c: nat)
    requires chunks != [] && c == Cut(m, held + chunks[0])
    ensures Stream(m, held, chunks)
      == Unmask(m, (held + chunks[0])[..c]) + Stream(m, (held + chunks[0])[c..], chunks[1..])
  {
  }
}
