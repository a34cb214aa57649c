/** The condition of `PIIStream.StreamRefinesUnmask` is exact, and what holds with no condition at all. */
module PIIStreamExact {
  import opened Common
  import opened Text
  import opened Mappings
  import opened Unmasking
  import opened PIIStream

  // ---------- A text that misses the condition has a chunking that shows it ----------

  /** The stream cuts at `p` when a chunk ends there, or right behind the bracket at `p`. */
  ghost predicate CanCutAt(m: Mapping, s: string, p: nat) {
    0 < p < |s| && (s[p] == '[' || Cut(m, s[..p]) == p)
  }

  /** A text that misses the condition has a reachable cut that changes the restored text. */
  lemma {:induction false} FindHarm(m: Mapping, s: string) returns (p: nat)
    requires m.WF() && !Faithful(m, s)
    ensures CanCutAt(m, s, p) && !Harmless(m, s, p)
    decreases |s|
  {
    UnfaithfulItem(m, s);
    var n := ItemLen(s);
    if !ItemOk(m, s[..n]) {
      p := HarmInItem(m, s, n);
    } else {
      hide *;
      var q := FindHarm(m, s[n..]);
      p := n + q;
      HarmShift(m, s, p, n);
    }
  }

  lemma UnfaithfulItem(m: Mapping, s: string)
    requires !Faithful(m, s)
    ensures s != "" && (!ItemOk(m, s[..ItemLen(s)]) || !Faithful(m, s[ItemLen(s)..]))
  {
    hide ItemOk, ItemLen;
  }

  lemma HarmInItem(m: Mapping, s: string, n: nat) returns (p: nat)
    requires m.WF() && s != "" && n == ItemLen(s) && !ItemOk(m, s[..n])
    ensures CanCutAt(m, s, p) && !Harmless(m, s, p)
  {
    hide RestoreGroup, RestoreRun, Harmless, Cut, IsAliasPrefix, Find, RunLen, Mapping.WF;
    var item := s[..n];
    if IsGroupStart(item) {
      GroupHead(s, n);
      p :| 0 < p < |item| && item[p] == '[' && RestoreGroup(m, item[p..]) != item[p..];
      SplitGroup(m, s, p, n);
    } else {
      assert s[0] == item[0] && IsWordChar(s[0]);
      p :| 0 < p < |item| && !IsAliasPrefix(m, item[..p]) && RestoreRun(m, item[p..]) != item[p..];
      assert item[..p] == s[..p];
      RunLength(s);
      SplitRun(m, s, p, n);
      DeadRunIsCut(m, s[..p]);
    }
  }

  lemma HarmShift(m: Mapping, s: string, p: nat, n: nat)
    requires s != "" && n == ItemLen(s) <= p && CanCutAt(m, s[n..], p - n) && !Harmless(m, s[n..], p - n)
    ensures CanCutAt(m, s, p) && !Harmless(m, s, p)
  {
    HarmlessBehindItem(m, s, p, n);
    CutBehindItem(m, s, p, n);
    hide Harmless, Unmask;
    if s[p] != '[' {
      OpenItemEndsText(s, n);
      CutShift(m, s[..p], n);
    }
  }

  lemma GroupHead(s: string, n: nat)
    requires s != "" && n == ItemLen(s) && IsGroupStart(s[..n])
    ensures s[0] == '[' && Find(s, ']') < |s| && n == Find(s, ']') + 1
  {
    var k := Find(s[..n], ']');
    assert s[..n][0] == s[0] && s[k] == s[..n][k];
  }

  lemma DeadRunIsCut(m: Mapping, run: string)
    requires run != "" && AllWord(run) && !IsAliasPrefix(m, run)
    ensures Cut(m, run) == |run|
  {
    TrailingRunUnique(run, 0);
    assert run[0..] == run;
    OpenStartBalanced(run);
  }

  lemma OpenItemEndsText(s: string, n: nat)
    requires s != "" && n == ItemLen(s) < |s|
    ensures s[0] == '[' ==> Find(s, ']') < |s| && s[n - 1] == ']'
    ensures s[0] != '[' && !IsWordChar(s[0]) ==> n == 1
    ensures IsWordChar(s[n - 1]) ==> !IsWordChar(s[n])
  {
    if s[0] == '[' {
      hide RunLen;
    } else {
      hide Find;
      if IsWordChar(s[0]) { RunLength(s); }
    }
  }

  /** A cut at the end of the text behind the first item is a cut at the end of the whole text. */
  lemma CutShift(m: Mapping, t: string, n: nat)
    requires t != "" && n == ItemLen(t) < |t|
    requires t[0] == '[' ==> t[n - 1] == ']'
    requires Cut(m, t[n..]) == |t| - n
    ensures Cut(m, t) == |t|
  {
    OpenStartBalanced(t[n..]);
    BalancedShift(t, n);
    OpenStartBalanced(t);
    TrailingRunShift(t, n);
  }

  lemma TrailingRunShift(t: string, n: nat)
    requires t != "" && n == ItemLen(t) < |t| && (t[0] == '[' ==> t[n - 1] == ']')
    ensures TrailingRun(t) == n + TrailingRun(t[n..]) && t[TrailingRun(t)..] == t[n..][TrailingRun(t[n..])..]
  {
    hide *;
    OpenItemEndsText(t, n);
    TrailingRunBehind(t, n);
  }

  /** A word run does not reach back over a place where none can cross. */
  lemma TrailingRunBehind(t: string, n: nat)
    requires 0 < n < |t| && (IsWordChar(t[n - 1]) ==> !IsWordChar(t[n]))
    ensures TrailingRun(t) == n + TrailingRun(t[n..]) && t[TrailingRun(t)..] == t[n..][TrailingRun(t[n..])..]
  {
    hide *;
    var k := TrailingRun(t[n..]);
    DropDrop(t, n, k);
    if k == 0 { WordStarts(t[n..]); }
    TrailingRunUnique(t, n + k);
  }

  lemma DropDrop(t: string, n: nat, k: nat)
    requires n <= |t| && k <= |t[n..]|
    ensures t[n..][k..] == t[n + k..] && (k > 0 ==> t[n..][k - 1] == t[n + k - 1])
    ensures n < |t| ==> t[n..] != "" && t[n..][0] == t[n]
  {
  }

  lemma WordStarts(u: string)
    requires u != "" && AllWord(u[0..])
    ensures IsWordChar(u[0])
  {
    assert u[0..][0] == u[0];
    hide IsWordChar;
  }

  lemma BalancedShift(t: string, n: nat)
    requires t != "" && n == ItemLen(t) < |t| && (t[0] == '[' ==> t[n - 1] == ']') && Balanced(t[n..])
    ensures Balanced(t)
  {
    forall i | 0 <= i < |t| && t[i] == '[' ensures exists j | i < j < |t| :: t[j] == ']' {
      if i >= n {
        assert t[n..][i - n] == '[';
        var j :| i - n < j < |t[n..]| && t[n..][j] == ']';
        assert t[n + j] == ']';
      } else {
        assert i < n - 1 && t[n - 1] == ']' by { BracketInItem(t, n, i); }
      }
    }
  }

  lemma BracketInItem(t: string, n: nat, i: nat)
    requires t != "" && n == ItemLen(t) && i < n && IsBracket(t[i])
    ensures t[0] == '[' || (i == 0 && n == 1 && t[0] == ']')
  {
    assert t[..n][i] == t[i];
  }

  // ---------- Cuts made when nothing follows are always harmless ----------

  lemma {:induction false} LastCutIsHarmless(m: Mapping, s: string, c: nat)
    requires CutAt(m, s, c)
    ensures Harmless(m, s, c)
    decreases |s|
  {
    hide *;
    CutInText(m, s, c);
    if c == 0 {
      HarmlessAtStart(m, s);
    } else {
      var n := ItemLen(s);
      NothingBehind(s);
      FirstItem(s, "", n);
      if c >= n {
        CutAtDrop(m, s, c, n);
        LastCutIsHarmless(m, s[n..], c - n);
        HarmlessBehindItem(m, s, c, n);
      } else {
        LastCutInItem(m, s, c, n);
        OpenCutIsHarmless(m, s, c);
      }
    }
  }

  lemma NothingBehind(s: string)
    ensures s + "" == s
  {
  }

  lemma LastCutInItem(m: Mapping, s: string, c: nat, n: nat)
    requires CutAt(m, s, c) && s != "" && n == ItemLen(s) && 0 < c < n
    ensures s[0] == '[' && Find(s, ']') == |s| && s[c] == '['
  {
    NothingBehind(s);
    FirstItem(s, "", n);
    assert forall i | 0 <= i < n :: s[..n][i] == s[i];
  }

  /** The chunking: the text up to the harmful cut, then the rest. */
  function SplitAt(s: string, p: nat): seq<string>
    requires p < |s|
  {
    var q := if s[p] == '[' then p + 1 else p;
    [s[..q], s[q..]]
  }

  lemma CutsAtSplit(m: Mapping, s: string, p: nat)
    requires CanCutAt(m, s, p)
    ensures Flatten(SplitAt(s, p)) == s
    ensures p <= |SplitAt(s, p)[0]| && Cut(m, "" + SplitAt(s, p)[0]) == p
    ensures ("" + SplitAt(s, p)[0])[..p] == s[..p] && ("" + SplitAt(s, p)[0])[p..] + SplitAt(s, p)[1] == s[p..]
  {
    var a, b := SplitAt(s, p)[0], SplitAt(s, p)[1];
    assert "" + a == a && a + b == s && b + "" == b;
    assert Flatten([a, b]) == a + Flatten([a, b][1..]) && Flatten([b]) == b + Flatten([b][1..]);
    if s[p] == '[' { OpenIsCut(m, a); }
  }

  lemma OpenIsCut(m: Mapping, a: string)
    requires a != "" && a[|a| - 1] == '['
    ensures Cut(m, a) == |a| - 1
  {
    TrailingRunAfter(a, |a| - 1);
  }

  /** A text that misses the condition is restored differently by some chunking of it. */
  lemma StreamDiverges(m: Mapping, s: string) returns (chunks: seq<string>)
    requires m.WF() && !Faithful(m, s)
    ensures Flatten(chunks) == s && Stream(m, "", chunks) != Unmask(m, s) && "" !in chunks
  {
    hide Unmask, Faithful, Cut, Flatten;
    var p := FindHarm(m, s);
    if s[p] == '[' && p == |s| - 1 { LastCutIsHarmless(m, s, p); }
    chunks := SplitAt(s, p);
    CutsAtSplit(m, s, p);
    StreamOfSplit(m, s, p);
  }

  lemma StreamOfSplit(m: Mapping, s: string, p: nat)
    requires CanCutAt(m, s, p)
    ensures Stream(m, "", SplitAt(s, p)) == Unmask(m, s[..p]) + Unmask(m, s[p..])
  {
    var chunks := SplitAt(s, p);
    hide Unmask, Cut, CanCutAt, Flatten;
    CutsAtSplit(m, s, p);
    StreamStep(m, "", chunks, p);
    var held := ("" + chunks[0])[p..];
    var full := held + chunks[1..][0];
    var c := Cut(m, full);
    StreamStep(m, held, chunks[1..], c);
    CutIsCutAt(m, full);
    LastCutIsHarmless(m, full, c);
    assert chunks[1..][1..] == [];
  }

  /** Whether every chunking restores what one pass does is decided by the condition. */
  lemma StreamExact(m: Mapping, s: string)
    requires m.WF()
    ensures Faithful(m, s) <==>
      forall chunks: seq<string> | Flatten(chunks) == s :: Stream(m, "", chunks) == Unmask(m, s)
  {
    if Faithful(m, s) {
      forall chunks: seq<string> | Flatten(chunks) == s ensures Stream(m, "", chunks) == Unmask(m, s) {
        assert "" + Flatten(chunks) == s;
        StreamRefinesUnmask(m, "", chunks);
      }
    } else {
      var chunks := StreamDiverges(m, s);
    }
  }

  /** A concrete text outside the condition: a stray bracket before a token. One pass copies it, some stream restores
      the token. */
  lemma StrayBracketDiverges(m: Mapping, t: string, original: string) returns (chunks: seq<string>)
    requires m.WF() && ValidType(t) && KeyOf(t, original) in m.originalToToken && original != m.TokenFor(t, original)
    ensures var s := "[" + m.TokenFor(t, original); Flatten(chunks) == s && Stream(m, "", chunks) != Unmask(m, s)
  {
    var token := m.TokenFor(t, original);
    var s := "[" + token;
    assert m.Owns(t, original, token);
    var n :| 1 <= n <= m.Counter(t) && token == TokenOf(t, n);
    OpenBracketBeforeToken(t, n);
    assert s[..|s|] == s && RestoreGroup(m, s[1..]) == original;
    assert !GroupOk(m, s);
    chunks := StreamDiverges(m, s);
  }

  // ---------- With no condition: nothing is lost and bracket pairs stay whole ----------

  /** The pieces handed to `Unmask` one after the other, the flushed rest last. */
  ghost function Segments(m: Mapping, held: string, chunks: seq<string>): seq<string>
    decreases |chunks|
  {
    if chunks == [] then [held]
    else
      var full := held + chunks[0];
      [full[..Cut(m, full)]] + Segments(m, full[Cut(m, full)..], chunks[1..])
  }

  function UnmaskAll(m: Mapping, parts: seq<string>): string {
    if parts == [] then "" else Unmask(m, parts[0]) + UnmaskAll(m, parts[1..])
  }

  /** No input byte is lost, repeated or moved, and what the stream emits is the segments restored in order. */
  lemma {:induction false} StreamConserves(m: Mapping, held: string, chunks: seq<string>)
    ensures Flatten(Segments(m, held, chunks)) == held + Flatten(chunks)
    ensures Stream(m, held, chunks) == UnmaskAll(m, Segments(m, held, chunks))
    decreases |chunks|
  {
    hide Unmask, Cut;
    if chunks == [] {
      assert held + "" == held && Unmask(m, held) + "" == Unmask(m, held);
      assert [held][1..] == [];
    } else {
      var full := held + chunks[0];
      var c := Cut(m, full);
      var rest := Segments(m, full[c..], chunks[1..]);
      StreamConserves(m, full[c..], chunks[1..]);
      assert ([full[..c]] + rest)[1..] == rest;
      Assoc(held, chunks[0], Flatten(chunks[1..]));
      Assoc(full[..c], full[c..], Flatten(chunks[1..]));
      assert full[..c] + full[c..] == full;
    }
  }

  /** A bracket pair with no bracket between. */
  predicate InnermostPair(s: string, i: nat, j: nat) {
    i < j < |s| && s[i] == '[' && s[j] == ']' && forall k | i < k < j :: !IsBracket(s[k])
  }

  lemma {:induction false} LegalCutKeepsPairs(m: Mapping, s: string, c: nat, i: nat, j: nat)
    requires c <= |s| && LegalCut(m, s, c) && InnermostPair(s, i, j)
    ensures !(i < c <= j)
    decreases |s|
  {
    hide IsAliasPrefix, Find, RunLen;
    if c > 0 {
      var n := ItemLen(s);
      if i < n { BracketInItem(s, n, i); }
      if c >= n && i >= n {
        PairShift(s, n, i, j);
        LegalCutKeepsPairs(m, s[n..], c - n, i - n, j - n);
      } else if c >= n {
        assert n == |s| || s[n - 1] == ']';
      }
    }
  }

  /** Where in the input the first `k` segments end. */
  ghost function SegmentEnd(m: Mapping, held: string, chunks: seq<string>, k: nat): nat
    requires k <= |Segments(m, held, chunks)|
  {
    |Flatten(Segments(m, held, chunks)[..k])|
  }

  lemma NoSegment(m: Mapping, held: string, chunks: seq<string>)
    ensures SegmentEnd(m, held, chunks, 0) == 0
  {
    assert Segments(m, held, chunks)[..0] == [];
  }

  lemma NextSegment(m: Mapping, held: string, chunks: seq<string>, k: nat)
    requires 0 < k <= |Segments(m, held, chunks)|
    ensures chunks == [] ==> SegmentEnd(m, held, chunks, k) == |held|
    ensures chunks != [] ==>
      var full := held + chunks[0];
      var c := Cut(m, full);
      k - 1 <= |Segments(m, full[c..], chunks[1..])|
      && SegmentEnd(m, held, chunks, k) == c + SegmentEnd(m, full[c..], chunks[1..], k - 1)
  {
    hide Cut;
    var segments := Segments(m, held, chunks);
    if chunks == [] {
      assert segments[..k] == [held] + [];
      FlattenCons(held, []);
      assert held + "" == held;
    } else {
      var full := held + chunks[0];
      var rest := Segments(m, full[Cut(m, full)..], chunks[1..]);
      assert segments[..k] == [full[..Cut(m, full)]] + rest[..k - 1];
      FlattenCons(full[..Cut(m, full)], rest[..k - 1]);
    }
  }

  /** Every innermost bracket pair of the input reaches `Unmask` inside one segment. */
  lemma {:induction false} PairsStayWhole(m: Mapping, held: string, chunks: seq<string>, i: nat, j: nat, k: nat)
    requires InnermostPair(held + Flatten(chunks), i, j) && k <= |Segments(m, held, chunks)|
    ensures !(i < SegmentEnd(m, held, chunks, k) <= j)
    decreases |chunks|
  {
    hide *;
    if k == 0 {
      NoSegment(m, held, chunks);
    } else {
      NextSegment(m, held, chunks, k);
      if chunks == [] {
        PairOfHeld(held, i, j);
      } else {
        var full := held + chunks[0];
        var c := Cut(m, full);
        CutKeepsPair(m, held, chunks, c, i, j);
        if i >= c {
          PairsStayWhole(m, full[c..], chunks[1..], i - c, j - c, k - 1);
        }
      }
    }
  }

  lemma PairOfHeld(held: string, i: nat, j: nat)
    requires InnermostPair(held + Flatten([]), i, j)
    ensures j < |held|
  {
    assert held + "" == held;
  }

  lemma CutKeepsPair(m: Mapping, held: string, chunks: seq<string>, c: nat, i: nat, j: nat)
    requires chunks != [] && c == Cut(m, held + chunks[0]) && InnermostPair(held + Flatten(chunks), i, j)
    ensures !(i < c <= j)
    ensures i >= c ==> c <= j && InnermostPair((held + chunks[0])[c..] + Flatten(chunks[1..]), i - c, j - c)
  {
    var full, tail := held + chunks[0], Flatten(chunks[1..]);
    Assoc(held, chunks[0], tail);
    CutIsLegal(m, full, tail);
    hide *;
    LegalCutKeepsPairs(m, full + tail, c, i, j);
    if i >= c {
      DropConcat(full, tail, c);
      PairShift(full + tail, c, i, j);
    }
  }

  lemma PairShift(s: string, c: nat, i: nat, j: nat)
    requires c <= i && InnermostPair(s, i, j)
    ensures c <= j && c <= |s| && InnermostPair(s[c..], i - c, j - c)
  {
  }
}
