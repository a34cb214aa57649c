/** Replacing known values one after the other, and when none is left (pkg/domain/pii.go, MaskKnownOriginals). */
module Replacing {
  import opened Common
  import opened Text
  import opened Mappings

  datatype Pair = Pair(token: string, original: string)

  predicate StartsWith(s: string, prefix: string) { |prefix| <= |s| && s[..|prefix|] == prefix }

  /** Leftmost, non-overlapping replacement of every occurrence. */
  function ReplaceAll(s: string, original: string, token: string): string
    requires original != ""
    decreases |s|
  {
    if s == "" then ""
    else if StartsWith(s, original) then token + ReplaceAll(s[|original|..], original, token)
    else [s[0]] + ReplaceAll(s[1..], original, token)
  }

  function ReplacePairs(s: string, pairs: seq<Pair>): string
    requires forall p | p in pairs :: p.original != ""
    decreases |pairs|
  {
    if pairs == [] then s else ReplacePairs(ReplaceAll(s, pairs[0].original, pairs[0].token), pairs[1..])
  }

  predicate OccursAt(s: string, q: string, i: nat) { i <= |s| && StartsWith(s[i..], q) }

  ghost predicate Occurs(s: string, q: string) { exists i: nat :: OccursAt(s, q, i) }

  predicate Bracketless(s: string) { forall i | 0 <= i < |s| :: !IsBracket(s[i]) }

  predicate TokenShaped(t: string) { |t| >= 2 && t[0] == '[' && t[|t| - 1] == ']' }

  /** Text without brackets at the start of the result was not replaced. */
  lemma {:induction false} RawPrefix(s: string, original: string, token: string, k: nat)
    requires original != "" && TokenShaped(token)
    requires var r := ReplaceAll(s, original, token); k <= |r| && Bracketless(r[..k])
    ensures k <= |s| && ReplaceAll(s, original, token)[..k] == s[..k]
    decreases |s|
  {
    var r := ReplaceAll(s, original, token);
    if k > 0 {
      assert r[..k][0] == r[0];
      if !StartsWith(s, original) {
        var r1 := ReplaceAll(s[1..], original, token);
        assert r[..k] == [s[0]] + r1[..k - 1];
        assert r1[..k - 1] == r[..k][1..];
        RawPrefix(s[1..], original, token, k - 1);
        assert s[..k] == [s[0]] + s[1..][..k - 1];
      }
    }
  }

  lemma OccursLater(s: string, n: nat, q: string)
    requires n <= |s| && Occurs(s[n..], q)
    ensures Occurs(s, q)
  {
    var i: nat :| OccursAt(s[n..], q, i);
    assert s[n..][i..] == s[n + i..];
    assert OccursAt(s, q, n + i);
  }

  /** An occurrence in `token + rest` lies in one of the two when it has no bracket. */
  lemma OccursInToken(token: string, rest: string, q: string, i: nat)
    requires TokenShaped(token) && q != "" && Bracketless(q) && OccursAt(token + rest, q, i)
    ensures i + |q| <= |token| ==> OccursAt(token, q, i)
    ensures i + |q| > |token| ==> i >= |token| && OccursAt(rest, q, i - |token|)
  {
    var s := token + rest;
    assert s[i..][..|q|] == q && s[|token| - 1] == ']';
    assert forall j | i <= j < i + |q| :: s[j] == q[j - i];
    if i + |q| <= |token| {
      assert token[i..][..|q|] == s[i..][..|q|];
    } else {
      assert i >= |token|;
      assert rest[i - |token|..] == s[i..];
    }
  }

  /** One replacement removes its own value and brings back no value that was gone. */
  lemma {:induction false} ReplaceAllRemoves(s: string, original: string, token: string, q: string)
    requires original != "" && TokenShaped(token)
    requires q != "" && Bracketless(q) && !Occurs(token, q)
    requires q == original || !Occurs(s, q)
    ensures !Occurs(ReplaceAll(s, original, token), q)
    decreases |s|
  {
    var r := ReplaceAll(s, original, token);
    forall i: nat ensures !OccursAt(r, q, i) {
      if OccursAt(r, q, i) {
        if s == "" {
        } else if StartsWith(s, original) {
          var n := |original|;
          if Occurs(s[n..], q) { OccursLater(s, n, q); }
          ReplaceAllRemoves(s[n..], original, token, q);
          OccursInToken(token, ReplaceAll(s[n..], original, token), q, i);
        } else if i == 0 {
          assert r[0..] == r && r[..|q|] == q;
          RawPrefix(s, original, token, |q|);
          assert s[0..] == s;
          assert OccursAt(s, q, 0);
        } else {
          if Occurs(s[1..], q) { OccursLater(s, 1, q); }
          ReplaceAllRemoves(s[1..], original, token, q);
          assert r[i..] == ReplaceAll(s[1..], original, token)[i - 1..];
          assert OccursAt(ReplaceAll(s[1..], original, token), q, i - 1);
        }
      }
    }
  }

  /** In whatever order the pairs are replaced, a value that is gone stays gone. */
  lemma {:induction false} ReplacePairsKeepsAway(s: string, pairs: seq<Pair>, q: string)
    requires q != "" && Bracketless(q) && !Occurs(s, q)
    requires forall p | p in pairs :: p.original != "" && TokenShaped(p.token) && !Occurs(p.token, q)
    ensures !Occurs(ReplacePairs(s, pairs), q)
    decreases |pairs|
  {
    if pairs != [] {
      assert pairs[0] in pairs;
      ReplaceAllRemoves(s, pairs[0].original, pairs[0].token, q);
      ReplacePairsKeepsAway(ReplaceAll(s, pairs[0].original, pairs[0].token), pairs[1..], q);
    }
  }

  // ---------- When no value is ever left ----------

  /** The pairs as they are replaced: values without brackets, tokens in brackets. */
  predicate Shaped(pairs: seq<Pair>) {
    forall p | p in pairs :: p.original != "" && Bracketless(p.original) && TokenShaped(p.token)
  }

  /** The first pair with its value: the only one whose token can stand for it. */
  predicate FirstWithValue(pairs: seq<Pair>, i: nat)
    requires i < |pairs|
  {
    forall j | 0 <= j < i :: pairs[j].original != pairs[i].original
  }

  /** Replacing the later values in the token of pair `i` leaves no value in it. */
  ghost predicate TokenClean(pairs: seq<Pair>, i: nat)
    requires i < |pairs| && Shaped(pairs)
  {
    forall p | p in pairs :: !Occurs(ReplacePairs(pairs[i].token, pairs[i + 1..]), p.original)
  }

  /** The condition on the pairs alone, from pair `k` on. */
  ghost predicate TokensClean(pairs: seq<Pair>, k: nat)
    requires Shaped(pairs)
  {
    forall i | k <= i < |pairs| && FirstWithValue(pairs, i) :: TokenClean(pairs, i)
  }

  /** No value of the pairs occurs in the text. */
  ghost predicate Free(s: string, pairs: seq<Pair>) { forall p | p in pairs :: !Occurs(s, p.original) }

  /** A place that no value crosses. */
  predicate CutBetween(a: string, b: string) {
    a == "" || b == "" || IsBracket(a[|a| - 1]) || IsBracket(b[0])
  }

  lemma OccursAround(a: string, b: string, c: string, q: string)
    ensures Occurs(a, q) || Occurs(c, q) ==> Occurs(a + b + c, q)
  {
    var s := a + b + c;
    if i: nat :| OccursAt(a, q, i) {
      assert s[i..][..|q|] == a[i..][..|q|];
      assert OccursAt(s, q, i);
    }
    if Occurs(c, q) {
      assert s[|a + b|..] == c;
      OccursLater(s, |a + b|, q);
    }
  }

  lemma NoBracketInside(s: string, q: string, i: nat)
    requires Bracketless(q) && OccursAt(s, q, i)
    ensures i + |q| <= |s| && forall j | i <= j < i + |q| :: !IsBracket(s[j])
  {
    forall j | i <= j < i + |q| ensures !IsBracket(s[j]) { assert s[j] == s[i..][..|q|][j - i]; }
  }

  lemma NotAcross(a: string, b: string, q: string, i: nat)
    requires CutBetween(a, b) && q != "" && Bracketless(q) && OccursAt(a + b, q, i)
    ensures i + |q| <= |a| || |a| <= i
  {
    var s := a + b;
    NoBracketInside(s, q, i);
    hide IsBracket, Bracketless, OccursAt;
    assert a != "" ==> s[|a| - 1] == a[|a| - 1];
    assert b != "" ==> s[|a|] == b[0];
  }

  lemma OccursInPart(a: string, b: string, q: string)
    requires CutBetween(a, b) && q != "" && Bracketless(q)
    ensures Occurs(a + b, q) <==> Occurs(a, q) || Occurs(b, q)
  {
    var s := a + b;
    if i: nat :| OccursAt(s, q, i) {
      NotAcross(a, b, q, i);
      if i + |q| <= |a| {
        assert a[i..][..|q|] == s[i..][..|q|];
        assert OccursAt(a, q, i);
      } else {
        assert b[i - |a|..] == s[i..];
        assert OccursAt(b, q, i - |a|);
      }
    }
    OccursAround(a, "", b, q);
    assert a + "" + b == s;
  }

  lemma {:induction false} NothingReplaced(s: string, original: string, token: string)
    requires original != "" && !Occurs(s, original)
    ensures ReplaceAll(s, original, token) == s
    decreases |s|
  {
    if s != "" {
      assert s[0..] == s;
      assert !OccursAt(s, original, 0);
      if Occurs(s[1..], original) { OccursLater(s, 1, original); }
      NothingReplaced(s[1..], original, token);
    }
  }

  /** The first occurrence, and what replacing makes of it. */
  lemma {:induction false} FirstOccurrence(s: string, original: string, token: string) returns (i: nat)
    requires original != "" && Occurs(s, original)
    ensures i + |original| <= |s| && s == s[..i] + original + s[i + |original|..] && !Occurs(s[..i], original)
    ensures ReplaceAll(s, original, token) == s[..i] + (token + ReplaceAll(s[i + |original|..], original, token))
    decreases |s|
  {
    hide *;
    if StartsWith(s, original) {
      i := 0;
      OccursInFront(s, original, token);
    } else {
      OccursInRest(s, original);
      var k := FirstOccurrence(s[1..], original, token);
      i := k + 1;
      FirstOccurrenceShift(s, original, token, k);
    }
  }

  lemma OccursInFront(s: string, original: string, token: string)
    requires original != "" && StartsWith(s, original)
    ensures |original| <= |s| && s == s[..0] + original + s[|original|..] && !Occurs(s[..0], original)
    ensures ReplaceAll(s, original, token) == s[..0] + (token + ReplaceAll(s[|original|..], original, token))
  {
    assert s == original + s[|original|..];
    assert forall k: nat :: !OccursAt(s[..0], original, k);
  }

  lemma OccursInRest(s: string, original: string)
    requires original != "" && Occurs(s, original) && !StartsWith(s, original)
    ensures s != "" && Occurs(s[1..], original)
  {
    var j: nat :| OccursAt(s, original, j);
    assert s[0..] == s;
    assert s[1..][j - 1..] == s[j..];
    assert OccursAt(s[1..], original, j - 1);
  }

  lemma OccursTail(s: string, q: string)
    requires s != "" && q != ""
    ensures Occurs(s, q) ==> StartsWith(s, q) || Occurs(s[1..], q)
  {
    if i: nat :| OccursAt(s, q, i) {
      if i == 0 {
        assert s[0..] == s;
      } else {
        assert s[1..][i - 1..] == s[i..];
        assert OccursAt(s[1..], q, i - 1);
      }
    }
  }

  lemma FrontStarts(s: string, n: nat, q: string)
    requires n <= |s|
    ensures StartsWith(s[..n], q) ==> StartsWith(s, q)
  {
    if StartsWith(s[..n], q) { assert s[..n][..|q|] == s[..|q|]; }
  }

  lemma FirstOccurrenceShift(s: string, original: string, token: string, k: nat)
    requires original != "" && s != "" && !StartsWith(s, original) && k + |original| <= |s| - 1
    requires s[1..] == s[1..][..k] + original + s[1..][k + |original|..] && !Occurs(s[1..][..k], original)
    requires ReplaceAll(s[1..], original, token)
      == s[1..][..k] + (token + ReplaceAll(s[1..][k + |original|..], original, token))
    ensures s == s[..k + 1] + original + s[k + 1 + |original|..] && !Occurs(s[..k + 1], original)
    ensures ReplaceAll(s, original, token)
      == s[..k + 1] + (token + ReplaceAll(s[k + 1 + |original|..], original, token))
  {
    ReplaceFirst(s, original, token);
    hide *;
    ShiftedParts(s, original, k);
    OccursTail(s[..k + 1], original);
    FrontStarts(s, k + 1, original);
    Assoc([s[0]], s[1..][..k], token + ReplaceAll(s[k + 1 + |original|..], original, token));
  }

  lemma ReplaceFirst(s: string, original: string, token: string)
    requires original != "" && s != "" && !StartsWith(s, original)
    ensures ReplaceAll(s, original, token) == [s[0]] + ReplaceAll(s[1..], original, token)
  {
  }

  lemma ShiftedParts(s: string, q: string, k: nat)
    requires s != "" && k + |q| <= |s| - 1 && s[1..] == s[1..][..k] + q + s[1..][k + |q|..]
    ensures s[1..][k + |q|..] == s[k + 1 + |q|..] && s[..k + 1] == [s[0]] + s[1..][..k]
      && s[..k + 1][1..] == s[1..][..k]
    ensures s == s[..k + 1] + q + s[k + 1 + |q|..]
  {
    assert s == [s[0]] + s[1..];
  }

  /** Replacing keeps the brackets at the ends of a text. */
  lemma {:induction false} ReplacingKeepsEnds(s: string, original: string, token: string)
    requires original != "" && Bracketless(original) && TokenShaped(token)
    ensures s != "" && IsBracket(s[0]) ==>
      ReplaceAll(s, original, token) != "" && IsBracket(ReplaceAll(s, original, token)[0])
    ensures var r := ReplaceAll(s, original, token);
      s != "" && IsBracket(s[|s| - 1]) ==> r != "" && IsBracket(r[|r| - 1])
    decreases |s|
  {
    if s != "" {
      if StartsWith(s, original) {
        var rest := s[|original|..];
        assert s[0] == original[0] && forall j | 0 <= j < |original| :: s[j] == original[j];
        ReplacingKeepsEnds(rest, original, token);
      } else {
        ReplacingKeepsEnds(s[1..], original, token);
      }
    }
  }

  lemma StartsBeforeCut(a: string, b: string, q: string)
    requires CutBetween(a, b) && a != "" && q != "" && Bracketless(q)
    ensures StartsWith(a + b, q) <==> StartsWith(a, q)
  {
    var s := a + b;
    assert s[0..] == s;
    if OccursAt(s, q, 0) {
      NotAcross(a, b, q, 0);
      assert s[..|q|] == a[..|q|];
    }
    if StartsWith(a, q) { assert s[..|q|] == a[..|q|]; }
  }

  lemma CutLater(a: string, b: string, n: nat)
    requires CutBetween(a, b) && n <= |a|
    ensures CutBetween(a[n..], b) && (a + b)[n..] == a[n..] + b
  {
  }

  /** Both sides of a place that no value crosses are replaced on their own. */
  lemma {:induction false} ReplaceAllCut(a: string, b: string, original: string, token: string)
    requires CutBetween(a, b) && original != "" && Bracketless(original)
    ensures ReplaceAll(a + b, original, token) == ReplaceAll(a, original, token) + ReplaceAll(b, original, token)
    decreases |a|
  {
    var s := a + b;
    if a == "" {
      assert s == b;
    } else {
      hide Bracketless, CutBetween;
      StartsBeforeCut(a, b, original);
      var n := if StartsWith(a, original) then |original| else 1;
      CutLater(a, b, n);
      ReplaceAllCut(a[n..], b, original, token);
      assert s[0] == a[0];
      Assoc(if n == 1 && !StartsWith(a, original) then [a[0]] else token,
            ReplaceAll(a[n..], original, token), ReplaceAll(b, original, token));
    }
  }

  lemma {:induction false} ReplacePairsCut(a: string, b: string, pairs: seq<Pair>)
    requires CutBetween(a, b) && Shaped(pairs)
    ensures ReplacePairs(a + b, pairs) == ReplacePairs(a, pairs) + ReplacePairs(b, pairs)
    ensures CutBetween(ReplacePairs(a, pairs), ReplacePairs(b, pairs))
    decreases |pairs|
  {
    if pairs != [] {
      var p := pairs[0];
      assert p in pairs;
      ReplaceAllCut(a, b, p.original, p.token);
      ReplacingKeepsEnds(a, p.original, p.token);
      ReplacingKeepsEnds(b, p.original, p.token);
      ShapedFrom(pairs, 1);
      ReplacePairsCut(ReplaceAll(a, p.original, p.token), ReplaceAll(b, p.original, p.token), pairs[1..]);
    }
  }

  lemma ShapedFrom(pairs: seq<Pair>, k: nat)
    requires Shaped(pairs) && k <= |pairs|
    ensures Shaped(pairs[k..])
  {
    hide Bracketless, TokenShaped;
  }

  /** Replacing from pair `k` on starts with pair `k`. */
  lemma ReplaceFrom(s: string, pairs: seq<Pair>, k: nat)
    requires Shaped(pairs) && k < |pairs|
    ensures ReplacePairs(s, pairs[k..])
      == ReplacePairs(ReplaceAll(s, pairs[k].original, pairs[k].token), pairs[k + 1..])
  {
    hide ReplaceAll;
    assert pairs[k..][0] == pairs[k] && pairs[k..][1..] == pairs[k + 1..];
  }

  /** No value of an earlier pair occurs in the text. */
  ghost predicate EarlierGone(s: string, pairs: seq<Pair>, k: nat)
    requires k <= |pairs|
  {
    forall j | 0 <= j < k :: !Occurs(s, pairs[j].original)
  }

  lemma EarlierGoneInPart(a: string, b: string, c: string, pairs: seq<Pair>, k: nat)
    requires k <= |pairs| && EarlierGone(a + b + c, pairs, k)
    ensures EarlierGone(a, pairs, k) && EarlierGone(c, pairs, k)
  {
    forall j | 0 <= j < k ensures !Occurs(a, pairs[j].original) && !Occurs(c, pairs[j].original) {
      OccursAround(a, b, c, pairs[j].original);
    }
  }

  /** Three parts between which no value crosses are free of values when each is. */
  lemma FreeParts(a: string, t: string, b: string, pairs: seq<Pair>)
    requires Shaped(pairs) && Free(a, pairs) && Free(t, pairs) && Free(b, pairs)
    requires CutBetween(a, t) && CutBetween(a + t, b)
    ensures Free(a + t + b, pairs)
  {
    forall p | p in pairs ensures !Occurs(a + t + b, p.original) {
      OccursInPart(a, t, p.original);
      OccursInPart(a + t, b, p.original);
    }
  }

  lemma TokenBetween(a: string, t: string, b: string)
    requires TokenShaped(t)
    ensures CutBetween(a, t) && CutBetween(a + t, b)
  {
    assert (a + t)[|a + t| - 1] == t[|t| - 1];
  }

  /** Replacing around a token is replacing on both sides of it and inside it. */
  lemma ReplaceAroundToken(a: string, t: string, b: string, pairs: seq<Pair>)
    requires Shaped(pairs) && TokenShaped(t)
    ensures ReplacePairs(a + t + b, pairs) == ReplacePairs(a, pairs) + ReplacePairs(t, pairs) + ReplacePairs(b, pairs)
    ensures CutBetween(ReplacePairs(a, pairs), ReplacePairs(t, pairs))
    ensures CutBetween(ReplacePairs(a, pairs) + ReplacePairs(t, pairs), ReplacePairs(b, pairs))
  {
    TokenBetween(a, t, b);
    ReplacePairsCut(a, t, pairs);
    ReplacePairsCut(a + t, b, pairs);
  }

  /** When no token that is put in ends up with a value in it, no value is left. */
  lemma {:induction false} NothingLeft(s: string, pairs: seq<Pair>, k: nat)
    requires Shaped(pairs) && k <= |pairs| && TokensClean(pairs, k) && EarlierGone(s, pairs, k)
    ensures Free(ReplacePairs(s, pairs[k..]), pairs)
    decreases |pairs| - k, |s|
  {
    if k == |pairs| {
      assert pairs[k..] == [];
      forall p | p in pairs ensures !Occurs(s, p.original) {
        var j :| 0 <= j < |pairs| && pairs[j] == p;
      }
    } else {
      var q, t := pairs[k].original, pairs[k].token;
      ReplaceFrom(s, pairs, k);
      if Occurs(s, q) {
        SplitAtValue(s, pairs, k);
      } else {
        NothingReplaced(s, q, t);
        NothingLeft(s, pairs, k + 1);
      }
    }
  }

  lemma {:induction false} SplitAtValue(s: string, pairs: seq<Pair>, k: nat)
    requires Shaped(pairs) && k < |pairs| && TokensClean(pairs, k) && EarlierGone(s, pairs, k)
    requires Occurs(s, pairs[k].original)
    ensures Free(ReplacePairs(s, pairs[k..]), pairs)
    decreases |pairs| - k, |s|, 0
  {
    var q, t := pairs[k].original, pairs[k].token;
    var i := FirstOccurrence(s, q, t);
    var a, b := s[..i], s[i + |q|..];
    EarlierGoneInPart(a, q, b, pairs, k);
    assert FirstWithValue(pairs, k);
    assert TokenClean(pairs, k) && pairs[k] in pairs;
    NothingLeft(a, pairs, k + 1);
    NothingLeft(b, pairs, k);
    var later := pairs[k + 1..];
    ReplaceFrom(s, pairs, k);
    ReplaceFrom(b, pairs, k);
    ShapedFrom(pairs, k + 1);
    hide *;
    Assoc(a, t, ReplaceAll(b, q, t));
    ReplaceAroundToken(a, t, ReplaceAll(b, q, t), later);
    FreeParts(ReplacePairs(a, later), ReplacePairs(t, later), ReplacePairs(ReplaceAll(b, q, t), later), pairs);
  }

  predicate LongestOriginalFirst(pairs: seq<Pair>) {
    pairs == [] || ((forall q | q in pairs[1..] :: |q.original| <= |pairs[0].original|)
      && LongestOriginalFirst(pairs[1..]))
  }

  lemma {:induction false} LongerBefore(pairs: seq<Pair>, j: nat, i: nat)
    requires LongestOriginalFirst(pairs) && j <= i < |pairs|
    ensures |pairs[j].original| >= |pairs[i].original|
  {
    if j > 0 {
      LongerBefore(pairs[1..], j - 1, i - 1);
    } else if i > 0 {
      assert pairs[1..][i - 1] in pairs[1..];
    }
  }

  lemma LongerDoesNotOccur(s: string, q: string)
    requires |q| >= |s| && q != s
    ensures !Occurs(s, q)
  {
    assert s[0..] == s && s[..|s|] == s;
  }

  /** A value on its own becomes its token, which the later values may still change. */
  lemma {:induction false} ValueBecomesToken(pairs: seq<Pair>, i: nat, k: nat)
    requires Shaped(pairs) && LongestOriginalFirst(pairs) && k <= i < |pairs| && FirstWithValue(pairs, i)
    ensures ReplacePairs(pairs[i].original, pairs[k..]) == ReplacePairs(pairs[i].token, pairs[i + 1..])
    decreases i - k
  {
    var q := pairs[i].original;
    ReplaceFrom(q, pairs, k);
    assert pairs[k] in pairs;
    if k == i {
      assert q[|q|..] == "" && q[..|q|] == q && pairs[i].token + "" == pairs[i].token;
    } else {
      LongerBefore(pairs, k, i);
      LongerDoesNotOccur(q, pairs[k].original);
      NothingReplaced(q, pairs[k].original, pairs[k].token);
      ValueBecomesToken(pairs, i, k + 1);
    }
  }

  /** No text keeps a value. */
  ghost predicate NeverLeft(pairs: seq<Pair>)
    requires Shaped(pairs)
  {
    forall text :: Free(ReplacePairs(text, pairs), pairs)
  }

  lemma CleanIsNeeded(pairs: seq<Pair>, i: nat)
    requires Shaped(pairs) && LongestOriginalFirst(pairs) && i < |pairs| && FirstWithValue(pairs, i) && NeverLeft(pairs)
    ensures TokenClean(pairs, i)
  {
    hide ReplacePairs, Occurs, LongestOriginalFirst, FirstWithValue;
    assert pairs[0..] == pairs;
    ValueBecomesToken(pairs, i, 0);
    assert Free(ReplacePairs(pairs[i].original, pairs), pairs);
  }

  /** No value is left in any text exactly when the tokens that can be put in end up without values. */
  lemma NothingIsEverLeft(pairs: seq<Pair>)
    requires Shaped(pairs) && LongestOriginalFirst(pairs)
    ensures NeverLeft(pairs) <==> TokensClean(pairs, 0)
  {
    hide ReplacePairs, TokenClean, FirstWithValue, Free, LongestOriginalFirst;
    assert pairs[0..] == pairs;
    if TokensClean(pairs, 0) {
      forall text ensures Free(ReplacePairs(text, pairs), pairs) { NothingLeft(text, pairs, 0); }
    }
    if NeverLeft(pairs) {
      forall i | 0 <= i < |pairs| && FirstWithValue(pairs, i) ensures TokenClean(pairs, i) { CleanIsNeeded(pairs, i); }
    }
  }

  /** No token holds a value that is replaced before it or by it. */
  ghost predicate TokensBehindFree(pairs: seq<Pair>) {
    forall i, j | 0 <= j <= i < |pairs| :: !Occurs(pairs[i].token, pairs[j].original)
  }

  /** A condition that needs no replacing: values may occur in the tokens of longer values. */
  lemma {:induction false} TokensBehindFreeIsEnough(pairs: seq<Pair>, k: nat)
    requires Shaped(pairs) && k <= |pairs| && TokensBehindFree(pairs)
    ensures TokensClean(pairs, k)
    decreases |pairs| - k
  {
    if k < |pairs| {
      TokensBehindFreeIsEnough(pairs, k + 1);
      NothingLeft(pairs[k].token, pairs, k + 1);
    }
  }

  /** No value is part of any token. */
  ghost predicate Separate(pairs: seq<Pair>) {
    && Shaped(pairs)
    && (forall p, q | p in pairs && q in pairs :: !Occurs(p.token, q.original))
  }

  /** In whatever order the pairs are replaced, no value is left anywhere in the text. */
  lemma ReplacePairsRemovesAll(s: string, pairs: seq<Pair>, p: Pair)
    requires Separate(pairs) && p in pairs
    ensures !Occurs(ReplacePairs(s, pairs), p.original)
  {
    assert pairs[0..] == pairs;
    TokensBehindFreeIsEnough(pairs, 0);
    NothingLeft(s, pairs, 0);
  }
}
