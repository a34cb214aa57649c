/** Masking values that an error text may echo (pkg/domain/pii.go, MaskKnownOriginals). */
module MaskKnown {
  import opened Text
  import opened Mappings
  import opened Replacing

  // ---------- The loop over the mapping ----------

  function InsertByLength(p: Pair, sorted: seq<Pair>): (r: seq<Pair>)
    ensures forall q :: q in r <==> q == p || q in sorted
    ensures LongestOriginalFirst(sorted) ==> LongestOriginalFirst(r)
  {
    if sorted == [] || |p.original| >= |sorted[0].original| then
      assert forall q | q in sorted :: q == sorted[0] || q in sorted[1..];
      [p] + sorted
    else [sorted[0]] + InsertByLength(p, sorted[1..])
  }

  /** The pairs are the known tokens with a value, longest value first, equal lengths in any order. */
  ghost predicate ListsPairs(m: Mapping, pairs: seq<Pair>) {
    && (forall p :: p in pairs <==>
      p.token in m.tokenToOriginal && m.tokenToOriginal[p.token] == p.original && p.original != "")
    && LongestOriginalFirst(pairs)
  }

  method SortedPairs(mapping: PIIMapping) returns (pairs: seq<Pair>)
    ensures ListsPairs(mapping.View(), pairs)
  {
    pairs := [];
    var keys := mapping.tokenToOriginal.Keys;
    while keys != {}
      invariant keys <= mapping.tokenToOriginal.Keys
      invariant LongestOriginalFirst(pairs)
      invariant forall p :: p in pairs <==>
        p.token in mapping.tokenToOriginal.Keys - keys && mapping.tokenToOriginal[p.token] == p.original
          && p.original != ""
    {
      var token :| token in keys;
      keys := keys - {token};
      var original := mapping.tokenToOriginal[token];
      if original != "" {
        pairs := InsertByLength(Pair(token, original), pairs);
      }
    }
  }

  ghost predicate OriginalsBracketless(m: Mapping) {
    forall t | t in m.tokenToOriginal :: Bracketless(m.tokenToOriginal[t])
  }

  /** No known value, but the empty one, occurs in the text. */
  ghost predicate NoOriginal(m: Mapping, s: string) {
    forall t | t in m.tokenToOriginal && m.tokenToOriginal[t] != "" :: !Occurs(s, m.tokenToOriginal[t])
  }

  lemma ListedAreShaped(m: Mapping, pairs: seq<Pair>)
    requires m.WF() && ListsPairs(m, pairs) && OriginalsBracketless(m)
    ensures Shaped(pairs)
  {
    forall p | p in pairs ensures TokenShaped(p.token) { assert m.Issued(p.token); }
  }

  lemma FreeIsNoOriginal(m: Mapping, pairs: seq<Pair>, s: string)
    requires ListsPairs(m, pairs)
    ensures Free(s, pairs) <==> NoOriginal(m, s)
  {
    hide Occurs, LongestOriginalFirst;
    if Free(s, pairs) {
      forall t | t in m.tokenToOriginal && m.tokenToOriginal[t] != "" ensures !Occurs(s, m.tokenToOriginal[t]) {
        assert Pair(t, m.tokenToOriginal[t]) in pairs;
      }
    }
  }

  /** No text keeps a value when the pairs are taken in this order. */
  ghost predicate NeverKeeps(m: Mapping, pairs: seq<Pair>)
    requires forall p | p in pairs :: p.original != ""
  {
    forall text :: NoOriginal(m, ReplacePairs(text, pairs))
  }

  /** Whatever order equal lengths are taken in, no text keeps a value exactly when the tokens that can be put in
      end up without values. */
  lemma MaskingLeavesNothing(m: Mapping, pairs: seq<Pair>)
    requires m.WF() && ListsPairs(m, pairs) && OriginalsBracketless(m)
    ensures Shaped(pairs)
    ensures NeverKeeps(m, pairs) <==> TokensClean(pairs, 0)
  {
    ListedAreShaped(m, pairs);
    NothingIsEverLeft(pairs);
    hide ReplacePairs, Free, NoOriginal, TokensClean, ListsPairs;
    forall text ensures Free(ReplacePairs(text, pairs), pairs) <==> NoOriginal(m, ReplacePairs(text, pairs)) {
      FreeIsNoOriginal(m, pairs, ReplacePairs(text, pairs));
    }
    if NeverLeft(pairs) {
      forall text ensures NoOriginal(m, ReplacePairs(text, pairs)) { assert Free(ReplacePairs(text, pairs), pairs); }
    }
    if NeverKeeps(m, pairs) {
      forall text ensures Free(ReplacePairs(text, pairs), pairs) { assert NoOriginal(m, ReplacePairs(text, pairs)); }
    }
  }

  /** Replaces known values by their tokens, longest value first. Values without brackets are gone whenever the tokens
      that can be put in end up without values. */
  method MaskKnownOriginals(text: string, mapping: PIIMapping) returns (out: string, ghost pairs: seq<Pair>)
    requires mapping.View().WF()
    ensures ListsPairs(mapping.View(), pairs) && (forall p | p in pairs :: p.original != "")
    ensures out == ReplacePairs(text, pairs)
    ensures OriginalsBracketless(mapping.View()) ==>
      Shaped(pairs) && (TokensClean(pairs, 0) ==> NoOriginal(mapping.View(), out))
    ensures OriginalsBracketless(mapping.View()) && TokensBehindFree(pairs) ==> NoOriginal(mapping.View(), out)
    ensures OriginalsSeparate(mapping.View()) ==> NoOriginal(mapping.View(), out)
  {
    ghost var m := mapping.View();
    var sorted := SortedPairs(mapping);
    pairs := sorted;
    if OriginalsBracketless(m) { LeftWhenClean(m, text, pairs); }
    out := text;
    for i := 0 to |sorted|
      invariant ReplacePairs(out, sorted[i..]) == ReplacePairs(text, sorted)
    {
      assert sorted[i..][0] == sorted[i] && sorted[i..][1..] == sorted[i + 1..];
      out := ReplaceAll(out, sorted[i].original, sorted[i].token);
    }
  }

  /** No value is part of any token. */
  ghost predicate OriginalsSeparate(m: Mapping) {
    && OriginalsBracketless(m)
    && (forall t, u | t in m.tokenToOriginal && u in m.tokenToOriginal && m.tokenToOriginal[u] != "" ::
          !Occurs(t, m.tokenToOriginal[u]))
  }

  lemma LeftWhenClean(m: Mapping, text: string, pairs: seq<Pair>)
    requires m.WF() && ListsPairs(m, pairs) && OriginalsBracketless(m)
    ensures Shaped(pairs)
    ensures TokensClean(pairs, 0) ==> NoOriginal(m, ReplacePairs(text, pairs))
    ensures TokensBehindFree(pairs) ==> TokensClean(pairs, 0)
    ensures OriginalsSeparate(m) ==> TokensBehindFree(pairs)
  {
    MaskingLeavesNothing(m, pairs);
    if TokensBehindFree(pairs) { TokensBehindFreeIsEnough(pairs, 0); }
    if OriginalsSeparate(m) {
      forall i, j | 0 <= j <= i < |pairs| ensures !Occurs(pairs[i].token, pairs[j].original) {
        assert pairs[i] in pairs && pairs[j] in pairs;
      }
    }
  }

  // ---------- On mappings that requests can build ----------

  function FirstToken(t: string): string { TokenOf(t, 1) }

  lemma FirstRequest(m: Mapping, t: string, original: string)
    requires t !in m.counters && KeyOf(t, original) !in m.originalToToken
    ensures var m' := m.Assign(t, original);
      && m'.tokenToOriginal == m.tokenToOriginal[FirstToken(t) := original]
      && m'.originalToToken == m.originalToToken[KeyOf(t, original) := FirstToken(t)]
      && m'.counters == m.counters[t := 1]
  {
    hide TokenOf, KeyOf, Mapping.BindAliases;
    var token := TokenOf(t, 1);
    BindAliasesFrame(
      m.(counters := m.counters[t := 1], originalToToken := m.originalToToken[KeyOf(t, original) := token],
         tokenToOriginal := m.tokenToOriginal[token := original]), token, t, 1);
  }

  lemma OneRequest(t: string, a: string)
    ensures var m := Empty().Assign(t, a);
      && m.tokenToOriginal == map[FirstToken(t) := a] && m.counters == map[t := 1]
      && m.originalToToken == map[KeyOf(t, a) := FirstToken(t)]
  {
    hide FirstToken, KeyOf, Mapping.Assign;
    FirstRequest(Empty(), t, a);
  }

  lemma TwoAsks(p: Ask, q: Ask)
    ensures AssignAll(Empty(), [p, q]) == Empty().Assign(p.entityType, p.original).Assign(q.entityType, q.original)
  {
    hide Mapping.Assign;
    var m1 := Empty().Assign(p.entityType, p.original);
    assert [p, q][1..] == [q] && [q][1..] == [];
    assert AssignAll(m1, [q]) == m1.Assign(q.entityType, q.original);
  }

  /** Two requests of different types, from the start. */
  lemma TwoRequests(t: string, a: string, u: string, b: string)
    requires ValidType(t) && ValidType(u) && t != u
    ensures var m := AssignAll(Empty(), [Ask(t, a), Ask(u, b)]);
      m.WF() && m.tokenToOriginal == map[FirstToken(t) := a, FirstToken(u) := b] && FirstToken(t) != FirstToken(u)
  {
    EmptyWF();
    assert forall k | 0 <= k < 2 :: ValidType([Ask(t, a), Ask(u, b)][k].entityType);
    hide Mapping.WF, Mapping.Assign, AssignAll, ValidType, KeyOf, TokenOf;
    AssignAllKeepsWF(Empty(), [Ask(t, a), Ask(u, b)]);
    TwoAsks(Ask(t, a), Ask(u, b));
    OneRequest(t, a);
    if KeyOf(u, b) == KeyOf(t, a) { KeyInjective(t, a, u, b); }
    FirstRequest(Empty().Assign(t, a), u, b);
    if FirstToken(t) == FirstToken(u) { TokenInjective(t, 1, u, 1); }
  }

  lemma TwoInOrder(p: Pair, q: Pair)
    requires |p.original| >= |q.original|
    ensures LongestOriginalFirst([p, q])
  {
    assert [p, q][1..] == [q] && [q][1..] == [];
  }

  lemma TwoAreListed(m: Mapping, p: Pair, q: Pair)
    requires m.tokenToOriginal == map[p.token := p.original, q.token := q.original] && p.token != q.token
    requires p.original != "" && q.original != "" && |p.original| >= |q.original|
    requires Bracketless(p.original) && Bracketless(q.original)
    ensures ListsPairs(m, [p, q]) && OriginalsBracketless(m)
    ensures forall s :: NoOriginal(m, s) <==> !Occurs(s, p.original) && !Occurs(s, q.original)
  {
    TwoInOrder(p, q);
    hide Occurs, Bracketless, LongestOriginalFirst;
    assert forall x :: x in [p, q] <==> x == p || x == q;
    assert m.tokenToOriginal[p.token] == p.original && m.tokenToOriginal[q.token] == q.original;
    assert forall t | t in m.tokenToOriginal :: t == p.token || t == q.token;
    forall x: Pair ensures x in [p, q] <==>
      x.token in m.tokenToOriginal && m.tokenToOriginal[x.token] == x.original && x.original != ""
    {
      assert x == Pair(x.token, x.original) && p == Pair(p.token, p.original) && q == Pair(q.token, q.original);
    }
  }

  lemma NothingToReplace(s: string)
    ensures ReplacePairs(s, []) == s
  {
  }

  /** A value that is part of the token of a value that is not longer comes back with that token. */
  lemma LaterTokenBringsValueBack(t: string, a: string, u: string, b: string)
    requires ValidType(t) && ValidType(u) && t != u && Bracketless(a) && Bracketless(b)
    requires |a| >= |b| > 0 && a != b && Occurs(FirstToken(u), a)
    ensures var m := AssignAll(Empty(), [Ask(t, a), Ask(u, b)]);
      var pairs := [Pair(FirstToken(t), a), Pair(FirstToken(u), b)];
      m.WF() && OriginalsBracketless(m) && ListsPairs(m, pairs) && !NoOriginal(m, ReplacePairs(b, pairs))
  {
    NothingToReplace(FirstToken(u));
    hide Mapping.WF, ReplacePairs, TokenOf, ValidType, Occurs, AssignAll, LongestOriginalFirst, Bracketless;
    var m := AssignAll(Empty(), [Ask(t, a), Ask(u, b)]);
    var p, q := Pair(FirstToken(t), a), Pair(FirstToken(u), b);
    TwoRequests(t, a, u, b);
    TwoAreListed(m, p, q);
    ListedAreShaped(m, [p, q]);
    assert [p, q][0..] == [p, q] && [p, q][2..] == [];
    ValueBecomesToken([p, q], 1, 0);
  }

  lemma TypeIsInToken(t: string, q: string)
    requires StartsWith(t, q)
    ensures Occurs(FirstToken(t), q)
  {
    var token := FirstToken(t);
    assert forall i | 0 <= i < |t| :: token[i + 1] == t[i];
    assert token[1..][..|q|] == t[..|q|];
    assert OccursAt(token, q, 1);
  }

  /** Masking `Bob` puts in a token that holds the value `PERSON`. */
  lemma TokenBringsValueBack()
    ensures var m := AssignAll(Empty(), [Ask("ORG", "PERSON"), Ask("PERSON", "Bob")]);
      var pairs := [Pair(FirstToken("ORG"), "PERSON"), Pair(FirstToken("PERSON"), "Bob")];
      && m.WF() && OriginalsBracketless(m) && ListsPairs(m, pairs) && !NoOriginal(m, ReplacePairs("Bob", pairs))
  {
    assert "PERSON"[..6] == "PERSON";
    TypeIsInToken("PERSON", "PERSON");
    LaterTokenBringsValueBack("ORG", "PERSON", "PERSON", "Bob");
  }

  /** A value that is only part of the token of a longer value does no harm. */
  lemma EarlierTokenIsHarmless(t: string, a: string, u: string, b: string)
    requires ValidType(t) && ValidType(u) && t != u && Bracketless(a) && Bracketless(b) && |a| >= |b| > 0
    requires !Occurs(FirstToken(t), a) && !Occurs(FirstToken(u), a) && !Occurs(FirstToken(u), b)
    ensures var m := AssignAll(Empty(), [Ask(t, a), Ask(u, b)]);
      var pairs := [Pair(FirstToken(t), a), Pair(FirstToken(u), b)];
      ListsPairs(m, pairs) && NeverKeeps(m, pairs)
    ensures Occurs(FirstToken(t), b) ==> !OriginalsSeparate(AssignAll(Empty(), [Ask(t, a), Ask(u, b)]))
  {
    var m := AssignAll(Empty(), [Ask(t, a), Ask(u, b)]);
    var p, q := Pair(FirstToken(t), a), Pair(FirstToken(u), b);
    TwoRequests(t, a, u, b);
    TwoAreListed(m, p, q);
    assert TokensBehindFree([p, q]);
    LeftWhenClean(m, "", [p, q]);
    MaskingLeavesNothing(m, [p, q]);
    assert m.tokenToOriginal[p.token] == a && m.tokenToOriginal[q.token] == b;
  }

  lemma LettersOccur(s: string, q: string)
    requires q != "" && Occurs(s, q)
    ensures q[0] in s
  {
    var i: nat :| OccursAt(s, q, i);
    assert s[i] == s[i..][..|q|][0];
  }

  /** The value `PER` is part of the token that stands for `Robert Smith`, and yet no text keeps a value. */
  lemma SeparationIsNotNeeded()
    ensures var m := AssignAll(Empty(), [Ask("PERSON", "Robert Smith"), Ask("ORG", "PER")]);
      var pairs := [Pair(FirstToken("PERSON"), "Robert Smith"), Pair(FirstToken("ORG"), "PER")];
      !OriginalsSeparate(m) && ListsPairs(m, pairs) && NeverKeeps(m, pairs)
  {
    var token, other := FirstToken("PERSON"), FirstToken("ORG");
    assert Decimal(1) == "1" && |token| == 10 && other == "[ORG_1]";
    assert "PERSON"[..3] == "PER";
    TypeIsInToken("PERSON", "PER");
    LongerDoesNotOccur(token, "Robert Smith");
    LongerDoesNotOccur(other, "Robert Smith");
    if Occurs(other, "PER") { LettersOccur(other, "PER"); }
    EarlierTokenIsHarmless("PERSON", "Robert Smith", "ORG", "PER");
  }
}
