/** Which value the bracketless spelling of a token stands for (pkg/domain/pii.go, registerTokenAliases):
    short type names make two types compete for one spelling, and the first token wins. */
module BareSpelling {
  import opened Wrappers
  import opened Text
  import opened Mappings
  import opened Unmasking

  /** The tokens of type `u` want the bracketless spelling of `t`. */
  predicate Shares(u: string, t: string) { u == t || TypeAlias(u) == t }

  /** Some token with number `n` wants the bracketless spelling t_n. */
  ghost predicate Claimed(m: Mapping, t: string, n: nat) {
    exists u :: ValidType(u) && Shares(u, t) && m.Counter(u) >= n
  }

  ghost predicate OwnedBy(m: Mapping, t: string, n: nat, u: string) {
    ValidType(u) && Shares(u, t) && BareToken(t, n) in m.tokenAliases
      && m.tokenAliases[BareToken(t, n)] == TokenOf(u, n)
  }

  /** A bracketless spelling is bound exactly when it is claimed, and then to a token that claims it. */
  ghost predicate ClaimsOk(m: Mapping, t: string, n: nat) {
    && (BareToken(t, n) in m.tokenAliases <==> Claimed(m, t, n))
    && (BareToken(t, n) in m.tokenAliases ==> exists u :: OwnedBy(m, t, n, u))
  }

  // ---------- One request ----------

  lemma BindEffect(m: Mapping, alias: string, canonical: string, a: string)
    ensures var m' := m.BindAlias(alias, canonical);
      && (a in m.tokenAliases ==> a in m'.tokenAliases && m'.tokenAliases[a] == m.tokenAliases[a])
      && (a !in m.tokenAliases ==>
            (a in m'.tokenAliases <==> a == alias && a != "" && a != canonical)
            && (a in m'.tokenAliases ==> m'.tokenAliases[a] == canonical))
  {
    hide Normalize;
  }

  /** Binding the aliases of [u_k] binds t_n exactly when it wants it, and then to itself. */
  lemma BindsBare(m: Mapping, u: string, k: nat, t: string, n: nat)
    requires ValidType(u) && ValidType(t) && BareToken(t, n) !in m.tokenAliases
    ensures var m' := m.BindAliases(TokenOf(u, k), u, k); var bare := BareToken(t, n);
      && (bare in m'.tokenAliases <==> k == n && Shares(u, t))
      && (bare in m'.tokenAliases ==> m'.tokenAliases[bare] == TokenOf(u, n))
  {
    var bare, token, short := BareToken(t, n), TokenOf(u, k), TypeAlias(u);
    BareTokenShape(u, k);
    BareTokenShape(t, n);
    NoBareIsToken(t, n, u, k);
    NoBareIsToken(t, n, short, k);
    if bare == BareToken(u, k) { BareTokenInjective(t, n, u, k); }
    if bare == BareToken(short, k) { BareTokenInjective(t, n, short, k); }
    hide BareToken, TokenOf, TypeAlias, TrimBrackets, Mapping.BindAlias;
    var m1 := m.BindAlias(TrimBrackets(token), token);
    var m2 := m1.BindAlias(TokenOf(short, k), token);
    BindEffect(m, TrimBrackets(token), token, bare);
    BindEffect(m1, TokenOf(short, k), token, bare);
    BindEffect(m2, BareToken(short, k), token, bare);
  }

  lemma NoBareIsToken(t: string, n: nat, u: string, k: nat)
    requires ValidType(t)
    ensures BareToken(t, n) != TokenOf(u, k) && BareToken(t, n) != ""
  {
    assert BareToken(t, n)[0] == t[0] && IsTypeChar(t[0]) && TokenOf(u, k)[0] == '[';
  }

  lemma NewClaim(m: Mapping, m': Mapping, u: string, t: string, n: nat)
    requires ValidType(u) && m'.counters == m.counters[u := m.Counter(u) + 1] && !Claimed(m, t, n)
    ensures Claimed(m', t, n) <==> n == m.Counter(u) + 1 && Shares(u, t)
  {
    hide Shares;
    assert m'.Counter(u) == m.Counter(u) + 1;
    if Claimed(m', t, n) {
      var v :| ValidType(v) && Shares(v, t) && m'.Counter(v) >= n;
      assert v != u ==> m'.Counter(v) == m.Counter(v);
    }
  }

  lemma OldClaim(m: Mapping, m': Mapping, u: string, t: string, n: nat)
    requires m'.counters == m.counters[u := m.Counter(u) + 1] && Claimed(m, t, n)
    ensures Claimed(m', t, n)
  {
    hide Shares;
    var v :| ValidType(v) && Shares(v, t) && m.Counter(v) >= n;
    assert m'.Counter(v) >= n;
  }

  lemma ClaimsStay(m: Mapping, m': Mapping, u: string, t: string, n: nat)
    requires Extends(m, m') && m'.counters == m.counters[u := m.Counter(u) + 1]
    requires ClaimsOk(m, t, n) && BareToken(t, n) in m.tokenAliases
    ensures ClaimsOk(m', t, n) && m'.tokenAliases[BareToken(t, n)] == m.tokenAliases[BareToken(t, n)]
  {
    hide Shares, BareToken, TokenOf;
    OldClaim(m, m', u, t, n);
    var v :| OwnedBy(m, t, n, v);
    assert OwnedBy(m', t, n, v);
  }

  /** One request that issues [u_k]. */
  lemma ClaimsStep(m: Mapping, u: string, original: string, t: string, n: nat)
    requires m.WF() && ValidType(u) && ValidType(t) && n > 0 && ClaimsOk(m, t, n)
    ensures ClaimsOk(m.Assign(u, original), t, n)
    ensures var m' := m.Assign(u, original); var bare := BareToken(t, n);
      bare !in m.tokenAliases && bare in m'.tokenAliases ==> m'.tokenAliases[bare] == TokenOf(u, n)
  {
    AssignKeepsWF(m, u, original);
    if KeyOf(u, original) !in m.originalToToken {
      var k := m.Counter(u) + 1;
      var m1 := m.(counters := m.counters[u := k],
        originalToToken := m.originalToToken[KeyOf(u, original) := TokenOf(u, k)],
                   tokenToOriginal := m.tokenToOriginal[TokenOf(u, k) := original]);
      var m' := m1.BindAliases(TokenOf(u, k), u, k);
      assert m' == m.Assign(u, original);
      BindAliasesFrame(m1, TokenOf(u, k), u, k);
      hide Mapping.WF, Mapping.BindAliases, TokenOf, BareToken, Shares, Extends, ValidType, Mapping.Assign;
      if BareToken(t, n) in m.tokenAliases {
        ClaimsStay(m, m', u, t, n);
      } else {
        BindsBare(m1, u, k, t, n);
        NewClaim(m, m', u, t, n);
        if BareToken(t, n) in m'.tokenAliases { assert OwnedBy(m', t, n, u); }
      }
    }
  }

  // ---------- Every run of requests ----------

  predicate ValidAsks(asks: seq<Ask>) { forall k | 0 <= k < |asks| :: ValidType(asks[k].entityType) }

  /** The mapping after the first `i` requests. */
  function MappingAt(asks: seq<Ask>, i: nat): Mapping
    requires i <= |asks|
  {
    AssignAll(Empty(), asks[..i])
  }

  lemma {:induction false} AssignSnoc(m: Mapping, asks: seq<Ask>, ask: Ask)
    ensures AssignAll(m, asks + [ask]) == AssignAll(m, asks).Assign(ask.entityType, ask.original)
    decreases |asks|
  {
    hide Mapping.Assign;
    if asks == [] {
      assert asks + [ask] == [ask] && [ask][1..] == [];
    } else {
      assert (asks + [ask])[1..] == asks[1..] + [ask];
      AssignSnoc(m.Assign(asks[0].entityType, asks[0].original), asks[1..], ask);
    }
  }

  lemma NextMapping(asks: seq<Ask>, i: nat)
    requires i < |asks| && ValidAsks(asks)
    ensures MappingAt(asks, i + 1) == MappingAt(asks, i).Assign(asks[i].entityType, asks[i].original)
    ensures MappingAt(asks, i).WF() && ValidType(asks[i].entityType)
  {
    assert asks[..i + 1] == asks[..i] + [asks[i]];
    AssignSnoc(Empty(), asks[..i], asks[i]);
    EmptyWF();
    AssignAllKeepsWF(Empty(), asks[..i]);
  }

  lemma NothingClaimed(t: string, n: nat)
    requires n > 0
    ensures ClaimsOk(Empty(), t, n)
  {
  }

  lemma {:induction false} ClaimsAt(asks: seq<Ask>, i: nat, t: string, n: nat)
    requires ValidAsks(asks) && i <= |asks| && ValidType(t) && n > 0
    ensures ClaimsOk(MappingAt(asks, i), t, n)
  {
    if i == 0 {
      assert asks[..0] == [];
      NothingClaimed(t, n);
    } else {
      hide ClaimsOk, Mapping.WF, MappingAt, ValidType;
      ClaimsAt(asks, i - 1, t, n);
      NextMapping(asks, i - 1);
      ClaimsStep(MappingAt(asks, i - 1), asks[i - 1].entityType, asks[i - 1].original, t, n);
    }
  }

  /** Request `i` is the one that issues [t_n]. */
  predicate IssuedAt(asks: seq<Ask>, i: nat, t: string, n: nat) {
    i < |asks| && n > 0 && MappingAt(asks, i).Counter(t) == n - 1 && MappingAt(asks, i + 1).Counter(t) == n
  }

  /** Every token of a run was issued by one of its requests. */
  lemma {:induction false} WasIssued(asks: seq<Ask>, k: nat, t: string, n: nat) returns (i: nat)
    requires ValidAsks(asks) && k <= |asks| && 1 <= n <= MappingAt(asks, k).Counter(t)
    ensures i < k && IssuedAt(asks, i, t, n)
    decreases k
  {
    NothingCounted(asks, t);
    hide MappingAt, Mapping.Assign, Mapping.WF, Mapping.Counter, ValidType;
    NextMapping(asks, k - 1);
    CounterStep(MappingAt(asks, k - 1), asks[k - 1].entityType, asks[k - 1].original, t);
    if MappingAt(asks, k - 1).Counter(t) >= n { i := WasIssued(asks, k - 1, t, n); } else { i := k - 1; }
  }

  lemma NothingCounted(asks: seq<Ask>, t: string)
    ensures MappingAt(asks, 0).Counter(t) == 0
  {
    assert asks[..0] == [];
  }

  lemma CounterStep(m: Mapping, u: string, original: string, t: string)
    ensures var m' := m.Assign(u, original);
      m'.Counter(t) == m.Counter(t)
        || (m'.Counter(t) == m.Counter(t) + 1 && u == t && KeyOf(u, original) !in m.originalToToken)
  {
    hide Mapping.BindAliases, TokenOf, KeyOf;
    var k := m.Counter(u) + 1;
    BindAliasesFrame(
      m.(counters := m.counters[u := k], originalToToken := m.originalToToken[KeyOf(u, original) := TokenOf(u, k)],
         tokenToOriginal := m.tokenToOriginal[TokenOf(u, k) := original]), TokenOf(u, k), u, k);
  }

  lemma {:induction false} LaterExtends(asks: seq<Ask>, i: nat, k: nat)
    requires ValidAsks(asks) && i < k <= |asks|
    ensures Extends(MappingAt(asks, i + 1), MappingAt(asks, k))
    decreases k
  {
    hide MappingAt, Mapping.Assign, Mapping.WF, Extends, ValidType;
    if k == i + 1 {
      ExtendsItself(MappingAt(asks, k));
    } else {
      NextMapping(asks, k - 1);
      AssignKeepsWF(MappingAt(asks, k - 1), asks[k - 1].entityType, asks[k - 1].original);
      LaterExtends(asks, i, k - 1);
      ExtendsTransitive(MappingAt(asks, i + 1), MappingAt(asks, k - 1), MappingAt(asks, k));
    }
  }

  lemma AliasStays(m: Mapping, m': Mapping, a: string)
    requires Extends(m, m') && a in m.tokenAliases
    ensures a in m'.tokenAliases && m'.tokenAliases[a] == m.tokenAliases[a]
  {
  }

  lemma IssuedIsBound(m: Mapping, t: string, n: nat)
    requires m.WF() && ValidType(t) && 1 <= n <= m.Counter(t)
    ensures BareToken(t, n) in m.tokenAliases
  {
    assert m.BareBound(t, n);
  }

  /** A token that was not issued yet owns no spelling. */
  lemma OwnerIsIssued(m: Mapping, t: string, n: nat, u: string)
    requires m.WF() && n > 0 && OwnedBy(m, t, n, u)
    ensures n <= m.Counter(u)
  {
    hide BareToken;
    assert m.tokenAliases[BareToken(t, n)] in m.tokenToOriginal;
    TokensOfType(m, u, n);
  }

  /** What the request that issues [t_n] decides. */
  lemma OwnAtIssue(before: Mapping, after: Mapping, t: string, n: nat)
    requires before.WF() && after.WF() && Extends(before, after) && ValidType(t)
    requires n > 0 && before.Counter(t) == n - 1 && after.Counter(t) == n
    requires ClaimsOk(before, t, n)
    requires BareToken(t, n) !in before.tokenAliases && BareToken(t, n) in after.tokenAliases ==>
      after.tokenAliases[BareToken(t, n)] == TokenOf(t, n)
    ensures var bare := BareToken(t, n);
      && bare in after.tokenAliases
      && (after.tokenAliases[bare] == TokenOf(t, n) <==>
            forall u | ValidType(u) && u != t && TypeAlias(u) == t :: before.Counter(u) < n)
      && (after.tokenAliases[bare] != TokenOf(t, n) ==>
            exists u :: ValidType(u) && u != t && TypeAlias(u) == t && after.tokenAliases[bare] == TokenOf(u, n))
  {
    var bare := BareToken(t, n);
    IssuedIsBound(after, t, n);
    hide Mapping.WF, BareToken, TokenOf, TypeAlias;
    if bare in before.tokenAliases {
      AliasStays(before, after, bare);
      var u :| OwnedBy(before, t, n, u);
      OwnerIsIssued(before, t, n, u);
      if TokenOf(u, n) == TokenOf(t, n) { TokenInjective(u, n, t, n); }
      assert u != t && Shares(u, t);
    } else {
      assert !Claimed(before, t, n);
      forall u | ValidType(u) && u != t && TypeAlias(u) == t ensures before.Counter(u) < n { assert Shares(u, t); }
    }
  }

  /** Over every run: the bracketless spelling t_n stands for [t_n] exactly when no type whose short name is `t` had
      number `n` when [t_n] was issued. Otherwise it stands for the token of such a type. */
  lemma BareSpellingIsOwn(asks: seq<Ask>, i: nat, t: string, n: nat)
    requires ValidAsks(asks) && ValidType(t) && IssuedAt(asks, i, t, n)
    ensures var m, before := MappingAt(asks, |asks|), MappingAt(asks, i); var bare := BareToken(t, n);
      && bare in m.tokenAliases
      && (m.tokenAliases[bare] == TokenOf(t, n) <==>
            forall u | ValidType(u) && u != t && TypeAlias(u) == t :: before.Counter(u) < n)
      && (m.tokenAliases[bare] != TokenOf(t, n) ==>
            exists u :: ValidType(u) && u != t && TypeAlias(u) == t && m.tokenAliases[bare] == TokenOf(u, n))
  {
    NextMapping(asks, i);
    CounterStep(MappingAt(asks, i), asks[i].entityType, asks[i].original, t);
    ClaimsAt(asks, i, t, n);
    LaterExtends(asks, i, |asks|);
    var before, after, m, bare := MappingAt(asks, i), MappingAt(asks, i + 1), MappingAt(asks, |asks|), BareToken(t, n);
    ClaimsStep(before, t, asks[i].original, t, n);
    AssignKeepsWF(before, t, asks[i].original);
    hide *;
    OwnAtIssue(before, after, t, n);
    AliasStays(after, m, bare);
  }

  /** On its own the spelling restores the value of the token it stands for. */
  lemma SpellingRestores(m: Mapping, t: string, n: nat)
    requires m.WF() && ValidType(t) && 1 <= n <= m.Counter(t)
    ensures var bare := BareToken(t, n);
      bare in m.tokenAliases && m.tokenAliases[bare] in m.tokenToOriginal
      && Unmask(m, bare) == m.tokenToOriginal[m.tokenAliases[bare]]
  {
    var bare := BareToken(t, n);
    BareTokenShape(t, n);
    IssuedIsBound(m, t, n);
    NoBareIsToken(t, n, t, n);
    FoldType(bare);
    BareIsUnknownToken(m, bare);
    hide BareToken, Mapping.WF;
    assert forall k | 0 <= k < |bare| :: IsWordChar(bare[k]);
    assert bare[..|bare|] == bare && bare[|bare|..] == "";
    RunLenUnique(bare, |bare|);
    RunItem(m, bare);
    UnmaskFirst(m, bare, |bare|);
    NothingToRestore(m);
    assert !StartsOpen(bare);
  }

  lemma BareIsUnknownToken(m: Mapping, bare: string)
    requires m.WF() && bare != "" && AllType(bare)
    ensures bare !in m.tokenToOriginal
  {
    assert IsTypeChar(bare[0]);
    TokensStartOpen(m);
  }

  lemma TokensStartOpen(m: Mapping)
    requires m.WF()
    ensures forall token | token in m.tokenToOriginal :: token != "" && token[0] == '['
  {
    forall token | token in m.tokenToOriginal ensures token != "" && token[0] == '[' { assert m.Issued(token); }
  }

  /** Over every run: a token without its brackets restores its own value unless a type with that short name was
      faster. */
  lemma BareTokenRestoresItsValue(asks: seq<Ask>, i: nat, t: string, n: nat)
    requires ValidAsks(asks) && ValidType(t) && IssuedAt(asks, i, t, n)
    requires forall u | ValidType(u) && u != t && TypeAlias(u) == t :: MappingAt(asks, i).Counter(u) < n
    ensures asks[i].entityType == t && Unmask(MappingAt(asks, |asks|), BareToken(t, n)) == asks[i].original
  {
    var m := MappingAt(asks, |asks|);
    BareSpellingIsOwn(asks, i, t, n);
    FinalMapping(asks);
    StillCounted(asks, i, t, n);
    hide *;
    SpellingRestores(m, t, n);
  }

  lemma FinalMapping(asks: seq<Ask>)
    requires ValidAsks(asks)
    ensures MappingAt(asks, |asks|).WF()
  {
    assert asks[..|asks|] == asks;
    EmptyWF();
    AssignAllKeepsWF(Empty(), asks);
  }

  lemma IssuedValue(m: Mapping, t: string, original: string)
    requires m.WF() && ValidType(t) && KeyOf(t, original) !in m.originalToToken
    ensures var m', token := m.Assign(t, original), TokenOf(t, m.Counter(t) + 1);
      token in m'.tokenToOriginal && m'.tokenToOriginal[token] == original && m'.Counter(t) == m.Counter(t) + 1
  {
    AssignIssues(m, t, original);
    hide TokenOf, KeyOf, Mapping.Assign, Mapping.WF;
  }

  /** A token that was issued keeps its number and its value. */
  lemma StillCounted(asks: seq<Ask>, i: nat, t: string, n: nat)
    requires ValidAsks(asks) && ValidType(t) && IssuedAt(asks, i, t, n)
    ensures var m := MappingAt(asks, |asks|);
      && asks[i].entityType == t && 1 <= n <= m.Counter(t)
      && TokenOf(t, n) in m.tokenToOriginal && m.tokenToOriginal[TokenOf(t, n)] == asks[i].original
  {
    var before, after, m := MappingAt(asks, i), MappingAt(asks, i + 1), MappingAt(asks, |asks|);
    NextMapping(asks, i);
    CounterStep(before, asks[i].entityType, asks[i].original, t);
    FinalMapping(asks);
    LaterExtends(asks, i, |asks|);
    hide MappingAt, Mapping.WF, Mapping.Assign, TokenOf, KeyOf, ValidType;
    IssuedValue(before, t, asks[i].original);
    TokensOfType(m, t, n);
  }

  /** The first request of a type gets number 1. */
  lemma FirstOfType(asks: seq<Ask>, i: nat)
    requires ValidAsks(asks) && i < |asks| && forall j | 0 <= j < i :: asks[j].entityType != asks[i].entityType
    ensures IssuedAt(asks, i, asks[i].entityType, 1)
  {
    var t := asks[i].entityType;
    NotCountedYet(asks, i, t);
    NextMapping(asks, i);
    var m := MappingAt(asks, i);
    hide MappingAt, Mapping.Assign, TokenOf, KeyOf;
    KnownIsCounted(m, t, asks[i].original);
    IssuedValue(m, t, asks[i].original);
  }

  lemma KnownIsCounted(m: Mapping, t: string, original: string)
    requires m.WF() && ValidType(t)
    ensures KeyOf(t, original) in m.originalToToken ==> m.Counter(t) > 0
  {
    if KeyOf(t, original) in m.originalToToken { assert m.Owns(t, original, m.originalToToken[KeyOf(t, original)]); }
  }

  lemma {:induction false} NotCountedYet(asks: seq<Ask>, i: nat, t: string)
    requires ValidAsks(asks) && i <= |asks| && forall j | 0 <= j < i :: asks[j].entityType != t
    ensures MappingAt(asks, i).Counter(t) == 0
  {
    NothingCounted(asks, t);
    if i > 0 {
      hide MappingAt, Mapping.Assign, Mapping.WF, Mapping.Counter, ValidType;
      NextMapping(asks, i - 1);
      NotCountedYet(asks, i - 1, t);
      CounterStep(MappingAt(asks, i - 1), asks[i - 1].entityType, asks[i - 1].original, t);
    }
  }

  /** The first token of a type that is no short name of another one. */
  lemma FirstBareRestores(asks: seq<Ask>, i: nat)
    requires ValidAsks(asks) && i < |asks| && forall j | 0 <= j < i :: asks[j].entityType != asks[i].entityType
    requires forall u | TypeAlias(u) == asks[i].entityType :: u == asks[i].entityType
    ensures Unmask(MappingAt(asks, |asks|), BareToken(asks[i].entityType, 1)) == asks[i].original
  {
    hide MappingAt, Unmask, BareToken, TypeAlias;
    FirstOfType(asks, i);
    BareTokenRestoresItsValue(asks, i, asks[i].entityType, 1);
  }
}
