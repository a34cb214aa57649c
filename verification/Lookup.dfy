/** Which token a spelling is restored to (pkg/domain/pii.go, Original, registerTokenAliases): over every run of
    requests, the one that bound the spelling first, and only one that it spells. */
module Lookup {
  import opened Common
  import opened Wrappers
  import opened Text
  import opened Mappings
  import opened Spelling
  import opened Unmasking
  import opened BareSpelling

  // ---------- What a run of requests binds ----------

  datatype Binding = Binding(alias: string, token: string)

  /** The spellings that a new token asks for, in order. */
  function IssueBindings(t: string, n: nat): seq<Binding> {
    var token, short := TokenOf(t, n), TypeAlias(t);
    [Binding(BareToken(t, n), token)]
    + if short == t then [] else [Binding(TokenOf(short, n), token), Binding(BareToken(short, n), token)]
  }

  /** The spellings that the tokens of a run ask for, in order. */
  function BindingsOf(m: Mapping, asks: seq<Ask>): seq<Binding>
    decreases |asks|
  {
    if asks == [] then []
    else
      var t, original := asks[0].entityType, asks[0].original;
      (if KeyOf(t, original) in m.originalToToken then [] else IssueBindings(t, m.Counter(t) + 1))
      + BindingsOf(m.Assign(t, original), asks[1..])
  }

  /** The first token that asked for exactly this spelling. */
  function AliasToken(bs: seq<Binding>, alias: string): Option<string> {
    if bs == [] then None
    else
      var before, b := AliasToken(bs[..|bs| - 1], alias), bs[|bs| - 1];
      if before.Some? then before else if b.alias == alias then Some(b.token) else None
  }

  /** The first token that asked for a spelling with these words. */
  function WordsToken(bs: seq<Binding>, ws: seq<string>): Option<string> {
    if bs == [] then None
    else
      var before, b := WordsToken(bs[..|bs| - 1], ws), bs[|bs| - 1];
      if before.Some? then before else if Words(b.alias) == ws then Some(b.token) else None
  }

  function Get(entries: map<string, string>, key: string): Option<string> {
    if key in entries then Some(entries[key]) else None
  }

  // ---------- Binding one spelling ----------

  ghost predicate AliasesBoundBy(m: Mapping, bs: seq<Binding>) {
    forall alias :: Get(m.tokenAliases, alias) == AliasToken(bs, alias)
  }

  ghost predicate WordsBoundBy(m: Mapping, bs: seq<Binding>) {
    forall s :: Words(s) != [] ==> Get(m.normalizedAliases, Normalize(s)) == WordsToken(bs, Words(s))
  }

  ghost predicate BoundBy(m: Mapping, bs: seq<Binding>) { AliasesBoundBy(m, bs) && WordsBoundBy(m, bs) }

  lemma AliasSnoc(bs: seq<Binding>, b: Binding, alias: string)
    ensures AliasToken(bs + [b], alias) == if AliasToken(bs, alias).Some? then AliasToken(bs, alias)
                                           else if b.alias == alias then Some(b.token) else None
  {
    assert (bs + [b])[..|bs|] == bs;
  }

  lemma WordsSnoc(bs: seq<Binding>, b: Binding, ws: seq<string>)
    ensures WordsToken(bs + [b], ws) == if WordsToken(bs, ws).Some? then WordsToken(bs, ws)
                                        else if Words(b.alias) == ws then Some(b.token) else None
  {
    assert (bs + [b])[..|bs|] == bs;
    hide Words;
  }

  lemma {:induction false} AliasHasWords(bs: seq<Binding>, alias: string)
    requires AliasToken(bs, alias).Some?
    ensures WordsToken(bs, Words(alias)).Some?
  {
    hide Words;
    if AliasToken(bs[..|bs| - 1], alias).Some? { AliasHasWords(bs[..|bs| - 1], alias); }
  }

  /** What binding does to one spelling in the two tables. */
  lemma BindEntries(m: Mapping, alias: string, canonical: string, s: string)
    requires alias != "" && alias != canonical
    ensures var m' := m.BindAlias(alias, canonical); var bound := Get(m.tokenAliases, alias);
      var taken := bound.Some? && bound.value != canonical;
      && Get(m'.tokenAliases, s) == (if s == alias && !taken then Some(canonical) else Get(m.tokenAliases, s))
      && (Normalize(s) != "" ==>
            var n := Normalize(s);
            Get(m'.normalizedAliases, n)
            == if n == Normalize(alias) && !taken && Get(m.normalizedAliases, n).None? then Some(canonical)
               else Get(m.normalizedAliases, n))
  {
    hide Normalize;
  }

  lemma BindsNext(m: Mapping, bs: seq<Binding>, alias: string, canonical: string)
    requires BoundBy(m, bs) && alias != "" && alias != canonical
    ensures BoundBy(m.BindAlias(alias, canonical), bs + [Binding(alias, canonical)])
  {
    hide Mapping.BindAlias, Words, Normalize, AliasToken, WordsToken, Get;
    var m', b := m.BindAlias(alias, canonical), Binding(alias, canonical);
    forall s ensures Get(m'.tokenAliases, s) == AliasToken(bs + [b], s) {
      BindEntries(m, alias, canonical, s);
      AliasSnoc(bs, b, s);
    }
    forall s | Words(s) != [] ensures Get(m'.normalizedAliases, Normalize(s)) == WordsToken(bs + [b], Words(s)) {
      BindEntries(m, alias, canonical, s);
      WordsSnoc(bs, b, Words(s));
      SameWords(s, alias);
      if AliasToken(bs, alias).Some? { AliasHasWords(bs, alias); }
    }
  }

  lemma AliasesDiffer(t: string, n: nat)
    requires ValidType(t)
    ensures var token, short := TokenOf(t, n), TypeAlias(t);
      && TrimBrackets(token) == BareToken(t, n) && short != ""
      && BareToken(t, n) != "" && BareToken(t, n) != token
      && BareToken(short, n) != "" && BareToken(short, n) != token
      && TokenOf(short, n) != "" && (short != t ==> TokenOf(short, n) != token)
  {
    var token, short := TokenOf(t, n), TypeAlias(t);
    BareTokenShape(t, n);
    TypeAliasValid(t);
    NoBareIsToken(t, n, t, n);
    NoBareIsToken(short, n, t, n);
    if TokenOf(short, n) == token { TokenInjective(short, n, t, n); }
  }

  lemma IssueBinds(m: Mapping, bs: seq<Binding>, t: string, n: nat)
    requires BoundBy(m, bs) && ValidType(t)
    ensures BoundBy(m.BindAliases(TokenOf(t, n), t, n), bs + IssueBindings(t, n))
  {
    hide BoundBy, Mapping.BindAlias, TypeAlias, TrimBrackets, BareToken, TokenOf, ValidType;
    AliasesDiffer(t, n);
    var token, short := TokenOf(t, n), TypeAlias(t);
    var bare, b1 := BareToken(t, n), bs + [Binding(BareToken(t, n), token)];
    var m1 := m.BindAlias(bare, token);
    BindsNext(m, bs, bare, token);
    if short == t {
      assert bs + IssueBindings(t, n) == b1;
    } else {
      BindsNext(m1, b1, TokenOf(short, n), token);
      var b2 := b1 + [Binding(TokenOf(short, n), token)];
      BindsNext(m1.BindAlias(TokenOf(short, n), token), b2, BareToken(short, n), token);
      assert bs + IssueBindings(t, n) == b2 + [Binding(BareToken(short, n), token)];
    }
  }

  // ---------- Every run ----------

  lemma AssignIs(m: Mapping, t: string, original: string) returns (m1: Mapping)
    requires KeyOf(t, original) !in m.originalToToken
    ensures m1.tokenAliases == m.tokenAliases && m1.normalizedAliases == m.normalizedAliases
    ensures var n := m.Counter(t) + 1; m.Assign(t, original) == m1.BindAliases(TokenOf(t, n), t, n)
  {
    hide Mapping.BindAliases, TokenOf, KeyOf;
    var n := m.Counter(t) + 1;
    m1 := m.(counters := m.counters[t := n],
      originalToToken := m.originalToToken[KeyOf(t, original) := TokenOf(t, n)],
      tokenToOriginal := m.tokenToOriginal[TokenOf(t, n) := original]);
  }

  lemma SameAliases(m: Mapping, m1: Mapping, bs: seq<Binding>)
    requires BoundBy(m, bs) && m1.tokenAliases == m.tokenAliases && m1.normalizedAliases == m.normalizedAliases
    ensures BoundBy(m1, bs)
  {
    hide AliasToken, WordsToken, Words, Normalize, Get;
  }

  lemma AssignBinds(m: Mapping, bs: seq<Binding>, t: string, original: string)
    requires BoundBy(m, bs) && ValidType(t)
    ensures BoundBy(m.Assign(t, original),
      bs + if KeyOf(t, original) in m.originalToToken then [] else IssueBindings(t, m.Counter(t) + 1))
  {
    if KeyOf(t, original) in m.originalToToken {
      assert bs + [] == bs;
    } else {
      var n := m.Counter(t) + 1;
      var m1 := AssignIs(m, t, original);
      SameAliases(m, m1, bs);
      hide BoundBy, Mapping.BindAliases, Mapping.Assign, IssueBindings, TokenOf, KeyOf, ValidType;
      IssueBinds(m1, bs, t, n);
    }
  }

  lemma {:induction false} RunBinds(m: Mapping, bs: seq<Binding>, asks: seq<Ask>)
    requires BoundBy(m, bs) && ValidAsks(asks)
    ensures BoundBy(AssignAll(m, asks), bs + BindingsOf(m, asks))
    decreases |asks|
  {
    hide BoundBy, Mapping.Assign, IssueBindings, KeyOf, ValidType;
    if asks == [] {
      assert bs + [] == bs;
    } else {
      var t, original := asks[0].entityType, asks[0].original;
      var first := if KeyOf(t, original) in m.originalToToken then [] else IssueBindings(t, m.Counter(t) + 1);
      AssignBinds(m, bs, t, original);
      RunBinds(m.Assign(t, original), bs + first, asks[1..]);
      Assoc(bs, first, BindingsOf(m.Assign(t, original), asks[1..]));
    }
  }

  lemma NothingBound()
    ensures BoundBy(Empty(), [])
  {
  }

  /** The token that a text resolves to: itself, the first that asked for this spelling, or the first that asked for a
      spelling with the same words. */
  function ResolvedBy(m: Mapping, bs: seq<Binding>, s: string): Option<string> {
    if s in m.tokenToOriginal then Some(s)
    else if AliasToken(bs, s).Some? then AliasToken(bs, s)
    else if Words(s) == [] then None
    else WordsToken(bs, Words(s))
  }

  /** Over every run of requests a text is restored exactly when it resolves, and to the value of that token. */
  lemma LookupIs(asks: seq<Ask>, s: string)
    requires ValidAsks(asks)
    ensures var m := AssignAll(Empty(), asks);
      var token := ResolvedBy(m, BindingsOf(Empty(), asks), s);
      && (token.Some? ==> token.value in m.tokenToOriginal)
      && m.Original(s) == if token.Some? then Some(m.tokenToOriginal[token.value]) else None
  {
    var m, bs := AssignAll(Empty(), asks), BindingsOf(Empty(), asks);
    EmptyWF();
    AssignAllKeepsWF(Empty(), asks);
    NothingBound();
    RunBinds(Empty(), [], asks);
    assert [] + bs == bs;
    assert m.AliasesBound();
    hide AssignAll, BindingsOf, Words, Normalize, AliasToken, WordsToken, Mapping.WF, IsAlias;
    SameWords(s, s);
    assert Get(m.tokenAliases, s) == AliasToken(bs, s);
    assert Words(s) != [] ==> Get(m.normalizedAliases, Normalize(s)) == WordsToken(bs, Words(s));
  }

  // ---------- What a text must spell to be restored ----------

  /** The text spells [t_n], with the name of its type or with the short one. */
  predicate Spells(s: string, t: string, n: nat) {
    Words(s) == WordsOf(t) + [Decimal(n)] || Words(s) == WordsOf(TypeAlias(t)) + [Decimal(n)]
  }

  lemma {:induction false} WordsOfConcat(a: string, c: char, b: string)
    requires IsSeparator(c)
    ensures WordsOf(a + [c] + b) == WordsOf(a) + WordsOf(b)
    decreases |a|
  {
    var s := a + [c] + b;
    WordsStep(a);
    WordsStep(s);
    hide WordsOf;
    if a == "" {
      assert s[1..] == b;
    } else if IsSeparator(a[0]) {
      assert s[0] == a[0] && s[1..] == a[1..] + [c] + b;
      WordsOfConcat(a[1..], c, b);
    } else {
      var k := WordLen(a);
      WordLenConcat(a, c, b);
      assert s[0] == a[0] && s[..k] == a[..k] && s[k..] == a[k..] + [c] + b;
      WordsOfConcat(a[k..], c, b);
    }
  }

  lemma WordsStep(s: string)
    ensures s == "" ==> WordsOf(s) == []
    ensures s != "" && IsSeparator(s[0]) ==> WordsOf(s) == WordsOf(s[1..])
    ensures s != "" && !IsSeparator(s[0]) ==>
      WordLen(s) > 0 && WordsOf(s) == [Fold(s[..WordLen(s)])] + WordsOf(s[WordLen(s)..])
  {
  }

  lemma WordLenIs(s: string, k: nat)
    requires k <= |s| && (forall i | 0 <= i < k :: !IsSeparator(s[i])) && (k < |s| ==> IsSeparator(s[k]))
    ensures WordLen(s) == k
  {
  }

  lemma WordLenConcat(a: string, c: char, b: string)
    requires IsSeparator(c)
    ensures WordLen(a + [c] + b) == WordLen(a)
  {
    var k, s := WordLen(a), a + [c] + b;
    assert forall i | 0 <= i < |a| :: s[i] == a[i];
    assert s[|a|] == c;
    WordLenIs(s, k);
  }

  lemma OneWord(d: string)
    requires d != "" && AllDigits(d)
    ensures WordsOf(d) == [d]
  {
    WordLenIs(d, |d|);
    assert d[..|d|] == d && d[|d|..] == "";
    FoldType(d);
  }

  /** Case does not matter. */
  lemma {:induction false} WordsOfFold(x: string)
    ensures WordsOf(Fold(x)) == WordsOf(x)
    decreases |x|
  {
    var f := Fold(x);
    if x != "" && IsSeparator(x[0]) {
      assert f[1..] == Fold(x[1..]);
      WordsOfFold(x[1..]);
    } else if x != "" {
      var k := WordLen(x);
      WordLenIs(f, k);
      assert f[..k] == Fold(x[..k]) && Fold(f[..k]) == Fold(x[..k]) && f[k..] == Fold(x[k..]);
      WordsOfFold(x[k..]);
    }
  }

  lemma CoreOf(x: string)
    requires x != "" && !IsSpace(x[0]) && !IsSpace(x[|x| - 1]) && !IsBracket(x[0]) && !IsBracket(x[|x| - 1])
    ensures Core(x) == x && Core("[" + x + "]") == x
  {
    var s := "[" + x + "]";
    assert TrimSpace(x) == x && TrimSpace(s) == s;
    assert StripOpen(s) == x + "]" && StripClose(x + "]") == x;
  }

  lemma LooseWords(x: string, sep: char, t: string, n: nat)
    requires ValidType(t) && Fold(x) == t && sep in "_- "
    ensures var s := x + [sep] + Decimal(n);
      Words(s) == WordsOf(t) + [Decimal(n)] && Words("[" + s + "]") == WordsOf(t) + [Decimal(n)]
  {
    var s := x + [sep] + Decimal(n);
    WordsOfConcat(x, sep, Decimal(n));
    OneWord(Decimal(n));
    WordsOfFold(x);
    FoldWord(x);
    hide WordsOf, Core, Fold;
    assert forall i | 0 <= i < |x| :: s[i] == x[i];
    assert forall i | 0 <= i < |s| :: IsPlaceholderChar(s[i]);
    assert IsWordChar(s[0]) && IsDigit(s[|s| - 1]);
    CoreOf(s);
  }

  /** A spelling with any case and any separator, with or without brackets. */
  lemma LooselySpelled(x: string, sep: char, t: string, n: nat)
    requires ValidType(t) && Fold(x) == t && sep in "_- "
    ensures var s := x + [sep] + Decimal(n); Spells(s, t, n) && Spells("[" + s + "]", t, n)
  {
    LooseWords(x, sep, t, n);
    hide Words, WordsOf, TypeAlias;
  }

  lemma TokenWords(t: string, n: nat)
    requires ValidType(t)
    ensures Words(BareToken(t, n)) == Words(TokenOf(t, n)) == WordsOf(t) + [Decimal(n)]
  {
    FoldType(t);
    LooseWords(t, '_', t, n);
    assert t + "_" + Decimal(n) == t + ['_'] + Decimal(n);
  }

  /** The token [u_k] has been issued. */
  predicate IssuedIn(m: Mapping, u: string, k: nat) { ValidType(u) && 1 <= k <= m.Counter(u) }

  /** The binding belongs to [u_k] and spells it. */
  predicate BindingOf(b: Binding, u: string, k: nat) { b.token == TokenOf(u, k) && Spells(b.alias, u, k) }

  lemma IssueBindingsSpell(t: string, n: nat)
    requires ValidType(t)
    ensures forall b | b in IssueBindings(t, n) :: BindingOf(b, t, n)
    ensures exists b :: b in IssueBindings(t, n) && Words(b.alias) == WordsOf(t) + [Decimal(n)]
    ensures exists b :: b in IssueBindings(t, n) && Words(b.alias) == WordsOf(TypeAlias(t)) + [Decimal(n)]
  {
    hide Words, WordsOf, TypeAlias, BareToken, TokenOf, ValidType, Decimal;
    var short, token, bs := TypeAlias(t), TokenOf(t, n), IssueBindings(t, n);
    TypeAliasValid(t);
    TokenWords(t, n);
    TokenWords(short, n);
    var bare := Binding(BareToken(t, n), token);
    assert bs[0] == bare && bare in bs && BindingOf(bare, t, n);
    if short != t {
      var b, c := Binding(TokenOf(short, n), token), Binding(BareToken(short, n), token);
      assert bs == [bare, b, c] && c in bs && BindingOf(b, t, n) && BindingOf(c, t, n);
    } else {
      assert bs == [bare];
    }
  }

  lemma CounterGrows(m: Mapping, t: string, original: string, u: string)
    ensures var m' := m.Assign(t, original);
      m'.Counter(u) == if KeyOf(t, original) !in m.originalToToken && u == t then m.Counter(u) + 1 else m.Counter(u)
  {
    if KeyOf(t, original) !in m.originalToToken {
      var n := m.Counter(t) + 1;
      BindAliasesFrame(m.(counters := m.counters[t := n],
        originalToToken := m.originalToToken[KeyOf(t, original) := TokenOf(t, n)],
        tokenToOriginal := m.tokenToOriginal[TokenOf(t, n) := original]), TokenOf(t, n), t, n);
      hide TokenOf, Mapping.BindAliases, KeyOf;
    }
  }

  lemma {:induction false} CountersGrow(m: Mapping, asks: seq<Ask>, u: string)
    ensures AssignAll(m, asks).Counter(u) >= m.Counter(u)
    decreases |asks|
  {
    if asks != [] {
      CounterGrows(m, asks[0].entityType, asks[0].original, u);
      hide Mapping.Assign, Mapping.Counter;
      CountersGrow(m.Assign(asks[0].entityType, asks[0].original), asks[1..], u);
    }
  }

  /** What a run binds belongs to a token it issued, and spells that token. */
  lemma {:induction false} BindingsSpell(m: Mapping, asks: seq<Ask>, b: Binding) returns (u: string, k: nat)
    requires ValidAsks(asks) && b in BindingsOf(m, asks)
    ensures IssuedIn(AssignAll(m, asks), u, k) && BindingOf(b, u, k)
    decreases |asks|
  {
    var t, original := asks[0].entityType, asks[0].original;
    var m', n := m.Assign(t, original), m.Counter(t) + 1;
    hide BindingOf, IssueBindings, Mapping.Assign, KeyOf, ValidType;
    if b in BindingsOf(m', asks[1..]) {
      u, k := BindingsSpell(m', asks[1..], b);
    } else {
      u, k := t, n;
      IssueBindingsSpell(t, n);
      CounterGrows(m, t, original, t);
      CountersGrow(m', asks[1..], t);
    }
  }

  /** Every token that a run issues is bound under its words, and under those of its short name. */
  lemma {:induction false} IssuedIsSpelled(m: Mapping, asks: seq<Ask>, u: string, k: nat, s: string)
        returns (b: Binding)
    requires ValidAsks(asks) && ValidType(u) && m.Counter(u) < k <= AssignAll(m, asks).Counter(u) && Spells(s, u, k)
    ensures b in BindingsOf(m, asks) && Words(b.alias) == Words(s)
    decreases |asks|
  {
    assert asks != [];
    var t, original := asks[0].entityType, asks[0].original;
    var m', n := m.Assign(t, original), m.Counter(t) + 1;
    CounterGrows(m, t, original, u);
    hide IssueBindings, Mapping.Assign, KeyOf, Mapping.Counter, Words, WordsOf, TypeAlias, ValidType;
    if m'.Counter(u) < k {
      b := IssuedIsSpelled(m', asks[1..], u, k, s);
    } else {
      assert u == t && k == n && KeyOf(t, original) !in m.originalToToken;
      IssueBindingsSpell(t, n);
      b :| b in IssueBindings(t, n) && Words(b.alias) == Words(s);
    }
  }

  lemma {:induction false} AliasTokenIn(bs: seq<Binding>, alias: string) returns (b: Binding)
    requires AliasToken(bs, alias).Some?
    ensures b in bs && b.alias == alias && AliasToken(bs, alias) == Some(b.token)
  {
    var front := bs[..|bs| - 1];
    if AliasToken(front, alias).Some? { b := AliasTokenIn(front, alias); } else { b := bs[|bs| - 1]; }
  }

  lemma {:induction false} WordsTokenIn(bs: seq<Binding>, ws: seq<string>) returns (b: Binding)
    requires WordsToken(bs, ws).Some?
    ensures b in bs && Words(b.alias) == ws && WordsToken(bs, ws) == Some(b.token)
  {
    hide Words;
    var front := bs[..|bs| - 1];
    if WordsToken(front, ws).Some? { b := WordsTokenIn(front, ws); } else { b := bs[|bs| - 1]; }
  }

  lemma {:induction false} WordsTokenOf(bs: seq<Binding>, b: Binding)
    requires b in bs
    ensures WordsToken(bs, Words(b.alias)).Some?
  {
    hide Words;
    if b != bs[|bs| - 1] {
      assert bs == bs[..|bs| - 1] + [bs[|bs| - 1]];
      WordsTokenOf(bs[..|bs| - 1], b);
    }
  }

  lemma SpellsIf(s: string, alias: string, u: string, k: nat)
    requires Spells(alias, u, k) && (alias == s || Words(alias) == Words(s))
    ensures Spells(s, u, k)
  {
    hide Words;
  }

  /** Whatever a text resolves to was issued, and the text spells it. */
  lemma ResolvedIsSpelled(asks: seq<Ask>, s: string) returns (u: string, k: nat)
    requires ValidAsks(asks) && ResolvedBy(AssignAll(Empty(), asks), BindingsOf(Empty(), asks), s).Some?
    ensures IssuedIn(AssignAll(Empty(), asks), u, k) && Spells(s, u, k)
    ensures ResolvedBy(AssignAll(Empty(), asks), BindingsOf(Empty(), asks), s) == Some(TokenOf(u, k))
  {
    var m, bs := AssignAll(Empty(), asks), BindingsOf(Empty(), asks);
    if s in m.tokenToOriginal {
      EmptyWF();
      AssignAllKeepsWF(Empty(), asks);
      assert m.Issued(s);
      u, k :| ValidType(u) && 1 <= k <= m.Counter(u) && s == TokenOf(u, k);
      TokenWords(u, k);
    } else {
      hide AssignAll, BindingsOf, Words, WordsOf, TypeAlias, TokenOf, AliasToken, WordsToken;
      var b: Binding;
      if AliasToken(bs, s).Some? { b := AliasTokenIn(bs, s); } else { b := WordsTokenIn(bs, Words(s)); }
      u, k := BindingsSpell(Empty(), asks, b);
      SpellsIf(s, b.alias, u, k);
    }
  }

  /** The text is restored to the value of the token. */
  predicate StandsFor(m: Mapping, s: string, token: string) {
    token in m.tokenToOriginal && m.Original(s) == Some(m.tokenToOriginal[token])
  }

  /** Over every run of requests a text is restored exactly when it spells an issued token, and then to the value of a
      token that it spells. Every other text is copied. */
  lemma RestoredIffSpelled(asks: seq<Ask>, s: string)
    requires ValidAsks(asks)
    ensures var m := AssignAll(Empty(), asks);
      && (m.Original(s).Some? <==> exists u, k :: IssuedIn(m, u, k) && Spells(s, u, k))
      && (m.Original(s).Some? ==>
            exists u, k :: IssuedIn(m, u, k) && Spells(s, u, k) && StandsFor(m, s, TokenOf(u, k)))
      && (m.Original(s).None? ==> RestoreGroup(m, s) == s)
  {
    var m, bs := AssignAll(Empty(), asks), BindingsOf(Empty(), asks);
    LookupIs(asks, s);
    hide AssignAll, BindingsOf, Spells, TokenOf, AliasToken, WordsToken, Mapping.Original, ValidType;
    if m.Original(s).Some? {
      var u, k := ResolvedIsSpelled(asks, s);
    }
    if u, k :| IssuedIn(m, u, k) && Spells(s, u, k) {
      var b := IssuedIsSpelled(Empty(), asks, u, k, s);
      WordsTokenOf(bs, b);
      SpelledHasWords(s, u, k);
    }
  }

  lemma SpelledHasWords(s: string, u: string, k: nat)
    requires Spells(s, u, k)
    ensures Words(s) != [] && Words(s)[|Words(s)| - 1] == Decimal(k)
  {
    hide Words, WordsOf, TypeAlias, Decimal;
  }

  /** Spellings with different numbers never stand for one token. */
  lemma NumbersKeepApart(asks: seq<Ask>, s: string, s': string)
    requires ValidAsks(asks) && Words(s) != [] && Words(s') != []
    requires Words(s)[|Words(s)| - 1] != Words(s')[|Words(s')| - 1]
    requires ResolvedBy(AssignAll(Empty(), asks), BindingsOf(Empty(), asks), s).Some?
    ensures ResolvedBy(AssignAll(Empty(), asks), BindingsOf(Empty(), asks), s)
         != ResolvedBy(AssignAll(Empty(), asks), BindingsOf(Empty(), asks), s')
  {
    hide AssignAll, BindingsOf, Words, ResolvedBy, Spells, TokenOf;
    var u, k := ResolvedIsSpelled(asks, s);
    SpelledHasWords(s, u, k);
    if ResolvedBy(AssignAll(Empty(), asks), BindingsOf(Empty(), asks), s').Some? {
      var v, l := ResolvedIsSpelled(asks, s');
      SpelledHasWords(s', v, l);
      if TokenOf(u, k) == TokenOf(v, l) { TokenInjective(u, k, v, l); }
    }
  }

  // ---------- One request ----------

  const SHORT_NAMES: map<string, string> := map[
    "EMAIL_ADDRESS" := "EMAIL", "PHONE_NUMBER" := "PHONE", "CREDIT_CARD" := "CARD", "IBAN_CODE" := "IBAN",
    "IP_ADDRESS" := "IP", "US_SSN" := "SSN", "US_DRIVER_LICENSE" := "DRIVER_LICENSE"]

  /** The name of the type, or its short one, and the number 1. */
  predicate NamesFirst(s: string, t: string) {
    Words(s) == WordsOf(t) + ["1"] || (t in SHORT_NAMES && Words(s) == WordsOf(SHORT_NAMES[t]) + ["1"])
  }

  lemma OneToken(t: string, original: string)
    requires ValidType(t)
    ensures var m := AssignAll(Empty(), [Ask(t, original)]);
      && (forall u, k :: IssuedIn(m, u, k) <==> u == t && k == 1)
      && TokenOf(t, 1) in m.tokenToOriginal && m.tokenToOriginal[TokenOf(t, 1)] == original
  {
    var asks := [Ask(t, original)];
    assert asks[1..] == [];
    var m := Empty().Assign(t, original);
    assert AssignAll(Empty(), asks) == m;
    EmptyWF();
    forall u ensures m.Counter(u) == if u == t then 1 else 0 { CounterGrows(Empty(), t, original, u); }
    hide Mapping.Assign, Mapping.WF, TokenOf, KeyOf;
    IssuedValue(Empty(), t, original);
  }

  lemma ShortName(t: string)
    ensures TypeAlias(t) == if t in SHORT_NAMES then SHORT_NAMES[t] else t
  {
  }

  lemma SpellsFirst(s: string, t: string)
    ensures Spells(s, t, 1) <==> NamesFirst(s, t)
  {
    assert Decimal(1) == "1";
    ShortName(t);
    hide Words, WordsOf, TypeAlias, Decimal;
  }

  /** After one request exactly the texts that name its type and the number 1 are restored, and to its value. */
  lemma OneRequest(t: string, original: string, s: string)
    requires ValidType(t)
    ensures var m := AssignAll(Empty(), [Ask(t, original)]);
      m.Original(s) == if NamesFirst(s, t) then Some(original) else None
  {
    hide AssignAll, Spells, NamesFirst, TokenOf, Mapping.Original, ValidType, IssuedIn;
    assert ValidAsks([Ask(t, original)]);
    RestoredIffSpelled([Ask(t, original)], s);
    OneToken(t, original);
    SpellsFirst(s, t);
  }

  /** With one person masked, [person-1] stands for that person, and [PERSON_2] for nobody. */
  lemma OnePerson(original: string)
    ensures var m := AssignAll(Empty(), [Ask("PERSON", original)]);
      m.Original("[person-1]") == Some(original) && m.Original("[PERSON_2]") == None
  {
    hide *;
    PersonSpelled();
    SomebodyNamed("[person-1]");
    NobodyNamed("[PERSON_2]");
    OneRequest("PERSON", original, "[person-1]");
    OneRequest("PERSON", original, "[PERSON_2]");
  }

  lemma PersonSpelled()
    ensures Words("[person-1]") == WordsOf("PERSON") + ["1"]
    ensures Words("[PERSON_2]") == WordsOf("PERSON") + ["2"]
  {
    hide *;
    SmallNumbers();
    PersonFolds();
    BracketsAndNumber("person", '-', "1", "[person-1]");
    BracketsAndNumber("PERSON", '_', "2", "[PERSON_2]");
    LooseWords("person", '-', "PERSON", 1);
    LooseWords("PERSON", '_', "PERSON", 2);
  }

  lemma SmallNumbers()
    ensures Decimal(1) == "1" && Decimal(2) == "2"
  {
  }

  lemma PersonFolds()
    ensures ValidType("PERSON") && Fold("person") == "PERSON" && Fold("PERSON") == "PERSON"
  {
  }

  lemma BracketsAndNumber(x: string, sep: char, d: string, s: string)
    requires |d| == 1 && |s| == |x| + 4 && s[0] == '[' && s[|s| - 1] == ']'
    requires s[1..|x| + 1] == x && s[|x| + 1] == sep && s[|x| + 2] == d[0]
    ensures "[" + (x + [sep] + d) + "]" == s
  {
  }

  lemma SomebodyNamed(s: string)
    requires Words(s) == WordsOf("PERSON") + ["1"]
    ensures NamesFirst(s, "PERSON") && ValidType("PERSON")
  {
  }

  lemma NobodyNamed(s: string)
    requires Words(s) == WordsOf("PERSON") + ["2"]
    ensures !NamesFirst(s, "PERSON")
  {
    hide Words, WordsOf;
    assert (WordsOf("PERSON") + ["1"])[|WordsOf("PERSON")|] == "1";
  }
}
