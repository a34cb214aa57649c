/** The request-scoped mapping between placeholders and the values they replace
    (pkg/domain/pii.go): the mapping as a value, its invariant, and the mutable class. */
module Mappings {
  import opened Wrappers
  import opened Text

  // ---------- Names ----------

  predicate ValidType(t: string) { t != "" && AllType(t) }

  function BareToken(t: string, n: nat): string { t + "_" + Decimal(n) }

  function TokenOf(t: string, n: nat): string { "[" + BareToken(t, n) + "]" }

  function KeyOf(t: string, original: string): string { t + "|" + original }

  function TypeAlias(t: string): string {
    match t
    case "EMAIL_ADDRESS" => "EMAIL"
    case "PHONE_NUMBER" => "PHONE"
    case "CREDIT_CARD" => "CARD"
    case "IBAN_CODE" => "IBAN"
    case "IP_ADDRESS" => "IP"
    case "US_SSN" => "SSN"
    case "US_DRIVER_LICENSE" => "DRIVER_LICENSE"
    case _ => t
  }

  predicate IsBracket(c: char) { c == '[' || c == ']' }

  function TrimBrackets(s: string): string {
    if s != "" && IsBracket(s[0]) then TrimBrackets(s[1..])
    else if s != "" && IsBracket(s[|s| - 1]) then TrimBrackets(s[..|s| - 1])
    else s
  }

  predicate IsSpace(c: char) { c == ' ' || 9 <= c as int <= 13 }

  function TrimSpace(s: string): string {
    if s != "" && IsSpace(s[0]) then TrimSpace(s[1..])
    else if s != "" && IsSpace(s[|s| - 1]) then TrimSpace(s[..|s| - 1])
    else s
  }

  function StripOpen(s: string): string { if s != "" && s[0] == '[' then s[1..] else s }

  function StripClose(s: string): string { if s != "" && s[|s| - 1] == ']' then s[..|s| - 1] else s }

  predicate IsSeparator(c: char) { c == '_' || c == '-' || c == ' ' }

  predicate IsPlaceholderChar(c: char) { IsUpper(c) || IsLower(c) || IsDigit(c) || IsSeparator(c) }

  function TrimUnderscores(s: string): string {
    if s != "" && s[0] == '_' then TrimUnderscores(s[1..])
    else if s != "" && s[|s| - 1] == '_' then TrimUnderscores(s[..|s| - 1])
    else s
  }

  /** Upper-cased words of `s`, each separator run written as one underscore, none at the start.
      `written` is what was written before `s`. */
  function Squeeze(s: string, written: string): string {
    if s == "" then written
    else if !IsSeparator(s[0]) then Squeeze(s[1..], written + [Upper(s[0])])
    else if written == "" || written[|written| - 1] == '_' then Squeeze(s[1..], written)
    else Squeeze(s[1..], written + "_")
  }

  /** A placeholder without the brackets and the space around it. */
  function Core(token: string): string { TrimSpace(StripClose(StripOpen(TrimSpace(token)))) }

  /** The case- and separator-insensitive form of a placeholder; empty when it cannot be one. */
  function Normalize(token: string): string {
    var s := Core(token);
    if exists i | 0 <= i < |s| :: !IsPlaceholderChar(s[i]) then "" else TrimUnderscores(Squeeze(s, ""))
  }

  /** The two shapes an alias has: a bare word over the type alphabet, or one in brackets. */
  ghost predicate IsAlias(alias: string) {
    alias != "" && (AllType(alias) || exists b :: b != "" && AllType(b) && alias == "[" + b + "]")
  }

  // ---------- The mapping as a value ----------

  datatype Mapping = Mapping(
    tokenToOriginal: map<string, string>,
    tokenAliases: map<string, string>,
    normalizedAliases: map<string, string>,
    originalToToken: map<string, string>,
    counters: map<string, nat>)
  {
    function Original(token: string): Option<string> {
      if token in tokenToOriginal then Some(tokenToOriginal[token])
      else if token in tokenAliases then Lookup(tokenAliases[token])
      else if Normalize(token) in normalizedAliases then Lookup(normalizedAliases[Normalize(token)])
      else None
    }

    function Lookup(canonical: string): Option<string> {
      if canonical in tokenToOriginal then Some(tokenToOriginal[canonical]) else None
    }

    function BindAlias(alias: string, canonical: string): Mapping {
      if alias == "" || alias == canonical then this
      else if alias in tokenAliases && tokenAliases[alias] != canonical then this
      else
        var m := this.(tokenAliases := tokenAliases[alias := canonical]);
        var n := Normalize(alias);
        if n == "" || (n in normalizedAliases && normalizedAliases[n] != canonical) then m
        else m.(normalizedAliases := normalizedAliases[n := canonical])
    }

    function BindAliases(canonical: string, t: string, n: nat): Mapping {
      var m := BindAlias(TrimBrackets(canonical), canonical);
      var short := TypeAlias(t);
      if short != "" && short != t
      then m.BindAlias(TokenOf(short, n), canonical).BindAlias(BareToken(short, n), canonical)
      else m
    }

    function Counter(t: string): nat { if t in counters then counters[t] else 0 }

    /** The state after asking for the token of (t, original). */
    function Assign(t: string, original: string): Mapping {
      var key := KeyOf(t, original);
      if key in originalToToken then this
      else
        var n := Counter(t) + 1;
        var token := TokenOf(t, n);
        this.(counters := counters[t := n], originalToToken := originalToToken[key := token],
          tokenToOriginal := tokenToOriginal[token := original])
            .BindAliases(token, t, n)
    }

    /** The token that (t, original) has, or the one it would get next. */
    function TokenFor(t: string, original: string): string {
      var key := KeyOf(t, original);
      if key in originalToToken then originalToToken[key] else TokenOf(t, Counter(t) + 1)
    }

    // ---------- Invariant ----------

    /** `token` is one of the tokens handed out so far. */
    ghost predicate Issued(token: string) {
      exists t, n :: ValidType(t) && 1 <= n <= Counter(t) && token == TokenOf(t, n)
    }

    /** The tokens of type T are exactly [T_1] .. [T_Counter(T)]. */
    ghost predicate TokensWF() {
      && (forall t | t in counters :: ValidType(t))
      && (forall token | token in tokenToOriginal :: Issued(token))
      && (forall t, n | ValidType(t) && 1 <= n <= Counter(t) :: TokenOf(t, n) in tokenToOriginal)
    }

    /** `token` is a token of type `t` that stands for `original`. */
    ghost predicate Owns(t: string, original: string, token: string) {
      && token in tokenToOriginal && tokenToOriginal[token] == original
      && exists n :: 1 <= n <= Counter(t) && token == TokenOf(t, n)
    }

    /** The token [t_n] is the one its own (type, original) pair asks for. */
    ghost predicate Owned(t: string, n: nat) {
      var token := TokenOf(t, n);
      && token in tokenToOriginal
      && KeyOf(t, tokenToOriginal[token]) in originalToToken
      && originalToToken[KeyOf(t, tokenToOriginal[token])] == token
    }

    /** (type, original) pairs and tokens are in one-to-one correspondence. */
    ghost predicate OriginalsWF() {
      && (forall t, o | ValidType(t) && KeyOf(t, o) in originalToToken :: Owns(t, o, originalToToken[KeyOf(t, o)]))
      && (forall t, n | ValidType(t) && 1 <= n <= Counter(t) :: Owned(t, n))
    }

    ghost predicate AliasesBound() {
      && (forall a | a in tokenAliases :: IsAlias(a) && tokenAliases[a] in tokenToOriginal)
      && (forall a | a in normalizedAliases :: a != "" && normalizedAliases[a] in tokenToOriginal)
    }

    ghost predicate BareBound(t: string, n: nat) { BareToken(t, n) in tokenAliases }

    ghost predicate AliasesWF() {
      && AliasesBound()
      && (forall t, n | ValidType(t) && 1 <= n <= Counter(t) :: BareBound(t, n))
    }

    ghost predicate WF() { TokensWF() && OriginalsWF() && AliasesWF() }
  }


  function Empty(): Mapping { Mapping(map[], map[], map[], map[], map[]) }

  // ---------- Names are unambiguous ----------

  lemma BareTokenInjective(t: string, n: nat, t': string, n': nat)
    requires BareToken(t, n) == BareToken(t', n')
    ensures t == t' && n == n'
  {
    var s := BareToken(t, n);
    assert s[|t|] == '_' && s[|t'|] == '_';
    assert s[|t| + 1..] == Decimal(n) && s[|t'| + 1..] == Decimal(n');
    assert |t| == |t'| by {
      assert forall i | |t| < i < |s| :: s[i] == Decimal(n)[i - |t| - 1];
      assert forall i | |t'| < i < |s| :: s[i] == Decimal(n')[i - |t'| - 1];
    }
    assert s[..|t|] == t && s[..|t'|] == t';
    DecimalInjective(n, n');
  }

  lemma TokenInjective(t: string, n: nat, t': string, n': nat)
    requires TokenOf(t, n) == TokenOf(t', n')
    ensures t == t' && n == n'
  {
    var s := TokenOf(t, n);
    assert s[1..|s| - 1] == BareToken(t, n);
    assert s[1..|s| - 1] == BareToken(t', n');
    BareTokenInjective(t, n, t', n');
  }

  /** A bar cannot occur in a type, so a key names one pair. */
  lemma KeyInjective(t: string, o: string, t': string, o': string)
    requires ValidType(t) && ValidType(t') && KeyOf(t, o) == KeyOf(t', o')
    ensures t == t' && o == o'
  {
    var s := KeyOf(t, o);
    assert s[|t|] == '|' && s[|t'|] == '|';
    assert |t| == |t'| by {
      assert forall i | 0 <= i < |t| :: s[i] == t[i];
      assert forall i | 0 <= i < |t'| :: s[i] == t'[i];
    }
    assert s[..|t|] == t && s[..|t'|] == t';
    assert s[|t| + 1..] == o && s[|t'| + 1..] == o';
  }

  lemma KeyClashes(t: string, o: string, t': string, o': string)
    requires t != t' && |t| <= |t'|
    ensures KeyOf(t, o) == KeyOf(t', o') <==> t + "|" <= t' && o == t'[|t| + 1..] + "|" + o'
  {
    var k, k', n := KeyOf(t, o), KeyOf(t', o'), |t| + 1;
    assert k[..n] == t + "|" && k[n..] == o;
    if k == k' {
      assert k[..|t|] == t && k'[..|t'|] == t' && k'[..|t|] == t'[..|t|];
      assert k'[..n] == t'[..n];
    }
    if t + "|" <= t' {
      assert t' == t + "|" + t'[n..];
      assert k'[..n] == t + "|" && k'[n..] == t'[n..] + "|" + o';
      assert k' == k'[..n] + k'[n..] && k == k[..n] + k[n..];
    }
  }

  /** Two types share a key for some values exactly when one of them, with a bar behind it, starts the other: only
      types outside the documented alphabet do. */
  lemma KeysClashWithBarInType(t: string, t': string)
    requires t != t'
    ensures (exists o, o' :: KeyOf(t, o) == KeyOf(t', o')) <==> t + "|" <= t' || t' + "|" <= t
    ensures ValidType(t) && ValidType(t') ==> !(t + "|" <= t' || t' + "|" <= t)
  {
    if t + "|" <= t' {
      KeyClashes(t, t'[|t| + 1..] + "|", t', "");
      assert t'[|t| + 1..] + "|" + "" == t'[|t| + 1..] + "|";
    } else if t' + "|" <= t {
      KeyClashes(t', t[|t'| + 1..] + "|", t, "");
      assert t[|t'| + 1..] + "|" + "" == t[|t'| + 1..] + "|";
    } else {
      forall o, o' ensures KeyOf(t, o) != KeyOf(t', o') {
        if |t| <= |t'| { KeyClashes(t, o, t', o'); } else { KeyClashes(t', o', t, o); }
      }
    }
    if t + "|" <= t' { BarInside(t, t'); }
    if t' + "|" <= t { BarInside(t', t); }
  }

  lemma BarInside(t: string, t': string)
    requires t + "|" <= t'
    ensures !AllType(t')
  {
    assert t'[|t|] == (t + "|")[|t|];
  }

  lemma BareTokenShape(t: string, n: nat)
    requires AllType(t)
    ensures AllType(BareToken(t, n)) && BareToken(t, n) != ""
    ensures TrimBrackets(TokenOf(t, n)) == BareToken(t, n)
  {
    var b, s := BareToken(t, n), TokenOf(t, n);
    assert forall i | 0 <= i < |b| :: IsTypeChar(b[i]);
    assert s[1..] == b + "]";
    assert s[1..][0] == b[0] && !IsBracket(b[0]);
    assert s[1..][..|b|] == b;
    assert !IsBracket(b[|b| - 1]);
    calc {
      TrimBrackets(s);
      TrimBrackets(b + "]");
      TrimBrackets(b);
      b;
    }
  }

  lemma TypeAliasValid(t: string)
    requires ValidType(t)
    ensures ValidType(TypeAlias(t))
  {
  }

  // ---------- What one assignment keeps ----------

  ghost predicate Grows(a: map<string, string>, b: map<string, string>) {
    forall x | x in a :: x in b && b[x] == a[x]
  }

  /** `m'` only adds: every placeholder and alias bound in `m` still means the same. */
  ghost predicate Extends(m: Mapping, m': Mapping) {
    && Grows(m.tokenToOriginal, m'.tokenToOriginal)
    && Grows(m.originalToToken, m'.originalToToken)
    && AliasesGrow(m, m')
  }

  ghost predicate AliasesGrow(m: Mapping, m': Mapping) {
    Grows(m.tokenAliases, m'.tokenAliases) && Grows(m.normalizedAliases, m'.normalizedAliases)
  }

  lemma BindAliasKeeps(m: Mapping, alias: string, canonical: string)
    requires canonical in m.tokenToOriginal && IsAlias(alias) && m.AliasesBound()
    ensures var m' := m.BindAlias(alias, canonical);
      && AliasesGrow(m, m') && m'.AliasesBound()
      && m' == m.(tokenAliases := m'.tokenAliases, normalizedAliases := m'.normalizedAliases)
      && (alias != canonical ==> alias in m'.tokenAliases)
  {
  }

  lemma BindAliasFrame(m: Mapping, alias: string, canonical: string)
    ensures var m' := m.BindAlias(alias, canonical);
      m' == m.(tokenAliases := m'.tokenAliases, normalizedAliases := m'.normalizedAliases)
  {
    hide Normalize;
  }

  /** Binding aliases touches nothing but the alias tables. */
  lemma BindAliasesFrame(m: Mapping, canonical: string, t: string, n: nat)
    ensures var m' := m.BindAliases(canonical, t, n);
      m' == m.(tokenAliases := m'.tokenAliases, normalizedAliases := m'.normalizedAliases)
  {
    hide TypeAlias, TokenOf, BareToken, TrimBrackets, Mapping.BindAlias;
    var short := TypeAlias(t);
    var m1 := m.BindAlias(TrimBrackets(canonical), canonical);
    var m2 := m1.BindAlias(TokenOf(short, n), canonical);
    BindAliasFrame(m, TrimBrackets(canonical), canonical);
    BindAliasFrame(m1, TokenOf(short, n), canonical);
    BindAliasFrame(m2, BareToken(short, n), canonical);
  }

  lemma BindAliasesKeeps(m: Mapping, t: string, n: nat)
    requires ValidType(t) && TokenOf(t, n) in m.tokenToOriginal && m.AliasesBound()
    ensures var m' := m.BindAliases(TokenOf(t, n), t, n);
      && AliasesGrow(m, m') && m'.AliasesBound()
      && m' == m.(tokenAliases := m'.tokenAliases, normalizedAliases := m'.normalizedAliases)
      && BareToken(t, n) in m'.tokenAliases
  {
    var token, short := TokenOf(t, n), TypeAlias(t);
    BareTokenShape(t, n);
    TypeAliasValid(t);
    BareTokenShape(short, n);
    assert BareToken(t, n)[0] != '[';
    BindAliasKeeps(m, BareToken(t, n), token);
    var m1 := m.BindAlias(BareToken(t, n), token);
    assert IsAlias(TokenOf(short, n));
    BindAliasKeeps(m1, TokenOf(short, n), token);
    BindAliasKeeps(m1.BindAlias(TokenOf(short, n), token), BareToken(short, n), token);
  }

  lemma NextTokenIsNew(m: Mapping, t: string)
    requires m.TokensWF()
    ensures TokenOf(t, m.Counter(t) + 1) !in m.tokenToOriginal
  {
    var token := TokenOf(t, m.Counter(t) + 1);
    if token in m.tokenToOriginal {
      assert m.Issued(token);
      var t', n :| ValidType(t') && 1 <= n <= m.Counter(t') && token == TokenOf(t', n);
      TokenInjective(t, m.Counter(t) + 1, t', n);
    }
  }

  /** What issuing a new token does to the tokens. */
  ghost predicate Issues(m: Mapping, t: string, original: string, m': Mapping) {
    var n := m.Counter(t) + 1;
    var token := TokenOf(t, n);
    && KeyOf(t, original) !in m.originalToToken
    && token !in m.tokenToOriginal
    && m'.counters == m.counters[t := n]
    && m'.originalToToken == m.originalToToken[KeyOf(t, original) := token]
    && m'.tokenToOriginal == m.tokenToOriginal[token := original]
  }

  /** What issuing a new token does to the alias tables: they only grow. */
  ghost predicate BindsAliases(m: Mapping, t: string, m': Mapping) {
    AliasesGrow(m, m') && m'.AliasesBound() && BareToken(t, m.Counter(t) + 1) in m'.tokenAliases
  }

  lemma AssignIssues(m: Mapping, t: string, original: string)
    requires m.TokensWF() && m.AliasesWF() && ValidType(t) && KeyOf(t, original) !in m.originalToToken
    ensures Issues(m, t, original, m.Assign(t, original)) && BindsAliases(m, t, m.Assign(t, original))
  {
    NextTokenIsNew(m, t);
    var n := m.Counter(t) + 1;
    var token := TokenOf(t, n);
    var m1 := m.(counters := m.counters[t := n], originalToToken := m.originalToToken[KeyOf(t, original) := token],
                 tokenToOriginal := m.tokenToOriginal[token := original]);
    assert m1.AliasesBound();
    BindAliasesKeeps(m1, t, n);
  }

  lemma IssuingKeepsTokens(m: Mapping, t: string, original: string, m': Mapping)
    requires m.TokensWF() && ValidType(t) && Issues(m, t, original, m')
    ensures m'.TokensWF()
  {
    var n := m.Counter(t) + 1;
    forall x | x in m'.tokenToOriginal ensures m'.Issued(x) {
      if x in m.tokenToOriginal {
        assert m.Issued(x);
        var t', k :| ValidType(t') && 1 <= k <= m.Counter(t') && x == TokenOf(t', k);
        assert k <= m'.Counter(t');
      } else {
        assert x == TokenOf(t, n) && n <= m'.Counter(t);
      }
    }
    forall t', k | ValidType(t') && 1 <= k <= m'.Counter(t') ensures TokenOf(t', k) in m'.tokenToOriginal {
      assert (t' == t && k == n) || k <= m.Counter(t');
    }
  }

  lemma IssuingKeepsKeys(m: Mapping, t: string, original: string, m': Mapping, t': string, o: string)
    requires ValidType(t) && Issues(m, t, original, m')
    requires ValidType(t') && KeyOf(t', o) in m'.originalToToken
    requires KeyOf(t', o) in m.originalToToken ==> m.Owns(t', o, m.originalToToken[KeyOf(t', o)])
    ensures m'.Owns(t', o, m'.originalToToken[KeyOf(t', o)])
  {
    var n := m.Counter(t) + 1;
    if KeyOf(t', o) == KeyOf(t, original) {
      KeyInjective(t', o, t, original);
      assert n <= m'.Counter(t) && TokenOf(t, n) == m'.originalToToken[KeyOf(t', o)];
    } else {
      var token := m.originalToToken[KeyOf(t', o)];
      var k :| 1 <= k <= m.Counter(t') && token == TokenOf(t', k);
      assert k <= m'.Counter(t');
    }
  }

  lemma IssuingKeepsOwners(m: Mapping, t: string, original: string, m': Mapping, t': string, k: nat)
    requires ValidType(t) && Issues(m, t, original, m')
    requires ValidType(t') && 1 <= k <= m'.Counter(t')
    requires k <= m.Counter(t') ==> m.Owned(t', k)
    ensures m'.Owned(t', k)
  {
    assert (t' == t && k == m.Counter(t) + 1) || k <= m.Counter(t');
  }

  lemma IssuingKeepsOriginals(m: Mapping, t: string, original: string, m': Mapping)
    requires m.OriginalsWF() && ValidType(t) && Issues(m, t, original, m')
    ensures m'.OriginalsWF()
  {
    forall t', o | ValidType(t') && KeyOf(t', o) in m'.originalToToken
      ensures m'.Owns(t', o, m'.originalToToken[KeyOf(t', o)])
    {
      IssuingKeepsKeys(m, t, original, m', t', o);
    }
    forall t', k | ValidType(t') && 1 <= k <= m'.Counter(t') ensures m'.Owned(t', k) {
      IssuingKeepsOwners(m, t, original, m', t', k);
    }
  }

  lemma IssuingKeepsAliases(m: Mapping, t: string, original: string, m': Mapping)
    requires m.AliasesWF() && ValidType(t) && Issues(m, t, original, m') && BindsAliases(m, t, m')
    ensures m'.AliasesWF()
  {
    forall t', k | ValidType(t') && 1 <= k <= m'.Counter(t') ensures m'.BareBound(t', k) {
      assert (t' == t && k == m.Counter(t) + 1) || m.BareBound(t', k);
    }
  }

  lemma IssuingKeepsWF(m: Mapping, t: string, original: string, m': Mapping)
    requires m.WF() && ValidType(t) && Issues(m, t, original, m') && BindsAliases(m, t, m')
    ensures m'.WF() && Extends(m, m')
    ensures m'.originalToToken == m.originalToToken[KeyOf(t, original) := TokenOf(t, m.Counter(t) + 1)]
  {
    assert m'.TokensWF() by { IssuingKeepsTokens(m, t, original, m'); }
    assert m'.OriginalsWF() by { IssuingKeepsOriginals(m, t, original, m'); }
    assert m'.AliasesWF() by { IssuingKeepsAliases(m, t, original, m'); }
  }

  /** Asking for a token keeps the invariant and every binding, and the token resolves to the value it was asked for. */
  lemma AssignKeepsWF(m: Mapping, t: string, original: string)
    requires m.WF() && ValidType(t)
    ensures m.Assign(t, original).WF() && Extends(m, m.Assign(t, original))
    ensures m.Assign(t, original).Owns(t, original, m.TokenFor(t, original))
    ensures m.Assign(t, original).TokenFor(t, original) == m.TokenFor(t, original)
    ensures KeyOf(t, original) in m.Assign(t, original).originalToToken
  {
    if KeyOf(t, original) !in m.originalToToken {
      AssignIssues(m, t, original);
      IssuingKeepsWF(m, t, original, m.Assign(t, original));
    }
  }

  // ---------- Every run of Token calls ----------

  datatype Ask = Ask(entityType: string, original: string)

  function AssignAll(m: Mapping, asks: seq<Ask>): Mapping
    decreases |asks|
  {
    if asks == [] then m else AssignAll(m.Assign(asks[0].entityType, asks[0].original), asks[1..])
  }

  lemma ExtendsItself(m: Mapping)
    ensures Extends(m, m)
  {
  }

  lemma ExtendsTransitive(m: Mapping, m': Mapping, m'': Mapping)
    requires Extends(m, m') && Extends(m', m'')
    ensures Extends(m, m'')
  {
  }

  lemma EmptyWF()
    ensures Empty().WF()
  {
  }

  /** Over any run of requests the invariant holds and no binding ever changes. */
  lemma {:induction false} AssignAllKeepsWF(m: Mapping, asks: seq<Ask>)
    requires m.WF() && forall i | 0 <= i < |asks| :: ValidType(asks[i].entityType)
    ensures AssignAll(m, asks).WF() && Extends(m, AssignAll(m, asks))
    decreases |asks|
  {
    if asks != [] {
      var m1 := m.Assign(asks[0].entityType, asks[0].original);
      AssignKeepsWF(m, asks[0].entityType, asks[0].original);
      AssignAllKeepsWF(m1, asks[1..]);
      assert Extends(m, AssignAll(m, asks)) by { ExtendsTransitive(m, m1, AssignAll(m1, asks[1..])); }
    }
  }

  /** Every pair asked for in a run keeps a token of its own at the end of it. */
  lemma {:induction false} AssignAllRemembers(m: Mapping, asks: seq<Ask>, i: nat)
    requires m.WF() && (forall k | 0 <= k < |asks| :: ValidType(asks[k].entityType)) && i < |asks|
    ensures var m' := AssignAll(m, asks);
      m'.Owns(asks[i].entityType, asks[i].original, m'.TokenFor(asks[i].entityType, asks[i].original))
    decreases |asks|
  {
    var m1 := m.Assign(asks[0].entityType, asks[0].original);
    AssignKeepsWF(m, asks[0].entityType, asks[0].original);
    if i > 0 {
      AssignAllRemembers(m1, asks[1..], i - 1);
    } else {
      AssignAllKeepsWF(m1, asks[1..]);
      StillOwns(m1, AssignAll(m1, asks[1..]), asks[0].entityType, asks[0].original);
    }
  }

  lemma StillOwns(m: Mapping, m': Mapping, t: string, o: string)
    requires KeyOf(t, o) in m.originalToToken && Extends(m, m') && m'.WF() && ValidType(t)
    ensures m'.Owns(t, o, m'.TokenFor(t, o)) && m'.TokenFor(t, o) == m.TokenFor(t, o)
  {
  }

  /** Two pairs share a token exactly when they are the same pair. */
  lemma TokensInjective(m: Mapping, t: string, o: string, t': string, o': string)
    requires m.WF() && ValidType(t) && ValidType(t')
    requires KeyOf(t, o) in m.originalToToken && KeyOf(t', o') in m.originalToToken
    ensures m.TokenFor(t, o) == m.TokenFor(t', o') <==> t == t' && o == o'
  {
    assert m.Owns(t, o, m.TokenFor(t, o)) && m.Owns(t', o', m.TokenFor(t', o'));
    if m.TokenFor(t, o) == m.TokenFor(t', o') {
      var n :| 1 <= n <= m.Counter(t) && m.TokenFor(t, o) == TokenOf(t, n);
      var n' :| 1 <= n' <= m.Counter(t') && m.TokenFor(t', o') == TokenOf(t', n');
      TokenInjective(t, n, t', n');
    }
  }

  /** The tokens of type `t` are exactly [t_1] .. [t_Counter(t)]. */
  lemma TokensOfType(m: Mapping, t: string, n: nat)
    requires m.WF() && ValidType(t)
    ensures TokenOf(t, n) in m.tokenToOriginal <==> 1 <= n <= m.Counter(t)
  {
    if TokenOf(t, n) in m.tokenToOriginal {
      assert m.Issued(TokenOf(t, n));
      var t', k :| ValidType(t') && 1 <= k <= m.Counter(t') && TokenOf(t, n) == TokenOf(t', k);
      TokenInjective(t, n, t', k);
    }
  }

  // ---------- Bare aliases ----------

  predicate StartsOpen(s: string) { s != "" && s[0] == '[' }

  /** What the search list of bare placeholders holds: the tokens without brackets, and the bare aliases. */
  ghost predicate IsBare(m: Mapping, alias: string) {
    || (alias in m.tokenAliases && !StartsOpen(alias))
    || exists token | token in m.tokenToOriginal :: alias == TrimBrackets(token)
  }

  /** Every bare placeholder is a bound alias over the type alphabet. */
  lemma BareIsAlias(m: Mapping, alias: string)
    requires m.WF()
    ensures IsBare(m, alias) <==> alias in m.tokenAliases && !StartsOpen(alias)
    ensures IsBare(m, alias) ==> alias != "" && AllType(alias) && m.Original(alias).Some?
  {
    if token :| token in m.tokenToOriginal && alias == TrimBrackets(token) {
      assert m.Issued(token);
      var t, n :| ValidType(t) && 1 <= n <= m.Counter(t) && token == TokenOf(t, n);
      BareTokenShape(t, n);
      assert m.BareBound(t, n);
      assert IsTypeChar(alias[0]);
    }
    if alias in m.tokenAliases && !StartsOpen(alias) {
      assert IsAlias(alias) && AllType(alias);
      assert alias !in m.tokenToOriginal by { assert alias in m.tokenToOriginal ==> m.Issued(alias); }
    }
  }

  predicate Before(a: string, b: string) { if |a| == |b| then LexLess(a, b) else |a| > |b| }

  function Insert(x: string, sorted: seq<string>): (r: seq<string>)
    ensures forall a :: a in r <==> a == x || a in sorted
    ensures LongestFirst(sorted) ==> LongestFirst(r)
  {
    if sorted == [] || !Before(sorted[0], x) then [x] + sorted
    else
      assert forall j | 0 < j < |sorted| :: sorted[j] in sorted[1..];
      var rest := Insert(x, sorted[1..]);
      assert forall j | 0 <= j < |rest| :: rest[j] in rest;
      [sorted[0]] + rest
  }

  function SortAliases(list: seq<string>): (r: seq<string>)
    ensures forall a :: a in r <==> a in list
    ensures LongestFirst(r)
  {
    if list == [] then [] else Insert(list[0], SortAliases(list[1..]))
  }

  predicate LongestFirst(list: seq<string>) {
    forall i, j | 0 <= i < j < |list| :: |list[i]| >= |list[j]|
  }

  // ---------- The mutable mapping ----------

  method NormalizePlaceholderToken(token: string) returns (out: string)
    ensures out == Normalize(token)
  {
    var s := TrimSpace(StripClose(StripOpen(TrimSpace(token))));
    if s == "" { return ""; }
    var b := "";
    var lastWasSep := false;
    for i := 0 to |s|
      invariant forall k | 0 <= k < i :: IsPlaceholderChar(s[k])
      invariant b != "" ==> (lastWasSep <==> b[|b| - 1] == '_')
      invariant b == "" ==> !lastWasSep
      invariant Squeeze(s, "") == Squeeze(s[i..], b)
    {
      var c := s[i];
      assert s[i..][0] == c && s[i..][1..] == s[i + 1..];
      if IsLower(c) {
        b := b + [c - 'a' + 'A'];
        lastWasSep := false;
      } else if IsUpper(c) || IsDigit(c) {
        b := b + [c];
        lastWasSep := false;
      } else if c == '_' || c == '-' || c == ' ' {
        if b != "" && !lastWasSep {
          b := b + "_";
          lastWasSep := true;
        }
      } else {
        return "";
      }
    }
    out := TrimUnderscores(b);
  }

  class PIIMapping {
    var tokenToOriginal: map<string, string>
    var tokenAliases: map<string, string>
    var normalizedTokenAliases: map<string, string>
    var originalToToken: map<string, string>
    var counters: map<string, nat>

    function View(): Mapping
      reads this
    {
      Mapping(tokenToOriginal, tokenAliases, normalizedTokenAliases, originalToToken, counters)
    }

    constructor ()
      ensures View() == Empty() && View().WF()
    {
      tokenToOriginal, tokenAliases, normalizedTokenAliases, originalToToken, counters := map[], map[], map[], map[],
        map[];
      new;
      EmptyWF();
    }

    method Len() returns (n: nat)
      ensures n == |View().tokenToOriginal|
    {
      n := |tokenToOriginal|;
    }

    method Token(entityType: string, original: string) returns (token: string)
      modifies this
      ensures View() == old(View()).Assign(entityType, original)
      ensures token == old(View()).TokenFor(entityType, original)
      ensures old(View()).WF() && ValidType(entityType) ==>
        View().WF() && Extends(old(View()), View()) && View().Owns(entityType, original, token)
    {
      hide Mapping.WF, Mapping.Owns, Mapping.BindAliases, Extends, ValidType;
      if View().WF() && ValidType(entityType) { AssignKeepsWF(View(), entityType, original); }
      var key := entityType + "|" + original;
      if key in originalToToken {
        token := originalToToken[key];
      } else {
        counters := counters[entityType := (if entityType in counters then counters[entityType] else 0) + 1];
        var index := counters[entityType];
        token := "[" + (entityType + "_" + Decimal(index)) + "]";
        originalToToken := originalToToken[key := token];
        tokenToOriginal := tokenToOriginal[token := original];
        RegisterTokenAliases(token, entityType, index);
      }
    }

    method Original(token: string) returns (value: string, ok: bool)
      ensures View().Original(token) == if ok then Some(value) else None
      ensures !ok ==> value == ""
    {
      if token in tokenToOriginal {
        return tokenToOriginal[token], true;
      }
      var canonical := "";
      if token in tokenAliases {
        canonical := tokenAliases[token];
      } else {
        var normalized := NormalizePlaceholderToken(token);
        if normalized !in normalizedTokenAliases {
          return "", false;
        }
        canonical := normalizedTokenAliases[normalized];
      }
      if canonical in tokenToOriginal {
        return tokenToOriginal[canonical], true;
      }
      return "", false;
    }

    method RegisterTokenAliases(canonical: string, entityType: string, index: nat)
      modifies this`tokenAliases, this`normalizedTokenAliases
      ensures View() == old(View()).BindAliases(canonical, entityType, index)
    {
      RegisterTokenAlias(TrimBrackets(canonical), canonical);
      var short := TypeAlias(entityType);
      if short != "" && short != entityType {
        RegisterTokenAlias("[" + (short + "_" + Decimal(index)) + "]", canonical);
        RegisterTokenAlias(short + "_" + Decimal(index), canonical);
      }
    }

    method RegisterTokenAlias(alias: string, canonical: string)
      modifies this`tokenAliases, this`normalizedTokenAliases
      ensures View() == old(View()).BindAlias(alias, canonical)
    {
      if alias == "" || alias == canonical {
        return;
      }
      if alias in tokenAliases && tokenAliases[alias] != canonical {
        return;
      }
      tokenAliases := tokenAliases[alias := canonical];
      var normalized := NormalizePlaceholderToken(alias);
      if normalized == "" {
        return;
      }
      if normalized in normalizedTokenAliases && normalizedTokenAliases[normalized] != canonical {
        return;
      }
      normalizedTokenAliases := normalizedTokenAliases[normalized := canonical];
    }

    method BareAliasesByLength() returns (aliases: seq<string>)
      ensures forall a :: a in aliases <==> IsBare(View(), a)
      ensures LongestFirst(aliases)
    {
      aliases := [];
      var keys := tokenToOriginal.Keys;
      while keys != {}
        invariant keys <= tokenToOriginal.Keys
        invariant forall a :: a in aliases <==>
          exists token | token in tokenToOriginal.Keys - keys :: a == TrimBrackets(token)
      {
        var token :| token in keys;
        ghost var before, had := keys, aliases;
        keys := keys - {token};
        aliases := aliases + [TrimBrackets(token)];
        assert tokenToOriginal.Keys - keys == (tokenToOriginal.Keys - before) + {token};
        forall a ensures a in aliases <==> exists x | x in tokenToOriginal.Keys - keys :: a == TrimBrackets(x) {
          if a in had {
            var x :| x in tokenToOriginal.Keys - before && a == TrimBrackets(x);
            assert x in tokenToOriginal.Keys - keys;
          } else if a == TrimBrackets(token) {
            assert token in tokenToOriginal.Keys - keys;
          }
        }
      }
      keys := tokenAliases.Keys;
      while keys != {}
        invariant keys <= tokenAliases.Keys
        invariant forall a :: a in aliases <==>
          (exists token | token in tokenToOriginal :: a == TrimBrackets(token))
          || (a in tokenAliases.Keys - keys && !StartsOpen(a))
      {
        var alias :| alias in keys;
        keys := keys - {alias};
        if !StartsOpen(alias) {
          aliases := aliases + [alias];
        }
      }
      aliases := SortAliases(aliases);
    }

    /** The first listed alias that starts the text, ignoring case. */
    method MatchBareAlias(text: string, aliases: seq<string>) returns (alias: string, original: string, ok: bool)
      ensures ok ==> exists k: nat :: k < |aliases| && FirstMatch(View(), text, aliases, k) && alias == aliases[k]
      ensures ok ==> View().Original(alias) == Some(original)
      ensures !ok ==> forall k | 0 <= k < |aliases| :: !Matches(View(), text, aliases[k])
    {
      for k := 0 to |aliases|
        invariant forall i | 0 <= i < k :: !Matches(View(), text, aliases[i])
      {
        if |text| < |aliases[k]| || !EqualFold(text[..|aliases[k]|], aliases[k]) {
          continue;
        }
        var value, found := Original(aliases[k]);
        if found {
          return aliases[k], value, true;
        }
      }
      return "", "", false;
    }
  }

  ghost predicate Matches(m: Mapping, text: string, alias: string) {
    |alias| <= |text| && EqualFold(text[..|alias|], alias) && m.Original(alias).Some?
  }

  ghost predicate FirstMatch(m: Mapping, text: string, aliases: seq<string>, k: nat) {
    && k < |aliases| && Matches(m, text, aliases[k])
    && forall i | 0 <= i < k :: !Matches(m, text, aliases[i])
  }
}
