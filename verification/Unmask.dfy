/** Restoring placeholders (pkg/domain/pii.go, Unmask): what the text means token by token,
    and the scanning loop that reaches it by a longest-first alias search. */
module Unmasking {
  import opened Common
  import opened Wrappers
  import opened Text
  import opened Mappings

  /** A bracket group is replaced exactly when the mapping knows it. */
  function RestoreGroup(m: Mapping, group: string): string {
    match m.Original(group)
    case Some(original) => original
    case None => group
  }

  /** `word` is a bare placeholder, ignoring case. */
  predicate IsBareAlias(m: Mapping, word: string) { Fold(word) in m.tokenAliases && !StartsOpen(word) }

  /** A maximal word run is replaced exactly when the whole run is a bare placeholder. */
  function RestoreRun(m: Mapping, run: string): string {
    if IsBareAlias(m, run) then RestoreGroup(m, Fold(run)) else run
  }

  predicate IsGroupStart(s: string) { s != "" && s[0] == '[' && Find(s, ']') < |s| }

  /** The length of the first lexical item: a bracket group, everything from an unterminated bracket on,
      a maximal word run, or a single other byte. */
  function ItemLen(s: string): (k: nat)
    requires s != ""
    ensures 0 < k <= |s|
  {
    if s[0] == '[' then (if Find(s, ']') < |s| then Find(s, ']') + 1 else |s|)
    else if IsWordChar(s[0]) then RunLen(s)
    else 1
  }

  function RestoreItem(m: Mapping, item: string): string {
    if IsGroupStart(item) then RestoreGroup(m, item)
    else if item != "" && IsWordChar(item[0]) then RestoreRun(m, item)
    else item
  }

  /** The text with each of its lexical items restored on its own. */
  function Unmask(m: Mapping, s: string): string {
    if s == "" then "" else RestoreItem(m, s[..ItemLen(s)]) + Unmask(m, s[ItemLen(s)..])
  }

  // ---------- The alias search picks the whole run or nothing ----------

  lemma FoldPrefix(s: string, k: nat)
    requires k <= |s|
    ensures Fold(s[..k]) == Fold(s)[..k]
    ensures Fold(s[k..]) == Fold(s)[k..]
  {
  }

  lemma FoldWord(s: string)
    ensures AllWord(s) <==> AllType(Fold(s))
  {
    assert forall i | 0 <= i < |s| :: IsWordChar(s[i]) <==> IsTypeChar(Fold(s)[i]);
    if AllType(Fold(s)) {
      assert forall i | 0 <= i < |s| :: IsTypeChar(Fold(s)[i]);
    }
  }

  /** Listed placeholders are exactly the words that bare matching accepts. */
  lemma MatchesIffAlias(m: Mapping, text: string, alias: string)
    requires m.WF() && IsBare(m, alias)
    ensures Matches(m, text, alias) <==> |alias| <= |text| && Fold(text[..|alias|]) == alias
    ensures Matches(m, text, alias) ==> 0 < |alias| <= RunLen(text)
  {
    BareIsAlias(m, alias);
    FoldType(alias);
    if Matches(m, text, alias) {
      var word := text[..|alias|];
      FoldWord(word);
      RunLenAtLeast(text, |alias|);
    }
  }

  /** `aliases` is a longest-first list of the bare placeholders. */
  ghost predicate Lists(m: Mapping, aliases: seq<string>) {
    LongestFirst(aliases) && forall a :: a in aliases <==> IsBare(m, a)
  }

  /** The first match of the longest-first list ends at the end of the run exactly when the run is a
      placeholder, and then it is that placeholder. */
  lemma FirstMatchIsRun(m: Mapping, text: string, aliases: seq<string>, k: nat)
    requires m.WF() && Lists(m, aliases)
    requires FirstMatch(m, text, aliases, k)
    ensures 0 < |aliases[k]| <= RunLen(text)
    ensures |aliases[k]| == RunLen(text) <==> IsBareAlias(m, text[..RunLen(text)])
    ensures |aliases[k]| == RunLen(text) ==> Fold(text[..RunLen(text)]) == aliases[k]
  {
    var run := text[..RunLen(text)];
    assert aliases[k] in aliases;
    MatchesIffAlias(m, text, aliases[k]);
    BareIsAlias(m, aliases[k]);
    if IsBareAlias(m, run) {
      RunIsListed(m, run);
      var i :| 0 <= i < |aliases| && aliases[i] == Fold(run);
      MatchesIffAlias(m, text, aliases[i]);
      assert !(i < k);
    }
  }

  lemma RunIsListed(m: Mapping, run: string)
    requires m.WF() && run != "" && AllWord(run) && IsBareAlias(m, run)
    ensures IsBare(m, Fold(run))
  {
    assert IsWordChar(run[0]);
    assert Fold(run)[0] == Upper(run[0]) && !StartsOpen(Fold(run));
    BareIsAlias(m, Fold(run));
  }

  lemma NoMatchIsNoAlias(m: Mapping, text: string, aliases: seq<string>)
    requires m.WF() && Lists(m, aliases)
    requires forall i | 0 <= i < |aliases| :: !Matches(m, text, aliases[i])
    requires text != "" && IsWordChar(text[0])
    ensures !IsBareAlias(m, text[..RunLen(text)])
  {
    var run := text[..RunLen(text)];
    if IsBareAlias(m, run) {
      RunIsListed(m, run);
      var i :| 0 <= i < |aliases| && aliases[i] == Fold(run);
      MatchesIffAlias(m, text, aliases[i]);
    }
  }

  // ---------- The scanning loop ----------

  predicate IsBoundary(text: string, index: int) {
    if index < 0 || index >= |text| then true else !IsWordChar(text[index])
  }

  /** What remains to be written when the scan stands before `rest`, inside a word run or not:
      the rest of an unfinished run is copied. */
  function Remaining(m: Mapping, inRun: bool, rest: string): string {
    var k := if inRun then RunLen(rest) else 0;
    rest[..k] + Unmask(m, rest[k..])
  }

  lemma RemainingOutside(m: Mapping, inRun: bool, rest: string)
    requires !inRun || rest == "" || !IsWordChar(rest[0])
    ensures Remaining(m, inRun, rest) == Unmask(m, rest)
  {
    assert rest[..0] == "" && rest[0..] == rest;
  }

  /** An item that ends in a word byte is a maximal run or ends the text. */
  lemma ItemEnd(rest: string)
    requires rest != ""
    ensures var k := ItemLen(rest); k < |rest| && IsWordChar(rest[k - 1]) ==> !IsWordChar(rest[k])
  {
  }

  lemma RemainingAfterItem(m: Mapping, inRun: bool, rest: string)
    requires rest != "" && (!inRun || !IsWordChar(rest[0]))
    ensures var k := ItemLen(rest);
      Remaining(m, inRun, rest) == RestoreItem(m, rest[..k]) + Remaining(m, IsWordChar(rest[k - 1]), rest[k..])
  {
    var k := ItemLen(rest);
    RemainingOutside(m, inRun, rest);
    ItemEnd(rest);
    RemainingOutside(m, IsWordChar(rest[k - 1]), rest[k..]);
  }

  lemma RunTail(rest: string)
    requires RunLen(rest) > 0
    ensures RunLen(rest[1..]) == RunLen(rest) - 1
    ensures rest[..RunLen(rest)] == [rest[0]] + rest[1..][..RunLen(rest[1..])]
    ensures rest[RunLen(rest)..] == rest[1..][RunLen(rest[1..])..]
  {
  }

  /** A run that is no placeholder may be copied byte by byte. */
  lemma RemainingInRun(m: Mapping, inRun: bool, rest: string)
    requires RunLen(rest) > 0
    requires !inRun ==> !IsBareAlias(m, rest[..RunLen(rest)])
    ensures Remaining(m, inRun, rest) == [rest[0]] + Remaining(m, true, rest[1..])
  {
    var n := RunLen(rest);
    RunTail(rest);
    Assoc([rest[0]], rest[1..][..n - 1], Unmask(m, rest[n..]));
    if !inRun {
      RunItem(m, rest);
      RemainingNotInRun(m, rest);
    }
    assert Remaining(m, inRun, rest) == rest[..n] + Unmask(m, rest[n..]);
  }

  lemma RemainingNotInRun(m: Mapping, rest: string)
    ensures Remaining(m, false, rest) == Unmask(m, rest)
  {
    assert rest[..0] == "" && rest[0..] == rest;
  }

  /** What remains to be written when the scan of `text` stands at `i`. */
  function Scan(m: Mapping, text: string, i: nat): string
    requires i <= |text|
  {
    Remaining(m, !IsBoundary(text, i - 1), text[i..])
  }

  /** Writing `piece` takes the scan from `i` to `j`. */
  ghost predicate Steps(m: Mapping, text: string, i: nat, piece: string, j: nat) {
    i < j <= |text| && Scan(m, text, i) == piece + Scan(m, text, j)
  }

  lemma ScanItem(m: Mapping, text: string, i: nat, n: nat)
    requires i < |text| && n == ItemLen(text[i..]) && (IsBoundary(text, i - 1) || !IsWordChar(text[i]))
    ensures Steps(m, text, i, RestoreItem(m, text[i..][..n]), i + n)
  {
    var rest := text[i..];
    RemainingAfterItem(m, !IsBoundary(text, i - 1), rest);
    assert rest[n..] == text[i + n..];
    assert IsWordChar(rest[n - 1]) == !IsBoundary(text, i + n - 1);
  }

  lemma GroupItem(m: Mapping, rest: string, k: nat)
    requires rest != "" && rest[0] == '[' && Find(rest, ']') < |rest| && k == Find(rest, ']') + 1
    ensures ItemLen(rest) == k && RestoreItem(m, rest[..k]) == RestoreGroup(m, rest[..k])
  {
    assert rest[..k][k - 1] == ']' && rest[..k][0] == '[';
    assert IsGroupStart(rest[..k]);
  }

  lemma RunItem(m: Mapping, rest: string)
    requires RunLen(rest) > 0
    ensures ItemLen(rest) == RunLen(rest)
    ensures RestoreItem(m, rest[..RunLen(rest)]) == RestoreRun(m, rest[..RunLen(rest)])
  {
    assert rest[..RunLen(rest)][0] == rest[0] && IsWordChar(rest[0]);
  }

  lemma ScanGroup(m: Mapping, text: string, i: nat, n: nat)
    requires i < |text| && text[i] == '[' && Find(text[i..], ']') < |text| - i
    requires n == Find(text[i..], ']') + 1
    ensures Steps(m, text, i, RestoreGroup(m, text[i..][..n]), i + n)
  {
    GroupItem(m, text[i..], n);
    ScanItem(m, text, i, n);
  }

  lemma ScanOpen(m: Mapping, text: string, i: nat)
    requires i < |text| && text[i] == '[' && Find(text[i..], ']') == |text| - i
    ensures Steps(m, text, i, text[i..], |text|)
  {
    ScanItem(m, text, i, |text| - i);
    assert text[i..][..|text| - i] == text[i..] && text[|text|..] == "";
  }

  lemma ScanAlias(m: Mapping, text: string, i: nat, n: nat, original: string)
    requires i < |text| && IsBoundary(text, i - 1) && 0 < n == RunLen(text[i..])
    requires RestoreRun(m, text[i..][..n]) == original
    ensures Steps(m, text, i, original, i + n)
  {
    RunItem(m, text[i..]);
    ScanItem(m, text, i, n);
  }

  lemma ScanByte(m: Mapping, text: string, i: nat)
    requires i < |text| && text[i] != '['
    requires IsBoundary(text, i - 1) && IsWordChar(text[i]) ==> !IsBareAlias(m, text[i..][..RunLen(text[i..])])
    ensures Steps(m, text, i, [text[i]], i + 1)
  {
    var rest := text[i..];
    assert rest[0] == text[i] && rest[1..] == text[i + 1..];
    if IsWordChar(text[i]) {
      RemainingInRun(m, !IsBoundary(text, i - 1), rest);
    } else {
      ScanItem(m, text, i, 1);
      assert rest[..1] == [text[i]];
    }
  }

  /** A run is a bare placeholder exactly when some listed one equals it, ignoring case. */
  lemma RunRestoredIff(m: Mapping, run: string)
    requires m.WF() && run != "" && AllWord(run)
    ensures IsBareAlias(m, run) <==> exists a :: IsBare(m, a) && EqualFold(a, run)
  {
    if IsBareAlias(m, run) {
      RunIsListed(m, run);
      BareIsAlias(m, Fold(run));
      FoldType(Fold(run));
      assert IsBare(m, Fold(run)) && EqualFold(Fold(run), run);
    }
    if a :| IsBare(m, a) && EqualFold(a, run) {
      BareIsAlias(m, a);
      FoldType(a);
      assert IsWordChar(run[0]);
    }
  }

  /** The longest-first search finds a placeholder that ends at a boundary exactly when the whole run is one. */
  lemma SearchIsExact(m: Mapping, text: string, i: nat, aliases: seq<string>, k: nat, n: nat)
    requires m.WF() && Lists(m, aliases)
    requires i < |text| && FirstMatch(m, text[i..], aliases, k) && n == |aliases[k]|
    ensures 0 < n <= RunLen(text[i..])
    ensures IsBoundary(text, i + n) <==> IsBareAlias(m, text[i..][..RunLen(text[i..])])
    ensures IsBoundary(text, i + n) ==> n == RunLen(text[i..])
    ensures IsBoundary(text, i + n) ==> Some(RestoreRun(m, text[i..][..n])) == m.Original(aliases[k])
  {
    FirstMatchIsRun(m, text[i..], aliases, k);
    AtRunEnd(text, i, n);
  }

  lemma AtRunEnd(text: string, i: nat, k: nat)
    requires i < |text| && 0 < k <= RunLen(text[i..])
    ensures IsBoundary(text, i + k) <==> k == RunLen(text[i..])
  {
    var rest := text[i..];
    var n := RunLen(rest);
    if k < n {
      assert rest[..n][k] == text[i + k];
    } else if i + k < |text| {
      assert rest[k] == text[i + k];
    }
  }

  /** What was written before `i`, followed by what remains, is the whole restored text. */
  ghost predicate Written(m: Mapping, text: string, i: nat, out: string) {
    i <= |text| && out + Scan(m, text, i) == Unmask(m, text)
  }

  lemma Write(m: Mapping, text: string, i: nat, out: string, piece: string, j: nat)
    requires Written(m, text, i, out) && Steps(m, text, i, piece, j)
    ensures i < j <= |text| && Written(m, text, j, out + piece)
  {
    Assoc(out, piece, Scan(m, text, j));
  }

  lemma WrittenAll(m: Mapping, text: string, out: string)
    requires Written(m, text, |text|, out)
    ensures out == Unmask(m, text)
  {
    assert text[|text|..] == "";
  }

  lemma WriteNothing(m: Mapping, text: string)
    ensures Written(m, text, 0, "")
  {
    assert text[0..] == text;
    RemainingNotInRun(m, text);
  }

  lemma StepAlias(m: Mapping, text: string, i: nat, aliases: seq<string>, k: nat, n: nat, original: string)
    requires m.WF() && Lists(m, aliases)
    requires i < |text| && IsBoundary(text, i - 1) && FirstMatch(m, text[i..], aliases, k) && n == |aliases[k]|
    requires m.Original(aliases[k]) == Some(original)
    ensures IsBoundary(text, i + n) ==> Steps(m, text, i, original, i + n)
    ensures !IsBoundary(text, i + n) ==> !IsBareAlias(m, text[i..][..RunLen(text[i..])])
  {
    SearchIsExact(m, text, i, aliases, k, n);
    hide *;
    if IsBoundary(text, i + n) {
      ScanAlias(m, text, i, n, original);
    }
  }

  /** Looks for a placeholder that starts at `i` and ends at a boundary. */
  method MatchWholeRun(text: string, i: nat, mapping: PIIMapping, aliases: seq<string>)
      returns (n: nat, original: string, ok: bool)
    requires mapping.View().WF() && Lists(mapping.View(), aliases)
    requires i < |text| && IsBoundary(text, i - 1)
    ensures ok ==> Steps(mapping.View(), text, i, original, i + n)
    ensures !ok && IsWordChar(text[i]) ==> !IsBareAlias(mapping.View(), text[i..][..RunLen(text[i..])])
  {
    hide *;
    ghost var m := mapping.View();
    var alias, value, found := mapping.MatchBareAlias(text[i..], aliases);
    if found {
      ghost var k: nat :| k < |aliases| && FirstMatch(m, text[i..], aliases, k) && alias == aliases[k];
      StepAlias(m, text, i, aliases, k, |alias|, value);
      return |alias|, value, IsBoundary(text, i + |alias|);
    }
    if IsWordChar(text[i]) { NoMatchIsNoAlias(m, text[i..], aliases); }
    return 0, "", false;
  }

  lemma ListsIff(m: Mapping, aliases: seq<string>)
    requires LongestFirst(aliases) && forall a :: a in aliases <==> IsBare(m, a)
    ensures Lists(m, aliases)
  {
  }

  lemma RestoreKnown(m: Mapping, token: string, original: string, ok: bool)
    requires m.Original(token) == if ok then Some(original) else None
    ensures RestoreGroup(m, token) == if ok then original else token
  {
  }

  /** No mapping restores like an empty one. */
  function ViewOf(mapping: PIIMapping?): Mapping
    reads mapping
  {
    if mapping == null then Empty() else mapping.View()
  }

  /** Restores what stands at `i`: a bracket group, an unterminated bracket, a whole run, or one byte. */
  method RestoreNext(text: string, i: nat, mapping: PIIMapping, aliases: seq<string>) returns (piece: string, n: nat)
    requires mapping.View().WF() && Lists(mapping.View(), aliases) && i < |text|
    ensures Steps(mapping.View(), text, i, piece, i + n)
  {
    hide *;
    ghost var m := mapping.View();
    if text[i] == '[' {
      var close := Find(text[i..], ']');
      if close < |text| - i {
        n := close + 1;
        var token := text[i..][..n];
        var original, ok := mapping.Original(token);
        ScanGroup(m, text, i, n);
        RestoreKnown(m, token, original, ok);
        return if ok then original else token, n;
      }
      ScanOpen(m, text, i);
      return text[i..], |text| - i;
    }
    if IsBoundary(text, i - 1) {
      var ok;
      n, piece, ok := MatchWholeRun(text, i, mapping, aliases);
      if ok {
        return;
      }
    }
    ScanByte(m, text, i);
    return [text[i]], 1;
  }

  lemma UnmaskNoMapping(text: string)
    ensures Unmask(ViewOf(null), text) == text
  {
    EmptyWF();
    UnmaskEmptyMapping(Empty(), text);
  }

  lemma ViewIs(mapping: PIIMapping)
    ensures ViewOf(mapping) == mapping.View()
  {
  }

  /** The loop restores exactly the items that the mapping knows. */
  method UnmaskText(text: string, mapping: PIIMapping?) returns (out: string)
    requires mapping != null ==> mapping.View().WF()
    ensures out == Unmask(ViewOf(mapping), text)
  {
    hide *;
    if mapping == null {
      UnmaskNoMapping(text);
      return text;
    }
    ViewIs(mapping);
    ghost var m := mapping.View();
    var len := mapping.Len();
    if len == 0 || text == "" {
      UnmaskEmptyMapping(m, text);
      return text;
    }
    var aliases := mapping.BareAliasesByLength();
    ListsIff(m, aliases);
    out := "";
    var i := 0;
    WriteNothing(m, text);
    while i < |text|
      invariant i <= |text| && Written(m, text, i, out)
      decreases |text| - i
    {
      var piece, n := RestoreNext(text, i, mapping, aliases);
      Write(m, text, i, out, piece, i + n);
      out := out + piece;
      i := i + n;
    }
    WrittenAll(m, text, out);
  }

  lemma NothingToRestore(m: Mapping)
    ensures Unmask(m, "") == ""
  {
  }

  lemma UnknownStays(m: Mapping, item: string)
    requires m.WF() && |m.tokenToOriginal| == 0
    ensures RestoreItem(m, item) == item
  {
    assert m.tokenToOriginal == map[];
    assert forall a :: a !in m.tokenAliases && a !in m.normalizedAliases;
  }

  lemma UnmaskFirst(m: Mapping, s: string, n: nat)
    requires s != "" && n == ItemLen(s)
    ensures Unmask(m, s) == RestoreItem(m, s[..n]) + Unmask(m, s[n..])
    ensures s == s[..n] + s[n..]
  {
    hide RestoreItem, ItemLen;
  }

  /** With nothing masked there is nothing to restore. */
  lemma {:induction false} UnmaskEmptyMapping(m: Mapping, s: string)
    requires m.WF() && (|m.tokenToOriginal| == 0 || s == "")
    ensures Unmask(m, s) == s
  {
    hide *;
    if s == "" {
      NothingToRestore(m);
    } else {
      var n := ItemLen(s);
      UnmaskEmptyMapping(m, s[n..]);
      UnknownStays(m, s[..n]);
      UnmaskFirst(m, s, n);
    }
  }
}
