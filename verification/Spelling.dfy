/** What two spellings of a placeholder have in common (pkg/domain/pii.go, normalizePlaceholderToken):
    the normal form stands for the words of a text, and for nothing else. */
module Spelling {
  import opened Common
  import opened Text
  import opened Mappings

  // ---------- Words ----------

  /** How many bytes in front are no separators. */
  function WordLen(s: string): (k: nat)
    ensures k <= |s| && (forall i | 0 <= i < k :: !IsSeparator(s[i])) && (k < |s| ==> IsSeparator(s[k]))
  {
    if s == "" || IsSeparator(s[0]) then 0 else 1 + WordLen(s[1..])
  }

  /** The parts between separators, in capitals. */
  function WordsOf(s: string): seq<string>
    decreases |s|
  {
    if s == "" then []
    else if IsSeparator(s[0]) then WordsOf(s[1..])
    else [Fold(s[..WordLen(s)])] + WordsOf(s[WordLen(s)..])
  }

  predicate AllPlaceholder(s: string) { forall i | 0 <= i < |s| :: IsPlaceholderChar(s[i]) }

  /** The words of a text without the brackets and the space around it; none when it holds other bytes. */
  function Words(token: string): seq<string> {
    if AllPlaceholder(Core(token)) then WordsOf(Core(token)) else []
  }

  predicate Blank(s: string) { forall i | 0 <= i < |s| :: s[i] == ' ' || s[i] in "\t\n\r" || s[i] as int in {11, 12} }

  /** Space, with at most one bracket `c` in it. */
  ghost predicate Around(s: string, c: char) {
    Blank(s) || exists i | 0 <= i < |s| :: s[i] == c && Blank(s[..i]) && Blank(s[i + 1..])
  }

  ghost predicate CoreIn(token: string, core: string, front: string, back: string) {
    && token == front + core + back && Around(front, '[') && Around(back, ']')
    && (core != "" ==> !Blank([core[0]]) && !Blank([core[|core| - 1]]))
    && (core != "" && core[0] == '[' ==> !Blank(front)) && (core != "" && core[|core| - 1] == ']' ==> !Blank(back))
  }

  // ---------- The core ----------

  lemma {:induction false} Trimmed(s: string) returns (front: string, back: string)
    ensures s == front + TrimSpace(s) + back && Blank(front) && Blank(back)
    ensures TrimSpace(s) != "" ==> !IsSpace(TrimSpace(s)[0]) && !IsSpace(TrimSpace(s)[|TrimSpace(s)| - 1])
    decreases |s|
  {
    TrimStep(s);
    hide TrimSpace, IsSpace, Blank;
    if s != "" && IsSpace(s[0]) {
      var f, b := Trimmed(s[1..]);
      SpaceIsBlank(s[0]);
      BlankConcat([s[0]], f);
      front, back := [s[0]] + f, b;
      assert s == [s[0]] + s[1..];
    } else if s != "" && IsSpace(s[|s| - 1]) {
      var f, b := Trimmed(s[..|s| - 1]);
      SpaceIsBlank(s[|s| - 1]);
      BlankConcat(b, [s[|s| - 1]]);
      front, back := f, b + [s[|s| - 1]];
      assert s == s[..|s| - 1] + [s[|s| - 1]];
    } else {
      NothingIsBlank();
      front, back := "", "";
    }
  }

  lemma TrimStep(s: string)
    ensures TrimSpace(s) == if s != "" && IsSpace(s[0]) then TrimSpace(s[1..])
                            else if s != "" && IsSpace(s[|s| - 1]) then TrimSpace(s[..|s| - 1]) else s
  {
  }

  lemma NothingIsBlank()
    ensures Blank("")
  {
  }

  lemma BlankConcat(a: string, b: string)
    requires Blank(a) && Blank(b)
    ensures Blank(a + b)
  {
  }

  lemma BracketAround(a: string, c: char, b: string)
    requires Blank(a) && Blank(b)
    ensures Around(a + [c] + b, c) && Around(a + b, c)
  {
    var s := a + [c] + b;
    assert s[|a|] == c && s[..|a|] == a && s[|a| + 1..] == b;
    BlankConcat(a, b);
  }

  lemma FirstByte(s: string, f: string, core: string, rest: string)
    requires s == f + core + rest && Blank(f) && core != "" && !Blank([s[0]])
    ensures s[0] == core[0]
  {
    assert forall i | 0 <= i < |f| :: s[i] == f[i];
  }

  lemma LastByte(s: string, rest: string, core: string, b: string)
    requires s == rest + core + b && Blank(b) && core != "" && !Blank([s[|s| - 1]])
    ensures s[|s| - 1] == core[|core| - 1]
  {
    assert forall i | |rest + core| <= i < |s| :: s[i] == b[i - |rest + core|];
  }

  lemma BracketIsNoBlank(f: string, open: string, f': string)
    requires open == "[" || open == "]"
    ensures !Blank(f + open + f')
  {
    assert (f + open + f')[|f|] == open[0];
  }

  lemma SpaceIsBlank(c: char)
    ensures IsSpace(c) <==> Blank([c])
  {
    assert [c][0] == c;
  }

  lemma Together(f: string, open: string, f': string, core: string, b': string, close: string, b: string)
    ensures f + (open + (f' + core + b') + close) + b == (f + open + f') + core + (b' + close + b)
  {
  }

  /** The core is what is left without space around it, one opening bracket in front and one closing bracket behind. */
  lemma CoreIs(token: string) returns (front: string, back: string)
    ensures CoreIn(token, Core(token), front, back)
  {
    hide TrimSpace, Blank, Around;
    var s, core := TrimSpace(token), Core(token);
    var f, b := Trimmed(token);
    var open := if s != "" && s[0] == '[' then "[" else "";
    var close := if StripOpen(s) != "" && s[|s| - 1] == ']' then "]" else "";
    var inner := StripClose(StripOpen(s));
    assert s[|open|..] == StripOpen(s);
    var f', b' := Trimmed(inner);
    assert s == open + inner + close;
    front, back := f + open + f', b' + close + b;
    Together(f, open, f', core, b', close, b);
    BracketAround(f, '[', f');
    BracketAround(b', ']', b);
    assert f + "" == f && b' + "" == b';
    if core != "" { CoreEnds(s, open, f', core, b', close, f, b); }
  }

  lemma CoreEnds(s: string, open: string, f': string, core: string, b': string, close: string, f: string, b: string)
    requires s == open + (f' + core + b') + close && core != "" && Blank(f') && Blank(b')
    requires !IsSpace(s[0]) && !IsSpace(s[|s| - 1]) && !IsSpace(core[0]) && !IsSpace(core[|core| - 1])
    requires open == if s[0] == '[' then "[" else ""
    requires close == if |s| > |open| && s[|s| - 1] == ']' then "]" else ""
    ensures !Blank([core[0]]) && !Blank([core[|core| - 1]])
    ensures core[0] == '[' ==> !Blank(f + open + f')
    ensures core[|core| - 1] == ']' ==> !Blank(b' + close + b)
  {
    hide Blank, IsSpace;
    SpaceIsBlank(s[0]);
    SpaceIsBlank(s[|s| - 1]);
    SpaceIsBlank(core[0]);
    SpaceIsBlank(core[|core| - 1]);
    if core[0] == '[' {
      if open == "" { FirstByte(s, f', core, b' + close); }
      BracketIsNoBlank(f, open, f');
    }
    if core[|core| - 1] == ']' {
      if close == "" { LastByte(s, open + f', core, b'); }
      BracketIsNoBlank(b', close, b);
    }
  }

  // ---------- The normal form stands for the words ----------

  predicate GoodWord(w: string) { w != "" && forall i | 0 <= i < |w| :: IsUpper(w[i]) || IsDigit(w[i]) }

  predicate GoodWords(ws: seq<string>) { forall i | 0 <= i < |ws| :: GoodWord(ws[i]) }

  /** The words with an underscore behind each. */
  function Underlined(ws: seq<string>): string { if ws == [] then "" else ws[0] + "_" + Underlined(ws[1..]) }

  lemma {:induction false} UnderlinedSnoc(ws: seq<string>, w: string)
    ensures Underlined(ws + [w]) == Underlined(ws) + w + "_"
  {
    if ws == [] {
      assert [] + [w] == [w] && [w][1..] == [];
      assert w + "_" + "" == "" + w + "_";
    } else {
      assert (ws + [w])[0] == ws[0] && (ws + [w])[1..] == ws[1..] + [w];
      UnderlinedSnoc(ws[1..], w);
      UnderlinedCons(ws);
      UnderlinedCons(ws + [w]);
      hide Underlined;
      Regroup(ws[0] + "_", Underlined(ws[1..]), w);
    }
  }

  lemma Regroup(a: string, b: string, w: string)
    ensures a + (b + w + "_") == a + b + w + "_"
  {
  }

  lemma UnderlinedCons(ws: seq<string>)
    requires ws != []
    ensures Underlined(ws) == ws[0] + "_" + Underlined(ws[1..])
  {
  }

  /** What was written so far: nothing, or a text that starts in a word and ends in an underscore. */
  lemma UnderlinedEnds(ws: seq<string>)
    requires GoodWords(ws)
    ensures ws == [] ==> Underlined(ws) == ""
    ensures ws != [] ==> |Underlined(ws)| >= 2 && Underlined(ws)[0] != '_'
    ensures ws != [] ==>
      Underlined(ws)[|Underlined(ws)| - 1] == '_' && Underlined(ws)[|Underlined(ws)| - 2] != '_'
  {
    if ws != [] {
      var front, w := ws[..|ws| - 1], ws[|ws| - 1];
      assert GoodWord(ws[0]) && GoodWord(w);
      UnderlinedCons(ws);
      assert ws == front + [w];
      UnderlinedSnoc(front, w);
      hide Underlined;
      var u := Underlined(front) + w + "_";
      assert u[|u| - 2] == w[|w| - 1];
    }
  }

  /** Words are recovered from what is written for them. */
  lemma {:induction false} UnderlinedInjective(ws: seq<string>, vs: seq<string>)
    requires GoodWords(ws) && GoodWords(vs) && Underlined(ws) == Underlined(vs)
    ensures ws == vs
  {
    if ws != [] && vs != [] {
      var s := Underlined(ws);
      assert GoodWord(ws[0]) && GoodWord(vs[0]);
      FirstWord(ws[0], Underlined(ws[1..]), vs[0], Underlined(vs[1..]));
      UnderlinedInjective(ws[1..], vs[1..]);
      assert ws == [ws[0]] + ws[1..] && vs == [vs[0]] + vs[1..];
    } else {
      UnderlinedEnds(ws);
      UnderlinedEnds(vs);
    }
  }

  lemma FirstWord(w: string, a: string, v: string, b: string)
    requires GoodWord(w) && GoodWord(v) && w + "_" + a == v + "_" + b
    ensures w == v && a == b
  {
    var s, s' := w + "_" + a, v + "_" + b;
    assert s[|w|] == '_' && s'[|v|] == '_';
    assert forall i | 0 <= i < |w| :: s[i] == w[i];
    assert forall i | 0 <= i < |v| :: s'[i] == v[i];
    assert |w| == |v|;
    assert s[..|w|] == w && s'[..|v|] == v && s[|w| + 1..] == a && s'[|v| + 1..] == b;
  }

  lemma TrimNothing(s: string)
    requires s != "" && s[0] != '_' && s[|s| - 1] != '_'
    ensures TrimUnderscores(s) == s && TrimUnderscores(s + "_") == s
  {
    var t := s + "_";
    assert t[0] == s[0] && t[..|t| - 1] == s;
  }

  lemma {:induction false} SqueezeWord(s: string, k: nat, written: string)
    requires k <= |s| && forall i | 0 <= i < k :: !IsSeparator(s[i])
    ensures Squeeze(s, written) == Squeeze(s[k..], written + Fold(s[..k]))
    decreases k
  {
    if k == 0 {
      assert s[0..] == s && written + Fold(s[..0]) == written;
    } else {
      SqueezeWord(s[1..], k - 1, written + [Upper(s[0])]);
      assert s[1..][k - 1..] == s[k..] && [s[0]] + s[1..][..k - 1] == s[..k];
      assert written + [Upper(s[0])] + Fold(s[1..][..k - 1]) == written + Fold(s[..k]);
    }
  }

  lemma WordIsGood(s: string, k: nat)
    requires 0 < k <= |s| && AllPlaceholder(s) && forall i | 0 <= i < k :: !IsSeparator(s[i])
    ensures GoodWord(Fold(s[..k]))
  {
  }

  lemma DropPlaceholder(s: string, k: nat)
    requires k <= |s| && AllPlaceholder(s)
    ensures AllPlaceholder(s[k..])
  {
  }

  lemma {:induction false} WordsAreGood(s: string)
    requires AllPlaceholder(s)
    ensures GoodWords(WordsOf(s))
    decreases |s|
  {
    if s != "" && IsSeparator(s[0]) {
      WordsAreGood(s[1..]);
    } else if s != "" {
      WordIsGood(s, WordLen(s));
      DropPlaceholder(s, WordLen(s));
      WordsAreGood(s[WordLen(s)..]);
    }
  }

  /** What squeezing `s` behind the words `ws` comes to. */
  ghost predicate Squeezed(s: string, ws: seq<string>, all: seq<string>) {
    var out := TrimUnderscores(Squeeze(s, Underlined(ws)));
    if all == [] then out == "" else out + "_" == Underlined(all)
  }

  lemma SqueezedEnd(ws: seq<string>)
    requires GoodWords(ws)
    ensures Squeezed("", ws, ws)
  {
    UnderlinedEnds(ws);
    var u := Underlined(ws);
    if ws != [] {
      var s := u[..|u| - 1];
      assert s + "_" == u && s[0] == u[0] && s[|s| - 1] == u[|u| - 2];
      TrimNothing(s);
    }
  }

  lemma SqueezedLastWord(ws: seq<string>, w: string)
    requires GoodWords(ws) && GoodWord(w)
    ensures TrimUnderscores(Underlined(ws) + w) + "_" == Underlined(ws + [w])
  {
    UnderlinedEnds(ws);
    UnderlinedSnoc(ws, w);
    hide Underlined, TrimUnderscores;
    TrimNothing(Underlined(ws) + w);
  }

  lemma SqueezeSeparator(s: string, written: string)
    requires s != "" && IsSeparator(s[0])
    ensures Squeeze(s, written)
      == Squeeze(s[1..], if written == "" || written[|written| - 1] == '_' then written else written + "_")
  {
  }

  /** The separator behind a word. */
  lemma SqueezeBehindWord(rest: string, ws: seq<string>, w: string)
    requires rest != "" && IsSeparator(rest[0]) && GoodWord(w)
    ensures Squeeze(rest, Underlined(ws) + w) == Squeeze(rest[1..], Underlined(ws + [w]))
  {
    UnderlinedSnoc(ws, w);
    hide Underlined, Squeeze;
    SqueezeSeparator(rest, Underlined(ws) + w);
    assert (Underlined(ws) + w)[|Underlined(ws)| + |w| - 1] == w[|w| - 1];
  }

  lemma {:induction false} SqueezeWords(s: string, ws: seq<string>)
    requires AllPlaceholder(s) && GoodWords(ws)
    ensures Squeezed(s, ws, ws + WordsOf(s))
    decreases |s|
  {
    if s == "" {
      assert ws + WordsOf(s) == ws;
      SqueezedEnd(ws);
    } else if IsSeparator(s[0]) {
      SqueezeSeparator(s, Underlined(ws));
      UnderlinedEnds(ws);
      DropPlaceholder(s, 1);
      hide Squeeze, Underlined, TrimUnderscores, GoodWord;
      SqueezeWords(s[1..], ws);
    } else {
      var k := WordLen(s);
      var w, rest := Fold(s[..k]), s[k..];
      SqueezeWord(s, k, Underlined(ws));
      WordIsGood(s, k);
      DropPlaceholder(s, k);
      assert ws + WordsOf(s) == (ws + [w]) + WordsOf(rest);
      if rest == "" {
        assert Squeeze(rest, Underlined(ws) + w) == Underlined(ws) + w && (ws + [w]) + WordsOf(rest) == ws + [w];
        SqueezedLastWord(ws, w);
      } else {
        SqueezeBehindWord(rest, ws, w);
        DropPlaceholder(rest, 1);
        assert WordsOf(rest) == WordsOf(rest[1..]);
        hide Squeeze, Underlined, TrimUnderscores, GoodWord, IsPlaceholderChar;
        SqueezeWords(rest[1..], ws + [w]);
      }
    }
  }

  /** The normal form is empty when there are no words, and otherwise the words joined by underscores. */
  lemma NormalizeIsWords(token: string)
    ensures GoodWords(Words(token))
    ensures Words(token) == [] ==> Normalize(token) == ""
    ensures Words(token) != [] ==> Normalize(token) != "" && Normalize(token) + "_" == Underlined(Words(token))
  {
    var s := Core(token);
    if AllPlaceholder(s) {
      WordsAreGood(s);
      SqueezeWords(s, []);
      assert [] + WordsOf(s) == WordsOf(s) && Underlined([]) == "";
      UnderlinedEnds(WordsOf(s));
    }
  }

  /** Two texts share a normal form exactly when they share their words. */
  lemma SameWords(a: string, b: string)
    ensures Normalize(a) == Normalize(b) <==> Words(a) == Words(b)
    ensures Normalize(a) == "" <==> Words(a) == []
  {
    hide Normalize, Words, Underlined, GoodWords;
    NormalizeIsWords(a);
    NormalizeIsWords(b);
    if Normalize(a) == Normalize(b) && Words(a) != [] { UnderlinedInjective(Words(a), Words(b)); }
    if Words(a) == Words(b) && Words(a) != [] {
      var x, y := Normalize(a), Normalize(b);
      assert (x + "_")[..|x|] == x && (y + "_")[..|y|] == y;
    }
  }
}
