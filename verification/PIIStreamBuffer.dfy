/** The streaming restorer as it runs (apps/gateway/internal/application/services/pii.go):
    a buffer rewritten by every chunk, and the backwards searches for the place to cut. */
module PIIStreamBuffer {
  import opened Common
  import opened Text
  import opened Mappings
  import opened Unmasking
  import opened PIIStream

  class Builder {
    var text: string

    constructor ()
      ensures text == ""
    {
      text := "";
    }

    method WriteString(s: string)
      modifies this
      ensures text == old(text) + s
    {
      text := text + s;
    }

    method Reset()
      modifies this
      ensures text == ""
    {
      text := "";
    }
  }

  /** Finds the last bracket when it is an opening one. */
  method OpenBracketStart(full: string) returns (cut: nat)
    ensures cut == OpenStart(full)
  {
    cut := |full|;
    var i: nat := |full|;
    OpenStartOfPrefix(full, i);
    while i > 0
      invariant i <= |full| && cut == |full|
      invariant OpenStart(full) == if OpenStart(full[..i]) == i then |full| else OpenStart(full[..i])
    {
      i := i - 1;
      if full[i] == '[' {
        return i;
      }
      if full[i] == ']' {
        return |full|;
      }
      assert full[..i + 1][..i] == full[..i];
    }
  }

  lemma OpenStartOfPrefix(full: string, i: nat)
    requires i == |full|
    ensures OpenStart(full[..i]) == OpenStart(full)
  {
    assert full[..i] == full;
  }

  /** A suffix that starts at a boundary and may become a placeholder. */
  ghost predicate Holds(m: Mapping, text: string, start: nat)
    requires start <= |text|
  {
    IsBoundary(text, start - 1) && IsAliasPrefix(m, text[start..])
  }

  /** Only the trailing run can be held. */
  lemma HoldsIsTrailing(m: Mapping, text: string, start: nat)
    requires m.WF() && start < |text| && Holds(m, text, start)
    ensures start == TrailingRun(text)
  {
    var word := text[start..];
    var a :| IsBare(m, a) && StartsAlias(a, word);
    BareIsAlias(m, a);
    FoldType(a[..|word|]);
    FoldWord(word);
    TrailingRunUnique(text, start);
  }

  lemma HoldStartIff(m: Mapping, text: string)
    requires m.WF()
    ensures HoldStart(m, text) == |text| <==> forall s | 0 <= s < |text| :: !Holds(m, text, s)
  {
    forall s | 0 <= s < |text| && Holds(m, text, s) ensures s == TrailingRun(text) {
      HoldsIsTrailing(m, text, s);
    }
    var k := TrailingRun(text);
    if HoldStart(m, text) < |text| { assert Holds(m, text, k); }
  }

  method MaxLength(aliases: seq<string>) returns (maxLen: nat)
    ensures forall a | a in aliases :: |a| <= maxLen
  {
    maxLen := 0;
    for i := 0 to |aliases|
      invariant forall k | 0 <= k < i :: |aliases[k]| <= maxLen
    {
      if |aliases[i]| > maxLen {
        maxLen := |aliases[i]|;
      }
    }
  }

  method StartsSome(aliases: seq<string>, suffix: string) returns (found: bool)
    ensures found <==> exists a :: a in aliases && StartsAlias(a, suffix)
  {
    for i := 0 to |aliases|
      invariant forall k | 0 <= k < i :: !StartsAlias(aliases[k], suffix)
    {
      if |suffix| <= |aliases[i]| && EqualFold(aliases[i][..|suffix|], suffix) {
        assert aliases[i] in aliases && StartsAlias(aliases[i], suffix);
        return true;
      }
    }
    return false;
  }

  lemma ListedPrefix(m: Mapping, aliases: seq<string>, word: string)
    requires forall a :: a in aliases <==> IsBare(m, a)
    ensures IsAliasPrefix(m, word) <==> exists a :: a in aliases && StartsAlias(a, word)
  {
  }

  lemma TooLongToHold(m: Mapping, aliases: seq<string>, word: string, maxLen: nat)
    requires (forall a :: a in aliases <==> IsBare(m, a)) && (forall a | a in aliases :: |a| <= maxLen)
      && maxLen < |word|
    ensures !IsAliasPrefix(m, word)
  {
  }

  ghost predicate NoneHolds(m: Mapping, text: string, from: nat) {
    forall s: nat | from <= s < |text| :: !Holds(m, text, s)
  }

  lemma HoldCheck(m: Mapping, text: string, aliases: seq<string>, start: nat)
    requires Lists(m, aliases) && start < |text|
    ensures Holds(m, text, start) <==>
      IsBoundary(text, start - 1) && exists a :: a in aliases && StartsAlias(a, text[start..])
  {
    ListedPrefix(m, aliases, text[start..]);
  }

  lemma NoneHoldsStep(m: Mapping, text: string, start: nat)
    requires start < |text| && NoneHolds(m, text, start + 1) && !Holds(m, text, start)
    ensures NoneHolds(m, text, start)
  {
  }

  lemma NoneHoldsAtAll(m: Mapping, text: string, aliases: seq<string>, maxLen: nat, startAt: nat)
    requires m.WF() && Lists(m, aliases) && forall a | a in aliases :: |a| <= maxLen
    requires startAt == if |text| < maxLen then 0 else |text| - maxLen
    requires NoneHolds(m, text, startAt)
    ensures HoldStart(m, text) == |text|
  {
    forall s: nat | s < startAt ensures !Holds(m, text, s) {
      TooLongToHold(m, aliases, text[s..], maxLen);
    }
    HoldStartIff(m, text);
  }

  /** Where the trailing text that may become a bare placeholder starts, or -1. */
  method BareAliasHoldStart(text: string, mapping: PIIMapping?) returns (hold: int)
    requires ViewOf(mapping).WF()
    ensures HoldStart(ViewOf(mapping), text) == if hold < 0 then |text| else hold
  {
    ghost var m := ViewOf(mapping);
    if mapping == null {
      NothingToHold(m, text);
      return -1;
    }
    assert m == mapping.View();
    hide *;
    var n := mapping.Len();
    if n == 0 || text == "" {
      NothingToHold(m, text);
      return -1;
    }
    var aliases := mapping.BareAliasesByLength();
    ListsIff(m, aliases);
    var maxLen := MaxLength(aliases);
    var startAt: nat := if |text| < maxLen then 0 else |text| - maxLen;
    var start: nat := |text|;
    NoneHoldsFromEnd(m, text);
    while start > startAt
      invariant startAt <= start <= |text| && NoneHolds(m, text, start)
    {
      start := start - 1;
      HoldCheck(m, text, aliases, start);
      var found := false;
      if IsBoundary(text, start - 1) {
        found := StartsSome(aliases, text[start..]);
      }
      if found {
        HoldStartAt(m, text, start);
        return start;
      }
      NoneHoldsStep(m, text, start);
    }
    NoneHoldsAtAll(m, text, aliases, maxLen, startAt);
    return -1;
  }

  lemma NoneHoldsFromEnd(m: Mapping, text: string)
    ensures NoneHolds(m, text, |text|)
  {
  }

  lemma HoldStartAt(m: Mapping, text: string, start: nat)
    requires m.WF() && start < |text| && Holds(m, text, start)
    ensures HoldStart(m, text) == start
  {
    HoldsIsTrailing(m, text, start);
  }

  lemma NothingToHold(m: Mapping, text: string)
    requires m.WF() && (|m.tokenToOriginal| == 0 || text == "")
    ensures HoldStart(m, text) == |text|
  {
    if |m.tokenToOriginal| == 0 {
      assert m.tokenToOriginal == map[];
      forall a ensures !IsBare(m, a) { BareIsAlias(m, a); }
    }
  }

  /** Appends `delta`, emits the restored text before the cut, and keeps the rest. */
  method FeedPIIStreamBuffer(buf: Builder, delta: string, mapping: PIIMapping?) returns (out: string)
    requires ViewOf(mapping).WF()
    modifies buf
    ensures ViewOf(mapping) == old(ViewOf(mapping))
    ensures var full := old(buf.text) + delta; var c := Cut(ViewOf(mapping), full);
      out == Unmask(ViewOf(mapping), full[..c]) && buf.text == full[c..]
  {
    buf.WriteString(delta);
    var full := buf.text;
    var cut := OpenBracketStart(full);
    var bareCut := BareAliasHoldStart(full, mapping);
    if 0 <= bareCut < cut {
      cut := bareCut;
    }
    var safe, tail := full[..cut], full[cut..];
    buf.Reset();
    buf.WriteString(tail);
    out := UnmaskText(safe, mapping);
  }

  /** Restores and returns whatever is still buffered. */
  method FlushPIIStreamBuffer(buf: Builder, mapping: PIIMapping?) returns (out: string)
    requires ViewOf(mapping).WF()
    modifies buf
    ensures ViewOf(mapping) == old(ViewOf(mapping))
    ensures out == Unmask(ViewOf(mapping), old(buf.text)) && buf.text == ""
  {
    if buf.text == "" {
      return "";
    }
    var tail := buf.text;
    buf.Reset();
    out := UnmaskText(tail, mapping);
  }

  /** A whole stream through one buffer. */
  method RestoreStream(chunks: seq<string>, mapping: PIIMapping?) returns (out: string)
    requires ViewOf(mapping).WF()
    ensures out == Stream(ViewOf(mapping), "", chunks)
    ensures Faithful(ViewOf(mapping), Flatten(chunks)) ==> out == Unmask(ViewOf(mapping), Flatten(chunks))
  {
    ghost var m := ViewOf(mapping);
    var buf := new Builder();
    out := "";
    for i := 0 to |chunks|
      invariant ViewOf(mapping) == m
      invariant out + Stream(m, buf.text, chunks[i..]) == Stream(m, "", chunks)
    {
      ghost var held, done := buf.text, out;
      var piece := FeedPIIStreamBuffer(buf, chunks[i], mapping);
      assert chunks[i..][0] == chunks[i] && chunks[i..][1..] == chunks[i + 1..];
      StreamStep(m, held, chunks[i..], Cut(m, held + chunks[i]));
      Assoc(done, piece, Stream(m, buf.text, chunks[i + 1..]));
      out := out + piece;
    }
    assert chunks[|chunks|..] == [];
    var rest := FlushPIIStreamBuffer(buf, mapping);
    out := out + rest;
    if Faithful(m, Flatten(chunks)) {
      assert "" + Flatten(chunks) == Flatten(chunks);
      StreamRefinesUnmask(m, "", chunks);
    }
  }
}
