/** Text that no placeholder can be mistaken for: no opening bracket, and no word run that is a bare placeholder. */
module PlainGaps {
  import opened Text
  import opened Mappings
  import opened Unmasking
  import opened Masking

  /** `text[i..j]` is a maximal word run. */
  predicate RunAt(text: string, i: nat, j: nat) {
    && i < j <= |text| && AllWord(text[i..j])
    && (i == 0 || !IsWordChar(text[i - 1])) && (j == |text| || !IsWordChar(text[j]))
  }

  /** No opening bracket, and no maximal word run equal to an alias, ignoring case. */
  ghost predicate Plain(m: Mapping, text: string) {
    && (forall i | 0 <= i < |text| :: text[i] != '[')
    && forall i: nat, j: nat | RunAt(text, i, j) :: !IsBareAlias(m, text[i..j])
  }

  lemma ItemOfPlain(m: Mapping, text: string)
    requires text != "" && Plain(m, text)
    ensures var n := ItemLen(text); RestoreItem(m, text[..n]) == text[..n]
  {
    var n := ItemLen(text);
    assert text[..n][0] == text[0] && text[0] != '[';
    if IsWordChar(text[0]) {
      assert text[0..n] == text[..n];
      assert RunAt(text, 0, n);
    }
  }

  lemma RunInRest(text: string, n: nat, i: nat, j: nat)
    requires text != "" && text[0] != '[' && n == ItemLen(text) && RunAt(text[n..], i, j)
    ensures RunAt(text, n + i, n + j) && text[n + i..n + j] == text[n..][i..j]
  {
    var rest := text[n..];
    assert text[n + i..n + j] == rest[i..j];
    assert rest[i] == rest[i..j][0];
    assert i > 0 ==> rest[i - 1] == text[n + i - 1];
    assert n + j < |text| ==> rest[j] == text[n + j];
    assert i == 0 ==> !IsWordChar(text[n - 1]);
  }

  lemma RestOfPlain(m: Mapping, text: string)
    requires text != "" && Plain(m, text)
    ensures Plain(m, text[ItemLen(text)..])
  {
    var n := ItemLen(text);
    var rest := text[n..];
    forall i: nat, j: nat | RunAt(rest, i, j) ensures !IsBareAlias(m, rest[i..j]) { RunInRest(text, n, i, j); }
  }

  /** Plain text restores to itself. */
  lemma {:induction false} PlainStays(m: Mapping, text: string)
    requires Plain(m, text)
    ensures Unmask(m, text) == text
    decreases |text|
  {
    hide *;
    if text == "" {
      NothingToRestore(m);
    } else {
      var n := ItemLen(text);
      ItemOfPlain(m, text);
      RestOfPlain(m, text);
      UnmaskFirst(m, text, n);
      PlainStays(m, text[n..]);
    }
  }

  /** Everything outside the spans is plain. */
  ghost predicate GapsPlain(m: Mapping, text: string, spans: seq<PIIEntity>, cursor: nat)
    requires SpansOk(spans, |text|, cursor)
    decreases |spans|
  {
    if spans == [] then Plain(m, text[cursor..])
    else Plain(m, text[cursor..spans[0].start]) && GapsPlain(m, text, spans[1..], spans[0].end)
  }

  lemma {:induction false} PlainGapsAreOk(m: Mapping, text: string, spans: seq<PIIEntity>, cursor: nat)
    requires SpansOk(spans, |text|, cursor) && GapsPlain(m, text, spans, cursor)
    ensures GapsOk(m, text, spans, cursor)
    decreases |spans|
  {
    if spans == [] {
      PlainStays(m, text[cursor..]);
    } else {
      PlainStays(m, text[cursor..spans[0].start]);
      PlainGapsAreOk(m, text, spans[1..], spans[0].end);
    }
  }
}
