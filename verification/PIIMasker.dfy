/** Masking the texts of one request in turn (apps/gateway/internal/application/services/pii.go, maskText):
    one mapping, one cache, and the round trip through the final mapping. */
module PIIMasker {
  import opened Wrappers
  import opened Text
  import opened Mappings
  import opened Unmasking
  import opened Masking
  import opened PlainGaps

  /** `masked` is `text` with the spans replaced by tokens of `m`. */
  ghost predicate MaskedAs(m: Mapping, text: string, spans: seq<PIIEntity>, masked: string) {
    SpansOk(spans, |text|, 0) && AllKnown(m, text, spans) && masked == Render(m, text, spans, 0)
  }

  lemma MaskedStays(m: Mapping, m': Mapping, text: string, spans: seq<PIIEntity>, masked: string)
    requires MaskedAs(m, text, spans, masked) && Extends(m, m')
    ensures MaskedAs(m', text, spans, masked)
  {
    RenderStable(m, m', text, spans, 0);
  }

  /** Whatever was masked in between, the final mapping restores an earlier text exactly when the parts around its
      spans, restored on their own, make up the text. */
  lemma RoundTripLater(m: Mapping, m': Mapping, text: string, spans: seq<PIIEntity>, masked: string)
    requires MaskedAs(m, text, spans, masked) && Extends(m, m') && m'.WF()
    ensures Unmask(m', masked) == text <==> Restored(m', text, spans, 0) == text
    ensures GapsOk(m', text, spans, 0) ==> Unmask(m', masked) == text
  {
    MaskedStays(m, m', text, spans, masked);
    RoundTrip(m', text, spans, 0);
    assert text[0..] == text;
  }

  /** A masked text comes back exactly, whatever was masked after it, when nothing outside its spans looks like a
      placeholder of the final mapping. */
  lemma PlainRoundTrip(m: Mapping, m': Mapping, text: string, spans: seq<PIIEntity>, masked: string)
    requires MaskedAs(m, text, spans, masked) && Extends(m, m') && m'.WF() && GapsPlain(m', text, spans, 0)
    ensures Unmask(m', masked) == text
  {
    PlainGapsAreOk(m', text, spans, 0);
    RoundTripLater(m, m', text, spans, masked);
  }

  ghost predicate CacheOk(m: Mapping, cache: map<string, string>, spans: map<string, seq<PIIEntity>>) {
    && cache.Keys == spans.Keys
    && forall text | text in cache :: MaskedAs(m, text, spans[text], cache[text])
  }

  lemma CacheStays(m: Mapping, m': Mapping, cache: map<string, string>, spans: map<string, seq<PIIEntity>>)
    requires CacheOk(m, cache, spans) && Extends(m, m')
    ensures CacheOk(m', cache, spans)
  {
    forall text | text in cache ensures MaskedAs(m', text, spans[text], cache[text]) {
      MaskedStays(m, m', text, spans[text], cache[text]);
    }
  }

  lemma CacheAdds(m: Mapping, cache: map<string, string>, spans: map<string, seq<PIIEntity>>,
                  text: string, kept: seq<PIIEntity>, masked: string)
    requires CacheOk(m, cache, spans)
    requires SpansOk(kept, |text|, 0) && AllKnown(m, text, kept) && masked == Render(m, text, kept, 0)
    ensures CacheOk(m, cache[text := masked], spans[text := kept])
  {
  }

  /** The mapping after one text was masked. */
  function MaskedMapping(m: Mapping, text: string, entities: seq<PIIEntity>): Mapping {
    KeptSpansOk(text, entities);
    MapSpans(m, text, KeptSpans(text, entities))
  }

  class RequestPIIMasker {
    const mapping: PIIMapping
    var cache: map<string, string>
    ghost var spans: map<string, seq<PIIEntity>>

    ghost predicate Valid()
      reads this, mapping
    {
      mapping.View().WF() && CacheOk(mapping.View(), cache, spans)
    }

    constructor ()
      ensures Valid() && fresh(mapping) && cache == map[] && spans == map[] && mapping.View() == Empty()
    {
      mapping := new PIIMapping();
      cache := map[];
      spans := map[];
    }

    /** `analysis` is what the analyzer answers for `text`, should it be asked. */
    method MaskText(text: string, analysis: Result<seq<PIIEntity>, string>) returns (r: Result<string, string>)
      requires Valid() && (analysis.Ok? ==> ValidTypes(analysis.value))
      modifies this, mapping
      ensures Valid() && Extends(old(mapping.View()), mapping.View())
      ensures forall t | t in old(cache) :: t in cache && cache[t] == old(cache[t]) && spans[t] == old(spans[t])
      ensures text == "" ==> r == Ok("")
      ensures text != "" && text !in old(cache) && analysis.Err? ==> r == Err(analysis.error)
      ensures text == "" || text in old(cache) || analysis.Err? ==>
        cache == old(cache) && spans == old(spans) && mapping.View() == old(mapping.View())
      ensures text != "" && text in old(cache) ==> r == Ok(old(cache[text]))
      ensures text != "" && r.Ok? ==> text in cache && r == Ok(cache[text])
      ensures text != "" && text !in old(cache) && analysis.Ok? ==>
        r.Ok? && spans == old(spans)[text := KeptSpans(text, analysis.value)]
        && mapping.View() == MaskedMapping(old(mapping.View()), text, analysis.value)
    {
      ExtendsItself(mapping.View());
      hide Mapping.WF, Extends, CacheOk;
      if text == "" {
        return Ok(text);
      }
      if text in cache {
        return Ok(cache[text]);
      }
      if analysis.Err? {
        return Err(analysis.error);
      }
      var masked := ApplyMask(text, analysis.value, mapping);
      CacheStays(old(mapping.View()), mapping.View(), cache, spans);
      CacheAdds(mapping.View(), cache, spans, text, KeptSpans(text, analysis.value), masked);
      cache := cache[text := masked];
      spans := spans[text := KeptSpans(text, analysis.value)];
      return Ok(masked);
    }
  }

  // ---------- All texts of a request ----------

  type Analysis = Result<seq<PIIEntity>, string>

  /** The analyzer finds the spans of `text` when it is asked at position `j`. */
  predicate Answers(texts: seq<string>, analyses: seq<Analysis>, text: string, j: nat)
    requires |texts| == |analyses|
  {
    j < |texts| && texts[j] == text && analyses[j].Ok?
  }

  /** The spans of `text` are those of its first answer, at `j`. */
  predicate FirstAnswer(texts: seq<string>, analyses: seq<Analysis>, text: string, j: nat)
    requires |texts| == |analyses|
  {
    Answers(texts, analyses, text, j) && forall k: nat | k < j :: !Answers(texts, analyses, text, k)
  }

  predicate Answered(texts: seq<string>, analyses: seq<Analysis>, text: string, n: nat)
    requires |texts| == |analyses|
  {
    exists j: nat | j < n :: Answers(texts, analyses, text, j)
  }

  /** The mapping once the first `n` texts were masked: each nonempty text counts once, with its first answer. */
  ghost function RequestMapping(texts: seq<string>, analyses: seq<Analysis>, n: nat): Mapping
    requires n <= |texts| == |analyses|
  {
    if n == 0 then Empty()
    else
      var m, text := RequestMapping(texts, analyses, n - 1), texts[n - 1];
      if text != "" && FirstAnswer(texts, analyses, text, n - 1) then MaskedMapping(m, text, analyses[n - 1].value)
      else m
  }

  /** What a text of a request is answered with: its own error, or the text with the first detected spans masked. */
  ghost predicate MaskedRight(texts: seq<string>, analyses: seq<Analysis>, i: nat, r: Result<string, string>,
        m: Mapping)
    requires i < |texts| == |analyses|
  {
    var text := texts[i];
    && (r.Ok? <==> text == "" || Answered(texts, analyses, text, i + 1))
    && (r.Err? ==> analyses[i] == Err(r.error))
    && (r.Ok? && text == "" ==> r.value == "")
    && (r.Ok? && text != "" ==>
          forall j: nat | j <= i && FirstAnswer(texts, analyses, text, j) ::
            MaskedAs(m, text, KeptSpans(text, analyses[j].value), r.value))
  }

  /** What the mapping restores of a masked text: the text with the parts around the spans of its first answer restored
      on their own, and so the text itself when these parts hold no placeholder, or restore to themselves. */
  ghost predicate RestoredRight(texts: seq<string>, analyses: seq<Analysis>, i: nat, r: Result<string, string>,
        m: Mapping)
    requires i < |texts| == |analyses|
  {
    var text := texts[i];
    forall j: nat | j <= i && text != "" && FirstAnswer(texts, analyses, text, j) ::
      var spans := KeptSpans(text, analyses[j].value);
      && r.Ok? && SpansOk(spans, |text|, 0) && Unmask(m, r.value) == Restored(m, text, spans, 0)
      && (GapsOk(m, text, spans, 0) || GapsPlain(m, text, spans, 0) ==> Unmask(m, r.value) == text)
  }

  /** The masker's cache after the first `n` texts. */
  ghost predicate CachedUpTo(texts: seq<string>, analyses: seq<Analysis>, n: nat, spans: map<string, seq<PIIEntity>>)
    requires n <= |texts| == |analyses|
  {
    && (forall text :: text in spans <==> text != "" && Answered(texts, analyses, text, n))
    && forall text, j: nat | text in spans && j < n && FirstAnswer(texts, analyses, text, j) ::
         spans[text] == KeptSpans(text, analyses[j].value)
  }

  lemma AnsweredNext(texts: seq<string>, analyses: seq<Analysis>, text: string, n: nat)
    requires n < |texts| == |analyses|
    ensures Answered(texts, analyses, text, n + 1)
      <==> Answered(texts, analyses, text, n) || Answers(texts, analyses, text, n)
    ensures FirstAnswer(texts, analyses, text, n)
      <==> Answers(texts, analyses, text, n) && !Answered(texts, analyses, text, n)
  {
  }

  lemma NothingCached(texts: seq<string>, analyses: seq<Analysis>)
    requires |texts| == |analyses|
    ensures CachedUpTo(texts, analyses, 0, map[]) && RequestMapping(texts, analyses, 0) == Empty()
  {
  }

  lemma SameKeys(m: Mapping, cache: map<string, string>, spans: map<string, seq<PIIEntity>>)
    requires CacheOk(m, cache, spans)
    ensures forall text :: text in cache <==> text in spans
  {
    assert forall text :: text in cache.Keys <==> text in spans.Keys;
  }

  lemma RequestNext(texts: seq<string>, analyses: seq<Analysis>, n: nat, spans: map<string, seq<PIIEntity>>)
    requires n < |texts| == |analyses| && CachedUpTo(texts, analyses, n, spans)
    ensures var m, text := RequestMapping(texts, analyses, n), texts[n];
      RequestMapping(texts, analyses, n + 1)
      == if text == "" || text in spans || analyses[n].Err? then m else MaskedMapping(m, text, analyses[n].value)
  {
    hide MaskedMapping, FirstAnswer, Answered;
    AnsweredNext(texts, analyses, texts[n], n);
  }

  lemma CachedNext(texts: seq<string>, analyses: seq<Analysis>, n: nat, spans: map<string, seq<PIIEntity>>,
                   after: map<string, seq<PIIEntity>>)
    requires n < |texts| == |analyses| && CachedUpTo(texts, analyses, n, spans)
    requires var text := texts[n];
      after == if text == "" || text in spans || analyses[n].Err? then spans
               else spans[text := KeptSpans(text, analyses[n].value)]
    ensures CachedUpTo(texts, analyses, n + 1, after)
  {
    hide Answered, KeptSpans;
    forall text ensures text in after <==> text != "" && Answered(texts, analyses, text, n + 1) {
      AnsweredNext(texts, analyses, text, n);
    }
    forall text, j: nat | text in after && j < n + 1 && FirstAnswer(texts, analyses, text, j)
      ensures after[text] == KeptSpans(text, analyses[j].value)
    {
      AnsweredNext(texts, analyses, text, n);
      if j < n { AnsweredBy(texts, analyses, text, j, n); }
    }
  }

  lemma AnsweredBy(texts: seq<string>, analyses: seq<Analysis>, text: string, j: nat, n: nat)
    requires j < n <= |texts| == |analyses| && FirstAnswer(texts, analyses, text, j)
    ensures Answered(texts, analyses, text, n)
  {
  }

  /** What the cache says about the text that was masked last. */
  lemma LastIsRight(texts: seq<string>, analyses: seq<Analysis>, i: nat, r: Result<string, string>, m: Mapping,
                    cache: map<string, string>, spans: map<string, seq<PIIEntity>>)
    requires i < |texts| == |analyses| && CacheOk(m, cache, spans) && CachedUpTo(texts, analyses, i + 1, spans)
    requires texts[i] == "" ==> r == Ok("")
    requires texts[i] != "" && texts[i] in spans ==> r == Ok(cache[texts[i]])
    requires texts[i] != "" && texts[i] !in spans ==> analyses[i].Err? && r == Err(analyses[i].error)
    ensures MaskedRight(texts, analyses, i, r, m)
  {
    hide Answered, FirstAnswer, KeptSpans, MaskedAs;
    var text := texts[i];
    if r.Ok? && text != "" {
      assert MaskedAs(m, text, spans[text], cache[text]);
    }
  }

  lemma RightStays(texts: seq<string>, analyses: seq<Analysis>, i: nat, r: Result<string, string>, m: Mapping,
                   m': Mapping)
    requires i < |texts| == |analyses| && MaskedRight(texts, analyses, i, r, m) && Extends(m, m')
    ensures MaskedRight(texts, analyses, i, r, m')
  {
    hide Answered, KeptSpans, MaskedAs, Extends;
    var text := texts[i];
    if r.Ok? && text != "" {
      forall j: nat | j <= i && FirstAnswer(texts, analyses, text, j)
        ensures MaskedAs(m', text, KeptSpans(text, analyses[j].value), r.value)
      {
        MaskedStays(m, m', text, KeptSpans(text, analyses[j].value), r.value);
      }
    }
  }

  /** What the final mapping restores of a text that was masked. */
  lemma FirstIsRestored(texts: seq<string>, analyses: seq<Analysis>, i: nat, r: Result<string, string>, m: Mapping,
                        j: nat)
    requires i < |texts| == |analyses| && MaskedRight(texts, analyses, i, r, m) && m.WF()
    requires texts[i] != "" && j <= i && FirstAnswer(texts, analyses, texts[i], j)
    ensures var spans := KeptSpans(texts[i], analyses[j].value);
      && r.Ok? && SpansOk(spans, |texts[i]|, 0)
      && Unmask(m, r.value) == Restored(m, texts[i], spans, 0)
      && (GapsOk(m, texts[i], spans, 0) || GapsPlain(m, texts[i], spans, 0) ==> Unmask(m, r.value) == texts[i])
  {
    var text := texts[i];
    AnsweredBy(texts, analyses, text, j, i + 1);
    var spans := KeptSpans(text, analyses[j].value);
    assert MaskedAs(m, text, spans, r.value);
    hide KeptSpans, Answered, FirstAnswer, Mapping.WF, Unmask, Restored, GapsOk, GapsPlain, Extends, Render, SpansOk;
    ExtendsItself(m);
    MaskedIsRestored(m, text, spans, 0);
    if GapsPlain(m, text, spans, 0) { PlainRoundTrip(m, m, text, spans, r.value); }
    RoundTripLater(m, m, text, spans, r.value);
  }

  lemma RightIsRestored(texts: seq<string>, analyses: seq<Analysis>, i: nat, r: Result<string, string>, m: Mapping)
    requires i < |texts| == |analyses| && MaskedRight(texts, analyses, i, r, m) && m.WF()
    ensures RestoredRight(texts, analyses, i, r, m)
  {
    var text := texts[i];
    hide KeptSpans, Answered, Mapping.WF, Unmask, Restored, GapsOk, GapsPlain, SpansOk, MaskedRight;
    forall j: nat | j <= i && text != "" && FirstAnswer(texts, analyses, text, j)
      ensures var spans := KeptSpans(text, analyses[j].value);
        && r.Ok? && SpansOk(spans, |text|, 0) && Unmask(m, r.value) == Restored(m, text, spans, 0)
        && (GapsOk(m, text, spans, 0) || GapsPlain(m, text, spans, 0) ==> Unmask(m, r.value) == text)
    {
      FirstIsRestored(texts, analyses, i, r, m, j);
    }
  }

  /** Masks the texts of a request in turn. A text fails exactly when it is not empty and the analyzer has not found
      its spans by then; otherwise the spans of its first answer are masked, and what the final mapping restores is
      the text with the parts around the spans restored on their own. */
  method MaskAll(texts: seq<string>, analyses: seq<Analysis>)
      returns (masked: seq<Result<string, string>>, masker: RequestPIIMasker)
    requires |texts| == |analyses|
    requires forall i | 0 <= i < |texts| && analyses[i].Ok? :: ValidTypes(analyses[i].value)
    ensures fresh(masker) && fresh(masker.mapping) && masker.Valid() && |masked| == |texts|
    ensures masker.mapping.View() == RequestMapping(texts, analyses, |texts|)
    ensures forall i | 0 <= i < |texts| :: MaskedRight(texts, analyses, i, masked[i], masker.mapping.View())
    ensures forall i | 0 <= i < |texts| :: RestoredRight(texts, analyses, i, masked[i], masker.mapping.View())
  {
    hide Mapping.WF, Extends, CacheOk, CachedUpTo, MaskedRight, RestoredRight, RequestMapping, KeptSpans;
    hide MaskedMapping, ValidType;
    masker := new RequestPIIMasker();
    masked := [];
    NothingCached(texts, analyses);
    for i := 0 to |texts|
      invariant fresh(masker) && fresh(masker.mapping) && masker.Valid() && |masked| == i
      invariant masker.mapping.View() == RequestMapping(texts, analyses, i)
      invariant CachedUpTo(texts, analyses, i, masker.spans)
      invariant forall k | 0 <= k < i :: MaskedRight(texts, analyses, k, masked[k], masker.mapping.View())
    {
      ghost var m, spans := masker.mapping.View(), masker.spans;
      SameKeys(m, masker.cache, spans);
      var r := masker.MaskText(texts[i], analyses[i]);
      SameKeys(masker.mapping.View(), masker.cache, masker.spans);
      RequestNext(texts, analyses, i, spans);
      CachedNext(texts, analyses, i, spans, masker.spans);
      LastIsRight(texts, analyses, i, r, masker.mapping.View(), masker.cache, masker.spans);
      forall k | 0 <= k < i ensures MaskedRight(texts, analyses, k, masked[k], masker.mapping.View()) {
        RightStays(texts, analyses, k, masked[k], m, masker.mapping.View());
      }
      masked := masked + [r];
    }
    forall i | 0 <= i < |texts| ensures RestoredRight(texts, analyses, i, masked[i], masker.mapping.View()) {
      RightIsRestored(texts, analyses, i, masked[i], masker.mapping.View());
    }
  }
}
