/** Which detected spans are masked (pkg/domain/pii.go, ApplyMask): a description that does not mention how they are
    sorted, and that only the kept spans meet. */
module SpanChoice {
  import opened Common
  import opened Wrappers
  import opened Masking

  predicate SameSpan(a: PIIEntity, b: PIIEntity) { a.start == b.start && a.end == b.end }

  /** The first listed entity with the span of `k`. */
  function FirstLike(list: seq<PIIEntity>, k: PIIEntity): Option<PIIEntity> {
    if list == [] then None else if SameSpan(list[0], k) then Some(list[0]) else FirstLike(list[1..], k)
  }

  /** Behind `cursor` these are the spans to mask: detected ones in order and apart, each the longest with its start and
      the first listed with its span, so that every detected span starts inside one of them. */
  ghost predicate RightFrom(entities: seq<PIIEntity>, len: nat, cursor: nat, spans: seq<PIIEntity>) {
    && SpansOk(spans, len, cursor)
    && (forall k | k in spans :: k.start >= cursor && InText(k, len) && FirstLike(entities, k) == Some(k))
    && (forall k, e | k in spans && e in entities && InText(e, len) && e.start == k.start :: e.end <= k.end)
    && (forall e | e in entities && InText(e, len) && e.start >= cursor :: StartsInside(e, spans))
  }

  ghost predicate StartsInside(e: PIIEntity, spans: seq<PIIEntity>) {
    exists k | k in spans :: k.start <= e.start < k.end
  }

  // ---------- The kept spans are right ----------

  lemma {:induction false} KeepTakesLongest(sorted: seq<PIIEntity>, len: nat, lastEnd: int, k: PIIEntity, e: PIIEntity)
    requires Sorted(sorted) && lastEnd <= len && k in Keep(sorted, len, lastEnd)
    ensures k.start >= lastEnd && k in sorted && InText(k, len)
    ensures FirstLike(sorted, k) == Some(k)
    ensures e in sorted && InText(e, len) && e.start == k.start ==> e.end <= k.end
  {
    var x, rest := sorted[0], sorted[1..];
    assert sorted == [x] + rest;
    if !InText(x, len) || x.start < lastEnd {
      KeepTakesLongest(rest, len, lastEnd, k, e);
    } else if k != x {
      KeepTakesLongest(rest, len, x.end, k, e);
    }
  }

  lemma {:induction false} InsertKeepsFirst(x: PIIEntity, sorted: seq<PIIEntity>, k: PIIEntity)
    ensures FirstLike(InsertSpan(x, sorted), k) == if SameSpan(x, k) then Some(x) else FirstLike(sorted, k)
  {
    if sorted == [] || !Less(sorted[0], x) {
      assert ([x] + sorted)[1..] == sorted;
    } else {
      InsertKeepsFirst(x, sorted[1..], k);
      assert InsertSpan(x, sorted)[1..] == InsertSpan(x, sorted[1..]);
    }
  }

  /** Sorting keeps the order of entities with one span. */
  lemma {:induction false} SortKeepsFirst(list: seq<PIIEntity>, k: PIIEntity)
    ensures FirstLike(SortSpans(list), k) == FirstLike(list, k)
  {
    if list != [] {
      SortKeepsFirst(list[1..], k);
      InsertKeepsFirst(list[0], SortSpans(list[1..]), k);
    }
  }

  lemma KeptSpansRight(text: string, entities: seq<PIIEntity>)
    ensures RightFrom(entities, |text|, 0, KeptSpans(text, entities))
  {
    var sorted, kept := SortSpans(entities), KeptSpans(text, entities);
    KeptSpansOk(text, entities);
    SortSpansSorts(entities);
    hide SpansOk, Keep, SortSpans, Sorted, FirstLike;
    forall k | k in kept ensures FirstLike(entities, k) == Some(k) {
      KeepTakesLongest(sorted, |text|, -1, k, k);
      SortKeepsFirst(entities, k);
    }
    forall k, e | k in kept && e in entities && InText(e, |text|) && e.start == k.start ensures e.end <= k.end {
      KeepTakesLongest(sorted, |text|, -1, k, e);
    }
    forall e | e in entities && InText(e, |text|) ensures StartsInside(e, kept) {
      var k := KeptSpansCover(text, entities, e);
    }
  }

  // ---------- Nothing else is ----------

  lemma {:induction false} StartsBehind(spans: seq<PIIEntity>, len: nat, cursor: nat, k: PIIEntity)
    requires SpansOk(spans, len, cursor) && k in spans
    ensures k.start >= cursor
  {
    if k != spans[0] { StartsBehind(spans[1..], len, spans[0].end, k); }
  }

  lemma {:induction false} FirstLikeIn(list: seq<PIIEntity>, k: PIIEntity)
    requires FirstLike(list, k).Some?
    ensures FirstLike(list, k).value in list && SameSpan(FirstLike(list, k).value, k)
  {
    if !SameSpan(list[0], k) { FirstLikeIn(list[1..], k); }
  }

  lemma {:induction false} FirstLikeSame(list: seq<PIIEntity>, a: PIIEntity, b: PIIEntity)
    requires SameSpan(a, b)
    ensures FirstLike(list, a) == FirstLike(list, b)
  {
    if list != [] { FirstLikeSame(list[1..], a, b); }
  }

  /** Two right lists that start at all start with the same span. */
  lemma SameFirst(entities: seq<PIIEntity>, len: nat, cursor: nat, a: seq<PIIEntity>, b: seq<PIIEntity>)
    requires RightFrom(entities, len, cursor, a) && RightFrom(entities, len, cursor, b) && a != []
    ensures b != [] && b[0].start <= a[0].start
    ensures b[0].start == a[0].start ==> a[0] == b[0]
  {
    var x := a[0];
    assert x in a;
    FirstLikeIn(entities, x);
    assert StartsInside(x, b);
    var k :| k in b && k.start <= x.start < k.end;
    var y := b[0];
    assert y in b;
    FirstLikeIn(entities, y);
    if k != y { StartsBehind(b[1..], len, y.end, k); }
    if x.start == y.start { FirstLikeSame(entities, x, y); }
  }

  lemma RightTail(entities: seq<PIIEntity>, len: nat, cursor: nat, spans: seq<PIIEntity>)
    requires RightFrom(entities, len, cursor, spans) && spans != []
    ensures spans[0].end >= 0 && RightFrom(entities, len, spans[0].end, spans[1..])
  {
    var x, rest := spans[0], spans[1..];
    assert x in spans;
    forall k | k in rest ensures k.start >= x.end { StartsBehind(rest, len, x.end, k); }
    forall e | e in entities && InText(e, len) && e.start >= x.end ensures StartsInside(e, rest) {
      assert StartsInside(e, spans);
      var k :| k in spans && k.start <= e.start < k.end;
      assert k != x && k in rest;
    }
  }

  lemma {:induction false} OnlyOneIsRight(entities: seq<PIIEntity>, len: nat, cursor: nat, a: seq<PIIEntity>,
        b: seq<PIIEntity>)
    requires RightFrom(entities, len, cursor, a) && RightFrom(entities, len, cursor, b)
    ensures a == b
    decreases |a|
  {
    hide RightFrom;
    if a != [] {
      SameFirst(entities, len, cursor, a, b);
      SameFirst(entities, len, cursor, b, a);
      RightTail(entities, len, cursor, a);
      RightTail(entities, len, cursor, b);
      OnlyOneIsRight(entities, len, a[0].end, a[1..], b[1..]);
      assert a == [a[0]] + a[1..] && b == [b[0]] + b[1..];
    } else if b != [] {
      SameFirst(entities, len, cursor, b, a);
    }
  }

  /** The spans that are masked are exactly the right ones. */
  lemma KeptSpansAreRight(text: string, entities: seq<PIIEntity>, spans: seq<PIIEntity>)
    ensures spans == KeptSpans(text, entities) <==> RightFrom(entities, |text|, 0, spans)
  {
    KeptSpansRight(text, entities);
    hide RightFrom, KeptSpans;
    if RightFrom(entities, |text|, 0, spans) {
      OnlyOneIsRight(entities, |text|, 0, spans, KeptSpans(text, entities));
    }
  }

  predicate Covers(spans: seq<PIIEntity>, p: int) { exists k | k in spans :: k.start <= p < k.end }

  /** A byte of a detected span stays visible only when the span starts strictly inside a kept one that ends before the
      byte. */
  lemma VisibleOnlyBehind(text: string, entities: seq<PIIEntity>, e: PIIEntity, p: int) returns (k: PIIEntity)
    requires e in entities && InText(e, |text|) && e.start <= p < e.end && !Covers(KeptSpans(text, entities), p)
    ensures k in KeptSpans(text, entities) && k.start < e.start < k.end <= p
  {
    KeptSpansRight(text, entities);
    hide KeptSpans;
    k := KeptSpansCover(text, entities, e);
  }
}
