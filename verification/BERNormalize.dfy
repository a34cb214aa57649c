/** Rewriting BER with definite, minimal lengths (apps/gateway/internal/enclave/bootstrap/cms.go). */
module BERNormalize {
  import opened Common
  import opened Wrappers
  import opened BER
  import opened BERLaws

  // ---------- The normal form is itself an accepted encoding ----------

  function Canon(t: TLV): Element
    decreases t, 1
  {
    match t
    case Leaf(tag, content) => Primitive(tag, LengthOf(|content|), content)
    case Node(tag, children) => Definite(tag, LengthOf(|EncodeAll(children)|), Canons(children))
  }

  function Canons(ts: seq<TLV>): seq<Element>
    decreases ts, 0
  {
    if ts == [] then [] else [Canon(ts[0])] + Canons(ts[1..])
  }

  lemma CanonsCons(t: TLV, ts: seq<TLV>)
    ensures Canons([t] + ts) == [Canon(t)] + Canons(ts)
  {
    assert ([t] + ts)[1..] == ts;
  }

  /** The normal form writes the tree's minimal definite-length encoding and stands for the same tree. */
  lemma {:induction false} CanonMeans(t: TLV)
    ensures Bytes(Canon(t)) == Encode(t) && Tree(Canon(t)) == t
    decreases t, 1
  {
    if t.Node? { CanonsMean(t.children); }
  }

  lemma {:induction false} CanonsMean(ts: seq<TLV>)
    ensures BytesAll(Canons(ts)) == EncodeAll(ts) && Trees(Canons(ts)) == ts
    decreases ts, 0
  {
    if ts != [] {
      CanonMeans(ts[0]);
      CanonsMean(ts[1..]);
      AllOfCons(Canon(ts[0]), Canons(ts[1..]));
    }
  }

  lemma {:induction false} CanonValid(e: Element, depth: nat)
    requires Valid(e, depth)
    ensures Valid(Canon(Tree(e)), depth)
    decreases e, 1
  {
    match e
    case Primitive(_, _, content) => MinimalLengthOctets(|content|);
    case Definite(_, _, children) =>
      CanonsValid(children, depth + 1);
      CanonsMean(Trees(children));
      MinimalLengthOctets(|EncodeAll(Trees(children))|);
    case Indefinite(_, children) =>
      CanonsValid(children, depth + 1);
      CanonsMean(Trees(children));
      MinimalLengthOctets(|EncodeAll(Trees(children))|);
  }

  lemma {:induction false} CanonsValid(es: seq<Element>, depth: nat)
    requires ValidAll(es, depth)
    ensures ValidAll(Canons(Trees(es)), depth)
    decreases es, 0
  {
    if es != [] {
      CanonValid(es[0], depth);
      CanonsValid(es[1..], depth);
      CanonsCons(Tree(es[0]), Trees(es[1..]));
      AllOfCons(Canon(Tree(es[0])), Canons(Trees(es[1..])));
    }
  }

  // ---------- The normal form is never longer ----------

  lemma {:induction false} BigEndianGrows(m: nat, n: nat)
    requires m <= n
    ensures |BigEndian(m)| <= |BigEndian(n)|
  {
    if m > 0 { BigEndianGrows(m / 256, n / 256); }
  }

  lemma MinimalLengthGrows(m: nat, n: nat)
    requires m <= n < 0x1_0000_0000
    ensures |MinimalLength(m)| <= |MinimalLength(n)|
  {
    if m >= 128 { BigEndianGrows(m, n); }
  }

  lemma SmallLength(n: nat)
    requires n <= MAX_BYTES
    ensures |MinimalLength(n)| <= 3
  {
    assert Power256(2) == 65536;
    BigEndianSize(n, 2);
  }

  lemma {:induction false} NeverGrows(e: Element, depth: nat)
    requires Valid(e, depth)
    ensures |Encode(Tree(e))| <= |Bytes(e)|
    decreases e, 1
  {
    match e
    case Primitive(_, octets, content) => MinimalLengthIsShortest(octets, |content|);
    case Definite(_, octets, children) =>
      AllNeverGrow(children, depth + 1);
      MinimalLengthIsShortest(octets, |BytesAll(children)|);
      MinimalLengthGrows(|EncodeAll(Trees(children))|, |BytesAll(children)|);
    case Indefinite(_, children) =>
      AllNeverGrow(children, depth + 1);
      SmallLength(|EncodeAll(Trees(children))|);
  }

  lemma {:induction false} AllNeverGrow(es: seq<Element>, depth: nat)
    requires ValidAll(es, depth)
    ensures |EncodeAll(Trees(es))| <= |BytesAll(es)|
    decreases es, 0
  {
    if es != [] {
      NeverGrows(es[0], depth);
      AllNeverGrow(es[1..], depth);
    }
  }

  lemma LengthFailures(encoded: seq<byte>, p: nat)
    requires p < |encoded|
    ensures ParseLength(encoded, p).BadLength? ==> ParseLength(encoded, p).failure != TooLarge
  {
  }

  /** The accumulated size can only be too large among the children. */
  lemma ParseFails(encoded: seq<byte>, depth: nat) returns (q: nat, limit: nat, indefinite: bool)
    requires Parse(encoded, depth) == Fail(TooLarge)
    ensures 2 <= q <= limit <= |encoded| && ParseAll(encoded[q..limit], depth + 1, indefinite, 0) == FailAll(TooLarge)
  {
    if ParseTag(encoded).TagEnds? && ParseTag(encoded).position < |encoded| {
      LengthFailures(encoded, ParseTag(encoded).position);
    }
    hide ParseTag, ParseLength, ParseAll;
    var p := ParseTag(encoded).position;
    var l := ParseLength(encoded, p);
    q, indefinite := l.position, l.indefinite;
    limit := if indefinite then |encoded| else q + l.length;
  }

  /** Inputs within the size limit never fail for accumulated size. */
  lemma {:induction false} SizeCheckNeverFires(encoded: seq<byte>, depth: nat)
    requires |encoded| <= MAX_BYTES
    ensures Parse(encoded, depth) != Fail(TooLarge)
    decreases |encoded|, 0
  {
    hide *;
    if Parse(encoded, depth) == Fail(TooLarge) {
      var q, limit, indefinite := ParseFails(encoded, depth);
      AccumulatedSizeFits(encoded[q..limit], depth + 1, indefinite, 0);
    }
  }

  lemma ParseAllFails(encoded: seq<byte>, depth: nat, indefinite: bool, size: nat)
    requires ParseAll(encoded, depth, indefinite, size) == FailAll(TooLarge)
    ensures encoded != []
    ensures var first := Parse(encoded, depth);
      || first == Fail(TooLarge)
      || (first.Found?
          && var size' := size + |Encode(Tree(first.element))|;
             size' > MAX_BYTES || ParseAll(encoded[first.consumed..], depth, indefinite, size') == FailAll(TooLarge))
  {
    hide Parse, Encode, Tree;
  }

  lemma {:induction false} AccumulatedSizeFits(encoded: seq<byte>, depth: nat, indefinite: bool, size: nat)
    requires size + |encoded| <= MAX_BYTES
    ensures ParseAll(encoded, depth, indefinite, size) != FailAll(TooLarge)
    decreases |encoded|, 1
  {
    hide *;
    if encoded != [] {
      SizeCheckNeverFires(encoded, depth);
      var first := Parse(encoded, depth);
      if first.Found? {
        FoundFits(encoded, depth);
        AccumulatedSizeFits(encoded[first.consumed..], depth, indefinite, size + |Encode(Tree(first.element))|);
      }
    }
    if ParseAll(encoded, depth, indefinite, size) == FailAll(TooLarge) {
      ParseAllFails(encoded, depth, indefinite, size);
    }
  }

  lemma FoundFits(encoded: seq<byte>, depth: nat)
    requires Parse(encoded, depth).Found?
    ensures |Encode(Tree(Parse(encoded, depth).element))| <= Parse(encoded, depth).consumed
  {
    ParseSound(encoded, depth);
    NeverGrows(Parse(encoded, depth).element, depth);
  }

  // ---------- The result of normalising ----------

  function Normal(encoded: seq<byte>): Result<seq<byte>, Failure> {
    match Parse(encoded, 0)
    case Fail(failure) => Err(failure)
    case End => Err(Trailing)
    case Found(e, k) => if k == |encoded| then Ok(Encode(Tree(e))) else Err(Trailing)
  }

  /** Normalising succeeds exactly on the accepted encodings, and returns the minimal definite-length
      encoding of the tree they stand for. */
  lemma NormalKeepsMeaning(encoded: seq<byte>, out: seq<byte>)
    ensures Normal(encoded) == Ok(out) <==> exists e :: Valid(e, 0) && Bytes(e) == encoded && out == Encode(Tree(e))
  {
    if Normal(encoded) == Ok(out) {
      ParseSound(encoded, 0);
      var e := Parse(encoded, 0).element;
      assert encoded[..|encoded|] == encoded;
      assert Valid(e, 0) && Bytes(e) == encoded && out == Encode(Tree(e));
    }
    if e :| Valid(e, 0) && Bytes(e) == encoded && out == Encode(Tree(e)) {
      ParseComplete(e, 0, []);
      assert encoded + [] == encoded;
    }
  }

  /** An accepted encoding stands for one tree. */
  lemma EncodingIsUnambiguous(e: Element, e': Element, depth: nat)
    requires Valid(e, depth) && Valid(e', depth) && Bytes(e) == Bytes(e')
    ensures e == e'
  {
    ParseComplete(e, depth, []);
    ParseComplete(e', depth, []);
  }

  /** The outcome depends only on the bytes consumed. */
  lemma OnlyThePrefixCounts(encoded: seq<byte>, depth: nat, rest: seq<byte>)
    requires Parse(encoded, depth).Found?
    ensures Parse(encoded[..Parse(encoded, depth).consumed] + rest, depth) == Parse(encoded, depth)
  {
    ParseSound(encoded, depth);
    ParseComplete(Parse(encoded, depth).element, depth, rest);
  }

  /** Normalising what was normalised changes nothing, and neither step makes it longer. */
  lemma NormalIsIdempotent(encoded: seq<byte>)
    requires Normal(encoded).Ok?
    ensures Normal(Normal(encoded).value) == Normal(encoded)
    ensures |Normal(encoded).value| <= |encoded|
  {
    var out := Normal(encoded).value;
    NormalKeepsMeaning(encoded, out);
    var e :| Valid(e, 0) && Bytes(e) == encoded && out == Encode(Tree(e));
    NeverGrows(e, 0);
    var c := Canon(Tree(e));
    CanonValid(e, 0);
    CanonMeans(Tree(e));
    assert Valid(c, 0) && Bytes(c) == out && out == Encode(Tree(c));
    NormalKeepsMeaning(out, out);
  }

  // ---------- The code ----------

  lemma BigEndianStep(n: nat, rest: seq<byte>)
    requires n > 0
    ensures BigEndian(n) + rest == BigEndian(n / 256) + ([n % 256] + rest)
    ensures |BigEndian(n)| == |BigEndian(n / 256)| + 1
  {
    Assoc(BigEndian(n / 256), [n % 256], rest);
  }

  lemma NoDigits(rest: seq<byte>)
    ensures BigEndian(0) + rest == rest
  {
  }

  lemma LongLength(n: nat, digits: seq<byte>)
    requires 128 <= n < 0x1_0000_0000 && digits == BigEndian(n)
    ensures LengthOf(n) == [0x80 + |digits|] + digits
  {
  }

  function LowByte(n: nat): byte { n % 256 }

  function Shifted(n: nat): (r: nat)
    ensures n > 0 ==> r < n
  {
    n / 256
  }

  /** The digits written so far, from the back of the buffer. */
  ghost predicate Digits(n: nat, length: nat, written: seq<byte>) {
    |BigEndian(length)| + |written| <= 4 && BigEndian(length) + written == BigEndian(n)
  }

  lemma DigitsStart(n: nat)
    requires n < 0x1_0000_0000
    ensures Digits(n, n, [])
  {
    assert Power256(4) == 0x1_0000_0000;
    BigEndianSize(n, 4);
  }

  lemma DigitsStep(n: nat, length: nat, written: seq<byte>)
    requires Digits(n, length, written) && length > 0
    ensures |written| < 4 && Digits(n, Shifted(length), [LowByte(length)] + written)
  {
    BigEndianStep(length, written);
  }

  lemma DigitsDone(n: nat, written: seq<byte>)
    requires Digits(n, 0, written) && 128 <= n < 0x1_0000_0000
    ensures LengthOf(n) == [0x80 + |written|] + written
  {
    NoDigits(written);
    LongLength(n, written);
  }

  lemma FillFromBack(buffer: seq<byte>, position: nat, digit: byte)
    requires 0 < position <= |buffer|
    ensures buffer[position - 1 := digit][position - 1..] == [digit] + buffer[position..]
  {
  }

  /** Fills a four-byte buffer from the back with the length digits. */
  method LongLengthOctets(n: nat) returns (octets: seq<byte>)
    requires 128 <= n < 0x1_0000_0000
    ensures octets == LengthOf(n)
  {
    hide Digits, LengthOf, LowByte, Shifted;
    DigitsStart(n);
    var length: nat := n;
    var buffer: seq<byte> := [0, 0, 0, 0];
    var position: nat := 4;
    while length != 0
      invariant position <= 4 == |buffer| && Digits(n, length, buffer[position..])
    {
      DigitsStep(n, length, buffer[position..]);
      FillFromBack(buffer, position, LowByte(length));
      position := position - 1;
      buffer := buffer[position := LowByte(length)];
      length := Shifted(length);
    }
    DigitsDone(n, buffer[position..]);
    return [0x80 + (4 - position)] + buffer[position..];
  }

  /** Writes the tag, the shortest length octets and the content. */
  method EncodeDERElement(tag: seq<byte>, content: seq<byte>) returns (encoded: seq<byte>)
    requires |content| < 0x1_0000_0000
    ensures encoded == EncodeElement(tag, content)
  {
    encoded := tag;
    if |content| < 128 {
      encoded := encoded + [|content|];
    } else {
      var octets := LongLengthOctets(|content|);
      encoded := encoded + octets;
    }
    encoded := encoded + content;
  }

  /** The four results of one element, as the parser decides them. */
  ghost predicate ElementResult(encoded: seq<byte>, depth: nat, out: seq<byte>, consumed: nat, end: bool,
        failed: Option<Failure>)
  {
    match Parse(encoded, depth)
    case Fail(failure) => out == [] && consumed == 0 && !end && failed == Some(failure)
    case End => out == [] && consumed == 2 && end && failed == None
    case Found(e, k) => out == Encode(Tree(e)) && consumed == k && !end && failed == None
  }

  method NormalizeBER(encoded: seq<byte>) returns (r: Result<seq<byte>, Failure>)
    ensures r == Normal(encoded)
  {
    var normalized, consumed, endOfContents, failed := NormalizeBERElement(encoded, 0);
    if failed.Some? {
      return Err(failed.value);
    }
    if endOfContents || consumed != |encoded| {
      return Err(Trailing);
    }
    return Ok(normalized);
  }

  method TagEnd(encoded: seq<byte>) returns (position: nat, ok: bool)
    requires encoded != []
    ensures ParseTag(encoded) == if ok then TagEnds(position) else BadTag
  {
    position := 1;
    if encoded[0] % 32 == 31 {
      var count := 0;
      while true
        invariant 1 <= position <= |encoded| && 0 <= count
        invariant ParseHighTag(encoded, position, count) == ParseTag(encoded)
        decreases |encoded| - position
      {
        if position >= |encoded| || count >= 4 {
          return position, false;
        }
        var current := encoded[position];
        position := position + 1;
        if current < 128 {
          break;
        }
        count := count + 1;
      }
    }
    ok := true;
  }

  method LengthEnd(encoded: seq<byte>, start: nat) returns (l: ParsedLength)
    requires start < |encoded|
    ensures l == ParseLength(encoded, start)
  {
    var position: nat := start;
    var lengthByte := encoded[position];
    position := position + 1;
    var length: nat := 0;
    if lengthByte == 0x80 {
      return LengthIs(true, 0, position);
    }
    if lengthByte < 128 {
      length := lengthByte;
    } else {
      var lengthBytes: nat := lengthByte - 128;
      if lengthBytes == 0 || lengthBytes > 4 || position + lengthBytes > |encoded| || encoded[position] == 0 {
        return BadLength(LongForm);
      }
      for index := 0 to lengthBytes
        invariant length == Value(encoded[position..position + index])
      {
        length := length * 256 + encoded[position + index];
        var digits := encoded[position..position + index + 1];
        assert digits[..|digits| - 1] == encoded[position..position + index];
      }
      position := position + lengthBytes;
    }
    if length > MAX_BYTES || position + length > |encoded| {
      return BadLength(ContentLength);
    }
    return LengthIs(false, length, position);
  }

  /** The elements found before, in front of what is found in the rest. */
  function Behind(done: seq<Element>, k: nat, r: ParsedAll): ParsedAll {
    match r
    case FailAll(failure) => FailAll(failure)
    case FoundAll(es, n) => FoundAll(done + es, k + n)
  }

  /** The children read so far, and what is still to be read. */
  ghost predicate ReadSoFar(all: seq<byte>, depth: nat, indefinite: bool, done: seq<Element>, k: nat,
        content: seq<byte>)
  {
    && k <= |all| && content == EncodeAll(Trees(done)) && |content| <= MAX_BYTES
    && ParseAll(all, depth, indefinite, 0) == Behind(done, k, ParseAll(all[k..], depth, indefinite, |content|))
  }

  lemma ReadNothing(all: seq<byte>, depth: nat, indefinite: bool)
    ensures ReadSoFar(all, depth, indefinite, [], 0, [])
  {
    assert all[0..] == all;
    var r := ParseAll(all, depth, indefinite, 0);
    if r.FoundAll? { assert [] + r.elements == r.elements; }
  }

  lemma {:induction false} TreesSnoc(es: seq<Element>, e: Element)
    ensures EncodeAll(Trees(es + [e])) == EncodeAll(Trees(es)) + Encode(Tree(e))
  {
    if es == [] {
      assert [] + [e] == [e];
      AllOfCons(e, []);
    } else {
      HeadAndTail(es);
      assert es + [e] == [es[0]] + (es[1..] + [e]);
      AllOfCons(es[0], es[1..] + [e]);
      AllOfCons(es[0], es[1..]);
      TreesSnoc(es[1..], e);
      Assoc(Encode(Tree(es[0])), EncodeAll(Trees(es[1..])), Encode(Tree(e)));
    }
  }

  lemma ReadOneMore(all: seq<byte>, depth: nat, indefinite: bool, done: seq<Element>, k: nat, content: seq<byte>,
        rest: seq<byte>,
                    e: Element, n: nat)
    requires ReadSoFar(all, depth, indefinite, done, k, content) && rest == all[k..] && rest != []
    requires Parse(rest, depth) == Found(e, n) && |content| + |Encode(Tree(e))| <= MAX_BYTES
    ensures ReadSoFar(all, depth, indefinite, done + [e], k + n, content + Encode(Tree(e)))
  {
    TreesSnoc(done, e);
    hide Parse, Encode, Tree, Trees, EncodeAll;
    assert all[k..][n..] == all[k + n..];
    var r := ParseAll(all[k + n..], depth, indefinite, |content| + |Encode(Tree(e))|);
    if r.FoundAll? { assert done + ([e] + r.elements) == done + [e] + r.elements; }
  }

  /** What a sequence of children amounts to, as the parser decides it. */
  ghost predicate ChildrenResult(encoded: seq<byte>, depth: nat, indefinite: bool, content: seq<byte>, consumed: nat,
        failed: Option<Failure>)
  {
    match ParseAll(encoded, depth, indefinite, 0)
    case FailAll(failure) => failed == Some(failure)
    case FoundAll(es, n) => failed == None && consumed == n && |content| <= MAX_BYTES && content == EncodeAll(Trees(es))
  }

  lemma ReadEnds(all: seq<byte>, depth: nat, indefinite: bool, done: seq<Element>, k: nat, content: seq<byte>,
        last: ParsedAll)
    requires ReadSoFar(all, depth, indefinite, done, k, content)
    requires last == ParseAll(all[k..], depth, indefinite, |content|)
    ensures last.FailAll? ==> ChildrenResult(all, depth, indefinite, [], 0, Some(last.failure))
    ensures last.FoundAll? && last.elements == [] ==>
      ChildrenResult(all, depth, indefinite, content, k + last.consumed, None)
  {
    if last.FoundAll? && last.elements == [] { assert done + [] == done; }
  }

  lemma ParseAllCases(rest: seq<byte>, depth: nat, indefinite: bool, size: nat)
    ensures rest == [] ==>
      ParseAll(rest, depth, indefinite, size) == if indefinite then FailAll(NoTerminator) else FoundAll([], 0)
    ensures rest != [] && Parse(rest, depth).Fail? ==>
      ParseAll(rest, depth, indefinite, size) == FailAll(Parse(rest, depth).failure)
    ensures rest != [] && Parse(rest, depth).End? ==>
      ParseAll(rest, depth, indefinite, size) == if indefinite then FoundAll([], 2) else FailAll(UnexpectedTerminator)
    ensures rest != [] && Parse(rest, depth).Found? && size + |Encode(Tree(Parse(rest, depth).element))| > MAX_BYTES ==>
      ParseAll(rest, depth, indefinite, size) == FailAll(TooLarge)
  {
    hide Parse, Encode, Tree;
  }

  lemma ElementCases(encoded: seq<byte>, depth: nat, out: seq<byte>, consumed: nat, end: bool, failed: Option<Failure>)
    requires ElementResult(encoded, depth, out, consumed, end, failed)
    ensures failed.Some? ==> Parse(encoded, depth) == Fail(failed.value)
    ensures failed.None? && end ==> Parse(encoded, depth) == End && consumed == 2
    ensures failed.None? && !end ==>
      Parse(encoded, depth).Found? && Parse(encoded, depth).consumed == consumed && 2 <= consumed <= |encoded|
      && out == Encode(Tree(Parse(encoded, depth).element))
  {
  }

  /** Rewrites the children up to the end of the value or its terminator. */
  method NormalizeChildren(encoded: seq<byte>, depth: nat, indefinite: bool)
      returns (content: seq<byte>, consumed: nat, failed: Option<Failure>)
    ensures ChildrenResult(encoded, depth, indefinite, content, consumed, failed)
    decreases |encoded|, 1
  {
    hide Parse, ParseAll, ReadSoFar, ChildrenResult, ElementResult, Encode, EncodeAll, Tree, Trees;
    assert 0 <= MAX_BYTES;
    content := [];
    var position: nat := 0;
    ghost var done: seq<Element> := [];
    ReadNothing(encoded, depth, indefinite);
    while position < |encoded|
      invariant position <= |encoded| && ReadSoFar(encoded, depth, indefinite, done, position, content)
      decreases |encoded| - position
    {
      var rest := encoded[position..];
      var child, n, endOfContents, failure := NormalizeBERElement(rest, depth);
      ElementCases(rest, depth, child, n, endOfContents, failure);
      ParseAllCases(rest, depth, indefinite, |content|);
      ReadEnds(encoded, depth, indefinite, done, position, content, ParseAll(rest, depth, indefinite, |content|));
      if failure.Some? {
        return [], 0, failure;
      }
      if endOfContents {
        if !indefinite {
          return [], 0, Some(UnexpectedTerminator);
        }
        return content, position + n, None;
      }
      if n <= 0 || |content| + |child| > MAX_BYTES {
        return [], 0, Some(TooLarge);
      }
      ReadOneMore(encoded, depth, indefinite, done, position, content, rest, Parse(rest, depth).element, n);
      done := done + [Parse(rest, depth).element];
      content := content + child;
      position := position + n;
    }
    assert encoded[position..] == [];
    ParseAllCases([], depth, indefinite, |content|);
    ReadEnds(encoded, depth, indefinite, done, position, content, ParseAll([], depth, indefinite, |content|));
    if indefinite {
      return [], 0, Some(NoTerminator);
    }
    return content, position, None;
  }

  /** What the parser decides from tag, length and children. */
  lemma HeaderFails(encoded: seq<byte>, depth: nat)
    ensures depth > MAX_DEPTH || |encoded| < 2 ==> Parse(encoded, depth) == Fail(Truncated)
    ensures depth <= MAX_DEPTH && |encoded| >= 2 && encoded[0] == 0 && encoded[1] == 0 ==> Parse(encoded, depth) == End
    ensures depth <= MAX_DEPTH && |encoded| >= 2 && !(encoded[0] == 0 && encoded[1] == 0) ==>
      && (ParseTag(encoded).BadTag? ==> Parse(encoded, depth) == Fail(HighTag))
      && (ParseTag(encoded).TagEnds? && ParseTag(encoded).position >= |encoded| ==>
        Parse(encoded, depth) == Fail(LengthMissing))
      && (ParseTag(encoded).TagEnds? && ParseTag(encoded).position < |encoded| ==>
            var length := ParseLength(encoded, ParseTag(encoded).position);
            length.BadLength? ==> Parse(encoded, depth) == Fail(length.failure))
  {
  }

  lemma IndefinitePrimitiveFails(encoded: seq<byte>, depth: nat, p: nat, l: ParsedLength)
    requires depth <= MAX_DEPTH && HeaderIs(encoded, p, l) && (encoded[0] / 32) % 2 == 0 && l.indefinite
    ensures ElementResult(encoded, depth, [], 0, false, Some(PrimitiveIndefinite))
  {
  }

  lemma PrimitiveResult(encoded: seq<byte>, depth: nat, p: nat, l: ParsedLength)
    requires depth <= MAX_DEPTH && HeaderIs(encoded, p, l) && (encoded[0] / 32) % 2 == 0 && !l.indefinite
    ensures var limit := l.position + l.length;
      ElementResult(encoded, depth, EncodeElement(encoded[..p], encoded[l.position..limit]), limit, false, None)
  {
    BuildPrimitive(encoded, depth, p, l);
  }

  lemma ConstructedResult(encoded: seq<byte>, depth: nat, p: nat, l: ParsedLength, all: seq<byte>, content: seq<byte>,
        n: nat)
    requires depth <= MAX_DEPTH && HeaderIs(encoded, p, l) && (encoded[0] / 32) % 2 == 1
    requires all == encoded[l.position..if l.indefinite then |encoded| else l.position + l.length]
    requires ChildrenResult(all, depth + 1, l.indefinite, content, n, None)
    ensures ElementResult(encoded, depth, EncodeElement(encoded[..p], content), l.position + n, false, None)
  {
    var r := ParseAll(all, depth + 1, l.indefinite, 0);
    hide ParseAll, Parse;
    if l.indefinite {
      BuildIndefinite(encoded, depth, p, l, all, r.elements, n);
    } else {
      BuildDefinite(encoded, depth, p, l, all, r.elements, n);
    }
  }

  lemma ChildrenFail(encoded: seq<byte>, depth: nat, p: nat, l: ParsedLength, all: seq<byte>, content: seq<byte>,
        n: nat, f: Failure)
    requires depth <= MAX_DEPTH && HeaderIs(encoded, p, l) && (encoded[0] / 32) % 2 == 1
    requires all == encoded[l.position..if l.indefinite then |encoded| else l.position + l.length]
    requires ChildrenResult(all, depth + 1, l.indefinite, content, n, Some(f))
    ensures ElementResult(encoded, depth, [], 0, false, Some(f))
  {
  }

  /** Reads one element and returns its normal form, or reports a terminator. */
  method NormalizeBERElement(encoded: seq<byte>, depth: nat)
      returns (out: seq<byte>, consumed: nat, endOfContents: bool, failed: Option<Failure>)
    ensures ElementResult(encoded, depth, out, consumed, endOfContents, failed)
    decreases |encoded|, 0
  {
    HeaderFails(encoded, depth);
    if depth > MAX_DEPTH || |encoded| < 2 {
      return [], 0, false, Some(Truncated);
    }
    if encoded[0] == 0 && encoded[1] == 0 {
      return [], 2, true, None;
    }
    hide Parse, ParseAll, ParseTag, ParseLength, ChildrenResult, EncodeElement;
    var p, tagOk := TagEnd(encoded);
    if !tagOk {
      return [], 0, false, Some(HighTag);
    }
    if p >= |encoded| {
      return [], 0, false, Some(LengthMissing);
    }
    var l := LengthEnd(encoded, p);
    if l.BadLength? {
      return [], 0, false, Some(l.failure);
    }
    assert HeaderIs(encoded, p, l);
    hide ElementResult;
    var constructed := (encoded[0] / 32) % 2 == 1;
    if l.indefinite && !constructed {
      IndefinitePrimitiveFails(encoded, depth, p, l);
      return [], 0, false, Some(PrimitiveIndefinite);
    }
    if !constructed {
      out := EncodeDERElement(encoded[..p], encoded[l.position..l.position + l.length]);
      PrimitiveResult(encoded, depth, p, l);
      return out, l.position + l.length, false, None;
    }
    var contentLimit := if l.indefinite then |encoded| else l.position + l.length;
    var content, n, failure := NormalizeChildren(encoded[l.position..contentLimit], depth + 1, l.indefinite);
    if failure.Some? {
      ChildrenFail(encoded, depth, p, l, encoded[l.position..contentLimit], content, n, failure.value);
      return [], 0, false, failure;
    }
    ContentFits(encoded[l.position..contentLimit], depth + 1, l.indefinite, content, n);
    out := EncodeDERElement(encoded[..p], content);
    ConstructedResult(encoded, depth, p, l, encoded[l.position..contentLimit], content, n);
    return out, l.position + n, false, None;
  }

  lemma ContentFits(all: seq<byte>, depth: nat, indefinite: bool, content: seq<byte>, n: nat)
    requires ChildrenResult(all, depth, indefinite, content, n, None)
    ensures |content| <= MAX_BYTES
  {
  }
}
