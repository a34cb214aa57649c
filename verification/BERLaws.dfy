/** The parser reads exactly the accepted encodings, and the definite-length form keeps the meaning. */
module BERLaws {
  import opened Common
  import opened BER

  // ---------- Tags and lengths ----------

  lemma {:induction false} HighTagReads(encoded: seq<byte>, position: nat, count: nat, end: nat)
    requires 1 <= position <= end < |encoded| && end - position + count < 4 && encoded[end] < 128
    requires forall i | position <= i < end :: encoded[i] >= 128
    ensures ParseHighTag(encoded, position, count) == TagEnds(end + 1)
    decreases end - position
  {
    if position < end { HighTagReads(encoded, position + 1, count + 1, end); }
  }

  lemma {:induction false} HighTagStops(encoded: seq<byte>, position: nat, count: nat)
    requires position <= |encoded| && ParseHighTag(encoded, position, count).TagEnds?
    ensures var end := ParseHighTag(encoded, position, count).position - 1;
      position <= end < |encoded| && end - position + count < 4 && encoded[end] < 128
      && forall i | position <= i < end :: encoded[i] >= 128
    decreases |encoded| - position
  {
    if encoded[position] >= 128 { HighTagStops(encoded, position + 1, count + 1); }
  }

  lemma TagSound(encoded: seq<byte>, p: nat)
    requires encoded != [] && ParseTag(encoded) == TagEnds(p)
    ensures TagOk(encoded[..p], (encoded[0] / 32) % 2 == 1)
  {
    if encoded[0] % 32 == 31 { HighTagStops(encoded, 1, 0); }
  }

  lemma TagComplete(tag: seq<byte>, constructed: bool, rest: seq<byte>)
    requires TagOk(tag, constructed)
    ensures ParseTag(tag + rest) == TagEnds(|tag|)
  {
    if tag[0] % 32 == 31 { HighTagReads(tag + rest, 1, 0, |tag| - 1); }
  }

  lemma {:induction false} ValuePositive(digits: seq<byte>)
    requires digits != [] && digits[0] != 0
    ensures Value(digits) > 0
  {
    if |digits| > 1 { ValuePositive(digits[..|digits| - 1]); }
  }

  lemma LengthSound(encoded: seq<byte>, p: nat)
    requires p < |encoded| && ParseLength(encoded, p).LengthIs?
    ensures var r := ParseLength(encoded, p);
      if r.indefinite then encoded[p] == 0x80 && r.position == p + 1 && r.length == 0
      else LengthOctets(encoded[p..r.position], r.length) && r.length <= MAX_BYTES
           && (r.length == 0 ==> encoded[p] == 0)
  {
    var r := ParseLength(encoded, p);
    if !r.indefinite && encoded[p] >= 128 {
      var octets := encoded[p..r.position];
      assert octets[1..] == encoded[p + 1..r.position];
      ValuePositive(octets[1..]);
    }
  }

  lemma LengthComplete(before: seq<byte>, octets: seq<byte>, n: nat, rest: seq<byte>)
    requires LengthOctets(octets, n) && n <= MAX_BYTES && n <= |rest|
    ensures ParseLength(before + octets + rest, |before|) == LengthIs(false, n, |before| + |octets|)
  {
    var encoded := before + octets + rest;
    var p := |before|;
    assert encoded[p] == octets[0];
    if |octets| > 1 {
      assert encoded[p + 1..p + |octets|] == octets[1..];
      assert encoded[p + 1] == octets[1];
    }
  }

  // ---------- Whatever is found is an accepted encoding of the bytes consumed ----------

  lemma Join(s: seq<byte>, i: nat, j: nat)
    requires i <= j <= |s|
    ensures s[..i] + s[i..j] == s[..j]
  {
  }

  lemma JoinInside(s: seq<byte>, q: nat, limit: nat, n: nat)
    requires q + n <= limit <= |s|
    ensures s[..q] + s[q..limit][..n] == s[..q + n]
  {
  }

  lemma PrimitiveSound(encoded: seq<byte>, depth: nat, p: nat, q: nat, n: nat)
    requires depth <= MAX_DEPTH && 1 <= p < q && q + n <= |encoded| && TagOk(encoded[..p], false)
    requires LengthOctets(encoded[p..q], n) && n <= MAX_BYTES && (n == 0 ==> encoded[p] == 0)
    requires !(encoded[0] == 0 && encoded[1] == 0)
    ensures Sound(encoded, depth, Primitive(encoded[..p], encoded[p..q], encoded[q..q + n]), q + n)
  {
    Join(encoded, p, q);
    Join(encoded, q, q + n);
  }

  lemma ConstructedSound(encoded: seq<byte>, depth: nat, p: nat, q: nat, children: seq<Element>, n: nat,
        indefinite: bool)
    requires depth <= MAX_DEPTH && 1 <= p < q && q + n <= |encoded| && TagOk(encoded[..p], true)
    requires BytesAll(children) + (if indefinite then [0, 0] else []) == encoded[q..][..n]
    requires |EncodeAll(Trees(children))| <= MAX_BYTES && ValidAll(children, depth + 1)
    requires if indefinite then q == p + 1 && encoded[p] == 0x80 && depth < MAX_DEPTH
             else LengthOctets(encoded[p..q], n) && n <= MAX_BYTES
    ensures var e := if indefinite then Indefinite(encoded[..p], children)
      else Definite(encoded[..p], encoded[p..q], children);
      Sound(encoded, depth, e, q + n)
  {
    Join(encoded, p, q);
    JoinInside(encoded, q, |encoded|, n);
    if indefinite {
      assert encoded[p..q] == [0x80];
    } else {
      assert BytesAll(children) + [] == BytesAll(children);
    }
  }

  /** How an element was found: the tag, the length, then the content. */
  lemma ParseShape(encoded: seq<byte>, depth: nat, p: nat, l: ParsedLength, limit: nat)
    requires Parse(encoded, depth).Found?
    requires TagEnds(p) == ParseTag(encoded) && p < |encoded| && l == ParseLength(encoded, p)
    requires l.LengthIs? ==> limit == if l.indefinite then |encoded| else l.position + l.length
    ensures depth <= MAX_DEPTH && !(encoded[0] == 0 && encoded[1] == 0) && l.LengthIs?
      && l.position <= limit <= |encoded|
    ensures var r := Parse(encoded, depth);
      if (encoded[0] / 32) % 2 == 0 then
        !l.indefinite && r == Found(Primitive(encoded[..p], encoded[p..l.position], encoded[l.position..limit]), limit)
      else
        var c := ParseAll(encoded[l.position..limit], depth + 1, l.indefinite, 0);
        c.FoundAll? && c.consumed <= limit - l.position
        && r == Found(if l.indefinite then Indefinite(encoded[..p], c.elements)
                      else Definite(encoded[..p], encoded[p..l.position], c.elements), l.position + c.consumed)
  {
    hide ParseTag, ParseLength, ParseAll;
  }

  ghost predicate Sound(encoded: seq<byte>, depth: nat, e: Element, k: nat) {
    k <= |encoded| && Bytes(e) == encoded[..k] && Valid(e, depth)
  }

  /** The three parts an element was found from. */
  ghost predicate FoundFrom(encoded: seq<byte>, depth: nat, p: nat, l: ParsedLength, limit: nat) {
    && Parse(encoded, depth).Found?
    && TagEnds(p) == ParseTag(encoded) && 1 <= p < |encoded| && l == ParseLength(encoded, p) && l.LengthIs?
    && p < l.position <= limit <= |encoded| && limit == if l.indefinite then |encoded| else l.position + l.length
  }

  lemma FoundHasParts(encoded: seq<byte>, depth: nat) returns (p: nat, l: ParsedLength, limit: nat)
    requires Parse(encoded, depth).Found?
    ensures FoundFrom(encoded, depth, p, l, limit)
  {
    p := ParseTag(encoded).position;
    l := ParseLength(encoded, p);
    limit := if l.indefinite then |encoded| else l.position + l.length;
  }

  lemma FoundPrimitiveSound(encoded: seq<byte>, depth: nat, p: nat, l: ParsedLength, limit: nat)
    requires FoundFrom(encoded, depth, p, l, limit) && (encoded[0] / 32) % 2 == 0
    ensures Sound(encoded, depth, Parse(encoded, depth).element, Parse(encoded, depth).consumed)
  {
    ParseShape(encoded, depth, p, l, limit);
    TagSound(encoded, p);
    LengthSound(encoded, p);
    hide Parse, ParseTag, ParseLength, TagOk, LengthOctets, Sound;
    PrimitiveSound(encoded, depth, p, l.position, l.length);
  }

  lemma FoundConstructedSound(encoded: seq<byte>, depth: nat, p: nat, l: ParsedLength, limit: nat, r: ParsedAll)
    requires FoundFrom(encoded, depth, p, l, limit) && (encoded[0] / 32) % 2 == 1
    requires r == ParseAll(encoded[l.position..limit], depth + 1, l.indefinite, 0) && r.FoundAll?
    requires AllSound(encoded[l.position..limit], depth + 1, l.indefinite, 0, r.elements, r.consumed)
    ensures Sound(encoded, depth, Parse(encoded, depth).element, Parse(encoded, depth).consumed)
  {
    ParseShape(encoded, depth, p, l, limit);
    TagSound(encoded, p);
    LengthSound(encoded, p);
    AllSoundMeans(encoded, l.position, limit, depth + 1, l.indefinite, r.elements, r.consumed);
    hide Parse, ParseAll, ParseTag, ParseLength, TagOk, LengthOctets, Sound, AllSound, BytesAll, ValidAll, EncodeAll,
      Trees;
    ConstructedSound(encoded, depth, p, l.position, r.elements, r.consumed, l.indefinite);
  }

  lemma FoundAllChildren(encoded: seq<byte>, depth: nat, p: nat, l: ParsedLength, limit: nat)
    requires FoundFrom(encoded, depth, p, l, limit) && (encoded[0] / 32) % 2 == 1
    ensures ParseAll(encoded[l.position..limit], depth + 1, l.indefinite, 0).FoundAll?
    ensures |encoded[l.position..limit]| < |encoded|
  {
    ParseShape(encoded, depth, p, l, limit);
  }

  /** Whatever is found is an accepted encoding of exactly the bytes consumed. */
  lemma {:induction false} ParseSound(encoded: seq<byte>, depth: nat)
    requires Parse(encoded, depth).Found?
    ensures Sound(encoded, depth, Parse(encoded, depth).element, Parse(encoded, depth).consumed)
    decreases |encoded|, 0
  {
    var p, l, limit := FoundHasParts(encoded, depth);
    if (encoded[0] / 32) % 2 == 0 {
      FoundPrimitiveSound(encoded, depth, p, l, limit);
    } else {
      FoundAllChildren(encoded, depth, p, l, limit);
      var content := encoded[l.position..limit];
      ParseAllSound(content, depth + 1, l.indefinite, 0);
      hide *;
      FoundConstructedSound(encoded, depth, p, l, limit, ParseAll(content, depth + 1, l.indefinite, 0));
    }
  }

  lemma AllSoundMeans(encoded: seq<byte>, q: nat, limit: nat, depth: nat, indefinite: bool, es: seq<Element>, n: nat)
    requires q <= limit <= |encoded| && AllSound(encoded[q..limit], depth, indefinite, 0, es, n)
    ensures q + n <= |encoded| && BytesAll(es) + (if indefinite then [0, 0] else []) == encoded[q..][..n]
    ensures |EncodeAll(Trees(es))| <= MAX_BYTES && ValidAll(es, depth)
    ensures (indefinite ==> depth <= MAX_DEPTH) && (!indefinite ==> n == limit - q)
  {
    assert encoded[q..limit][..n] == encoded[q..][..n];
  }

  /** What a sequence of elements found in `encoded` amounts to. */
  ghost predicate AllSound(encoded: seq<byte>, depth: nat, indefinite: bool, size: nat, es: seq<Element>, n: nat) {
    && n <= |encoded| && ValidAll(es, depth) && size + |EncodeAll(Trees(es))| <= MAX_BYTES
    && BytesAll(es) + (if indefinite then [0, 0] else []) == encoded[..n]
    && (indefinite ==> depth <= MAX_DEPTH) && (!indefinite ==> n == |encoded|)
  }

  lemma AllSoundCons(encoded: seq<byte>, depth: nat, indefinite: bool, size: nat, e: Element, k: nat,
        es: seq<Element>, n: nat)
    requires Sound(encoded, depth, e, k)
    requires AllSound(encoded[k..], depth, indefinite, size + |Encode(Tree(e))|, es, n)
    ensures AllSound(encoded, depth, indefinite, size, [e] + es, k + n)
  {
    AllOfCons(e, es);
    hide Bytes, Valid, ValidAll, BytesAll, Encode, EncodeAll, Trees, Tree;
    var end := if indefinite then [0, 0] else [];
    Assoc(Bytes(e), BytesAll(es), end);
    JoinInside(encoded, k, |encoded|, n);
  }

  lemma EndShape(encoded: seq<byte>, depth: nat)
    ensures Parse(encoded, depth).End? ==> depth <= MAX_DEPTH && |encoded| >= 2 && encoded[0] == 0 && encoded[1] == 0
  {
    hide ParseTag, ParseLength, ParseAll;
  }

  /** How a sequence of elements was found: nothing left, a terminator, or one element and the rest. */
  lemma ParseAllShape(encoded: seq<byte>, depth: nat, indefinite: bool, size: nat)
    requires ParseAll(encoded, depth, indefinite, size).FoundAll?
    ensures encoded == [] ==> !indefinite && ParseAll(encoded, depth, indefinite, size) == FoundAll([], 0)
    ensures encoded != [] ==> !Parse(encoded, depth).Fail?
    ensures encoded != [] && Parse(encoded, depth).End? ==>
      indefinite && depth <= MAX_DEPTH && |encoded| >= 2 && encoded[0] == 0 && encoded[1] == 0
      && ParseAll(encoded, depth, indefinite, size) == FoundAll([], 2)
    ensures encoded != [] && Parse(encoded, depth).Found? ==>
      var f := Parse(encoded, depth); var size' := size + |Encode(Tree(f.element))|;
      var r := ParseAll(encoded[f.consumed..], depth, indefinite, size');
      size' <= MAX_BYTES && r.FoundAll?
      && ParseAll(encoded, depth, indefinite, size) == FoundAll([f.element] + r.elements, f.consumed + r.consumed)
  {
    EndShape(encoded, depth);
    hide Parse, Encode, Tree;
  }

  lemma AllSoundNil(encoded: seq<byte>, depth: nat, indefinite: bool, size: nat)
    requires size <= MAX_BYTES
    requires if indefinite then depth <= MAX_DEPTH && |encoded| >= 2 && encoded[0] == 0
      && encoded[1] == 0 else encoded == []
    ensures AllSound(encoded, depth, indefinite, size, [], if indefinite then 2 else 0)
  {
  }

  lemma {:induction false} ParseAllSound(encoded: seq<byte>, depth: nat, indefinite: bool, size: nat)
    requires ParseAll(encoded, depth, indefinite, size).FoundAll? && size <= MAX_BYTES
    ensures var r := ParseAll(encoded, depth, indefinite, size);
      AllSound(encoded, depth, indefinite, size, r.elements, r.consumed)
    decreases |encoded|, 1
  {
    hide *;
    ParseAllShape(encoded, depth, indefinite, size);
    if encoded == [] || Parse(encoded, depth).End? {
      AllSoundNil(encoded, depth, indefinite, size);
    } else {
      var f := Parse(encoded, depth);
      var size' := size + |Encode(Tree(f.element))|;
      var r := ParseAll(encoded[f.consumed..], depth, indefinite, size');
      ParseSound(encoded, depth);
      ParseAllSound(encoded[f.consumed..], depth, indefinite, size');
      AllSoundCons(encoded, depth, indefinite, size, f.element, f.consumed, r.elements, r.consumed);
    }
  }

  lemma AllOfCons(e: Element, es: seq<Element>)
    ensures BytesAll([e] + es) == Bytes(e) + BytesAll(es)
    ensures Trees([e] + es) == [Tree(e)] + Trees(es)
    ensures EncodeAll(Trees([e] + es)) == Encode(Tree(e)) + EncodeAll(Trees(es))
    ensures forall depth: nat :: ValidAll([e] + es, depth) <==> Valid(e, depth) && ValidAll(es, depth)
  {
    assert ([e] + es)[1..] == es;
    assert ([Tree(e)] + Trees(es))[1..] == Trees(es);
  }

  // ---------- Every accepted encoding is found, whatever follows it ----------

  /** An accepted encoding has at least two bytes and is not a terminator. */
  lemma NotEnd(e: Element, depth: nat)
    requires Valid(e, depth)
    ensures |Bytes(e)| >= 2 && !(Bytes(e)[0] == 0 && Bytes(e)[1] == 0)
  {
    if e.Primitive? && e.tag[0] == 0 {
      assert Bytes(e)[1] == e.octets[0];
    }
  }

  lemma PrefixOf(a: seq<byte>, b: seq<byte>)
    ensures (a + b)[..|a|] == a && (a + b)[|a|..] == b
  {
  }

  /** The parser splits an encoding into its tag, its length octets and the rest. */
  lemma HeaderComplete(tag: seq<byte>, octets: seq<byte>, n: nat, rest: seq<byte>, constructed: bool)
    requires TagOk(tag, constructed) && LengthOctets(octets, n) && n <= MAX_BYTES && n <= |rest|
    ensures var encoded := tag + octets + rest; var p := |tag|; var q := p + |octets|;
      && |encoded| >= 2 && ((encoded[0] / 32) % 2 == 1) == constructed
      && ParseTag(encoded) == TagEnds(p) && p < q <= |encoded|
      && ParseLength(encoded, p) == LengthIs(false, n, q)
      && encoded[..p] == tag && encoded[p..q] == octets && encoded[q..] == rest
  {
    var encoded := tag + octets + rest;
    assert encoded == tag + (octets + rest);
    TagComplete(tag, constructed, octets + rest);
    LengthComplete(tag, octets, n, rest);
  }

  lemma IndefiniteHeaderComplete(tag: seq<byte>, rest: seq<byte>)
    requires TagOk(tag, true)
    ensures var encoded := tag + [0x80] + rest; var p := |tag|;
      && |encoded| >= 2 && (encoded[0] / 32) % 2 == 1
      && ParseTag(encoded) == TagEnds(p)
      && ParseLength(encoded, p) == LengthIs(true, 0, p + 1)
      && encoded[..p] == tag && encoded[p + 1..] == rest
  {
    var encoded := tag + [0x80] + rest;
    assert encoded == tag + ([0x80] + rest);
    TagComplete(tag, true, [0x80] + rest);
  }

  /** Tag and length are read as given. */
  ghost predicate HeaderIs(encoded: seq<byte>, p: nat, l: ParsedLength) {
    && |encoded| >= 2 && !(encoded[0] == 0 && encoded[1] == 0)
    && ParseTag(encoded) == TagEnds(p) && p < |encoded| && ParseLength(encoded, p) == l && l.LengthIs?
  }

  lemma BuildPrimitive(encoded: seq<byte>, depth: nat, p: nat, l: ParsedLength)
    requires depth <= MAX_DEPTH && HeaderIs(encoded, p, l) && (encoded[0] / 32) % 2 == 0 && !l.indefinite
    ensures var limit := l.position + l.length;
      Parse(encoded, depth) == Found(Primitive(encoded[..p], encoded[p..l.position], encoded[l.position..limit]), limit)
  {
    hide ParseAll, ParseTag, ParseLength;
  }

  lemma BuildDefinite(encoded: seq<byte>, depth: nat, p: nat, l: ParsedLength, content: seq<byte>, es: seq<Element>,
        n: nat)
    requires depth <= MAX_DEPTH && HeaderIs(encoded, p, l) && (encoded[0] / 32) % 2 == 1 && !l.indefinite
    requires content == encoded[l.position..l.position + l.length]
      && ParseAll(content, depth + 1, false, 0) == FoundAll(es, n)
    ensures Parse(encoded, depth) == Found(Definite(encoded[..p], encoded[p..l.position], es), l.position + n)
  {
    hide ParseAll, ParseTag, ParseLength;
  }

  lemma BuildIndefinite(encoded: seq<byte>, depth: nat, p: nat, l: ParsedLength, content: seq<byte>, es: seq<Element>,
        n: nat)
    requires depth <= MAX_DEPTH && HeaderIs(encoded, p, l) && (encoded[0] / 32) % 2 == 1 && l.indefinite
    requires content == encoded[l.position..|encoded|] && ParseAll(content, depth + 1, true, 0) == FoundAll(es, n)
    ensures Parse(encoded, depth) == Found(Indefinite(encoded[..p], es), l.position + n)
  {
    hide ParseAll, ParseTag, ParseLength;
  }

  lemma SliceOf(s: seq<byte>, q: nat, body: seq<byte>, rest: seq<byte>)
    requires q <= |s| && s[q..] == body + rest
    ensures q + |body| <= |s| && s[q..q + |body|] == body
  {
    assert s[q..q + |body|] == s[q..][..|body|];
  }

  lemma StartIsNotEnd(e: Element, depth: nat, rest: seq<byte>)
    requires Valid(e, depth)
    ensures var s := Bytes(e) + rest; |s| >= 2 && !(s[0] == 0 && s[1] == 0)
  {
    NotEnd(e, depth);
  }

  lemma PrimitiveComplete(e: Element, depth: nat, rest: seq<byte>)
    requires Valid(e, depth) && e.Primitive?
    ensures Parse(Bytes(e) + rest, depth) == Found(e, |Bytes(e)|)
  {
    var p, q := |e.tag|, |e.tag| + |e.octets|;
    var encoded := Bytes(e) + rest;
    hide Parse, ParseTag, ParseLength, TagOk, LengthOctets;
    StartIsNotEnd(e, depth, rest);
    HeaderComplete(e.tag, e.octets, |e.content|, e.content + rest, false);
    Assoc(e.tag + e.octets, e.content, rest);
    SliceOf(encoded, q, e.content, rest);
    BuildPrimitive(encoded, depth, p, LengthIs(false, |e.content|, q));
  }

  lemma DefiniteComplete(e: Element, depth: nat, rest: seq<byte>)
    requires Valid(e, depth) && e.Definite?
    requires ParseAll(BytesAll(e.children), depth + 1, false, 0) == FoundAll(e.children, |BytesAll(e.children)|)
    ensures Parse(Bytes(e) + rest, depth) == Found(e, |Bytes(e)|)
  {
    hide Parse, ParseAll, ParseTag, ParseLength, TagOk, LengthOctets, BytesAll;
    var p, q := |e.tag|, |e.tag| + |e.octets|;
    var encoded, body := Bytes(e) + rest, BytesAll(e.children);
    StartIsNotEnd(e, depth, rest);
    HeaderComplete(e.tag, e.octets, |body|, body + rest, true);
    Assoc(e.tag + e.octets, body, rest);
    SliceOf(encoded, q, body, rest);
    BuildDefinite(encoded, depth, p, LengthIs(false, |body|, q), body, e.children, |body|);
  }

  lemma IndefiniteComplete(e: Element, depth: nat, rest: seq<byte>)
    requires Valid(e, depth) && e.Indefinite?
    requires ParseAll(BytesAll(e.children) + [0, 0] + rest, depth + 1, true, 0)
          == FoundAll(e.children, |BytesAll(e.children)| + 2)
    ensures Parse(Bytes(e) + rest, depth) == Found(e, |Bytes(e)|)
  {
    var p, q := |e.tag|, |e.tag| + 1;
    var encoded, body := Bytes(e) + rest, BytesAll(e.children) + [0, 0];
    hide Parse, ParseAll, ParseTag, ParseLength, TagOk, BytesAll;
    StartIsNotEnd(e, depth, rest);
    IndefiniteHeaderComplete(e.tag, body + rest);
    Assoc(e.tag + [0x80], body, rest);
    WholeSlice(encoded, q);
    BuildIndefinite(encoded, depth, p, LengthIs(true, 0, q), body + rest, e.children, |body|);
  }

  lemma WholeSlice(s: seq<byte>, q: nat)
    requires q <= |s|
    ensures s[q..|s|] == s[q..]
  {
  }

  lemma {:induction false} ParseComplete(e: Element, depth: nat, rest: seq<byte>)
    requires Valid(e, depth)
    ensures Parse(Bytes(e) + rest, depth) == Found(e, |Bytes(e)|)
    decreases e, 1
  {
    hide Bytes, Parse, ParseAll, BytesAll, LengthOctets, TagOk, EncodeAll, Trees;
    match e
    case Primitive(_, _, _) => PrimitiveComplete(e, depth, rest);
    case Definite(_, _, children) =>
      ParseAllComplete(children, depth + 1, false, 0, []);
      NoEnd(BytesAll(children));
      DefiniteComplete(e, depth, rest);
    case Indefinite(_, children) =>
      ParseAllComplete(children, depth + 1, true, 0, rest);
      IndefiniteComplete(e, depth, rest);
  }

  lemma NoEnd(s: seq<byte>)
    ensures s + [] + [] == s
  {
  }

  lemma {:induction false} ParseAllComplete(es: seq<Element>, depth: nat, indefinite: bool, size: nat, rest: seq<byte>)
    requires ValidAll(es, depth) && size + |EncodeAll(Trees(es))| <= MAX_BYTES
    requires if indefinite then depth <= MAX_DEPTH else rest == []
    ensures var end := if indefinite then [0, 0] else [];
      ParseAll(BytesAll(es) + end + rest, depth, indefinite, size) == FoundAll(es, |BytesAll(es)| + |end|)
    decreases es, 0
  {
    hide Parse, ParseAll, Valid, Bytes, Encode, Tree;
    var end := if indefinite then [0, 0] else [];
    if es == [] {
      ParseAllNil(depth, indefinite, size, rest);
    } else {
      AllOfCons(es[0], es[1..]);
      HeadAndTail(es);
      var tail := BytesAll(es[1..]) + end + rest;
      ParseComplete(es[0], depth, tail);
      ParseAllComplete(es[1..], depth, indefinite, size + |Encode(Tree(es[0]))|, rest);
      NotEnd(es[0], depth);
      ParseAllCons(es, depth, indefinite, size, end, rest, tail);
    }
  }

  lemma HeadAndTail(es: seq<Element>)
    requires es != []
    ensures es == [es[0]] + es[1..]
  {
  }

  lemma ParseAllNil(depth: nat, indefinite: bool, size: nat, rest: seq<byte>)
    requires if indefinite then depth <= MAX_DEPTH else rest == []
    ensures var end := if indefinite then [0, 0] else [];
      ParseAll(BytesAll([]) + end + rest, depth, indefinite, size) == FoundAll([], |end|)
  {
    if indefinite {
      var s := BytesAll([]) + [0, 0] + rest;
      assert s[0] == 0 && s[1] == 0;
    }
  }

  lemma ParseAllStep(head: seq<byte>, tail: seq<byte>, depth: nat, indefinite: bool, size: nat, e: Element,
        es: seq<Element>, n: nat)
    requires head != [] && Parse(head + tail, depth) == Found(e, |head|) && size + |Encode(Tree(e))| <= MAX_BYTES
    requires ParseAll(tail, depth, indefinite, size + |Encode(Tree(e))|) == FoundAll(es, n)
    ensures ParseAll(head + tail, depth, indefinite, size) == FoundAll([e] + es, |head| + n)
  {
    hide Parse, Encode, Tree;
    PrefixOf(head, tail);
  }

  lemma AppendAll(a: seq<byte>, b: seq<byte>, c: seq<byte>, d: seq<byte>)
    ensures a + b + c + d == a + (b + c + d)
  {
  }

  lemma ParseAllCons(es: seq<Element>, depth: nat, indefinite: bool, size: nat, end: seq<byte>, rest: seq<byte>,
        tail: seq<byte>)
    requires es != [] && Bytes(es[0]) != [] && tail == BytesAll(es[1..]) + end + rest
    requires size + |Encode(Tree(es[0]))| <= MAX_BYTES
    requires Parse(Bytes(es[0]) + tail, depth) == Found(es[0], |Bytes(es[0])|)
    requires ParseAll(tail, depth, indefinite, size + |Encode(Tree(es[0]))|)
      == FoundAll(es[1..], |BytesAll(es[1..])| + |end|)
    ensures ParseAll(BytesAll(es) + end + rest, depth, indefinite, size) == FoundAll(es, |BytesAll(es)| + |end|)
  {
    hide *;
    HeadAndTail(es);
    BytesAllSplit(es, end, rest, tail);
    ParseAllStep(Bytes(es[0]), tail, depth, indefinite, size, es[0], es[1..], |BytesAll(es[1..])| + |end|);
  }

  lemma BytesAllSplit(es: seq<Element>, end: seq<byte>, rest: seq<byte>, tail: seq<byte>)
    requires es != [] && tail == BytesAll(es[1..]) + end + rest
    ensures BytesAll(es) + end + rest == Bytes(es[0]) + tail
    ensures |BytesAll(es)| == |Bytes(es[0])| + |BytesAll(es[1..])|
  {
    BytesAllCons(es);
    hide *;
    AppendAll(Bytes(es[0]), BytesAll(es[1..]), end, rest);
  }

  lemma BytesAllCons(es: seq<Element>)
    requires es != []
    ensures BytesAll(es) == Bytes(es[0]) + BytesAll(es[1..])
  {
  }
}
