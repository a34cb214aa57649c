/** BER elements as ITU-T X.690 lays them out: what an encoding is, what it means, and its
    definite-length form with minimal lengths. */
module BER {
  import opened Common

  const MAX_BYTES := 6 * 1024
  const MAX_DEPTH := 16

  // ---------- Length octets (X.690, section 8.1.3; minimal ones, section 10.1) ----------

  function Value(digits: seq<byte>): nat {
    if digits == [] then 0 else Value(digits[..|digits| - 1]) * 256 + digits[|digits| - 1]
  }

  function BigEndian(n: nat): (digits: seq<byte>)
    ensures Value(digits) == n
    ensures n > 0 ==> digits != [] && digits[0] != 0
  {
    if n == 0 then []
    else
      var digits := BigEndian(n / 256) + [n % 256];
      assert digits[..|digits| - 1] == BigEndian(n / 256);
      digits
  }

  /** The shortest length octets. */
  function MinimalLength(n: nat): seq<byte>
    requires n < 0x1_0000_0000
  {
    if n < 128 then [n] else
      BigEndianSize(n, 4);
      [0x80 + |BigEndian(n)|] + BigEndian(n)
  }

  lemma {:induction false} BigEndianSize(n: nat, k: nat)
    requires n < Power256(k)
    ensures |BigEndian(n)| <= k
  {
    if n > 0 {
      BigEndianSize(n / 256, k - 1);
    }
  }

  function Power256(k: nat): nat { if k == 0 then 1 else 256 * Power256(k - 1) }

  /** Length octets the parser accepts for `n`: short, or up to four octets without a leading zero. */
  predicate LengthOctets(octets: seq<byte>, n: nat) {
    || (|octets| == 1 && octets[0] < 128 && n == octets[0])
    || (2 <= |octets| <= 5 && octets[0] == 0x80 + |octets| - 1 && octets[1] != 0 && n == Value(octets[1..]))
  }

  lemma MinimalLengthOctets(n: nat)
    requires n < 0x1_0000_0000
    ensures LengthOctets(MinimalLength(n), n)
  {
    if n >= 128 { BigEndianSize(n, 4); }
  }

  lemma {:induction false} ValueBound(digits: seq<byte>)
    ensures Value(digits) < Power256(|digits|)
  {
    if digits != [] { ValueBound(digits[..|digits| - 1]); }
  }

  lemma {:induction false} ValueSize(digits: seq<byte>, n: nat)
    requires Value(digits) == n
    ensures |BigEndian(n)| <= |digits|
  {
    ValueBound(digits);
    BigEndianSize(n, |digits|);
  }

  /** No accepted length octets are shorter than the minimal ones. */
  lemma MinimalLengthIsShortest(octets: seq<byte>, n: nat)
    requires n < 0x1_0000_0000 && LengthOctets(octets, n)
    ensures |MinimalLength(n)| <= |octets|
  {
    if n >= 128 { ValueSize(octets[1..], n); }
  }

  // ---------- Encodings and what they mean ----------

  /** The tree of tags and contents that an encoding stands for. */
  datatype TLV = Leaf(tag: seq<byte>, content: seq<byte>) | Node(tag: seq<byte>, children: seq<TLV>)

  /** A concrete encoding: the tree with the length form chosen at every level. */
  datatype Element =
    | Primitive(tag: seq<byte>, octets: seq<byte>, content: seq<byte>)
    | Definite(tag: seq<byte>, octets: seq<byte>, children: seq<Element>)
    | Indefinite(tag: seq<byte>, children: seq<Element>)

  function Bytes(e: Element): seq<byte>
    decreases e, 1
  {
    match e
    case Primitive(tag, octets, content) => tag + octets + content
    case Definite(tag, octets, children) => tag + octets + BytesAll(children)
    case Indefinite(tag, children) => tag + [0x80] + (BytesAll(children) + [0, 0])
  }

  function BytesAll(es: seq<Element>): seq<byte>
    decreases es, 0
  {
    if es == [] then [] else Bytes(es[0]) + BytesAll(es[1..])
  }

  function Tree(e: Element): TLV
    decreases e, 1
  {
    match e
    case Primitive(tag, _, content) => Leaf(tag, content)
    case Definite(tag, _, children) => Node(tag, Trees(children))
    case Indefinite(tag, children) => Node(tag, Trees(children))
  }

  function Trees(es: seq<Element>): (ts: seq<TLV>)
    ensures |ts| == |es|
    decreases es, 0
  {
    if es == [] then [] else [Tree(es[0])] + Trees(es[1..])
  }

  /** The minimal length octets; contents of 4 GiB and more have none. */
  function LengthOf(n: nat): seq<byte> { if n < 0x1_0000_0000 then MinimalLength(n) else [] }

  /** Tag, minimal length, content. */
  function EncodeElement(tag: seq<byte>, content: seq<byte>): seq<byte> { tag + LengthOf(|content|) + content }

  /** The definite-length encoding with minimal lengths at every level. */
  function Encode(t: TLV): seq<byte>
    decreases t, 1
  {
    match t
    case Leaf(tag, content) => EncodeElement(tag, content)
    case Node(tag, children) => EncodeElement(tag, EncodeAll(children))
  }

  function EncodeAll(ts: seq<TLV>): seq<byte>
    decreases ts, 0
  {
    if ts == [] then [] else Encode(ts[0]) + EncodeAll(ts[1..])
  }

  // ---------- Which encodings are accepted ----------

  /** A low tag is one byte; a high tag has up to four more, the last below 0x80. */
  predicate TagOk(tag: seq<byte>, constructed: bool) {
    && tag != [] && (((tag[0] / 32) % 2 == 1) == constructed)
    && if tag[0] % 32 != 31 then |tag| == 1
       else 2 <= |tag| <= 5 && tag[|tag| - 1] < 128 && forall i | 1 <= i < |tag| - 1 :: tag[i] >= 128
  }

  /** An encoding within the depth and size limits. An indefinite value needs one more level for its terminator. */
  ghost predicate Valid(e: Element, depth: nat)
    decreases e, 1
  {
    && depth <= MAX_DEPTH
    && match e
       case Primitive(tag, octets, content) =>
         TagOk(tag, false) && |content| <= MAX_BYTES && LengthOctets(octets, |content|)
           && !(tag == [0] && content == [])
       case Definite(tag, octets, children) =>
         && TagOk(tag, true) && |BytesAll(children)| <= MAX_BYTES && LengthOctets(octets, |BytesAll(children)|)
         && |EncodeAll(Trees(children))| <= MAX_BYTES && ValidAll(children, depth + 1)
       case Indefinite(tag, children) =>
         && TagOk(tag, true) && depth < MAX_DEPTH
         && |EncodeAll(Trees(children))| <= MAX_BYTES && ValidAll(children, depth + 1)
  }

  ghost predicate ValidAll(es: seq<Element>, depth: nat)
    decreases es, 0
  {
    es == [] || (Valid(es[0], depth) && ValidAll(es[1..], depth))
  }

  // ---------- The parser as a function ----------

  datatype Failure =
    | Truncated | HighTag | LengthMissing | LongForm | ContentLength | PrimitiveIndefinite
    | UnexpectedTerminator | TooLarge | NoTerminator | Trailing

  datatype Parsed = Fail(failure: Failure) | End | Found(element: Element, consumed: nat)

  datatype ParsedAll = FailAll(failure: Failure) | FoundAll(elements: seq<Element>, consumed: nat)

  datatype ParsedTag = BadTag | TagEnds(position: nat)

  datatype ParsedLength = BadLength(failure: Failure) | LengthIs(indefinite: bool, length: nat, position: nat)

  function ParseTag(encoded: seq<byte>): (r: ParsedTag)
    requires encoded != []
    ensures r.TagEnds? ==> 1 <= r.position <= |encoded|
  {
    if encoded[0] % 32 == 31 then ParseHighTag(encoded, 1, 0) else TagEnds(1)
  }

  function ParseHighTag(encoded: seq<byte>, position: nat, count: nat): (r: ParsedTag)
    requires position <= |encoded|
    ensures r.TagEnds? ==> position < r.position <= |encoded|
    decreases |encoded| - position
  {
    if position >= |encoded| || count >= 4 then BadTag
    else if encoded[position] < 128 then TagEnds(position + 1)
    else ParseHighTag(encoded, position + 1, count + 1)
  }

  function ParseLength(encoded: seq<byte>, position: nat): (r: ParsedLength)
    requires position < |encoded|
    ensures r.LengthIs? ==> position < r.position && r.position + r.length <= |encoded|
  {
    var first := encoded[position];
    if first == 0x80 then LengthIs(true, 0, position + 1)
    else
      var count := if first < 128 then 0 else first - 128;
      if count > 0 && (count > 4 || position + 1 + count > |encoded| || encoded[position + 1] == 0)
        then BadLength(LongForm)
      else
        var length := if count == 0 then first else Value(encoded[position + 1..position + 1 + count]);
        if length > MAX_BYTES || position + 1 + count + length > |encoded| then BadLength(ContentLength)
        else LengthIs(false, length, position + 1 + count)
  }

  function Parse(encoded: seq<byte>, depth: nat): (r: Parsed)
    ensures r.Found? ==> 2 <= r.consumed <= |encoded|
    decreases |encoded|, 0
  {
    if depth > MAX_DEPTH || |encoded| < 2 then Fail(Truncated)
    else if encoded[0] == 0 && encoded[1] == 0 then End
    else
      match ParseTag(encoded)
      case BadTag => Fail(HighTag)
      case TagEnds(p) =>
        if p >= |encoded| then Fail(LengthMissing)
        else
          match ParseLength(encoded, p)
          case BadLength(failure) => Fail(failure)
          case LengthIs(indefinite, length, q) =>
            var tag := encoded[..p];
            if (encoded[0] / 32) % 2 == 0 then
              if indefinite then Fail(PrimitiveIndefinite)
              else Found(Primitive(tag, encoded[p..q], encoded[q..q + length]), q + length)
            else
              var limit := if indefinite then |encoded| else q + length;
              match ParseAll(encoded[q..limit], depth + 1, indefinite, 0)
              case FailAll(failure) => Fail(failure)
              case FoundAll(children, n) =>
                Found(if indefinite then Indefinite(tag, children) else Definite(tag, encoded[p..q], children), q + n)
  }

  function ParseAll(encoded: seq<byte>, depth: nat, indefinite: bool, size: nat): (r: ParsedAll)
    ensures r.FoundAll? ==> r.consumed <= |encoded|
    decreases |encoded|, 1
  {
    if encoded == [] then (if indefinite then FailAll(NoTerminator) else FoundAll([], 0))
    else
      match Parse(encoded, depth)
      case Fail(failure) => FailAll(failure)
      case End => if indefinite then FoundAll([], 2) else FailAll(UnexpectedTerminator)
      case Found(e, k) =>
        var size' := size + |Encode(Tree(e))|;
        if size' > MAX_BYTES then FailAll(TooLarge)
        else
          match ParseAll(encoded[k..], depth, indefinite, size')
          case FailAll(failure) => FailAll(failure)
          case FoundAll(es, n) => FoundAll([e] + es, k + n)
  }
}
