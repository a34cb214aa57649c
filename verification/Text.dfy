/** Strings as the gateway handles them: every `char` stands for one byte. */
module Text {
  predicate IsDigit(c: char) { '0' <= c <= '9' }

  predicate IsUpper(c: char) { 'A' <= c <= 'Z' }

  predicate IsLower(c: char) { 'a' <= c <= 'z' }

  /** A byte that can be part of a bare placeholder; every other byte is a boundary. */
  predicate IsWordChar(c: char) { IsUpper(c) || IsLower(c) || IsDigit(c) || c == '_' }

  /** The alphabet of entity types. */
  predicate IsTypeChar(c: char) { IsUpper(c) || IsDigit(c) || c == '_' }

  predicate AllWord(s: string) { forall i | 0 <= i < |s| :: IsWordChar(s[i]) }

  predicate AllType(s: string) { forall i | 0 <= i < |s| :: IsTypeChar(s[i]) }

  predicate AllDigits(s: string) { forall i | 0 <= i < |s| :: IsDigit(s[i]) }

  function Upper(c: char): char { if IsLower(c) then c - 'a' + 'A' else c }

  function Fold(s: string): (r: string)
    ensures |r| == |s|
  {
    seq(|s|, i requires 0 <= i < |s| => Upper(s[i]))
  }

  predicate EqualFold(a: string, b: string) { Fold(a) == Fold(b) }

  /** Folding changes nothing in a string over the entity-type alphabet. */
  lemma FoldType(s: string)
    requires AllType(s)
    ensures Fold(s) == s
  {
  }

  /** The index of the first `c`, or the length when there is none. */
  function Find(s: string, c: char): (k: nat)
    ensures k <= |s|
    ensures forall i | 0 <= i < k :: s[i] != c
    ensures k < |s| ==> s[k] == c
  {
    if s == "" || s[0] == c then 0 else 1 + Find(s[1..], c)
  }

  /** The length of the word run that starts the text. */
  function RunLen(s: string): (k: nat)
    ensures k <= |s|
    ensures AllWord(s[..k])
    ensures k < |s| ==> !IsWordChar(s[k])
  {
    if s == "" || !IsWordChar(s[0]) then 0 else 1 + RunLen(s[1..])
  }

  lemma {:induction false} RunLenAtLeast(s: string, k: nat)
    requires k <= |s| && AllWord(s[..k])
    ensures k <= RunLen(s)
  {
    if k > 0 {
      assert s[..k][0] == s[0];
      assert s[1..][..k - 1] == s[..k][1..];
      RunLenAtLeast(s[1..], k - 1);
    }
  }

  lemma RunLenUnique(s: string, k: nat)
    requires k <= |s| && AllWord(s[..k]) && (k < |s| ==> !IsWordChar(s[k]))
    ensures RunLen(s) == k
  {
    RunLenAtLeast(s, k);
    var r := RunLen(s);
    assert forall i | 0 <= i < r :: s[i] == s[..r][i];
  }

  /** Where the word run that ends the text starts. */
  function TrailingRun(s: string): (k: nat)
    ensures k <= |s|
    ensures AllWord(s[k..])
    ensures k > 0 ==> !IsWordChar(s[k - 1])
  {
    if s == "" || !IsWordChar(s[|s| - 1]) then |s| else TrailingRun(s[..|s| - 1])
  }

  function Decimal(n: nat): (s: string)
    ensures s != "" && AllDigits(s)
  {
    if n < 10 then [Digit(n)] else Decimal(n / 10) + [Digit(n % 10)]
  }

  function Digit(d: nat): char
    requires d < 10
  {
    '0' + d as char
  }

  function ValueOf(digits: string): nat
    requires AllDigits(digits)
  {
    if digits == "" then 0 else ValueOf(digits[..|digits| - 1]) * 10 + (digits[|digits| - 1] - '0') as int
  }

  /** The decimal stands for its number, without a zero in front. */
  lemma {:induction false} DecimalIs(n: nat)
    ensures ValueOf(Decimal(n)) == n && (n > 0 ==> Decimal(n)[0] != '0')
  {
    var s := Decimal(n);
    if n < 10 {
      assert s[..|s| - 1] == "";
    } else {
      DecimalIs(n / 10);
      assert s[..|s| - 1] == Decimal(n / 10);
    }
  }

  lemma {:induction false} DecimalInjective(a: nat, b: nat)
    requires Decimal(a) == Decimal(b)
    ensures a == b
  {
    if a < 10 || b < 10 {
      assert |Decimal(a)| == 1 ==> a < 10;
      assert |Decimal(b)| == 1 ==> b < 10;
      assert Decimal(a)[0] == Decimal(b)[0];
    } else {
      var x, y := Decimal(a), Decimal(b);
      assert x[..|x| - 1] == Decimal(a / 10);
      assert y[..|y| - 1] == Decimal(b / 10);
      assert x[|x| - 1] == Digit(a % 10);
      DecimalInjective(a / 10, b / 10);
    }
  }

  /** Strings as they are sorted, byte by byte. */
  predicate LexLess(a: string, b: string) {
    if b == "" then false
    else if a == "" then true
    else if a[0] != b[0] then a[0] < b[0]
    else LexLess(a[1..], b[1..])
  }

  lemma {:induction false} LexOrders(a: string, b: string, c: string)
    ensures !LexLess(a, a)
    ensures a == b || LexLess(a, b) || LexLess(b, a)
    ensures LexLess(a, b) && LexLess(b, c) ==> LexLess(a, c)
    decreases |a|
  {
    if a != "" {
      LexOrders(a[1..], if b == "" then "" else b[1..], if c == "" then "" else c[1..]);
      if b != "" && a[1..] == b[1..] && a[0] == b[0] { assert a == [a[0]] + a[1..] && b == [b[0]] + b[1..]; }
    }
  }

  function Flatten(parts: seq<string>): string {
    if parts == [] then "" else parts[0] + Flatten(parts[1..])
  }

  lemma FlattenCons(part: string, rest: seq<string>)
    ensures Flatten([part] + rest) == part + Flatten(rest)
  {
    assert ([part] + rest)[1..] == rest;
  }
}
