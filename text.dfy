/** String primitives of the .NET library that the INI engine relies on:
    String.Trim, String.IndexOf(char), String.Replace(" ", ""), ToLower,
    ordinal string order and sorting, and integer formatting. */
module IniText {

  /** Char.IsWhiteSpace: the characters String.Trim removes at both ends. */
  predicate IsWhiteSpace(c: char) {
    ('\U{9}' <= c <= '\U{D}') || c == ' ' || c == '\U{85}' || c == '\U{A0}' || c == '\U{1680}'
    || ('\U{2000}' <= c <= '\U{200A}') || c == '\U{2028}' || c == '\U{2029}'
    || c == '\U{202F}' || c == '\U{205F}' || c == '\U{3000}'
  }

  /** No whitespace at either end. */
  predicate IsTrimmed(s: string) {
    s == [] || (!IsWhiteSpace(s[0]) && !IsWhiteSpace(s[|s| - 1]))
  }

  /** Index of the first non-whitespace character at or after `i`. */
  function SkipWhiteSpace(s: string, i: nat): (k: nat)
    requires i <= |s|
    ensures i <= k <= |s|
    ensures forall m | i <= m < k :: IsWhiteSpace(s[m])
    ensures k == |s| || !IsWhiteSpace(s[k])
    decreases |s| - i
  {
    if i == |s| || !IsWhiteSpace(s[i]) then i else SkipWhiteSpace(s, i + 1)
  }

  /** One past the last non-whitespace character at or before `j`, not below `lo`. */
  function SkipWhiteSpaceBack(s: string, lo: nat, j: nat): (k: nat)
    requires lo <= j <= |s|
    ensures lo <= k <= j
    ensures forall m | k <= m < j :: IsWhiteSpace(s[m])
    ensures k == lo || !IsWhiteSpace(s[k - 1])
    decreases j
  {
    if j == lo || !IsWhiteSpace(s[j - 1]) then j else SkipWhiteSpaceBack(s, lo, j - 1)
  }

  /** String.Trim(): drop the whitespace at both ends. */
  function Trim(s: string): (r: string)
    ensures IsTrimmed(r)
    ensures |r| <= |s|
    ensures r == [] <==> forall m | 0 <= m < |s| :: IsWhiteSpace(s[m])
    ensures IsTrimmed(s) ==> r == s
    ensures s != [] && !IsWhiteSpace(s[0]) ==> r != [] && r[0] == s[0]
  {
    var i := SkipWhiteSpace(s, 0);
    var j := SkipWhiteSpaceBack(s, i, |s|);
    assert IsTrimmed(s) && s != [] ==> i == 0 && j == |s|;
    s[i..j]
  }

  /** Trim removes white space at the two ends and nothing else. */
  lemma TrimSlice(s: string)
    ensures TrimmedFrom(s, Trim(s))
  {
    var i := SkipWhiteSpace(s, 0);
    var j := SkipWhiteSpaceBack(s, i, |s|);
    assert TrimmedAt(s, i, j) && Trim(s) == s[i..j];
  }

  /** s[i..j] has only white space before and after it in `s`. */
  predicate TrimmedAt(s: string, i: nat, j: nat) {
    i <= j <= |s|
    && (forall m | 0 <= m < i :: IsWhiteSpace(s[m]))
    && (forall m | j <= m < |s| :: IsWhiteSpace(s[m]))
  }

  /** `r` is `s` with some white space removed at its two ends. */
  ghost predicate TrimmedFrom(s: string, r: string) {
    exists i: nat, j: nat :: TrimmedAt(s, i, j) && r == s[i..j]
  }

  lemma TrimIdempotent(s: string)
    ensures Trim(Trim(s)) == Trim(s)
  {
  }

  /** String.IndexOf(char) from position `i`: the first index of `c`, or -1. */
  function IndexOfFrom(s: string, c: char, i: nat): (r: int)
    requires i <= |s|
    ensures r == -1 || (i <= r < |s| && s[r] == c)
    ensures r == -1 ==> forall m | i <= m < |s| :: s[m] != c
    ensures r != -1 ==> forall m | i <= m < r :: s[m] != c
    decreases |s| - i
  {
    if i == |s| then -1 else if s[i] == c then i else IndexOfFrom(s, c, i + 1)
  }

  /** String.IndexOf(char): the first index of `c` in `s`, or -1 when `c` does not occur. */
  function IndexOf(s: string, c: char): (r: int)
    ensures -1 <= r < |s|
    ensures r == -1 <==> c !in s
    ensures r != -1 ==> s[r] == c && c !in s[..r]
  {
    IndexOfFrom(s, c, 0)
  }

  /** Lower-casing, restricted to the ASCII letters. */
  function AsciiLower(c: char): (d: char)
    ensures 'A' <= c <= 'Z' ==> d as int == c as int + 32
    ensures !('A' <= c <= 'Z') ==> d == c
  {
    if 'A' <= c <= 'Z' then (c as int + 32) as char else c
  }

  predicate HasNoUpper(s: string) {
    forall m | 0 <= m < |s| :: !('A' <= s[m] <= 'Z')
  }

  function Lower(s: string): (r: string)
    ensures |r| == |s|
    ensures HasNoUpper(r)
    ensures forall m | 0 <= m < |s| :: (r[m] == ' ') == (s[m] == ' ')
    ensures HasNoUpper(s) ==> r == s
    ensures forall m | 0 <= m < |s| :: r[m] == AsciiLower(s[m])
  {
    seq(|s|, m requires 0 <= m < |s| => AsciiLower(s[m]))
  }

  /** String.Replace(" ", ""): the characters of `s` other than U+0020, in order. */
  function RemoveSpaces(s: string): (r: string)
    ensures ' ' !in r
    ensures |r| <= |s|
    ensures ' ' !in s ==> r == s
    ensures forall c | c != ' ' :: multiset(r)[c] == multiset(s)[c]
    ensures |s| == 1 ==> r == (if s[0] == ' ' then [] else s)
  {
    if s == [] then []
    else
      assert s == [s[0]] + s[1..];
      if s[0] == ' ' then RemoveSpaces(s[1..]) else [s[0]] + RemoveSpaces(s[1..])
  }

  /** Removing the spaces keeps the order of the other characters: it works
      piece by piece. */
  lemma {:induction false} RemoveSpacesAppend(a: string, b: string)
    ensures RemoveSpaces(a + b) == RemoveSpaces(a) + RemoveSpaces(b)
    decreases |a|
  {
    if a != [] {
      assert (a + b)[1..] == a[1..] + b;
      assert (a + b)[0] == a[0];
      RemoveSpacesAppend(a[1..], b);
    } else {
      assert a + b == b;
    }
  }

  // ---------------------------------------------------------------------
  // Ordinal string order and sorting

  /** Ordinal (code point by code point, prefix first) order on strings. */
  predicate OrdinalLessEq(a: string, b: string)
    decreases |a|
  {
    a == [] || (b != [] && (a[0] < b[0] || (a[0] == b[0] && OrdinalLessEq(a[1..], b[1..]))))
  }

  lemma {:induction false} OrdinalReflexive(a: string)
    ensures OrdinalLessEq(a, a)
    decreases |a|
  {
    if a != [] { OrdinalReflexive(a[1..]); }
  }

  lemma {:induction false} OrdinalAntisymmetric(a: string, b: string)
    requires OrdinalLessEq(a, b) && OrdinalLessEq(b, a)
    ensures a == b
    decreases |a|
  {
    if a != [] {
      OrdinalAntisymmetric(a[1..], b[1..]);
      assert a == [a[0]] + a[1..] && b == [b[0]] + b[1..];
    }
  }

  lemma {:induction false} OrdinalTransitive(a: string, b: string, c: string)
    requires OrdinalLessEq(a, b) && OrdinalLessEq(b, c)
    ensures OrdinalLessEq(a, c)
    decreases |a|
  {
    if a != [] && a[0] == b[0] && b[0] == c[0] {
      OrdinalTransitive(a[1..], b[1..], c[1..]);
    }
  }

  lemma {:induction false} OrdinalTotal(a: string, b: string)
    ensures OrdinalLessEq(a, b) || OrdinalLessEq(b, a)
    decreases |a|
  {
    if a != [] && b != [] && a[0] == b[0] { OrdinalTotal(a[1..], b[1..]); }
  }

  predicate SortedOrdinal(s: seq<string>) {
    forall m, n | 0 <= m < n < |s| :: OrdinalLessEq(s[m], s[n])
  }

  /** Insert `x` into the sorted `s`, before the first element above it. */
  function InsertOrdinal(x: string, s: seq<string>): (r: seq<string>)
    requires SortedOrdinal(s)
    ensures SortedOrdinal(r)
    ensures multiset(r) == multiset(s) + multiset{x}
  {
    if s == [] then [x]
    else if OrdinalLessEq(x, s[0]) then
      BelowHead(x, s);
      SortedCons(x, s);
      [x] + s
    else
      OrdinalTotal(x, s[0]);
      var t := InsertOrdinal(x, s[1..]);
      HeadBelowInserted(x, s, t);
      SortedCons(s[0], t);
      HeadAndTail(s);
      [s[0]] + t
  }

  lemma SortedCons(h: string, s: seq<string>)
    requires SortedOrdinal(s)
    requires forall n | 0 <= n < |s| :: OrdinalLessEq(h, s[n])
    ensures SortedOrdinal([h] + s)
  {
  }

  /** What is at most the head of a sorted sequence is at most all of it. */
  lemma BelowHead(x: string, s: seq<string>)
    requires SortedOrdinal(s) && s != [] && OrdinalLessEq(x, s[0])
    ensures forall n | 0 <= n < |s| :: OrdinalLessEq(x, s[n])
  {
    forall n | 0 <= n < |s| ensures OrdinalLessEq(x, s[n]) {
      if n > 0 { OrdinalTransitive(x, s[0], s[n]); }
    }
  }

  /** The head of a sorted sequence is at most every element of its tail with `x` added. */
  lemma HeadBelowInserted(x: string, s: seq<string>, t: seq<string>)
    requires SortedOrdinal(s) && s != [] && OrdinalLessEq(s[0], x)
    requires multiset(t) == multiset(s[1..]) + multiset{x}
    ensures forall n | 0 <= n < |t| :: OrdinalLessEq(s[0], t[n])
  {
    forall n | 0 <= n < |t| ensures OrdinalLessEq(s[0], t[n]) {
      assert t[n] in multiset(t);
      if t[n] != x {
        assert t[n] in multiset(s[1..]);
        var k :| 1 <= k < |s| && s[k] == t[n];
      }
    }
  }

  lemma HeadAndTail(s: seq<string>)
    requires s != []
    ensures s == [s[0]] + s[1..]
    ensures multiset(s) == multiset{s[0]} + multiset(s[1..])
    ensures multiset(s[1..]) == multiset(s) - multiset{s[0]}
  {
    assert s == [s[0]] + s[1..];
  }

  /** Array.Sort of a string array, with the ordinal comparer in place of the culture comparer. */
  function SortOrdinal(xs: seq<string>): (r: seq<string>)
    ensures SortedOrdinal(r)
    ensures multiset(r) == multiset(xs)
  {
    if xs == [] then []
    else
      assert xs == [xs[0]] + xs[1..];
      InsertOrdinal(xs[0], SortOrdinal(xs[1..]))
  }

  /** Two ordinally sorted sequences with the same elements (duplicates counted)
      are the same sequence: sorting does not depend on the input order. */
  lemma {:induction false} SortedUnique(s: seq<string>, t: seq<string>)
    requires SortedOrdinal(s) && SortedOrdinal(t)
    requires multiset(s) == multiset(t)
    ensures s == t
    decreases |s|
  {
    if s != [] {
      SortedHeads(s, t);
      HeadAndTail(s);
      HeadAndTail(t);
      SortedUnique(s[1..], t[1..]);
    }
  }

  /** Both sequences start with their least element. */
  lemma SortedHeads(s: seq<string>, t: seq<string>)
    requires SortedOrdinal(s) && SortedOrdinal(t)
    requires multiset(s) == multiset(t) && s != []
    ensures t != [] && s[0] == t[0]
  {
    assert s[0] in multiset(t);
    assert t[0] in multiset(s);
    var i :| 0 <= i < |t| && t[i] == s[0];
    var j :| 0 <= j < |s| && s[j] == t[0];
    assert OrdinalLessEq(t[0], t[i]) by { if i == 0 { OrdinalReflexive(t[0]); } }
    assert OrdinalLessEq(s[0], s[j]) by { if j == 0 { OrdinalReflexive(s[0]); } }
    OrdinalAntisymmetric(s[0], t[0]);
  }

  // ---------------------------------------------------------------------
  // Decimal numbers

  predicate IsDigit(c: char) { '0' <= c <= '9' }

  predicate AllDigits(s: string) {
    forall m | 0 <= m < |s| :: IsDigit(s[m])
  }

  /** The number a string of decimal digits denotes. */
  function DecimalValue(s: string): nat
    requires AllDigits(s)
  {
    if s == [] then 0 else DecimalValue(s[..|s| - 1]) * 10 + (s[|s| - 1] as int - '0' as int)
  }

  function DigitChar(d: nat): (c: char)
    requires d < 10
    ensures IsDigit(c) && c as int - '0' as int == d
  {
    ('0' as int + d) as char
  }

  /** Int32.ToString() of a non-negative number, without leading zeros. */
  function NatToDecimal(n: nat): (r: string)
    ensures r != [] && AllDigits(r)
    ensures DecimalValue(r) == n
    ensures (r[0] == '0') == (n == 0)
    ensures n == 0 ==> r == "0"
  {
    if n < 10 then [DigitChar(n)]
    else
      var r := NatToDecimal(n / 10) + [DigitChar(n % 10)];
      assert r[..|r| - 1] == NatToDecimal(n / 10);
      r
  }

  /** Int32.ToString(): an optional minus sign and the decimal digits. */
  function IntToString(i: int): (r: string)
    ensures r != []
    ensures i >= 0 ==> AllDigits(r) && DecimalValue(r) == i
    ensures i < 0 ==> r[0] == '-' && AllDigits(r[1..]) && DecimalValue(r[1..]) == -i
    ensures i >= 0 ==> (r[0] == '0' <==> i == 0)
    ensures i < 0 ==> |r| > 1 && r[1] != '0'
    ensures i == 0 ==> r == "0"
  {
    if i < 0 then "-" + NatToDecimal(-i) else NatToDecimal(i)
  }
}
