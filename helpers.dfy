/** The extension methods of IniGetter/Helpers/IniHelpers.cs: lookup and listing
    over the item list, the value escape and unescape pair, line splitting,
    the name validator and the robust boolean parser. */
module IniHelpers {
  import opened IniBase
  import opened IniText
  import opened IniJson
  import opened IniItem

  // ---------------------------------------------------------------------
  // Lookup and listing

  predicate Matches(it: Item, section: string, key: string) {
    it.section == section && it.key == key
  }

  /** The index of the first item with exactly this section and key. */
  function FindItemFrom(items: seq<Item>, section: string, key: string, i: nat): (r: Option<nat>)
    requires i <= |items|
    ensures r.Some? ==> i <= r.value < |items| && Matches(items[r.value], section, key)
    ensures r.Some? ==> forall m | i <= m < r.value :: !Matches(items[m], section, key)
    ensures r.None? ==> forall m | i <= m < |items| :: !Matches(items[m], section, key)
    decreases |items| - i
  {
    if i == |items| then None
    else if Matches(items[i], section, key) then Some(i)
    else FindItemFrom(items, section, key, i + 1)
  }

  function FindItem(items: seq<Item>, section: string, key: string): (r: Option<nat>)
    ensures r.Some? ==> r.value < |items| && Matches(items[r.value], section, key)
    ensures r.Some? ==> forall m | 0 <= m < r.value :: !Matches(items[m], section, key)
    ensures r.None? ==> forall m | 0 <= m < |items| :: !Matches(items[m], section, key)
  {
    FindItemFrom(items, section, key, 0)
  }

  /** GetIniItem (FirstOrDefault): the first item whose section and key are both
      exactly equal to the arguments, or None (null) when there is none. */
  function GetIniItem(items: seq<Item>, section: string, key: string): (r: Option<Item>)
    ensures r.None? <==> forall m | 0 <= m < |items| :: !Matches(items[m], section, key)
    ensures r.Some? ==> Matches(r.value, section, key)
    ensures r.Some? ==> exists m | 0 <= m < |items| ::
      (items[m] == r.value && forall n | 0 <= n < m :: !Matches(items[n], section, key))
  {
    match FindItem(items, section, key)
    case None => None
    case Some(i) => Some(items[i])
  }

  /** In a store with one entry per pair, the entry found is the only one. */
  lemma FindItemUnique(items: seq<Item>, m: nat)
    requires Unique(items) && m < |items|
    ensures FindItem(items, items[m].section, items[m].key) == Some(m)
  {
  }

  predicate NoDuplicates(xs: seq<string>) {
    forall m, n | 0 <= m < n < |xs| :: xs[m] != xs[n]
  }

  /** LINQ Distinct: the elements of `xs` without repeats, in order of first occurrence. */
  function Distinct(xs: seq<string>): (r: seq<string>)
    ensures NoDuplicates(r)
    ensures forall x :: x in r <==> x in xs
    ensures |r| <= |xs|
  {
    if xs == [] then []
    else
      var d := Distinct(xs[..|xs| - 1]);
      assert xs == xs[..|xs| - 1] + [xs[|xs| - 1]];
      if xs[|xs| - 1] in d then d else d + [xs[|xs| - 1]]
  }

  function SectionsOf(items: seq<Item>): (r: seq<string>)
    ensures |r| == |items|
    ensures forall m | 0 <= m < |items| :: r[m] == items[m].section
  {
    seq(|items|, m requires 0 <= m < |items| => items[m].section)
  }

  function KeysIn(items: seq<Item>, section: string): (r: seq<string>)
    ensures forall k :: k in r <==> exists m | 0 <= m < |items| :: Matches(items[m], section, k)
    ensures (forall m | 0 <= m < |items| :: items[m].section != section) ==> r == []
  {
    if items == [] then []
    else
      var last := items[|items| - 1];
      var rest := KeysIn(items[..|items| - 1], section);
      var r := if last.section == section then rest + [last.key] else rest;
      assert forall k :: k in r <==> exists m | 0 <= m < |items| :: Matches(items[m], section, k) by {
        forall k ensures k in r <==> exists m | 0 <= m < |items| :: Matches(items[m], section, k) {
          if k in rest {
            var m :| 0 <= m < |items| - 1 && Matches(items[..|items| - 1][m], section, k);
            assert Matches(items[m], section, k);
          }
          if exists m | 0 <= m < |items| :: Matches(items[m], section, k) {
            var m :| 0 <= m < |items| && Matches(items[m], section, k);
            if m < |items| - 1 {
              assert Matches(items[..|items| - 1][m], section, k);
            }
          }
        }
      }
      r
  }

  /** GetSections: every section that holds an item, each once. */
  function GetSections(items: seq<Item>): (r: seq<string>)
    ensures NoDuplicates(r)
    ensures forall s :: s in r <==> exists m | 0 <= m < |items| :: items[m].section == s
  {
    var xs := SectionsOf(items);
    assert forall s | s in xs :: exists m | 0 <= m < |items| :: items[m].section == s;
    Distinct(xs)
  }

  /** GetKeys: every key the section holds, each once. */
  function GetKeys(items: seq<Item>, section: string): (r: seq<string>)
    ensures NoDuplicates(r)
    ensures forall k :: k in r <==> exists m | 0 <= m < |items| :: Matches(items[m], section, k)
    ensures forall k | k in r :: GetIniItem(items, section, k).Some?
    ensures (forall m | 0 <= m < |items| :: items[m].section != section) ==> r == []
  {
    Distinct(KeysIn(items, section))
  }

  // ---------------------------------------------------------------------
  // Escaping values

  predicate HasEscapable(s: string) {
    exists m | 0 <= m < |s| :: NeedsEscape(s[m])
  }

  /** IniEscaped: the JSON string literal of `s` when that literal needs a
      backslash, which is when `s` holds a quote, a backslash or a control
      character; otherwise `s` itself. */
  function IniEscaped(s: string): (r: string)
    ensures !HasEscapable(s) ==> r == s
    ensures HasEscapable(s) ==> r == JsonQuote(s)
  {
    var quoted := JsonQuote(s);
    JsonQuoteHasBackslash(s);
    if '\\' in quoted then quoted else s
  }

  /** `r` is the content of the quoted substring s[a..b], decoded, or a
      failure exactly when that content does not decode. */
  predicate DecodesQuoted(s: string, q: (nat, nat), r: Result<string>) {
    var (a, b) := q;
    a < b < |s| && (r.Ok? <==> Decode(s[a + 1..b]).Some?) && (r.Ok? ==> Decode(s[a + 1..b]) == Some(r.value))
  }

  /** IniUnescaped: the decoded content of the leftmost quoted substring, or `s`
      itself when it holds none; Newtonsoft throws when the escapes do not decode. */
  function IniUnescaped(s: string): (r: Result<string>)
    ensures FindQuoted(s, 0).None? ==> r == Ok(s)
    ensures r.Thrown? ==> r.error == JsonReader
  {
    match FindQuoted(s, 0)
    case None => Ok(s)
    case Some((a, b)) =>
      match Decode(s[a + 1..b])
      case None => Thrown(JsonReader)
      case Some(d) => Ok(d)
  }

  /** With a quoted substring, IniUnescaped is its decoded content, and throws
      exactly when that content does not decode. */
  lemma IniUnescapedDecodes(s: string)
    requires FindQuoted(s, 0).Some?
    ensures DecodesQuoted(s, FindQuoted(s, 0).value, IniUnescaped(s))
  {
  }

  /** Unescaping undoes escaping, for every string. */
  lemma UnescapeEscaped(s: string)
    ensures IniUnescaped(IniEscaped(s)) == Ok(s)
  {
    if HasEscapable(s) {
      JsonQuoteMatches(s, []);
      assert JsonQuote(s) + [] == JsonQuote(s);
    } else {
      NoQuoteNoMatch(s, 0);
    }
  }

  // ---------------------------------------------------------------------
  // Lines

  predicate IsLineBreak(c: char) { c == '\r' || c == '\n' }

  /** The index of the end of the line starting at `i`. */
  function LineEnd(s: string, i: nat): (e: nat)
    requires i <= |s|
    ensures i <= e <= |s|
    ensures forall m | i <= m < e :: !IsLineBreak(s[m])
    ensures e < |s| ==> IsLineBreak(s[e])
    decreases |s| - i
  {
    if i == |s| || IsLineBreak(s[i]) then i else LineEnd(s, i + 1)
  }

  /** StringReader.ReadLine at position `i`: None at the end of the text,
      otherwise the line up to "\r\n", "\r" or "\n" and the position after it. */
  function ReadLine(s: string, i: nat): (r: Option<(string, nat)>)
    requires i <= |s|
    ensures r.None? <==> i == |s|
    ensures r.Some? ==> i < r.value.1 <= |s|
    ensures r.Some? ==> forall m | 0 <= m < |r.value.0| :: !IsLineBreak(r.value.0[m])
  {
    if i == |s| then None
    else
      var e := LineEnd(s, i);
      var next := if e == |s| then |s| else if s[e] == '\r' && e + 1 < |s| && s[e + 1] == '\n' then e + 2 else e + 1;
      Some((s[i..e], next))
  }

  /** The lines ReadLine returns from position `i` on. */
  function LinesFrom(s: string, i: nat): seq<string>
    requires i <= |s|
    decreases |s| - i
  {
    match ReadLine(s, i)
    case None => []
    case Some((line, next)) => [line] + LinesFrom(s, next)
  }

  function TrimAll(lines: seq<string>): (r: seq<string>)
    ensures |r| == |lines|
    ensures forall m | 0 <= m < |lines| :: r[m] == Trim(lines[m])
  {
    if lines == [] then [] else [Trim(lines[0])] + TrimAll(lines[1..])
  }

  /** ToLines: the lines of `str`, each trimmed. */
  method ToLines(str: string) returns (lines: seq<string>)
    ensures lines == TrimAll(LinesFrom(str, 0))
    ensures forall m | 0 <= m < |lines| :: IsTrimmed(lines[m])
  {
    lines := [];
    var pos := 0;
    var line := ReadLine(str, pos);
    while line.Some?
      invariant pos <= |str| && line == ReadLine(str, pos)
      invariant lines + TrimAll(LinesFrom(str, pos)) == TrimAll(LinesFrom(str, 0))
      decreases |str| - pos
    {
      ToLinesStep(str, pos, lines);
      lines := lines + [Trim(line.value.0)];
      pos := line.value.1;
      line := ReadLine(str, pos);
    }
    assert LinesFrom(str, pos) == [];
  }

  /** One line read by ToLines keeps its loop invariant. */
  lemma ToLinesStep(str: string, pos: nat, done: seq<string>)
    requires pos <= |str| && ReadLine(str, pos).Some?
    requires done + TrimAll(LinesFrom(str, pos)) == TrimAll(LinesFrom(str, 0))
    ensures (done + [Trim(ReadLine(str, pos).value.0)]) + TrimAll(LinesFrom(str, ReadLine(str, pos).value.1))
      == TrimAll(LinesFrom(str, 0))
  {
    var next := ReadLine(str, pos).value;
    assert LinesFrom(str, pos) == [next.0] + LinesFrom(str, next.1);
    TrimAllCons(next.0, LinesFrom(str, next.1));
  }

  lemma TrimAllCons(line: string, rest: seq<string>)
    ensures TrimAll([line] + rest) == [Trim(line)] + TrimAll(rest)
  {
    assert ([line] + rest)[1..] == rest;
  }

  /** Text made of lines, each followed by a line feed (StringBuilder.AppendLine). */
  function JoinLines(lines: seq<string>): string {
    if lines == [] then [] else lines[0] + "\n" + JoinLines(lines[1..])
  }

  lemma {:induction false} JoinLinesAppend(a: seq<string>, b: seq<string>)
    ensures JoinLines(a + b) == JoinLines(a) + JoinLines(b)
    decreases |a|
  {
    if a != [] {
      JoinLinesAppend(a[1..], b);
      assert (a + b)[1..] == a[1..] + b;
    } else {
      assert a + b == b;
    }
  }

  predicate NoLineBreaks(s: string) {
    forall m | 0 <= m < |s| :: !IsLineBreak(s[m])
  }

  /** The text from `i` on is the join of `lines`: reading from `i` gives them back. */
  lemma {:induction false} LinesFromJoin(t: string, i: nat, lines: seq<string>)
    requires i <= |t| && t[i..] == JoinLines(lines)
    requires forall m | 0 <= m < |lines| :: NoLineBreaks(lines[m])
    ensures LinesFrom(t, i) == lines
    decreases |lines|
  {
    if lines == [] {
      assert |t[i..]| == 0;
      LinesFromEnd(t, i);
    } else {
      var j := i + |lines[0]| + 1;
      SplitAtLineFeed(t, i, lines[0], JoinLines(lines[1..]));
      LinesFromJoin(t, j, lines[1..]);
      LinesFromJoinStep(t, i, j, lines[0], lines[1..], lines);
    }
  }

  lemma LinesFromJoinStep(t: string, i: nat, j: nat, line: string, rest: seq<string>, lines: seq<string>)
    requires lines != [] && line == lines[0] && rest == lines[1..] && NoLineBreaks(line)
    requires j == i + |line| + 1 && j <= |t| && t[i..j - 1] == line && t[j - 1] == '\n'
    requires LinesFrom(t, j) == rest
    ensures LinesFrom(t, i) == lines
  {
    LinesFromAt(t, i, line);
    FirstAndRest(lines, LinesFrom(t, i), LinesFrom(t, j));
  }

  lemma LinesFromEnd(t: string, i: nat)
    requires i == |t|
    ensures LinesFrom(t, i) == []
  {
  }

  lemma FirstAndRest(lines: seq<string>, whole: seq<string>, rest: seq<string>)
    requires lines != [] && whole == [lines[0]] + rest && rest == lines[1..]
    ensures whole == lines
  {
    assert lines == [lines[0]] + lines[1..];
  }

  /** Where a line and its line feed sit in a text. */
  lemma SplitAtLineFeed(t: string, i: nat, line: string, rest: string)
    requires i <= |t| && t[i..] == line + "\n" + rest
    ensures i + |line| < |t| && t[i..i + |line|] == line && t[i + |line|] == '\n'
    ensures t[i + |line| + 1..] == rest
  {
    var u := t[i..];
    assert t[i..i + |line|] == u[..|line|];
    assert t[i + |line|] == u[|line|];
    assert t[i + |line| + 1..] == u[|line| + 1..];
  }

  /** Reading a line that a line feed ends. */
  lemma LinesFromAt(t: string, i: nat, line: string)
    requires i + |line| < |t| && t[i..i + |line|] == line && t[i + |line|] == '\n'
    requires NoLineBreaks(line)
    ensures LinesFrom(t, i) == [line] + LinesFrom(t, i + |line| + 1)
  {
    forall m | i <= m < i + |line| ensures !IsLineBreak(t[m]) {
      assert t[m] == line[m - i];
    }
    LineEndAt(t, i, i + |line|);
  }

  lemma LineEndAt(s: string, i: nat, e: nat)
    requires i <= e < |s|
    requires forall m | i <= m < e :: !IsLineBreak(s[m])
    requires IsLineBreak(s[e])
    ensures LineEnd(s, i) == e
  {
  }

  /** Splitting undoes joining: the text AppendLine builds reads back as the same lines. */
  lemma SplitJoinedLines(lines: seq<string>)
    requires forall m | 0 <= m < |lines| :: NoLineBreaks(lines[m])
    ensures LinesFrom(JoinLines(lines), 0) == lines
  {
    LinesFromJoin(JoinLines(lines), 0, lines);
  }

  // ---------------------------------------------------------------------
  // Regular expressions anchored with ^ and $

  /** `^P$` in .NET: `$` also matches before a final line feed. */
  predicate EndAnchored(s: string, p: string -> bool) {
    p(s) || (|s| > 0 && s[|s| - 1] == '\n' && p(s[..|s| - 1]))
  }

  predicate IsNameChar(c: char) {
    ('A' <= c <= 'Z') || ('a' <= c <= 'z') || ('0' <= c <= '9')
    || c == '_' || c == '-' || c == '!' || c == ' ' || c == '.' || c == '@' || c == '&' || c == '^' || c == '$'
  }

  /** `[A-Za-z0-9_\-\!\ \.\@\&\^\$]+` */
  predicate NameChars(s: string) {
    |s| > 0 && forall m | 0 <= m < |s| :: IsNameChar(s[m])
  }

  /** ValidateName: non-empty and matching ^[A-Za-z0-9_\-\!\ \.\@\&\^\$]+$. */
  function ValidateName(s: string): (r: bool)
    ensures (|s| == 0 || s[|s| - 1] != '\n') ==> (r <==> NameChars(s))
    ensures r ==> |s| > 0 && forall m | 0 <= m < |s| - 1 :: IsNameChar(s[m])
  {
    |s| > 0 && EndAnchored(s, NameChars)
  }

  /** Every valid name holds no quote, backslash, comment marker, bracket, '=' or line break. */
  lemma NameCharFacts(c: char)
    requires IsNameChar(c)
    ensures c != '"' && c != '\\' && c != ';' && c != '#' && c != '[' && c != ']' && c != '='
    ensures !IsLineBreak(c) && c >= ' '
  {
  }

  // ---------------------------------------------------------------------
  // Robust boolean

  const TrueWords: set<string> := {"true", "yes", "on", "enabled", "enable", "active"}
  const FalseWords: set<string> := {"false", "no", "off", "disabled", "disable", "inactive"}

  predicate IsNumberTail(s: string) {
    forall m | 0 <= m < |s| :: IsDigit(s[m]) || s[m] == ',' || s[m] == '.'
  }

  /** `-?[0-9][0-9,\.]*` */
  predicate NumberLike(s: string) {
    var t := if |s| > 0 && s[0] == '-' then s[1..] else s;
    |t| > 0 && IsDigit(t[0]) && IsNumberTail(t[1..])
  }

  /** TryToRobustBoolean: (parsed, value). A word of either list in any casing
      is parsed; any other text is tried as a number only when it matches
      ^-?[0-9][0-9,\.]*$, and is then true exactly when it is not zero.
      `parseFloat` is float.TryParse under the current culture. */
  function TryToRobustBoolean(s: string, parseFloat: string -> Option<real>): (r: (bool, bool))
    ensures s == "" ==> r == (false, false)
    ensures s != "" && Lower(s) in TrueWords ==> r == (true, true)
    ensures s != "" && Lower(s) in FalseWords ==> r == (true, false)
    ensures s != "" && Lower(s) !in TrueWords && Lower(s) !in FalseWords ==>
      (r.0 <==> EndAnchored(s, NumberLike) && parseFloat(s).Some?)
      && (r.0 ==> r.1 == (parseFloat(s).value != 0.0))
    ensures !r.0 ==> !r.1
  {
    if s == "" then (false, false)
    else
      var lower := Lower(s);
      if lower in TrueWords then (true, true)
      else if lower in FalseWords then (true, false)
      else if EndAnchored(s, NumberLike) then
        match parseFloat(s)
        case Some(v) => (true, v != 0.0)
        case None => (false, false)
      else (false, false)
  }
}
