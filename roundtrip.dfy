/** ToString's text read back by LoadFromContent: under conditions on the names,
    values and comments, re-parsing the text gives entries with the same
    contents, so serialising again reproduces the text. */
module IniRoundTrip {
  import opened IniBase
  import opened IniText
  import opened IniJson
  import opened IniOptions
  import opened IniItem
  import opened IniHelpers
  import opened IniNames
  import opened IniParse
  import opened IniParseProps
  import opened IniScanProps
  import opened IniRender

  // ---------------------------------------------------------------------
  // Which entries survive being written and read back

  /** A comment that reads back as itself after " ; ": no white space at its
      ends, no quote (a quoted substring would swallow it into the value), no
      line break, and no final backslash when continuation lines are on. */
  predicate PlainComment(opts: Options, c: string) {
    IsTrimmed(c) && '"' !in c && NoLineBreaks(c)
    && (opts.multilineSupport ==> c == [] || c[|c| - 1] != '\\')
  }

  /** An entry ToString writes in a form the parser reads back as the same
      entry: section and key valid, trimmed and normalised; a value that needs
      no escape is trimmed and holds no comment marker, and a value that does
      is written as a JSON literal with no comment after it. */
  predicate Printable(opts: Options, it: Item) {
    PrintableNames(opts, it)
    && (if HasEscapable(it.value) then IsNullOrEmpty(it.comment)
        else IsTrimmed(it.value) && ';' !in it.value && '#' !in it.value)
    && (!IsNullOrEmpty(it.comment) ==> PlainComment(opts, it.comment.value))
  }

  /** The section and the key are written as they are and read back unchanged. */
  predicate PrintableNames(opts: Options, it: Item) {
    (it.section == "" || (NameChars(it.section) && IsTrimmed(it.section)))
    && Normal(opts, it.section)
    && NameChars(it.key) && IsTrimmed(it.key) && Normal(opts, it.key)
  }

  /** The options write '=' as the delimiter, and every entry is printable. */
  predicate Ready(opts: Options, items: seq<Item>) {
    opts.nameValueDelimiter == '='
    && forall m | 0 <= m < |items| :: Printable(opts, items[m])
  }

  /** The comment as it is read back: null and "" both come back as null. */
  function CanonComment(c: Option<string>): (r: Option<string>)
    ensures CommentText(r) == CommentText(c)
  {
    if IsNullOrEmpty(c) then None else c
  }

  /** The entry as it is read back. */
  function CanonEntry(it: Item): Item {
    it.(comment := CanonComment(it.comment))
  }

  /** The entries read back from the key lines of one section, in their order. */
  function CanonKeys(items: seq<Item>, section: string, keys: seq<string>): (r: seq<Item>)
    ensures forall m | 0 <= m < |r| :: r[m].section == section && r[m].key in keys
  {
    if keys == [] then []
    else
      CanonKeys(items, section, keys[..|keys| - 1]) +
        match GetIniItem(items, section, keys[|keys| - 1])
        case Some(it) => [CanonEntry(it)]
        case None => []
  }

  /** The entries read back from the given sections, in their order. */
  function CanonSections(items: seq<Item>, sections: seq<string>): (r: seq<Item>)
    ensures forall m | 0 <= m < |r| :: r[m].section in sections
  {
    if sections == [] then []
    else
      var s := sections[|sections| - 1];
      CanonSections(items, sections[..|sections| - 1]) + CanonKeys(items, s, SortedKeys(items, s))
  }

  /** The entries LoadFromContent builds from ToString's text. */
  function Canon(items: seq<Item>): seq<Item> {
    CanonSections(items, SortedSections(items))
  }

  // ---------------------------------------------------------------------
  // String.Trim on the pieces ToString writes

  lemma TrimLeadingSpace(c: string)
    requires IsTrimmed(c)
    ensures Trim(" " + c) == c
  {
    var s := " " + c;
    assert SkipWhiteSpace(s, 0) == 1;
    assert s[1..] == c;
  }

  lemma TrimTrailingSpace(v: string)
    requires IsTrimmed(v)
    ensures Trim(v + " ") == v
  {
    var s := v + " ";
    if v == [] {
      assert SkipWhiteSpace(s, 0) == 1;
    } else {
      assert SkipWhiteSpace(s, 0) == 0;
      assert SkipWhiteSpaceBack(s, 0, |s|) == |v|;
      assert s[..|v|] == v;
    }
  }

  /** The text after '=' that a value and a comment are written as. */
  function CommentPart(c: Option<string>): string {
    if IsNullOrEmpty(c) then "" else " ; " + c.value
  }

  /** The value text of a key line splits back into the value and the comment. */
  lemma ValueTextSplits(opts: Options, it: Item)
    requires Printable(opts, it)
    ensures var (valueCheck, comment) := SplitComment(Trim(IniEscaped(it.value) + CommentPart(it.comment)));
      IniUnescaped(valueCheck) == Ok(it.value)
      && (comment.Some? ==> IsTrimmed(comment.value))
      && (if comment.Some? && comment.value != "" then comment else None) == CanonComment(it.comment)
  {
    var v := it.value;
    if HasEscapable(v) {
      EscapedValueSplits(v);
    } else if IsNullOrEmpty(it.comment) {
      PlainValueSplits(v);
    } else {
      CommentedValueSplits(v, it.comment.value);
    }
  }

  lemma EscapedValueSplits(v: string)
    requires HasEscapable(v)
    ensures var t := IniEscaped(v) + CommentPart(None);
      Trim(t) == t && SplitComment(t) == (t, None) && IniUnescaped(t) == Ok(v)
  {
    var t := IniEscaped(v) + CommentPart(None);
    assert t == JsonQuote(v);
    assert IsTrimmed(t);
    JsonQuoteMatches(v, []);
    assert JsonQuote(v) + [] == JsonQuote(v);
    UnescapeEscaped(v);
  }

  lemma PlainValueSplits(v: string)
    requires !HasEscapable(v) && IsTrimmed(v) && ';' !in v && '#' !in v
    ensures var t := IniEscaped(v) + CommentPart(None);
      Trim(t) == v && SplitComment(v) == (v, None) && IniUnescaped(v) == Ok(v)
  {
    assert IniEscaped(v) + CommentPart(None) == v;
    NoEscapableNoQuote(v);
    NoQuoteNoMatch(v, 0);
  }

  lemma NoEscapableNoQuote(v: string)
    requires !HasEscapable(v)
    ensures '"' !in v
  {
    forall m | 0 <= m < |v| ensures v[m] != '"' {
      assert !NeedsEscape(v[m]);
    }
  }

  lemma CommentedValueSplits(v: string, c: string)
    requires !HasEscapable(v) && IsTrimmed(v) && ';' !in v && '#' !in v
    requires c != [] && IsTrimmed(c) && '"' !in c
    ensures var (valueCheck, comment) := SplitComment(Trim(IniEscaped(v) + CommentPart(Some(c))));
      valueCheck == v && comment == Some(c) && IniUnescaped(v) == Ok(v)
  {
    assert IniEscaped(v) + CommentPart(Some(c)) == v + " ; " + c;
    NoEscapableNoQuote(v);
    NoQuoteNoMatch(v, 0);
    TrimLeadingSpace(c);
    if v == [] {
      EmptyValueComment(c);
    } else {
      ValueAndComment(v, c);
    }
  }

  /** "key= ; c": trimming leaves "; c", whose comment is c and whose value is "". */
  lemma EmptyValueComment(c: string)
    requires c != [] && IsTrimmed(c) && '"' !in c
    ensures SplitComment(Trim([] + " ; " + c)) == ([], Some(Trim(" " + c)))
  {
    var w := [] + " ; " + c;
    var t := "; " + c;
    assert w == " " + t;
    TrimLeadingSpace(t);
    SemicolonFirst(t, c);
  }

  lemma SemicolonFirst(t: string, c: string)
    requires t == "; " + c && '"' !in c
    ensures SplitComment(t) == ([], Some(Trim(" " + c)))
  {
    SemicolonAtStart(t, " " + c);
  }

  lemma SemicolonAtStart(t: string, rest: string)
    requires t == [';'] + rest && '"' !in rest
    ensures SplitComment(t) == ([], Some(Trim(rest)))
  {
    NoQuoteNoMatch(t, 0);
    SplitAtSemicolon(t, 0);
    assert t[..0] == [] && t[1..] == rest;
  }

  /** "key=v ; c": the line is already trimmed; the value is v and the comment c. */
  lemma ValueAndComment(v: string, c: string)
    requires v != [] && IsTrimmed(v) && ';' !in v && '"' !in v
    requires c != [] && IsTrimmed(c) && '"' !in c
    ensures SplitComment(Trim(v + " ; " + c)) == (v, Some(Trim(" " + c)))
  {
    var t := v + " ; " + c;
    assert t[0] == v[0] && t[|t| - 1] == c[|c| - 1];
    assert t == (v + " ") + [';'] + (" " + c);
    SemicolonAfter(t, v + " ", " " + c);
    TrimTrailingSpace(v);
  }

  lemma SemicolonAfter(t: string, head: string, rest: string)
    requires t == head + [';'] + rest && ';' !in head && '"' !in head && '"' !in rest
    ensures SplitComment(t) == (Trim(head), Some(Trim(rest)))
  {
    NoQuoteNoMatch(t, 0);
    assert t[..|head|] == head && t[|head| + 1..] == rest;
    SplitAtSemicolon(t, |head|);
  }

  /** With no quoted substring, the value ends at the first ';'. */
  lemma SplitAtSemicolon(t: string, i: nat)
    requires i < |t| && t[i] == ';' && ';' !in t[..i] && FindQuoted(t, 0).None?
    ensures SplitComment(t) == (Trim(t[..i]), Some(Trim(t[i + 1..])))
  {
    assert forall m | 0 <= m < i :: t[m] == t[..i][m];
    assert IndexOf(t, ';') == i;
  }

  // ---------------------------------------------------------------------
  // One line read back

  lemma NameCharsFacts(name: string)
    requires NameChars(name)
    ensures '=' !in name && ']' !in name && NoLineBreaks(name) && ValidateName(name)
  {
    forall m | 0 <= m < |name| ensures name[m] != '=' && name[m] != ']' && !IsLineBreak(name[m]) {
      NameCharFacts(name[m]);
    }
    NameCharFacts(name[|name| - 1]);
  }

  lemma NoLineBreaksAppend(a: string, b: string)
    requires NoLineBreaks(a) && NoLineBreaks(b)
    ensures NoLineBreaks(a + b)
  {
    forall m | 0 <= m < |a + b| ensures !IsLineBreak((a + b)[m]) {
      if m >= |a| { assert (a + b)[m] == b[m - |a|]; }
    }
  }

  lemma EscapeCharNoLineBreaks(c: char)
    ensures NoLineBreaks(EscapeChar(c))
  {
    if c < ' ' && c != '\U{8}' && c != '\t' && c != '\n' && c != '\U{C}' && c != '\r' {
      var h := [HexChar(c as int / 16), HexChar(c as int % 16)];
      assert EscapeChar(c) == "\\u00" + h;
      assert IsHexDigit(h[0]) && IsHexDigit(h[1]);
    }
  }

  lemma {:induction false} EscapeBodyNoLineBreaks(s: string)
    ensures NoLineBreaks(EscapeBody(s))
    decreases |s|
  {
    if s != [] {
      EscapeCharNoLineBreaks(s[0]);
      EscapeBodyNoLineBreaks(s[1..]);
      NoLineBreaksAppend(EscapeChar(s[0]), EscapeBody(s[1..]));
    }
  }

  /** The text after '=' holds no line break, and does not end in white space
      or, with continuation lines on, in a backslash. */
  lemma ValueTextEnds(opts: Options, it: Item)
    requires Printable(opts, it)
    ensures var t := IniEscaped(it.value) + CommentPart(it.comment);
      NoLineBreaks(t)
      && (t != [] ==> !IsWhiteSpace(t[|t| - 1]) && (opts.multilineSupport ==> t[|t| - 1] != '\\'))
  {
    var v := it.value;
    if HasEscapable(v) {
      EscapedValueEnds(v, IniEscaped(v) + CommentPart(it.comment));
    } else if IsNullOrEmpty(it.comment) {
      PlainValueEnds(v, IniEscaped(v) + CommentPart(it.comment));
    } else {
      PlainValueEnds(v, v);
      assert IniEscaped(v) + CommentPart(it.comment) == v + " ; " + it.comment.value;
      CommentedValueEnds(v, it.comment.value, IniEscaped(v) + CommentPart(it.comment));
    }
  }

  lemma EscapedValueEnds(v: string, t: string)
    requires HasEscapable(v) && t == IniEscaped(v) + CommentPart(None)
    ensures NoLineBreaks(t) && t != [] && t[|t| - 1] == '"'
  {
    EscapeBodyNoLineBreaks(v);
    NoLineBreaksAppend("\"", EscapeBody(v));
    NoLineBreaksAppend("\"" + EscapeBody(v), "\"");
    assert t == "\"" + EscapeBody(v) + "\"";
  }

  lemma PlainValueEnds(v: string, t: string)
    requires !HasEscapable(v) && IsTrimmed(v) && t == IniEscaped(v) + CommentPart(None)
    ensures t == v && NoLineBreaks(t) && (t != [] ==> !IsWhiteSpace(t[|t| - 1]) && t[|t| - 1] != '\\')
  {
    forall m | 0 <= m < |v| ensures !IsLineBreak(v[m]) { assert !NeedsEscape(v[m]); }
    if v != [] { assert !NeedsEscape(v[|v| - 1]); }
  }

  lemma CommentedValueEnds(v: string, c: string, t: string)
    requires NoLineBreaks(v) && c != [] && NoLineBreaks(c) && t == v + " ; " + c
    ensures NoLineBreaks(t) && t[|t| - 1] == c[|c| - 1]
  {
    var u := v + " ; ";
    NoLineBreaksAppend(v, " ; ");
    NoLineBreaksAppend(u, c);
    LastOfAppend(u, c);
  }

  lemma LastOfAppend(u: string, c: string)
    requires c != []
    ensures (u + c)[|u + c| - 1] == c[|c| - 1]
  {
  }

  /** A key line as ToString writes it: key, '=', then the value text. */
  lemma KeyLineForm(it: Item)
    ensures KeyLine(it) == it.key + ['='] + (IniEscaped(it.value) + CommentPart(it.comment))
  {
  }

  /** A key line is trimmed, holds no line break, and does not end in a backslash
      when continuation lines are on. */
  lemma KeyLineEnds(opts: Options, it: Item)
    requires Printable(opts, it)
    ensures var w := KeyLine(it);
      w != [] && IsTrimmed(w) && NoLineBreaks(w) && (opts.multilineSupport ==> w[|w| - 1] != '\\')
  {
    var t := IniEscaped(it.value) + CommentPart(it.comment);
    KeyLineForm(it);
    ValueTextEnds(opts, it);
    NameCharsFacts(it.key);
    NameCharFacts(it.key[0]);
    NoLineBreaksAppend(it.key, ['=']);
    NoLineBreaksAppend(it.key + ['='], t);
  }

  /** Outside a continuation, a trimmed line that does not continue is the working line. */
  lemma PlainLineJoin(opts: Options, sc: Scan, line: string)
    requires !sc.multiLine && line != [] && IsTrimmed(line)
    requires opts.multilineSupport ==> line[|line| - 1] != '\\'
    ensures JoinLine(opts, sc, line) == (line, false, sc.previousLine)
  {
  }

  /** ParseLine on a key line appends the entry as it is read back, when the
      pair is not stored yet. */
  lemma KeyLineParsed(opts: Options, st: Store, line: int, it: Item)
    requires opts.nameValueDelimiter == '=' && Printable(opts, it)
    requires FindItem(st.items, it.section, it.key).None?
    ensures ParseLine(opts, st, line, KeyLine(it), it.section, "") ==
      LineStep(st.(items := st.items + [CanonEntry(it)]), Ok(it.section))
  {
    var rest := IniEscaped(it.value) + CommentPart(it.comment);
    var w := KeyLine(it);
    KeyLineForm(it);
    NameCharsFacts(it.key);
    DelimitedLineShape(opts, it.key, rest, w);
    PairLineStored(opts, st, line, w, it.section, "");
    ValueTextSplits(opts, it);
    var (valueCheck, comment) := SplitComment(Trim(rest));
    StoreEntryUpserts(opts, st, line, it.section, it.key, it.value, comment);
  }

  /** Reading a key line: the entry is appended, the section stays. */
  lemma KeyLineRead(opts: Options, sc: Scan, it: Item)
    requires opts.nameValueDelimiter == '=' && Printable(opts, it)
    requires !sc.multiLine && sc.section == it.section
    requires FindItem(sc.store.items, it.section, it.key).None?
    ensures Step(opts, "", sc, KeyLine(it)) ==
      Running(Scan(sc.store.(items := sc.store.items + [CanonEntry(it)]), it.section, false,
                   sc.previousLine, sc.lineNumber + 1))
  {
    KeyLineEnds(opts, it);
    PlainLineJoin(opts, sc, KeyLine(it));
    var r := ParseLine(opts, sc.store, sc.lineNumber, KeyLine(it), sc.section, "");
    KeyLineParsed(opts, sc.store, sc.lineNumber, it);
    ParsedStep(opts, "", sc, KeyLine(it), r);
  }

  /** A section header is trimmed, holds no line break, and ends in ']'. */
  lemma HeaderEnds(sec: string)
    requires NameChars(sec) && IsTrimmed(sec)
    ensures var w := "[" + sec + "]";
      w != [] && IsTrimmed(w) && NoLineBreaks(w) && w[|w| - 1] == ']'
      && IndexOf(w, ']') == |sec| + 1 && w[1..|sec| + 1] == sec
  {
    var w := "[" + sec + "]";
    NameCharsFacts(sec);
    NoLineBreaksAppend("[", sec);
    NoLineBreaksAppend("[" + sec, "]");
    assert w[1..|sec| + 1] == sec;
    assert forall m | 0 <= m < |sec| + 1 :: w[m] != ']' by {
      forall m | 0 <= m < |sec| + 1 ensures w[m] != ']' {
        if m > 0 { assert w[m] == sec[m - 1]; }
      }
    }
    assert IndexOf(w, ']') == |sec| + 1;
  }

  /** Reading a section header: it becomes the current section, nothing else changes. */
  lemma HeaderRead(opts: Options, sc: Scan, sec: string)
    requires NameChars(sec) && IsTrimmed(sec) && Normal(opts, sec) && !sc.multiLine
    ensures Step(opts, "", sc, "[" + sec + "]") ==
      Running(Scan(sc.store, sec, false, sc.previousLine, sc.lineNumber + 1))
  {
    var w := "[" + sec + "]";
    HeaderEnds(sec);
    NameCharsFacts(sec);
    PlainLineJoin(opts, sc, w);
    var r := ParseLine(opts, sc.store, sc.lineNumber, w, sc.section, "");
    HeaderLine(opts, sc.store, sc.lineNumber, w, sc.section, "");
    assert "" + Trim(sec) == sec;
    ParsedStep(opts, "", sc, w, r);
  }

  // ---------------------------------------------------------------------
  // The lines of ToString read back one section at a time

  /** The loop is running, no continuation is pending, no warning was raised,
      and the entries and the current section are as given. */
  predicate Reached(p: Progress, items: seq<Item>, section: string) {
    p.Running? && !p.scan.multiLine && p.scan.store == Store(items, [], "") && p.scan.section == section
  }

  lemma ScanOne(opts: Options, sc: Scan, line: string)
    ensures ScanLines(opts, "", sc, [line]) == Step(opts, "", sc, line)
  {
    ScanLast(opts, "", sc, [], sc, line);
    assert [] + [line] == [line];
  }

  lemma AppendAssoc(a: seq<Item>, b: seq<Item>, c: seq<Item>)
    ensures a + b + c == a + (b + c)
  {
  }

  /** No entry yet under the pair: earlier sections differ, earlier keys differ. */
  lemma FreshPair(base: seq<Item>, done: seq<Item>, section: string, key: string)
    requires forall m | 0 <= m < |base| :: base[m].section != section
    requires forall m | 0 <= m < |done| :: done[m].key != key
    ensures FindItem(base + done, section, key).None?
  {
    var x := base + done;
    forall m | 0 <= m < |x| ensures !Matches(x[m], section, key) {
      if m < |base| { assert x[m] == base[m]; } else { assert x[m] == done[m - |base|]; }
    }
  }

  /** One more key line read. */
  lemma KeyLinesScanStep(opts: Options, sc: Scan, before: seq<string>, it: Item, base: seq<Item>,
                         done: seq<Item>, lines: seq<string>, canon: seq<Item>)
    requires opts.nameValueDelimiter == '=' && Printable(opts, it)
    requires Reached(ScanLines(opts, "", sc, before), base + done, it.section)
    requires forall m | 0 <= m < |base| :: base[m].section != it.section
    requires forall m | 0 <= m < |done| :: done[m].key != it.key
    requires lines == before + [KeyLine(it)] && canon == done + [CanonEntry(it)]
    ensures Reached(ScanLines(opts, "", sc, lines), base + canon, it.section)
  {
    var p := ScanLines(opts, "", sc, before);
    FreshPair(base, done, it.section, it.key);
    ScanLast(opts, "", sc, before, p.scan, KeyLine(it));
    KeyLineRead(opts, p.scan, it);
    AppendAssoc(base, done, [CanonEntry(it)]);
  }

  lemma NoDuplicatesInit(xs: seq<string>)
    requires NoDuplicates(xs) && xs != []
    ensures NoDuplicates(xs[..|xs| - 1]) && xs[|xs| - 1] !in xs[..|xs| - 1]
  {
    var init := xs[..|xs| - 1];
    forall m | 0 <= m < |init| ensures init[m] != xs[|xs| - 1] {
      assert init[m] == xs[m];
    }
  }

  /** The entries of the list are printable; so is any entry a lookup finds. */
  lemma FoundPrintable(opts: Options, items: seq<Item>, section: string, key: string)
    requires Ready(opts, items) && GetIniItem(items, section, key).Some?
    ensures Printable(opts, GetIniItem(items, section, key).value)
  {
    var m :| 0 <= m < |items| && items[m] == GetIniItem(items, section, key).value
      && forall n | 0 <= n < m :: !Matches(items[n], section, key);
  }

  /** The key lines of a section read back as its canonical entries. */
  lemma {:induction false} ScanKeyLines(opts: Options, items: seq<Item>, section: string, keys: seq<string>,
                                        sc: Scan, base: seq<Item>)
    requires Ready(opts, items) && NoDuplicates(keys)
    requires Reached(Running(sc), base, section)
    requires forall m | 0 <= m < |base| :: base[m].section != section
    ensures Reached(ScanLines(opts, "", sc, KeyLines(items, section, keys)),
                    base + CanonKeys(items, section, keys), section)
    decreases |keys|
  {
    if keys == [] {
      assert base + [] == base;
    } else {
      var init := keys[..|keys| - 1];
      NoDuplicatesInit(keys);
      ScanKeyLines(opts, items, section, init, sc, base);
      KeyStep(opts, items, section, keys, init, keys[|keys| - 1], sc, base);
    }
  }

  lemma KeyStep(opts: Options, items: seq<Item>, section: string, keys: seq<string>, init: seq<string>,
                k: string, sc: Scan, base: seq<Item>)
    requires Ready(opts, items) && keys != [] && init == keys[..|keys| - 1] && k == keys[|keys| - 1] && k !in init
    requires forall m | 0 <= m < |base| :: base[m].section != section
    requires Reached(ScanLines(opts, "", sc, KeyLines(items, section, init)),
                     base + CanonKeys(items, section, init), section)
    ensures Reached(ScanLines(opts, "", sc, KeyLines(items, section, keys)),
                    base + CanonKeys(items, section, keys), section)
  {
    var done := CanonKeys(items, section, init);
    if GetIniItem(items, section, k).None? {
      KeysUnfoldNone(items, section, keys, init, k);
    } else {
      var it := GetIniItem(items, section, k).value;
      KeysUnfoldSome(items, section, keys, init, k, it);
      FoundPrintable(opts, items, section, k);
      assert forall m | 0 <= m < |done| :: done[m].key != it.key;
      KeyLinesScanStep(opts, sc, KeyLines(items, section, init), it, base, done,
                       KeyLines(items, section, keys), CanonKeys(items, section, keys));
    }
  }

  lemma KeysUnfoldNone(items: seq<Item>, section: string, keys: seq<string>, init: seq<string>, k: string)
    requires keys != [] && init == keys[..|keys| - 1] && k == keys[|keys| - 1]
    requires GetIniItem(items, section, k).None?
    ensures KeyLines(items, section, keys) == KeyLines(items, section, init)
    ensures CanonKeys(items, section, keys) == CanonKeys(items, section, init)
  {
    assert KeyLines(items, section, keys) == KeyLines(items, section, init) + [];
    assert CanonKeys(items, section, keys) == CanonKeys(items, section, init) + [];
  }

  lemma KeysUnfoldSome(items: seq<Item>, section: string, keys: seq<string>, init: seq<string>, k: string, it: Item)
    requires keys != [] && init == keys[..|keys| - 1] && k == keys[|keys| - 1]
    requires GetIniItem(items, section, k) == Some(it)
    ensures KeyLines(items, section, keys) == KeyLines(items, section, init) + [KeyLine(it)]
    ensures CanonKeys(items, section, keys) == CanonKeys(items, section, init) + [CanonEntry(it)]
  {
  }

  /** What a section that holds an entry inherits from it. */
  lemma SectionPrintable(opts: Options, items: seq<Item>, section: string)
    requires Ready(opts, items) && section in GetSections(items)
    ensures section == "" || (NameChars(section) && IsTrimmed(section))
    ensures Normal(opts, section)
  {
    var m :| 0 <= m < |items| && items[m].section == section;
  }

  /** The blank separator and the header of a section read back: the section
      becomes current and nothing else changes. */
  lemma SectionHeadScan(opts: Options, sc: Scan, section: string, first: bool)
    requires !sc.multiLine && (section == "" ==> sc.section == "")
    requires section == "" || (NameChars(section) && IsTrimmed(section) && Normal(opts, section))
    ensures var p := ScanLines(opts, "", sc, (if first then [] else [""]) + (if section == "" then [] else ["[" + section + "]"]));
      p.Running? && !p.scan.multiLine && p.scan.store == sc.store && p.scan.section == section
  {
    var sep: seq<string> := if first then [] else [""];
    var header: seq<string> := if section == "" then [] else ["[" + section + "]"];
    if !first {
      ScanOne(opts, sc, "");
      BlankLineSkipped(opts, "", sc, "");
    }
    var after := if first then sc else sc.(lineNumber := sc.lineNumber + 1);
    assert ScanLines(opts, "", sc, sep) == Running(after);
    if section == "" {
      assert sep + header == sep;
    } else {
      ScanLast(opts, "", sc, sep, after, "[" + section + "]");
      HeaderRead(opts, after, section);
    }
  }

  /** The lines of one section read back as its canonical entries. */
  lemma ScanSectionLines(opts: Options, items: seq<Item>, section: string, first: bool, sc: Scan, base: seq<Item>)
    requires Ready(opts, items) && section in GetSections(items)
    requires sc.store == Store(base, [], "") && !sc.multiLine && (section == "" ==> sc.section == "")
    requires forall m | 0 <= m < |base| :: base[m].section != section
    ensures Reached(ScanLines(opts, "", sc, SectionLines(items, section, first)),
                    base + CanonKeys(items, section, SortedKeys(items, section)), section)
  {
    var head := (if first then [] else [""]) + (if section == "" then [] else ["[" + section + "]"]);
    var keys := SortedKeys(items, section);
    SectionPrintable(opts, items, section);
    SectionHeadScan(opts, sc, section, first);
    ScanLinesAppend(opts, "", sc, head, KeyLines(items, section, keys));
    SortedNoDuplicates(GetKeys(items, section));
    ScanKeyLines(opts, items, section, keys, ScanLines(opts, "", sc, head).scan, base);
  }

  /** Sorting keeps a list free of duplicates. */
  lemma SortedNoDuplicates(xs: seq<string>)
    requires NoDuplicates(xs)
    ensures NoDuplicates(SortOrdinal(xs))
  {
    var ys := SortOrdinal(xs);
    forall m, n | 0 <= m < n < |ys| ensures ys[m] != ys[n] {
      TwoCopies(ys, m, n);
      NoDuplicatesCount(xs, ys[m]);
    }
  }

  lemma TwoCopies(ys: seq<string>, m: nat, n: nat)
    requires m < n < |ys|
    ensures ys[m] == ys[n] ==> multiset(ys)[ys[m]] >= 2
  {
    assert ys == ys[..n] + ys[n..];
    assert ys[m] in ys[..n] && ys[n] in ys[n..];
  }

  /** A list of sections as ToString writes them: distinct, each holding an
      entry, the global section only first. */
  predicate ValidSections(items: seq<Item>, sections: seq<string>) {
    NoDuplicates(sections)
    && AllPresent(items, sections)
    && (forall j | 0 < j < |sections| :: sections[j] != "")
  }

  /** The global section, when present, is first: nothing sorts below "". */
  lemma SortedSectionsFacts(items: seq<Item>)
    ensures ValidSections(items, SortedSections(items))
  {
    var ss := SortedSections(items);
    SortedNoDuplicates(GetSections(items));
    forall j | 0 <= j < |ss| ensures ss[j] in GetSections(items) {
      assert ss[j] in multiset(ss);
    }
    forall j | 0 < j < |ss| ensures ss[j] != "" {
      assert OrdinalLessEq(ss[0], ss[j]);
    }
  }

  lemma ValidSectionsInit(items: seq<Item>, sections: seq<string>, init: seq<string>, s: string)
    requires ValidSections(items, sections) && sections != []
    requires init == sections[..|sections| - 1] && s == sections[|sections| - 1]
    ensures ValidSections(items, init) && sections == init + [s]
    ensures s !in init && s in GetSections(items) && (s == "" ==> init == [])
  {
    NoDuplicatesInit(sections);
    assert forall j | 0 <= j < |init| :: init[j] == sections[j];
  }

  /** The sections read back one after the other. */
  lemma {:induction false} ScanSections(opts: Options, items: seq<Item>, sections: seq<string>)
    requires Ready(opts, items) && ValidSections(items, sections)
    ensures Reached(ScanLines(opts, "", InitialScan(Store([], [], "")), SectionsLines(items, sections)),
                    CanonSections(items, sections), if sections == [] then "" else sections[|sections| - 1])
    decreases |sections|
  {
    if sections != [] {
      var init := sections[..|sections| - 1];
      var s := sections[|sections| - 1];
      ValidSectionsInit(items, sections, init, s);
      ScanSections(opts, items, init);
      SectionsScanStep(opts, items, init, s, sections);
    }
  }

  /** One more section read. */
  lemma SectionsScanStep(opts: Options, items: seq<Item>, init: seq<string>, s: string, sections: seq<string>)
    requires Ready(opts, items) && sections == init + [s] && s !in init && s in GetSections(items)
    requires s == "" ==> init == []
    requires Reached(ScanLines(opts, "", InitialScan(Store([], [], "")), SectionsLines(items, init)),
                     CanonSections(items, init), if init == [] then "" else init[|init| - 1])
    ensures Reached(ScanLines(opts, "", InitialScan(Store([], [], "")), SectionsLines(items, sections)),
                    CanonSections(items, sections), s)
  {
    var sc0 := InitialScan(Store([], [], ""));
    var before := SectionsLines(items, init);
    var lines := SectionLines(items, s, |sections| == 1);
    var base := CanonSections(items, init);
    SectionsUnfold(items, sections, init, s);
    ScanLinesAppend(opts, "", sc0, before, lines);
    ScanSectionLines(opts, items, s, |sections| == 1, ScanLines(opts, "", sc0, before).scan, base);
  }

  lemma SectionsUnfold(items: seq<Item>, sections: seq<string>, init: seq<string>, s: string)
    requires sections == init + [s]
    ensures SectionsLines(items, sections) == SectionsLines(items, init) + SectionLines(items, s, |sections| == 1)
    ensures CanonSections(items, sections) == CanonSections(items, init) + CanonKeys(items, s, SortedKeys(items, s))
  {
    assert sections[..|sections| - 1] == init;
  }

  // ---------------------------------------------------------------------
  // The text read back

  predicate CleanLine(l: string) {
    IsTrimmed(l) && NoLineBreaks(l)
  }

  predicate AllClean(lines: seq<string>) {
    forall m | 0 <= m < |lines| :: CleanLine(lines[m])
  }

  lemma {:induction false} KeyLinesClean(opts: Options, items: seq<Item>, section: string, keys: seq<string>)
    requires Ready(opts, items)
    ensures AllClean(KeyLines(items, section, keys))
    decreases |keys|
  {
    if keys != [] {
      var init := keys[..|keys| - 1];
      var k := keys[|keys| - 1];
      KeyLinesClean(opts, items, section, init);
      if GetIniItem(items, section, k).None? {
        KeysUnfoldNone(items, section, keys, init, k);
      } else {
        var it := GetIniItem(items, section, k).value;
        KeysUnfoldSome(items, section, keys, init, k, it);
        FoundPrintable(opts, items, section, k);
        KeyLineEnds(opts, it);
        CleanAppend(KeyLines(items, section, init), [KeyLine(it)]);
      }
    }
  }

  /** Every section of the list holds an entry. */
  predicate AllPresent(items: seq<Item>, sections: seq<string>) {
    forall j | 0 <= j < |sections| :: sections[j] in GetSections(items)
  }

  lemma AllPresentInit(items: seq<Item>, sections: seq<string>, init: seq<string>, s: string)
    requires AllPresent(items, sections) && sections != []
    requires init == sections[..|sections| - 1] && s == sections[|sections| - 1]
    ensures AllPresent(items, init) && s in GetSections(items) && sections == init + [s]
  {
    assert forall j | 0 <= j < |init| :: init[j] == sections[j];
  }

  lemma {:induction false} SectionsLinesClean(opts: Options, items: seq<Item>, sections: seq<string>)
    requires Ready(opts, items) && AllPresent(items, sections)
    ensures AllClean(SectionsLines(items, sections))
    decreases |sections|
  {
    if sections != [] {
      var init := sections[..|sections| - 1];
      var s := sections[|sections| - 1];
      AllPresentInit(items, sections, init, s);
      SectionsLinesClean(opts, items, init);
      SectionLinesClean(opts, items, s, |sections| == 1);
      SectionsUnfold(items, sections, init, s);
      CleanAppend(SectionsLines(items, init), SectionLines(items, s, |sections| == 1));
    }
  }

  lemma SectionLinesClean(opts: Options, items: seq<Item>, s: string, first: bool)
    requires Ready(opts, items) && s in GetSections(items)
    ensures AllClean(SectionLines(items, s, first))
  {
    var keyLines := KeyLines(items, s, SortedKeys(items, s));
    SectionPrintable(opts, items, s);
    HeadClean(s, first);
    KeyLinesClean(opts, items, s, SortedKeys(items, s));
    CleanAppend((if first then [] else [""]) + (if s == "" then [] else ["[" + s + "]"]), keyLines);
  }

  /** The blank separator and the header are clean lines. */
  lemma HeadClean(s: string, first: bool)
    requires s == "" || (NameChars(s) && IsTrimmed(s))
    ensures AllClean((if first then [] else [""]) + (if s == "" then [] else ["[" + s + "]"]))
  {
    if s != "" {
      NameCharsFacts(s);
      NoLineBreaksAppend("[", s);
      NoLineBreaksAppend("[" + s, "]");
    }
  }

  lemma CleanAppend(a: seq<string>, b: seq<string>)
    requires AllClean(a) && AllClean(b)
    ensures AllClean(a + b)
  {
    forall m | 0 <= m < |a + b| ensures CleanLine((a + b)[m]) {
      if m < |a| { assert (a + b)[m] == a[m]; } else { assert (a + b)[m] == b[m - |a|]; }
    }
  }

  lemma TrimAllTrimmed(lines: seq<string>)
    requires forall m | 0 <= m < |lines| :: IsTrimmed(lines[m])
    ensures TrimAll(lines) == lines
  {
  }

  /** LoadFromContent's line splitting gives back the lines ToString joined. */
  lemma RenderSplits(opts: Options, items: seq<Item>)
    requires Ready(opts, items)
    ensures TrimAll(LinesFrom(Render(items), 0)) == RenderLines(items)
  {
    var lines := RenderLines(items);
    SortedSectionsFacts(items);
    SectionsLinesClean(opts, items, SortedSections(items));
    SplitJoinedLines(lines);
    TrimAllTrimmed(lines);
  }

  /** Reading ToString's text back, as LoadFromContent does into an emptied
      store, raises no exception and no warning and gives the entries in
      ToString's order, each comment null or non-empty. */
  lemma RenderReadBack(opts: Options, items: seq<Item>)
    requires Ready(opts, items)
    ensures var e := ParseFromLines(opts, Store([], [], ""), TrimAll(LinesFrom(Render(items), 0)), "");
      e == ParseEnd(Store(Canon(items), [], ""), None)
  {
    RenderSplits(opts, items);
    SortedSectionsFacts(items);
    ScanSections(opts, items, SortedSections(items));
  }

  // ---------------------------------------------------------------------
  // What the entries read back hold

  /** A lookup in the entries of `items`, with the comment normalised as
      reading it back normalises it. */
  function CanonFound(items: seq<Item>, section: string, key: string): Option<Item> {
    match GetIniItem(items, section, key)
    case Some(it) => Some(CanonEntry(it))
    case None => None
  }

  lemma FindItemFirst(items: seq<Item>, section: string, key: string, i: nat)
    requires i < |items| && Matches(items[i], section, key)
    requires forall m | 0 <= m < i :: !Matches(items[m], section, key)
    ensures FindItem(items, section, key) == Some(i)
  {
  }

  /** A lookup in two lists joined: the first list wins. */
  lemma GetIniItemConcat(a: seq<Item>, b: seq<Item>, section: string, key: string)
    ensures GetIniItem(a + b, section, key) ==
      if GetIniItem(a, section, key).Some? then GetIniItem(a, section, key) else GetIniItem(b, section, key)
  {
    var x := a + b;
    if FindItem(a, section, key).Some? {
      var i := FindItem(a, section, key).value;
      assert forall m | 0 <= m <= i :: x[m] == a[m];
      FindItemFirst(x, section, key, i);
    } else if FindItem(b, section, key).Some? {
      var j := FindItem(b, section, key).value;
      forall m | 0 <= m < |a| + j ensures !Matches(x[m], section, key) {
        if m < |a| { assert x[m] == a[m]; } else { assert x[m] == b[m - |a|]; }
      }
      assert x[|a| + j] == b[j];
      FindItemFirst(x, section, key, |a| + j);
    } else {
      forall m | 0 <= m < |x| ensures !Matches(x[m], section, key) {
        if m < |a| { assert x[m] == a[m]; } else { assert x[m] == b[m - |a|]; }
      }
    }
  }

  lemma GetIniItemSingle(e: Item, section: string, key: string)
    ensures GetIniItem([e], section, key) == if Matches(e, section, key) then Some(e) else None
  {
    if Matches(e, section, key) { FindItemFirst([e], section, key, 0); }
  }

  /** The entries read back for one section: a key finds its entry exactly
      when it is among the keys written. */
  lemma {:induction false} CanonKeysLookup(items: seq<Item>, section: string, keys: seq<string>, key: string)
    ensures GetIniItem(CanonKeys(items, section, keys), section, key) ==
      if key in keys then CanonFound(items, section, key) else None
    decreases |keys|
  {
    if keys != [] {
      var init := keys[..|keys| - 1];
      var last := keys[|keys| - 1];
      assert keys == init + [last];
      CanonKeysLookup(items, section, init, key);
      if GetIniItem(items, section, last).None? {
        KeysUnfoldNone(items, section, keys, init, last);
      } else {
        var it := GetIniItem(items, section, last).value;
        KeysUnfoldSome(items, section, keys, init, last, it);
        GetIniItemConcat(CanonKeys(items, section, init), [CanonEntry(it)], section, key);
        GetIniItemSingle(CanonEntry(it), section, key);
      }
    }
  }

  /** The entries read back: a pair finds its entry exactly when its section
      and its key were both written. */
  lemma {:induction false} CanonSectionsLookup(items: seq<Item>, sections: seq<string>, section: string, key: string)
    ensures GetIniItem(CanonSections(items, sections), section, key) ==
      if section in sections && key in SortedKeys(items, section) then CanonFound(items, section, key) else None
    decreases |sections|
  {
    if sections != [] {
      var init := sections[..|sections| - 1];
      var last := sections[|sections| - 1];
      SectionsUnfold(items, sections, init, last);
      assert sections == init + [last];
      CanonSectionsLookup(items, init, section, key);
      var tail := CanonKeys(items, last, SortedKeys(items, last));
      GetIniItemConcat(CanonSections(items, init), tail, section, key);
      if section == last {
        CanonKeysLookup(items, last, SortedKeys(items, last), key);
      } else {
        assert forall m | 0 <= m < |tail| :: !Matches(tail[m], section, key);
      }
    }
  }

  /** Reading ToString's text back finds every pair's entry, its comment
      normalised, and nothing else. */
  lemma CanonLookup(items: seq<Item>, section: string, key: string)
    ensures GetIniItem(Canon(items), section, key) == CanonFound(items, section, key)
  {
    CanonSectionsLookup(items, SortedSections(items), section, key);
    if GetIniItem(items, section, key).Some? {
      var m :| 0 <= m < |items| && items[m] == GetIniItem(items, section, key).value;
      assert section in GetSections(items);
      assert section in multiset(SortedSections(items));
      assert key in GetKeys(items, section);
      assert key in multiset(SortedKeys(items, section));
    }
  }

  lemma CanonSameContents(items: seq<Item>)
    ensures SameContents(Canon(items), items)
  {
    forall section: string, key: string
      ensures SameEntry(GetIniItem(Canon(items), section, key), GetIniItem(items, section, key))
    {
      CanonLookup(items, section, key);
    }
  }

  /** ToString's text is a fixed point: LoadFromContent of it into an emptied
      store holds every entry with its value and comment, and ToString of
      that store gives the same text again. */
  lemma ToStringFixedPoint(opts: Options, items: seq<Item>)
    requires Ready(opts, items)
    ensures var e := ParseFromLines(opts, Store([], [], ""), TrimAll(LinesFrom(Render(items), 0)), "");
      e.error.None? && e.store.warnings == [] && SameContents(e.store.items, items)
      && Render(e.store.items) == Render(items)
  {
    RenderReadBack(opts, items);
    CanonSameContents(items);
    RenderCanonical(Canon(items), items);
  }

  // ---------------------------------------------------------------------
  // Why the conditions of Printable are needed

  /** A value that needs escaping is written as a JSON literal followed by its
      comment. Reading it back, the quoted substring turns off the comment
      split: the value survives, the comment is lost. */
  lemma QuotedCommentDropped(opts: Options, st: Store, line: int, it: Item)
    requires opts.nameValueDelimiter == '=' && PrintableNames(opts, it)
    requires HasEscapable(it.value) && !IsNullOrEmpty(it.comment) && IsTrimmed(it.comment.value)
    requires FindItem(st.items, it.section, it.key).None?
    ensures ParseLine(opts, st, line, KeyLine(it), it.section, "") ==
      LineStep(st.(items := st.items + [it.(comment := None)]), Ok(it.section))
  {
    var c := it.comment.value;
    var q := JsonQuote(it.value);
    var rest := IniEscaped(it.value) + CommentPart(it.comment);
    var w := KeyLine(it);
    assert rest == q + " ; " + c;
    QuotedRest(it.value, c, q, rest);
    KeyLineForm(it);
    NameCharsFacts(it.key);
    DelimitedLineShape(opts, it.key, rest, w);
    PairLineStored(opts, st, line, w, it.section, "");
    StoreEntryUpserts(opts, st, line, it.section, it.key, it.value, None);
  }

  lemma QuotedRest(v: string, c: string, q: string, rest: string)
    requires q == JsonQuote(v) && c != [] && IsTrimmed(c) && rest == q + " ; " + c
    ensures Trim(rest) == rest && SplitComment(rest) == (rest, None) && IniUnescaped(rest) == Ok(v)
  {
    var tail := " ; " + c;
    assert rest == q + tail;
    QuotedTrimmed(q, c, tail, rest);
    QuotedDecodes(v, q, tail, rest);
  }

  lemma QuotedTrimmed(q: string, c: string, tail: string, rest: string)
    requires q != [] && q[0] == '"' && c != [] && IsTrimmed(c) && tail == " ; " + c && rest == q + tail
    ensures IsTrimmed(rest)
  {
    assert rest[0] == q[0];
    assert rest[|rest| - 1] == tail[|tail| - 1] == c[|c| - 1];
  }

  lemma QuotedDecodes(v: string, q: string, tail: string, rest: string)
    requires q == JsonQuote(v) && rest == q + tail
    ensures FindQuoted(rest, 0).Some? && IniUnescaped(rest) == Ok(v)
  {
    JsonQuoteMatches(v, tail);
  }

  /** A plain value holding ';' is written as it is and read back cut at its
      first ';', the rest taken for a comment. */
  lemma SemicolonValueCut(opts: Options, st: Store, line: int, it: Item, a: string, b: string)
    requires opts.nameValueDelimiter == '=' && PrintableNames(opts, it) && it.comment.None?
    requires it.value == a + [';'] + b && ';' !in a && !HasEscapable(it.value) && IsTrimmed(it.value)
    requires FindItem(st.items, it.section, it.key).None?
    ensures Trim(a) != it.value
    ensures ParseLine(opts, st, line, KeyLine(it), it.section, "") ==
      LineStep(st.(items := st.items + [Item(it.section, it.key, Trim(a), if Trim(b) == "" then None else Some(Trim(b)))]),
               Ok(it.section))
  {
    var w := KeyLine(it);
    PlainKeyLine(it, w);
    NoEscapableNoQuote(it.value);
    PlainCut(it.value, a, b);
    LineStored(opts, st, line, it, w, it.value, Trim(a), Some(Trim(b)));
  }

  lemma PlainKeyLine(it: Item, w: string)
    requires !HasEscapable(it.value) && it.comment.None? && w == KeyLine(it)
    ensures w == it.key + ['='] + it.value
  {
    KeyLineForm(it);
    assert IniEscaped(it.value) + CommentPart(it.comment) == it.value;
  }

  /** A line "key=rest" whose rest splits into the given value and comment. */
  lemma LineStored(opts: Options, st: Store, line: int, it: Item, w: string, rest: string,
                   value: string, comment: Option<string>)
    requires opts.nameValueDelimiter == '=' && PrintableNames(opts, it)
    requires w == it.key + ['='] + rest && Trim(rest) == rest
    requires SplitComment(rest) == (value, comment) && IniUnescaped(value) == Ok(value)
    requires comment.Some? ==> IsTrimmed(comment.value)
    requires FindItem(st.items, it.section, it.key).None?
    ensures ParseLine(opts, st, line, w, it.section, "") ==
      LineStep(st.(items := st.items + [Item(it.section, it.key, value,
                                            if comment.Some? && comment.value != "" then comment else None)]),
               Ok(it.section))
  {
    NameCharsFacts(it.key);
    DelimitedLineShape(opts, it.key, rest, w);
    PairLineStored(opts, st, line, w, it.section, "");
    StoreEntryUpserts(opts, st, line, it.section, it.key, value, comment);
  }

  lemma PlainCut(v: string, a: string, b: string)
    requires v == a + [';'] + b && ';' !in a && '"' !in v && IsTrimmed(v)
    ensures Trim(v) == v && Trim(a) != v
    ensures SplitComment(v) == (Trim(a), Some(Trim(b))) && IniUnescaped(Trim(a)) == Ok(Trim(a))
  {
    assert '"' !in a && '"' !in b by { assert forall m | 0 <= m < |a| :: a[m] == v[m]; assert forall m | 0 <= m < |b| :: b[m] == v[|a| + 1 + m]; }
    SemicolonAfter(v, a, b);
    TrimShorter(a);
    assert '"' !in Trim(a);
    NoQuoteNoMatch(Trim(a), 0);
  }

  lemma TrimShorter(s: string)
    ensures |Trim(s)| <= |s| && forall m | 0 <= m < |Trim(s)| :: Trim(s)[m] in s
  {
  }
}
