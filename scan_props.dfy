/** What the line state machine of ParseFromLines guarantees: line numbering,
    blank lines, continuation lines with and without MultilineSupport, the
    flush at the end of input, and the invariants every line keeps. */
module IniScanProps {
  import opened IniBase
  import opened IniText
  import opened IniOptions
  import opened IniItem
  import opened IniNames
  import opened IniParse
  import opened IniParseProps

  /** The loop resumed on more lines. */
  function Resume(opts: Options, prefix: string, p: Progress, lines: seq<string>): Progress {
    match p
    case Stopped(st, e) => Stopped(st, e)
    case Running(sc) => ScanLines(opts, prefix, sc, lines)
  }

  lemma {:induction false} ScanLinesAppend(opts: Options, prefix: string, sc: Scan, a: seq<string>, b: seq<string>)
    ensures ScanLines(opts, prefix, sc, a + b) == Resume(opts, prefix, ScanLines(opts, prefix, sc, a), b)
    decreases |b|
  {
    if b == [] {
      assert a + b == a;
    } else {
      var c := b[..|b| - 1];
      var x := b[|b| - 1];
      ScanLinesAppend(opts, prefix, sc, a, c);
      assert (a + b)[..|a + b| - 1] == a + c;
      assert (a + b)[|a + b| - 1] == x;
      ScanLinesLast(opts, prefix, sc, a + b, a + c, x);
      match ScanLines(opts, prefix, sc, a)
      case Stopped(st, e) =>
      case Running(s) => ScanLinesLast(opts, prefix, s, b, c, x);
    }
  }

  /** ScanLines unfolded once, on plain variables. */
  lemma ScanLinesLast(opts: Options, prefix: string, sc: Scan, lines: seq<string>, init: seq<string>, x: string)
    requires lines != [] && init == lines[..|lines| - 1] && x == lines[|lines| - 1]
    ensures ScanLines(opts, prefix, sc, lines) ==
      match ScanLines(opts, prefix, sc, init)
      case Stopped(st, e) => Stopped(st, e)
      case Running(s) => Step(opts, prefix, s, x)
  {
  }

  /** The loop after a line was parsed: stopped if ParseLine threw, otherwise
      running on the new section with no continuation pending. */
  function Parsed(r: LineStep, previous: string, lineNumber: int): Progress {
    match r.section
    case Thrown(e) => Stopped(r.store, e)
    case Ok(section) => Running(Scan(r.store, section, false, previous, lineNumber))
  }

  /** Every line read advances the line number by one, continuation or not. */
  lemma {:induction false} LineNumbers(opts: Options, prefix: string, sc: Scan, lines: seq<string>)
    ensures ScanLines(opts, prefix, sc, lines).Running? ==>
      ScanLines(opts, prefix, sc, lines).scan.lineNumber == sc.lineNumber + |lines|
  {
    if lines != [] {
      LineNumbers(opts, prefix, sc, lines[..|lines| - 1]);
    }
  }

  /** A blank line outside a continuation changes nothing but the line number. */
  lemma BlankLineSkipped(opts: Options, prefix: string, sc: Scan, line: string)
    requires !sc.multiLine && Trim(line) == []
    ensures Step(opts, prefix, sc, line) == Running(sc.(lineNumber := sc.lineNumber + 1))
  {
  }

  /** Without MultilineSupport no continuation is ever pending, so a backslash is
      an ordinary character and nothing is flushed at the end. */
  lemma {:induction false} NoMultilineNoContinuation(opts: Options, prefix: string, sc: Scan, lines: seq<string>)
    requires !opts.multilineSupport && !sc.multiLine
    ensures ScanLines(opts, prefix, sc, lines).Running? ==> !ScanLines(opts, prefix, sc, lines).scan.multiLine
  {
    if lines != [] {
      NoMultilineNoContinuation(opts, prefix, sc, lines[..|lines| - 1]);
    }
  }

  /** Without MultilineSupport every non-blank line is parsed as it is, trimmed. */
  lemma NoMultilineParsesEachLine(opts: Options, prefix: string, sc: Scan, line: string)
    requires !opts.multilineSupport && !sc.multiLine && Trim(line) != []
    ensures Step(opts, prefix, sc, line) ==
      Parsed(ParseLine(opts, sc.store, sc.lineNumber, Trim(line), sc.section, prefix),
        sc.previousLine, sc.lineNumber + 1)
  {
  }

  /** A trimmed line that ends in a backslash. */
  predicate Continues(line: string) {
    var t := Trim(line);
    t != [] && t[|t| - 1] == '\\'
  }

  function DropLast(t: string): string {
    if t == [] then [] else t[..|t| - 1]
  }

  /** The joined text of continuation lines: each trimmed, without its backslash. */
  function Stripped(lines: seq<string>): string {
    if lines == [] then [] else Stripped(lines[..|lines| - 1]) + DropLast(Trim(lines[|lines| - 1]))
  }

  /** A continuation line only extends the pending text. */
  lemma ContinuationStep(opts: Options, prefix: string, s: Scan, line: string)
    requires opts.multilineSupport && Continues(line)
    ensures Step(opts, prefix, s, line) ==
      Running(Scan(s.store, s.section, true,
        (if s.multiLine then s.previousLine else []) + DropLast(Trim(line)), s.lineNumber + 1))
  {
    ContinuationJoin(opts, s, line);
    PendingStep(opts, prefix, s, line);
  }

  lemma ContinuationJoin(opts: Options, s: Scan, line: string)
    requires opts.multilineSupport && Continues(line)
    ensures JoinLine(opts, s, line).1
    ensures JoinLine(opts, s, line).2 == (if s.multiLine then s.previousLine else []) + DropLast(Trim(line))
  {
    var t := Trim(line);
    if s.multiLine {
      var work := s.previousLine + t;
      assert work[..|work| - 1] == s.previousLine + t[..|t| - 1];
    } else {
      assert [] + t[..|t| - 1] == t[..|t| - 1];
    }
  }

  /** A line that leaves a continuation pending, or a blank working line, is not parsed. */
  lemma PendingStep(opts: Options, prefix: string, s: Scan, line: string)
    requires JoinLine(opts, s, line).1 || JoinLine(opts, s, line).0 == []
    ensures Step(opts, prefix, s, line) ==
      Running(Scan(s.store, s.section, JoinLine(opts, s, line).1, JoinLine(opts, s, line).2, s.lineNumber + 1))
  {
  }

  /** Any other working line is parsed with the current line number. */
  lemma ParsedStep(opts: Options, prefix: string, s: Scan, line: string, r: LineStep)
    requires !JoinLine(opts, s, line).1 && JoinLine(opts, s, line).0 != []
    requires r == ParseLine(opts, s.store, s.lineNumber, JoinLine(opts, s, line).0, s.section, prefix)
    ensures Step(opts, prefix, s, line) == Parsed(r, JoinLine(opts, s, line).2, s.lineNumber + 1)
  {
  }

  /** The loop after one more line. */
  lemma ScanNext(opts: Options, prefix: string, sc: Scan, lines: seq<string>, i: nat, s: Scan)
    requires i < |lines| && ScanLines(opts, prefix, sc, lines[..i]) == Running(s)
    ensures ScanLines(opts, prefix, sc, lines[..i + 1]) == Step(opts, prefix, s, lines[i])
  {
    PrefixSnoc(lines, i);
    ScanLast(opts, prefix, sc, lines[..i], s, lines[i]);
  }

  lemma PrefixSnoc(lines: seq<string>, i: nat)
    requires i < |lines|
    ensures lines[..i + 1] == lines[..i] + [lines[i]]
  {
  }

  /** Once stopped, the loop stays stopped. */
  lemma StoppedEarly(opts: Options, prefix: string, sc: Scan, lines: seq<string>, i: nat, st: Store, e: Exception)
    requires i < |lines| && ScanLines(opts, prefix, sc, lines[..i + 1]) == Stopped(st, e)
    ensures ScanLines(opts, prefix, sc, lines) == Stopped(st, e)
  {
    PrefixAndSuffix(lines, i + 1);
    ScanLinesAppend(opts, prefix, sc, lines[..i + 1], lines[i + 1..]);
  }

  lemma PrefixAndSuffix(lines: seq<string>, k: nat)
    requires k <= |lines|
    ensures lines == lines[..k] + lines[k..]
  {
  }

  lemma ScanAll(opts: Options, prefix: string, sc: Scan, lines: seq<string>)
    ensures ScanLines(opts, prefix, sc, lines[..|lines|]) == ScanLines(opts, prefix, sc, lines)
  {
    assert lines[..|lines|] == lines;
  }

  /** A run of continuation lines only accumulates text: nothing is parsed. */
  lemma {:induction false} ContinuationRun(opts: Options, prefix: string, sc: Scan, lines: seq<string>)
    requires opts.multilineSupport && !sc.multiLine && |lines| > 0
    requires forall m | 0 <= m < |lines| :: Continues(lines[m])
    ensures ScanLines(opts, prefix, sc, lines) ==
      Running(sc.(multiLine := true, previousLine := Stripped(lines), lineNumber := sc.lineNumber + |lines|))
  {
    if |lines| > 1 {
      ContinuationRun(opts, prefix, sc, lines[..|lines| - 1]);
      ContinuationRunStep(opts, prefix, sc, lines);
    } else {
      assert lines[..0] == [];
      ContinuationNext(opts, prefix, sc, lines, sc);
    }
  }

  lemma ContinuationRunStep(opts: Options, prefix: string, sc: Scan, lines: seq<string>)
    requires opts.multilineSupport && |lines| > 1 && Continues(lines[|lines| - 1])
    requires ScanLines(opts, prefix, sc, lines[..|lines| - 1]) ==
      Running(sc.(multiLine := true, previousLine := Stripped(lines[..|lines| - 1]), lineNumber := sc.lineNumber + (|lines| - 1)))
    ensures ScanLines(opts, prefix, sc, lines) ==
      Running(sc.(multiLine := true, previousLine := Stripped(lines), lineNumber := sc.lineNumber + |lines|))
  {
    var s := sc.(multiLine := true, previousLine := Stripped(lines[..|lines| - 1]), lineNumber := sc.lineNumber + (|lines| - 1));
    ContinuationNext(opts, prefix, sc, lines, s);
  }

  /** The loop after a continuation line. */
  lemma ContinuationNext(opts: Options, prefix: string, sc: Scan, lines: seq<string>, s: Scan)
    requires opts.multilineSupport && lines != [] && Continues(lines[|lines| - 1])
    requires ScanLines(opts, prefix, sc, lines[..|lines| - 1]) == Running(s)
    ensures ScanLines(opts, prefix, sc, lines) ==
      Running(Scan(s.store, s.section, true,
        (if s.multiLine then s.previousLine else []) + DropLast(Trim(lines[|lines| - 1])), s.lineNumber + 1))
  {
    ContinuationStep(opts, prefix, s, lines[|lines| - 1]);
  }

  /** With MultilineSupport, continuation lines are joined with the next line and
      the joined line is parsed once, with the number of its last physical line. */
  lemma ContinuationJoined(opts: Options, prefix: string, sc: Scan, lines: seq<string>, last: string)
    requires opts.multilineSupport && !sc.multiLine && |lines| > 0
    requires forall m | 0 <= m < |lines| :: Continues(lines[m])
    requires Trim(last) != [] && !Continues(last)
    ensures ScanLines(opts, prefix, sc, lines + [last]) ==
      Step(opts, prefix, sc.(multiLine := true, previousLine := Stripped(lines), lineNumber := sc.lineNumber + |lines|), last)
  {
    var n := |lines|;
    var s := sc.(multiLine := true, previousLine := Stripped(lines), lineNumber := sc.lineNumber + n);
    assert ScanLines(opts, prefix, sc, lines) == Running(s) by {
      ContinuationRun(opts, prefix, sc, lines);
    }
    assert ScanLines(opts, prefix, sc, lines + [last]) == Step(opts, prefix, s, last) by {
      ScanLast(opts, prefix, sc, lines, s, last);
    }
  }

  /** One more line after a running loop is one more Step. */
  lemma ScanLast(opts: Options, prefix: string, sc: Scan, lines: seq<string>, s: Scan, line: string)
    requires ScanLines(opts, prefix, sc, lines) == Running(s)
    ensures ScanLines(opts, prefix, sc, lines + [line]) == Step(opts, prefix, s, line)
  {
    assert (lines + [line])[..|lines|] == lines;
  }

  /** The line that ends a continuation is parsed joined with the pending text. */
  lemma JoinedStep(opts: Options, prefix: string, s: Scan, last: string)
    requires opts.multilineSupport && s.multiLine
    requires Trim(last) != [] && !Continues(last)
    ensures Step(opts, prefix, s, last) ==
      Parsed(ParseLine(opts, s.store, s.lineNumber, s.previousLine + Trim(last), s.section, prefix),
        s.previousLine, s.lineNumber + 1)
  {
    var t := Trim(last);
    var work := s.previousLine + t;
    assert work[|work| - 1] == t[|t| - 1];
    assert JoinLine(opts, s, last) == (work, false, s.previousLine);
  }

  /** A continuation pending at the end of input is parsed with number
      lines.Length + 1; when it is empty (a last line holding only a backslash)
      ParseLine indexes an empty string and throws. */
  lemma PendingContinuationAtEnd(opts: Options, st: Store, lines: seq<string>, prefix: string)
    requires ScanLines(opts, prefix, InitialScan(st), lines).Running?
    requires ScanLines(opts, prefix, InitialScan(st), lines).scan.multiLine
    ensures var sc := ScanLines(opts, prefix, InitialScan(st), lines).scan;
      var r := ParseLine(opts, sc.store, |lines| + 1, sc.previousLine, sc.section, prefix);
      ParseFromLines(opts, st, lines, prefix) ==
        ParseEnd(r.store, if r.section.Thrown? then Some(r.section.error) else None)
      && (sc.previousLine == [] ==> ParseFromLines(opts, st, lines, prefix).error == Some(IndexOutOfRange))
  {
    LineNumbers(opts, prefix, InitialScan(st), lines);
  }

  /** The invariant the loop keeps: one entry per pair and a normal current section. */
  ghost predicate ScanInvariant(opts: Options, p: Progress) {
    match p
    case Running(sc) => Unique(sc.store.items) && Normal(opts, sc.section)
    case Stopped(st, _) => Unique(st.items)
  }

  lemma {:induction false} ScanKeepsUnique(opts: Options, prefix: string, sc: Scan, lines: seq<string>)
    requires Unique(sc.store.items) && Normal(opts, sc.section)
    ensures ScanInvariant(opts, ScanLines(opts, prefix, sc, lines))
  {
    if lines != [] {
      ScanKeepsUnique(opts, prefix, sc, lines[..|lines| - 1]);
      match ScanLines(opts, prefix, sc, lines[..|lines| - 1])
      case Stopped(_, _) =>
      case Running(s) =>
        var (work, multi, previous) := JoinLine(opts, s, lines[|lines| - 1]);
        if !multi && work != [] {
          ParseLineKeepsUnique(opts, s.store, s.lineNumber, work, s.section, prefix);
        }
    }
  }

  /** Parsing a store with one entry per pair leaves one entry per pair. */
  lemma ParseKeepsUnique(opts: Options, st: Store, lines: seq<string>, prefix: string)
    requires Unique(st.items)
    ensures Unique(ParseFromLines(opts, st, lines, prefix).store.items)
  {
    ScanKeepsUnique(opts, prefix, InitialScan(st), lines);
    match ScanLines(opts, prefix, InitialScan(st), lines)
    case Stopped(_, _) =>
    case Running(sc) =>
      if sc.multiLine {
        ParseLineKeepsUnique(opts, sc.store, sc.lineNumber, sc.previousLine, sc.section, prefix);
      }
  }

  /** Parsing only appends warnings to the ones the store had. */
  predicate WarningsExtend(st: Store, p: Progress) {
    var r := match p case Running(sc) => sc.store case Stopped(s, _) => s;
    |st.warnings| <= |r.warnings| && r.warnings[..|st.warnings|] == st.warnings
  }

  lemma {:induction false} ScanExtendsWarnings(opts: Options, prefix: string, sc: Scan, lines: seq<string>)
    ensures WarningsExtend(sc.store, ScanLines(opts, prefix, sc, lines))
  {
    if lines != [] {
      ScanExtendsWarnings(opts, prefix, sc, lines[..|lines| - 1]);
      match ScanLines(opts, prefix, sc, lines[..|lines| - 1])
      case Stopped(_, _) =>
      case Running(s) =>
        var (work, multi, previous) := JoinLine(opts, s, lines[|lines| - 1]);
        if !multi && work != [] {
          ParseLineGrowth(opts, s.store, s.lineNumber, work, s.section, prefix);
        }
    }
  }

  /** The warnings of a parse start with the warnings the store had before it. */
  lemma ParseExtendsWarnings(opts: Options, st: Store, lines: seq<string>, prefix: string)
    ensures var w := ParseFromLines(opts, st, lines, prefix).store.warnings;
      |st.warnings| <= |w| && w[..|st.warnings|] == st.warnings
  {
    ScanExtendsWarnings(opts, prefix, InitialScan(st), lines);
    match ScanLines(opts, prefix, InitialScan(st), lines)
    case Stopped(_, _) =>
    case Running(sc) =>
      if sc.multiLine {
        ParseLineGrowth(opts, sc.store, sc.lineNumber, sc.previousLine, sc.section, prefix);
      }
  }
}
