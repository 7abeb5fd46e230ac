/** The line parser of IniGetter/IniFile.cs as functions on values: ParseLine
    classifies one logical line, and the line state machine of ParseFromLines
    joins continuation lines and feeds ParseLine. The class IniFile.IniFile
    runs the same steps in place; its methods are proved equal to these. */
module IniParse {
  import opened IniBase
  import opened IniText
  import opened IniJson
  import opened IniOptions
  import opened IniItem
  import opened IniHelpers
  import opened IniNames

  /** The state of a store that parsing changes. */
  datatype Store = Store(items: seq<Item>, warnings: seq<string>, lastWarning: string)

  /** SetParseWarning's text: "Line {line} : {warning}". */
  function WarningText(line: int, warning: string): string {
    "Line " + IntToString(line) + " : " + warning
  }

  /** SetParseWarning: append the warning and make it the last warning. */
  function Warn(st: Store, line: int, warning: string): (r: Store)
    ensures r.items == st.items
    ensures r.warnings == st.warnings + [WarningText(line, warning)]
    ensures r.lastWarning == WarningText(line, warning)
  {
    var text := WarningText(line, warning);
    Store(st.items, st.warnings + [text], text)
  }

  function OverwriteMessage(found: Item, newValue: string): string {
    "Item overwritten [" + found.section + "][" + found.key + "] value (" + found.value
      + ") overwritten by (" + newValue + ")"
  }

  /** The result of ParseLine: the new store, and the current section or the exception. */
  datatype LineStep = LineStep(store: Store, section: Result<string>)

  /** The value and the inline comment of the text after the delimiter. A value
      holding a quoted substring is taken whole; otherwise the comment starts at
      the first ';', or else at the first '#' (whatever PoundComment says). */
  function SplitComment(valueCheck: string): (r: (string, Option<string>))
    ensures FindQuoted(valueCheck, 0).Some? ==> r == (valueCheck, None)
    ensures FindQuoted(valueCheck, 0).None? && ';' in valueCheck ==>
      var c := IndexOf(valueCheck, ';');
      r == (Trim(valueCheck[..c]), Some(Trim(valueCheck[c + 1..])))
    ensures FindQuoted(valueCheck, 0).None? && ';' !in valueCheck && '#' in valueCheck ==>
      var c := IndexOf(valueCheck, '#');
      r == (Trim(valueCheck[..c]), Some(Trim(valueCheck[c + 1..])))
    ensures FindQuoted(valueCheck, 0).None? && ';' !in valueCheck && '#' !in valueCheck ==> r == (valueCheck, None)
  {
    if FindQuoted(valueCheck, 0).Some? then (valueCheck, None)
    else
      var semi := IndexOf(valueCheck, ';');
      if semi > -1 then (Trim(valueCheck[..semi]), Some(Trim(valueCheck[semi + 1..])))
      else
        var pound := IndexOf(valueCheck, '#');
        if pound > -1 then (Trim(valueCheck[..pound]), Some(Trim(valueCheck[pound + 1..])))
        else (valueCheck, None)
  }

  /** Store a parsed entry: overwrite the entry found under the normalised names,
      with one warning, or append a new one. Overwriting with no inline comment
      reaches commentPart.Trim() on null: the warning and the new value are
      already in place when the NullReferenceException is thrown. */
  function StoreEntry(opts: Options, st: Store, line: int, section: string, key: string,
                      value: string, comment: Option<string>): (r: LineStep)
  {
    match FindItem(st.items, ConvertName(opts, section), ConvertName(opts, key))
    case Some(i) =>
      var found := st.items[i];
      var warned := Warn(st, line, OverwriteMessage(found, value));
      var valued := warned.(items := warned.items[i := found.(value := value)]);
      if comment.None? then LineStep(valued, Thrown(NullReference))
      else LineStep(valued.(items := valued.items[i := valued.items[i].(comment := Some(Trim(comment.value)))]),
                    Ok(section))
    case None =>
      var c := if comment.Some? && comment.value != "" then Some(Trim(comment.value)) else None;
      LineStep(st.(items := st.items + [Item(section, key, value, c)]), Ok(section))
  }

  /** A section header line `[name]`. */
  function ParseHeader(opts: Options, st: Store, line: int, tempLine: string, section: string,
                       prefix: string): LineStep
  {
    var endPos := IndexOf(tempLine, ']');
    if endPos > 1 then
      var name := ConvertName(opts, prefix + Trim(tempLine[1..endPos]));
      if ValidateName(name) then LineStep(st, Ok(name))
      else LineStep(Warn(st, line, "Invalid section name"), Ok(section))
    else LineStep(Warn(st, line, "Malformed section header"), Ok(section))
  }

  /** A name/value line. */
  function ParsePair(opts: Options, st: Store, line: int, workLine: string, section: string): LineStep
  {
    var endPos := IndexOf(workLine, opts.nameValueDelimiter);
    if endPos > 0 then
      var key := ConvertName(opts, Trim(workLine[..endPos]));
      if ValidateName(key) then ParseValue(opts, st, line, Trim(workLine[endPos + 1..]), section, key)
      else LineStep(st, Ok(section))
    else LineStep(Warn(st, line, "malformed name value pair line"), Ok(section))
  }

  /** The text after the delimiter of a line with a valid key: split off the
      comment, unescape the value, store the entry. */
  function ParseValue(opts: Options, st: Store, line: int, valueText: string, section: string, key: string): LineStep
  {
    var (valueCheck, comment) := SplitComment(valueText);
    match IniUnescaped(valueCheck)
    case Thrown(e) => LineStep(st, Thrown(e))
    case Ok(value) => StoreEntry(opts, st, line, section, key, value, comment)
  }

  /** The three outcomes of ParsePair, one lemma each, so that callers need not
      unfold the whole of it. */
  lemma PairMalformed(opts: Options, st: Store, line: int, workLine: string, section: string)
    requires IndexOf(workLine, opts.nameValueDelimiter) <= 0
    ensures ParsePair(opts, st, line, workLine, section) ==
      LineStep(Warn(st, line, "malformed name value pair line"), Ok(section))
  {
  }

  lemma PairInvalidKey(opts: Options, st: Store, line: int, workLine: string, section: string, endPos: int)
    requires endPos == IndexOf(workLine, opts.nameValueDelimiter) && endPos > 0
    requires !ValidateName(ConvertName(opts, Trim(workLine[..endPos])))
    ensures ParsePair(opts, st, line, workLine, section) == LineStep(st, Ok(section))
  {
  }

  lemma PairValue(opts: Options, st: Store, line: int, workLine: string, section: string, endPos: int)
    requires endPos == IndexOf(workLine, opts.nameValueDelimiter) && endPos > 0
    requires ValidateName(ConvertName(opts, Trim(workLine[..endPos])))
    ensures ParsePair(opts, st, line, workLine, section) ==
      ParseValue(opts, st, line, Trim(workLine[endPos + 1..]), section, ConvertName(opts, Trim(workLine[..endPos])))
  {
  }

  /** ParseLine: a comment changes nothing, a `[` line is a section header, any
      other line a name/value pair. Indexing the first character of an empty line
      throws IndexOutOfRangeException. */
  function ParseLine(opts: Options, st: Store, line: int, workLine: string, section: string,
                     prefix: string): LineStep
  {
    if workLine == [] then LineStep(st, Thrown(IndexOutOfRange))
    else if IsComment(opts, workLine[0]) then LineStep(st, Ok(section))
    else
      var tempLine := Trim(workLine);
      if tempLine == [] then LineStep(st, Thrown(IndexOutOfRange))
      else if tempLine[0] == '[' then ParseHeader(opts, st, line, tempLine, section, prefix)
      else ParsePair(opts, st, line, workLine, section)
  }

  // ---------------------------------------------------------------------
  // The line state machine of ParseFromLines

  /** The loop variables of ParseFromLines besides the store. */
  datatype Scan = Scan(store: Store, section: string, multiLine: bool, previousLine: string, lineNumber: int)

  /** The loop of ParseFromLines after some lines: still running, or stopped
      by an exception from ParseLine. */
  datatype Progress = Running(scan: Scan) | Stopped(store: Store, error: Exception)

  /** The working line and the continuation state after reading `line`. */
  function JoinLine(opts: Options, sc: Scan, line: string): (r: (string, bool, string))
    ensures !opts.multilineSupport ==> r == (Trim(line), sc.multiLine, sc.previousLine)
  {
    var trimmed := Trim(line);
    if opts.multilineSupport then
      var work := if sc.multiLine then sc.previousLine + trimmed else trimmed;
      if work != [] && work[|work| - 1] == '\\' then (work, true, work[..|work| - 1])
      else (work, false, sc.previousLine)
    else (trimmed, sc.multiLine, sc.previousLine)
  }

  /** JoinLine step by step, as the loop of ParseFromLines updates its variables. */
  lemma JoinLineIs(opts: Options, sc: Scan, line: string, trimmed: string, work: string, multi: bool, previous: string)
    requires trimmed == Trim(line)
    requires opts.multilineSupport ==>
      work == (if sc.multiLine then sc.previousLine + trimmed else trimmed)
      && multi == (work != [] && work[|work| - 1] == '\\')
      && previous == (if multi then work[..|work| - 1] else sc.previousLine)
    requires !opts.multilineSupport ==> work == trimmed && multi == sc.multiLine && previous == sc.previousLine
    ensures JoinLine(opts, sc, line) == (work, multi, previous)
  {
  }

  /** One iteration of the foreach loop of ParseFromLines. */
  function Step(opts: Options, prefix: string, sc: Scan, line: string): Progress {
    var (work, multi, previous) := JoinLine(opts, sc, line);
    if !multi && work != [] then
      var r := ParseLine(opts, sc.store, sc.lineNumber, work, sc.section, prefix);
      match r.section
      case Thrown(e) => Stopped(r.store, e)
      case Ok(section) => Running(Scan(r.store, section, multi, previous, sc.lineNumber + 1))
    else Running(Scan(sc.store, sc.section, multi, previous, sc.lineNumber + 1))
  }

  /** The loop after the given lines. */
  function ScanLines(opts: Options, prefix: string, sc: Scan, lines: seq<string>): Progress
  {
    if lines == [] then Running(sc)
    else
      match ScanLines(opts, prefix, sc, lines[..|lines| - 1])
      case Stopped(st, e) => Stopped(st, e)
      case Running(s) => Step(opts, prefix, s, lines[|lines| - 1])
  }

  /** How parsing ends: the store, and the exception if one escaped. */
  datatype ParseEnd = ParseEnd(store: Store, error: Option<Exception>)

  /** After the loop: a continuation still pending is parsed as a line. */
  function Finish(opts: Options, prefix: string, p: Progress): ParseEnd {
    match p
    case Stopped(st, e) => ParseEnd(st, Some(e))
    case Running(sc) =>
      if sc.multiLine then
        var r := ParseLine(opts, sc.store, sc.lineNumber, sc.previousLine, sc.section, prefix);
        ParseEnd(r.store, if r.section.Thrown? then Some(r.section.error) else None)
      else ParseEnd(sc.store, None)
  }

  function InitialScan(st: Store): Scan {
    Scan(st, "", false, "", 1)
  }

  /** ParseFromLines on a store: the loop from the initial state, then the flush. */
  function ParseFromLines(opts: Options, st: Store, lines: seq<string>, prefix: string): ParseEnd {
    Finish(opts, prefix, ScanLines(opts, prefix, InitialScan(st), lines))
  }
}
