/** IniGetter/IniFile.cs: the IniFile class. Its item list, parse warnings and
    last warning are fields that the methods update in place; the options are
    fixed at construction. Each method is proved equal to the function of the
    old state that specifies it, and the properties are proved about those. */
module IniFile {
  import opened IniBase
  import opened IniText
  import opened IniOptions
  import opened IniItem
  import opened IniHelpers
  import opened IniNames
  import opened IniParse
  import opened IniParseProps
  import opened IniScanProps
  import opened IniUpsert
  import opened IniMerge
  import opened IniRender

  /** How a bool-returning method ends: it returns, or an exception escapes it. */
  datatype Completion = Returned(value: bool) | Threw(error: Exception)

  /** ParseFromLines returns false when no exception escapes it: bReturn is
      never set. */
  function Outcome(e: ParseEnd): (c: Completion)
    ensures c != Returned(true)
    ensures c.Threw? <==> e.error.Some?
  {
    if e.error.Some? then Threw(e.error.value) else Returned(false)
  }

  /** `^[0-9]+$` */
  predicate Numeral(s: string) {
    |s| > 0 && AllDigits(s)
  }

  const Int64Limit: nat := 0x8000_0000_0000_0000

  /** Int64.TryParse of a value the regex `^[0-9]+$` let through: the digits
      (a final line feed is white space to TryParse), or nothing on overflow. */
  function ParseInt64(v: string): (r: Option<int>)
    ensures Numeral(v) && DecimalValue(v) < Int64Limit ==> r == Some(DecimalValue(v))
    ensures Numeral(v) && DecimalValue(v) >= Int64Limit ==> r.None?
    ensures !EndAnchored(v, Numeral) ==> r.None?
    ensures |v| > 1 && v[|v| - 1] == '\n' && Numeral(v[..|v| - 1]) ==>
      r == if DecimalValue(v[..|v| - 1]) < Int64Limit then Some(DecimalValue(v[..|v| - 1])) else None
    ensures r.Some? ==> 0 <= r.value < Int64Limit
  {
    if !EndAnchored(v, Numeral) then None
    else
      var digits := if Numeral(v) then v else v[..|v| - 1];
      if DecimalValue(digits) < Int64Limit then Some(DecimalValue(digits)) else None
  }

  class IniFile {
    const options: Options
    var items: seq<Item>
    var warnings: seq<string>
    var lastWarning: string

    /** At most one entry per exact (section, key). */
    ghost predicate Valid()
      reads this
    {
      Unique(items)
    }

    function State(): Store
      reads this
    {
      Store(items, warnings, lastWarning)
    }

    /** A null options argument gives the default options. */
    constructor (opts: Option<Options>)
      ensures options == if opts.None? then DefaultOptions else opts.value
      ensures items == [] && warnings == [] && lastWarning == ""
      ensures Valid()
    {
      options := if opts.None? then DefaultOptions else opts.value;
      items := [];
      warnings := [];
      lastWarning := "";
    }

    /** The entry a lookup under the normalised names finds. */
    function Lookup(section: string, key: string): (r: Option<Item>)
      reads this
      ensures r.None? <==> forall m | 0 <= m < |items| ::
        !Matches(items[m], ConvertName(options, section), ConvertName(options, key))
      ensures r.Some? ==> Matches(r.value, ConvertName(options, section), ConvertName(options, key))
    {
      GetIniItem(items, ConvertName(options, section), ConvertName(options, key))
    }

    /** Get(section, key, defaultValue): the value of the first entry under the
        normalised names, or the default when there is none. */
    function Get(section: string, key: string, defaultValue: Option<string>): (r: Option<string>)
      reads this
      ensures var found := FindItem(items, ConvertName(options, section), ConvertName(options, key));
        (found.None? ==> r == defaultValue) && (found.Some? ==> r == Some(items[found.value].value))
    {
      match Lookup(section, key)
      case None => defaultValue
      case Some(it) => Some(it.value)
    }

    /** Get(section, key, bool defaultValue): the robust boolean of the value,
        or the default when there is no entry or the value does not parse. A
        number-like value that float.TryParse accepts is true exactly when it
        is not zero. */
    function GetBool(section: string, key: string, defaultValue: bool,
                     parseFloat: string -> Option<real>): (r: bool)
      reads this
      ensures Lookup(section, key).None? ==> r == defaultValue
      ensures Lookup(section, key).Some? ==>
        var v := Lookup(section, key).value.value;
        (v == "" ==> r == defaultValue)
        && (v != "" && Lower(v) in TrueWords ==> r)
        && (v != "" && Lower(v) in FalseWords ==> !r)
        && (v != "" && Lower(v) !in TrueWords && Lower(v) !in FalseWords ==>
              r == if EndAnchored(v, NumberLike) && parseFloat(v).Some? then parseFloat(v).value != 0.0
                   else defaultValue)
    {
      match Get(section, key, None)
      case None => defaultValue
      case Some(v) =>
        var (parsed, value) := TryToRobustBoolean(v, parseFloat);
        if parsed then value else defaultValue
    }

    /** Get(section, key, Int64 defaultValue): the number when the value is all
        digits, possibly followed by one final line feed, and fits in an Int64;
        the default otherwise. */
    function GetInt64(section: string, key: string, defaultValue: int): (r: int)
      reads this
      ensures Lookup(section, key).None? ==> r == defaultValue
      ensures Lookup(section, key).Some? ==>
        var v := Lookup(section, key).value.value;
        (Numeral(v) && DecimalValue(v) < Int64Limit ==> r == DecimalValue(v))
        && (Numeral(v) && DecimalValue(v) >= Int64Limit ==> r == defaultValue)
        && (!EndAnchored(v, Numeral) ==> r == defaultValue)
        && (|v| > 1 && v[|v| - 1] == '\n' && Numeral(v[..|v| - 1]) && DecimalValue(v[..|v| - 1]) < Int64Limit
            ==> r == DecimalValue(v[..|v| - 1]))
        && (|v| > 1 && v[|v| - 1] == '\n' && Numeral(v[..|v| - 1]) && DecimalValue(v[..|v| - 1]) >= Int64Limit
            ==> r == defaultValue)
    {
      match Get(section, key, None)
      case None => defaultValue
      case Some(v) =>
        match ParseInt64(v)
        case Some(n) => n
        case None => defaultValue
    }

    /** GetComment as written: the test is inverted, so it hands back the
        comment only when that is null or empty, and "" otherwise. */
    function GetComment(section: string, key: string): (r: Option<string>)
      reads this
      ensures r.None? || r.value == ""
      ensures r.None? <==> Lookup(section, key).Some? && Lookup(section, key).value.comment.None?
    {
      var item := Lookup(section, key);
      if item.Some? && IsNullOrEmpty(item.value.comment) then item.value.comment else Some("")
    }

    /** GetComment as its documentation states it: the comment, or "" when
        there is none. */
    function GetCommentIntended(section: string, key: string): (r: string)
      reads this
      ensures Lookup(section, key).None? ==> r == ""
      ensures Lookup(section, key).Some? ==> r == CommentText(Lookup(section, key).value.comment)
    {
      var item := Lookup(section, key);
      if item.Some? && !IsNullOrEmpty(item.value.comment) then item.value.comment.value else ""
    }

    /** GetKeyNames as written: the section name is used as given, not normalised. */
    function GetKeyNames(sectionName: string): (r: seq<string>)
      reads this
      ensures NoDuplicates(r)
      ensures forall k :: k in r <==> exists m | 0 <= m < |items| :: Matches(items[m], sectionName, k)
    {
      GetKeys(items, sectionName)
    }

    /** GetKeyNames with the section name normalised as every lookup does. */
    function GetKeyNamesIntended(sectionName: string): (r: seq<string>)
      reads this
      ensures NoDuplicates(r)
      ensures forall k :: k in r <==> exists m | 0 <= m < |items| :: Matches(items[m], ConvertName(options, sectionName), k)
    {
      GetKeys(items, ConvertName(options, sectionName))
    }

    /** GetSectionNames: every section holding an entry, each once. */
    function GetSectionNames(): (r: seq<string>)
      reads this
      ensures NoDuplicates(r)
      ensures forall s :: s in r <==> exists m | 0 <= m < |items| :: items[m].section == s
    {
      GetSections(items)
    }

    /** Set: overwrite the value and the comment of the entry under the
        normalised names, or append a new entry. It returns false on both
        branches, although its documentation promises true on an overwrite. */
    method Set(section: string, key: string, value: string, comment: Option<string>) returns (r: bool)
      modifies this
      ensures items == Upsert(old(items), ConvertName(options, section), ConvertName(options, key), value, comment)
      ensures warnings == old(warnings) && lastWarning == old(lastWarning)
      ensures !r
      ensures old(Valid()) ==> Valid()
      ensures forall s, k ::
        Lookup(s, k) == (if ConvertName(options, s) == ConvertName(options, section) && ConvertName(options, k) == ConvertName(options, key)
          then Some(Item(ConvertName(options, section), ConvertName(options, key), value, comment))
          else old(Lookup(s, k)))
    {
      ghost var before := items;
      r := false;
      var s := ConvertName(options, section);
      var k := ConvertName(options, key);
      var found := FindItem(items, s, k);
      if found.Some? {
        var i := found.value;
        items := items[i := items[i].(value := value, comment := comment)];
      } else {
        items := items + [Item(s, k, value, comment)];
      }
      if Unique(before) {
        UpsertKeepsUnique(before, s, k, value, comment);
      }
      forall s2, k2 ensures Lookup(s2, k2) ==
        if ConvertName(options, s2) == s && ConvertName(options, k2) == k then Some(Item(s, k, value, comment))
        else GetIniItem(before, ConvertName(options, s2), ConvertName(options, k2))
      {
        UpsertLookup(before, s, k, value, comment, ConvertName(options, s2), ConvertName(options, k2));
      }
    }

    /** Clear: every entry goes; the warnings stay. */
    method Clear()
      modifies this
      ensures items == [] && warnings == old(warnings) && lastWarning == old(lastWarning)
      ensures Valid()
    {
      items := [];
    }

    /** SetParseWarning: "Line n : warning" is appended and becomes the last warning. */
    method SetParseWarning(line: int, warning: string)
      modifies this
      ensures State() == Warn(old(State()), line, warning)
    {
      var text := "Line " + IntToString(line) + " : " + warning;
      warnings := warnings + [text];
      lastWarning := text;
    }

    method ClearParseWarnings()
      modifies this
      ensures items == old(items) && warnings == [] && lastWarning == ""
    {
      lastWarning := "";
      warnings := [];
    }

    /** ParseLine: one working line against the current section; it returns the
        new current section, or the exception the source lets escape. */
    method ParseLine(lineNumber: int, workLine: string, currentSection: string, prefix: string)
      returns (r: Result<string>)
      modifies this
      ensures LineStep(State(), r) == IniParse.ParseLine(options, old(State()), lineNumber, workLine, currentSection, prefix)
      ensures old(Valid()) && Normal(options, currentSection) ==> Valid() && (r.Ok? ==> Normal(options, r.value))
    {
      ghost var st := State();
      if Unique(items) && Normal(options, currentSection) {
        ParseLineKeepsUnique(options, st, lineNumber, workLine, currentSection, prefix);
      }
      if workLine == [] {
        return Thrown(IndexOutOfRange);
      }
      if IsComment(options, workLine[0]) {
        return Ok(currentSection);
      }
      var tempLine := Trim(workLine);
      if tempLine == [] {
        return Thrown(IndexOutOfRange);
      }
      if tempLine[0] == '[' {
        r := ParseSectionHeader(lineNumber, tempLine, currentSection, prefix);
      } else {
        r := ParseNameValue(lineNumber, workLine, currentSection);
      }
    }

    /** The section header branch of ParseLine. */
    method ParseSectionHeader(lineNumber: int, tempLine: string, currentSection: string, prefix: string)
      returns (r: Result<string>)
      modifies this
      ensures LineStep(State(), r) == ParseHeader(options, old(State()), lineNumber, tempLine, currentSection, prefix)
    {
      var endPos := IndexOf(tempLine, ']');
      if endPos > 1 {
        var sectionName := ConvertName(options, prefix + Trim(tempLine[1..endPos]));
        if ValidateName(sectionName) {
          return Ok(sectionName);
        }
        SetParseWarning(lineNumber, "Invalid section name");
      } else {
        SetParseWarning(lineNumber, "Malformed section header");
      }
      return Ok(currentSection);
    }

    /** The name/value branch of ParseLine. */
    method ParseNameValue(lineNumber: int, workLine: string, currentSection: string)
      returns (r: Result<string>)
      modifies this
      ensures LineStep(State(), r) == ParsePair(options, old(State()), lineNumber, workLine, currentSection)
    {
      ghost var st := State();
      var endPos := IndexOf(workLine, options.nameValueDelimiter);
      if endPos <= 0 {
        PairMalformed(options, st, lineNumber, workLine, currentSection);
        SetParseWarning(lineNumber, "malformed name value pair line");
        return Ok(currentSection);
      }
      var keyName := ConvertName(options, Trim(workLine[..endPos]));
      if !ValidateName(keyName) {
        PairInvalidKey(options, st, lineNumber, workLine, currentSection, endPos);
        return Ok(currentSection);
      }
      PairValue(options, st, lineNumber, workLine, currentSection, endPos);
      r := ParseValueText(lineNumber, Trim(workLine[endPos + 1..]), currentSection, keyName);
    }

    /** The value part of a name/value line: the comment split, the unescape,
        and the store. */
    method ParseValueText(lineNumber: int, valueText: string, currentSection: string, keyName: string)
      returns (r: Result<string>)
      modifies this
      ensures LineStep(State(), r) == ParseValue(options, old(State()), lineNumber, valueText, currentSection, keyName)
    {
      var (valueCheck, commentPart) := SplitComment(valueText);
      var unescaped := IniUnescaped(valueCheck);
      if unescaped.Thrown? {
        return Thrown(unescaped.error);
      }
      r := StoreItem(lineNumber, currentSection, keyName, unescaped.value, commentPart);
    }

    /** Storing the parsed entry: overwrite with a warning, or append. */
    method StoreItem(lineNumber: int, currentSection: string, keyName: string, valuePart: string,
                     commentPart: Option<string>) returns (r: Result<string>)
      modifies this
      ensures LineStep(State(), r) ==
        StoreEntry(options, old(State()), lineNumber, currentSection, keyName, valuePart, commentPart)
    {
      var found := FindItem(items, ConvertName(options, currentSection), ConvertName(options, keyName));
      if found.Some? {
        var i := found.value;
        SetParseWarning(lineNumber, OverwriteMessage(items[i], valuePart));
        items := items[i := items[i].(value := valuePart)];
        if commentPart.None? {
          return Thrown(NullReference);
        }
        items := items[i := items[i].(comment := Some(Trim(commentPart.value)))];
      } else {
        var comment := if commentPart.Some? && commentPart.value != "" then Some(Trim(commentPart.value)) else None;
        items := items + [Item(currentSection, keyName, valuePart, comment)];
      }
      return Ok(currentSection);
    }

    /** The head of the loop body of ParseFromLines: the trimmed line, joined to
        a pending continuation, and whether it continues on the next line. */
    method JoinWorkLine(ghost sc: Scan, line: string, multiLine: bool, previous: string)
      returns (workLine: string, bMultiLine: bool, previousLine: string)
      requires sc.multiLine == multiLine && sc.previousLine == previous
      ensures JoinLine(options, sc, line) == (workLine, bMultiLine, previousLine)
    {
      var trimmed := Trim(line);
      workLine := trimmed;
      bMultiLine := multiLine;
      previousLine := previous;
      if options.multilineSupport {
        if bMultiLine {
          workLine := previousLine + workLine;
          bMultiLine := false;
        }
        if workLine != [] && workLine[|workLine| - 1] == '\\' {
          bMultiLine := true;
          previousLine := workLine[..|workLine| - 1];
        }
      }
      JoinLineIs(options, sc, line, trimmed, workLine, bMultiLine, previousLine);
    }

    /** ParseFromLines: the loop over the lines with its continuation state,
        then the pending continuation, if any; an exception from ParseLine
        ends it. */
    method ParseFromLines(lines: seq<string>, prefix: string) returns (c: Completion)
      modifies this
      ensures State() == IniParse.ParseFromLines(options, old(State()), lines, prefix).store
      ensures c == Outcome(IniParse.ParseFromLines(options, old(State()), lines, prefix))
      ensures old(Valid()) ==> Valid()
    {
      ghost var st := State();
      ghost var valid := Valid();
      if valid { ParseKeepsUnique(options, st, lines, prefix); }
      var currentSection := "";
      var bReturn := false;
      var bMultiLine := false;
      var currentLineNumber := 1;
      var previousLine := "";
      for i := 0 to |lines|
        invariant ScanLines(options, prefix, InitialScan(st), lines[..i]) ==
          Running(Scan(State(), currentSection, bMultiLine, previousLine, currentLineNumber))
      {
        ghost var sc := Scan(State(), currentSection, bMultiLine, previousLine, currentLineNumber);
        ScanNext(options, prefix, InitialScan(st), lines, i, sc);
        var workLine;
        workLine, bMultiLine, previousLine := JoinWorkLine(sc, lines[i], bMultiLine, previousLine);
        if !bMultiLine && workLine != [] {
          var r := ParseLine(currentLineNumber, workLine, currentSection, prefix);
          ParsedStep(options, prefix, sc, lines[i], LineStep(State(), r));
          if r.Thrown? {
            StoppedEarly(options, prefix, InitialScan(st), lines, i, State(), r.error);
            return Threw(r.error);
          }
          currentSection := r.value;
        } else {
          PendingStep(options, prefix, sc, lines[i]);
        }
        currentLineNumber := currentLineNumber + 1;
      }
      ScanAll(options, prefix, InitialScan(st), lines);
      if bMultiLine {
        var r := ParseLine(currentLineNumber, previousLine, currentSection, prefix);
        if r.Thrown? {
          return Threw(r.error);
        }
      }
      return Returned(bReturn);
    }

    /** LoadFromContent: without mergeFile the entries are cleared first; the
        warnings are always cleared; the text is split into trimmed lines and
        parsed. It never returns true. */
    method LoadFromContent(data: string, mergeFile: bool, prefix: string) returns (c: Completion)
      modifies this
      ensures var e := IniParse.ParseFromLines(options, Store(if mergeFile then old(items) else [], [], ""),
                                               TrimAll(LinesFrom(data, 0)), prefix);
        State() == e.store && c == Outcome(e)
      ensures c != Returned(true)
      ensures !mergeFile || old(Valid()) ==> Valid()
    {
      if !mergeFile {
        Clear();
      }
      var iniLines := ToLines(data);
      ClearParseWarnings();
      c := ParseFromLines(iniLines, prefix);
    }

    /** first + second: a fresh store with the options of `first`, the entries
        of `first`, then each entry of `second` overwriting (with a warning at
        line 0) or appended. */
    static method Plus(first: IniFile, second: IniFile) returns (result: IniFile)
      ensures fresh(result)
      ensures result.options == first.options
      ensures result.State() == Merge(first.items, second.items)
      ensures first.Valid() ==> result.Valid()
    {
      result := new IniFile(Some(first.options));
      result.items := first.items;
      for j := 0 to |second.items|
        invariant fresh(result) && result.options == first.options
        invariant result.State() == MergeInto(Store(first.items, [], ""), second.items[..j])
      {
        assert second.items[..j + 1][..j] == second.items[..j];
        var item := second.items[j];
        var found := FindItem(result.items, item.section, item.key);
        if found.None? {
          result.items := result.items + [item];
        } else {
          var i := found.value;
          result.SetParseWarning(0, OverwriteMessage(result.items[i], item.value));
          result.items := result.items[i := result.items[i].(value := item.value, comment := item.comment)];
        }
      }
      assert second.items[..|second.items|] == second.items;
      if Unique(first.items) {
        MergeIntoKeepsUnique(Store(first.items, [], ""), second.items);
      }
    }

    /** ToString: the sorted sections, a blank line between them, a header for
        each but the global section, and the sorted key lines. */
    method ToString() returns (s: string)
      ensures s == Render(items)
    {
      var bInsertLine := false;
      s := "";
      var sections := SortedSections(items);
      for j := 0 to |sections|
        invariant s == JoinLines(SectionsLines(items, sections[..j]))
        invariant bInsertLine == (j > 0)
      {
        ghost var before := s;
        var currentSection := sections[j];
        if bInsertLine {
          s := s + "" + "\n";
        } else {
          bInsertLine := true;
        }
        ghost var s1 := s;
        if currentSection != "" {
          s := s + "[" + currentSection + "]" + "\n";
        }
        ghost var head := s;
        SectionHeadText(before, j, currentSection, s1, head);
        s := AppendKeyLines(items, s, currentSection);
        SectionAppended(items, sections, j, before, head, s);
      }
      SectionsLinesAll(items, sections);
    }
  }

  /** The inner loop of ToString: the key lines of one section, in ordinal
      order of the keys, appended to `head`. */
  method AppendKeyLines(items: seq<Item>, head: string, currentSection: string) returns (s: string)
    ensures s == head + JoinLines(KeyLines(items, currentSection, SortedKeys(items, currentSection)))
  {
    s := head;
    var keys := SortedKeys(items, currentSection);
    assert keys[..0] == [];
    for t := 0 to |keys|
      invariant s == head + JoinLines(KeyLines(items, currentSection, keys[..t]))
    {
      ghost var done := s;
      KeysAreFound(items, currentSection, keys, t);
      var item := GetIniItem(items, currentSection, keys[t]);
      if item.Some? {
        s := s + item.value.key + "=" + IniEscaped(item.value.value);
        if IsNullOrEmpty(item.value.comment) {
          s := s + "\n";
        } else {
          s := s + " ; " + item.value.comment.value + "\n";
        }
        KeyLineStepText(items, currentSection, keys, t, head, done, s, item.value);
      } else {
        assert false;
      }
    }
    KeyLinesAll(items, currentSection, keys);
  }
}
