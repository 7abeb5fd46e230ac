/** The behaviour of the parser on the lines the repository's tests and
    documentation use as examples: a non-default delimiter, and a last line
    holding only a continuation backslash. */
module IniScenarios {
  import opened IniBase
  import opened IniText
  import opened IniJson
  import opened IniOptions
  import opened IniItem
  import opened IniHelpers
  import opened IniNames
  import opened IniParse
  import opened IniParseProps
  import opened IniScanProps

  /** Only the configured delimiter splits a name from its value: a valid,
      trimmed key, the delimiter and a plain value append one entry under the
      normalised key. */
  lemma DelimiterSplits(opts: Options, st: Store, line: int, key: string, value: string,
                        section: string, prefix: string)
    requires NameChars(key) && IsTrimmed(key) && opts.nameValueDelimiter !in key
    requires ValidateName(ConvertName(opts, key))
    requires IsTrimmed(value) && '"' !in value && ';' !in value && '#' !in value
    requires Normal(opts, section) && FindItem(st.items, section, ConvertName(opts, key)).None?
    ensures ParseLine(opts, st, line, key + [opts.nameValueDelimiter] + value, section, prefix) ==
      LineStep(st.(items := st.items + [Item(section, ConvertName(opts, key), value, None)]), Ok(section))
  {
    var w := key + [opts.nameValueDelimiter] + value;
    DelimitedLineShape(opts, key, value, w);
    NoQuoteNoMatch(value, 0);
    PairLineStored(opts, st, line, w, section, prefix);
    StoreEntryUpserts(opts, st, line, section, ConvertName(opts, key), value, None);
  }

  /** The options of the colon-delimited test file. */
  const ColonOptions: Options := DefaultOptions.(nameValueDelimiter := ':')

  lemma ColonLine()
    ensures "FirstKey:FirstValue" == "FirstKey" + [ColonOptions.nameValueDelimiter] + "FirstValue"
  {
  }

  lemma ColonKey()
    ensures NameChars("FirstKey") && IsTrimmed("FirstKey") && ':' !in "FirstKey"
  {
  }

  lemma ColonKeyName()
    ensures ConvertName(ColonOptions, "FirstKey") == "firstkey" && ValidateName("firstkey")
  {
    assert Lower("FirstKey") == "firstkey";
  }

  lemma ColonValue()
    ensures IsTrimmed("FirstValue") && '"' !in "FirstValue" && ';' !in "FirstValue" && '#' !in "FirstValue"
  {
  }

  /** The line of the test with ':' as the delimiter. */
  lemma ColonDelimiter(st: Store, line: int, section: string)
    requires Normal(ColonOptions, section) && FindItem(st.items, section, "firstkey").None?
    ensures ParseLine(ColonOptions, st, line, "FirstKey:FirstValue", section, "") ==
      LineStep(st.(items := st.items + [Item(section, "firstkey", "FirstValue", None)]), Ok(section))
  {
    ColonLine();
    ColonKey();
    ColonKeyName();
    ColonValue();
    DelimiterSplits(ColonOptions, st, line, "FirstKey", "FirstValue", section, "");
  }

  /** A last line holding only the continuation backslash leaves an empty
      continuation, and parsing it indexes an empty string. */
  lemma LoneBackslashThrows(opts: Options)
    requires opts.multilineSupport
    ensures ParseFromLines(opts, Store([], [], ""), ["\\"], "").error == Some(IndexOutOfRange)
  {
    var sc := InitialScan(Store([], [], ""));
    assert Trim("\\") == "\\";
    assert JoinLine(opts, sc, "\\") == ("\\", true, "");
    assert ["\\"][..0] == [];
    assert ScanLines(opts, "", sc, ["\\"]) == Step(opts, "", sc, "\\");
    PendingContinuationAtEnd(opts, Store([], [], ""), ["\\"], "");
  }
}
