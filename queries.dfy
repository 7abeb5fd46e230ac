/** Properties of the query members of IniFile.IniFile: how they agree with the
    lookup, and where the members as written depart from what their
    documentation promises. */
module IniQueries {
  import opened IniBase
  import opened IniText
  import opened IniOptions
  import opened IniItem
  import opened IniHelpers
  import opened IniNames
  import opened IniFile

  /** The text Int32/Int64.ToString gives for a number in range reads back as
      that number: a value written as a decimal is found again by Get(Int64). */
  lemma Int64RoundTrip(n: nat)
    requires n < Int64Limit
    ensures ParseInt64(NatToDecimal(n)) == Some(n)
  {
    assert Numeral(NatToDecimal(n));
  }

  lemma GetInt64OfDecimal(f: IniFile, section: string, key: string, n: nat, defaultValue: int)
    requires n < Int64Limit
    requires f.Lookup(section, key).Some? && f.Lookup(section, key).value.value == NatToDecimal(n)
    ensures f.GetInt64(section, key, defaultValue) == n
  {
    Int64RoundTrip(n);
  }

  /** A negative number is never read back: the regex admits digits only. */
  lemma GetInt64Negative(f: IniFile, section: string, key: string, i: int, defaultValue: int)
    requires i < 0
    requires f.Lookup(section, key).Some? && f.Lookup(section, key).value.value == IntToString(i)
    ensures f.GetInt64(section, key, defaultValue) == defaultValue
  {
    var v := IntToString(i);
    assert !IsDigit(v[0]);
    assert v[|v| - 1] != '\n' by { assert IsDigit(v[1..][|v| - 2]); }
  }

  /** Get(bool) reads back every word of both lists in any casing the lower
      case maps to it. */
  lemma GetBoolWords(f: IniFile, section: string, key: string, defaultValue: bool,
                     parseFloat: string -> Option<real>)
    requires f.Lookup(section, key).Some?
    requires Lower(f.Lookup(section, key).value.value) in TrueWords + FalseWords
    ensures f.GetBool(section, key, defaultValue, parseFloat) ==
      (Lower(f.Lookup(section, key).value.value) in TrueWords)
  {
    var v := f.Lookup(section, key).value.value;
    var word := Lower(v);
    WordFacts(word);
    assert |word| == |v|;
  }

  /** The two word lists are disjoint and hold no empty word. */
  lemma WordFacts(word: string)
    requires word in TrueWords + FalseWords
    ensures word != "" && (word in TrueWords <==> word !in FalseWords)
  {
    assert TrueWords * FalseWords == {};
  }

  /** Under normalised key names, the intended GetKeyNames lists exactly the
      keys that Get finds. */
  lemma KeyNamesIntendedAgreeWithLookup(f: IniFile, section: string, key: string)
    requires ConvertName(f.options, key) == key
    ensures key in f.GetKeyNamesIntended(section) <==> f.Lookup(section, key).Some?
  {
    if f.Lookup(section, key).Some? {
      var m :| 0 <= m < |f.items| && Matches(f.items[m], ConvertName(f.options, section), key);
    }
  }

  /** GetComment as written: an entry with a non-empty comment gives "", while
      the intended member gives the comment. */
  lemma GetCommentLosesComment(f: IniFile, section: string, key: string)
    requires f.Lookup(section, key).Some? && !IsNullOrEmpty(f.Lookup(section, key).value.comment)
    ensures f.GetComment(section, key) == Some("")
    ensures f.GetCommentIntended(section, key) == f.Lookup(section, key).value.comment.value != ""
  {
  }

  /** GetKeyNames as written, on a section name that differs from its normal
      form, when every entry is stored under normalised names (as Set and
      loading store them): it lists nothing, while the entry is there. */
  lemma GetKeyNamesMissesEntries(f: IniFile, sectionName: string, key: string)
    requires ConvertName(f.options, sectionName) != sectionName
    requires forall m | 0 <= m < |f.items| :: ConvertName(f.options, f.items[m].section) == f.items[m].section
    requires ConvertName(f.options, key) == key && f.Lookup(sectionName, key).Some?
    ensures f.GetKeyNames(sectionName) == []
    ensures key in f.GetKeyNamesIntended(sectionName)
  {
    KeyNamesIntendedAgreeWithLookup(f, sectionName, key);
    assert forall m | 0 <= m < |f.items| :: f.items[m].section != sectionName;
  }

  /** With the default options, "FirstSection" is not its own normal form. */
  lemma DefaultOptionsLowerSection()
    ensures ConvertName(DefaultOptions, "FirstSection") == "firstsection"
    ensures ConvertName(DefaultOptions, "FirstSection") != "FirstSection"
  {
    assert Lower("FirstSection") == "firstsection";
  }
}
