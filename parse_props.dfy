/** What the line parser guarantees: the one-entry-per-pair invariant, the
    warnings it adds, blank and comment lines, line numbering, and the joining
    of continuation lines. */
module IniParseProps {
  import opened IniBase
  import opened IniText
  import opened IniOptions
  import opened IniItem
  import opened IniHelpers
  import opened IniNames
  import opened IniParse

  /** A name that normalisation leaves as it is; the parser's current section is one. */
  predicate Normal(opts: Options, name: string) {
    ConvertName(opts, name) == name
  }

  lemma UpdateKeepsUnique(items: seq<Item>, i: nat, x: Item)
    requires Unique(items) && i < |items|
    requires x.section == items[i].section && x.key == items[i].key
    ensures Unique(items[i := x])
  {
    var r := items[i := x];
    forall m, n | 0 <= m < n < |r| ensures r[m].section != r[n].section || r[m].key != r[n].key {
      assert r[m].section == items[m].section && r[m].key == items[m].key;
      assert r[n].section == items[n].section && r[n].key == items[n].key;
    }
  }

  lemma AppendKeepsUnique(items: seq<Item>, x: Item)
    requires Unique(items)
    requires FindItem(items, x.section, x.key).None?
    ensures Unique(items + [x])
  {
  }

  /** ParseLine keeps at most one entry per exact (section, key) and hands back a
      normalised section, provided it was given one: the entry is looked up under
      ConvertName of the names it is stored under, which are already normal. */
  lemma ParseLineKeepsUnique(opts: Options, st: Store, line: int, workLine: string, section: string,
                             prefix: string)
    requires Unique(st.items) && Normal(opts, section)
    ensures var r := ParseLine(opts, st, line, workLine, section, prefix);
      Unique(r.store.items) && (r.section.Ok? ==> Normal(opts, r.section.value))
  {
    if workLine != [] && !IsComment(opts, workLine[0]) && Trim(workLine) != [] {
      if Trim(workLine)[0] == '[' {
        HeaderKeepsUnique(opts, st, line, Trim(workLine), section, prefix);
      } else {
        PairKeepsUnique(opts, st, line, workLine, section);
      }
    }
  }

  lemma HeaderKeepsUnique(opts: Options, st: Store, line: int, tempLine: string, section: string,
                          prefix: string)
    requires Unique(st.items) && Normal(opts, section)
    ensures var r := ParseHeader(opts, st, line, tempLine, section, prefix);
      Unique(r.store.items) && (r.section.Ok? ==> Normal(opts, r.section.value))
  {
    var endPos := IndexOf(tempLine, ']');
    if endPos > 1 {
      ConvertNameIdempotent(opts, prefix + Trim(tempLine[1..endPos]));
    }
  }

  lemma PairKeepsUnique(opts: Options, st: Store, line: int, workLine: string, section: string)
    requires Unique(st.items) && Normal(opts, section)
    ensures var r := ParsePair(opts, st, line, workLine, section);
      Unique(r.store.items) && (r.section.Ok? ==> Normal(opts, r.section.value))
  {
    var endPos := IndexOf(workLine, opts.nameValueDelimiter);
    if endPos <= 0 {
      PairMalformed(opts, st, line, workLine, section);
    } else if !ValidateName(ConvertName(opts, Trim(workLine[..endPos]))) {
      PairInvalidKey(opts, st, line, workLine, section, endPos);
    } else {
      PairValue(opts, st, line, workLine, section, endPos);
      ConvertNameIdempotent(opts, Trim(workLine[..endPos]));
      ValueKeepsUnique(opts, st, line, Trim(workLine[endPos + 1..]), section, ConvertName(opts, Trim(workLine[..endPos])));
    }
  }

  lemma ValueKeepsUnique(opts: Options, st: Store, line: int, valueText: string, section: string, key: string)
    requires Unique(st.items) && Normal(opts, section) && Normal(opts, key)
    ensures var r := ParseValue(opts, st, line, valueText, section, key);
      Unique(r.store.items) && (r.section.Ok? ==> Normal(opts, r.section.value))
  {
    var (valueCheck, comment) := SplitComment(valueText);
    match IniUnescaped(valueCheck)
    case Thrown(_) =>
    case Ok(value) => StoreEntryKeepsUnique(opts, st, line, section, key, value, comment);
  }

  /** Storing an entry under normalised names keeps the entries unique. */
  lemma StoreEntryKeepsUnique(opts: Options, st: Store, line: int, section: string, key: string,
                              value: string, comment: Option<string>)
    requires Unique(st.items) && Normal(opts, section) && Normal(opts, key)
    ensures Unique(StoreEntry(opts, st, line, section, key, value, comment).store.items)
  {
    match FindItem(st.items, section, key)
    case Some(i) =>
      var found := st.items[i];
      UpdateKeepsUnique(st.items, i, found.(value := value));
      var items1 := st.items[i := found.(value := value)];
      if comment.Some? {
        UpdateKeepsUnique(items1, i, items1[i].(comment := Some(Trim(comment.value))));
      }
    case None =>
      var c := if comment.Some? && comment.value != "" then Some(Trim(comment.value)) else None;
      AppendKeepsUnique(st.items, Item(section, key, value, c));
  }

  /** At most one more warning, the old ones kept in front, and at most one more entry. */
  predicate GrowsByAtMostOne(st: Store, r: Store) {
    |st.warnings| <= |r.warnings| <= |st.warnings| + 1
    && r.warnings[..|st.warnings|] == st.warnings
    && (|r.warnings| == |st.warnings| ==> r.lastWarning == st.lastWarning)
    && |st.items| <= |r.items| <= |st.items| + 1
  }

  lemma StoreEntryGrowth(opts: Options, st: Store, line: int, section: string, key: string,
                         value: string, comment: Option<string>)
    ensures GrowsByAtMostOne(st, StoreEntry(opts, st, line, section, key, value, comment).store)
  {
  }

  lemma ParsePairGrowth(opts: Options, st: Store, line: int, workLine: string, section: string)
    ensures GrowsByAtMostOne(st, ParsePair(opts, st, line, workLine, section).store)
  {
    var endPos := IndexOf(workLine, opts.nameValueDelimiter);
    if endPos <= 0 {
      PairMalformed(opts, st, line, workLine, section);
    } else if !ValidateName(ConvertName(opts, Trim(workLine[..endPos]))) {
      PairInvalidKey(opts, st, line, workLine, section, endPos);
    } else {
      PairValue(opts, st, line, workLine, section, endPos);
      ParseValueGrowth(opts, st, line, Trim(workLine[endPos + 1..]), section, ConvertName(opts, Trim(workLine[..endPos])));
    }
  }

  lemma ParseValueGrowth(opts: Options, st: Store, line: int, valueText: string, section: string, key: string)
    ensures GrowsByAtMostOne(st, ParseValue(opts, st, line, valueText, section, key).store)
  {
    var (valueCheck, comment) := SplitComment(valueText);
    match IniUnescaped(valueCheck)
    case Thrown(_) =>
    case Ok(value) => StoreEntryGrowth(opts, st, line, section, key, value, comment);
  }

  /** ParseLine adds at most one warning and at most one entry, and keeps the
      warnings it was given in front. */
  lemma ParseLineGrowth(opts: Options, st: Store, line: int, workLine: string, section: string, prefix: string)
    ensures GrowsByAtMostOne(st, ParseLine(opts, st, line, workLine, section, prefix).store)
  {
    if workLine != [] && !IsComment(opts, workLine[0]) && Trim(workLine) != [] && Trim(workLine)[0] != '[' {
      ParsePairGrowth(opts, st, line, workLine, section);
    }
  }

  /** Comment lines change nothing: ';' always, '#' when PoundComment is set. */
  lemma CommentLineChangesNothing(opts: Options, st: Store, line: int, workLine: string, section: string,
                                  prefix: string)
    requires workLine != [] && (workLine[0] == ';' || (opts.poundComment && workLine[0] == '#'))
    ensures ParseLine(opts, st, line, workLine, section, prefix) == LineStep(st, Ok(section))
  {
  }

  /** A `[` line either becomes the current section, when its first ']' is past
      index 1 and the prefixed, trimmed, normalised name is valid, or adds exactly
      one warning and keeps the current section. Entries never change. */
  lemma HeaderLine(opts: Options, st: Store, line: int, workLine: string, section: string, prefix: string)
    requires workLine != [] && workLine[0] == '['
    ensures var r := ParseLine(opts, st, line, workLine, section, prefix);
      var t := Trim(workLine);
      var e := IndexOf(t, ']');
      r.store.items == st.items
      && (e > 1 && ValidateName(ConvertName(opts, prefix + Trim(t[1..e]))) ==>
            r == LineStep(st, Ok(ConvertName(opts, prefix + Trim(t[1..e])))))
      && (!(e > 1 && ValidateName(ConvertName(opts, prefix + Trim(t[1..e])))) ==>
            r.section == Ok(section) && |r.store.warnings| == |st.warnings| + 1
            && r.store.warnings[..|st.warnings|] == st.warnings)
  {
  }

  /** A line whose delimiter is missing or first adds one "malformed name value
      pair line" warning; an invalid key is skipped without a warning. */
  lemma PairLineRejected(opts: Options, st: Store, line: int, workLine: string, section: string,
                         prefix: string)
    requires workLine != [] && !IsComment(opts, workLine[0]) && workLine[0] != '['
    requires !IsWhiteSpace(workLine[0])
    ensures var r := ParseLine(opts, st, line, workLine, section, prefix);
      var e := IndexOf(workLine, opts.nameValueDelimiter);
      (e <= 0 ==> r == LineStep(Warn(st, line, "malformed name value pair line"), Ok(section)))
      && (e > 0 && !ValidateName(ConvertName(opts, Trim(workLine[..e]))) ==> r == LineStep(st, Ok(section)))
  {
  }

  /** Storing an entry under normal names: overwrite the entry of the pair, with
      exactly one warning, or append a new entry that carries the comment only
      when it is not empty. */
  lemma StoreEntryUpserts(opts: Options, st: Store, line: int, section: string, key: string,
                          value: string, comment: Option<string>)
    requires Normal(opts, section) && Normal(opts, key)
    requires comment.Some? ==> IsTrimmed(comment.value)
    ensures var r := StoreEntry(opts, st, line, section, key, value, comment);
      match FindItem(st.items, section, key)
      case None =>
        r == LineStep(st.(items := st.items + [Item(section, key, value,
                            if comment.Some? && comment.value != "" then comment else None)]),
                      Ok(section))
      case Some(i) =>
        |r.store.items| == |st.items|
        && r.store.items[i] == st.items[i].(value := value,
                                            comment := if comment.Some? then comment else st.items[i].comment)
        && (forall m | 0 <= m < |st.items| && m != i :: r.store.items[m] == st.items[m])
        && r.store.warnings == st.warnings + [WarningText(line, OverwriteMessage(st.items[i], value))]
        && (comment.None? <==> r.section == Thrown(NullReference))
        && (comment.Some? ==> r.section == Ok(section))
  {
  }

  /** A line that starts with neither a comment marker, a '[' nor whitespace is a name/value line. */
  lemma PairLineIsPair(opts: Options, st: Store, line: int, workLine: string, section: string,
                       prefix: string)
    requires workLine != [] && !IsComment(opts, workLine[0]) && workLine[0] != '['
    requires !IsWhiteSpace(workLine[0])
    ensures ParseLine(opts, st, line, workLine, section, prefix) == ParsePair(opts, st, line, workLine, section)
  {
  }

  /** A valid key is stored normalised, with the value unescaped and the comment trimmed. */
  lemma PairLineStored(opts: Options, st: Store, line: int, workLine: string, section: string,
                       prefix: string)
    requires workLine != [] && !IsComment(opts, workLine[0]) && workLine[0] != '['
    requires !IsWhiteSpace(workLine[0])
    requires var e := IndexOf(workLine, opts.nameValueDelimiter);
      e > 0 && ValidateName(ConvertName(opts, Trim(workLine[..e])))
    ensures var e := IndexOf(workLine, opts.nameValueDelimiter);
      var key := ConvertName(opts, Trim(workLine[..e]));
      var (valueCheck, comment) := SplitComment(Trim(workLine[e + 1..]));
      Normal(opts, key)
      && (comment.Some? ==> IsTrimmed(comment.value))
      && ParseLine(opts, st, line, workLine, section, prefix) ==
         match IniUnescaped(valueCheck)
         case Thrown(x) => LineStep(st, Thrown(x))
         case Ok(value) => StoreEntry(opts, st, line, section, key, value, comment)
  {
    var e := IndexOf(workLine, opts.nameValueDelimiter);
    PairLineIsPair(opts, st, line, workLine, section, prefix);
    ConvertNameIdempotent(opts, Trim(workLine[..e]));
  }

  /** Where the delimiter sits in `key`, delimiter, `value`. */
  lemma DelimitedLineShape(opts: Options, key: string, value: string, w: string)
    requires NameChars(key) && IsTrimmed(key) && opts.nameValueDelimiter !in key
    requires w == key + [opts.nameValueDelimiter] + value
    ensures w != [] && !IsComment(opts, w[0]) && w[0] != '[' && !IsWhiteSpace(w[0])
    ensures IndexOf(w, opts.nameValueDelimiter) == |key|
    ensures w[..|key|] == key && w[|key| + 1..] == value
  {
    assert w[..|key|] == key && w[|key| + 1..] == value;
    assert w[0] == key[0];
    NameCharFacts(key[0]);
    assert IndexOf(w, opts.nameValueDelimiter) == |key| by {
      assert w[|key|] == opts.nameValueDelimiter;
    }
  }
}
