/** ToString, the canonical serialiser: distinct sections in sorted order, one
    blank line between sections, a `[name]` header for every section but the
    global one, and one `key=value` line per key in sorted order. */
module IniRender {
  import opened IniBase
  import opened IniText
  import opened IniItem
  import opened IniHelpers

  /** The text of a comment as ToString sees it: null and "" both print nothing. */
  function CommentText(c: Option<string>): string {
    if IsNullOrEmpty(c) then "" else c.value
  }

  /** One key line; the delimiter written is always '='. */
  function KeyLine(it: Item): string {
    it.key + "=" + IniEscaped(it.value) + (if IsNullOrEmpty(it.comment) then "" else " ; " + it.comment.value)
  }

  /** The key lines of a section for the given keys, in their order. A key with
      no entry (which GetKeys never yields) prints nothing. */
  function KeyLines(items: seq<Item>, section: string, keys: seq<string>): seq<string> {
    if keys == [] then []
    else
      KeyLines(items, section, keys[..|keys| - 1]) +
        match GetIniItem(items, section, keys[|keys| - 1])
        case Some(it) => [KeyLine(it)]
        case None => []
  }

  function SortedKeys(items: seq<Item>, section: string): seq<string> {
    SortOrdinal(GetKeys(items, section))
  }

  function SortedSections(items: seq<Item>): seq<string> {
    SortOrdinal(GetSections(items))
  }

  /** The lines of one section: a blank separator unless it is the first, the
      header unless it is the global section, then its keys. */
  function SectionLines(items: seq<Item>, section: string, first: bool): seq<string> {
    (if first then [] else [""]) + (if section == "" then [] else ["[" + section + "]"])
      + KeyLines(items, section, SortedKeys(items, section))
  }

  function SectionsLines(items: seq<Item>, sections: seq<string>): seq<string> {
    if sections == [] then []
    else
      SectionsLines(items, sections[..|sections| - 1])
        + SectionLines(items, sections[|sections| - 1], |sections| == 1)
  }

  function RenderLines(items: seq<Item>): seq<string> {
    SectionsLines(items, SortedSections(items))
  }

  /** The text ToString builds, every line ended by AppendLine's line feed. */
  function Render(items: seq<Item>): string {
    JoinLines(RenderLines(items))
  }

  // ---------------------------------------------------------------------
  // Canonical form

  /** Two lookups that ToString prints the same way: both absent, or both
      present with the same value and the same printed comment. */
  predicate SameEntry(x: Option<Item>, y: Option<Item>) {
    x.None? == y.None?
    && (x.Some? ==> x.value.value == y.value.value && CommentText(x.value.comment) == CommentText(y.value.comment))
  }

  /** Every (section, key) reads the same in both lists, up to null versus "". */
  ghost predicate SameContents(a: seq<Item>, b: seq<Item>) {
    forall s: string, k: string :: SameEntry(GetIniItem(a, s, k), GetIniItem(b, s, k))
  }

  lemma {:induction false} NoDuplicatesCount(xs: seq<string>, e: string)
    requires NoDuplicates(xs)
    ensures multiset(xs)[e] == if e in xs then 1 else 0
    decreases |xs|
  {
    if xs != [] {
      assert xs == [xs[0]] + xs[1..];
      assert NoDuplicates(xs[1..]) by {
        forall m, n | 0 <= m < n < |xs[1..]| ensures xs[1..][m] != xs[1..][n] {
          assert xs[1..][m] == xs[m + 1] && xs[1..][n] == xs[n + 1];
        }
      }
      NoDuplicatesCount(xs[1..], e);
      if e == xs[0] {
        assert e !in xs[1..] by {
          forall n | 0 <= n < |xs[1..]| ensures xs[1..][n] != e {
            assert xs[1..][n] == xs[n + 1];
          }
        }
      }
    }
  }

  /** Sorting two duplicate-free lists with the same elements gives the same list. */
  lemma SortSameElements(xs: seq<string>, ys: seq<string>)
    requires NoDuplicates(xs) && NoDuplicates(ys)
    requires forall e :: e in xs <==> e in ys
    ensures SortOrdinal(xs) == SortOrdinal(ys)
  {
    assert multiset(xs) == multiset(ys) by {
      forall e ensures multiset(xs)[e] == multiset(ys)[e] {
        NoDuplicatesCount(xs, e);
        NoDuplicatesCount(ys, e);
      }
    }
    SortedUnique(SortOrdinal(xs), SortOrdinal(ys));
  }

  lemma {:induction false} KeyLinesSame(a: seq<Item>, b: seq<Item>, section: string, keys: seq<string>)
    requires SameContents(a, b)
    ensures KeyLines(a, section, keys) == KeyLines(b, section, keys)
  {
    if keys != [] {
      KeyLinesSame(a, b, section, keys[..|keys| - 1]);
      var k := keys[|keys| - 1];
      assert SameEntry(GetIniItem(a, section, k), GetIniItem(b, section, k));
    }
  }

  lemma SortedKeysSame(a: seq<Item>, b: seq<Item>, section: string)
    requires SameContents(a, b)
    ensures SortedKeys(a, section) == SortedKeys(b, section)
  {
    forall k ensures k in GetKeys(a, section) <==> k in GetKeys(b, section) {
      assert SameEntry(GetIniItem(a, section, k), GetIniItem(b, section, k));
    }
    SortSameElements(GetKeys(a, section), GetKeys(b, section));
  }

  lemma SortedSectionsSame(a: seq<Item>, b: seq<Item>)
    requires SameContents(a, b)
    ensures SortedSections(a) == SortedSections(b)
  {
    forall s ensures s in GetSections(a) <==> s in GetSections(b) {
      if s in GetSections(a) {
        var m :| 0 <= m < |a| && a[m].section == s;
        assert SameEntry(GetIniItem(a, s, a[m].key), GetIniItem(b, s, a[m].key));
      }
      if s in GetSections(b) {
        var m :| 0 <= m < |b| && b[m].section == s;
        assert SameEntry(GetIniItem(a, s, b[m].key), GetIniItem(b, s, b[m].key));
      }
    }
    SortSameElements(GetSections(a), GetSections(b));
  }

  lemma {:induction false} SectionsLinesSame(a: seq<Item>, b: seq<Item>, sections: seq<string>)
    requires SameContents(a, b)
    ensures SectionsLines(a, sections) == SectionsLines(b, sections)
  {
    if sections != [] {
      SectionsLinesSame(a, b, sections[..|sections| - 1]);
      var s := sections[|sections| - 1];
      SortedKeysSame(a, b, s);
      KeyLinesSame(a, b, s, SortedKeys(a, s));
    }
  }

  /** ToString is canonical: it depends only on what each (section, key) reads,
      and not on the order of the entries nor on null versus empty comments. */
  lemma RenderCanonical(a: seq<Item>, b: seq<Item>)
    requires SameContents(a, b)
    ensures Render(a) == Render(b)
  {
    SortedSectionsSame(a, b);
    SectionsLinesSame(a, b, SortedSections(a));
  }

  // ---------------------------------------------------------------------
  // The text one step of the ToString loops appends

  lemma KeyLinesStep(items: seq<Item>, section: string, keys: seq<string>, t: nat)
    requires t < |keys|
    ensures JoinLines(KeyLines(items, section, keys[..t + 1])) ==
      JoinLines(KeyLines(items, section, keys[..t])) +
        match GetIniItem(items, section, keys[t])
        case Some(it) => KeyLine(it) + "\n"
        case None => ""
  {
    assert keys[..t + 1][..t] == keys[..t];
    var tail := match GetIniItem(items, section, keys[t]) case Some(it) => [KeyLine(it)] case None => [];
    JoinLinesAppend(KeyLines(items, section, keys[..t]), tail);
    if tail != [] {
      assert tail[..0] == [];
    }
  }

  lemma JoinSectionLines(items: seq<Item>, sec: string, first: bool)
    ensures JoinLines(SectionLines(items, sec, first)) ==
      (if first then "" else "\n") + (if sec == "" then "" else "[" + sec + "]\n")
        + JoinLines(KeyLines(items, sec, SortedKeys(items, sec)))
  {
    JoinSeparator(first);
    JoinHeader(sec);
    JoinInFront((if first then [] else [""]), (if sec == "" then [] else ["[" + sec + "]"]),
                KeyLines(items, sec, SortedKeys(items, sec)));
  }

  /** Two runs of lines in front of some lines, as text. */
  lemma JoinInFront(sep: seq<string>, header: seq<string>, keyLines: seq<string>)
    ensures JoinLines(sep + header + keyLines) == JoinLines(sep) + JoinLines(header) + JoinLines(keyLines)
  {
    JoinLinesAppend(sep + header, keyLines);
    JoinLinesAppend(sep, header);
  }

  lemma JoinSeparator(first: bool)
    ensures JoinLines(if first then [] else [""]) == (if first then "" else "\n")
  {
    if !first { JoinOne(""); }
  }

  lemma JoinHeader(sec: string)
    ensures JoinLines(if sec == "" then [] else ["[" + sec + "]"]) == (if sec == "" then "" else "[" + sec + "]\n")
  {
    if sec != "" { JoinOne("[" + sec + "]"); }
  }

  lemma JoinOne(x: string)
    ensures JoinLines([x]) == x + "\n"
  {
    assert [x][..0] == [];
  }

  lemma SectionsLinesStep(items: seq<Item>, sections: seq<string>, j: nat)
    requires j < |sections|
    ensures JoinLines(SectionsLines(items, sections[..j + 1])) ==
      JoinLines(SectionsLines(items, sections[..j])) + JoinLines(SectionLines(items, sections[j], j == 0))
  {
    assert sections[..j + 1][..j] == sections[..j];
    JoinLinesAppend(SectionsLines(items, sections[..j]), SectionLines(items, sections[j], j == 0));
  }

  /** Every key GetKeys yields, in any order, has an entry. */
  lemma KeysAreFound(items: seq<Item>, section: string, keys: seq<string>, t: nat)
    requires keys == SortedKeys(items, section) && t < |keys|
    ensures GetIniItem(items, section, keys[t]).Some?
  {
    assert keys[t] in multiset(keys);
    assert keys[t] in GetKeys(items, section);
  }

  lemma KeyLineAppended(items: seq<Item>, section: string, keys: seq<string>, t: nat,
                        head: string, done: string, s: string, it: Item)
    requires t < |keys| && GetIniItem(items, section, keys[t]) == Some(it)
    requires done == head + JoinLines(KeyLines(items, section, keys[..t]))
    requires s == done + KeyLine(it) + "\n"
    ensures s == head + JoinLines(KeyLines(items, section, keys[..t + 1]))
  {
    KeyLinesStep(items, section, keys, t);
    var x := JoinLines(KeyLines(items, section, keys[..t]));
    assert JoinLines(KeyLines(items, section, keys[..t + 1])) == x + (KeyLine(it) + "\n");
    Concat4(head, x, KeyLine(it), "\n");
  }

  lemma Concat4(a: string, b: string, c: string, d: string)
    ensures a + b + c + d == a + (b + (c + d))
  {
  }

  lemma SectionAppended(items: seq<Item>, sections: seq<string>, j: nat, before: string, head: string, s: string)
    requires j < |sections| && before == JoinLines(SectionsLines(items, sections[..j]))
    requires head == before + (if j == 0 then "" else "\n")
      + (if sections[j] == "" then "" else "[" + sections[j] + "]\n")
    requires s == head + JoinLines(KeyLines(items, sections[j], SortedKeys(items, sections[j])))
    ensures s == JoinLines(SectionsLines(items, sections[..j + 1]))
  {
    SectionsLinesStep(items, sections, j);
    JoinSectionLines(items, sections[j], j == 0);
    var sep := if j == 0 then "" else "\n";
    var header := if sections[j] == "" then "" else "[" + sections[j] + "]\n";
    var keyText := JoinLines(KeyLines(items, sections[j], SortedKeys(items, sections[j])));
    Concat4Left(before, sep, header, keyText);
  }

  lemma Concat4Left(a: string, b: string, c: string, d: string)
    ensures a + b + c + d == a + (b + c + d)
  {
  }

  /** The text the key-line step of ToString appends, in the order it appends it. */
  lemma KeyLineText(done: string, it: Item, s: string)
    requires s == if IsNullOrEmpty(it.comment) then done + it.key + "=" + IniEscaped(it.value) + "\n"
      else done + it.key + "=" + IniEscaped(it.value) + " ; " + it.comment.value + "\n"
    ensures s == done + KeyLine(it) + "\n"
  {
  }

  /** One step of the key loop of ToString: the text it appends is the next key line. */
  lemma KeyLineStepText(items: seq<Item>, section: string, keys: seq<string>, t: nat,
                        head: string, done: string, s: string, it: Item)
    requires t < |keys| && GetIniItem(items, section, keys[t]) == Some(it)
    requires done == head + JoinLines(KeyLines(items, section, keys[..t]))
    requires s == if IsNullOrEmpty(it.comment) then done + it.key + "=" + IniEscaped(it.value) + "\n"
      else done + it.key + "=" + IniEscaped(it.value) + " ; " + it.comment.value + "\n"
    ensures s == head + JoinLines(KeyLines(items, section, keys[..t + 1]))
  {
    KeyLineText(done, it, s);
    KeyLineAppended(items, section, keys, t, head, done, s, it);
  }

  /** The text the section step of ToString appends before the keys. */
  lemma SectionHeadText(before: string, j: nat, sec: string, s1: string, head: string)
    requires s1 == if j == 0 then before else before + "" + "\n"
    requires head == if sec == "" then s1 else s1 + "[" + sec + "]" + "\n"
    ensures head == before + (if j == 0 then "" else "\n") + (if sec == "" then "" else "[" + sec + "]\n")
  {
  }

  lemma KeyLinesAll(items: seq<Item>, section: string, keys: seq<string>)
    ensures KeyLines(items, section, keys[..|keys|]) == KeyLines(items, section, keys)
  {
    assert keys[..|keys|] == keys;
  }

  lemma SectionsLinesAll(items: seq<Item>, sections: seq<string>)
    ensures SectionsLines(items, sections[..|sections|]) == SectionsLines(items, sections)
  {
    assert sections[..|sections|] == sections;
  }
}
