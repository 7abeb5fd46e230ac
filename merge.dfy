/** The + operator of IniFile: the items of the first file, then each item of
    the second overwriting the entry with the same exact section and key (with
    one warning at line 0) or appended. */
module IniMerge {
  import opened IniBase
  import opened IniItem
  import opened IniHelpers
  import opened IniParse
  import opened IniUpsert

  /** One item of the second file merged into the result. */
  function MergeOne(st: Store, it: Item): Store {
    match FindItem(st.items, it.section, it.key)
    case Some(i) =>
      var w := Warn(st, 0, OverwriteMessage(st.items[i], it.value));
      w.(items := Upsert(st.items, it.section, it.key, it.value, it.comment))
    case None => st.(items := Upsert(st.items, it.section, it.key, it.value, it.comment))
  }

  /** The loop over the items of the second file. */
  function MergeInto(st: Store, b: seq<Item>): Store {
    if b == [] then st else MergeOne(MergeInto(st, b[..|b| - 1]), b[|b| - 1])
  }

  /** first + second on item lists; the result starts with no warnings. */
  function Merge(a: seq<Item>, b: seq<Item>): Store {
    MergeInto(Store(a, [], ""), b)
  }

  /** The last item of `b` with exactly this section and key. */
  function LastMatch(b: seq<Item>, section: string, key: string): (r: Option<Item>)
    ensures r.None? <==> forall m | 0 <= m < |b| :: !Matches(b[m], section, key)
    ensures r.Some? ==> Matches(r.value, section, key) && r.value in b
  {
    if b == [] then None
    else if Matches(b[|b| - 1], section, key) then Some(b[|b| - 1])
    else
      var r := LastMatch(b[..|b| - 1], section, key);
      assert forall m | 0 <= m < |b| - 1 :: b[..|b| - 1][m] == b[m];
      r
  }

  /** What a pair reads after the first file's items `a` and the items `c` of
      the second file have been merged. */
  function Seen(a: seq<Item>, c: seq<Item>, section: string, key: string): Option<Item> {
    match LastMatch(c, section, key)
    case Some(x) => Some(x)
    case None => GetIniItem(a, section, key)
  }

  /** The warning of merging `x` when its pair reads `found`: none for a new pair. */
  function OverwriteWarning(found: Option<Item>, x: Item): (r: seq<string>)
    ensures |r| <= 1
  {
    match found
    case Some(prev) => [WarningText(0, OverwriteMessage(prev, x.value))]
    case None => []
  }

  /** The warnings of first + second, in order: one "Line 0 : Item overwritten
      [s][k] value (old) overwritten by (new)" for each item of the second file
      whose pair is already present, naming the entry it overwrites. */
  function MergeWarnings(a: seq<Item>, b: seq<Item>): seq<string> {
    if b == [] then []
    else
      var x := b[|b| - 1];
      var c := b[..|b| - 1];
      MergeWarnings(a, c) + OverwriteWarning(Seen(a, c, x.section, x.key), x)
  }

  /** The merge loop raises exactly MergeWarnings, the last of them becoming
      the last warning. */
  lemma {:induction false} MergeIntoWarnings(st: Store, b: seq<Item>)
    ensures MergeInto(st, b).warnings == st.warnings + MergeWarnings(st.items, b)
    ensures MergeInto(st, b).lastWarning ==
      if MergeWarnings(st.items, b) == [] then st.lastWarning
      else MergeWarnings(st.items, b)[|MergeWarnings(st.items, b)| - 1]
  {
    if b == [] {
      assert st.warnings + [] == st.warnings;
    } else {
      var c := b[..|b| - 1];
      var x := b[|b| - 1];
      var s := MergeInto(st, c);
      MergeIntoWarnings(st, c);
      var w := MergeWarnings(st.items, c);
      var found := Seen(st.items, c, x.section, x.key);
      var t := OverwriteWarning(found, x);
      assert MergeWarnings(st.items, b) == w + t;
      SeenIsLookup(st, c, x.section, x.key);
      var s1 := MergeInto(st, b);
      assert s1 == MergeOne(s, x);
      MergeOneWarning(s, x);
      AppendWarnings(st.warnings, w, t, st.lastWarning, s.lastWarning, s1.lastWarning);
    }
  }

  /** Seen is what the pair reads after merging the prefix. */
  lemma SeenIsLookup(st: Store, c: seq<Item>, section: string, key: string)
    ensures GetIniItem(MergeInto(st, c).items, section, key) == Seen(st.items, c, section, key)
  {
    MergeIntoLookup(st, c, section, key);
  }

  /** One item merged: its warning, if any, is appended and becomes the last. */
  lemma MergeOneWarning(s: Store, x: Item)
    ensures var t := OverwriteWarning(GetIniItem(s.items, x.section, x.key), x);
      MergeOne(s, x).warnings == s.warnings + t
      && MergeOne(s, x).lastWarning == if t == [] then s.lastWarning else t[0]
  {
  }

  lemma AppendWarnings(before: seq<string>, w: seq<string>, t: seq<string>, l0: string, l1: string, l2: string)
    requires l1 == (if w == [] then l0 else w[|w| - 1])
    requires |t| <= 1 && l2 == (if t == [] then l1 else t[0])
    ensures (before + w) + t == before + (w + t)
    ensures l2 == if w + t == [] then l0 else (w + t)[|w + t| - 1]
  {
  }

  /** Every item of the second file either appends one entry or adds one warning. */
  lemma {:induction false} MergeIntoCounts(st: Store, b: seq<Item>)
    ensures var r := MergeInto(st, b);
      |r.items| >= |st.items| && |r.warnings| >= |st.warnings|
      && (|r.items| - |st.items|) + (|r.warnings| - |st.warnings|) == |b|
  {
    if b != [] {
      var s := MergeInto(st, b[..|b| - 1]);
      MergeIntoCounts(st, b[..|b| - 1]);
      UpsertShape(s.items, b[|b| - 1].section, b[|b| - 1].key, b[|b| - 1].value, b[|b| - 1].comment);
    }
  }

  /** The entries already there keep their place, section and key. */
  lemma {:induction false} MergeIntoKeepsPlaces(st: Store, b: seq<Item>)
    ensures var r := MergeInto(st, b);
      |st.items| <= |r.items|
      && forall m | 0 <= m < |st.items| :: r.items[m].section == st.items[m].section && r.items[m].key == st.items[m].key
  {
    if b != [] {
      var s := MergeInto(st, b[..|b| - 1]);
      MergeIntoKeepsPlaces(st, b[..|b| - 1]);
      UpsertShape(s.items, b[|b| - 1].section, b[|b| - 1].key, b[|b| - 1].value, b[|b| - 1].comment);
    }
  }

  lemma {:induction false} MergeIntoKeepsUnique(st: Store, b: seq<Item>)
    requires Unique(st.items)
    ensures Unique(MergeInto(st, b).items)
  {
    if b != [] {
      var s := MergeInto(st, b[..|b| - 1]);
      MergeIntoKeepsUnique(st, b[..|b| - 1]);
      UpsertKeepsUnique(s.items, b[|b| - 1].section, b[|b| - 1].key, b[|b| - 1].value, b[|b| - 1].comment);
    }
  }

  /** The second file wins: a pair reads the last item of `b` that has it, and
      otherwise what it read before the merge. */
  lemma {:induction false} MergeIntoLookup(st: Store, b: seq<Item>, section: string, key: string)
    ensures GetIniItem(MergeInto(st, b).items, section, key) ==
      match LastMatch(b, section, key)
      case Some(x) => Some(x)
      case None => GetIniItem(st.items, section, key)
  {
    if b != [] {
      var s := MergeInto(st, b[..|b| - 1]);
      var x := b[|b| - 1];
      MergeIntoLookup(st, b[..|b| - 1], section, key);
      UpsertLookup(s.items, x.section, x.key, x.value, x.comment, section, key);
    }
  }

  /** The result of first + second: one entry per pair when the first file has
      one, the first file's entries in their places, every pair of either file
      present with the second file's value winning, and one warning per item of
      the second file that did not add an entry: exactly MergeWarnings, the
      last of which is the last warning. */
  lemma MergeProperties(a: seq<Item>, b: seq<Item>)
    ensures var r := Merge(a, b);
      (Unique(a) ==> Unique(r.items))
      && |a| <= |r.items|
      && (forall m | 0 <= m < |a| :: r.items[m].section == a[m].section && r.items[m].key == a[m].key)
      && (|r.items| - |a|) + |r.warnings| == |b|
      && r.warnings == MergeWarnings(a, b)
      && r.lastWarning == (if r.warnings == [] then "" else r.warnings[|r.warnings| - 1])
      && forall s: string, k: string :: GetIniItem(r.items, s, k) ==
           match LastMatch(b, s, k)
           case Some(x) => Some(x)
           case None => GetIniItem(a, s, k)
  {
    var st := Store(a, [], "");
    if Unique(a) {
      MergeIntoKeepsUnique(st, b);
    }
    MergeIntoKeepsPlaces(st, b);
    MergeIntoCounts(st, b);
    MergeWarningsExact(a, b);
    forall s: string, k: string
      ensures GetIniItem(Merge(a, b).items, s, k) ==
        match LastMatch(b, s, k)
        case Some(x) => Some(x)
        case None => GetIniItem(a, s, k)
    {
      MergeIntoLookup(st, b, s, k);
    }
  }

  /** The warnings of first + second are exactly MergeWarnings. */
  lemma MergeWarningsExact(a: seq<Item>, b: seq<Item>)
    ensures Merge(a, b).warnings == MergeWarnings(a, b)
    ensures Merge(a, b).lastWarning ==
      if MergeWarnings(a, b) == [] then "" else MergeWarnings(a, b)[|MergeWarnings(a, b)| - 1]
  {
    var st := Store(a, [], "");
    MergeIntoWarnings(st, b);
    assert [] + MergeWarnings(a, b) == MergeWarnings(a, b);
  }

  /** With one entry per pair, the entries of the first file are overwritten in
      place by the last item of the second file with the same pair. */
  lemma MergeOverlays(a: seq<Item>, b: seq<Item>, m: nat)
    requires Unique(a) && m < |a|
    ensures m < |Merge(a, b).items|
    ensures Merge(a, b).items[m] == match LastMatch(b, a[m].section, a[m].key)
      case Some(x) => x
      case None => a[m]
  {
    var st := Store(a, [], "");
    var r := Merge(a, b).items;
    MergeIntoKeepsUnique(st, b);
    MergeIntoKeepsPlaces(st, b);
    MergeIntoLookup(st, b, a[m].section, a[m].key);
    FindItemUnique(r, m);
    FindItemUnique(a, m);
  }
}
