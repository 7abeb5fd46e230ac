/** Overwrite-or-append on the item list, shared by IniFile.Set and the merge
    operator, and what a lookup sees after it. */
module IniUpsert {
  import opened IniBase
  import opened IniItem
  import opened IniHelpers
  import opened IniParseProps

  /** A lookup after appending one item. */
  lemma FindItemAppend(items: seq<Item>, x: Item, section: string, key: string)
    ensures FindItem(items + [x], section, key) ==
      if FindItem(items, section, key).Some? then FindItem(items, section, key)
      else if Matches(x, section, key) then Some(|items|)
      else None
  {
    var r := items + [x];
    assert forall m | 0 <= m < |items| :: r[m] == items[m];
    match FindItem(items, section, key)
    case Some(i) =>
      assert FindItem(r, section, key) == Some(i);
    case None =>
      if Matches(x, section, key) {
        assert Matches(r[|items|], section, key);
        var f := FindItem(r, section, key);
        assert f.Some?;
      }
  }

  /** A lookup after replacing one item by one with the same section and key. */
  lemma FindItemUpdate(items: seq<Item>, i: nat, x: Item, section: string, key: string)
    requires i < |items| && x.section == items[i].section && x.key == items[i].key
    ensures FindItem(items[i := x], section, key) == FindItem(items, section, key)
  {
    var r := items[i := x];
    assert forall m | 0 <= m < |items| :: Matches(r[m], section, key) == Matches(items[m], section, key);
  }

  /** Set on the item list: the entry found under exactly these names gets the
      value and the comment, or a new entry is appended. */
  function Upsert(items: seq<Item>, section: string, key: string, value: string,
                  comment: Option<string>): seq<Item>
  {
    match FindItem(items, section, key)
    case Some(i) => items[i := items[i].(value := value, comment := comment)]
    case None => items + [Item(section, key, value, comment)]
  }

  /** Upsert overwrites exactly when the pair was present and appends otherwise. */
  lemma UpsertShape(items: seq<Item>, section: string, key: string, value: string, comment: Option<string>)
    ensures var r := Upsert(items, section, key, value, comment);
      (GetIniItem(items, section, key).Some? ==> |r| == |items|)
      && (GetIniItem(items, section, key).None? ==> |r| == |items| + 1 && r[..|items|] == items)
      && forall m | 0 <= m < |items| :: r[m].section == items[m].section && r[m].key == items[m].key
  {
    var r := Upsert(items, section, key, value, comment);
    if FindItem(items, section, key).None? {
      assert r[..|items|] == items;
    }
  }

  /** After Upsert the pair reads back what was stored, and every other pair
      reads what it read before. */
  lemma UpsertLookup(items: seq<Item>, section: string, key: string, value: string,
                     comment: Option<string>, s: string, k: string)
    ensures GetIniItem(Upsert(items, section, key, value, comment), s, k) ==
      if s == section && k == key then Some(Item(section, key, value, comment))
      else GetIniItem(items, s, k)
  {
    match FindItem(items, section, key)
    case Some(i) =>
      FindItemUpdate(items, i, items[i].(value := value, comment := comment), s, k);
    case None =>
      FindItemAppend(items, Item(section, key, value, comment), s, k);
  }

  lemma UpsertKeepsUnique(items: seq<Item>, section: string, key: string, value: string,
                          comment: Option<string>)
    requires Unique(items)
    ensures Unique(Upsert(items, section, key, value, comment))
  {
    match FindItem(items, section, key)
    case Some(i) =>
      UpdateKeepsUnique(items, i, items[i].(value := value, comment := comment));
    case None =>
      AppendKeepsUnique(items, Item(section, key, value, comment));
  }
}
