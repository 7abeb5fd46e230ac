/** One setting of an INI store (IniGetter/IniItem.cs). The comment is None where
    the source holds null, which the engine keeps apart from the empty string. */
module IniItem {
  import opened IniBase

  datatype Item = Item(section: string, key: string, value: string, comment: Option<string>)

  /** At most one entry per exact (section, key) pair. */
  ghost predicate Unique(items: seq<Item>) {
    forall m, n | 0 <= m < n < |items| ::
      items[m].section != items[n].section || items[m].key != items[n].key
  }

  /** string.IsNullOrEmpty on a comment. */
  predicate IsNullOrEmpty(c: Option<string>) {
    c.None? || c.value == ""
  }
}
