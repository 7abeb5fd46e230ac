/** Name normalisation and the comment-character test of IniGetter/IniFile.cs
    (the private ConvertName and IsComment), which depend on the options only. */
module IniNames {
  import opened IniText
  import opened IniOptions

  /** The case folding ConvertName applies to each character it keeps. */
  function FoldChar(opts: Options, c: char): char {
    if opts.caseSensitive then c else AsciiLower(c)
  }

  /** `r` is `kept` with every character case-folded in its place. */
  predicate FoldedFrom(opts: Options, kept: string, r: string) {
    |r| == |kept| && forall m | 0 <= m < |kept| :: r[m] == FoldChar(opts, kept[m])
  }

  /** ConvertName: drop every space when IgnoreSpacesInNames, then lower-case
      unless CaseSensitive. A null name is "" here, as the source maps it to "". */
  function ConvertName(opts: Options, name: string): (r: string)
    ensures opts.ignoreSpacesInNames ==> ' ' !in r
    ensures !opts.caseSensitive ==> HasNoUpper(r)
    ensures |r| <= |name|
    ensures !opts.ignoreSpacesInNames && opts.caseSensitive ==> r == name
  {
    var stripped := if opts.ignoreSpacesInNames then RemoveSpaces(name) else name;
    if opts.caseSensitive then stripped else Lower(stripped)
  }

  /** ConvertName keeps the characters that survive the space removal, in
      order, each case-folded in its place. */
  lemma ConvertNameFolds(opts: Options, name: string)
    ensures FoldedFrom(opts, if opts.ignoreSpacesInNames then RemoveSpaces(name) else name, ConvertName(opts, name))
  {
  }

  /** A normalised name is its own normal form; this keeps lookups under
      ConvertName(currentSection) in step with the section stored. */
  lemma ConvertNameIdempotent(opts: Options, name: string)
    ensures ConvertName(opts, ConvertName(opts, name)) == ConvertName(opts, name)
  {
    var r := ConvertName(opts, name);
    if opts.ignoreSpacesInNames {
      assert ' ' !in r;
      assert RemoveSpaces(r) == r;
    }
  }

  /** CaseSensitive and IgnoreSpacesInNames are the only options normalisation reads. */
  lemma ConvertNameReadsTwoOptions(o1: Options, o2: Options, name: string)
    requires o1.caseSensitive == o2.caseSensitive && o1.ignoreSpacesInNames == o2.ignoreSpacesInNames
    ensures ConvertName(o1, name) == ConvertName(o2, name)
  {
  }

  /** IsComment: ';' always, '#' only when PoundComment is set. */
  predicate IsComment(opts: Options, ch: char) {
    ch == ';' || (opts.poundComment && ch == '#')
  }
}
