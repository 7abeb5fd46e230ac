# IniGetter in Dafny

A model of the INI engine of IniGetter, with proofs about it. The engine is a
C# class, `IniFile`, that keeps an ordered list of settings: a section, a key,
a value and an optional comment. It changes that list by `Set`, `Clear`,
loading INI text (`LoadFromContent`) and merging two files (`+`). It reads the
list with `Get` and friends and serialises it with `ToString`. Names are
normalised by `ConvertName` according to the options record `IniOptions`.
Lines are classified by `ParseLine` and joined into continuation lines by the
state machine of `ParseFromLines`.

The model has two layers:

- Functions on values give the meaning of every operation: parsing a line, the
  loop over the lines, the merge and the serialiser. Lemmas state what the
  source and its documentation promise about them.
- A Dafny class `IniFile.IniFile` has the fields of the C# class: `items`,
  `warnings`, `lastWarning`, and the immutable `options`. Its methods update
  those fields and keep the loops and branches of the source. Each method's
  `ensures` ties its new state and result to the value-level function of the
  old state.

Exceptions that the source lets escape are outcomes in the model
(`Result.Thrown`, `Completion.Threw`). The state already changed when the
exception is thrown is kept. There are three such exceptions:

- `IndexOutOfRange`: `workLine[0]` on an empty string. This happens when the
  last line is a lone `\` with multiline support on.
- `NullReference`: `commentPart.Trim()` when a duplicate key has no inline
  comment.
- `JsonReader`: a quoted value whose escapes do not decode.

Modules, one per file:

- `IniBase` (base.dfy): Option, Result, the exceptions.
- `IniOptions` (options.dfy): the options record and its defaults.
- `IniText` (text.dfy): Trim, IndexOf, ToLower, Replace(" ", ""), ordinal sort, integer formatting.
- `IniJson` (json.dfy): JSON string literals per section 7 of RFC 8259, their decoding, and the quoted-substring scan.
- `IniItem` (item.dfy): the entry and the uniqueness invariant.
- `IniHelpers` (helpers.dfy): the extension methods of IniHelpers.cs.
- `IniNames` (names.dfy): ConvertName and IsComment.
- `IniParse` (parse.dfy): ParseLine and the ParseFromLines loop on values.
- `IniParseProps` (parse_props.dfy) and `IniScanProps` (scan_props.dfy): their properties.
- `IniUpsert` (upsert.dfy): the overwrite-or-append of Set.
- `IniMerge` (merge.dfy): operator +.
- `IniRender` (render.dfy): ToString.
- `IniRoundTrip` (roundtrip.dfy): reading ToString's text back with LoadFromContent.
- `IniFile` (inifile.dfy): the class.
- `IniQueries` (queries.dfy): properties of the query members.
- `IniScenarios` (scenarios.dfy): example lines from the tests.

ToString and LoadFromContent are proved to round-trip entries that ToString
writes in a form the parser reads back (`IniRoundTrip.Printable`):

- the section is empty or a valid trimmed name, and the key is a valid trimmed
  name, both already in normal form;
- a value that needs JSON escaping has no comment;
- any other value is trimmed and holds neither ';' nor '#';
- a comment is trimmed, holds no quote or line break, and with multiline support
  does not end in a backslash.

The delimiter must also be '=', because ToString always writes "key=value"
whatever the options say. Under these conditions, reading the text into an
emptied store raises no exception and no warning. Every (section, key) then
reads as before, and ToString gives the same text again. Two lemmas show why
the value conditions are there. A quoted value keeps its value but loses its
comment, because the quoted-substring test turns off the comment split. A
plain value holding ';' is cut at the ';'.

The model follows the code where the documentation says otherwise:

- `Set` returns false on both branches, although its documentation promises true on an overwrite.
- `LoadFromContent` always returns false, because `bReturn` is never set.
- `GetComment` and `GetKeyNames` are modelled as written, next to corrected versions (see Findings).

## Model

| member | source | states |
|---|---|---|
| IniFile.IniFile.constructor | IniGetter/IniFile.cs:19-29 | a null options argument gives the default options; the store starts empty |
| IniQueries.DefaultOptionsLowerSection | IniGetter/IniOptions.cs:25 | one instance: under the default options the section name "FirstSection" normalises to "firstsection" |
| IniNames.ConvertName | IniGetter/IniFile.cs:431-449 | spaces removed when IgnoreSpacesInNames, no upper-case letter unless CaseSensitive, names kept as written with neither option |
| IniNames.ConvertNameFolds | IniGetter/IniFile.cs:431-449 | the normal form holds the name's characters in order, with the spaces dropped when IgnoreSpacesInNames, each character ASCII-lowered in its place unless CaseSensitive |
| IniNames.ConvertNameIdempotent | IniGetter/IniFile.cs:431-449 | normalising a normalised name changes nothing |
| IniNames.ConvertNameReadsTwoOptions | IniGetter/IniFile.cs:440-447 | CaseSensitive and IgnoreSpacesInNames are the only options normalisation reads |
| IniText.Trim | IniGetter/IniFile.cs:466 | the result has no white space at either end, is empty exactly when the input is all white space, and is the input when that is already trimmed |
| IniText.TrimSlice | IniGetter/IniFile.cs:466 | the result of Trim is a slice of the input with only white space before and after it, so nothing but white space at the two ends is removed |
| IniText.IndexOf | IniGetter/IniFile.cs:525 | the first index of the character, or -1 exactly when it does not occur |
| IniText.Lower | IniGetter/IniFile.cs:446 | each character ASCII-lowered in its place: same length, no upper-case letter, identity on text with no upper-case letter |
| IniText.RemoveSpaces | IniGetter/IniFile.cs:442 | no space left, every other character kept with its count; a single character is dropped exactly when it is a space |
| IniText.RemoveSpacesAppend | IniGetter/IniFile.cs:442 | removing spaces works piece by piece, so the kept characters stay in their order |
| IniText.SortOrdinal | IniGetter/IniFile.cs:379 | the result is sorted and a permutation of the input |
| IniText.SortedUnique | IniGetter/IniFile.cs:379 | two sorted permutations of the same elements are equal, so the sort is deterministic |
| IniText.IntToString | IniGetter/IniFile.cs:593 | the canonical decimal of the line number: digits with no leading zero (just "0" for zero), with a minus sign when it is negative |
| IniJson.EscapeChar | IniGetter/Helpers/IniHelpers.cs:54 | a character is escaped with a backslash exactly when section 7 of RFC 8259 requires it |
| IniJson.JsonQuoteHasBackslash | IniGetter/Helpers/IniHelpers.cs:54-55 | the literal holds a backslash exactly when some character needs escaping |
| IniJson.FindQuoted | IniGetter/Helpers/IniHelpers.cs:65-66 | the leftmost quoted substring, skipping backslash pairs, or none when no position starts one |
| IniJson.JsonQuoteMatches | IniGetter/Helpers/IniHelpers.cs:54-69 | a JSON literal is the leftmost quoted substring of any text it starts, and it decodes back to its string |
| IniHelpers.FindItem | IniGetter/Helpers/IniHelpers.cs:21-24 | the first index whose section and key are both equal, or none when no item matches |
| IniHelpers.GetIniItem | IniGetter/Helpers/IniHelpers.cs:21-24 | the first item with exactly this section and key, or none |
| IniHelpers.Distinct | IniGetter/Helpers/IniHelpers.cs:34 | no duplicates, the same elements as the input |
| IniHelpers.GetKeys | IniGetter/Helpers/IniHelpers.cs:32-35 | no duplicates, exactly the keys of the section, each of which GetIniItem finds; none for a section no item has |
| IniHelpers.GetSections | IniGetter/Helpers/IniHelpers.cs:42-45 | no duplicates, exactly the sections of the items |
| IniHelpers.IniEscaped | IniGetter/Helpers/IniHelpers.cs:52-56 | the input when it holds no quote, backslash or control character, otherwise its JSON literal |
| IniHelpers.IniUnescaped | IniGetter/Helpers/IniHelpers.cs:63-75 | the input when it holds no quoted substring; the only exception is JsonReader |
| IniHelpers.IniUnescapedDecodes | IniGetter/Helpers/IniHelpers.cs:63-75 | with a quoted substring, the JSON-decoded content of the leftmost one, and a JsonReader exception exactly when that content does not decode |
| IniHelpers.UnescapeEscaped | IniGetter/Helpers/IniHelpers.cs:52-75 | unescaping undoes escaping, for every string |
| IniHelpers.ReadLine | IniGetter/Helpers/IniHelpers.cs:85-88 | none exactly at the end of the text; a line never holds a line break and reading always advances |
| IniHelpers.TrimAll | IniGetter/Helpers/IniHelpers.cs:90 | each line trimmed, none dropped |
| IniHelpers.ToLines | IniGetter/Helpers/IniHelpers.cs:82-94 | the lines StringReader reads, each trimmed, so no line has white space at an end |
| IniHelpers.JoinLinesAppend | IniGetter/IniFile.cs:384-408 | the text of two runs of AppendLine is the concatenation of their texts |
| IniHelpers.SplitJoinedLines | IniGetter/Helpers/IniHelpers.cs:82-94 | splitting the text AppendLine builds gives back its lines |
| IniHelpers.ValidateName | IniGetter/Helpers/IniHelpers.cs:101-112 | a name without a final line feed is valid exactly when it is non-empty and every character is in the allowed set |
| IniHelpers.NameCharFacts | IniGetter/Helpers/IniHelpers.cs:103 | no valid name character is a quote, backslash, comment marker, bracket, '=' or line break |
| IniHelpers.TryToRobustBoolean | IniGetter/Helpers/IniHelpers.cs:120-163 | any casing of the six true words gives (true, true), of the six false words (true, false), "" gives (false, false), and any other text parses exactly when it matches the number regex and the float parse succeeds, and is then true exactly when the number is not zero |
| IniParse.Warn | IniGetter/IniFile.cs:591-596 | the items are kept, the warning text is appended and becomes the last warning |
| IniParse.SplitComment | IniGetter/IniFile.cs:531-553 | a value with a quoted substring is whole; otherwise the comment starts at the first ';', or else at the first '#', whatever PoundComment says |
| IniParse.JoinLine | IniGetter/IniFile.cs:466-481 | without MultilineSupport the working line is the trimmed line and the continuation state is untouched |
| IniParseProps.ParseLineKeepsUnique | IniGetter/IniFile.cs:496-585 | one entry per pair is kept, and a normal section stays normal |
| IniParseProps.StoreEntryKeepsUnique | IniGetter/IniFile.cs:555-575 | storing under normalised names keeps one entry per pair |
| IniParseProps.StoreEntryGrowth | IniGetter/IniFile.cs:555-575 | at most one warning and at most one entry more, the old warnings kept in front |
| IniParseProps.ParsePairGrowth | IniGetter/IniFile.cs:525-581 | a name/value line adds at most one warning and one entry |
| IniParseProps.ParseLineGrowth | IniGetter/IniFile.cs:496-585 | any line adds at most one warning and one entry |
| IniParseProps.CommentLineChangesNothing | IniGetter/IniFile.cs:451-454 | a line starting with ';', or with '#' under PoundComment, changes nothing |
| IniParseProps.HeaderLine | IniGetter/IniFile.cs:502-521 | a '[' line whose first ']' is past index 1 and whose prefixed, trimmed, normalised name is valid becomes the section; otherwise exactly one warning and the section unchanged |
| IniParseProps.PairLineRejected | IniGetter/IniFile.cs:525-529 | a delimiter at index 0 or missing gives one "malformed name value pair line" warning; an invalid key is skipped with nothing changed |
| IniParseProps.StoreEntryUpserts | IniGetter/IniFile.cs:555-575 | an existing entry gets the value and the comment with exactly one overwrite warning, and throws when the comment is null; otherwise one entry is appended, with a comment only when it is not empty |
| IniParseProps.PairLineIsPair | IniGetter/IniFile.cs:499-502 | a line starting with neither a comment marker, '[' nor white space is a name/value line |
| IniParseProps.PairLineStored | IniGetter/IniFile.cs:525-554 | a valid key is stored normalised, with the value unescaped and the comment trimmed |
| IniScanProps.ScanLinesAppend | IniGetter/IniFile.cs:464-487 | the loop over two runs of lines is the loop over the second resumed after the first; an exception stops it |
| IniScanProps.LineNumbers | IniGetter/IniFile.cs:461-486 | every line read advances the line number by one |
| IniScanProps.BlankLineSkipped | IniGetter/IniFile.cs:482 | a blank line outside a continuation changes nothing but the line number |
| IniScanProps.NoMultilineNoContinuation | IniGetter/IniFile.cs:467 | without MultilineSupport no continuation is ever pending, so a backslash is an ordinary character |
| IniScanProps.NoMultilineParsesEachLine | IniGetter/IniFile.cs:466-485 | without MultilineSupport each non-blank line is parsed trimmed, with its own number |
| IniScanProps.ContinuationStep | IniGetter/IniFile.cs:467-481 | a line ending in a backslash only extends the pending text, without the backslash |
| IniScanProps.ContinuationRun | IniGetter/IniFile.cs:464-487 | a run of continuation lines parses nothing and accumulates their stripped text |
| IniScanProps.ContinuationJoined | IniGetter/IniFile.cs:464-487 | continuation lines followed by a line are one step on the accumulated text, numbered with that last line |
| IniScanProps.JoinedStep | IniGetter/IniFile.cs:469-485 | the line ending a continuation is parsed joined to the pending text, with its own line number |
| IniScanProps.PendingContinuationAtEnd | IniGetter/IniFile.cs:488-492 | a continuation pending at the end is parsed with number lines.Length + 1, and an empty one throws IndexOutOfRange |
| IniScanProps.ScanKeepsUnique | IniGetter/IniFile.cs:464-487 | every step keeps one entry per pair and a normal section |
| IniScanProps.ParseKeepsUnique | IniGetter/IniFile.cs:456-494 | parsing a store with one entry per pair leaves one entry per pair |
| IniScanProps.ScanExtendsWarnings | IniGetter/IniFile.cs:464-487 | the loop only appends warnings |
| IniScanProps.ParseExtendsWarnings | IniGetter/IniFile.cs:456-494 | the warnings after parsing start with those before it |
| IniUpsert.UpsertShape | IniGetter/IniFile.cs:351-367 | an overwrite keeps the length, an append keeps the old items in front; every place keeps its section and key |
| IniUpsert.UpsertLookup | IniGetter/IniFile.cs:351-367 | the pair reads back what was stored, every other pair what it read before |
| IniUpsert.UpsertKeepsUnique | IniGetter/IniFile.cs:351-367 | one entry per pair is kept |
| IniMerge.LastMatch | IniGetter/IniFile.cs:62-74 | the last item of the second file with exactly this pair, or none when it has none |
| IniMerge.MergeIntoCounts | IniGetter/IniFile.cs:62-74 | every item of the second file adds either one entry or one warning |
| IniMerge.MergeIntoKeepsPlaces | IniGetter/IniFile.cs:61-74 | the first file's entries keep their places, sections and keys |
| IniMerge.MergeIntoKeepsUnique | IniGetter/IniFile.cs:61-74 | one entry per pair is kept |
| IniMerge.MergeIntoLookup | IniGetter/IniFile.cs:62-74 | the second file wins: a pair reads its last item there, or else what it read before |
| IniMerge.MergeProperties | IniGetter/IniFile.cs:57-77 | first + second: one entry per pair, the first file's entries in place, the second file's values winning; the warnings are exactly MergeWarnings, and the last warning is the last of them or "" |
| IniMerge.MergeIntoWarnings | IniGetter/IniFile.cs:62-74 | the merge loop appends exactly MergeWarnings to the warnings so far: one "Line 0 : Item overwritten [s][k] value (old) overwritten by (new)" per item whose pair is already present, in order, and the last of them becomes the last warning |
| IniMerge.MergeWarningsExact | IniGetter/IniFile.cs:57-77 | first + second starts with no warnings, so its warnings are exactly MergeWarnings |
| IniMerge.MergeOverlays | IniGetter/IniFile.cs:61-74 | each entry of the first file is overwritten in place by the last item of the second file with its pair |
| IniRender.SortSameElements | IniGetter/IniFile.cs:379-395 | sorting duplicate-free lists with the same elements gives the same list |
| IniRender.RenderCanonical | IniGetter/IniFile.cs:374-419 | ToString depends only on what each (section, key) reads: not on entry order, nor on null versus empty comments |
| IniRender.KeysAreFound | IniGetter/IniFile.cs:394-413 | every sorted key is found, so the "item not found" branch is never taken |
| IniRoundTrip.ToStringFixedPoint | IniGetter/IniFile.cs:374-419 | for printable entries and '=' as delimiter, LoadFromContent of ToString's text into an emptied store throws nothing, warns nothing, reads every (section, key) as before, and ToString of the result is the same text |
| IniRoundTrip.RenderReadBack | IniGetter/IniFile.cs:456-494 | the parse loop over ToString's lines ends with no exception and no warning, holding the entries in ToString's order, each comment null or non-empty |
| IniRoundTrip.RenderSplits | IniGetter/Helpers/IniHelpers.cs:82-94 | ToLines of ToString's text gives back exactly the lines ToString appended |
| IniRoundTrip.CanonLookup | IniGetter/IniFile.cs:394-413 | a lookup in the entries read back finds an entry exactly when the original finds one, with the same section, key and value and the comment normalised |
| IniRoundTrip.CanonSameContents | IniGetter/IniFile.cs:394-413 | the entries read back and the original read the same for every (section, key) |
| IniRoundTrip.KeyLineRead | IniGetter/IniFile.cs:525-581 | reading a printable key line under its own section appends its entry, keeps the section and raises no warning |
| IniRoundTrip.KeyLineParsed | IniGetter/IniFile.cs:496-585 | ParseLine of a printable key line with no earlier entry under the pair appends that entry, comment normalised |
| IniRoundTrip.KeyLineEnds | IniGetter/IniFile.cs:400-409 | a printable key line is non-empty, trimmed, free of line breaks, and does not end in the continuation backslash |
| IniRoundTrip.ValueTextSplits | IniGetter/IniFile.cs:531-553 | the text ToString writes after '=' splits back into the escaped value, which unescapes to the value, and the comment |
| IniRoundTrip.HeaderRead | IniGetter/IniFile.cs:499-513 | reading "[section]" for a valid trimmed normal name makes it the current section and changes nothing else |
| IniRoundTrip.ScanKeyLines | IniGetter/IniFile.cs:396-413 | the key lines of a section read back as its entries in the written order, appended after the earlier sections' entries |
| IniRoundTrip.ScanSections | IniGetter/IniFile.cs:380-415 | the lines of the written sections read back as their entries, section after section |
| IniRoundTrip.SectionHeadScan | IniGetter/IniFile.cs:382-393 | the blank separator and the header of a section read back as a switch to that section and nothing more |
| IniRoundTrip.SortedSectionsFacts | IniGetter/IniFile.cs:378-379 | the sections ToString writes are distinct, each holds an entry, and the global section can only come first |
| IniRoundTrip.GetIniItemConcat | IniGetter/Helpers/IniHelpers.cs:21-24 | a lookup in two joined lists finds the first list's entry when there is one, the second list's otherwise |
| IniRoundTrip.QuotedCommentDropped | IniGetter/IniFile.cs:533-538 | a value that needs escaping, written with a comment, reads back with its value but without its comment |
| IniRoundTrip.SemicolonValueCut | IniGetter/IniFile.cs:539-545 | a plain value holding ';' reads back cut before its first ';', with the rest as its comment |
| IniFile.Outcome | IniGetter/IniFile.cs:459-493 | ParseFromLines never returns true, and it throws exactly when parsing stopped on an exception |
| IniFile.ParseInt64 | IniGetter/IniFile.cs:196-206 | the number of an all-digit value that fits in Int64, also when one final line feed follows the digits (the regex `$` matches before it and TryParse skips it); nothing on overflow or for any value the regex rejects |
| IniFile.IniFile.Lookup | IniGetter/IniFile.cs:121 | the entry found under the normalised names, or none exactly when no entry has them |
| IniFile.IniFile.Get | IniGetter/IniFile.cs:117-128 | the value of the first entry under the normalised names, or the default when there is none |
| IniFile.IniFile.GetBool | IniGetter/IniFile.cs:145-158 | the default with no entry or an empty value; true for the true words and false for the false words; any other value that matches the number regex and that the float parse reads is true exactly when the number is not zero, and gives the default when either test fails |
| IniFile.IniFile.GetInt64 | IniGetter/IniFile.cs:193-210 | the number for an all-digit value, possibly followed by one final line feed, that fits in Int64; the default on overflow, for a value the regex rejects and with no entry |
| IniFile.IniFile.GetComment | IniGetter/IniFile.cs:218-227 | as written: null exactly when the entry exists with a null comment, and "" otherwise |
| IniFile.IniFile.GetCommentIntended | IniGetter/IniFile.cs:212-217 | the entry's comment, or "" when there is no entry or no comment |
| IniFile.IniFile.GetKeyNames | IniGetter/IniFile.cs:235-238 | as written: the keys of the section named exactly as given, each once |
| IniFile.IniFile.GetKeyNamesIntended | IniGetter/IniFile.cs:230-238 | the keys of the normalised section, each once |
| IniFile.IniFile.GetSectionNames | IniGetter/IniFile.cs:244-247 | every section holding an entry, each once |
| IniFile.IniFile.Set | IniGetter/IniFile.cs:347-369 | upsert under the normalised names, value and comment replaced; a lookup that normalises the same way reads the new entry, every other lookup is unchanged; returns false; one entry per pair kept |
| IniFile.IniFile.Clear | IniGetter/IniFile.cs:87-90 | no entries left, the warnings kept |
| IniFile.IniFile.SetParseWarning | IniGetter/IniFile.cs:591-596 | the new state is Warn of the old one |
| IniFile.IniFile.ClearParseWarnings | IniGetter/IniFile.cs:420-429 | the warnings and the last warning emptied, the entries kept |
| IniFile.IniFile.ParseLine | IniGetter/IniFile.cs:496-585 | the new state and result are IniParse.ParseLine of the old state; one entry per pair kept |
| IniFile.IniFile.ParseSectionHeader | IniGetter/IniFile.cs:502-521 | the header branch equals ParseHeader |
| IniFile.IniFile.ParseNameValue | IniGetter/IniFile.cs:524-581 | the name/value branch equals ParsePair |
| IniFile.IniFile.ParseValueText | IniGetter/IniFile.cs:531-554 | the value branch equals ParseValue |
| IniFile.IniFile.StoreItem | IniGetter/IniFile.cs:555-575 | the store branch equals StoreEntry |
| IniFile.IniFile.JoinWorkLine | IniGetter/IniFile.cs:466-481 | the trimmed line, joined to a pending continuation under MultilineSupport, and the continuation state after it, are those of IniParse.JoinLine |
| IniFile.IniFile.ParseFromLines | IniGetter/IniFile.cs:456-494 | the new state and outcome are those of IniParse.ParseFromLines; one entry per pair kept |
| IniFile.IniFile.LoadFromContent | IniGetter/IniFile.cs:305-314 | entries cleared exactly when not merging, warnings cleared, then the trimmed lines of the text parsed; never returns true |
| IniFile.IniFile.Plus | IniGetter/IniFile.cs:57-77 | a fresh file with the first file's options whose state is the merge of the two item lists |
| IniFile.IniFile.ToString | IniGetter/IniFile.cs:374-419 | the text is Render of the entries |
| IniFile.AppendKeyLines | IniGetter/IniFile.cs:394-416 | the key lines of one section, in sorted order, appended |
| IniQueries.Int64RoundTrip | IniGetter/IniFile.cs:193-210 | the decimal text of a number in Int64 range reads back as that number |
| IniQueries.GetInt64OfDecimal | IniGetter/IniFile.cs:193-210 | Get(Int64) of a value written as a decimal is that number |
| IniQueries.GetInt64Negative | IniGetter/IniFile.cs:196-201 | a negative number is never read back: the default is returned |
| IniQueries.GetBoolWords | IniGetter/IniFile.cs:145-158 | Get(bool) of a listed word is true exactly for the true words |
| IniQueries.KeyNamesIntendedAgreeWithLookup | IniGetter/IniFile.cs:230-238 | under normal keys, the intended key list holds exactly the keys Get finds |
| IniQueries.GetCommentLosesComment | IniGetter/IniFile.cs:218-227 | as written, an entry with a non-empty comment gives "", where the intended member gives the comment |
| IniQueries.GetKeyNamesMissesEntries | IniGetter/IniFile.cs:235-238 | as written, a section name that differs from its normal form lists no key, although Get finds one |
| IniScenarios.DelimiterSplits | IniGetter/IniFile.cs:525-529 | only the configured delimiter splits: a valid key, the delimiter and a plain value append one entry under the normalised key |
| IniScenarios.ColonDelimiter | IniGetter.Tests/IniFileTests.cs:10-13 | with ':' as the delimiter, "FirstKey:FirstValue" stores key "firstkey" with value "FirstValue" |
| IniScenarios.LoneBackslashThrows | IniGetter/IniFile.cs:489-492 | with MultilineSupport, a last line holding only a backslash throws IndexOutOfRange |

## Left out

- File I/O is not modelled: `Load`, `Save` and the file-path constructor (IniGetter/IniFile.cs:37-40, 257-295, 321-337). `LoadFromContent` takes the text instead.
- `Get(…, double)` is floating point and depends on the culture. In `TryToRobustBoolean`, `float.TryParse` is a function parameter; the regex gates in front of it are modelled.
- Newtonsoft's `JsonConvert` is replaced by an escape and a decoder of our own. They cover the escapes section 7 of RFC 8259 requires. Newtonsoft may escape more characters; the files do not show which.
- IniJson.Decode: accepts only the escapes of section 7 of RFC 8259 (`\" \\ \/ \b \f \n \r \t \uXXXX`). Newtonsoft's reader also takes `\'` as `'`, so a value such as `"it\'s"` makes the model throw JsonReader where the source reads `it's`.
- Dafny characters are Unicode scalar values, so a lone surrogate cannot be stored. A `\u` escape of a lone surrogate makes the decoder fail, where Newtonsoft's reader does not throw (it substitutes U+FFFD; the package version is not pinned here).
- `ToLower` is ASCII lowering here, not culture lowering. The `InvariantCulture` sort of ToString is an ordinal sort.
- `CompareTo` is left out: it only compares `ToString` outputs as strings. `UnescapeString` is the identity and nothing calls it. `Debug.WriteLine` is output only.
- `IniGetter/Reflection.cs` is not part of this model: it is a framework shim.
- `ReadOnly` and `AllowSave` are fields of the options record; no modelled code reads them.
- `ToString` uses "\n" for `Environment.NewLine`.
- A null section, key or name is the empty string here, as `ConvertName` maps null to "". Comments and the string default of `Get` can be null and are `Option`s.
- IniFile.IniFile.Set: the value is a plain string, so `Set(s, k, null)` is not represented. In the source it stores a null value; after it `Get` returns null, Get(bool) and Get(Int64) return the default, and `ToString` writes `key=`.
- IniFile.IniFile.GetKeyNames: a null section is not represented. In the source `GetKeys(null)` lists nothing, while the model's section "" lists the global keys.
- Line numbers are unbounded integers; the source's `int` counter would overflow after 2^31 lines.
- IniFile.IniFile.Plus: uses value semantics. In the source the result shares item objects with `first`, so an overwrite during the merge also changes `first` (IniGetter/IniFile.cs:61, 72-73). It also shares the items it appends from `second` (IniGetter/IniFile.cs:66), so a later `Set` on the result changes that operand too. Here neither operand is changed.

## Findings

| source | as written | input that shows it | evidently intended | confidence | as-written member | corrected member |
|---|---|---|---|---|---|---|
| IniGetter/IniFile.cs:223 | the comment is returned only when it is null or empty; otherwise "" | an entry with comment "note": GetComment gives "" | return the comment, or "" when there is none, as the documentation at line 217 says | high (not executed) | IniQueries.GetCommentLosesComment | IniFile.IniFile.GetCommentIntended |
| IniGetter/IniFile.cs:237 | the section name is passed as given, while entries are stored under normalised names | default options, an entry in section "firstsection", GetKeyNames("FirstSection") lists nothing | normalise the section name as Get does | high (not executed) | IniQueries.GetKeyNamesMissesEntries | IniQueries.KeyNamesIntendedAgreeWithLookup |
