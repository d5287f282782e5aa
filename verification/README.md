# noto-emoji-iconset build tool, modelled in Dafny

The build tool of the `noto-emoji-iconset` component
(`bower_components/noto-emoji-iconset/build.go`) turns the noto-emoji icon
directory into an iconset and the emojione feed into a short-name
dictionary. This project models the logic of that tool:

- `unicodeToEmoji`: a list of hexadecimal code points joined by a separator
  (`"1f600"`, `"0031_fe0f"`) becomes the text of those characters. Each group
  goes through Go's `strconv.ParseInt(group, 16, 64)` and `string(int64)`;
  the first group that fails aborts the whole decoding with its error.
  Modules `Text` (`strings.Split` / `strings.Join`), `Strconv`
  (`ParseInt`), `Runes` (`string(int64)`) and `Decoder`.
- The markup clean-up of `fileToEmoji`: four regular-expression rewrites,
  `\r?\n`, `\t`, `.*<svg.*?>` and `</svg>`, each replaced by the empty
  string. Module `Sanitizer` writes each fixed pattern as a text function
  with Go's leftmost-first, non-overlapping replace-all behaviour.
- `fileToEmoji` and `readEmojis`: the name of an icon file is cut by length
  (seven characters in front, four behind) and the middle decoded with `'_'`;
  files whose name does not decode are skipped, the rest keep the listing
  order. Module `Records`.
- The loop of `writeDictionary`: every feed record whose `base` decodes with
  `'-'` writes `shortname -> text` into a map. Module `Dictionary`.
- `updateFile`: whether an artefact is regenerated, and whether the old one
  is deleted first. Module `Update`.

Texts are `seq<char>`; a decoded emoji is its sequence of code points
(`seq<int>`), one per hex group, which is what Go's UTF-8 string holds.
Results that can fail are `Result` values (module `Wrappers`); Go's
`*strconv.NumError` is `NumError(num, err)` with `err` one of `Syntax` and
`Range`.

Behaviour of `build.go` that is easy to misread, modelled as the code has it:

- The header rewrite `.*<svg.*?>` is greedy in its `.*`: on a one-line
  document it deletes everything up to the first `>` after the LAST `<svg`
  that still has a `>` after it.
- The footer rewrite deletes every `</svg>` met in one left-to-right scan
  (`Sanitizer.StripFooterFirst`); a deletion that brings `</s` and `vg>`
  together is not scanned again (`Sanitizer.FooterSinglePassExample`).
- `strconv.ParseInt(group, 16, 64)` refuses an empty group and a group
  outside the signed 64-bit range as well as a group with a non-hex
  character; it accepts a leading `+` or `-`; and digits that pass 2^64-1
  before a non-hex character give a range error, because each character is
  checked for syntax and then for overflow (`Strconv.RangeBeforeSyntax`). A value that is not a Unicode
  scalar value is turned into U+FFFD by `string(int64)` instead of failing.
- The file-name frame `emoji_u` / `.svg` is never checked; only its length
  is used (`Records.FrameIgnored`).
- Short names in the feed need not be unique: a later record overwrites an
  earlier one, so with two decodable records of one name the Go map's
  iteration order decides the entry (`Dictionary.LastWriterWins`).

## Model

| member | source | states |
|---|---|---|
| Text.Split | bower_components/noto-emoji-iconset/build.go:62 | `strings.Split` gives at least one piece and no piece contains the separator |
| Text.JoinSplit | bower_components/noto-emoji-iconset/build.go:62 | joining the pieces with the separator gives back the input |
| Text.SplitJoin | bower_components/noto-emoji-iconset/build.go:62 | splitting a join of separator-free pieces gives back the pieces |
| Text.SplitCount | bower_components/noto-emoji-iconset/build.go:62 | there is one piece more than there are separators |
| Text.SplitAround | bower_components/noto-emoji-iconset/build.go:62 | a separator in the middle splits both halves independently |
| Text.EmptyPieces | bower_components/noto-emoji-iconset/build.go:62 | a separator at either end or two in a row produce an empty piece |
| Strconv.Scan | bower_components/noto-emoji-iconset/build.go:64 | the digit loop of the parse succeeds only when every remaining character is a hex digit, never below the value read so far and never past 2^64-1; a syntax error means some remaining character is not a hex digit |
| Strconv.ParseUint | bower_components/noto-emoji-iconset/build.go:64 | the digit scan succeeds exactly on non-empty hex text up to 2^64-1, with its value; empty text is a syntax error, too large a value a range error, and a syntax error means the text is empty or holds a non-hex character |
| Strconv.ScanOverflowsFirst | bower_components/noto-emoji-iconset/build.go:64 | once the digits read so far pass 2^64-1 the digit loop stops with a range error, whatever characters follow |
| Strconv.RangeBeforeSyntax | bower_components/noto-emoji-iconset/build.go:64 | hex digits worth more than 2^64-1 followed by a non-hex character give a range error, not a syntax error |
| Strconv.ParseInt | bower_components/noto-emoji-iconset/build.go:64 | `ParseInt(g, 16, 64)` succeeds exactly on signed hex numerals in the int64 range, with their value; every error names the whole group; no digits is a syntax error, an out-of-range numeral a range error |
| Strconv.ParseFormatHex | bower_components/noto-emoji-iconset/build.go:64 | parsing reads back every value below 2^63 from its zero-padded hex writing |
| Strconv.ParseUnsigned | bower_components/noto-emoji-iconset/build.go:64 | an unsigned hex numeral below 2^63 parses to its value |
| Runes.ToInt32 | bower_components/noto-emoji-iconset/build.go:68 | the int32 truncation inside `string(int64)` is in the int32 range, congruent modulo 2^32, and the identity on int32 values |
| Runes.FromInt64 | bower_components/noto-emoji-iconset/build.go:68 | `string(int64)` always yields a scalar value: the value itself when it is one, U+FFFD otherwise |
| Decoder.DecodeGroups | bower_components/noto-emoji-iconset/build.go:63-69 | the group loop gives one character per group when it succeeds, and an error naming one of the groups when it fails |
| Decoder.DecodeGroupsSpec | bower_components/noto-emoji-iconset/build.go:63-69 | the group loop succeeds exactly when every group is a valid numeral, then with one character per group in order; otherwise it returns the error of the first invalid group |
| Decoder.DecodeGroupsValues | bower_components/noto-emoji-iconset/build.go:63-69 | success iff every group parses, and then the i-th character is the i-th group's value through `string(int64)` |
| Decoder.DecodeGroupsFirstError | bower_components/noto-emoji-iconset/build.go:64-67 | a failure carries the error of a group all of whose predecessors are valid |
| Decoder.UnicodeToEmoji | bower_components/noto-emoji-iconset/build.go:61-71 | empty input fails; success iff every piece is a valid numeral, and then the i-th character is the i-th piece's value through `string(int64)`, one per separator plus one, all scalar values; otherwise the error is that of the first invalid piece |
| Decoder.DecodeFormatted | bower_components/noto-emoji-iconset/build.go:63-69 | the group loop reads back scalar values from their hex writings |
| Decoder.DecodeEncode | bower_components/noto-emoji-iconset/build.go:61-71 | decoding reads back every non-empty sequence of scalar values from its hex groups joined by any non-hex separator |
| Decoder.EmptyGroupRejected | bower_components/noto-emoji-iconset/build.go:62-67 | empty input, a separator at either end or two separators in a row make decoding fail |
| Decoder.DecodeOneGroup | bower_components/noto-emoji-iconset/build.go:61-71 | a separator-free group decodes to its one character |
| Decoder.DecodeTwoGroups | bower_components/noto-emoji-iconset/build.go:61-71 | two groups decode to their two characters in order |
| Decoder.DecodeSingleExample | bower_components/noto-emoji-iconset/build.go:61-71 | `"1f600"` decodes to U+1F600 |
| Decoder.DecodePairExample | bower_components/noto-emoji-iconset/build.go:61-71 | `"0031_fe0f"` decodes to U+0031 U+FE0F |
| Decoder.DecodeBadExample | bower_components/noto-emoji-iconset/build.go:64-66 | `"XYZ"` fails with an error naming `"XYZ"` |
| Decoder.ParseExample0031 | bower_components/noto-emoji-iconset/build.go:64 | leading zeros are accepted: `"0031"` parses to 0x31 |
| Sanitizer.StripNewlines | bower_components/noto-emoji-iconset/build.go:92 | rewrite 1 leaves no line feed, only deletes characters, and changes nothing in text without a line feed |
| Sanitizer.StripNewlinesCRLF | bower_components/noto-emoji-iconset/build.go:86-92 | a carriage return directly before a line feed is deleted with it, wherever the pair stands |
| Sanitizer.StripNewlinesLF | bower_components/noto-emoji-iconset/build.go:86-92 | a line feed without a carriage return before it is deleted alone |
| Sanitizer.StripNewlinesLoneCR | bower_components/noto-emoji-iconset/build.go:86-92 | a carriage return not followed by a line feed is kept |
| Sanitizer.StripNewlinesKeeps | bower_components/noto-emoji-iconset/build.go:92 | rewrite 1 keeps every character other than CR and LF as often as it occurs |
| Sanitizer.StripNewlinesConcat | bower_components/noto-emoji-iconset/build.go:92 | rewrite 1 works piece by piece unless the cut separates a CR from the LF after it |
| Sanitizer.StripTabs | bower_components/noto-emoji-iconset/build.go:93 | rewrite 2 leaves no tab, only deletes characters, and changes nothing in text without a tab |
| Sanitizer.StripTabsKeeps | bower_components/noto-emoji-iconset/build.go:93 | rewrite 2 keeps every other character as often as it occurs |
| Sanitizer.StripTabsConcat | bower_components/noto-emoji-iconset/build.go:93 | rewrite 2 works piece by piece |
| Sanitizer.StripHeader | bower_components/noto-emoji-iconset/build.go:94 | on one-line text, rewrite 3 deletes exactly the prefix through the first `>` after the last `<svg` that has a `>` after it, or nothing when no `<svg` has one; no such `<svg` remains |
| Sanitizer.StripFooter | bower_components/noto-emoji-iconset/build.go:95 | rewrite 4 only deletes characters and changes nothing in text without `</svg>` |
| Sanitizer.StripFooterFirst | bower_components/noto-emoji-iconset/build.go:95 | the scan deletes the first `</svg>` and continues right after it, so with the no-occurrence case the result is fixed on every text |
| Sanitizer.FooterFirstAt | bower_components/noto-emoji-iconset/build.go:95 | for a first `</svg>` at index m, the result is the m characters before it followed by the rewrite of what follows it |
| Sanitizer.StripFooterKeeps | bower_components/noto-emoji-iconset/build.go:95 | rewrite 4 keeps every character outside `</svg>` as often as it occurs |
| Sanitizer.StripFooterOfClosed | bower_components/noto-emoji-iconset/build.go:95 | text without `</svg>` loses exactly the closing tag appended to it |
| Sanitizer.Sanitize | bower_components/noto-emoji-iconset/build.go:92-95 | the clean-up leaves no line feed and no tab and only deletes characters |
| Sanitizer.StripHeaderOfElement | bower_components/noto-emoji-iconset/build.go:94 | on a one-line document, the header rewrite deletes everything through the `>` of its one opening tag |
| Sanitizer.UnwrapElement | bower_components/noto-emoji-iconset/build.go:94-95 | rewrites 3 and 4 turn a one-line element into its content |
| Sanitizer.SanitizeElement | bower_components/noto-emoji-iconset/build.go:92-95 | the clean-up of an element whose content has no `<svg` or `</svg>` is its content, whatever precedes the tag |
| Sanitizer.SanitizeExample | bower_components/noto-emoji-iconset/build.go:92-95 | `<svg xmlns="...">` LF TAB `<path/></svg>` cleans up to `<path/>` |
| Sanitizer.FooterSinglePassExample | bower_components/noto-emoji-iconset/build.go:95 | `</s</svg>vg>` cleans up to `</svg>`: the scan does not look back |
| Records.PointsOfName | bower_components/noto-emoji-iconset/build.go:97 | the name is its seven leading characters, the code-point part and its four trailing characters |
| Records.FileToEmoji | bower_components/noto-emoji-iconset/build.go:97-105 | success iff every `'_'` piece of the code-point part is a valid numeral; then the i-th character is the i-th piece's value through `string(int64)` and the markup is the cleaned-up content, without LF or tab; otherwise the error of the first invalid piece |
| Records.FileNameRoundTrip | bower_components/noto-emoji-iconset/build.go:97-105 | the file named after a non-empty sequence of scalar values, written as four-digit-padded lower-case hex groups joined by `_`, reads back as that sequence with the cleaned content |
| Records.FrameIgnored | bower_components/noto-emoji-iconset/build.go:97 | any seven leading and four trailing characters give the same record |
| Records.BareFrameRejected | bower_components/noto-emoji-iconset/build.go:97-101 | a name with nothing between the frame fails |
| Records.FileExample | bower_components/noto-emoji-iconset/build.go:97-105 | `emoji_u1f600.svg` becomes the record of U+1F600 |
| Records.Kept | bower_components/noto-emoji-iconset/build.go:118-127 | the kept values are at most as many as the outcomes, each a success among them, and every success is kept |
| Records.KeptConcat | bower_components/noto-emoji-iconset/build.go:118-127 | keeping successes distributes over concatenation, so order is preserved |
| Records.KeptAllSuccess | bower_components/noto-emoji-iconset/build.go:118-127 | without failures every outcome is kept at its own position |
| Records.Collect | bower_components/noto-emoji-iconset/build.go:118-127 | every record comes from some file of the listing and every decodable file's record is present |
| Records.CollectConcat | bower_components/noto-emoji-iconset/build.go:118-127 | two listings read one after the other give their records one after the other |
| Records.CollectAllDecoded | bower_components/noto-emoji-iconset/build.go:118-127 | when every file decodes, the i-th record is the i-th file's |
| Records.Partition | bower_components/noto-emoji-iconset/build.go:118-127 | the loop keeps the successes in order and reports exactly the failing positions, increasing, kept plus failed being all |
| Records.ReadEmojis | bower_components/noto-emoji-iconset/build.go:108-130 | the records are those of the decodable files in listing order, and the failed positions are exactly the undecodable files, N-M records for M failures |
| Dictionary.Fold | bower_components/noto-emoji-iconset/build.go:188-198 | a key is in the map iff some visit of it succeeded |
| Dictionary.FoldLastWriter | bower_components/noto-emoji-iconset/build.go:195 | each entry holds the value of the last successful visit of its key |
| Dictionary.FoldSize | bower_components/noto-emoji-iconset/build.go:188-198 | the map has at most as many keys as there were successful visits |
| Dictionary.FailedVisits | bower_components/noto-emoji-iconset/build.go:190-193 | at most one failure per visit, and none exactly when every visit succeeds |
| Dictionary.BuildDictionary | bower_components/noto-emoji-iconset/build.go:183-198 | a short name is a key of the map built from the feed iff some record of it decodes |
| Dictionary.DictionaryEntries | bower_components/noto-emoji-iconset/build.go:188-198 | the dictionary holds exactly the short names of decodable records, each mapped to the text of its last decodable record, a non-empty text of scalar values |
| Dictionary.DictionaryWriter | bower_components/noto-emoji-iconset/build.go:195 | every entry was written by the last decodable record of its name |
| Dictionary.OrderIndependent | bower_components/noto-emoji-iconset/build.go:188 | for a feed whose same-name records agree, every visiting order builds the same dictionary |
| Dictionary.LastWriterWins | bower_components/noto-emoji-iconset/build.go:195 | with two decodable records of one name the one visited last gives the entry |
| Dictionary.SkipUndecodable | bower_components/noto-emoji-iconset/build.go:189-193 | an undecodable record leaves the dictionary unchanged and counts one failure |
| Dictionary.DictionaryExample | bower_components/noto-emoji-iconset/build.go:189-195 | the record `(":grinning:", "1f600")` gives the entry `":grinning:" -> U+1F600` |
| Dictionary.FoldLoop | bower_components/noto-emoji-iconset/build.go:188-198 | the loop builds the map and counts the failures, failures plus keys at most the visits |
| Dictionary.WriteDictionary | bower_components/noto-emoji-iconset/build.go:183-198 | the loop over the feed builds the dictionary and counts the undecodable records, the count being zero exactly when all decode |
| Update.UpdateFile | bower_components/noto-emoji-iconset/build.go:41-51 | the caller regenerates exactly when nothing is left in place; only a forced update deletes, and only what exists; a forced update always regenerates |
| Update.ForcedUpdate | bower_components/noto-emoji-iconset/build.go:43-48 | a forced update leaves nothing in place, regenerates, and deletes iff the path exists |
| Update.LazyUpdate | bower_components/noto-emoji-iconset/build.go:41-51 | without a forced update nothing is deleted and the artefact is regenerated iff the path does not exist; a failed status query counts as existing |

## Left out

- Reading the icon files and the directory listing (`os.Open`, `ReadAll`, `ReadDir`, build.go:76-84, 111-115): the listing is a sequence of name/content pairs, in the order `ReadDir` gives, and an I/O error, which panics in the source, is not modelled.
- The status query and the deletion in `updateFile` (build.go:41-45): the query's outcome is a parameter, the deletion is recorded in the result, and an error from `RemoveAll`, which the source ignores, is not modelled.
- The `git clone` of `updateNotoEmoji` (build.go:53-59), the HTTP download of the feed (build.go:166-175), JSON decoding and encoding (build.go:177-181, 200-204), the templates `writeIconset` and `execTemplate` (build.go:132-154, 206), `execAnalyze` (build.go:217-244) and the flag handling of `main` (build.go:246-260): external programs, network, serialisation and rendering with no decision logic of their own.
- The console messages and the `index` progress counter of the loops (build.go:117-126, 185-197): logging only.
- The feed's outer map and its keys: the records are a sequence in whatever order Go's map iteration yields; the keys are never used by the source.
- Go's `strconv` and runtime packages are library code outside `build.go`: `Strconv.ParseInt` and `Runes.FromInt64` follow Go's implementation of `strconv.ParseInt(s, 16, 64)` (base 16 without a `0x` prefix, no underscores) and of the int-to-string conversion. Where the implementation and the package documentation part, the model takes the implementation: a group whose digits pass 2^64-1 before a non-hex character gets a range error, not the syntax error the documentation names (`Strconv.RangeBeforeSyntax`).
- Decoder.UnicodeToEmoji: the separator is a single character (the source only passes `"_"` and `"-"`); Go's empty-separator split is not modelled.
- Records.FileToEmoji: names shorter than eleven characters are excluded by a precondition, because the slice expression of the source panics on them; names and markup are sequences of characters, not of UTF-8 bytes.
- Sanitizer.StripHeader: stated only for text without line feeds, the only text it receives after rewrite 1; on multi-line text Go's `.` would stop at each line feed.
