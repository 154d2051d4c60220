# GitUtil text interpretation, modelled in Dafny

`GitUtil.rb` wraps the `git` command line. Most of it builds a command
string and runs it. This project models the part that interprets the
resulting text:

- **mbox header parsing.** `_parseMbox` reads one line of
  `git format-patch` output into a commit record. `parsePatchFromBody`
  strips each line and folds `_parseMbox` over them until a line says stop
  (module `Mbox`).
- **numstat parsing.** `_parseNumStatOneLine` reads one
  `git log --numstat` line into a file name and two counts.
  `parseNumStatPerFile` sums those counts per file.
  `parseNumStatPerAuthor` and `_parseAuthor` sum them per author, taking
  the author from the marker line `getLogNumStat` prints before each commit
  (module `NumStat`, with the map arithmetic in `Stats`).
- **commit id extraction.** `isCommitId?`, `ensureSha1` and `ensureShas`
  find the leftmost match of `/[0-9a-f]{5,40}/` (module `Sha`).
- **key/value lookup.** `_getValue` and `_getValueFromLines` take the
  stripped text after the first occurrence of a key (module `KeyValue`).

Supporting modules:

- `Text` gives Ruby's string primitives: `strip`, `split(" ")`, `index`,
  `start_with?`, and the first field of `split("|")`.
- `RubyInt` gives `String#to_i`.
- `Wrappers` gives `Option`, for Ruby's `nil`, and `Result`, for the one
  exception the parsers let escape.

Every operation is a pure function over strings and sequences. Ruby's
in-place mutation (`strip!`, `<<`, hash updates) becomes a new value.

A Ruby hash of per-file or per-author counts is a `map<string, Stat>`.
Both numstat aggregators are written as the loops the source runs. They
are then proved equal to one accumulation over the sequence of accepted
records. Key sets, per-key sums, order independence and totals are stated
once, about that accumulation.

Three behaviours of the code worth noting:

- A numstat line is accepted when its token count is 3 modulo 4, not only
  when it is exactly 3. The fourth token of each group resets the counter
  (GitUtil.rb:149-151), so a 7-token line is accepted with its last three
  tokens.
- Filenames in the diffstat are the trimmed text before the first `|`. The
  code does not shorten `.../` paths and does not parse line counts
  (GitUtil.rb:328-330).
- A diffstat line made only of `|` characters makes `split("|")` return an
  empty array, and `.at(0).strip` raises. `Mbox.Step` returns
  `Failure(BarOnlyLine(line))` for it.

## Model

Below, a "bar" is the vertical-bar character that separates a diffstat
line's file name from its counts.

| member | source | states |
|---|---|---|
| `Mbox.Header` | GitUtil.rb:301-324 | the line falls through to the body branch exactly when no header branch claims it; the branches' effects and their priority are stated through `Mbox.Step` by `Mbox.StepClaimedField`, `Mbox.StepSeparator`, `Mbox.StepFields`, `Mbox.StepTitle` and `Mbox.StepFiles` |
| `Mbox.Step` | GitUtil.rb:299-338 | one call of `_parseMbox`: a header branch if one claims the line, else the body branch; its contract is stated by `Mbox.StepClaimedField`, `Mbox.StepSeparator`, `Mbox.StepFields`, `Mbox.StepTitle`, `Mbox.StepFiles` and `Mbox.StepStop` |
| `Mbox.Body` | GitUtil.rb:325-335 | the body branch fails exactly on a bar-only line once the diffstat has begun; it stops exactly on `diff --git` or, once the diffstat has begun, on a line without a bar; a line with a bar appends itself and its filename; nothing else changes and the lists stay consistent |
| `Mbox.StepFields` | GitUtil.rb:301-321 | an unset id/author/date/Change-Id takes the value of a line with its prefix (the second word for `From `, the text after the prefix otherwise); a set field never changes; a Change-Id line sets `changedId` only while the title is not pending |
| `Mbox.StepClaimedField` | GitUtil.rb:301-321 | a line that claims an unset header field (a Change-Id line only while the title is not pending) sets that field to its captured value, changes nothing else and does not stop |
| `Mbox.StepSeparator` | GitUtil.rb:322-324 | a `---` line that reaches its branch, before the lists exist and with no title pending, starts both lists empty, changes nothing else and does not stop |
| `Mbox.StepTitle` | GitUtil.rb:307-318 | the title changes only from a `Subject: ` line while unset, or to the next line while it is `""`; that next line becomes the title even when it is a `Change-Id:` or `---` line |
| `Mbox.StepFiles` | GitUtil.rb:322-331 | the lists start empty at `---`; afterwards they only grow; `modifiedFilenames` stays `[]` while `modifiedFiles` is nil |
| `Mbox.StepStop` | GitUtil.rb:325-335 | the stop condition as an if-and-only-if; a stop line without a bar leaves the record unchanged; the only failure is a bar-only diffstat line; a second `---` stops without resetting the lists |
| `Mbox.SubjectTitle` | GitUtil.rb:307-317 | without `[PATCH` the title is the text after `Subject: ` as it stands; otherwise it is taken from after the first `[PATCH` |
| `Mbox.AfterBracket` | GitUtil.rb:311-315 | the trimmed text after the first `]`, or the whole text trimmed when there is no `]` |
| `Mbox.SubjectDropsTag` | GitUtil.rb:307-317 | a leading `[PATCH n/m] ` tag is dropped and the title after it is kept |
| `Mbox.Run` | GitUtil.rb:343-346 | the loop of `parsePatchFromBody`: strip each line, step, and break at the first stop; its contract is stated by `Mbox.RunStopsAt`, `Mbox.RunAppend` and the `Mbox.RunKeeps` lemmas |
| `Mbox.ParsePatchFromBody` | GitUtil.rb:340-349 | an empty body gives the initial record (all fields nil, no filenames); every successful parse has consistent diffstat lists |
| `Mbox.RunStopsAt` | GitUtil.rb:343-346 | after lines that neither stop nor fail, a line whose step stops or fails ends the run with that step's result, whatever follows; a line whose step goes on hands its record to the rest |
| `Mbox.RunAppend` | GitUtil.rb:343-346 | no line after a stop line or a failure affects the result; otherwise parsing continues from the record reached |
| `Mbox.RunKeepsFields` | GitUtil.rb:301-321 | over any lines, a set id/author/date/Change-Id keeps its value |
| `Mbox.RunKeepsTitle` | GitUtil.rb:307-318 | over any lines, a non-empty title is never overwritten |
| `Mbox.RunKeepsFiles` | GitUtil.rb:322-331 | over any lines, the diffstat lists stay equally long, with each filename the trimmed text before its line's first bar; once started they only grow |
| `Mbox.RunNoMatch` | GitUtil.rb:301-321 | a field whose prefix no line carries stays nil |
| `Mbox.RunNoSeparator` | GitUtil.rb:322-324 | without a `---` line the lists are never started |
| `Mbox.ParseNoChangeId` | GitUtil.rb:319-320 | a body without a `Change-Id: ` line parses to a nil `changedId` |
| `Mbox.ParseNoSeparator` | GitUtil.rb:322-324 | a body without `---` parses to nil `modifiedFiles` and no filenames |
| `Mbox.FromLineHasId` | GitUtil.rb:301-303 | a stripped `From ` line always has a second word, so it always sets `id` |
| `Mbox.FirstMatchWins` | GitUtil.rb:301-321 | the first line that reaches the parser with a field's prefix sets that field in the final record (for Change-Id, unless the title is pending then) |
| `Text.Strip` | GitUtil.rb:344 | the result is the middle of the input, flanked only by whitespace, and neither starts nor ends with whitespace |
| `Text.Words` | GitUtil.rb:133 | every element is a non-empty run of non-whitespace; the result is empty exactly when the input is all whitespace |
| `Text.WordsOfWord` | GitUtil.rb:133 | a single word splits into itself |
| `Text.WordsSplit` | GitUtil.rb:133 | a whitespace character splits the text around it: the words of the whole are the words before it followed by the words after it |
| `Text.SplitBarHead` | GitUtil.rb:330 | nil exactly when the line is made only of bars, otherwise the text before the first bar |
| `Text.IndexOf` | GitUtil.rb:259 | the first occurrence at or after the start index, nil when there is none |
| `Text.IndexOfChar` | GitUtil.rb:191-193 | the first index at or after the start holding the character, nil when there is none |
| `Text.IndexOfCharAgrees` | GitUtil.rb:191-193 | searching for a character agrees with searching for the one-character string |
| `RubyInt.ToI` | GitUtil.rb:141-144 | `to_i` in base 10: whitespace, a sign, an optional `0d` prefix, then digits with single underscores; its contract is stated by the `RubyInt.ToI` lemmas below |
| `RubyInt.ToIOfDecimal` | GitUtil.rb:141-144 | `to_i` reads back every decimal numeral |
| `RubyInt.ToIOfNegativeDecimal` | GitUtil.rb:141-144 | a leading `-` negates the numeral after it |
| `RubyInt.ToIOfPrefixedDecimal` | GitUtil.rb:141-144 | the `0d` radix prefix is skipped before the digits |
| `RubyInt.ToIOfPositiveDecimal` | GitUtil.rb:141-144 | a leading `+` leaves the numeral after it as it is |
| `RubyInt.ToISkipsSpace` | GitUtil.rb:141-144 | leading whitespace is skipped |
| `RubyInt.ToIOfUnderscored` | GitUtil.rb:141-144 | the digits on both sides of a single underscore read as one number |
| `RubyInt.DigitRunStops` | GitUtil.rb:141-144 | the digits end at the first character that is neither a digit nor an underscore followed by a digit |
| `RubyInt.ToIOfDecimalThen` | GitUtil.rb:141-144 | text after a numeral is ignored: the numeral's value is read, unless a lone `0` is followed by `d` or `D` and a digit, which is the radix prefix |
| `RubyInt.ToINoDigits` | GitUtil.rb:141-144 | a count without digits, whatever signs and spaces it holds, reads as 0 |
| `RubyInt.ToIOfDash` | GitUtil.rb:141-144 | the `-` numstat prints for a binary file's counts reads as 0 |
| `NumStat.ScanTokensState` | GitUtil.rb:134-154 | after n tokens the counter is n mod 4, and the fields of the current group of four hold that group's tokens |
| `NumStat.ParseNumStatOneLine` | GitUtil.rb:124-165 | `_parseNumStatOneLine`: skip marker lines, strip, split and scan the tokens; its contract is stated by `NumStat.ParseNumStatOneLineSpec` |
| `NumStat.ParseNumStatOneLineSpec` | GitUtil.rb:124-165 | a marker line gives `("", 0/0)`; otherwise a line is accepted iff its token count is 3 mod 4, with its last three tokens as counts and name; a rejected line has zero counts |
| `NumStat.ParseNumStatPerFile` | GitUtil.rb:167-187 | `parseNumStatPerFile` as the loop the code runs; its contract is stated by `NumStat.PerFileEntries` and `NumStat.PerFileOrderIndependent` |
| `NumStat.PerFileFromIsAccumulate` | GitUtil.rb:167-187 | the per-file loop equals accumulating the accepted records |
| `NumStat.PerFileEntries` | GitUtil.rb:167-187 | the per-file map has exactly the accepted file names as keys, each with the sum of its records' counts |
| `NumStat.PerFileOrderIndependent` | GitUtil.rb:167-187 | reordering the lines does not change the per-file map |
| `NumStat.ParseAuthor` | GitUtil.rb:189-199 | `_parseAuthor` with its two `index` calls; its contract is stated by `NumStat.ParseAuthorSpec` |
| `NumStat.ParseAuthorSpec` | GitUtil.rb:189-199 | the author is the text between the first `:` at or after `separator.length+1` and the next `:`, `""` when either is missing; it never contains `:` |
| `NumStat.MarkerAuthor` | GitUtil.rb:189-199 | a marker line in the `separator:hash:name:subject` shape `getLogNumStat` asks git for starts with the separator and yields `name`, when hash and name hold no `:` |
| `NumStat.ParseNumStatPerAuthor` | GitUtil.rb:201-225 | `parseNumStatPerAuthor` as the loop the code runs, with the author starting at `""`; its contract is stated by `NumStat.MarkerNamesAuthor`, `NumStat.PerAuthorEntries` and `NumStat.AuthorTotalsEqualFileTotals` |
| `NumStat.PerAuthorFromIsAccumulate` | GitUtil.rb:201-225 | the per-author loop equals accumulating the records filed under the latest marker's author |
| `NumStat.MarkerBlock` | GitUtil.rb:205-221 | while an author is in effect, a block of lines without a marker adds the per-file total of its accepted lines to that author's entry, and nothing when it has none |
| `NumStat.MarkerNamesAuthor` | GitUtil.rb:205-221 | a marker line naming an author files the block after it, up to the next marker, under that author whatever author came before: that author's entry grows by the block's per-file total |
| `NumStat.PerAuthorEntries` | GitUtil.rb:201-225 | the per-author map has exactly the authors some accepted record is filed under, each with its sum; `""` is never a key |
| `NumStat.UnattributedPrefix` | GitUtil.rb:203-211 | while the author is `""`, lines before the first marker add nothing, whatever follows them |
| `NumStat.PerAuthorDropsUnattributed` | GitUtil.rb:203-211 | the lines before the first marker line are ignored: dropping them leaves the per-author map unchanged, and on their own they give an empty map |
| `NumStat.NamelessMarkerDrops` | GitUtil.rb:189-211 | a marker line that names no author drops every record up to the next marker, whatever the author was before it |
| `NumStat.AuthorTotalsEqualFileTotals` | GitUtil.rb:167-225 | when every record follows a marker naming an author, the per-author counts sum to the per-file counts |
| `Stats.AddStat` | GitUtil.rb:174-182 | adding a record inserts or sums that key and leaves every other key alone |
| `Stats.AccumulateEntries` | GitUtil.rb:174-182 | accumulation keys are the map's keys plus the records' keys, with the per-key sums added |
| `Stats.AccumulatePermutation` | GitUtil.rb:174-182 | accumulation from an empty map does not depend on record order |
| `Stats.AccumulateTotal` | GitUtil.rb:174-182 | accumulation adds the records' total to the map's total |
| `Sha.EnsureSha1` | GitUtil.rb:29-32 | a match exists iff some 5-character hex window exists; the result is the leftmost, longest (at most 40) lowercase-hex match |
| `Sha.IsCommitId` | GitUtil.rb:25-27 | `isCommitId?` as one pass counting consecutive hex digits; its contract is stated by `Sha.IsCommitIdIffEnsureSha1` |
| `Sha.IsCommitIdIffEnsureSha1` | GitUtil.rb:25-32 | `isCommitId?` holds iff `ensureSha1` finds a match |
| `Sha.EnsureSha1IsHexSubstring` | GitUtil.rb:29-32 | a match is a lowercase-hex substring of 5 to 40 characters |
| `Sha.EnsureSha1Idempotent` | GitUtil.rb:29-32 | extracting from an extracted id returns it unchanged |
| `Sha.EnsureShas` | GitUtil.rb:34-41 | one result per input, in order, each `ensureSha1` of its input |
| `KeyValue.GetValue` | GitUtil.rb:256-265 | nil iff the key does not occur; otherwise the stripped text after its first occurrence |
| `KeyValue.GetValueFromLines` | GitUtil.rb:267-273 | the value from the first line holding the key, `""` when none does |
| `KeyValue.GetValueFromLinesIgnoresLater` | GitUtil.rb:267-273 | lines after the first one holding the key do not change the value |
| `KeyValue.GetValueExample` | GitUtil.rb:256-265 | `_getValue("author hidenorly", "author")` is `"hidenorly"` |

## Left out

- Command builders and runners are not modelled: they shell out to `git`
  through `ExecUtil`, which is not part of this model, or ask the file system
  through Ruby's `File.directory?` and `File.exist?` (GitUtil.rb:21-23,
  44-122, 228-254, 275-297).
- `StrUtil.ensureUtf8` (GitUtil.rb:344) is not part of this model; it is
  taken as the identity.
- `isSamePatch?` and `parsePatch` are called from TestGitUtil.rb and
  list-up-patch.rb but are not defined in this version of GitUtil.rb, so
  they are not part of this model.
- The command-line scripts `list-up-patch.rb` and `repo-gap-enumerater.rb`
  are not modelled: they parse options, walk manifests and directories and
  run tasks on a thread pool. `repo-gap-enumerater.rb` writes patch files
  with `git format-patch`; `list-up-patch.rb` reads them with `parsePatch`
  and writes a report.
- `_parseNumStatOneLine` mutates its caller's line with `strip!`
  (GitUtil.rb:132). The model returns values, and no caller reads the line
  again.
- `_parseNumStatOneLine`, `parseNumStatPerFile` and `parseNumStatPerAuthor`
  default their separator to `"#####"` (GitUtil.rb:124, 167, 201). The model
  takes the separator as an explicit parameter of each.
- `_parseAuthor`'s own default separator is `"#####}"` (GitUtil.rb:189),
  one character longer than the numstat default. Its only caller always
  passes a separator, so the model has no default.
- `to_s` on non-strings (GitUtil.rb:26, 30, 258) is not modelled: inputs are
  strings. On a string it is the identity.
- `Text.Strip` trims ASCII whitespace. It does not trim the NUL character,
  which Ruby's `strip` also removes.
- `RubyInt.ToI` models `to_i` without an argument, which reads base 10.
  Leading whitespace, a sign, the `0d`/`0D` prefix base 10 allows and single
  `_` between digits are modelled. The other radix prefixes (`0x`, `0b`,
  `0o`) are not read in base 10, so a `0` before them is the whole number.
- Encodings are not modelled: strings are sequences of characters, and
  indices count characters as Ruby's do.
