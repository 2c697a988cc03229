# HugoIndexData indexer, modelled in Dafny

HugoIndexData walks the `content/post/` directory of a Hugo blog and builds
two JSON files for a client-side keyword search. The page index maps a page
ID (0, 1, 2, ... in visiting order) to the page's metadata: its `pageName`
and the `title`, `date` and `draft` values of its YAML front matter. The
word index maps each indexable word to the set of page IDs that contain it.
A temporary reverse index maps page names to IDs.

This project models the core of `Indexer.java`:

- `JavaStrings` (java_strings.dfy): the `String` operations the indexer uses
  (`trim`, `isBlank`, `substring`, `lastIndexOf`, `split(":", 2)`), with
  their exact character sets and the `StringIndexOutOfBoundsException` of
  `substring`, and lower-casing of ASCII letters.
- `WordFilter` (word_filter.dfy): `include` and `isNumeric`, with the regular
  expression `-?\d+(\.\d+)?` both as the scanner used for computation and as
  a language definition the scanner is proved equal to.
- `FrontMatter` (front_matter.dfy): `getMetadata` and its helpers. The block is
  element 1 of `content.split("(?m)^--- *$", 3)`, with Java's
  MULTILINE line terminators and the empty string left when that element is
  missing; it is split into lines at `\r\n`, `\r` or `\n`; each
  `key: value` line is trimmed, unquoted and offered to `addToMeta`.
  `checkMetadata` becomes the set of warnings it would log.
- `PageIndex` (page_index.dfy): the three maps and `buildPageIndices`,
  `processWord` and `buildWordIndex` as pure updates, with the invariant
  they keep (gapless IDs, the two page maps inverse to each other, every
  posting registered, every indexed word accepted by `include`).
- `PageFiles` (page_files.dfy): `extension` and `pageName` of the visitor.
- `Indexer` (indexer.dfy): `visitFile` and the whole walk, as a fold over the
  sequence of visited files, from empty maps.
- `FrontMatterExample` (front_matter_example.dfy): one page read end to end.
- `Results` and `Sequences`: `Option`/`Result` types and one shared
  sequence lemma.

A Java exception that escapes the walk is an `Err`. The only one the core
can raise is the `StringIndexOutOfBoundsException` that
`removeSurroundingQuotes` throws for a value that is a single `"` or `'`:
`substring(1, 0)`. It is raised outside the `try` in `getMetadata`, so it
ends the whole run and no JSON file is written. The model keeps this
behaviour and proves exactly when it happens.

Strings are `seq<char>`, sequences of Unicode scalar values, so `|s|` counts
code points. Java's `length()` counts UTF-16 code units and is modelled by
`JavaStrings.Utf16Length`, which `include` uses for its length test. Every
other index the indexer computes sits next to an ASCII character (a quote, a
colon, a dot, a delimiter dash or a line break), so slicing at code points
gives the same text as Java's slicing at code units.

## Model

| member | source | states |
|---|---|---|
| JavaStrings.Trim | src/main/java/org/ajames/hugoindexdata/Indexer.java:190-191 | the result is the slice of the input after its prefix of characters up to U+0020 and before such a suffix, it is empty exactly when every character is at most U+0020, and it starts and ends with a character above U+0020 |
| JavaStrings.TrimIdempotent | src/main/java/org/ajames/hugoindexdata/Indexer.java:190-191 | trimming a trimmed key or value again changes nothing |
| JavaStrings.Substring | src/main/java/org/ajames/hugoindexdata/Indexer.java:202 | `substring(begin, end)` succeeds exactly when `0 <= begin <= end <= length`, gives the characters of that range, and otherwise throws with those three numbers |
| JavaStrings.LastIndexOf | src/main/java/org/ajames/hugoindexdata/Indexer.java:262 | the result is -1 exactly when the character is absent, and otherwise an index holding it with no later occurrence |
| JavaStrings.SplitAtFirst | src/main/java/org/ajames/hugoindexdata/Indexer.java:188 | `split(":", 2)` gives one piece exactly when there is no colon, otherwise two pieces around a colon with no colon in the first piece |
| JavaStrings.SplitAtFirstOf | src/main/java/org/ajames/hugoindexdata/Indexer.java:188 | whichever colon is the first one, splitting gives the text before and after it |
| WordFilter.NumericIff | src/main/java/org/ajames/hugoindexdata/Indexer.java:144-147 | the scanner used for `isNumeric` accepts exactly the strings of `-?\d+(\.\d+)?` over ASCII digits |
| WordFilter.Include | src/main/java/org/ajames/hugoindexdata/Indexer.java:135-142 | a word is kept exactly when it is at least three UTF-16 code units long (a character above U+FFFF counts twice) or is "h2"/"H2", and it is not a number of the form `-?\d+(\.\d+)?` |
| WordFilter.ShortLowerH2 | src/main/java/org/ajames/hugoindexdata/Indexer.java:137 | among words shorter than three UTF-16 code units, only "h2" and "H2" lower-case to "h2" |
| WordFilter.IncludeExamples | src/main/java/org/ajames/hugoindexdata/Indexer.java:134-142 | "cdi", "h2", "H2" and "42nd" are kept |
| WordFilter.IncludeFlag | src/main/java/org/ajames/hugoindexdata/Indexer.java:135-142 | the flag emoji made of two regional-indicator characters, four UTF-16 code units, is kept |
| WordFilter.ExcludeNumbers | src/main/java/org/ajames/hugoindexdata/Indexer.java:134-147 | "42" and "-3.14" are dropped as numbers |
| WordFilter.ExcludeShort | src/main/java/org/ajames/hugoindexdata/Indexer.java:135-137 | "an" and "" are dropped as too short |
| FrontMatter.FindDelimiter | src/main/java/org/ajames/hugoindexdata/Indexer.java:182 | the search yields the leftmost place at or after the start index where `^--- *$` matches in MULTILINE mode, or none when there is no such place |
| FrontMatter.FrontMatterBlock | src/main/java/org/ajames/hugoindexdata/Indexer.java:180-185 | a page in which `^--- *$` matches nowhere has an empty front matter, and the block is never longer than the page |
| FrontMatter.BlockBetweenFirstTwo | src/main/java/org/ajames/hugoindexdata/Indexer.java:180-185 | for any page, when the first delimiter match is followed by another, the block is exactly the text between the end of the first match and the start of the next one |
| FrontMatter.BlockAfterOnlyOne | src/main/java/org/ajames/hugoindexdata/Indexer.java:180-185 | for any page, when no delimiter match starts after the end of the first one, the block is everything after the first match, that is after its `---` and trailing spaces, starting with that line's line terminator, or empty when the match ends the page |
| FrontMatter.FrontMatterBlockBetween | src/main/java/org/ajames/hugoindexdata/Indexer.java:180-185 | for a page that opens with an unpadded `---` line and `\n`, then front matter without a `---` line, `\n`, a second unpadded `---` line and a body that is empty or starts with a line terminator, the block is exactly the front matter with the two `\n` around it |
| FrontMatter.FrontMatterBlockAfterOnly | src/main/java/org/ajames/hugoindexdata/Indexer.java:180-185 | for a page that opens with an unpadded `---` line and has no other `---` line, the block is everything after the `---`, starting with that line's line break |
| FrontMatter.SplitLines | src/main/java/org/ajames/hugoindexdata/Indexer.java:186 | splitting gives at least one line and no line contains `\r` or `\n` |
| FrontMatter.SplitJoinLines | src/main/java/org/ajames/hugoindexdata/Indexer.java:186 | splitting lines joined with any mix of `\n`, `\r\n` and `\r` gives the lines back, unless a `\r` and an empty line and a `\n` would read as one `\r\n` |
| FrontMatter.ParseEntryOf | src/main/java/org/ajames/hugoindexdata/Indexer.java:188-190 | a line `key:value` with a colon-free key gives the trimmed key and the whole value, colons in the value included, and is skipped when key or value is blank |
| FrontMatter.RemoveSurroundingQuotes | src/main/java/org/ajames/hugoindexdata/Indexer.java:199-206 | it throws `substring(1, 0)` exactly on a lone `"` or `'`; a value wrapped in a matching pair loses exactly that pair; any other value is returned unchanged |
| FrontMatter.QuoteRoundTrip | src/main/java/org/ajames/hugoindexdata/Indexer.java:199-206 | quoting any text with `"` or `'` and removing the quotes gives the text back |
| FrontMatter.AddToMeta | src/main/java/org/ajames/hugoindexdata/Indexer.java:208-213 | `title`, `date` and `draft` are stored, overwriting an earlier value; every other key is dropped and no other entry changes |
| FrontMatter.ReadLine | src/main/java/org/ajames/hugoindexdata/Indexer.java:188-192 | reading one line throws exactly when its trimmed value is a lone quote, and a line that is not `key: value` changes nothing |
| FrontMatter.CollectEntriesFails | src/main/java/org/ajames/hugoindexdata/Indexer.java:186-194 | the loop over the lines throws exactly when some line's trimmed value is a lone quote |
| FrontMatter.CollectEntriesOverlays | src/main/java/org/ajames/hugoindexdata/Indexer.java:186-194 | a completed loop gives each recognised key the value of the last line that sets it, keeps every other entry it started with, and adds nothing else |
| FrontMatter.TrailingEmptyLinesIgnored | src/main/java/org/ajames/hugoindexdata/Indexer.java:186-194 | empty lines at the end of the block do not change the loop's outcome, so Java's removal of trailing empty strings does not matter |
| FrontMatter.GetMetadata | src/main/java/org/ajames/hugoindexdata/Indexer.java:175-197 | `getMetadata` fails exactly when some front-matter line's trimmed value is a lone quote; otherwise the map holds `pageName` with the given name, only keys among `pageName`, `title`, `date` and `draft`, and each recognised key exactly when some line sets it, with the last such value |
| FrontMatter.EntryWarningsIff | src/main/java/org/ajames/hugoindexdata/Indexer.java:219-226 | the loop over the entries logs the blank-value warning exactly when some value is blank, the invalid-draft warning exactly when the `draft` value is neither `true` nor `false`, and never the incomplete-metadata warning |
| FrontMatter.IncompleteIffMissingKey | src/main/java/org/ajames/hugoindexdata/Indexer.java:215-218 | for metadata read from a page, the incomplete-metadata warning is raised exactly when one of `title`, `date` and `draft` is set by no line of the front matter |
| FrontMatter.BlankValueIff | src/main/java/org/ajames/hugoindexdata/Indexer.java:219-222 | for metadata read from a page, the blank-value warning is logged exactly when the page name is blank or the last value some line gives `title`, `date` or `draft` is blank |
| FrontMatter.InvalidDraftIff | src/main/java/org/ajames/hugoindexdata/Indexer.java:223-226 | for metadata read from a page, the invalid-draft warning is logged exactly when some line sets `draft` and the last such value is neither `true` nor `false` |
| FrontMatter.CompleteIffAllKeys | src/main/java/org/ajames/hugoindexdata/Indexer.java:216 | a metadata map with `pageName` and only known keys has four entries exactly when it has all of `title`, `date` and `draft` |
| FrontMatterExample.DelimiterLastLine | src/main/java/org/ajames/hugoindexdata/Indexer.java:180-185 | in the page `abc\n---` the last line is a delimiter line, and the block is empty |
| FrontMatterExample.ExamplePage | src/main/java/org/ajames/hugoindexdata/Indexer.java:168-197 | a page with a `---` line, the lines `title: 'AdFind'` and `draft: false`, a `---` line and a body yields `pageName`, the title without its quotes and `draft`, and no `date` |
| PageIndex.EmptyValid | src/main/java/org/ajames/hugoindexdata/Indexer.java:49-60 | the three empty maps satisfy the invariant |
| PageIndex.RegisterPage | src/main/java/org/ajames/hugoindexdata/Indexer.java:158-166 | a known page name changes nothing; a new one gets the number of pages registered so far as its ID, in both maps, with its metadata; existing names keep their IDs and the word index is untouched |
| PageIndex.RegisterPreservesValid | src/main/java/org/ajames/hugoindexdata/Indexer.java:158-166 | registering a page keeps the IDs gapless and the two page maps inverse to each other |
| PageIndex.RegisterKeepsPages | src/main/java/org/ajames/hugoindexdata/Indexer.java:158-166 | with gapless IDs, registering never overwrites the metadata of an already registered ID |
| PageIndex.RegisterIdempotent | src/main/java/org/ajames/hugoindexdata/Indexer.java:161-165 | registering a page name a second time, with any metadata, leaves the first registration in place |
| PageIndex.ProcessWord | src/main/java/org/ajames/hugoindexdata/Indexer.java:122-132 | a word `include` rejects changes nothing; otherwise exactly the posting of that word for that page is added, and the page maps are untouched |
| PageIndex.ProcessWordIdempotent | src/main/java/org/ajames/hugoindexdata/Indexer.java:122-132 | recording the same word for the same page twice is the same as once |
| PageIndex.ProcessWordCommutes | src/main/java/org/ajames/hugoindexdata/Indexer.java:122-132 | the order in which words are recorded does not matter |
| PageIndex.ProcessWordPreservesValid | src/main/java/org/ajames/hugoindexdata/Indexer.java:122-132 | recording a word for a registered page keeps the invariant |
| PageIndex.ProcessWordsSpec | src/main/java/org/ajames/hugoindexdata/Indexer.java:153-155 | after the loop over a page's words, a word is posted for an ID exactly when it was before, or it is one of the words, `include` accepts it and the ID is the page's |
| PageIndex.ProcessWordsPreservesValid | src/main/java/org/ajames/hugoindexdata/Indexer.java:153-155 | the loop over a registered page's words keeps the invariant |
| PageIndex.BuildWordIndex | src/main/java/org/ajames/hugoindexdata/Indexer.java:149-156 | indexing a page fails exactly when reading its metadata fails, and otherwise registers its page name |
| PageIndex.BuildWordIndexSpec | src/main/java/org/ajames/hugoindexdata/Indexer.java:149-156 | indexing a page adds exactly its page name to the registry, keeps every existing ID, gives a new page the next ID and its own metadata, and adds exactly the page's accepted words under the page's ID |
| PageIndex.BuildWordIndexKeepsPages | src/main/java/org/ajames/hugoindexdata/Indexer.java:149-156 | with gapless IDs, indexing a page changes no stored metadata |
| PageIndex.BuildWordIndexPreservesValid | src/main/java/org/ajames/hugoindexdata/Indexer.java:149-156 | indexing a page keeps the invariant |
| PageFiles.Extension | src/main/java/org/ajames/hugoindexdata/Indexer.java:260-267 | when the file name has a dot after its first character, the extension is the whole suffix after the last dot, holds no dot and is shorter than the name; when it has none, the extension is empty |
| PageFiles.PageName | src/main/java/org/ajames/hugoindexdata/Indexer.java:269-273 | the page name exists exactly when the file name has at least three characters, and it is the file name without its last three |
| PageFiles.MarkdownPageName | src/main/java/org/ajames/hugoindexdata/Indexer.java:245-246 | a file with extension `md` has a non-empty page name, and that name followed by `.md` is the file name |
| PageFiles.MarkdownFileName | src/main/java/org/ajames/hugoindexdata/Indexer.java:260-273 | a name followed by `.md` is a page exactly when the name is not empty, and its page name is that name |
| PageFiles.HiddenMarkdownIgnored | src/main/java/org/ajames/hugoindexdata/Indexer.java:260-267 | a file called `.md` has no extension and is not a page |
| Indexer.VisitFile | src/main/java/org/ajames/hugoindexdata/Indexer.java:241-254 | a file that is not a regular `.md` file leaves the maps unchanged |
| Indexer.VisitFileFails | src/main/java/org/ajames/hugoindexdata/Indexer.java:241-254 | visiting a file throws exactly when it is a page whose metadata throws |
| Indexer.BuildFromFails | src/main/java/org/ajames/hugoindexdata/Indexer.java:241-254 | a walk throws exactly when some visited page's metadata throws, wherever it comes in the order |
| Indexer.BuildFromNames | src/main/java/org/ajames/hugoindexdata/Indexer.java:241-254 | a successful walk registers exactly the page names of the visited pages on top of those already known |
| Indexer.BuildFromFirst | src/main/java/org/ajames/hugoindexdata/Indexer.java:241-254 | a page name new to the walk keeps the metadata of the first file with that name |
| Indexer.BuildFromPostings | src/main/java/org/ajames/hugoindexdata/Indexer.java:241-254 | a word is posted for an ID after the walk exactly when it was before, or some visited page whose name has that ID contains the word and `include` accepts it |
| Indexer.BuildPages | src/main/java/org/ajames/hugoindexdata/Indexer.java:68-85 | the run from empty maps fails exactly when some page's front matter has a lone-quote value; otherwise the maps satisfy the invariant and register exactly the page names of the page files |
| Indexer.BuildFirstMetadata | src/main/java/org/ajames/hugoindexdata/Indexer.java:68-85 | each page is stored with the metadata of the first file that has its page name |
| Indexer.BuildPostings | src/main/java/org/ajames/hugoindexdata/Indexer.java:68-85 | in the final word index, a word is posted for an ID exactly when some page file whose name has that ID contains it and `include` accepts it |

## Left out

- The Lucene analyzer (`transform`, ICU tokenizer, lower-casing, folding and stop words): each file carries its token list as data, standing for `transform(content).split(" ")`. An empty analyzer output splits as `[""]`, which `include` drops, so it is covered.
- Reading files, walking the directory tree and writing the JSON files with Gson: the walk is a sequence of visited files in visiting order, and the result is the three maps. I/O errors are not modelled.
- Logging, including the message logged when the front matter cannot be located; only the empty block that results is modelled.
- FrontMatter.MetadataWarnings: the invalid-date warning of `checkMetadata` is not modelled, because it relies on `ZonedDateTime.parse`.
- WordFilter.Include: lower-casing is modelled on ASCII letters only; for words shorter than three UTF-16 code units this gives the same answer as `String.toLowerCase` when compared with "h2".
- FrontMatter.SplitLines: Java's removal of trailing empty strings is not modelled; TrailingEmptyLinesIgnored shows it cannot change the metadata.
- PageIndex.RegisterPage: requires a `pageName` entry; the only caller passes metadata from `getMetadata`, which always sets it, so the `null` key case is not modelled.
- JavaStrings.Substring: begin, end and the length in the exception count characters, not UTF-16 code units; the indexer only slices next to ASCII quotes, where the two agree, and the one exception it can raise has begin 1, end 0 and length 1 either way.
- PageFiles.PageName: the length test counts characters, not UTF-16 code units; the two differ only for names of fewer than three characters but at least three code units, and such a name never has extension `md` (that needs a dot after the first character and then `md`, four ASCII characters at least), so no page is affected. The slice removes the ASCII `.md`, three characters and three code units alike.
- FrontMatter.FrontMatterBlockBetween: covers only a page whose two delimiter lines are unpadded `---` lines and whose front matter is set off from them by `\n`, so pages using `\r\n` or `\r` there, or a padded delimiter line, are not covered; BlockBetweenFirstTwo states the block for any page with two delimiter matches.
- FrontMatter.FrontMatterBlockAfterOnly: covers only a page that opens with an unpadded `---` line; BlockAfterOnlyOne states the block for any page with a single delimiter match.
- Page IDs are unbounded naturals: the `Integer` overflow after 2^31 pages is not modelled.

## Behaviour worth knowing

- A delimiter line is `---` followed by spaces only; a tab or other white space after the dashes makes it an ordinary line.
- A page with a single `---` line has as its block everything after the `---` and its trailing spaces, starting with that line's line break. The block is empty for a page with no delimiter line, and for a page whose single delimiter line ends the page, such as `abc\n---`.
- Keys and values are tested with `isBlank` before `trim`, and the two use different character sets, so a value made only of control characters below U+0009 is kept and trims to the empty string.
- The page name is the file name without its last three characters, which for a page is always its `.md`.
