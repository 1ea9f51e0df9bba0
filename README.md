# A verified model of the document search engine's core

The system crawls government web sites for documents. It extracts clean
text and a title from each document. It builds an inverted index of the
words over HBase and answers keyword searches page by page. This project
models four parts of it in Dafny and proves properties of the model.

- **Extraction** (`src/etl/data_extractor.py`):
  - the format handlers for DOCX, spreadsheet, plain text and legacy Word files;
  - the DOCX title scan;
  - the segment merger;
  - the noise cleaner;
  - the filename scorer;
  - title resolution;
  - the tokenizer's filter;
  - `DocumentPipeline.run`;
  - the batch driver's url-or-path de-duplication.
- **Inverted index** (`src/mapreduce/HBaseInvertedIndex.java`): the job's mapper and reducer.
  - The mapper counts the whitespace tokens of one row and emits one `url:tc:tt:cc:ct` value per word.
  - The reducer parses those values back into one `Put` per document.
- **Search** (`src/web/search_engine.py`): `SearchEngine.search`. It extracts the `p:` columns of the keyword's index row, ranks them by score, cuts out one page and attaches each hit's document fields.
- **Crawler bookkeeping** (`src/crawler/spider.py`):
  - how a saved file is named;
  - how the metadata list grows on a download;
  - which page links are followed;
  - how `post_process_data` cleans the list.

Modules, one per component:

| Module | Role |
|---|---|
| `Wrappers`, `Chars`, `Strings`, `PathNames`, `Patterns` | the shared vocabulary |
| `NoiseCleaner`, `SegmentMerger`, `FilenameTitle`, `Tokenizer`, `FormatParsers`, `Extraction` | extraction |
| `Dedup` | the keep-first-per-key scan that the batch driver and the crawler both use |
| `InvertedIndex` | the index job |
| `SearchEngine` | search |
| `Spider` | crawler bookkeeping |

How each kind of source code is modelled:

- **Loops that update variables** are methods with loop invariants. Each is proved equal to a specification function, and the properties are lemmas about that function.
- **The objects whose fields change** are `TextTokenizer`, `DocumentPipeline` and `Crawler`. Each is a class, and its methods state the new state.
- **Outside collaborators** are parameters. These are:
  - the segmenter and part-of-speech tagger (`jieba`);
  - the file system;
  - the parsing libraries;
  - the HBase tables;
  - `urljoin`;
  - the test whether a file already exists.

Where the code and the documentation disagree, the model follows the
code. None of the points below changes a result the documentation
describes:

- The code re-raises an unsupported extension, like every handler error, as a `RuntimeError` (`data_extractor.py:178-195`).
- The code checks a missing file before extraction starts (`data_extractor.py:158-159`).

## Model

| member | source | states |
|---|---|---|
| `NoiseCleaner.NormaliseParens` | src/etl/data_extractor.py:210 | both full-width parentheses become ASCII ones, length is kept |
| `NoiseCleaner.RemoveNoise` | src/etl/data_extractor.py:205-212 | the cleaner never lengthens its input |
| `NoiseCleaner.ReplaceMakesNoPair` | src/etl/data_extractor.py:208 | after replacing runs of two or more, no two adjacent characters of that class remain |
| `NoiseCleaner.ReplaceMakesNoTriple` | src/etl/data_extractor.py:209 | after replacing runs of three or more dots, no three adjacent dots remain |
| `NoiseCleaner.ReplaceKeepsAbsent` | src/etl/data_extractor.py:208-209 | run replacement inserts only spaces, so an absent character stays absent |
| `NoiseCleaner.ReplaceKeepsNoPair` | src/etl/data_extractor.py:208-211 | replacing one character class does not create adjacent pairs of another |
| `NoiseCleaner.ReplaceKeepsNoTriple` | src/etl/data_extractor.py:208-211 | replacing one character class does not create adjacent triples of another |
| `NoiseCleaner.ParensKeepClasses` | src/etl/data_extractor.py:210 | the parenthesis step neither creates nor removes runs of underscores, dots or spaces |
| `NoiseCleaner.ParensRemoveFullWidth` | src/etl/data_extractor.py:210 | no full-width parenthesis survives |
| `NoiseCleaner.StripKeepsClean` | src/etl/data_extractor.py:211 | the final `strip` keeps every property the earlier steps established |
| `NoiseCleaner.RemoveNoiseIsClean` | src/etl/data_extractor.py:205-212 | every output is clean: no `__`, no `...`, no full-width parenthesis, single plain spaces, nothing to strip |
| `NoiseCleaner.PairIdentity` | src/etl/data_extractor.py:208 | underscore replacement leaves a string without adjacent underscores unchanged |
| `NoiseCleaner.TripleIdentity` | src/etl/data_extractor.py:209 | dot replacement leaves a string without three adjacent dots unchanged |
| `NoiseCleaner.CollapseIdentity` | src/etl/data_extractor.py:211 | whitespace collapsing leaves normalised whitespace unchanged |
| `NoiseCleaner.ParensIdentity` | src/etl/data_extractor.py:210 | the parenthesis step leaves text without full-width parentheses unchanged |
| `NoiseCleaner.FixedPointsAreClean` | src/etl/data_extractor.py:205-212 | a string is left unchanged by the cleaner exactly when it is clean |
| `NoiseCleaner.RemoveNoiseIdempotent` | src/etl/data_extractor.py:205-212 | cleaning twice equals cleaning once |
| `NoiseCleaner.PairSubstring` | src/etl/data_extractor.py:208 | a string containing `__` has an adjacent underscore pair |
| `NoiseCleaner.TripleSubstring` | src/etl/data_extractor.py:209 | a string containing `...` has three adjacent dots |
| `NoiseCleaner.PairAdjacent` | src/etl/data_extractor.py:211 | the recursive no-pair predicate means no two neighbouring characters of the class |
| `NoiseCleaner.CleanMeans` | src/etl/data_extractor.py:205-212 | a clean string, in the source's terms: no `__`, no `...`, no full-width parenthesis, only single plain spaces, unchanged by `strip` |
| `NoiseCleaner.RemoveNoiseOutput` | src/etl/data_extractor.py:206-212 | the cleaner's output has all those properties, and empty input gives "" |
| `SegmentMerger.CleanSegment` | src/etl/data_extractor.py:220 | a cleaned segment is empty exactly when the segment is blank |
| `SegmentMerger.CleanSegmentTidy` | src/etl/data_extractor.py:220 | a non-blank cleaned segment has single plain spaces and none at its ends |
| `SegmentMerger.Cleaned` | src/etl/data_extractor.py:219-221 | the kept segments number at most the input's and are all non-empty |
| `SegmentMerger.CleanedTidy` | src/etl/data_extractor.py:219-221 | every kept segment is tidy |
| `SegmentMerger.CleanedStep` | src/etl/data_extractor.py:219-221 | one more input segment adds its cleaned form, or nothing when it is blank |
| `SegmentMerger.MergedStep` | src/etl/data_extractor.py:222-235 | one more kept segment is glued to the merge so far on the previous segment's last character |
| `SegmentMerger.TrimRightCharAppend` | src/etl/data_extractor.py:228 | stripping `-` from the last buffer entry equals stripping it from the whole buffer text |
| `SegmentMerger.HyphenStep` | src/etl/data_extractor.py:227-229 | the hyphen branch changes the buffer's concatenation as the glue rule says |
| `SegmentMerger.FirstStep` | src/etl/data_extractor.py:222-225 | the first kept segment starts a buffer that meets the loop invariant |
| `SegmentMerger.HyphenBranch` | src/etl/data_extractor.py:227-229 | the hyphen branch preserves the loop invariant |
| `SegmentMerger.AppendBranch` | src/etl/data_extractor.py:230-234 | the CJK and space branches preserve the loop invariant |
| `SegmentMerger.Push` | src/etl/data_extractor.py:220-235 | one loop iteration on a kept segment preserves the invariant that the buffer concatenates to the merge of the kept segments |
| `SegmentMerger.SmartMerge` | src/etl/data_extractor.py:214-236 | the buffer loop returns the merge of the cleaned non-blank segments |
| `SegmentMerger.MergeBlank` | src/etl/data_extractor.py:216-221 | no segments, or only blank ones, merge to "" |
| `SegmentMerger.CleanedAppend` | src/etl/data_extractor.py:219-221 | cleaning distributes over concatenation of segment lists |
| `SegmentMerger.BlankSegmentIgnored` | src/etl/data_extractor.py:221 | inserting a blank segment anywhere does not change the merge |
| `SegmentMerger.MergedIsSpaceJoin` | src/etl/data_extractor.py:233-234 | when no neighbours hyphenate or are both CJK, the merge is the space join |
| `SegmentMerger.MergedIsConcat` | src/etl/data_extractor.py:230-232 | segments that start and end in CJK are concatenated |
| `SegmentMerger.MergedTidy` | src/etl/data_extractor.py:219-236 | a merge of kept segments has single plain spaces and none at its ends |
| `SegmentMerger.MergeSpecTidy` | src/etl/data_extractor.py:214-236 | any merge is "" or tidy |
| `SegmentMerger.GlueExamples` | src/etl/data_extractor.py:227-234 | `inter-` + `national` rejoins to `international`; two CJK segments concatenate; two words get a space |
| `FilenameTitle.SeparatorsToSpaces` | src/etl/data_extractor.py:130 | each `-`, `_` or `.` becomes a space and every other character is kept |
| `FilenameTitle.CleanTitleShape` | src/etl/data_extractor.py:128-131 | the cleaned title has no separator, nothing left to strip, and is no longer than the name without its extension |
| `FilenameTitle.WordWeight` | src/etl/data_extractor.py:146-153 | one word adds at most its own length to the semantic length |
| `FilenameTitle.SemanticLength` | src/etl/data_extractor.py:144-153 | the loop computes the semantic length: ideograph words count in full, alphabetic words longer than two count unless generic |
| `FilenameTitle.IsMeaningfulFilename` | src/etl/data_extractor.py:133-155 | the guards in source order, then the segmenter call; the result is the integer form of `semantic / total >= 0.4` |
| `FilenameTitle.ShortNameRejected` | src/etl/data_extractor.py:135 | a name of fewer than two characters is never meaningful |
| `FilenameTitle.NumericNameRejected` | src/etl/data_extractor.py:137-138 | a name made only of digits and separators is never meaningful, whatever the segmentation |
| `FilenameTitle.NumericClean` | src/etl/data_extractor.py:136-138 | cleaning such a name leaves only digits and spaces |
| `FilenameTitle.SemanticLenAppend` | src/etl/data_extractor.py:144-153 | the semantic length of two word lists is the sum of their lengths |
| `FilenameTitle.IdeographWord` | src/etl/data_extractor.py:148-149 | a word of ideographs counts in full, a word of spaces not at all |
| `FilenameTitle.IdeographWords` | src/etl/data_extractor.py:142-153 | for ideograph and space words, the semantic length equals the non-space length of their concatenation |
| `FilenameTitle.IdeographGuards` | src/etl/data_extractor.py:137-143 | no guard fires on ideograph-and-space text that starts with an ideograph |
| `FilenameTitle.IdeographNameAccepted` | src/etl/data_extractor.py:133-155 | an ideograph name that the segmenter splits into ideograph and space words is meaningful |
| `FilenameTitle.ResolveTitleCases` | src/etl/data_extractor.py:183-190 | a meaningful filename wins; otherwise the cleaned document title if longer than one character; otherwise "" |
| `FilenameTitle.GoodFilenameIgnoresDocTitle` | src/etl/data_extractor.py:186-187 | with a meaningful filename the document's own title is irrelevant |
| `FilenameTitle.DocTitleClean` | src/etl/data_extractor.py:183-190 | a title taken from the document is "" or clean and at least two characters long |
| `Tokenizer.TextTokenizer.constructor` | src/etl/data_extractor.py:79-99 | the stop words are the built-in set plus the stripped lines of the stop-word file when it was read |
| `Tokenizer.TextTokenizer.Tokenize` | src/etl/data_extractor.py:101-121 | empty text gives no tokens; otherwise the filter of the tagged words of the whitespace-collapsed text |
| `Tokenizer.FilterSound` | src/etl/data_extractor.py:107-120 | every token is stripped, at least two characters long and not a stop word |
| `Tokenizer.FilterAppend` | src/etl/data_extractor.py:107-120 | the filter works word by word: it distributes over concatenation |
| `Tokenizer.FilterFrom` | src/etl/data_extractor.py:107-120 | every token comes from a tagged word that survives all checks |
| `Tokenizer.FilterHas` | src/etl/data_extractor.py:107-120 | every surviving tagged word yields its stripped form as a token |
| `Tokenizer.FilterMembers` | src/etl/data_extractor.py:107-120 | a string is a token exactly when some tagged word survives and strips to it |
| `Tokenizer.FilterDropsAll` | src/etl/data_extractor.py:109-119 | if no tagged word survives, there are no tokens |
| `Tokenizer.StopWordNeverToken` | src/etl/data_extractor.py:110 | a stop word, built in or from the file, is never a token |
| `FormatParsers.MaxSizeAtLeast` | src/etl/data_extractor.py:329-331 | the largest run size reaches `k` exactly when some run sets a size of at least `k` |
| `FormatParsers.AcceptedIff` | src/etl/data_extractor.py:325-335 | a paragraph is accepted exactly when it has a title style, a heading-1 style, or a large run and centring |
| `FormatParsers.LargestRun` | src/etl/data_extractor.py:329-331 | the run loop computes the largest explicit run size |
| `FormatParsers.ParagraphScore` | src/etl/data_extractor.py:325-334 | the scoring steps compute the paragraph's score, with the 16pt / 10.5pt default |
| `FormatParsers.ScanParagraph` | src/etl/data_extractor.py:323-338 | one paragraph is skipped when blank, collected when accepted, ends the scan when rejected after an accepted one, and is skipped otherwise |
| `FormatParsers.ScanStep` | src/etl/data_extractor.py:321-338 | after such a step the texts collected so far plus what the scan collects from the next paragraph on are still the whole scan, and a stop leaves exactly the whole scan collected |
| `FormatParsers.ScanAt` | src/etl/data_extractor.py:321-338 | one loop iteration over the paragraph at position `i` either keeps the scan invariant or ends with the whole scan collected |
| `FormatParsers.ScanTitleParts` | src/etl/data_extractor.py:320-338 | the loop collects exactly the scan of the first eight paragraphs |
| `FormatParsers.DocxTitle` | src/etl/data_extractor.py:319-339 | the title scan over the first eight paragraphs returns the space join of its parts |
| `FormatParsers.ScanLimitOnly` | src/etl/data_extractor.py:320-322 | paragraphs after the eighth never change the title |
| `FormatParsers.PartsAreAccepted` | src/etl/data_extractor.py:323-338 | the title parts are a prefix of the texts of all accepted non-empty paragraphs |
| `FormatParsers.TitleEmptyIff` | src/etl/data_extractor.py:323-338 | before anything is accepted, the parts are empty exactly when no paragraph is accepted |
| `FormatParsers.ScanStops` | src/etl/data_extractor.py:338 | a rejected non-empty paragraph after an accepted one ends the scan |
| `FormatParsers.AppendTableRows` | src/etl/data_extractor.py:314-316 | the row loop appends the joined non-blank cells of each row that has any |
| `FormatParsers.CollectParagraphs` | src/etl/data_extractor.py:311-312 | the paragraph loop keeps every non-blank paragraph text as written |
| `FormatParsers.CollectTables` | src/etl/data_extractor.py:313-316 | the table loop appends every table's row segments, in order, to the segments it is given |
| `FormatParsers.ProcessDocx` | src/etl/data_extractor.py:302-317 | paragraph segments then table segments; the scanned title, else the core-properties title |
| `FormatParsers.FilledCellsShape` | src/etl/data_extractor.py:315 | every kept cell is non-empty and has no whitespace at either end |
| `FormatParsers.DocxSegmentsNonBlank` | src/etl/data_extractor.py:311-316 | every DOCX segment is non-blank |
| `FormatParsers.RowSegmentsNonBlank` | src/etl/data_extractor.py:314-316 | every table-row segment is non-blank |
| `FormatParsers.JoinNonBlank` | src/etl/data_extractor.py:316 | a join whose last part ends in a non-space is non-blank |
| `FormatParsers.AppendRows` | src/etl/data_extractor.py:350-352 | the row loop appends the joined surviving cells of each row that has any |
| `FormatParsers.ProcessExcel` | src/etl/data_extractor.py:341-353 | per sheet a marker when there are several sheets, then the row segments; the title from the first sheet only |
| `FormatParsers.RowSegmentsCount` | src/etl/data_extractor.py:350-352 | one segment per row with a surviving cell |
| `FormatParsers.ExcelSegmentCount` | src/etl/data_extractor.py:344-352 | the segment count is one marker per sheet (several sheets only) plus the rows with a surviving cell |
| `FormatParsers.KeptCellsSound` | src/etl/data_extractor.py:351 | the surviving cells are exactly the stripped forms of the non-blank, non-`nan` cells |
| `FormatParsers.ExcelTitleShape` | src/etl/data_extractor.py:346-348 | a workbook title is the only surviving cell of the first row of the first sheet |
| `FormatParsers.RowSegmentsFirst` | src/etl/data_extractor.py:350-352 | a first row with a surviving cell gives the first segment |
| `FormatParsers.FirstLineTitle` | src/etl/data_extractor.py:251-255 | the line loop returns the first non-blank line, stripped |
| `FormatParsers.FirstNonBlankEmpty` | src/etl/data_extractor.py:251-255 | the title is "" exactly when every line is blank |
| `FormatParsers.FirstNonBlankIsFirst` | src/etl/data_extractor.py:251-255 | a non-empty title is the stripped text of a line before which every line is blank |
| `FormatParsers.ProcessTxt` | src/etl/data_extractor.py:249-259 | empty decoded content is an error; otherwise its lines and the first non-blank line as title |
| `FormatParsers.ProcessDoc` | src/etl/data_extractor.py:355-366 | a failed or silent converter is an error; otherwise its output's lines and the first non-blank line as title |
| `Extraction.Dispatch` | src/etl/data_extractor.py:167-179 | each supported extension goes to its handler; any other extension selects none |
| `Extraction.Extract` | src/etl/data_extractor.py:157-195 | a missing file, an unsupported extension and a handler failure are errors; otherwise the cleaned merged content and the resolved title |
| `Extraction.SupportedIff` | src/etl/data_extractor.py:168-179 | exactly the six supported extensions reach a handler |
| `Extraction.ExtractFails` | src/etl/data_extractor.py:157-195 | extraction fails exactly when the file is missing, the extension is unsupported or the handler fails |
| `Extraction.ExtractClean` | src/etl/data_extractor.py:181-192 | extracted content is clean; the title is the cleaned filename, "", or clean and at least two characters long |
| `Extraction.DocumentPipeline.constructor` | src/etl/data_extractor.py:373-375 | the pipeline's tokenizer holds the built-in stop words plus those from the file |
| `Extraction.DocumentPipeline.Run` | src/etl/data_extractor.py:377-394 | extraction errors pass through; blank content yields no record; otherwise title and content are tokenized |
| `Extraction.RunDropsOnlyEmpty` | src/etl/data_extractor.py:381-384 | a document is dropped exactly when its extracted content is "", and a kept record carries that content unchanged |
| `Extraction.BlankDocumentDropped` | src/etl/data_extractor.py:181-184 | a document whose segments are all blank yields no record |
| `Extraction.DeduplicateItems` | src/etl/data_extractor.py:439-447 | the first item for each non-empty url-or-path key is kept, in order |
| `Dedup.KeysMember` | src/etl/data_extractor.py:444-446 | a key has been seen exactly when it is non-empty and some item has it |
| `Dedup.FirstByKeyKeys` | src/etl/data_extractor.py:443-447 | the kept items carry exactly the input's non-empty keys |
| `Dedup.FirstByKeyDistinct` | src/etl/data_extractor.py:443-447 | no two kept items share a key, and every kept key is non-empty |
| `Dedup.FirstByKeySubseq` | src/etl/data_extractor.py:443-447 | the kept items appear in the input, in the same order |
| `Dedup.FirstOccurrenceKept` | src/etl/data_extractor.py:443-447 | the first item with each non-empty key is kept |
| `Dedup.DistinctKept` | src/etl/data_extractor.py:443-447 | input that already has distinct non-empty keys is kept whole |
| `Dedup.FirstByKeyIdempotent` | src/etl/data_extractor.py:443-447 | de-duplicating twice equals de-duplicating once |
| `InvertedIndex.CountTokens` | src/mapreduce/HBaseInvertedIndex.java:60-68 | the counting loop builds the count map of the non-empty tokens |
| `InvertedIndex.CountMapSpec` | src/mapreduce/HBaseInvertedIndex.java:60-68 | a word is counted exactly when it is a non-empty token, and its count is its number of occurrences |
| `InvertedIndex.CountMapKeys` | src/mapreduce/HBaseInvertedIndex.java:60-73 | the counted words are the distinct non-empty tokens |
| `InvertedIndex.CountSum` | src/mapreduce/HBaseInvertedIndex.java:60-68 | the counts of the distinct words sum to the number of non-empty tokens |
| `InvertedIndex.TokensNonEmpty` | src/mapreduce/HBaseInvertedIndex.java:53-57 | the tokens of a non-blank string are all non-empty; a blank string has only the empty token |
| `InvertedIndex.TotalIsSumOfCounts` | src/mapreduce/HBaseInvertedIndex.java:53-68 | the emitted total equals the sum of the emitted per-word counts |
| `InvertedIndex.EmitStep` | src/mapreduce/HBaseInvertedIndex.java:78-87 | emitting one more unvisited word preserves the emission invariant |
| `InvertedIndex.EmitWords` | src/mapreduce/HBaseInvertedIndex.java:71-87 | each word of either count map is emitted exactly once, with its formatted value, in any order |
| `InvertedIndex.MapRow` | src/mapreduce/HBaseInvertedIndex.java:38-88 | each distinct non-empty word of title or content is emitted once, with `url:tc:tt:cc:ct` for that row |
| `InvertedIndex.RowWordsSpec` | src/mapreduce/HBaseInvertedIndex.java:71-80 | a word is emitted exactly when it is a non-empty title or content token, and then it occurs at least once |
| `InvertedIndex.SplitAllColonFree` | src/mapreduce/HBaseInvertedIndex.java:118 | a string without the separator splits into itself |
| `InvertedIndex.SplitJoin` | src/mapreduce/HBaseInvertedIndex.java:118 | splitting a join of separator-free parts gives back the parts |
| `InvertedIndex.JavaSplitJoin` | src/mapreduce/HBaseInvertedIndex.java:118 | the same for Java's `split`, whose dropping of trailing empty pieces is harmless when the last part is non-empty |
| `InvertedIndex.DecimalValue` | src/mapreduce/HBaseInvertedIndex.java:83-84 | `%d` of a count reads back as that count |
| `InvertedIndex.ParseDecimal` | src/mapreduce/HBaseInvertedIndex.java:122-125 | `Integer.parseInt` of the `%d` form of a count within the 32-bit range is that count |
| `InvertedIndex.Reduce` | src/mapreduce/HBaseInvertedIndex.java:106-139 | the reducer copies the values, skips those of fewer than five pieces, stops at the first malformed number, and emits one update per remaining value |
| `InvertedIndex.ReduceErrSticks` | src/mapreduce/HBaseInvertedIndex.java:121-125 | once a value fails to parse, later values do not matter |
| `InvertedIndex.ReduceShape` | src/mapreduce/HBaseInvertedIndex.java:117-137 | a successful reduce emits one update per value of at least five pieces, in the order of those values; the k-th is in row `word`, column `p:<url>` with the url the value's first piece, and carries the four counts the value's next pieces parse to |
| `InvertedIndex.ReduceFails` | src/mapreduce/HBaseInvertedIndex.java:117-137 | the reduce fails exactly when some value of at least five pieces has a count that does not parse |
| `InvertedIndex.RoundTrip` | src/mapreduce/HBaseInvertedIndex.java:83-135 | what the mapper writes for a colon-free row key and 32-bit counts, the reducer parses back into an update of that document with those counts |
| `SearchEngine.ExtractHits` | src/web/search_engine.py:49-63 | the column loop keeps one hit per `p:` column, in row order |
| `SearchEngine.HitsMember` | src/web/search_engine.py:52-63 | a hit is extracted exactly when a `p:` column gives its url and score |
| `SearchEngine.HitsCount` | src/web/search_engine.py:49-63 | there are as many hits as `p:` columns |
| `SearchEngine.InsertPerm` | src/web/search_engine.py:66 | inserting a hit adds exactly that hit |
| `SearchEngine.InsertSorted` | src/web/search_engine.py:66 | insertion into a descending list keeps it descending |
| `SearchEngine.InsertStable` | src/web/search_engine.py:66 | insertion places a hit after the hits of equal score |
| `SearchEngine.SortDescSpec` | src/web/search_engine.py:66 | the ranking is descending by score, a permutation, and stable: hits of equal score keep their row order |
| `SearchEngine.PageWindow` | src/web/search_engine.py:73-80 | a page starting past the end is empty; any other is the window of at most `page_size` hits from `(page - 1) * page_size` |
| `SearchEngine.HitOnItsPage` | src/web/search_engine.py:73-80 | the hit of rank `k` is on page `k / page_size + 1` at position `k % page_size` |
| `SearchEngine.MissingDocumentDefaults` | src/web/search_engine.py:93-102 | a hit without a document row gets url "", "no title" and "no content" |
| `SearchEngine.Assemble` | src/web/search_engine.py:88-109 | one result per page hit, in page order, with the document's fields or their defaults |
| `SearchEngine.Search` | src/web/search_engine.py:36-111 | the search returns the page's results and the number of hits |
| `SearchEngine.NoRowNoResults` | src/web/search_engine.py:44-46 | a keyword without an index row, or with an empty one, finds nothing and a total of 0 |
| `SearchEngine.TotalIsHitCount` | src/web/search_engine.py:69 | the total is the number of `p:` columns, whatever the page |
| `SearchEngine.SearchPage` | src/web/search_engine.py:66-111 | the results are the ranked hits from `(page - 1) * page_size`, at most `page_size` of them, each with its document fields |
| `SearchEngine.SearchRanked` | src/web/search_engine.py:66-111 | the results of a page are in non-increasing score order |
| `SearchEngine.PageSorted` | src/web/search_engine.py:80 | a window of a descending list is descending |
| `SearchEngine.ResultsRanked` | src/web/search_engine.py:89-109 | results keep the order of their hits' scores |
| `Spider.SanitizeSpec` | src/crawler/spider.py:72-73 | length is kept, unreserved characters are kept, reserved ones become `_`; none remains; sanitizing twice equals sanitizing once |
| `Spider.TruncateSpec` | src/crawler/spider.py:78-79 | a saved name is the name itself when it has at most 200 characters, and otherwise exactly its last 200 characters |
| `Spider.DownloadNameSpec` | src/crawler/spider.py:76-81 | a saved name is short and free of reserved characters, and the base name of its recorded path gives it back |
| `Spider.AddRecordSpec` | src/crawler/spider.py:112-123 | earlier entries are kept and at most one is appended, exactly when the path is new; the path is recorded afterwards; unique paths stay unique |
| `Spider.TargetsMember` | src/crawler/spider.py:175-185 | a url is downloaded exactly when it is the joined form of a followed link with a target extension |
| `Spider.DownloadAllSpec` | src/crawler/spider.py:175-185 | downloads keep every earlier entry and keep recorded paths unique |
| `Spider.ExistingMember` | src/crawler/spider.py:217-223 | an item passes the existence check exactly when it is in the list and its file exists |
| `Spider.ExistingDistinct` | src/crawler/spider.py:204-226 | filtering items with distinct paths keeps them distinct |
| `Spider.PostProcessSound` | src/crawler/spider.py:201-226 | every kept item has a non-empty path and an existing file, and no two share a path |
| `Spider.PostProcessComplete` | src/crawler/spider.py:204-221 | the first item with a given path is kept whenever its file exists |
| `Spider.PostProcessOrder` | src/crawler/spider.py:204-226 | the kept items are in their original order |
| `Spider.Crawler.constructor` | src/crawler/spider.py:48-58 | the metadata starts as the stored list, or empty when there is none or it cannot be parsed |
| `Spider.Crawler.AddToMetadata` | src/crawler/spider.py:112-124 | the search loop returns early on a known path; otherwise one record is appended |
| `Spider.Crawler.NameFor` | src/crawler/spider.py:76-79 | the name computed from the url is the saved download name: the sanitized last path component, cut to its last 200 characters |
| `Spider.Crawler.DownloadFile` | src/crawler/spider.py:75-110 | an existing file or a 200 response records the download; any other status or a failed request changes nothing |
| `Spider.Crawler.Visit` | src/crawler/spider.py:176-186 | a link is taken exactly when it is followed and its joined url has a target extension, and then the file is downloaded |
| `Spider.Crawler.ParseAndDownload` | src/crawler/spider.py:170-188 | the count of found files is the number of targets, and the metadata is that of downloading them in order |
| `Spider.Crawler.PostProcessData` | src/crawler/spider.py:190-228 | a missing metadata file changes nothing; otherwise the metadata becomes the de-duplicated, existence-checked list |

## Left out

- PDF handling (`_process_pdf`, `_get_pdf_title`, `src/etl/data_extractor.py:261-300`): it relies on PyMuPDF's layout blocks and font sizes. The model takes its segments and title, or its error, as an input of `Library`.
- The text handler's encoding loop (`src/etl/data_extractor.py:243-247`): decoding is I/O. `Library.text` is the decoded content, or "" when no encoding works.
- Opening files, the DOCX and spreadsheet readers, the `antiword` subprocess and pandas' `fillna`/`astype(str)` are library calls. Their results are inputs. A sheet is given as rows of cell strings.
- `jieba.lcut` and `jieba.posseg.cut` are function parameters (`lcut`, `tagger`), so every property holds for any segmentation.
- Unicode character classes are approximations:
  - `isalpha`, `isalnum` and `\d` are ASCII plus the CJK ideograph ranges;
  - `lower()` is ASCII lower-casing, which is exact for every comparison with an ASCII literal the core makes;
  - Java's `trim()` and `\s` share Python's whitespace predicate;
  - `Integer.parseInt` accepts ASCII digits only.
- Title resolution and filename scoring compare `semantic / total >= 0.4` in integers, as `5 * semantic >= 2 * total`. This is exact.
- Floating point: the reducer's idf and tf score (`HBaseInvertedIndex.java:96-98, 114-115, 127-130`) and its `setup`/`totalDocs` (`100-103`) are left out.
  - The model's `Put` carries the four counts the score is computed from.
  - Search scores are integers, and the search's decoding of 8-byte doubles or text (`search_engine.py:54-61`) is left out. `Column.value` is the decoded score, and a failed decode gives `None`, which scores 0 as in the source.
- `InvertedIndex.MapRow`: the counts are unbounded naturals. Java's 32-bit `int` overflow of a count is not modelled: it needs more than 2^31 tokens in one row.
- `InvertedIndex.RoundTrip`: requires a colon-free row key. The row keys are md5 hex digests (`src/etl/hbase_import.py:109-113`), which contain no `:`. A key with a `:` shifts the pieces and makes the reducer fail or misread.
- `InvertedIndex.EmitWords`: HashMap iteration order is unspecified. The model picks an arbitrary unvisited word each step, so its contract holds for every order.
- The job driver (`HBaseInvertedIndex.java:145-193`), the HBase scan and table writes, and `context.write` are left out. Emitted pairs and updates are returned as sequences.
- `SearchEngine.Search`: requires `page >= 1`, because both callers pass a page of at least 1: `src/web/app.py:85-89` clamps it, and `src/web/search_engine.py:129` uses the default 1. Python's meaning of a negative slice start is not modelled.
- The ranking (`search_engine.py:66`) is a pure stable insertion sort on a sequence, not an in-place sort of the list. Its contract (descending, a permutation, equal scores in row order) is what Python's stable `sort(reverse=True)` guarantees.
- The HBase tables are maps given as input: `index` maps a keyword to its row's columns in row order, and `files` maps a row key to its columns. The `HBaseConnector`, the batch `rows` call and byte decoding are left out.
- `Spider.Crawler.DownloadFile`:
  - whether a file is already saved is a static oracle `saved`, which does not change when a download writes a file;
  - the HTTP status is an input, and `None` stands for a request that raised;
  - requests, streaming to disk, headers, proxies and sleeps are left out.
- `Spider.Crawler.Visit`: `urljoin` is a function parameter, and a page's anchors are given as their `href` strings. BeautifulSoup parsing, Selenium and the HTTP page fetch are left out.
- `Spider.Crawler.AddToMetadata`: the timestamp is an input `now`. Writing the metadata to disk (`save_metadata`) is left out.
- `Spider.Crawler.PostProcessData`: `stored` is `None` only for a missing metadata file. A file that exists but does not decode makes `json.load` raise (`src/crawler/spider.py:198-199`), and that failure is not modelled. The constructor's load, by contrast, catches it and starts empty.
- `Extraction.Extract` distinguishes an unsupported extension from a handler failure (`UnsupportedFormat` and `ParseFailed`). The source raises both as `RuntimeError`.
- Logging (`log_msg`, `logger`), the batch driver's file loop, its failure classification and its manifests, the HBase import (`src/etl/hbase_import.py`), the web application (`src/web/app.py`) and the settings (`src/settings.py`) are left out.
