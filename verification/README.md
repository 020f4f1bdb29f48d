# Search-Engine, modelled in Dafny

This project models the core of a small Java search engine. The engine builds an
inverted index and answers prefix queries over it.

- **Inverted index.** The index is a TreeMap from word to a TreeMap from path to the
  word's 1-based positions in that file. `add` appends one position. `addAll` merges a
  private index in. `storeInfo` adds a word list under one file. `outputInvertedIndex`
  writes the index as text.
- **Prefix search.** `partialSearch` takes a list of query words. For each query it walks
  the keys from the query onward and stops at the first key that does not start with it.
  For every path it meets, it builds a `SearchResult`: the frequency is the sum of the list
  sizes and the position is the least first position. It then sorts the results with
  `SearchResult.compareTo`, which orders by frequency descending, then position
  ascending, then path.
- **Words and files.** `WordParser` cleans text and splits it into words. Its result is
  compared with an independent reference, `WordParser.Words`: the maximal runs of ASCII
  letters and digits in the text, lower-cased.
  `IndexBuilder.parseFile` numbers the words of a file across its lines.
  `IndexBuilder.build` folds that over the files.
- **Queries.** `QueryParser` searches every line of a query file. It keeps the results in
  a LinkedHashMap and writes one block per line.
- **Crawler.** `WebCrawler` schedules at most 50 distinct links and indexes each fetched
  page through a private index. `HTTPFetcher.fetch` drops the response headers, up to and
  including the first blank line, and concatenates the body lines.

The model keeps the Java data shapes:

- The index is `map<string, map<string, seq<int>>>`. `Positions(idx, w, p)` reads one
  list. `WellFormed` is the invariant that no word or path entry is empty.
- TreeMap iteration order is `Strings.SortedKeys`: the keys in `String.compareTo` order.
- Text output is a sequence of lines. Its format is shared by the index output and the
  query output: a header line, then quoted-name records, then a blank line
  (`TextFormat`). The shared format comes with a parser, and every writer is proved to
  read back.

Modules, one file each:

- `Options`
- `Strings`: String.compareTo, startsWith, trim, split on `\s`, Integer.toString, TreeMap order
- `TextFormat`
- `SearchResults`
- `InvertedIndex`
- `IndexSearch`: partialSearch
- `WordParser`
- `IndexBuilder`
- `QueryParser`
- `HttpFetcher`
- `WebCrawler`

## Model

| member | source | states |
|---|---|---|
| Strings.Compare | ArgumentParser/SearchResult.java:82-85 | String.compareTo on paths; it is a total order: zero exactly on equal strings, antisymmetric and transitive (the three lemmas below) |
| Strings.CompareZeroIffEqual | ArgumentParser/SearchResult.java:82-85 | String.compareTo is zero exactly for equal strings |
| Strings.CompareAntisymmetric | ArgumentParser/SearchResult.java:82-85 | swapping the operands of String.compareTo negates the result |
| Strings.CompareTransitive | ArgumentParser/SearchResult.java:82-85 | String.compareTo is transitive, strictly so when one step is strict |
| Strings.IsPrefix | ArgumentParser/InvertedIndex.java:168 | startsWith; a prefix sorts no later than the word (PrefixNotAfter), and the keys a query prefixes are contiguous in key order (PrefixContiguous) |
| Strings.PrefixNotAfter | ArgumentParser/InvertedIndex.java:167-168 | a prefix sorts no later than the word it starts |
| Strings.PrefixContiguous | ArgumentParser/InvertedIndex.java:167-187 | a key between a query and a word the query prefixes is also prefixed by the query |
| Strings.Trim | ArgumentParser/WordParser.java:31 | trim leaves no character <= ' ' at either end and is empty exactly when every character is <= ' ' |
| Strings.IntToStringRoundTrip | ArgumentParser/SearchResult.java:56-57 | the decimal text of any int parses back to that int |
| Strings.Split | ArgumentParser/WordParser.java:51 | split on \s yields at least one piece and no piece holds a whitespace character |
| Strings.JoinSplit | ArgumentParser/WordParser.java:51 | splitting text whose only whitespace is ' ' and joining with ' ' restores the text |
| Strings.SortedKeys | ArgumentParser/InvertedIndex.java:129 | TreeMap key order: strictly ascending and holding exactly the keys |
| TextFormat.BlocksRoundTrip | ArgumentParser/InvertedIndex.java:129-141 | the header / record / blank-line text reads back to the blocks it was written from |
| SearchResults.Update | ArgumentParser/SearchResult.java:67-72 | update adds the frequency and keeps the lesser position; the path stays |
| SearchResults.UpdateCommutes | ArgumentParser/SearchResult.java:67-72 | the order of two updates does not matter |
| SearchResults.CompareTo | ArgumentParser/SearchResult.java:79-94 | higher frequency first, then lower position, then path order; zero exactly for equal results |
| SearchResults.CompareToAntisymmetric | ArgumentParser/SearchResult.java:79-94 | compareTo changes sign when its operands swap |
| SearchResults.CompareToTransitive | ArgumentParser/SearchResult.java:79-94 | compareTo is transitive |
| SearchResults.ToString | ArgumentParser/SearchResult.java:55-58 | toString: the quoted path, frequency and position on one line, which reads back to the result (ToStringReadsBack) |
| SearchResults.ToStringReadsBack | ArgumentParser/SearchResult.java:55-58 | toString is a record line that parses back to path, frequency and position |
| SearchResults.Sort | ArgumentParser/InvertedIndex.java:194 | Collections.sort output is ordered by compareTo and is a permutation of its input, keeping distinct paths distinct |
| SearchResults.SortedUnique | ArgumentParser/InvertedIndex.java:192-195 | two compareTo-sorted permutations of the same results are equal |
| InvertedIndex.Add | ArgumentParser/InvertedIndex.java:87-101 | add appends the position to the (word, path) list and creates the word and path entries when missing |
| InvertedIndex.AddPositionsAt | ArgumentParser/InvertedIndex.java:87-101 | add changes only the list of its own word and path |
| InvertedIndex.AddWellFormed | ArgumentParser/InvertedIndex.java:89-99 | add keeps every word and path entry non-empty |
| InvertedIndex.AddAll | ArgumentParser/InvertedIndex.java:36-54 | addAll leaves exactly the words of both indexes |
| InvertedIndex.AddAllPositionsAt | ArgumentParser/InvertedIndex.java:36-54 | after addAll every (word, path) list is the own list followed by the merged one |
| InvertedIndex.AddAllWellFormed | ArgumentParser/InvertedIndex.java:36-54 | addAll of well-formed indexes is well formed |
| InvertedIndex.AddAllEmpty | ArgumentParser/InvertedIndex.java:36-54 | merging an empty index changes nothing |
| InvertedIndex.AddAllIntoEmpty | ArgumentParser/InvertedIndex.java:38-40 | merging into an empty index yields the merged index |
| InvertedIndex.AddAllAssociative | ArgumentParser/InvertedIndex.java:36-54 | merging is associative |
| InvertedIndex.AddTokens | ArgumentParser/InvertedIndex.java:112-114 | the storeInfo loop from a given position; the lemmas on StoreInfo and MergePrivateIndex state what it adds |
| InvertedIndex.StoreInfo | ArgumentParser/InvertedIndex.java:110-115 | storeInfo; what it records is stated by StoreInfoPositions, StoreInfoRecordsEveryWord, StoreInfoIncreasing and StoreInfoWellFormed |
| InvertedIndex.OccurrencesSpec | ArgumentParser/InvertedIndex.java:112-113 | the positions storeInfo gives a word are exactly the 1-based indexes where it occurs, strictly increasing |
| InvertedIndex.StoreInfoPositions | ArgumentParser/InvertedIndex.java:110-115 | storeInfo appends each word's occurrence positions under the file and changes no other path |
| InvertedIndex.StoreInfoRecordsEveryWord | ArgumentParser/InvertedIndex.java:112-113 | word i of the list is recorded at position i + 1 |
| InvertedIndex.StoreInfoIncreasing | ArgumentParser/InvertedIndex.java:110-115 | for a new file every list storeInfo makes is strictly increasing |
| InvertedIndex.StoreInfoWellFormed | ArgumentParser/InvertedIndex.java:110-115 | storeInfo keeps the index well formed |
| InvertedIndex.MergePrivateIndex | ArgumentParser/InvertedIndex.java:36-54 | filling a private index with the words and merging it equals adding the words directly |
| InvertedIndex.IndexText | ArgumentParser/InvertedIndex.java:124-146 | the lines outputInvertedIndex writes; their content is stated by WordBlockSpec and IndexBlocksHeaders, and IndexTextRoundTrip reads them back |
| InvertedIndex.WordBlockSpec | ArgumentParser/InvertedIndex.java:129-141 | a word's block has the word as header and one record per path, in path order, each with the path's positions |
| InvertedIndex.IndexBlocksHeaders | ArgumentParser/InvertedIndex.java:129 | the output lists the words in ascending order |
| InvertedIndex.IndexTextRoundTrip | ArgumentParser/InvertedIndex.java:124-146 | reading the written index back gives the index |
| IndexSearch.TailFrom | ArgumentParser/InvertedIndex.java:167 | tailMap(query) is a suffix of the keys |
| IndexSearch.TailFromFilter | ArgumentParser/InvertedIndex.java:167 | starting at tailMap(query) skips no key the query prefixes |
| IndexSearch.TakePrefixedFilter | ArgumentParser/InvertedIndex.java:168-187 | on the sorted tail, breaking at the first key without the prefix loses no key with it |
| IndexSearch.Matches | ArgumentParser/InvertedIndex.java:167-187 | the words one query visits; ScanFindsAllMatches and MatchesMembers state which |
| IndexSearch.ScanFindsAllMatches | ArgumentParser/InvertedIndex.java:166-188 | the scan for a query visits exactly the keys it prefixes, in key order |
| IndexSearch.MatchesMembers | ArgumentParser/InvertedIndex.java:166-188 | a word is visited exactly when it is in the index and starts with the query |
| IndexSearch.EmptyQueryMatchesAll | ArgumentParser/InvertedIndex.java:166-188 | the empty query visits every word |
| IndexSearch.Accumulate | ArgumentParser/InvertedIndex.java:170-182 | the inner step adds the path to the map's keys and nothing else |
| IndexSearch.VisitPathsAt | ArgumentParser/InvertedIndex.java:169-183 | the path loop touches each path's entry with the lists met for that path, in order |
| IndexSearch.VisitWordAt | ArgumentParser/InvertedIndex.java:169-183 | one word touches each path's entry at most once, with that path's list |
| IndexSearch.VisitQueriesAt | ArgumentParser/InvertedIndex.java:166-189 | after all queries each path's entry is its start touched by every list the queries reach for it |
| IndexSearch.TouchAllNone | ArgumentParser/InvertedIndex.java:170-182 | a new entry ends with the summed sizes and the least first position |
| IndexSearch.MinHead | ArgumentParser/InvertedIndex.java:173-175 | the position kept is at most every first position met and equals one of them |
| IndexSearch.ExpectedSpec | ArgumentParser/InvertedIndex.java:157-196 | a path has a result exactly when some query prefixes some word the path holds; its frequency sums those lists and its position is their least first position |
| IndexSearch.ValuesMembers | ArgumentParser/InvertedIndex.java:192-193 | map.values() holds each entry exactly once |
| IndexSearch.PartialSearch | ArgumentParser/InvertedIndex.java:157-196 | partialSearch; its result is stated by PartialSearchSpec, PartialSearchAnyOrder and PartialSearchNoQueries |
| IndexSearch.PartialSearchSpec | ArgumentParser/InvertedIndex.java:157-196 | partialSearch is sorted by compareTo, has one result per path, and holds exactly each path's expected result |
| IndexSearch.PartialSearchAnyOrder | ArgumentParser/InvertedIndex.java:192-195 | whatever order HashMap.values() yields, the sorted list is the same |
| IndexSearch.PartialSearchNoQueries | ArgumentParser/InvertedIndex.java:166 | no queries give no results |
| WordParser.CollapseSpaces | ArgumentParser/WordParser.java:31 | collapsing runs of spaces keeps the text non-empty exactly when it was and keeps its first character |
| WordParser.CollapseSpacesLast | ArgumentParser/WordParser.java:31 | collapsing runs of spaces keeps the last character |
| WordParser.CleanText | ArgumentParser/WordParser.java:26-34 | cleaned text holds only a-z, 0-9 and single inner spaces, with no space at either end; CleanTextWords states which letters and digits |
| WordParser.CleanTextOfClean | ArgumentParser/WordParser.java:26-34 | cleaning text that is already clean changes nothing |
| WordParser.CleanTextIdempotent | ArgumentParser/WordParser.java:26-34 | cleaning twice is cleaning once |
| WordParser.CleanTextEmpty | ArgumentParser/WordParser.java:26-34 | cleaned text is empty exactly when the input has no word character other than '_' |
| WordParser.WordsReplaced | ArgumentParser/WordParser.java:28-30 | lower-casing and replacing '_' and \W by spaces keeps every letter and digit, lower-cased, and turns every other character into a space, so the words stay the same |
| WordParser.WordsTrim | ArgumentParser/WordParser.java:31 | trim removes no letter or digit, so the words stay the same |
| WordParser.WordsCollapse | ArgumentParser/WordParser.java:31 | collapsing runs of spaces changes no word |
| WordParser.WordsLetters | ArgumentParser/WordParser.java:16-19 | the words of a text, run together, are its ASCII letters and digits, lower-cased and in order |
| WordParser.CleanTextWords | ArgumentParser/WordParser.java:16-34 | cleanText is the maximal runs of the text's ASCII letters and digits, lower-cased, joined by single spaces |
| WordParser.ParseText | ArgumentParser/WordParser.java:48-59 | every word is a non-empty run of a-z and 0-9; ParseTextWords states which |
| WordParser.ParseTextWords | ArgumentParser/WordParser.java:48-59 | parseText yields exactly the maximal runs of the text's ASCII letters and digits, lower-cased, in order |
| WordParser.ParseTextLetters | ArgumentParser/WordParser.java:48-59 | the words parseText yields, run together, are the text's letters and digits, lower-cased and in order |
| WordParser.JoinParseText | ArgumentParser/WordParser.java:48-59 | the words joined by single spaces are the cleaned text |
| WordParser.ParseTextEmpty | ArgumentParser/WordParser.java:48-59 | there are no words exactly when the input has no word character other than '_' |
| WordParser.ParseTextJoin | ArgumentParser/WordParser.java:48-59 | parsing words joined by spaces gives the words back |
| WordParser.ParseLines | ArgumentParser/WordParser.java:71-87 | parseFile yields only well-formed words |
| WordParser.ParseLinesAppend | ArgumentParser/WordParser.java:79-81 | the words of two runs of lines are the words of each, concatenated |
| IndexBuilder.LineFragments | ArgumentParser/IndexBuilder.java:47-49 | one fragment list per line, whose non-empty fragments are that line's words as WordParser.parseText gives them |
| IndexBuilder.AddFragments | ArgumentParser/IndexBuilder.java:49-55 | the fragment loop of one line; AddFragmentsTokens states what it adds |
| IndexBuilder.AddFragmentsTokens | ArgumentParser/IndexBuilder.java:50-55 | the fragment loop adds the non-empty fragments at the next positions and advances the counter by their number |
| IndexBuilder.LineTokens | ArgumentParser/IndexBuilder.java:48-55 | one line adds exactly WordParser.parseText's words |
| IndexBuilder.ParseFileCounter | ArgumentParser/IndexBuilder.java:46-56 | the counter ends at the number of words of the file |
| IndexBuilder.ParseFile | ArgumentParser/IndexBuilder.java:42-62 | parseFile; ParseFileCounter, ParseFilePositions, ParseFileIsStoreInfo and ParseFileIncreasing state its effect |
| IndexBuilder.ParseFilePositions | ArgumentParser/IndexBuilder.java:42-62 | parseFile appends each word's occurrence positions in the whole file under its path and nothing under other paths |
| IndexBuilder.ParseFileIsStoreInfo | ArgumentParser/IndexBuilder.java:42-62 | parseFile equals storeInfo of WordParser.parseFile's word list |
| IndexBuilder.ParseFileIncreasing | ArgumentParser/IndexBuilder.java:42-62 | for a new file the positions are strictly increasing |
| IndexBuilder.Build | ArgumentParser/IndexBuilder.java:25-32 | build; BuildPositionsAt, BuildFromEmpty and BuildWellFormed state its effect |
| IndexBuilder.BuildPositionsAt | ArgumentParser/IndexBuilder.java:25-32 | build appends, file after file, each file's occurrences |
| IndexBuilder.BuildFromEmpty | ArgumentParser/IndexBuilder.java:25-32 | from an empty index with distinct paths, each list is the occurrences in that file and other paths have none |
| IndexBuilder.BuildWellFormed | ArgumentParser/IndexBuilder.java:25-32 | build keeps the index well formed |
| QueryParser.Put | ArgumentParser/QueryParser.java:48 | put maps the line to the results, leaves other keys alone, and appends the key only when it is new |
| QueryParser.GetPresent | ArgumentParser/QueryParser.java:73 | result.get finds a value exactly for the keys of the LinkedHashMap |
| QueryParser.Answer | ArgumentParser/QueryParser.java:31-57 | the LinkedHashMap queryParser fills; AnswerKeys and AnswerLookup state its keys and values |
| QueryParser.AnswerKeys | ArgumentParser/QueryParser.java:31-57 | the keys are the distinct lines, in order of first occurrence |
| QueryParser.AnswerLookup | ArgumentParser/QueryParser.java:37-50 | each line maps to partialSearch of its parsed words, and nothing else is present |
| QueryParser.BlankQueryLine | ArgumentParser/QueryParser.java:46-48 | a line with no word character other than '_' gets no results |
| QueryParser.WriteLines | ArgumentParser/QueryParser.java:65-82 | the lines write prints; WriteLinesAreBlocks and WriteRoundTrip state their content |
| QueryParser.WriteLinesAreBlocks | ArgumentParser/QueryParser.java:65-82 | write prints the shared block format: line, toString of each result, blank line |
| QueryParser.WriteRoundTrip | ArgumentParser/QueryParser.java:65-82 | reading the written file back gives every line and result in order |
| HttpFetcher.GetPort | ArgumentParser/HTTPFetcher.java:44-46 | getPort returns PORT, the constant 80 of line 21; there is nothing further to state |
| HttpFetcher.SkipHeaders | ArgumentParser/HTTPFetcher.java:97-101 | the header loop leaves the suffix after the first blank line, every line before it a header, or nothing when no line is blank |
| HttpFetcher.SkipHeadersAt | ArgumentParser/HTTPFetcher.java:97-101 | the body starts just after the first blank line |
| HttpFetcher.SkipHeadersNoBlank | ArgumentParser/HTTPFetcher.java:97-101 | without a blank line nothing is left |
| HttpFetcher.ProcessLine | ArgumentParser/HTTPFetcher.java:71-73 | the default processLine returns its line; AppendIdentity states what the body loop then builds |
| HttpFetcher.AppendIdentity | ArgumentParser/HTTPFetcher.java:71-73 | with the default processLine the body loop concatenates the lines |
| HttpFetcher.Fetch | ArgumentParser/HTTPFetcher.java:80-115 | fetch after the request; FetchPage and FetchNoBlank state what it returns |
| HttpFetcher.FetchPage | ArgumentParser/HTTPFetcher.java:80-115 | headers, a blank line and a body fetch to the body lines run together, with later blank lines kept |
| HttpFetcher.FetchNoBlank | ArgumentParser/HTTPFetcher.java:97-114 | a response without a blank line fetches to "" |
| WebCrawler.ScheduleLinks | ArgumentParser/WebCrawler.java:93-103 | the link loop of parse; the Schedule lemmas below state its effect |
| WebCrawler.ScheduleGrows | ArgumentParser/WebCrawler.java:93-103 | the loop only adds links, one per task, and never past 50 |
| WebCrawler.ScheduleTasks | ArgumentParser/WebCrawler.java:95-100 | every task is for a new, now recorded link, resolved against the page's base, and no link has two tasks |
| WebCrawler.ScheduleRecordsTasks | ArgumentParser/WebCrawler.java:97-100 | a link is recorded only when a task is made for it |
| WebCrawler.ScheduleSources | ArgumentParser/WebCrawler.java:93-99 | every task comes from a path of a link found on the page |
| WebCrawler.ScheduleOk | ArgumentParser/WebCrawler.java:93-111 | the loop ends early exactly when a found link is malformed |
| WebCrawler.ScheduleComplete | ArgumentParser/WebCrawler.java:93-103 | after a full pass every found path is recorded unless 50 links are |
| WebCrawler.LocalIndex | ArgumentParser/WebCrawler.java:122-128 | the private index of one page; AddWordsToIndexIsStoreInfo states its effect once merged |
| WebCrawler.AddWordsToIndex | ArgumentParser/WebCrawler.java:121-130 | addWordsToIndex; AddWordsToIndexIsStoreInfo states its effect |
| WebCrawler.AddWordsToIndexIsStoreInfo | ArgumentParser/WebCrawler.java:121-130 | the private index merged in equals storeInfo of the page's words under its URL |
| WebCrawler.ParseTask | ArgumentParser/WebCrawler.java:77-112 | parse of one page; ParseTaskIndex and ParseTaskLinks state its effect |
| WebCrawler.ParseTaskIndex | ArgumentParser/WebCrawler.java:77-112 | a page is indexed exactly when its URL and all its links resolve, otherwise the index is untouched |
| WebCrawler.ParseTaskLinks | ArgumentParser/WebCrawler.java:77-104 | one page keeps the recorded set at 50 or fewer and queues one task per new link |
| WebCrawler.Seed | ArgumentParser/WebCrawler.java:137-144 | crawl as written, recording the seed's whole URL; SeedRevisited shows the consequence |
| WebCrawler.SeedRevisited | ArgumentParser/WebCrawler.java:137-144 | a seed page that links to itself is scheduled again |
| WebCrawler.SeedByPath | ArgumentParser/WebCrawler.java:137-144 | crawl corrected to record the seed by its path, as the loop records links; SeedByPathNotRevisited states the consequence |
| WebCrawler.SeedByPathNotRevisited | ArgumentParser/WebCrawler.java:95-98 | with the seed recorded by its path, no task goes back to the seed |

## Left out

- Concurrency is not modelled: the MultiReaderLock, the WorkQueue and its minions, and `finish`/`shutdown`. Each operation is one atomic step. The multithreaded builder and query parser and `Driver` are outside the core.
- The write lock taken at WebCrawler.java:92 is never released when `new URL` throws inside the loop. Locks are not modelled, so this is not represented.
- File, socket and console I/O, logging, and `IOException` handling are not modelled. Files and responses arrive as sequences of lines. A read error would yield an empty or partial list, and that case is not modelled.
- `DirectoryTraverser` is not modelled. `IndexBuilder.Build` takes the files as a sequence of path and lines.
- `add(String, Path, Integer)` normalizes the path with `toAbsolutePath().normalize()`. The model takes the normalized path string.
- URL handling is not modelled. `new URL(base, link).getPath()` is the `resolve` parameter, which answers Malformed, NoPath or a path. The absolute URL of a task is an `Option` parameter.
- `HTMLFetcher`, `HTMLLinkParser.listLinks`, `HTMLCleaner.cleanHTML` and `parseWords` are not modelled. A page arrives as its list of links and list of words.
- `craftRequest` is not modelled. Fetching starts from the response lines.
- Character handling covers ASCII only. `toLowerCase` is locale- and Unicode-dependent; for example U+212A KELVIN SIGN lowercases to 'k'. The model lowercases A-Z only. `String.compareTo` compares UTF-16 code units, while the model compares Unicode scalar values; the two differ for characters outside the Basic Multilingual Plane.
- `SearchResults.Update`: frequencies are unbounded integers. Java's `int` sum would wrap past 2^31 - 1.
- `InvertedIndex.AddAll`: Java stores the merged index's inner maps and lists by reference (aliasing). The model copies values.
- `split("\\s")` drops trailing empty strings in Java. The model keeps them; every caller discards empty pieces, so the results agree.
- HashMap iteration order is not specified. `Values` lists the entries in key order, and `PartialSearchAnyOrder` shows that the order does not reach the result.
- `IndexSearch.PartialSearch`, `IndexSearch.Values`, `QueryParser.Answer` and `InvertedIndex.IndexText` are ghost functions. TreeMap order is defined by choosing the least key (`SortedKeys`), which is not executable.

## Findings

| source | as written | input that shows it | evidently intended | confidence | as-written member | corrected member |
|---|---|---|---|---|---|---|
| ArgumentParser/WebCrawler.java:140 | `crawl` records the seed's whole URL, but the loop at lines 95-98 records and checks `getPath()` values | seed `http://h/a.html` whose page links to `a.html`: the path `/a.html` is not in the set, so the seed page is scheduled, fetched and indexed a second time | every page, the seed included, is fetched once | medium, not executed | WebCrawler.SeedRevisited | WebCrawler.SeedByPathNotRevisited |
