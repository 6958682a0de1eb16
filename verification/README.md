# Message catalogs, argp, a lock benchmark and ancillary data: a verified model

A Dafny model of four parts of the GNU C library, with proofs of what they are for.

**Message catalogs.** `gencat` compiles message texts into a binary catalog, and `catgets`
looks them up. `read_input_file` keeps a sorted list of messages per set and renumbers symbolic
messages when they collide with numbered ones; `normalize_line` decodes escape sequences in
place; `read_old` merges an existing catalog; `write_out` searches for the smallest
two-dimensional hash table, fills it, and writes it in both byte orders; `__open_catalog`
decodes the file on any machine; `catgets` probes the table. The main results: the search finds
the global optimum; the table is an exact index of the map from (set, message) to text; a file
written and read on machines of any byte orders answers every lookup like that map; merging is
the overriding union; the lists stay sorted, distinct and bounded after every line; and from the
input lines of one or two runs to a lookup on another machine, the text found is the one the lines
define, as long as the table fits the 32-bit fields of the file, and exactly when it does.

**Argp.** The parser flattens a tree of option tables into getopt tables (`convert_options`) and
dispatches options back to the groups they came from; the help code flattens the same tree
independently (`argp_hol`). The main results: an option shown by help is handed by the parser to
the argp that help shows it for, and exactly when; everything written fits the storage measured
beforehand, and exactly when; the bit-packed long-option values decode, and exactly when; the
order of help entries is lexicographic order of a key; usage patterns are counted by a mixed-radix
odometer that prints every combination once, and ends exactly when no level overflows; and over
every complete run each group sees its keys in the promised order up to the first error, with its
own input and child inputs, and arguments are credited to the groups that accepted them.

**The producer/consumer benchmark.** Two threads, one mutex, two condition variables, as a state
machine over atomic steps with spurious wakeups: safety, absence of deadlock, and a bound on
the length of every run.

**Ancillary data.** The `CMSG_*` macros of section 4.3.2 of RFC 2292: objects laid out with them
are visited once each and in order, and exactly when; walks over arbitrary headers advance
and end.

## How the model is built

- Code that updates things in place is modelled that way: `SetList`, `Catalog`, `Tables` and
  `Parser` are classes, the hash table, the getopt tables, the level vector and the line buffer
  are arrays, and loops are loops. Each method is proved against a function or predicate on
  values, and the laws are lemmas about those. So that a law does not lean on the definition that a
  method shares with its specification, the `Laws` modules and `FileBytes`, `WrittenColumn` and
  `HashIsProduct` restate the results on what a caller sees: bytes, characters, line numbers, fields
  of entries, paths in the tree, calls and answers.
- Linked lists are sequences held in fields. Message texts are byte strings without NULs.
- An opened catalog file is followed in memory by some number of zero bytes: the rest of the last
  page if the file is mapped, none if it is read into a buffer.
- iconv is a partial function; what it refuses is a missing text. A line of an input file is
  taken after tokenisation.
- Numbers read from input files are unbounded; the writer requires them to be `int`s, and models
  the 32-bit product of set and message number with wrap-around and sign extension.
- User parser functions of argp are an arbitrary function of everything they have seen so far,
  and getopt is an arbitrary sequence of answers within its contract (`ArgpLifecycle.Proper`). A
  run of `argp_parse` ends, or is unfinished after the last of these answers. A run is a value: the
  INIT calls, one record for each round of the loop, and the closing calls.
- Identity of pointers is replaced by paths: an argp is known by the child indices that lead to it.

Where the code and its comments disagree, the model follows the code:

- `argp-help.c` line 873 puts entries with a short option after those without; the comment says before.
- `argp-help.c` lines 695 and 719 order clusters of one group by decreasing index.
- `argp-parse.c` line 695 sets `next` to the end of the vector after every accepted ARGP_KEY_ARGS,
  also when the parser function has changed it.
- `argp.h` lines 138-140 say that no calls follow ARGP_KEY_ERROR; ARGP_KEY_FINI does.
- `gencat.c` line 481 marks deleted sets, but nothing reads the mark.
- The first symbolic `$set` gets number 1, which is also the number of the default set.

## Model

| member | source | states |
|---|---|---|
| `MessageIndex.MessageMapContents` | original/catgets/gencat.c:952-981 | for distinct keys the plain map holds exactly the messages met by the writer's loops |
| `MessageIndex.DepthUpToBounds` | original/catgets/gencat.c:887-909 | the depth is an upper bound of all column counts and is 1 or one of them |
| `MessageIndex.DepthIsLargestBucket` | original/catgets/gencat.c:887-909 | a bound of the column counts that is 1 or attained is the depth |
| `MessageIndex.HashIsProduct` | original/catgets/gencat.c:896-897 | the hash is the one number that is congruent to set times message modulo 2^32 and a sign-extended `int`; up to INT_MAX it is the product itself |
| `MessageIndex.RestIsBucket` | original/catgets/catgets.c:100 | a message goes to a column if and only if that number, or up to INT_MAX the product, leaves the rest of the column |
| `MessageIndex.CountIsAlike` | original/catgets/gencat.c:889-909 | the count of a column is the number of messages whose products leave its rest |
| `MessageIndex.DepthIsMostAlike` | original/catgets/gencat.c:887-909 | the depth is the largest number of messages whose products leave the same rest, or 1 |
| `TableSearch.CountSet` | original/catgets/gencat.c:894-907 | counting one set keeps the counters at most the true counts, exact unless left early; leaving early proves the size too expensive |
| `TableSearch.MeasureDepth` | original/catgets/gencat.c:885-911 | the measured depth is at most the true one, and is the true one whenever the size would be accepted, although the early exit leaves only the inner loop |
| `TableSearch.UntestedSizesLose` | original/catgets/gencat.c:883-920 | when the loop ends, the best tested size beats every untested one |
| `TableSearch.ChooseSize` | original/catgets/gencat.c:868-927 | the search ends with the size of least space over all sizes from the start value on, the largest such size, and its exact depth, which is the largest number of messages whose products leave the same rest; it falls back to 1 x 1 exactly if no size fits or the optimum is the sentinel itself |
| `TableSearch.OptimumBeats` | original/catgets/gencat.c:883-920 | no size from the start value on, with the depth that its rests need, takes less space, and none that takes as little is larger |
| `TableSearch.RealisticSizesAreFeasible` | original/catgets/gencat.c:868-927 | if start size times message count stays below UINT_MAX the fallback is not taken |
| `TableLookup.FreeCell` | original/catgets/gencat.c:960-964 | the walk down a column ends inside the table at its first free cell |
| `TableLookup.Store` | original/catgets/gencat.c:960-970 | storing a message appends its cell to its column |
| `TableLookup.TableOfHolds` | original/catgets/gencat.c:952-981 | if no column overflows, every column holds exactly its cells in order and is free below |
| `TableLookup.PrefixShallow` | original/catgets/gencat.c:952-981 | the measured depth has room for every prefix of the messages |
| `TableLookup.FillSet` | original/catgets/gencat.c:957-978 | the inner loop extends table and string pool by the messages of one set |
| `TableLookup.Fill` | original/catgets/gencat.c:952-983 | filling never leaves the size x depth array and gives the table and pool of all messages; `WrittenColumn` says which column that is |
| `TableLookup.CellLeadsToText` | original/catgets/gencat.c:966-975 | the 32-bit offset stored with a message leads back to its text |
| `TableLookup.Probe` | original/catgets/catgets.c:100-110 | the probing loop stays inside the table and finds the cell with the key, or the column has none |
| `TableLookup.Catgets` | original/catgets/catgets.c:87-114 | the stored text for every present key and the default for every absent or negative one |
| `TableLookup.FoundInColumn` | original/catgets/catgets.c:104-106 | a cell with the key leads to the text of that key in the map |
| `TableLookup.AbsentFromColumn` | original/catgets/catgets.c:102-113 | a key that its column does not hold is not in the map |
| `CatalogFile.SwapReversesBytes` | original/bits/byteswap.h:44-46 | the swap macros of writer and reader are the same function and reverse the bytes |
| `CatalogFile.WordsRoundTrip` | original/catgets/gencat.c:1005-1018 | words written and read in one byte order come back |
| `CatalogFile.WordsSwapped` | original/catgets/gencat.c:985-987 | the swapped table in one byte order is the table in the other |
| `CatalogFile.SwapTable` | original/catgets/gencat.c:985-987 | the second array holds the swapped words |
| `CatalogFile.Write` | original/catgets/gencat.c:1005-1021 | the file is the header in the writer's order, the table little endian, the table big endian, the strings |
| `CatalogFile.FileBytes` | original/catgets/gencat.c:929-1021 | byte by byte: the magic number, the size and the depth in the order of the machine, every word of the table lowest byte first, again highest byte first, and the strings |
| `CatalogFile.DecodeHeader` | original/catgets/open_catalog.c:256-281 | whatever the two byte orders, the magic number is recognised and the dimensions recovered |
| `CatalogFile.DecodeTables` | original/catgets/open_catalog.c:283-299 | each reader finds the table in its own byte order, and the strings behind both |
| `CatalogFile.Decode` | original/catgets/open_catalog.c:256-299 | a written file decodes to what was written, on any machine |
| `CatalogFile.LargestOffset` | original/catgets/open_catalog.c:301-306 | the largest third word of a cell |
| `CatalogFile.FindEnd` | original/catgets/open_catalog.c:315-323 | the scan finds the end of a terminated string, and one that begins outside the file finds a zero byte behind it or leaves the memory |
| `CatalogFile.Open` | original/catgets/open_catalog.c:256-326 | a written file whose strings are terminated is accepted as what was written; of one without messages the scan for the last string reads outside the file, and it is accepted if a zero byte follows there |
| `MessageList.SetList.FindNumber` | original/catgets/gencat.c:596-606 | the position of a number, or the end if it is absent |
| `MessageList.SetList.Insert` | original/catgets/gencat.c:785-804 | insertion keeps the list sorted and changes only the new number |
| `MessageList.SetList.Evict` | original/catgets/gencat.c:621-644 | an evicted symbolic message moves to the end under the next free number, and the list stays sorted and bounded |
| `MessageList.SetList.AddNumbered` | original/catgets/gencat.c:589-651 | a numbered line: refused for 0 and for a user's number, else the number gets the text and an evicted symbolic message keeps symbol and text |
| `MessageList.SetList.AddSymbolic` | original/catgets/gencat.c:652-676 | a symbolic line: refused for a known identifier, else the next free number |
| `MessageList.SetList.MergeOld` | original/catgets/gencat.c:1279-1320 | one old message: kept if absent, overridden if present, both removed if the new text is empty |
| `MessageList.EvictedItem` | original/catgets/gencat.c:621-644 | the values behind `Evict`: sorted, within bounds, distinct symbols, and exactly which lookups change |
| `MessageList.SortedUnique` | original/catgets/gencat.c:785-804 | a sorted list is determined by what is found in it |
| `CatalogSource.Catalog.constructor` | original/catgets/gencat.c:292-302 | the catalog starts with an empty default set, no last set number and no messages |
| `CatalogSource.Catalog.FindSet` | original/catgets/gencat.c:1097-1119 | the set with this number, new and empty in front of the others if there is none; numbers stay distinct and at least 1 |
| `CatalogSource.Catalog.Select` | original/catgets/gencat.c:456-465 | the chosen set becomes current and takes the symbol, other sets keep theirs |
| `CatalogSource.Catalog.Mark` | original/catgets/gencat.c:456-482 | changing symbol or mark of a set changes nothing else |
| `CatalogSource.Catalog.SelectNumber` | original/catgets/gencat.c:395-405 | `$set` with a number selects the set and raises the last set number to it; `SymbolicSetNumber` says what for |
| `CatalogSource.Catalog.SelectSymbol` | original/catgets/gencat.c:420-465 | `$set` with an identifier: refused if used, else the next set number |
| `CatalogSource.Catalog.DeleteNumber` | original/catgets/gencat.c:467-482 | `$delset` with a number creates the set if need be and marks it, and no more |
| `CatalogSource.Catalog.AddMessage` | original/catgets/gencat.c:575-807 | a message line changes exactly messages and last number of the current set and the message count, as stated |
| `CatalogSource.Catalog.ReadLine` | original/catgets/gencat.c:387-807 | the new state of all sets, current set, last set number and message count is what the line makes of the old one, which the laws of `CatalogLaws` spell out for every kind of line |
| `CatalogSource.Catalog.ReadInput` | original/catgets/gencat.c:266-841 | the final state is reached by the steps of all lines in order; in every state on the way set numbers are distinct and at least 1, lists strictly increasing and bounded by their last number |
| `CatalogSource.Catalog.MergeMessage` | original/catgets/gencat.c:1279-1320 | merging one old message changes exactly its own lookup, and counts it exactly if it is new |
| `CatalogSource.LineKeeps` | original/catgets/gencat.c:575-807 | a numbered message stays as it is, a symbolic one stays under the same or a higher number |
| `CatalogSource.LineStepDetermined` | original/catgets/gencat.c:387-807 | a line has only one effect, so the lines determine the whole state |
| `CatalogSource.LineStepKeeps` | original/catgets/gencat.c:387-807 | no line loses an earlier message, and lines that define none change no text |
| `CatalogSource.InputKeeps` | original/catgets/gencat.c:266-841 | a message present after any line is there after the last: unchanged if numbered, under the same or a higher number if symbolic |
| `CatalogSource.NumberedLineDecides` | original/catgets/gencat.c:589-651 | the first numbered line for a number in a set decides its text for good, also against a symbolic message that has the number |
| `CatalogLaws.SetLineSelects` | original/catgets/gencat.c:395-465 | which set a `$set` line selects, and that only these lines change the current set and the last set number: a number raises it, a new identifier takes the next one |
| `CatalogLaws.LastSetIsLargest` | original/catgets/gencat.c:395-465 | over every input, the last set number is the largest that lines have given |
| `CatalogLaws.SymbolicSetNumber` | original/catgets/gencat.c:420-454 | a set named by a new identifier gets the number one above all that earlier lines have given |
| `CatalogLaws.SymbolicSetIsApart` | original/catgets/gencat.c:420-454 | hence it is never one that an earlier `$set` line selected |
| `CatalogLaws.IdentifierIsUsed` | original/catgets/gencat.c:430-449 | a second `$set` with the same identifier is refused |
| `CatalogLaws.SetIdentifiers` | original/catgets/gencat.c:456-465 | the selected set has the identifier of its line, or loses the one it had; all other sets are as before |
| `CatalogLaws.SetStaysCurrent` | original/catgets/gencat.c:395-465 | lines between two `$set` lines concern the set of the first |
| `CatalogLaws.MessageOfSet` | original/catgets/gencat.c:589-651 | a numbered message behind `$set` with a number is found at the end in that set, under its number, with its text, unless the user had given the number before |
| `CatalogLaws.MessageOfDefaultSet` | original/catgets/gencat.c:292-302 | messages before the first `$set` line are found in set 1 |
| `CatalogLaws.SymbolicMessageDefines` | original/catgets/gencat.c:652-676 | a new symbolic message gets a number above all in its set, and at the end is found with its identifier and text under this number or, if evicted, a higher one |
| `CatalogLaws.RefusedLine` | original/catgets/gencat.c:589-676 | a line with number 0, with a number of the user, or with a known identifier changes no set |
| `CatalogLaws.LastMessageNumber` | original/catgets/gencat.c:589-676 | the last number of a set after every kind of message line, and where an evicted message is found |
| `CatalogLaws.MessageCount` | original/catgets/gencat.c:575-807 | which lines are counted: every message line, also a refused one, but not one that is accepted and cannot be converted |
| `Gencat.EntriesDistinct` | original/catgets/gencat.c:889-909 | sorted lists in distinct sets give distinct keys |
| `Gencat.MapIsLookup` | original/catgets/gencat.c:952-981 | the map that the table indexes is the contents of the lists |
| `Gencat.NextCell` | original/catgets/gencat.c:1265-1277 | a cell of the old table is free or contributes one new key with its text |
| `Gencat.AllKeysReached` | original/catgets/gencat.c:1265-1321 | the loop over the cells meets exactly the keys of the old catalog |
| `Gencat.ReadOld` | original/catgets/gencat.c:1242-1322 | the merge is the overriding union: new texts win, old keys without a new text are kept, an empty new text removes the message; lists stay sorted, sets distinct, and the message count grows by the number of new keys |
| `Gencat.NewKeysStep` | original/catgets/gencat.c:1279-1320 | each cell adds to the count exactly if its key is not there yet |
| `Gencat.MergeKeepsFits` | original/catgets/gencat.c:1242-1322 | merging a catalog whose numbers are `int`s leaves all numbers `int`s |
| `Gencat.MergeIntoNothing` | original/catgets/gencat.c:1242-1322 | merging into any catalog without messages, like one with only its empty default set, reproduces the old map |
| `Gencat.Snapshot` | original/catgets/gencat.c:952-981 | the messages as the writer's nested loops meet them |
| `Gencat.TableFits` | original/catgets/gencat.c:929-935 | what the search settles on is the optimum with a size in bytes below 2^32 if and only if some table from the start size on has such a size |
| `Gencat.StartSuffices` | original/catgets/gencat.c:868-927 | the start size with all messages in one column being small is enough |
| `Gencat.WriteOut` | original/catgets/gencat.c:843-1024 | the file is the image of an optimal table that indexes exactly the messages of the lists, whenever `TableFits` has a table |
| `Gencat.RepresentedIsTerminated` | original/catgets/open_catalog.c:301-323 | a catalog with a message passes the reader's string checks |
| `Gencat.EmptyCatalog` | original/catgets/gencat.c:929-935 | the table of a catalog without messages is all zeros and its string pool empty |
| `Gencat.WrittenColumn` | original/catgets/gencat.c:957-970 | in the words of a written table, every occupied cell number leaves the same rest modulo the size as the product of its set and message words, as an `int` made a `size_t`; up to INT_MAX as the product itself |
| `Gencat.OpenWritten` | original/catgets/open_catalog.c:218-326 | on any machine a written catalog is opened as what was written if and only if it holds a message or a byte behind the file can be read |
| `Gencat.LookUp` | original/catgets/catgets.c:87-114 | written on one machine and opened on another, the file answers every lookup like the map written, with or without messages, unless opening it leaves the memory |
| `Gencat.RecompiledMessage` | original/catgets/gencat.c:843-1024 | input, merge, compilation and lookup together: which text is found for every key |
| `Gencat.Recompile` | original/catgets/gencat.c:843-1322 | all of `write_out`: the old file of any machine is opened and merged, and the new file is the image of a table of exactly the merged messages |
| `Gencat.MergeFile` | original/catgets/gencat.c:1242-1322 | opening the old file and merging: all its messages are merged, unless opening leaves the memory; no file, no change |
| `Gencat.Compile` | original/catgets/gencat.c:266-1322 | the same from the input lines on: the file holds what the steps of the lines, or else the old file, define |
| `Gencat.CompileAndLookUp` | original/catgets/gencat.c:266-1322 | `gencat` and then `catgets` on another machine: the text found for every key is the one of the lines, or the old one, or the default |
| `GencatRuns.MergedIsSmall` | original/catgets/gencat.c:1242-1322 | merging adds no more messages and no more bytes than the old catalog has |
| `GencatRuns.ListGrows` | original/catgets/gencat.c:589-676 | a message line adds at most one message and its text, also when it evicts another one |
| `GencatRuns.InputGrows` | original/catgets/gencat.c:266-841 | messages, bytes and numbers after any lines are bounded by those in the lines |
| `GencatRuns.ModerateLinesFit` | original/catgets/gencat.c:843-1024 | bounds on the numbers, the count and the texts of the lines are enough for everything to fit the file |
| `GencatRuns.CompileTwice` | original/catgets/gencat.c:266-1322 | two runs for one output file and a lookup, on machines of any byte orders: the second run's text, else the first run's; an empty text of the second removes that of the first |
| `GencatRuns.TextsOfBoth` | original/catgets/gencat.c:1279-1320 | what these texts are, case by case |
| `NormalizeLine.ReadOctal` | original/catgets/gencat.c:1179-1194 | an octal escape takes the digits the decoder takes, and its value is at most 255 |
| `NormalizeLine.ReadToken` | original/catgets/gencat.c:1140-1229 | what stands at the read cursor is the decoder's first token, character by character as the laws of `EscapeLaws` say |
| `NormalizeLine.Advance` | original/catgets/gencat.c:1140-1229 | one turn of the loop: the write cursor stays behind the read cursor and nothing unread is overwritten |
| `NormalizeLine.Normalize` | original/catgets/gencat.c:1124-1239 | decoding in place refines the decoder on values, for which the laws of `EscapeLaws` hold, ends, is no longer than the line, and reports unterminated lines and invalid escapes |
| `NormalizeLine.EscapedRoundTrip` | original/catgets/gencat.c:1124-1239 | every text, escaped and put between quotes, is a quoted line that decodes to itself and is terminated |
| `EscapeLaws.OrdinaryCharacter` | original/catgets/gencat.c:1140-1229 | for every rest of a line: an ordinary character stands for itself, and the escape character makes the quote character and itself ordinary |
| `EscapeLaws.QuoteEndsText` | original/catgets/gencat.c:1140-1144 | a quote character that is not escaped ends the text |
| `EscapeLaws.OpeningQuote` | original/catgets/gencat.c:1132-1138 | only a quote character at the very beginning is dropped |
| `EscapeLaws.ControlCharacter` | original/catgets/gencat.c:1155-1178 | for every rest of a line: n, t, v, b, r and f behind the escape character stand for 10, 9, 11, 8, 13 and 12 |
| `EscapeLaws.UnknownEscape` | original/catgets/gencat.c:1215-1225 | behind any other character only the escape character is dropped |
| `EscapeLaws.OctalCharacter` | original/catgets/gencat.c:1179-1214 | an octal escape stands for the character that iconv makes of its value in base 8, or is counted as invalid and stands for nothing |
| `EscapeLaws.OctalLengths` | original/catgets/gencat.c:1189-1194 | how many digits it takes: three if the first is 1 to 3, two if it is larger, and at most those before another character |
| `EscapeLaws.OctalValues` | original/catgets/gencat.c:1189-1194 | the values of one, two and three digits |
| `ArgpConvert.TreeOwned` | original/argp/argp-parse.c:297-396 | for every tree, options belong to the group of their argp and `short_end` splits the short-option string between groups |
| `ArgpTreeLaws.OptionOfTree` | original/argp/argp-parse.c:310-393 | every option of the tables is one of the argp that its path leads to, with the last option before it that is no alias as its base |
| `ArgpTreeLaws.InPreorder` | original/argp/argp-parse.c:310-393 | the options of an argp come before those below it, and those of a child before those of the next |
| `ArgpTreeLaws.WholeVector` | original/argp/argp-parse.c:310-359 | every option vector of the tree is there, in one piece and in its order |
| `ArgpTreeLaws.ShortCharacters` | original/argp/argp-parse.c:320-331 | the short-option string is, option after option, the key and one colon for an argument, two for an optional one |
| `ArgpTreeLaws.GroupOfTree` | original/argp/argp-parse.c:361-393 | every group is that of an argp of the tree, has its number of children, and has a parent exactly if the argp above has a group |
| `ArgpTreeLaws.GroupsInPreorder` | original/argp/argp-parse.c:361-393 | groups are in preorder of their argps, no two for one argp |
| `ArgpTreeLaws.EveryGroup` | original/argp/argp-parse.c:306-308 | every argp with options or a parser function has a group |
| `ArgpTreeLaws.CountsAre` | original/argp/argp-parse.c:438-463 | the sizing counts a group for each argp with options or a parser function, and a child for each argp but the root |
| `ArgpConvert.StrchrAtFirstCarrier` | original/argp/argp-parse.c:724 | the first occurrence of a character in the string is among those of the first option that carries it, as key or as the colon of an argument |
| `ArgpConvert.DispatchToFirstCarrier` | original/argp/argp-parse.c:719-736 | any character goes to the group of the argp whose option is the first in preorder to carry it |
| `ArgpConvert.DispatchOrderingCharacter` | original/argp/argp-parse.c:719-736 | the ordering character in front of the string goes to the first group, whoever declares it |
| `ArgpConvert.DispatchExactly` | original/argp/argp-parse.c:719-736 | for every tree and every character, a group gets it if and only if it is the first group and the character the ordering one, or it has the first carrier |
| `ArgpConvert.DispatchToFirstDeclarer` | original/argp/argp-parse.c:719-736 | a short option goes to the group of the argp that declares it first in preorder |
| `ArgpConvert.UncarriedNotDispatched` | original/argp/argp-parse.c:719-736 | a character that no option carries goes nowhere |
| `ArgpConvert.EncodingIsExact` | original/argp/argp-parse.c:351-353 | decoding an encoded value gives back group and key if and only if there are at most 127 groups and the key has 24 bits with sign |
| `ArgpConvert.EncodedValuesAreDistinct` | original/argp/argp-parse.c:54-67 | encoded values are above every character, KEY_END, KEY_ARG and KEY_ERR |
| `ArgpConvert.LongValuesAreApart` | original/argp/argp-parse.c:54-67 | no value of the long-option table built for a tree is KEY_END, KEY_ARG, KEY_ERR or the key of a short option |
| `ArgpConvert.LongTable` | original/argp/argp-parse.c:333-357 | names in the long-option table are unique, complete, and owned by the first declarer in preorder |
| `ArgpTreeLaws.LongArguments` | original/argp/argp-parse.c:338-343 | every entry of the table has no, an optional or a required argument as the first declarer of its name says, or the option that this one is an alias of |
| `ArgpConvert.DispatchLong` | original/argp/argp-parse.c:738-743 | a long option goes to the group of the first declarer of its name, with the user's own key |
| `ArgpConvert.TreeLaidOut` | original/argp/argp-parse.c:361-393 | child-input slices are pairwise disjoint and every parent is an earlier group with a slot for the child |
| `ArgpConvert.SlotsSuffice` | original/argp/argp-parse.c:457-462 | the slots assigned are no more than the children counted |
| `ArgpTables.CalcSizes` | original/argp/argp-parse.c:438-463 | the sizes are three characters and one entry an option, one group an argp with options or parser, one slot a child |
| `ArgpTables.Tables.FindLongOption` | original/argp/argp-parse.c:184-197 | whether the table has the name |
| `ArgpTables.Tables.AddShort` | original/argp/argp-parse.c:320-331 | a short option adds its characters and keeps the string terminated |
| `ArgpTables.Tables.AddLongOption` | original/argp/argp-parse.c:333-357 | a long option is added unless its name is there, and the table stays terminated |
| `ArgpTables.Tables.AddOptions` | original/argp/argp-parse.c:310-359 | the options of one argp, within the room reserved |
| `ArgpTables.Tables.MakeGroup` | original/argp/argp-parse.c:306-383 | the group of one argp, within the room reserved |
| `ArgpTables.Tables.ConvertOptions` | original/argp/argp-parse.c:297-396 | everything written for a tree fits the room reserved and is the tree's short string, long table and groups |
| `ArgpTables.Tables.ConvertChildren` | original/argp/argp-parse.c:387-393 | the same of the loop over the children |
| `ArgpTables.Tables.FindShortGroup` | original/argp/argp-parse.c:719-736 | the loops of the dispatch compute the group of a short option |
| `ArgpTables.ShortStringFits` | original/argp/argp-parse.c:475-485 | the short-option string fits its storage if and only if ARGP_NO_ARGS is not given or some option needs less than three characters |
| `ArgpTables.NoArgsOverrun` | original/argp/argp-parse.c:409-413 | a tree for which it does not fit |
| `ArgpTables.ParserConvert` | original/argp/argp-parse.c:399-512 | sizing and conversion together: the storage is exactly what was measured, nothing leaves it, the group count is exact, and the tables are those of the tree, the string with its `-` or `+` in front |
| `ArgpHol.EntryOptions` | original/argp/argp-help.c:488-496 | one entry takes an option and its aliases, and adds the short keys not seen before |
| `ArgpHol.MakeHol` | original/argp/argp-help.c:433-502 | the list of one argp: first occurrences of its short keys, each entry pointing behind those before it |
| `ArgpHelpLaws.EntryOfArgp` | original/argp/argp-help.c:472-497 | every entry is an option with all its aliases, behind those of the entries before; its group is its own number, or that of the entry before, one more for a header |
| `ArgpHelpLaws.EntryOfTree` | original/argp/argp-help.c:1013-1034 | every entry of a tree is one of the argp at its path, in the cluster that the children with group or header on the way open, each with its index and in the one before |
| `ArgpHol.AppendEntry` | original/argp/argp-help.c:981-996 | short options of the second list are met in step with its string and added unless shadowed |
| `ArgpHol.HolAppend` | original/argp/argp-help.c:920-1011 | appending two lists gives the list of both |
| `ArgpHol.ArgpHol` | original/argp/argp-help.c:1013-1034 | the string of a tree is the first occurrences of all short keys in preorder, and every entry has its offset |
| `ArgpHol.FirstsDistinct` | original/argp/argp-help.c:488-496 | the string has no duplicates |
| `ArgpHol.ShortIterate` | original/argp/argp-help.c:553-576 | the loop accepts what the walk along the string accepts |
| `ArgpHol.WalkAcceptsFresh` | original/argp/argp-help.c:565-573 | the walk accepts exactly the short options whose keys have not occurred before |
| `ArgpHol.EntryAcceptsUnshadowed` | original/argp/argp-help.c:553-576 | in the list of a tree each entry selects exactly its unshadowed short options |
| `ArgpAgreement.SameOptions` | original/argp/argp-help.c:1013-1034 | both flattenings list the same options of the same argps in the same order |
| `ArgpAgreement.AcceptedIsUnshadowed` | original/argp/argp-help.c:553-576 | an option is accepted if and only if no option before it in the tree has its short key |
| `ArgpAgreement.UnshadowedDeclares` | original/argp/argp-parse.c:317-320 | an accepted option is the parser's first declarer of its key if and only if it is no alias of a documentation entry |
| `ArgpAgreement.ReachesExactly` | original/argp/argp-parse.c:719-736 | when the parser hands a short option to the argp of a given option, for every option of every tree |
| `ArgpAgreement.UnshadowedAccepted` | original/argp/argp-help.c:553-576 | every unshadowed short option is accepted by the entry that has it |
| `ArgpAgreement.AgreementCondition` | original/argp/argp-parse.c:719-736 | parser and help agree on a whole tree if and only if every unshadowed short option has a key that an option of its own argp is the first to carry, or is the ordering character and its argp the first |
| `ArgpAgreement.DocAliasDisagrees` | original/argp/argp-parse.c:317-320 | a tree on which they do not |
| `ArgpAgreement.HelpAgreesWithParser` | original/argp/argp.h:176-181 | an option shown by help is dispatched to its own argp if and only if the first carrier of its key is of that argp; it is itself that one unless it is an alias of a documentation entry or its key is a colon or the ordering character |
| `ArgpLongNames.LongIterate` | original/argp/argp-help.c:581-603 | help shows every visible long name of an entry, in order and without shadowing |
| `ArgpLongNames.GroupIsExact` | original/argp/argp-parse.c:351-353 | the group is decoded from a long-option value if and only if it is among the first 127, whatever the key |
| `ArgpLongNames.ReachesNameExactly` | original/argp/argp-parse.c:333-357 | a long option reaches the argp of an option with its name if and only if the first option of the name is of that argp |
| `ArgpLongNames.ShownNameAgrees` | original/argp/argp-help.c:581-603 | the same of every name that help shows |
| `ArgpLongNames.NameAgreementCondition` | original/argp/argp-help.c:581-603 | parser and help agree on the long names of a whole tree if and only if every visible name is first declared by the argp it is shown for |
| `ArgpLongNames.RepeatedNameDisagrees` | original/argp/argp-help.c:581-603 | a tree on which they do not: help shows a name for a child that the parser hands to its parent |
| `ArgpOrder.GroupCmpIsLex` | original/argp/argp-help.c:671-681 | groups are ordered 0, 1, 2, ..., -2, -1 |
| `ArgpOrder.CousinCmpIsLex` | original/argp/argp-help.c:683-721 | clusters of one depth compare by their paths of groups and reversed indices |
| `ArgpOrder.HolClusterCmp` | original/argp/argp-help.c:723-755 | the walks up to the common depth compute the comparison of clusters |
| `ArgpOrder.ClusterCmpIsLex` | original/argp/argp-help.c:723-755 | clusters of any depths compare by their paths, a cluster before those inside it |
| `ArgpOrder.HolClusterBase` | original/argp/argp-help.c:757-765 | the outermost cluster |
| `ArgpOrder.EntryCmpIsLex` | original/argp/argp-help.c:796-895 | entries compare lexicographically by a key, whose parts the laws of `ArgpOrderLaws` state on the fields of the entries |
| `ArgpOrder.EntryCmpIsTotalOrder` | original/argp/argp-help.c:785-795 | the four laws of the comment, reflexivity and antisymmetry |
| `ArgpOrderLaws.GroupOrder` | original/argp/argp-help.c:671-681 | comparing groups is exactly 0, 1, 2 and so on, then the negative ones up to -1 |
| `ArgpOrderLaws.OuterGroupFirst` | original/argp/argp-help.c:800-811 | entries are sorted by the groups of their outermost clusters, or their own outside clusters, before anything else |
| `ArgpOrderLaws.LooseEntryFirst` | original/argp/argp-help.c:813-818 | then entries in no cluster come before those in one |
| `ArgpOrderLaws.OuterClusterFirst` | original/argp/argp-help.c:723-755 | the entries of a cluster come before those of the clusters inside it |
| `ArgpOrderLaws.SiblingClusterFirst` | original/argp/argp-help.c:683-721 | of two clusters with one parent, the one of the earlier group comes first with all that is inside, and in one group the one with the larger index |
| `ArgpOrderLaws.OwnGroupFirst` | original/argp/argp-help.c:828-832 | in one cluster, or in none, entries are sorted by their own groups |
| `ArgpOrderLaws.TextLast` | original/argp/argp-help.c:836-847 | options, and documentation that looks like options, come before other documentation |
| `ArgpOrderLaws.CanonIs` | original/argp/argp-help.c:767-783 | what a documentation entry is sorted by: its name from the first letter or digit on; it is text unless a dash is the first character behind blanks |
| `ArgpOrderLaws.InitialsDecide` | original/argp/argp-help.c:855-870 | the first characters decide, ignoring case; between the two cases of a letter, the lower comes first |
| `ArgpOrderLaws.LongOnlyFirst` | original/argp/argp-help.c:872-877 | with the same first character, entries without a short option come first |
| `ArgpOrderLaws.LongNamesDecide` | original/argp/argp-help.c:879-892 | without short options the names decide, ignoring case, and are equal only if they differ in nothing but case |
| `ArgpOrderLaws.NamelessFirst` | original/argp/argp-help.c:879-884 | an entry without any name comes before one with a name |
| `ArgpOrderLaws.SameKeyUnordered` | original/argp/argp-help.c:894-895 | entries with the same short key have no order |
| `ArgpOrderLaws.EverySortedUnder` | original/argp/argp-help.c:757-765 | every entry has such a group |
| `ArgpOrderLaws.EverySorts` | original/argp/argp-help.c:604-632 | every entry has a short key and a name to sort by: of the first visible option that its list accepts, and of the first visible option with a name |
| `ArgpUsage.FindLine` | original/argp/argp-help.c:1519-1531 | the line selected by a level, and whether another follows |
| `ArgpUsage.OwnPattern` | original/argp/argp-help.c:1511-1538 | an argp prints the alternative its level selects |
| `ArgpUsage.NextCounts` | original/argp/argp-help.c:1542-1559 | as long as no argp has more alternatives than a level can count, a call counts the number that the levels stand for up by one, and carries exactly when it wraps to zero |
| `ArgpUsage.ValueInRange` | original/argp/argp-help.c:1484-1500 | the numbers are below the product of the alternative counts |
| `ArgpUsage.ValueInjective` | original/argp/argp-help.c:1484-1500 | different combinations have different numbers |
| `ArgpUsage.ArgsUsage` | original/argp/argp-help.c:1502-1560 | one call prints the combination, writes the next levels inside its part of the vector, and returns the carry; also when a level overflows |
| `ArgpUsage.ChildrenUsage` | original/argp/argp-help.c:1542-1544 | the same of the loop over the children |
| `ArgpUsage.HelpPatterns` | original/argp/argp-help.c:1699-1748 | the loop prints as many patterns as there are combinations, pattern k for number k, and ends with all levels zero |
| `ArgpUsage.EveryPatternOnce` | original/argp/argp-help.c:1699-1748 | hence every combination exactly once |
| `ArgpUsageLaws.LinesAre` | original/argp/argp-help.c:1519-1531 | the alternatives of an argp are the pieces of its text between newlines, one more than there are newlines |
| `ArgpUsageLaws.DocsInPreorder` | original/argp/argp-help.c:1542-1544 | argument texts are in preorder of their argps |
| `ArgpUsageLaws.PatternIs` | original/argp/argp-help.c:1502-1560 | a pattern is the argument texts in preorder, each with the line that its own level selects |
| `ArgpUsageLaws.OwnLevelMovesLast` | original/argp/argp-help.c:1546-1559 | the level of an argp moves only when all below it have come round |
| `ArgpUsageLaws.LaterChildMovesLast` | original/argp/argp-help.c:1542-1544 | the levels of a child move only when those of the children before have come round |
| `ArgpUsage.StaysInRange` | original/argp/argp-help.c:1519-1559 | whatever overflows, levels keep selecting existing lines; a tree with an argp of more than 128 alternatives never carries |
| `ArgpUsage.LevelsCount` | original/argp/argp-help.c:1699-1748 | after n calls the levels stand for n while combinations are left |
| `ArgpUsage.EndsExactly` | original/argp/argp-help.c:1699-1748 | the loop ends if and only if no argp has more than 128 alternatives |
| `ArgpLifecycle.TreeIsLaid` | original/argp/argp-parse.c:361-393 | the groups of every tree have disjoint slices and earlier parents |
| `ArgpLifecycle.Parser.GroupParse` | original/argp/argp-parse.c:229-248 | one call: what the parser function is shown, and that only its own child inputs and `next` change |
| `ArgpLifecycle.KeptStep` | original/argp/argp-parse.c:229-248 | a call that shows the stored inputs of its group keeps the record, and changes no other group's child inputs |
| `ArgpLifecycle.Parser.HandInput` | original/argp/argp-parse.c:522-534 | a group's input is what its parent left in its slot; without a parser function it goes on to the first child |
| `ArgpLifecycle.Parser.InitPass` | original/argp/argp-parse.c:514-539 | INIT in order until an error, each child with the input that its parent left in its slot |
| `ArgpLifecycle.Parser.InitGroup` | original/argp/argp-parse.c:522-536 | one round of it |
| `ArgpLifecycle.Parser.OfferGroup` | original/argp/argp-parse.c:677-688 | an argument is offered as ARG, and if refused as ARGS |
| `ArgpLifecycle.Parser.ParseArg` | original/argp/argp-parse.c:656-708 | groups are tried in order until one does not refuse; the exact new `next`, getopt state and counts: the accepting group is credited with what was consumed, and an argument all refuse leaves `next` on it |
| `ArgpLifecycle.ArgCredited` | original/argp/argp-parse.c:691-701 | if `next` is left alone, every group's count, and their sum, is the number of arguments accepted |
| `ArgpLifecycle.Parser.ParseOpt` | original/argp/argp-parse.c:710-743 | an option goes to the group it belongs to, with the user's key, or to none |
| `ArgpLifecycle.Parser.ParseNext` | original/argp/argp-parse.c:769-858 | one round of the loop: from getopt's answer, the quoted region and the flags, whether it ends, offers the argument at which index, or hands an option to its group; the new `next`, `quoted` and `try_getopt` as functions of the old ones, the answer and the calls; exactly when an unknown key is no error, which `RefusedArgument` and its neighbours state on the calls |
| `ArgpLifecycle.RoundLeaves` | original/argp/argp-parse.c:656-858 | if the parser functions leave `next` alone: it is getopt's index after an option, on a refused argument, behind an accepted one, and at the end after ARGS |
| `ArgpLifecycle.RoundCredited` | original/argp/argp-parse.c:656-858 | then every round keeps each group's count equal to the arguments it has accepted |
| `ArgpRunLaws.AskedAnswers` | original/argp/argp-parse.c:786-858 | what each answer of getopt leads to: no call, one call for an option, an argument where getopt stands, or the next one unless there is none or ARGP_NO_ARGS is given |
| `ArgpRunLaws.NotAsked` | original/argp/argp-parse.c:827-852 | where getopt is not asked no option is handed out, and the argument offered is the next one |
| `ArgpRunLaws.NotAskedOffers` | original/argp/argp-parse.c:827-852 | and one is offered exactly if there is one and ARGP_NO_ARGS is not given |
| `ArgpRunLaws.QuotedRegion` | original/argp/argp-parse.c:779-817 | where the quoted region begins after a round: a "--" behind the program name opens it, asking getopt or a `next` before it closes it |
| `ArgpRunLaws.QuotedArguments` | original/argp/argp-parse.c:779-817 | from a "--" on, as long as `next` stays behind it, getopt is not asked and no argument is taken for an option, whatever the parser functions do |
| `ArgpRunLaws.ArgumentsAfterEnd` | original/argp/argp-parse.c:804-847 | once getopt is done, and if `next` is left alone, the rest are arguments, offered one after the other |
| `ArgpRunLaws.SetBackAsksAgain` | original/argp/argp-parse.c:697-704 | a parser function that accepts an argument and sets `next` back to it makes the loop ask getopt again, and is not credited |
| `ArgpRunLaws.OfferOrder` | original/argp/argp-parse.c:671-687 | an argument goes to group 0 as ARG; a refused ARG is followed by ARGS to the same group, a refused ARGS by ARG to the next, and anything else ends the round |
| `ArgpRunLaws.ArgsTakesAll` | original/argp/argp-parse.c:691-695 | a group that accepts ARGS has all arguments, wherever it leaves `next` |
| `ArgpRunLaws.AcceptedCounts` | original/argp/argp-parse.c:689-701 | if `next` is left alone, ARG counts one for its group, ARGS all that are left, and nothing else changes a count |
| `ArgpLifecycle.Parser.NoArgsPass` | original/argp/argp-parse.c:581-585 | NO_ARGS goes in order to the groups that processed no argument, until an error |
| `ArgpLifecycle.Parser.DownPass` | original/argp/argp-parse.c:586-589 | a pass from the last group to the first, until an error |
| `ArgpLifecycle.Parser.ErrorPass` | original/argp/argp-parse.c:626-628 | ERROR to every group |
| `ArgpLifecycle.Parser.EndPasses` | original/argp/argp-parse.c:574-610 | a parse without error: NO_ARGS and END if all arguments are parsed, the end index if asked for, else an error for arguments left over |
| `ArgpLifecycle.Parser.Notify` | original/argp/argp-parse.c:612-641 | ERROR to all groups, or SUCCESS from the last to the first |
| `ArgpLifecycle.Parser.FiniPass` | original/argp/argp-parse.c:644-646 | FINI to every group, children first |
| `ArgpLifecycle.Parser.Finalize` | original/argp/argp-parse.c:564-654 | which passes are made, ERROR exactly if there is an error before them, the end index, and that the error for unknown keys is never returned |
| `ArgpRun.ArgpParse` | original/argp/argp-parse.c:895-913 | every finished run is a complete INIT pass, rounds of the loop as long as there is no error, and the closing passes for exactly the error, index and counts with which the loop ended; every reply is the parser function's own, and every request shows the group its own input, child inputs and count; a failed INIT pass hands inputs down like a complete one; the error for unknown keys is never returned |
| `ArgpRun.GroupStory` | original/argp/argp.h:126-140 | what one group sees: INIT, options and arguments, perhaps NO_ARGS if it processed none, perhaps END, ERROR or perhaps SUCCESS, and one FINI at the end; after an error of the loop ERROR and FINI at once |
| `ArgpRun.SuccessStory` | original/argp/argp.h:126-140 | a run without error shows exactly one of the documented sequences: with END, with NO_ARGS and END, or without both if arguments are left over, which needs the end index to be asked for |
| `ArgpRun.ErrorIsLast` | original/argp/argp-parse.c:895-906 | options and arguments are offered up to the first error: only the last call of the loop can fail, and its error is that of the loop |
| `ArgpRun.RoundsCredited` | original/argp/argp-parse.c:656-708 | if `next` is left alone, in every state of the loop each group's count, and their sum, is the number of arguments accepted |
| `ArgpRun.RunCredited` | original/argp/argp-parse.c:895-913 | the same over the whole run |
| `ArgpRun.IdleAcceptedNothing` | original/argp/argp-parse.c:581-585 | then NO_ARGS goes exactly to the groups that accepted no argument |
| `ArgpRun.EndIndex` | original/argp/argp-parse.c:574-610 | the index returned is that of the first argument not parsed |
| `ArgpRunLaws.RefusedArgument` | original/argp/argp-parse.c:564-641 | in every run, an argument that every group refuses ends the loop: with the end index asked for, the run ends without error and with its index; otherwise in ERROR to all groups and EINVAL |
| `ArgpRunLaws.RefusedOption` | original/argp/argp-parse.c:851-855 | an option that its parser function does not know ends in ERROR to all groups and EINVAL |
| `ArgpRunLaws.GetoptError` | original/argp/argp-parse.c:818-825 | so does an error of getopt, and an option of no group |
| `ArgpRunLaws.FailedCall` | original/argp/argp-parse.c:612-641 | any other error of a parser function goes to all groups and is that of the run |
| `ArgpRunLaws.NothingLeftToOffer` | original/argp/argp-parse.c:574-610 | when getopt is done and nothing is offered, the run ends without error, or in EINVAL if arguments are left over and the end index is not asked for |
| `ArgpRunLaws.ClosingErrors` | original/argp/argp-parse.c:581-641 | an error of NO_ARGS or END goes to all groups and is that of the run, and so is an error of SUCCESS |
| `ArgpRun.Isolated` | original/argp/argp-parse.c:229-248 | every call behind INIT shows its group the input that INIT showed it, and its child inputs as the group itself left them |
| `ArgpRunLaws.FirstInput` | original/argp/argp-parse.c:514-536 | the first group gets the caller's input, and every group with a parser function finds null pointers for its children |
| `ArgpRunLaws.ParserlessHandsDown` | original/argp/argp-parse.c:522-534 | a group without a parser function hands its input to its first child and null pointers to the others |
| `ArgpRun.RoundCounted` | original/argp/argp-parse.c:229-248 | calls in the loop show the number of arguments their group had processed before the round |
| `ArgpRun.ClosingCounted` | original/argp/argp-parse.c:564-646 | the closing calls show the final numbers |
| `ArgpRun.TreeReady` | original/argp/argp-parse.c:297-396 | the tables of every tree can be run |
| `ArgpRun.TreeShortOption` | original/argp/argp-parse.c:710-736 | in every run on a tree a short option is one call to the group of the first option that carries it, or an error if there is none |
| `ArgpRun.TreeLongOption` | original/argp/argp-parse.c:738-743 | in every run on a tree a long option is one call to the first argp that declares its name, with the user's own key |
| `ArgpRun.ParentsAround` | original/argp/argp-parse.c:514-646 | INIT goes parent before child with the input handed down; END, SUCCESS and FINI go child before parent |
| `HandOff.StepKeeps` | original/benchtests/bench-pthread-locks.c:344-412 | every step of either thread, and every spurious wakeup, keeps the invariant; no wakeup is lost |
| `HandOff.RunKeeps` | original/benchtests/bench-pthread-locks.c:344-412 | the invariant holds in every state of every run |
| `HandOff.RunIsSafe` | original/benchtests/bench-pthread-locks.c:344-412 | the counter is 0 or 1 and, with the mutex free, the number of rounds the producer is ahead; the threads never both hold the mutex and never both wait |
| `HandOff.NoDeadlock` | original/benchtests/bench-pthread-locks.c:344-412 | until both threads have done their rounds one of them can step |
| `HandOff.EndsEmpty` | original/benchtests/bench-pthread-locks.c:332-412 | a finished run has done all rounds and leaves the counter as the next run needs it |
| `HandOff.StepPays` | original/benchtests/bench-pthread-locks.c:344-412 | every regular step lowers a measure, a spurious wakeup raises it by 2 |
| `HandOff.RunIsShort` | original/benchtests/bench-pthread-locks.c:344-412 | a run has at most 14 regular steps a round, 12 more, and 2 for each spurious wakeup |
| `Ancillary.PaddingCompletes` | original/bits/socket.h:242-254 | length and padding make the aligned length, if and only if that does not overflow |
| `Ancillary.MacroValues` | original/bits/socket.h:242-246 | CMSG_LEN and CMSG_SPACE in bytes: the length, or the length rounded up, and 12 or 16 for the header |
| `Ancillary.Next` | original/bits/socket.h:256-296 | the next header is aligned alike, behind all of its predecessor's object, and has a full header's room |
| `Ancillary.NextExactly` | original/bits/socket.h:256-296 | there is a next header, and where, if and only if the length covers a header and behind the object, rounded up, there is room for another |
| `Ancillary.WalkAdvances` | original/bits/socket.h:236-296 | for arbitrary lengths every header visited has room and lies behind all objects before it; the walk ends |
| `Ancillary.NextObject` | original/bits/socket.h:242-296 | from an object laid out with the macros the walk steps over its space exactly if a header fits behind it |
| `Ancillary.WalkVisitsObjects` | original/bits/socket.h:236-296 | the walk visits the objects once each and in order, and stops after the last if and only if less than a header's room is left |
| `Ancillary.LayoutRoundTrip` | original/bits/socket.h:238-296 | the same from the first header on, also for an empty buffer |

## Left out

- iconv, obstacks, scratch buffers, `getline`, tokenisation of input lines, `$quote`, `$codeset` and the header file of `gencat`: foreign calls and text.
- `$delset` beyond creating and marking the set, which nothing reads; its symbolic form is not modelled.
- Opening and mapping files, `NLSPATH`, `catopen` and `catclose`, and the checks of files that `write_out` did not make beyond the branches of `CatalogFile.Open`.
- Help text itself, filters, translation, `ARGP_HELP_FMT`, the formatting stream and `qsort`: output is a sequence of strings.
- Setting up the default and version argps in `argp_parse`, `ARGP_PARSE_ARGV0` and the program name, messages, and exits: `__argp_error` and `__argp_state_help` return.
- getopt itself, and `argv` beyond what getopt answers; parser functions may change `next` and child inputs, other parts of the state are not modelled.
- Overflow of numbers in input files, of differences of groups, and of the count of processed arguments.
- Character classes other than those of the C locale; `char` is taken to be signed in the level vector.
- The threads of the benchmark are modelled on values as atomic steps; timing, creation and joining of threads, and the other benchmarks, are not.
- ArgpUsage.HelpPatterns: requires at most 128 alternatives an argp, because with more the loop does not end (`EndsExactly`).
- ArgpConvert.DispatchToFirstDeclarer: requires a key that is neither a colon nor the ordering character; `DispatchExactly` says where those go.
- ArgpConvert.DispatchLong: requires at most 127 groups and keys of 24 bits with sign, which is exactly when `EncodingIsExact` gives the key back.
- ArgpTables.ParserConvert: requires the condition under which `ShortStringFits` holds, because otherwise the string does not fit.
- ArgpRun.ArgpParse: states nothing about endless runs, because parser functions may set `next` back for ever.
- Gencat.WriteOut: requires a table whose size fits 32 bits, which by `TableFits` is exactly when the one chosen does, and a string pool of at most 2^32 bytes, because offsets are stored in 32 bits.
- Gencat.Recompile: requires the same of the merged catalog.
- Gencat.Compile: requires the same of the catalog that the lines lead to; `ModerateLinesFit` gives bounds that suffice.
- GencatRuns.CompileTwice: requires those bounds of both inputs together.
- ArgpLongNames.ReachesNameExactly: requires at most 127 groups, which by `GroupIsExact` is when all groups are decoded.
- ArgpRun.TreeLongOption: requires what `DispatchLong` does.
- Ancillary.LayoutRoundTrip: requires objects whose space does not overflow a `socklen_t`.
- Ancillary.MacroValues: requires a length for which nothing overflows; `PaddingCompletes` says when the alignment does.
- CatalogLaws.MessageOfSet: requires that the user has not given the number before in that set; `RefusedLine` covers the other case.
