# Verified model of the Quarks cores

Quarks is a key-value and search server in C++ on top of RocksDB, the Crow web framework and ZeroMQ. This project
models its hard cores in Dafny and proves what they are for. Every core has a simple reference (a rule list, a frame
grammar, a grid of cells, a recurrence, a language, a query, a text grammar, a log, a byte-at-a-time machine), and the
operations that the source performs in place are methods proved against that reference.

| core | files | what is proved |
|---|---|---|
| URL routing trie | `RoutePatterns`, `RouteArena`, `RouteCompaction`, `RouteBuilding`, `RouteTrie`, `RouteLanguage`, `RouteServing` | a pattern matches exactly the URLs put together from its texts and from texts that fit its tags, and reads their values; the arena that `add` builds holds exactly the registered patterns; compaction in place keeps every route; the backtracking `find` returns the smallest matching rule with its parameters, before and after compaction, whatever the order of children |
| WebSocket endpoint | `Bits`, `WebSocketFrames`, `WebSocketProtocol`, `WebSocketClient`, `WebSocketFragments` | a message in any number of fragments, with pings in between, arrives as their concatenation; frames round-trip for all three length forms, masked or not (section 5.2 of RFC 6455); dispatch does not depend on how bytes arrive; over every run the sent bytes are the queued frames in order with at most one close frame, and a peer delivers exactly the sent messages |
| Geohash | `GeohashGrid`, `GeohashNeighbors`, `GeohashCoding` | the neighbour tables move one cell on the grid, encoding and decoding meet in the same cell, and a cell with its eight neighbours covers everything within one cell size |
| Text search | `Levenshtein`, `FuzzyTrie` | the table computes the least edit script, greedy token matching loses no solution, the heap trie stores exactly the inserted words, and fuzzy search reports each aligning word once |
| Key scans | `Wildcards`, `KeyScan`, `ScanMeaning`, `KeysMulti`, `KeysMultiFailure` | the glob matcher decides the pattern language; prefix scans equal the filtered, windowed listing exactly when the prefix is plain; every interleaving of the worker threads reports each match once and the right number of them, and the result flag reports a refused pattern exactly under a condition on the list and the number of workers |
| JSON | `JsonText`, `JsonGrammar`, `JsonParser`, `JsonWriter`, `JsonLiterals`, `JsonDocuments` | loading accepts exactly the texts of documents and gives what they stand for, every escape and numeral included; printing a value and loading the text, through the in-place parser and in-place unescaping, gives the value back |
| Replication | `RelayMessages`, `Replication` | the reader's store is always the replay of a prefix of the writer's log, down to the bytes of the messages; each key holds what the last operation on it says; when the links are quiet the stores are equal |
| HTTP body parser | `HttpBody`, `HttpParser` | splitting the input changes nothing; lengths are exact and never the reserved value; a chunked body is handed on as the data of its chunks |
| HTTP client | `HttpClient`, `HttpResponses` | status lines, header lines, plain and chunked bodies give the response that they say; the response does not depend on how `recv` splits it, with the exact exception of bodies that end by their length |

Bytes are `char` values or a `byte` newtype. The store is a sorted sequence of entries, sockets and threads are steps of
a state machine, and floating-point coordinates are real numbers. `Numerals` holds the printers of decimal and
hexadecimal numbers that the statements about numbers are made of, `Wrappers` the option type.

## Findings

These are places where the code does not meet what one would expect of it; each is stated by a lemma or a contract.

* `KeyScan.ScanIsQueryExactlyWhenPlain`: a scan equals the simple query exactly when no `?` and no NUL stands before the
  first star. For every other pattern there is a store of one key where the scan misses that key.
* `KeyScan.ReversedScanIsQueryExactlyWhenReachable`: the reversed scan meets all keys that match exactly when the last
  byte of the prefix is below 0xFF and some key sorts at or after the bumped prefix, or nothing matches; otherwise it
  steps back from an iterator that is past the end. `KeyScan.ReversedScanMisses` gives a store of one key for every
  plain pattern with a prefix.
* `KeysMultiFailure.FailureIsReportedExactly`: the result flag of `getKeysMulti` is read and written in two accesses, so
  a refused pattern can be reported as success. Every schedule reports it exactly when there is one worker, or when the
  first `min(numWorkers, patterns)` patterns are all refused. `KeysMultiFailure.FailureCanBeLost` is an instance.
* `HttpClient.TwoPieces`: a response that ends by `Content-Length` takes whatever else came in the same `recv`; two
  pieces give the response of one exactly when the first one does not reach the length or the second one is empty.
  `HttpClient.LongerThanItSays` is an instance.
* `HttpBody.SizeIsHexadecimalExactly`: the parser's table of hexadecimal digits is initialised for half of the bytes, so
  every byte from 0x80 on counts as the digit 0 in a chunk size. What is accepted as the digits of a size is hexadecimal
  exactly when it holds no such byte; `HttpBody.HighByteEndsBody` is an instance that ends a body.
* Geohash: a precision outside 1 to 12 is taken as 6 (the header file says 12); an invalid character decodes as 31.
* `RoutePatterns.ReadingEndsExactlyOnKnownTags`: the loop of `add` comes to the end of a pattern exactly when every `<`
  that it meets opens a known tag; at any other one its index stays where it is (`RoutePatterns.UnknownTagHolds`).

## Model

| member | source | states |
|---|---|---|
| RoutePatterns.ReadToken | third-party/crow/include/crow/routing.h:757-800 | reading the pattern from left to right splits it into literal characters and known tags, and always moves on |
| RoutePatterns.ReadingEndsExactlyOnKnownTags | third-party/crow/include/crow/routing.h:757-807 | some number of rounds of the loop of `add`, with its unsigned index, reaches the end of the pattern exactly when all tags are known |
| RoutePatterns.UnknownTagHolds | third-party/crow/include/crow/routing.h:761-796 | at an unknown tag the index is decremented and incremented again, however many rounds there are |
| RouteTrie.Trie.constructor | third-party/crow/include/crow/routing.h:571-573 | an empty trie holds no pattern |
| RouteTrie.Trie.ChildFor | third-party/crow/include/crow/routing.h:766-806 | the child for one token is found or appended, every other path keeps its node and no route is added |
| RouteTrie.Trie.Add | third-party/crow/include/crow/routing.h:757-812 | registering a pattern succeeds exactly when its token path has no rule yet, and then the arena's routes are the old ones and this one |
| RouteTrie.Trie.SetRule | third-party/crow/include/crow/routing.h:809-811 | giving the end node its rule adds one route and nothing else |
| RouteBuilding.RuleAddsOneRoute | third-party/crow/include/crow/routing.h:809-811 | in the tree that `add` grows, a rule at one node is a route for one token path only |
| RouteBuilding.GrowthKeepsRoutes | third-party/crow/include/crow/routing.h:766-806 | appending a node keeps exactly the routes there were |
| RouteBuilding.RoutesAreWalks | third-party/crow/include/crow/routing.h:757-812 | in a trie of one-character fragments the routes are the walks from the head |
| RouteTrie.Trie.MergedChildren | third-party/crow/include/crow/routing.h:598-614 | the merged child map has exactly the two-step fragments with their grandchildren |
| RouteTrie.Trie.OptimizeNode | third-party/crow/include/crow/routing.h:576-619 | compaction in place ends, keeps the routes of every node, links children forward, and leaves no chain of simple nodes |
| RouteCompaction.MergeKeepsRoutes | third-party/crow/include/crow/routing.h:598-617 | one merge of simple children into their parent keeps every route of every node |
| RouteCompaction.MergeIsPrefixFree | third-party/crow/include/crow/routing.h:598-617 | after a merge no fragment of the node is a prefix of another, so at most one child can be taken |
| RouteCompaction.MergeOptimizes | third-party/crow/include/crow/routing.h:576-619 | one merge is a step of compaction: the arena stays well-formed and unambiguous, every node keeps its routes, and only nodes that are not yet compact change |
| RouteCompaction.CompactionKeepsBest | third-party/crow/include/crow/routing.h:576-755 | a best answer after compaction has the rule of a best answer before it, and its parameters when one pattern below the node has that rule |
| RouteTrie.Trie.FindAroundOptimize | third-party/crow/include/crow/routing.h:576-755 | searching from a node, compacting it and searching again finds the same rule, with the same parameters when one pattern has it |
| RouteTrie.Trie.Validate | third-party/crow/include/crow/routing.h:627-632 | compacting the whole trie keeps the registered patterns; a head that is not simple is refused and nothing changes |
| RouteTrie.Trie.Find | third-party/crow/include/crow/routing.h:634-755 | backtracking search returns the best of all answers below a node, whatever the order of children, and restores the shared parameters |
| RouteTrie.Trie.FindRule | third-party/crow/include/crow/routing.h:634-755 | the smallest registered rule whose pattern matches the URL, with that rule's parameters, or none |
| RouteBuilding.AnswersAreTheTables | third-party/crow/include/crow/routing.h:634-755 | searching the arena has the same answers as matching every registered pattern on its own |
| RouteBuilding.BestIsUnique | third-party/crow/include/crow/routing.h:650-660 | the best answer is one rule, and its parameters are determined when one pattern has that rule |
| RouteArena.BestOfUnion | third-party/crow/include/crow/routing.h:650-660 | keeping the smaller rule of two searches gives the best answer of both together |
| RouteTrie.Router.AddRule | third-party/crow/include/crow/routing.h:906-919 | a pattern gets the next rule number, and one that ends in a slash also a redirection without it |
| RouteTrie.Router.Handle | third-party/crow/include/crow/routing.h:1001-1022 | dispatch finds no rule, the redirection, or the earliest registered pattern that matches |
| RouteLanguage.MatchesExactly | third-party/crow/include/crow/routing.h:634-812 | a pattern matches a URL, with these parameters, exactly when the URL is put together from the texts of the pattern and from texts that fit its tags (numerals in the 64-bit range, segments, the rest), and the parameters are what those texts say |
| RouteLanguage.KnownPatternHasPieces | third-party/crow/include/crow/routing.h:757-807 | every pattern with known tags is made of such texts and tags |
| RouteLanguage.IntegerRoute | third-party/crow/include/crow/routing.h:657-673 | every signed number of 64 bits in the place of `<int>` is read as itself |
| RouteLanguage.UnsignedRoute | third-party/crow/include/crow/routing.h:675-691 | the same for `<uint>` |
| RouteLanguage.SegmentRoute | third-party/crow/include/crow/routing.h:711-727 | every non-empty segment in the place of `<str>` or `<string>` is read as itself |
| RouteLanguage.PathRoute | third-party/crow/include/crow/routing.h:729-740 | every non-empty rest in the place of `<path>` is read as itself |
| RouteServing.Serve | third-party/crow/include/crow/routing.h:757-1022 | registering patterns, compacting and dispatching finds the first pattern that accepts the URL, with the values that it reads; registering fails exactly when two patterns have the same path |
| WebSocketFrames.FlagBits | src/easywsclient.cpp:279-282 | the masks 0x80, 0x7f and 0x0f split a header byte into its flag and the number or opcode, and setting the flag puts them together again |
| WebSocketFrames.FrameRoundTrip | src/easywsclient.cpp:284-322 | every frame that is written reads back as one final frame with its opcode and message, whatever follows |
| WebSocketFrames.ParseFrameExtends | src/easywsclient.cpp:284-322 | bytes that arrive later do not change what the front of the buffer holds |
| WebSocketFrames.BigEndianRoundTrip | src/easywsclient.cpp:295-315 | a length written in network order reads back as itself |
| WebSocketFrames.UnmaskMasked | src/easywsclient.cpp:347 | masking twice with the same key gives the data back |
| WebSocketFrames.CloseFrameReads | src/easywsclient.cpp:446-452 | the fixed close frame reads back as an empty close |
| WebSocketProtocol.ArrivalIndependence | src/easywsclient.cpp:271-366 | dispatching after one piece and again after another is dispatching once on both: callbacks, queued pongs, partial message, buffer and state |
| WebSocketProtocol.ChunkIndependence | src/easywsclient.cpp:271-366 | the same for any number of pieces |
| WebSocketProtocol.RunInbox | src/easywsclient.cpp:271-366 | at any point of any run the inbox depends only on the bytes that have arrived |
| WebSocketProtocol.DispatchKeepsQueue | src/easywsclient.cpp:342-360 | dispatching keeps the queue well-formed: data frames, then at most one close frame and nothing after it |
| WebSocketProtocol.QueueArrives | src/easywsclient.cpp:386-444 | a receiver that is fed the bytes of a queue handles exactly its frames in order and keeps nothing back |
| WebSocketProtocol.EndToEnd | src/easywsclient.cpp:271-444 | a fresh endpoint that has received part of a peer's bytes has delivered a prefix of the peer's messages, and all of them at the end |
| WebSocketClient.PeerReceives | src/easywsclient.cpp:189-250 | what an endpoint has put on the wire and what it still holds deliver its messages in order at the other side |
| WebSocketClient.WebSocket.SendData | src/easywsclient.cpp:386-444 | the frame is appended to the transmit buffer, masked in place, unless the connection is closing |
| WebSocketClient.WebSocket.PutLength | src/easywsclient.cpp:392-425 | the byte-by-byte header is the one of the frame grammar for all three length forms |
| WebSocketClient.WebSocket.PeekFrame | src/easywsclient.cpp:277-328 | decoding the header in the buffer agrees with the frame grammar: not all there, a bad length, or a whole frame |
| WebSocketClient.WebSocket.Unmask | src/easywsclient.cpp:347-356 | unmasking in place changes only the payload |
| WebSocketClient.WebSocket.DispatchBinary | src/easywsclient.cpp:271-366 | the loop over the buffers does what handling frame by frame says, as `WebSocketFragments` spells out, and the queue invariant holds |
| WebSocketClient.WebSocket.CloseConnection | src/easywsclient.cpp:446-452 | the closing handshake starts once, with six fixed bytes |
| WebSocketClient.WebSocket.Poll | src/easywsclient.cpp:189-250 | bytes taken by the socket followed by the transmit buffer are always the queued frames in order |
| WebSocketFragments.FrameEffect | src/easywsclient.cpp:271-366 | one frame with any length form, masked or not: 0, 1 and 2 carry data, 9 is answered by 10 with the same payload, 10 is ignored, every other opcode closes |
| WebSocketFragments.FragmentedMessageArrives | src/easywsclient.cpp:341-366 | a text or binary message in any number of fragments, with pings and pongs in between, is delivered as the concatenation of its fragments; each ping is answered in order and nothing else changes |
| WebSocketFragments.TooLongCloses | src/easywsclient.cpp:308-320 | a length with the top bit set closes the connection and nothing is read any more |
| WebSocketFragments.SentFrame | src/easywsclient.cpp:386-444 | what is sent is a final frame with the shortest length form, masked with the fixed key or not at all |
| WebSocketFragments.MaskingFlipsBits | src/easywsclient.cpp:437-443 | masking flips those bits of a byte that are set in the key byte with its number modulo four |
| GeohashNeighbors.NeighborIsOneStep | src/geohash.cpp:122-149 | a neighbour exists exactly away from the world edge in its direction; its row or column is one further and the other coordinate is the same |
| GeohashNeighbors.StepBack | src/geohash.cpp:122-149 | opposite neighbours undo each other |
| GeohashNeighbors.CellsAreDistinct | src/geohash.cpp:60-63 | different hashes of one length name different cells of the grid |
| GeohashNeighbors.NeighborsSurround | src/geohash.cpp:269-290 | the eight results are the eight cells around the hash |
| GeohashGrid.TableEntry | src/geohash.cpp:65-78 | every entry of the neighbour tables is the value whose de-interleaved coordinate is one further, modulo the size of the block |
| GeohashGrid.BorderEntry | src/geohash.cpp:77-78 | the border tables name exactly the values from which the step leaves the block |
| GeohashGrid.IndexForChar | src/geohash.cpp:104-120 | the position of the first such character, or none |
| GeohashCoding.Encode | src/geohash.cpp:151-211 | a point in range gets a valid hash of the requested length whose cell covers it; a point out of range gets none |
| GeohashCoding.Decode | src/geohash.cpp:213-267 | the decoded box is the cell of the hash, and the point is its centre |
| GeohashCoding.DimensionsForPrecision | src/geohash.cpp:292-317 | the size of a cell at each precision |
| GeohashCoding.CutsForPrecision | src/geohash.cpp:298-299 | the numbers of halvings are those that encoding makes |
| GeohashCoding.HashIsUnique | src/geohash.cpp:151-211 | only one hash of a length covers a point |
| GeohashCoding.CentreIsCovered | src/geohash.cpp:213-267 | the centre of the decoded box lies in the cell |
| GeohashCoding.EncodeCentre | src/geohash.cpp:151-267 | decoding a valid hash of 1 to 12 characters and encoding its centre with as many characters gives the hash back; a longer hash gives its first six characters |
| GeohashCoding.PrefixCovers | src/geohash.cpp:151-211 | a prefix of a hash covers every point that the hash covers |
| GeohashCoding.NineCellsCover | src/quarks.cpp:4419-4444 | more than one cell away from the poles and the antimeridian, a stored point within one cell height and width of the query has a hash that starts with the query's prefix or one of its eight neighbours |
| Levenshtein.LevenshteinDistance | include/qsearch.hpp:451-468 | the filled table ends in the distance of the two strings |
| Levenshtein.DistanceIsLeastEdits | include/qsearch.hpp:451-468 | the distance is the least length of a script of insertions, deletions and substitutions, although no minimum is taken when characters are equal |
| Levenshtein.Symmetric | include/qsearch.hpp:451-468 | the distance is symmetric |
| Levenshtein.ZeroOnlyWhenEqual | include/qsearch.hpp:451-468 | the distance is zero only on equal strings |
| Levenshtein.Triangle | include/qsearch.hpp:451-468 | the triangle inequality |
| Levenshtein.Tokenize | include/qsearch.hpp:470-479 | the tokens are the maximal runs between white space, in order |
| Levenshtein.WordsAreTokens | include/qsearch.hpp:470-479 | words with white space between them, before them and after them are the tokens of the text |
| Levenshtein.IsNearlyMatched | include/qsearch.hpp:481-503 | true exactly when strictly increasing positions in the first list put every wanted token within the distance |
| Levenshtein.GreedyStep | include/qsearch.hpp:489-499 | taking the earliest fit loses no solution |
| FuzzyTrie.MMapTrie.constructor | include/qsearch.hpp:66-88 | an empty trie stores no word |
| FuzzyTrie.MMapTrie.Insert | include/qsearch.hpp:116-127 | the word gains one metadata entry, and no other word changes |
| FuzzyTrie.MMapTrie.Search | include/qsearch.hpp:131-148 | exactly the metadata stored for the word |
| FuzzyTrie.MMapTrie.FuzzySearch | include/qsearch.hpp:150-192 | every stored word that aligns with a prefix of the query within the budget is reported once with all its metadata, and no other word |
| FuzzyTrie.MMapTrie.FuzzySearchHelper | include/qsearch.hpp:158-192 | a recursive search adds exactly the words below its node that fit the rest of the query |
| FuzzyTrie.FitsIsAlignment | include/qsearch.hpp:158-192 | what the recursion accepts is an alignment with a query prefix by substitutions and insertions of bounded cost |
| FuzzyTrie.FitsIsNear | include/qsearch.hpp:158-192 | every hit is within the budget of some query prefix in Levenshtein distance |
| FuzzyTrie.MMapTrie.ContinuesInChild | include/qsearch.hpp:116-127 | every stored word below a node continues in one of its children |
| Wildcards.Wildcmp | src/quarks.cpp:50-82 | accepts exactly the strings of the pattern's language, and ends |
| Wildcards.MatchesIsLanguage | src/quarks.cpp:50-82 | the language is: one piece for each pattern character, `?` one character, `*` any run |
| Wildcards.LastStarIsEnough | src/quarks.cpp:62-75 | at the next star, going back to an earlier one cannot match anything more |
| Wildcards.NothingToResume | src/quarks.cpp:62-81 | at the end of the string, going back to the last star cannot match |
| KeyScan.GetKeys | src/quarks.cpp:1335-1424 | the rows are those of the hits with the prefix between skip and skip + limit, in key order; the flag tells whether all of them could be decoded; a leading star is refused |
| KeyScan.GetCount | src/quarks.cpp:2092-2157 | the number of hits between skip and skip + limit |
| KeyScan.GetKeysReversed | src/quarks.cpp:1605-1699 | the same rows in reverse key order when the end of the prefix can be reached, and none otherwise |
| ScanMeaning.HitIsMatch | src/quarks.cpp:1369-1381 | a hit is a key that starts with the part of the pattern before its first star and is made of one piece for each of its characters |
| ScanMeaning.Query | src/quarks.cpp:1335-1424 | the rows are those of the matching keys number skip to skip + limit: key and decoded value, or the value as an error and the key; the flag tells whether all could be decoded |
| ScanMeaning.Count | src/quarks.cpp:2092-2157 | the count is the number of these keys |
| ScanMeaning.QueryReversed | src/quarks.cpp:1605-1699 | the same from the last matching key on when some key sorts after all keys with the prefix and its last byte can be increased, and no rows otherwise |
| KeyScan.ScanIsQueryExactlyWhenPlain | src/quarks.cpp:1347-1378 | scanning from the prefix is the simple query on every store exactly when no `?` and no NUL stands before the first star |
| KeyScan.OtherScanMisses | src/quarks.cpp:1347-1378 | for every other pattern a store of one key on which the scan misses it |
| KeyScan.ReversedScanIsQueryExactlyWhenReachable | src/quarks.cpp:1628-1658 | the keys before the starting position are all matching keys exactly when the position can be reached or nothing matches |
| KeyScan.ReversedScanMisses | src/quarks.cpp:1644-1647 | for every plain pattern with a prefix a store of one key that matches and that the reversed scan does not reach |
| KeyScan.LastWithPrefix | src/quarks.cpp:1628-1647 | the bumped prefix leads to the last key with the prefix unless its last byte is 0xFF or no key follows |
| KeyScan.WindowIsSlice | src/quarks.cpp:1363-1413 | the running counter selects one slice of the hits, clamped for all values of skip and limit |
| KeyScan.NoHitsAfter | src/quarks.cpp:1369 | stopping at the first key without the prefix loses no match |
| KeyScan.WindowIsFull | src/quarks.cpp:1411-1413 | stopping past the window loses no result |
| KeysMulti.StepKeepsInv | src/quarks.cpp:1785-1930 | every access of every worker to shared state keeps the invariant: claims, numbering, windows and results |
| KeysMulti.RunKeepsInv | src/quarks.cpp:1871-1930 | so does every interleaving |
| KeysMulti.EveryInterleaving | src/quarks.cpp:1785-1930 | when all workers are done, each result is the key and decoded value of a different match and the number of results is that of one scan over all patterns |
| KeysMulti.ResultCount | src/quarks.cpp:1807-1853 | the number of results is max(0, min(limit, matches - skip)) |
| KeysMulti.FullResults | src/quarks.cpp:1871-1930 | without skip and limit the results are the multiset of all matches |
| KeysMulti.RunsEnd | src/quarks.cpp:1890-1912 | no interleaving goes on forever |
| KeysMultiFailure.FailureIsReportedExactly | src/quarks.cpp:1890-1912 | when values can be decoded and some pattern is refused, every finished schedule reports the failure exactly when there is one worker or the patterns claimed first are all refused |
| KeysMultiFailure.OneWorkerNotices | src/quarks.cpp:1890-1912 | one worker that meets a refused pattern always reports the failure |
| KeysMultiFailure.RefusedFirstNotices | src/quarks.cpp:1890-1912 | when all first claims are refused nobody can overwrite the failure |
| KeysMultiFailure.FailureIsLost | src/quarks.cpp:1902 | otherwise the worker with the first accepted pattern can read the flag early and write it last |
| KeysMultiFailure.FailureCanBeLost | src/quarks.cpp:1902 | an instance with two workers and two patterns |
| JsonText.EscapeRoundTrip | third-party/crow/include/crow/json.h:37-70 | unescaping undoes escaping for every byte string |
| JsonLiterals.EscapedIsPrinted | third-party/crow/include/crow/json.h:37-70 | each byte is printed by its short escape if it has one other than `/`, by its code in lower case below the space, and as it is otherwise |
| JsonWriter.EscapeTo | third-party/crow/include/crow/json.h:37-70 | the loop appends the escaped string |
| JsonWriter.DumpInternal | third-party/crow/include/crow/json.h:1400-1475 | the recursive printer appends the text of the value |
| JsonParser.UnescapeInPlace | third-party/crow/include/crow/json.h:340-403 | the writing position never overtakes the reading position, the string is unescaped, marked as done, and nothing else changes |
| JsonParser.CopyUnit | third-party/crow/include/crow/json.h:347-393 | one character or escape sequence becomes its bytes, in UTF-8 for code points |
| JsonParser.Parser.DecodeString | third-party/crow/include/crow/json.h:717-777 | a string is accepted as the grammar says, its quotes become the mark and the end, and the text after it is untouched |
| JsonParser.Parser.DecodeNumber | third-party/crow/include/crow/json.h:819-935 | the scanner that skips runs of digits accepts what the transition table accepts byte by byte |
| JsonParser.Parser.DecodeList | third-party/crow/include/crow/json.h:779-817 | lists as in the grammar, with the items in disjoint parts of the buffer |
| JsonParser.Parser.DecodeObject | third-party/crow/include/crow/json.h:991-1051 | objects as in the grammar, with the keys already unescaped in the buffer |
| JsonParser.Parser.DecodeValue | third-party/crow/include/crow/json.h:937-989 | any value: an error exactly when the grammar rejects, otherwise a tree that the buffer shows, and nothing after the cursor has changed |
| JsonParser.Parser.Parse | third-party/crow/include/crow/json.h:1053-1062 | the whole text is one value up to its NUL |
| JsonGrammar.ScannedIsWellEscaped | third-party/crow/include/crow/json.h:717-777 | what the string scanner accepts is safe to unescape |
| JsonGrammar.ParseDump | third-party/crow/include/crow/json.h:937-989 | the grammar reads printed text back, whatever follows it |
| JsonGrammar.RoundTrip | third-party/crow/include/crow/json.h:1053-1062 | loading printed text gives the value back |
| JsonLiterals.CodeUnitIsUnescaped | third-party/crow/include/crow/json.h:359-393 | for every number below 65536, the escape with its four digits in either case becomes bytes that an independent decoder reads as that number |
| JsonLiterals.UnitsAreScanned | third-party/crow/include/crow/json.h:717-777 | any sequence of plain characters, short escapes and code units is accepted as a string |
| JsonLiterals.ScannedIsUnits | third-party/crow/include/crow/json.h:717-777 | and nothing else is |
| JsonLiterals.UnitsAreWellEscaped | third-party/crow/include/crow/json.h:340-403 | unescaping gives what the units stand for, one after the other |
| JsonLiterals.NumeralIsScanned | third-party/crow/include/crow/json.h:819-935 | sign, whole part, fraction and exponent in the form of a JSON number are accepted |
| JsonLiterals.ScannedIsNumeral | third-party/crow/include/crow/json.h:819-935 | and nothing else is |
| JsonLiterals.NumeralIsValue | third-party/crow/include/crow/json.h:819-935 | a whole number of at most ten digits is read as itself, every other numeral is kept as it is |
| JsonDocuments.DocIsParsed | third-party/crow/include/crow/json.h:937-1051 | the text of any document, with white space where it may stand, is parsed |
| JsonDocuments.ParsedIsDoc | third-party/crow/include/crow/json.h:937-1051 | whatever is parsed is the text of a document |
| JsonDocuments.DocMeans | third-party/crow/include/crow/json.h:937-1051 | the value is what the document stands for, with the first of several fields of one key |
| JsonWriter.ToValue | third-party/crow/include/crow/json.h:1105-1135 | copying a parsed tree out of the buffer, with strings unescaped on the way, gives the value that the text stands for |
| JsonWriter.Load | third-party/crow/include/crow/json.h:1067-1078 | loading gives a value exactly when the grammar accepts the text, and then that value |
| JsonWriter.Reload | third-party/crow/include/crow/json.h:1067-1078 | printing and loading give the value back, for null, booleans, byte strings, integers of at most ten digits, lists and objects in any order of keys |
| JsonDocuments.LoadText | third-party/crow/include/crow/json.h:1053-1078 | loading a text accepts exactly the texts of documents, and gives the value that the document stands for |
| JsonDocuments.LoadCodeUnit | third-party/crow/include/crow/json.h:1067-1078 | loading a string of one code unit gives bytes that decode to its number |
| RelayMessages.RelayRoundTrip | include/quarkscloud.hpp:44-84 | decoding an encoded message gives its bytes back |
| RelayMessages.RelayMsg.Encode | include/quarkscloud.hpp:46-58 | the buffer is replaced by the length in eight bytes, the lowest first, and the bytes |
| RelayMessages.RelayMsg.Decode | include/quarkscloud.hpp:70-80 | the buffer is replaced by the bytes of the message |
| RelayMessages.Forward | include/quarkscloud.hpp:176-186 | what is forwarded is the message packed again |
| RelayMessages.RequestIsSaved | src/quarks.cpp:329-362 | what the reader saves is the operation that the writer sent, for all keys and values and any order of the fields |
| RelayMessages.TextsAreSaved | src/quarks.cpp:329-352 | saving a printed object with a text for key, value and action puts or removes as the action says, and does nothing for any other action |
| RelayMessages.OthersThrow | src/quarks.cpp:329-342 | saving any other printed value throws |
| RelayMessages.DumpHasNoNul | src/quarks.cpp:717-722 | printed text holds no NUL, so it survives as a C string |
| Replication.ReaderFollowsWriter | include/quarkscloud.hpp:438-461 | in every reachable state the reader's store is the replay of a prefix of the writer's log, and what is in flight is the rest |
| Replication.ReplayHolds | src/quarks.cpp:329-362 | after any operations, a store holds for each key what the last one on it says, or what it held |
| Replication.StoresHoldTheLog | include/quarkscloud.hpp:438-461 | in every reachable state each key of the reader's store holds what the last applied operation on it says, the applied operations are the first of the log, and the writer's store holds what the whole log says |
| Replication.QuietStoresAreEqual | include/quarkscloud.hpp:438-461 | with empty queues between requests the two stores are equal |
| Replication.DeliveryGoesOn | include/quarkscloud.hpp:332-405 | as long as a message is on its way some program can go on |
| Replication.DeliveriesEnd | include/quarkscloud.hpp:332-405 | every step that brings messages on uses up at least one of the steps to go, so deliveries in any order come to an end |
| Replication.DeliveredStoresAreEqual | include/quarkscloud.hpp:332-461 | between requests, deliveries in any order that go on for as long as one is possible end with equal stores |
| Replication.LinksStayOk | include/quarkscloud.hpp:168-230 | requests and replies stay in step, and every message on a link is one that the reader can save |
| Replication.StoresStayOk | src/quarks.cpp:703-755 | every step keeps: applied operations followed by those in flight are the writer's log |
| Replication.PresenceIsGood | include/quarkscloud.hpp:307-319 | the writer's first message to the broker reaches the readers and is ignored there |
| Replication.PushingSendsOnlyChanges | include/quarkscloud.hpp:307-405 | a broker that is pushed to is sent one message for each change and nothing else, and never replies |
| HttpBody.SplitInvariance | third-party/crow/include/crow/http_parser_merged.h:2036-2206 | splitting the input anywhere gives the same fields, the same output and the same unread rest |
| HttpBody.MachineKeepsWf | third-party/crow/include/crow/http_parser_merged.h:2036-2206 | what the machine asserts about its fields holds after every input without error |
| HttpBody.ChunkSizeIsExact | third-party/crow/include/crow/http_parser_merged.h:2100-2135 | chunk sizes are accepted exactly up to the limit, without wrap-around, and are never the reserved value |
| HttpBody.UnhexIsPosition | third-party/crow/include/crow/http_parser_merged.h:885-905 | a hexadecimal digit counts as its position in the list of digits, in either case, and besides them only the bytes from 0x80 on are taken as digits, as 0 |
| HttpBody.SizeIsHexadecimalExactly | third-party/crow/include/crow/http_parser_merged.h:885-2117 | what is accepted as the digits of a size is hexadecimal exactly when it holds no byte from 0x80 on |
| HttpBody.HighByteEndsBody | third-party/crow/include/crow/http_parser_merged.h:885-2117 | an instance: the line of the one byte 0x80 announces the last chunk |
| HttpBody.PrintedHexIsRead | third-party/crow/include/crow/http_parser_merged.h:2084-2135 | every number printed in hexadecimal, in either case and after any zeros, is read as itself |
| HttpBody.LineTooLong | third-party/crow/include/crow/http_parser_merged.h:2084-2162 | a size line of more than 80 kB is an error at whichever byte of its parameters |
| HttpBody.LengthIsExact | third-party/crow/include/crow/http_parser_merged.h:1819-1842 | a `Content-Length` is accepted exactly when it is a number within the limit, and is then that number |
| HttpBody.PrintedLengthIsRead | third-party/crow/include/crow/http_parser_merged.h:1819-1842 | every number printed in decimal is read as itself when it is within the limit, and refused otherwise |
| HttpBody.IdentityBody | third-party/crow/include/crow/http_parser_merged.h:2036-2077 | a body of known length is handed on byte for byte and what follows it is left alone; the connection goes on for version 1.1 without `close` and for version 1.0 with `keep-alive` |
| HttpBody.ChunkedBody | third-party/crow/include/crow/http_parser_merged.h:2084-2206 | a chunked body is handed on as the data of its chunks, and the trailer is next |
| HttpBody.PrintedBody | third-party/crow/include/crow/http_parser_merged.h:2084-2206 | the same for chunks whose sizes are printed in hexadecimal, in either case and after any zeros |
| HttpParser.Parser.constructor | third-party/crow/include/crow/http_parser_merged.h:1993-2034 | which messages have a body and how its end is found; without one the next message is due, or the connection is done |
| HttpParser.Parser.Execute | third-party/crow/include/crow/http_parser_merged.h:958-2240 | the parser that takes runs of bytes and hands them on from a mark does what the byte-at-a-time machine does |
| HttpParser.ExecuteSplit | third-party/crow/include/crow/http_parser_merged.h:958-2240 | a parser that is given the bytes in one piece and one that is given them in two end in the same state with the same number of bytes read and the same reports |
| HttpParser.EofRun | third-party/crow/include/crow/http_parser_merged.h:2073-2076 | a body without length or chunks is handed on byte for byte as long as bytes come, so no next message begins on that connection |
| HttpParser.Parser.OneRound | third-party/crow/include/crow/http_parser_merged.h:2036-2206 | one round of the loop, with the bytes held by the mark accounted for; the source's assertions hold |
| HttpParser.Parser.SizeLineByte | third-party/crow/include/crow/http_parser_merged.h:2084-2162 | the size line, with the header limit and the wrapping arithmetic |
| HttpClient.TwoPieces | include/HTTPRequest.hpp:503-664 | two pieces give the same response as one exactly when the first does not already reach the length of a body, or the second is empty |
| HttpClient.SurplusIsTaken | include/HTTPRequest.hpp:654-660 | when the first piece reaches the length of the body, receiving both at once adds exactly the second piece to the body |
| HttpClient.LongerThanItSays | include/HTTPRequest.hpp:654-660 | an instance: a response of one byte that becomes one of two |
| HttpClient.AnySplit | include/HTTPRequest.hpp:503-664 | the same for any number of pieces |
| HttpClient.ChunkedResponse | include/HTTPRequest.hpp:598-652 | every split of a well-formed chunked response gives the concatenation of the chunk data |
| HttpClient.DrainRun | include/HTTPRequest.hpp:604-613 | writing a run of bytes at once is writing them one by one |
| HttpClient.StepStays | include/HTTPRequest.hpp:512-652 | bytes that arrive later do not change a step that was possible |
| HttpClient.Client.Receive | include/HTTPRequest.hpp:503-664 | the loops over lines and chunks do what the step-by-step reader does |
| HttpClient.Client.ReadChunks | include/HTTPRequest.hpp:598-652 | every round consumes bytes or stops, and stops only when more has to be received or the last chunk has come |
| HttpClient.Client.Tokenize | include/HTTPRequest.hpp:536-553 | the parts of the status line, by the loop of the source |
| HttpClient.PartsAreWords | include/HTTPRequest.hpp:536-553 | no part is empty or holds a space, and together they are all characters of the line that are not spaces |
| HttpResponses.HeadIsRead | include/HTTPRequest.hpp:512-596 | a status line and header lines give the status, the lines, the last length and whether there are chunks, or make the client throw exactly when one of them is not understood |
| HttpResponses.BadHead | include/HTTPRequest.hpp:555-592 | a head that is not understood makes the client throw, wherever the pieces end |
| HttpResponses.ExactSplit | include/HTTPRequest.hpp:503-664 | a body of exactly the announced length is the same however the response is split |
| HttpResponses.PlainBody | include/HTTPRequest.hpp:503-664 | a body without chunks arrives as it is, however the response is split, and completes it exactly when it is as long as the head says |
| HttpResponses.ChunkedBody | include/HTTPRequest.hpp:598-652 | a chunked body arrives as the data of its chunks, however the response is split, and a length in the head does not matter |
| HttpResponses.ReceiveAll | include/HTTPRequest.hpp:503-664 | the loop over what the socket gives does what feeding the pieces one by one does, and stops when the response is complete |
| HttpResponses.ReceivePlain | include/HTTPRequest.hpp:503-664 | so a plain response is received with its status, its header lines and its body |

## Left out

- RocksDB, ZeroMQ, memory-mapped files, sockets and threads themselves: a sorted list of entries, queues without loss, and steps of a state machine stand for them.
- `strtoll` and `strtoull` are modelled with their range errors; `strtod`, and the number conversions of the HTTP client, are parameters.
- Routing: request methods, upgrades, the bodies of handlers, and patterns with unknown tags.
- RouteTrie.Trie.Add: patterns with known tags, since the source does not come back from any other; they are registered before the trie is validated, as the server does.
- RoutePatterns.ReadingEndsExactlyOnKnownTags: patterns shorter than 2^32 characters, the range of the loop's index.
- WebSocket: the opening handshake, time-outs of `poll`, and the random masking key (the source uses a constant one).
- GeohashNeighbors.NeighborIsOneStep: at the world edge the source recurses into an empty hash, and on an invalid character it indexes a table with -1; the model has no result there.
- GeohashCoding.NineCellsCover: queries within one cell of a pole or the antimeridian; `geodistance` and the radius table are left out.
- Geohash coordinates are real numbers; midpoints at up to 12 characters are exact in the source's `double`.
- FuzzyTrie.MMapTrie.FuzzySearch: the result lists that the source passes by reference are passed in and out by value, so sharing them between two searches is not modelled.
- Search: `fuzzyPrefixSearch`, `searchByPrefix`, `substringSearch`, `deleteWord`, `updateDocument` and the case-insensitive variant.
- Key scans: the cached variants, the textual variants of the same scans, `getAll`, `getSorted`, joins and ORM filters; `skip + limit` is computed without the overflow of `int`.
- KeyScan.GetKeysReversed: an empty pattern, for which the source writes before the start of a string.
- KeysMulti.EveryInterleaving: lists with refused patterns and values that cannot be decoded: the first of either clears the flag, a worker that then reads it skips its pattern, and how many matches are reported depends on the schedule. The invariant covers these runs, the count does not. Reading the list of patterns is left out.
- JsonWriter.Reload: numbers that are not integers of at most ten digits, and negative zero; they are kept as their numerals and are not printed.
- JSON: growth of the item array, sorting of keys on lookup, copies of a parsed value that share one buffer.
- Replication.ReaderFollowsWriter: one request at a time on the writer, readers that subscribe before the first message, and store operations that succeed; writer chains and the HTTP logger are left out.
- HTTP parser: request line and header states (except the digits of `Content-Length`), upgrades, pausing and failing callbacks, and non-strict builds.
- HTTP client: sending the request, resolving the address, and the reserve of memory for an announced length.
