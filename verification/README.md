# Verified models of the KaisarCode C libraries

This project models five components of the repository in Dafny and proves what they promise.

- **BM25 index** (libbm25.c). An index is opened, filled, built, searched, exported and imported. The dictionary built by
  sorting and grouping is shown to be a run-length encoding of the analyzer's tokens, so every frequency, length and total
  agrees with naive counting. The open-addressing score table is shown to be a map, the bounded heap to be "sort everything,
  take the best", and search to return what a ranker that counts tokens directly returns. Export and import are exact
  inverses, and import accepts nothing else.
- **End-of-transmission framing** (libdmn.c). The bridge and the receive loop keep a short tail of each stream. Their
  results are shown to be functions of the whole streams, under any chunking and any interleaving of events.
- **Flow runtime** (libflow.c). Validation accepts exactly the sound acyclic flows. A run is compared with the tree of
  uninterrupted runs, and that tree with the maximal paths of the graph, each counted by its choices of links. Stop requests
  cut the run to a prefix. Shell substitution is compared with the quoting rules of the POSIX Shell Command Language.
- **WordPiece tokenizer and vocabulary hash** (tokenizer.c, libemb.c). Words are greedy longest-match tilings, the output is
  a prefix of an unbounded token stream, and the probing vocabulary table equals a linear search.
- **Base64** (libb64.c). The strict decoder is the exact inverse of the encoder, which agrees with the bit-stream definition
  of RFC 4648.

Objects that the C code updates in place are classes, loops are loops, and every method is specified by functions and
predicates about which the lemmas speak. `hide` statements keep proof obligations small. The modules and their files have
matching names; `Exporting` and `Importing` are in Export.dfy and Import.dfy. Where a specification follows the code closely,
laws in other words say what it computes: TokenLaws for the token stream, Layout for the file format, and the lemmas named
`...Means` elsewhere.

Two findings about shell substitution. Between double quotes a value is not read as its own characters when its placeholder
directly follows an unescaped backslash, because the pending escape is not reset (libflow.c:2221-2301), or when its
placeholder directly follows an open parameter expansion such as `"$<x>"` or `"$a<x>"` and its first character continues it.
`ShellQuote.UnsafePlaces` and `Template.UnsafeTemplates` give an input for each and `ShellQuote.PreservedIffReady` the exact
condition.

One finding about branches. A maximal path gives one branch for every way to choose its links, so a node that names the same
link twice gives its path two branches; `FlowPaths.PathCount` says how many, and `FlowPaths.PathsOnce` that distinct links
give exactly one.

Conventions. A byte string is a sequence of octets; a C string is one without NUL. Scores are real numbers and `log1p` is an
uninterpreted function. The Unicode tables are arbitrary functions; of the BM25 tables only "NUL is not a word character" is
assumed. `tokens` in Search is a ghost parameter, any token lists the index encodes; `SearchableTokens` gives them.

## Model

| member | source | states |
|---|---|---|
| Utf8.DecodeStrict | proj/libbm25.c/src/libbm25.c:4898-4940 | the strict decoder accepts at an offset exactly when some Unicode scalar is encoded there (sections 3 and 4 of RFC 3629), and returns that scalar and the offset behind it |
| Utf8.DecodeLenient | proj/libemb.c/src/tokenizer.c:5829-5859 | the lenient decoder returns the scalar and advance of the strict reading where one is encoded, and otherwise U+FFFD with an advance of one octet |
| Utf8.CheckedIsEncoding | proj/libbm25.c/src/libbm25.c:4914-4939 | octets that pass the range, continuation, minimum and surrogate checks are the encoding of the value they decode to |
| Utf8.EncodingChecks | proj/libbm25.c/src/libbm25.c:4966-4987 | every encoding passes those checks and decodes to its scalar, at the shortest length |
| Utf8.EncodingExamples | proj/libbm25.c/src/libbm25.c:4966-4987 | the encodings of section 7 of RFC 3629, one for every length |
| Utf8.EncodedAtUnique | proj/libbm25.c/src/libbm25.c:4898-4940 | at most one scalar is encoded at an offset |
| Utf8.EncodeAllInjective | proj/libbm25.c/src/libbm25.c:4966-4987 | different scalar sequences have different encodings |
| Utf8.Validate | proj/libbm25.c/src/libbm25.c:4948-4957 | validation succeeds exactly on encodings of scalar sequences |
| Base64.EncodeBitStream | proj/libb64.c/src/libb64.c:46-58 | the encoder agrees with the bit-stream definition of section 4 of RFC 4648: the sextets are the octets' bits with zero bits appended, and the padding depends on the length modulo three |
| Base64.BitsMean | proj/libb64.c/src/libb64.c:46-58 | the bits of a number, most significant first, spell the number |
| Base64.Alphabet | proj/libb64.c/src/libb64.c:33-58 | the letters are the alphabet of table 1 of RFC 4648, and the padding is `=` |
| Base64.TestVectors | proj/libb64.c/src/libb64.c:32-61 | test vectors of section 10 of RFC 4648, one for every amount of padding |
| Base64.EncodeBuffer | proj/libb64.c/src/libb64.c:32-61 | the encoding loop leaves the encoding and a NUL in its buffer |
| Base64.DecodeOfEncode | proj/libb64.c/src/libb64.c:32-148 | decoding an encoding gives the data back, for all byte strings |
| Base64.EncodeOfDecode | proj/libb64.c/src/libb64.c:69-148 | re-encoding what a canonical text decodes to gives the text back |
| Base64.CanonicalIffEncoded | proj/libb64.c/src/libb64.c:88-125 | a text is canonical exactly when it is some encoding |
| Base64.CanonicalIffChecks | proj/libb64.c/src/libb64.c:88-125 | the code's separate checks of length, alphabet, padding and zero pad bits (section 3.5 of RFC 4648) together mean canonical |
| Base64.DecodeText | proj/libb64.c/src/libb64.c:69-148 | decode returns data whose encoding is the text, and NULL exactly when no data has it |
| Ordering.OccurrencesTotallyOrdered | proj/libbm25.c/src/libbm25.c:5148-5157 | the comparison of occurrences by token and ordinal is a total order |
| Ordering.StrLtMeans | proj/libbm25.c/src/libbm25.c:5151 | `strcmp` gives the dictionary order: at the first octet where two strings differ the smaller octet comes first, and a prefix comes first |
| Ordering.HitsTotallyOrdered | proj/libbm25.c/src/libbm25.c:5534-5582 | the ranking comparison is a total order |
| Ordering.RankedMeans | proj/libbm25.c/src/libbm25.c:5534-5582 | a ranked list descends by score and ascends by ordinal among equal scores |
| Ordering.SortedUnique | proj/libbm25.c/src/libbm25.c:5267-5268 | a total order has one sorted arrangement of a multiset, so the result of `qsort` is determined |
| TopK.HeapDown | proj/libbm25.c/src/libbm25.c:5548-5567 | sifting a replaced root down restores the worst-first order and keeps the entries |
| TopK.HeapUp | proj/libbm25.c/src/libbm25.c:5684-5694 | sifting an appended entry up restores the worst-first order and keeps the entries |
| TopK.Offer | proj/libbm25.c/src/libbm25.c:5678-5694 | one candidate, in either branch: the heap stays worst-first and holds what Offered says |
| TopK.RootIsWorst | proj/libbm25.c/src/libbm25.c:5678-5680 | the root of a worst-first heap ranks no better than any entry |
| TopK.OfferKeepsBest | proj/libbm25.c/src/libbm25.c:5667-5695 | after every candidate the heap holds exactly the best min(limit, seen) candidates as a multiset |
| TopK.BestSortedIsPrefix | proj/libbm25.c/src/libbm25.c:5667-5700 | sorting the kept candidates gives the first entries of the sorted list of all candidates |
| Binary.MaskIsMod | proj/libbm25.c/src/libbm25.c:5515-5517 | masking with `capacity - 1` is the remainder by a power of two |
| Probing.ProbeStep | proj/libbm25.c/src/libbm25.c:5516-5517 | one step past an occupied slot extends the covered run and brings the next vacant slot nearer, so probing ends |
| Probing.EmptySlot | proj/libbm25.c/src/libbm25.c:5495-5517 | a table that is not full has a vacant slot |
| ScoreTable.GapMeansAbsent | proj/libbm25.c/src/libbm25.c:5516-5518 | a vacant slot on the probe path of an ordinal proves that the map has no score for it: no gap hides a key |
| ScoreTable.FillHolds | proj/libbm25.c/src/libbm25.c:5518-5523 | filling the first vacant slot of the probe path adds the ordinal to the map and nothing else |
| ScoreTable.UpdateHolds | proj/libbm25.c/src/libbm25.c:5524 | raising a score in place updates that ordinal in the map and nothing else |
| ScoreTable.Accumulator.Accumulate | proj/libbm25.c/src/libbm25.c:5490-5526 | the table refines a map from ordinals to running scores across every call and resize, with capacity a power of two and at most half of it used |
| ScoreTable.Accumulator.Grow | proj/libbm25.c/src/libbm25.c:5495-5514 | rehashing into a table of twice the capacity keeps the map |
| ScoreTable.Probe | proj/libbm25.c/src/libbm25.c:5515-5517 | probing ends at the ordinal's slot, or at a vacant one with the ordinal nowhere before it |
| VocabHash.HashStr | proj/libemb.c/src/libemb.c:188-193 | djb2 with wrap-around at 32 bits |
| VocabHash.HashExamples | proj/libemb.c/src/libemb.c:188-193 | djb2 of three short strings, by value |
| VocabHash.Vocabulary.Build | proj/libemb.c/src/libemb.c:200-217 | the table of 2n+1 slots holds every vocabulary entry, duplicates included, on its probe path in index order; both probe loops end |
| VocabHash.HitIsLeast | proj/libemb.c/src/libemb.c:243-248 | the first equal string on the probe path has the least index of that string |
| VocabHash.GapMeansAbsent | proj/libemb.c/src/libemb.c:244-250 | a vacant slot on the probe path means the string is not in the vocabulary |
| VocabHash.Vocabulary.Find | proj/libemb.c/src/libemb.c:238-252 | lookup equals linear search: the least index holding the string, or -1 |
| Analyzer.WordsAreMaximalRuns | proj/libbm25.c/src/libbm25.c:5066-5108 | the words are exactly the maximal runs of word characters of the folded text, in order |
| Analyzer.FoldedBlocks | proj/libbm25.c/src/libbm25.c:5073-5083 | the folded text has one block for every scalar in order: its entry in the fold table, or the scalar itself where it has none |
| Analyzer.SeparatorSplits | proj/libbm25.c/src/libbm25.c:5066-5108 | a scalar that is neither folded, a word character nor a dropped mark separates: the tokens are those before it and those behind it |
| Analyzer.PlainWord | proj/libbm25.c/src/libbm25.c:5066-5108 | word characters that are neither folded nor dropped, with nothing between them, are one token, the text itself |
| Analyzer.FoldCounts | proj/libbm25.c/src/libbm25.c:5073-5083 | a scalar with an entry in the fold table gives the tokens its entry gives |
| Analyzer.MarkDropped | proj/libbm25.c/src/libbm25.c:5086-5090 | when accents are folded a combining mark leaves no trace in the tokens |
| Analyzer.TokensAreTokens | proj/libbm25.c/src/libbm25.c:5056-5113 | every emitted token is nonempty, free of NUL and well-formed UTF-8 |
| Analyzer.Analyze | proj/libbm25.c/src/libbm25.c:5056-5113 | the analyzer fails exactly on malformed text and otherwise emits the tokens of its scalars; plain text of unfolded word characters is exactly one token, itself, and on malformed text the tokens before the first place without a scalar have come out |
| Postings.NewTermStep | proj/libbm25.c/src/libbm25.c:5275-5290 | a token above the open term's starts a term with one posting: the expansion grows by one occurrence |
| Postings.NewPostingStep | proj/libbm25.c/src/libbm25.c:5301-5309 | the same token in a later document adds a posting to the open term: the expansion grows by one occurrence |
| Postings.RaiseStep | proj/libbm25.c/src/libbm25.c:5292-5300 | the same token in the same document raises the open frequency: the expansion grows by one occurrence |
| Postings.WellFormedMeans | proj/libbm25.c/src/libbm25.c:5270-5310 | terms are strictly sorted, their slices partition the postings, and ordinals strictly increase within a slice |
| Postings.TermsAscend | proj/libbm25.c/src/libbm25.c:5270-5290 | the terms of every well-formed dictionary strictly ascend, said by octets |
| Postings.EncodesCounts | proj/libbm25.c/src/libbm25.c:5260-5310 | each recorded frequency equals the number of times the token occurs in the document, and the frequencies of a document add up to its token count |
| Postings.FreqOfTerm | proj/libbm25.c/src/libbm25.c:5270-5310 | the frequencies of a term are those of the one slice it owns |
| Postings.PostingCounts | proj/libbm25.c/src/libbm25.c:5292-5309 | every posting counts a token that occurs in its document that many times |
| Postings.RecordedIsEncoded | proj/libbm25.c/src/libbm25.c:6057-6082 | every well-formed index, imported ones included, is the index of the token lists it records |
| Bm25.Collect | proj/libbm25.c/src/libbm25.c:5121-5140 | one document's tokens become occurrences with its ordinal; fails exactly above 2^32-1 tokens |
| Bm25.Group | proj/libbm25.c/src/libbm25.c:5270-5310 | grouping sorted occurrences gives a well-formed dictionary whose expansion is those occurrences |
| Bm25.Rebuild | proj/libbm25.c/src/libbm25.c:5254-5320 | fails exactly when some document has too many tokens, and otherwise computes a truthful dictionary of the same texts |
| Bm25.TokensComeFromContent | proj/libbm25.c/src/libbm25.c:5254-5266 | the tokens a build counts for a document are those of its content |
| Bm25.TruthfulIsConsistent | proj/libbm25.c/src/libbm25.c:5243-5320 | a dictionary that records the analyzer's tokens meets everything a searchable index guarantees, totals included |
| Bm25.Index.Open | proj/libbm25.c/src/libbm25.c:5183-5197 | only the accent options zero and one are accepted; the new index is empty, valid and not built |
| Bm25.Index.Add | proj/libbm25.c/src/libbm25.c:5207-5236 | the exact status of every call; a failure changes nothing, and a success appends the document and clears a built index |
| Bm25.Index.Build | proj/libbm25.c/src/libbm25.c:5243-5334 | the exact status of every call; a failure leaves the old index intact, and a success sets `built` with a truthful dictionary of the same texts, whose terms strictly ascend octet by octet |
| Lifecycle.Run | proj/libbm25.c/src/libbm25.c:5207-5334 | any sequence of additions and builds keeps the index valid, with the predicted statuses, texts and `built` flag |
| Lifecycle.OnlySuccessCounts | proj/libbm25.c/src/libbm25.c:5207-5334 | over any run the documents are the old ones and the successful additions in order, and `built` says whether the last successful call was a build |
| Lifecycle.ReadOnlyIsFrozen | proj/libbm25.c/src/libbm25.c:5207-5253 | a read-only index refuses every call and never changes |
| Ranking.ContributionMeans | proj/libbm25.c/src/libbm25.c:5639-5647 | the score of a term times its divisor is the inverse document frequency times the term frequency times k1 + 1, with every factor written out |
| Ranking.ContributionGrows | proj/libbm25.c/src/libbm25.c:5639-5647 | with a non-negative inverse document frequency the score is non-negative, and a document with more occurrences, or with as many in fewer tokens, scores no less |
| Ranking.AddedMeans | proj/libbm25.c/src/libbm25.c:5636-5647 | what a term adds to a document is that score at the term frequency, document frequency, length and totals counted in the token lists |
| Ranking.ReferenceScoresMean | proj/libbm25.c/src/libbm25.c:5628-5653 | a document has a score exactly when it holds a token of the query, and the score is the sum over the distinct query terms it holds |
| Ranking.SearchResultUnique | proj/libbm25.c/src/libbm25.c:5624-5700 | the answer is determined by the set of query tokens: permuting or repeating them changes nothing |
| Ranking.SearchResultMeans | proj/libbm25.c/src/libbm25.c:5655-5709 | the answer lists matching documents with their scores, by descending score and then ascending ordinal; a matching document is missing only from a full answer, all of which has a higher score, or an equal score and a lower ordinal |
| Search.Find | proj/libbm25.c/src/libbm25.c:5377-5392 | binary search finds the term with the text, or none exactly when the dictionary has none |
| Search.CountIsDocumentFrequency | proj/libbm25.c/src/libbm25.c:5636-5637 | the posting count used for the inverse document frequency is the number of documents that contain the token |
| Search.IndexAgrees | proj/libbm25.c/src/libbm25.c:5627-5647 | lengths and totals of a searchable index are those of the token lists it encodes |
| Search.ScoreTerm | proj/libbm25.c/src/libbm25.c:5639-5652 | crediting the postings of a term adds its contribution to exactly the documents that contain it |
| Search.ScoreQuery | proj/libbm25.c/src/libbm25.c:5628-5653 | skipping repeats in sorted order, the table holds the reference score of every matching document over the distinct query terms |
| Search.CellHitsAreAll | proj/libbm25.c/src/libbm25.c:5667-5676 | walking the table visits every scored document once |
| Search.TakeBest | proj/libbm25.c/src/libbm25.c:5655-5700 | heap and final sort return the best min(limit, matches) entries in ranking order |
| Search.SearchableTokens | proj/libbm25.c/src/libbm25.c:5610 | every built index encodes token lists: the analyzer's for an index built here, the recorded ones for an imported one |
| Search.OmittedOptions | proj/libbm25.c/src/libbm25.c:5600-5619 | ten results, k1 = 1.2 and b = 0.75 where the caller gives nothing, and the given values otherwise |
| Search.Search | proj/libbm25.c/src/libbm25.c:5593-5709 | the exact status, and on success the first min(limit, matches) of all matching documents, each with its id, content and reference score, by descending score and then ascending ordinal; a match that is left out ranks behind every result |
| Binary.WriteLe | proj/libbm25.c/src/libbm25.c:5717-5729 | octet `i` of the output is the `i`th octet of the value, least significant first |
| Binary.ReadLe | proj/libbm25.c/src/libbm25.c:5736-5756 | reads back the number a little-endian octet sequence spells |
| Binary.FromLeOfLe | proj/libbm25.c/src/libbm25.c:5717-5756 | reading what was written gives the value back when it fits the width |
| Binary.LeOfFromLe | proj/libbm25.c/src/libbm25.c:5717-5756 | writing what was read gives the octets back |
| Format.SerializeInjective | proj/libbm25.c/src/libbm25.c:5821-5907 | different storable snapshots have different serializations |
| Layout.HeaderLayout | proj/libbm25.c/src/libbm25.c:5858-5864 | where the name, the accent option and the four counts stand in a header, octet by octet |
| Layout.DocumentLayout | proj/libbm25.c/src/libbm25.c:5865-5880 | where the fields and strings of a document record stand |
| Layout.TermLayout | proj/libbm25.c/src/libbm25.c:5881-5890 | where the fields and the text of a term record stand |
| Layout.PostingLayout | proj/libbm25.c/src/libbm25.c:5891-5898 | where the fields of a posting record stand |
| Layout.SectionsInOrder | proj/libbm25.c/src/libbm25.c:5858-5898 | a file is its header, then all documents, then all terms, then all postings, each in order |
| Exporting.Writer.Write | proj/libbm25.c/src/libbm25.c:5774-5782 | writes everything or, past the end of the buffer, nothing |
| Exporting.Measure | proj/libbm25.c/src/libbm25.c:5836-5851 | the size is the exact length of the serialization, or none when it leaves `size_t` |
| Exporting.Export | proj/libbm25.c/src/libbm25.c:5821-5907 | the exact status, and on success exactly the serialization of the index, whose terms strictly ascend octet by octet |
| Importing.Reader.Read | proj/libbm25.c/src/libbm25.c:5791-5799 | reads exactly `count` octets, or nothing past the end of the slice |
| Importing.ReadHead | proj/libbm25.c/src/libbm25.c:5930-5948 | accepts the header of every storable file, and only headers that pass all range checks |
| Importing.ReadDocuments | proj/libbm25.c/src/libbm25.c:5964-6003 | accepts exactly the document section a storable file can have, with the running length budget |
| Importing.ReadTerms | proj/libbm25.c/src/libbm25.c:6014-6046 | accepts exactly the term section: sorted terms whose slices tile the postings |
| Importing.ReadPostings | proj/libbm25.c/src/libbm25.c:6057-6082 | accepts exactly the posting section: existing documents, increasing ordinals, and frequencies that add up to every document's length |
| Importing.Import | proj/libbm25.c/src/libbm25.c:5916-6094 | accepts exactly the byte strings some storable index serializes to, and returns that index, valid, built and read-only, with strictly ascending terms |
| Importing.ImportOfExport | proj/libbm25.c/src/libbm25.c:5821-6094 | importing the export of a built index gives the same index, read-only |
| Importing.ExportOfImport | proj/libbm25.c/src/libbm25.c:5821-6094 | exporting an accepted import gives the same bytes |
| Framing.FindBytes | proj/libdmn.c/src/libdmn.c:76-91 | the offset of the first occurrence, or none for an empty needle or no occurrence |
| Framing.ScanStep | proj/libdmn.c/src/libdmn.c:794-820 | searching the kept tail and the new chunk finds exactly what searching the whole stream would find, and the new tail is the stream's |
| Framing.FirstStays | proj/libdmn.c/src/libdmn.c:842-855 | later octets do not move a marker already found |
| Framing.UptoEndsWithMarker | proj/libdmn.c/src/libdmn.c:842-855 | what is sent up to a marker holds its first marker at its very end |
| Framing.SettledIsBefore | proj/libdmn.c/src/libdmn.c:1985-2044 | what leaves the tail lies before any later marker |
| Bridge.Relay.OnClient | proj/libdmn.c/src/libdmn.c:768-823 | every client event keeps: octets sent to the backend are those read from the client, and reading stops exactly at a marker or end of file |
| Bridge.Relay.OnBackend | proj/libdmn.c/src/libdmn.c:825-890 | every backend event keeps: octets sent to the client and the tail are those read from the backend, without a marker; with a marker, exactly the response up to its end is sent |
| Bridge.Serve | proj/libdmn.c/src/libdmn.c:729-892 | over any interleaving of events: which event ends the loop and with what status, told from the whole histories; what was read from each side and sent to the other, exactly while it waits, when a response is complete and when the backend is gone, and a prefix otherwise; an empty marker is refused |
| Bridge.WaitingMeans | proj/libdmn.c/src/libdmn.c:729-892 | while the loop waits, `select` has not failed and the backend has not ended |
| Bridge.NothingDropped | proj/libdmn.c/src/libdmn.c:768-823 | a request whose first marker ends it is read to its end, however it is cut into chunks |
| Bridge.OneByOneStops | proj/libdmn.c/src/libdmn.c:768-823 | read octet by octet, the client side stops exactly at the end of the first marker |
| Bridge.RequestForwarded | proj/libdmn.c/src/libdmn.c:768-823 | a whole request is read under every chunking if and only if the marker does not occur before its end |
| Bridge.ForwardRequest | proj/libdmn.c/src/libdmn.c:768-823 | unless the loop failed, the backend has received all the client wrote of a request whose first marker ends it, and the whole request with its marker once it was written |
| Bridge.ForwardOneByOne | proj/libdmn.c/src/libdmn.c:768-823 | octet by octet, the backend receives the request exactly up to the end of its first marker |
| Client.Response.Append | proj/libdmn.c/src/libdmn.c:1436-1468 | the growing buffer keeps its contents and appends, failing exactly when the size would leave `size_t` |
| Client.Receive | proj/libdmn.c/src/libdmn.c:1958-2055 | the reply is a function of the arrived stream alone: no chunking, tail or buffer growth shows in it |
| Client.ReplyMeans | proj/libdmn.c/src/libdmn.c:1985-2044 | the reply is what comes before the first marker, or everything when there is none, said of the stream alone |
| Client.Exchange | proj/libdmn.c/src/libdmn.c:1958-2055 | end to end, over the events alone: when nothing else fails and the response is completed or the backend ends, the client gets the backend's output before its first marker, or all of it when there is none, and the outcome tells which |
| Segmentation.WalksMeet | proj/libemb.c/src/tokenizer.c:5984-6009 | greedy segmentation is deterministic: two maximal greedy walks are the same |
| Segmentation.Spelling | proj/libemb.c/src/tokenizer.c:5985-6005 | a piece is looked up behind U+2581 at the start of a word and behind "##" elsewhere, and bare when the vocabulary does not have that |
| Segmentation.WholeWord | proj/libemb.c/src/tokenizer.c:5984-6009 | a word of at most a hundred characters that the vocabulary has behind U+2581 is that one token |
| Segmentation.UnknownExactly | proj/libemb.c/src/tokenizer.c:5976-6018 | a word is the unknown token exactly when it has more than a hundred characters or some greedy position without a match; otherwise it is its longest-match tiling |
| Segmentation.WalkCovers | proj/libemb.c/src/tokenizer.c:5984-6009 | the pieces tile the word in order without gap or overlap |
| WordPiece.WordsSpellTheText | proj/libemb.c/src/tokenizer.c:6032-6048 | the words spell the normalized characters in order: nothing is lost, repeated or moved |
| WordPiece.WordBuffer.Add | proj/libemb.c/src/tokenizer.c:5954-5963 | the buffer keeps the encoding and offsets of up to a hundred characters and marks the word after the next |
| WordPiece.Candidate | proj/libemb.c/src/tokenizer.c:5988-5999 | prefix, text and terminator always fit the candidate buffer, whose C string is exactly prefix and text |
| WordPiece.LongestMatch | proj/libemb.c/src/tokenizer.c:5985-6005 | the longest match at a position under the prefixed-then-bare rule, or none exactly when no end matches |
| WordPiece.Pieces | proj/libemb.c/src/tokenizer.c:5984-6009 | the pieces of the word's greedy tiling, at most a hundred, or the unknown token |
| WordPiece.Flush | proj/libemb.c/src/tokenizer.c:5976-6018 | the word's tokens go to the stream, stored as far as there is room, in every branch |
| WordPiece.EmitCharacter | proj/libemb.c/src/tokenizer.c:6032-6048 | spaces, controls, punctuation, ideographs and letters act on the word as their items say |
| WordPiece.Advance | proj/libemb.c/src/tokenizer.c:6073-6110 | a special token or one decoded and folded character, consumed exactly |
| WordPiece.Tokenize | proj/libemb.c/src/tokenizer.c:6061-6114 | for every text and capacity the output is the classification token, the first `capacity - 2` tokens of the unbounded stream and the separator; the count never exceeds the capacity (what the stream is, the laws below say) |
| TokenLaws.SpaceSeparates | proj/libemb.c/src/tokenizer.c:6096-6099 | unless the table makes it a control character, a space separates any two byte strings: the tokens are those of the left part and those of the right part |
| TokenLaws.WhiteSpaceSeparates | proj/libemb.c/src/tokenizer.c:6096-6099 | the same for every white-space character |
| TokenLaws.StandsAlone | proj/libemb.c/src/tokenizer.c:6032-6048 | an unfolded punctuation character or ideograph is a word of its own between what surrounds it |
| TokenLaws.LettersAreAWord | proj/libemb.c/src/tokenizer.c:6032-6048 | unfolded letters with nothing between them are one word |
| TokenLaws.SpecialStands | proj/libemb.c/src/tokenizer.c:6073-6091 | each of the five special tokens, where the vocabulary has it, is one token whatever surrounds it |
| TokenLaws.FoldCounts | proj/libemb.c/src/tokenizer.c:6100-6110 | a character with an entry in the fold table gives the tokens its entry gives |
| TokenLaws.ControlVanishes | proj/libemb.c/src/tokenizer.c:6094-6095 | NUL, U+FFFD and control characters leave no trace in the tokens |
| FlowModel.Find | proj/libflow.c/src/libflow.c:789-798 | the first node with the reference, or none |
| FlowModel.PathLength | proj/libflow.c/src/libflow.c:1079-1105 | a path that repeats no node is no longer than the flow |
| FlowValidate.ClosedPaths | proj/libflow.c/src/libflow.c:1079-1105 | from a finished node every path stays among finished nodes, repeats none and ends in a usable node |
| FlowValidate.Walk | proj/libflow.c/src/libflow.c:1079-1105 | success finishes the node in depth-first order; failure leaves a path that refutes soundness |
| FlowValidate.ValidateModel | proj/libflow.c/src/libflow.c:1114-1135 | validation succeeds exactly when the chosen entries exist and every path from them ends in a node whose targets exist and repeats no node |
| FlowValidate.ValidMeans | proj/libflow.c/src/libflow.c:1079-1135 | the same written out: the start nodes exist, and on every path from them no node comes twice and every `use` and literal link names a node |
| FlowValidate.RootsMean | proj/libflow.c/src/libflow.c:1114-1135 | every literal entry names a node, and a run of all entries starts at exactly those nodes |
| FlowPaths.TreeIsPaths | proj/libflow.c/src/libflow.c:3257-3465 | the branches of a successful run of a node with plain links are the listed paths' commands composed, in depth-first order |
| FlowPaths.PathCount | proj/libflow.c/src/libflow.c:3399-3452 | how often a path is listed: never unless it is a maximal path of the graph within the levels, and otherwise once for every way to choose a link for each of its steps |
| FlowPaths.PathsAreMaximal | proj/libflow.c/src/libflow.c:3399-3452 | the listed paths are exactly the maximal paths of the graph, as validation knows them, with at most as many nodes as levels |
| FlowPaths.PathsOnce | proj/libflow.c/src/libflow.c:3399-3452 | when no node has two links to one node, every such path is listed exactly once |
| FlowPaths.RepeatedLinkRepeatsPath | proj/libflow.c/src/libflow.c:3399-3452 | a node with the same link twice, which parsing accepts, gives its one maximal path two branches |
| FlowTree.BehaviorIsChain | proj/libflow.c/src/libflow.c:826-840 | a node has behavior b exactly when some chain of `use` references, short enough for the depth guard, leads from it to b and ends there |
| FlowTree.GuardExactly | proj/libflow.c/src/libflow.c:3277-3279 | with plain links, a run that succeeds with enough levels succeeds under the depth guard if and only if no path from its node is longer than the guard allows, and then it is the same run |
| FlowTree.OkBoundsPaths | proj/libflow.c/src/libflow.c:3277-3279 | with plain links, a run that succeeds has a level for every node of every path |
| FlowTree.FuelIsEnough | proj/libflow.c/src/libflow.c:3277-3279 | with plain links and a level for every node of the longest path, more levels change nothing |
| FlowTree.SoundBoundsPaths | proj/libflow.c/src/libflow.c:1079-1135 | in a validated flow no path from an entry is longer than the flow, so recursion is bounded by the node count |
| FlowRun.NodeBehavior | proj/libflow.c/src/libflow.c:826-840 | the node that a chain of `use` references of at most 65 - depth nodes ends in, and none exactly when no such chain exists: a missing target, a cycle or too long a chain |
| FlowRun.Branches.Append | proj/libflow.c/src/libflow.c:2454-2463 | appends unless 2048 branches are held |
| FlowRun.Execute | proj/libflow.c/src/libflow.c:3281-3398 | a node whose `use` chain leads to a node without a command passes its input on; otherwise it starts exactly one command, its own expansion on its input, and passes on what the shell made of it; without a chain or data it fails, and a stop leaves a prefix |
| FlowRun.RunNode | proj/libflow.c/src/libflow.c:3257-3465 | compared with the uninterrupted tree: full branches and commands on success, a prefix of the commands otherwise, and an error only where the tree fails or has too many branches |
| FlowRun.RunLinks | proj/libflow.c/src/libflow.c:3399-3452 | the links of a node, computed ones included, or the entries of the flow run left to right, and the first that does not succeed ends the loop |
| FlowRun.AtMostOneAfterRequest | proj/libflow.c/src/libflow.c:3350-3391 | under a monotone stop schedule at most one command starts at or after the request |
| FlowRun.RunLoaded | proj/libflow.c/src/libflow.c:3475-3628 | a run ends with the concatenation of all branches, or with no output; its commands are a prefix of the uninterrupted run's; without a stop request it succeeds exactly when the flow is valid and that run succeeds within the branch limit |
| FlowRun.RunOne | proj/libflow.c/src/libflow.c:3475-3628 | a run at one node without links returns the input, or what the one command of the used node made of it with the node's own data |
| FlowRun.WholeIsPaths | proj/libflow.c/src/libflow.c:3512-3628 | the branches of a successful run of plain links are the commands along the listed paths, in depth-first order; those are exactly the maximal paths of at most 65 nodes from its entries, each as often as its entry and links can be chosen |
| FlowRun.EntryPathCount | proj/libflow.c/src/libflow.c:3555-3602 | the paths listed for all entries are exactly the maximal paths of at most 65 nodes from the entries, each listed once for every way to choose an entry and links |
| FlowRun.GuardNeverFires | proj/libflow.c/src/libflow.c:3277-3279 | in a validated flow of at most 65 nodes with plain links any deeper guard gives the same run |
| FlowProgress.ValidRuns | proj/libflow.c/src/libflow.c:1114-1135 | what validation is for: a validated flow of at most 65 nodes with plain links runs to its end if every node does its own work, so no link, entry or depth is left to fail |
| ShellQuote.AppendShellValue | proj/libflow.c/src/libflow.c:1249-1275 | every character of a value is escaped as its quote state needs |
| ShellQuote.TrackStep | proj/libflow.c/src/libflow.c:1284-1297 | the tracked quote state and pending escape are the shell's own |
| ShellQuote.ShellCharacters | proj/libflow.c/src/libflow.c:1249-1297 | the characters of the quoting rules, by themselves: what the code escapes between double quotes is dollar sign, backquote, double quote and backslash |
| ShellQuote.OrdinaryOctets | proj/libflow.c/src/libflow.c:1249-1297 | beyond ASCII every octet is an ordinary character |
| ShellQuote.ExpansionsEnd | proj/libflow.c/src/libflow.c:1249-1275 | in the reading of section 2.6.2 of the POSIX Shell Command Language a name is taken whole and a digit or special parameter alone |
| ShellQuote.CommentsBegin | proj/libflow.c/src/libflow.c:1249-1275 | in the reading of section 2.3 of the POSIX Shell Command Language a number sign begins a comment where a word could begin, and only there |
| ShellQuote.ReadyIsPreserved | proj/libflow.c/src/libflow.c:1249-1275 | a value between quotes is read by the shell as its own characters, back in the same quote state |
| ShellQuote.PreservedIffReady | proj/libflow.c/src/libflow.c:1249-1297 | this holds if and only if the value is empty, or no backslash is pending and its first character does not continue an open parameter expansion |
| ShellQuote.UnsafePlaces | proj/libflow.c/src/libflow.c:2221-2301 | two concrete placeholders between double quotes where it fails: behind a backslash and behind a dollar sign |
| ShellQuote.ExpansionPreserves | proj/libflow.c/src/libflow.c:2221-2301 | a whole template with protected placeholders: reading the expanded command gives the template's own reading with every value in place |
| Template.PlaceholderEnd | proj/libflow.c/src/libflow.c:2226-2243 | the closing bracket the scan takes is the one that balances the placeholder's own |
| Template.PlaceholderReplaced | proj/libflow.c/src/libflow.c:2221-2301 | outside a shell command the value takes the place of a placeholder and every other character is copied |
| Template.NestedName | proj/libflow.c/src/libflow.c:2248-2269 | a placeholder within the name of another is resolved first, and the name is taken raw when that fails |
| Template.Limits | proj/libflow.c/src/libflow.c:2240-2258 | a placeholder has 1 to 255 octets, and its own name is expanded as a template down to depth 64 |
| Template.TemplateMode | proj/libflow.c/src/libflow.c:2192-2301 | the expansion of the template's parts, or a failure exactly when a placeholder is malformed or does not resolve or the depth guard is exceeded |
| Template.CommandPreserves | proj/libflow.c/src/libflow.c:2192-2301 | a shell command whose placeholders are protected by its quotes means what its template means |
| Template.UnsafeTemplates | proj/libflow.c/src/libflow.c:2192-2301 | the same as templates: `"\<x>"` with the value `$` and `"$<x>"` with the value `H` expand to commands the shell does not read as the template with the value in place |

## Left out

- Search: scores are real numbers with an uninterpreted `log1p`, so rounding, NaN and the `isfinite` checks are not modelled.
- Search: NULL arguments, and the `size_t` overflow of the result allocation, are not modelled.
- ShellQuote.ExpansionPreserves: the reading of a command covers quoting and plain parameter expansions; command
  substitution, arithmetic, braces, backquotes and comments are entered as opaque text, so a placeholder inside them is not
  protected. Placeholders outside quotes are inserted raw and are not protected either.
- Template.TemplateMode: what a reference resolves to is an arbitrary function of its name and the recursion depth, so
  records, node data, function calls and computed values behind a reference are not modelled.
- FlowRun.RunLoaded: flows have no child imports. Link resolution, node data, command expansion and command execution are
  arbitrary functions; commands run while a computed link or value resolves are not among the events of the run.
- FlowRun.RunNode: without imports a node has exactly one active branch, so the loops over active branches are single steps.
- FlowRun.WholeIsPaths: a computed link, or a link text with a placeholder, may lead anywhere, so the paths of the graph are
  compared with runs of plain links only; the same holds for FlowPaths.TreeIsPaths and the depth guard lemmas.
- FlowRun.RunLinks: the length check on the cache key of a computed link is not modelled.
- Lifecycle.Run: allocation succeeds, so out-of-memory failures in the middle of a call are not modelled.
- VocabHash.Vocabulary.Build: the table size is an unbounded number, so overflow of `n_vocab * 2 + 1` is not modelled.
- WordPiece.Tokenize: the vocabulary lookup is a pure function of the token text; folding, including Hangul, is a table.
- Analyzer.Analyze: table lookup by binary search over ranges and Hangul decomposition are abstract functions.
- Ordering.SortedUnique: `qsort` is modelled by its contract, through an insertion sort.
- Bridge.Serve: sockets, `select`, closing descriptors and successive clients of one backend are not modelled; octets after
  the marker in the same read are dropped, as in the code.
- Client.Receive: connecting, writing the request and the Windows branches are not modelled.
- Memory ownership, freeing and leaks, in every component.
- kc_bm25_tokens, kc_bm25_vocabulary and kc_bm25_postings (callback traversals), and saving to and loading from files.
- Flow parsing, overlays, environment export, built-in commands, command launching and argument splitting.
- GGML inference, GGUF loading, command-line programs, JavaScript projections and the demo library.
- libhnsw, libhttp, libinit and libleven are not part of this model.
