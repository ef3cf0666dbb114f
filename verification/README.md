# Verified models of the protocol code in hkp-rt

The project models the parts of the repository whose correctness is not evident from one body, and proves what they are for. It has eleven parts, each a group of modules named after the component.

- **Mdns** (`3rdparty/mdns.h`): domain names with back-pointers, the 16-slot table of remembered labels, responses put together from records and taken apart again. `Make`, `AddRecord` and `Assemble` say what is written, `ReadName`, `ParseRecords` and the `Parse` functions what is read; the methods of `MdnsDecode`, `MdnsEncode` and `MdnsAssembly` are the loops over the packet buffer. The main results are that a list of names reads back exactly if each first hit of the writer in its table is on a finished name with the same rest, that it does so under a condition on the last labels, and that a peer is told of a whole response record by record, in the terms of the records that were given (`MdnsResponse`).
- **Router** (`3rdparty/crow/routing.h`): the URL trie with `add`, `optimize` and the backtracking `find`, as nodes changed in place and as a value. A trie stands for a list of patterns; lookup is plain matching against that list, before and after compression, and `RouterMatch` says what matching means without the code's readers of values.
- **HttpBody** (`3rdparty/crow/http_parser_merged.h`): the body states of the incremental parser. One call on a buffer does what its octets would do one at a time, so the result, an error included, does not depend on how the octets are cut; bodies whose chunk sizes are hexadecimal numerals are decoded, and the 64-bit accumulators never wrap or reach their sentinel.
- **Mustache** (`3rdparty/crow/mustache.h`): tags compiled into flat actions that name their partners, and the loop with jumps that renders them. Compiling succeeds exactly on the tags of a tree, and rendering prints what a walk of that tree prints. `MustacheContext` says what names stand for.
- **Json** (`3rdparty/crow/json.h`): the writer, the parser on its mutable buffer, unescaping in place, strings as exactly the texts of characters and escapes (`JsonStrings`), the storage of entries and their lookup.
- **WebSocket** (`3rdparty/crow/websocket.h`): headers, the reader as a function of the octets of one read, reassembly of messages from frames whose payloads are read in pieces of any sizes, and the double-buffered write queue as a function of the events of a run, whose octets are the frames asked for.
- **Sha1**, **Multipart**, **Base64**, **Decimal** (`3rdparty/crow/TinySHA1.hpp`, `multipart.h`, `multipart_view.h`, `utility.h`, `3rdparty/yas/defaul_traits.hpp`) and **ServiceSources** (`scripts/collect-licenses.py`): a streamed hash, two parsers that must agree, two codecs and a worklist closure.

`Numerals` has the numerals that readers of numbers are held against. In each part the names ending in `Spec` hold the functions that say what the code computes, those ending in `Proof` the laws about them, and the remaining modules the loops, proved to compute those functions. Buffers are arrays or sequences with cursors; an exception is a result that says so. Octets are numbers below 256 or, in text protocols, characters.

Six facts about the code shape the hypotheses:

- The table lookup of the mDNS writer takes a stored name that merely begins with the labels searched for (`3rdparty/mdns.h:697-699`). `NameReadsBackIff` and `NamesReadBackIff` say when names read back all the same; `CompressionLosesAName` shows two names of which one is lost.
- `Trie::add` stands still at a `<` that opens no known tag, and takes a zero character for the empty key of a parameter. Patterns are therefore required to have only known tags and no zero; `PlainIffNeverRefusedWrongly` shows that only patterns without a zero are never refused wrongly, and `ZeroIsTakenForAParameter` the least case of it.
- The upper half of the `unhex` table holds zeros, so octets from 128 on count as the digit zero in a chunk size. The model has the table as it is.
- The first two octets of a WebSocket frame are asked for with a read that may bring one octet. `StartIff` says that the connection is right behind the start exactly if both came, `HalfAStart` shows a message that is lost otherwise, and `Receive` asks that both come.
- Both multipart parsers use the name parameter of a part's `Content-Disposition` whether or not it is there (`3rdparty/crow/multipart.h:200`, `3rdparty/crow/multipart_view.h:233`). `DumpReadsBack` says that a message is read back if and only if every part has it; the copying parser also throws where the boundary is empty.
- The two multipart parsers differ on a section with no empty line and fewer than three characters: the one on views asks for a position out of range, the copying one goes on to a name that is not there. `ParsersAgree` says that nothing else tells them apart on a body that its delimiters lead to the end of; on any other body the copying parser returns nothing, and the one on views what it has seen.

## Model

| member | source | states |
|---|---|---|
| `MdnsDecode.GetNextSubstring` | 3rdparty/mdns.h:528-560 | the label, the end or the failure that following pointers from an offset leads to, inside the buffer and in a bounded number of steps |
| `MdnsDecode.SubstringReads` | 3rdparty/mdns.h:528-560 | one substring step agrees with one step of the recursive label and pointer decoder |
| `MdnsDecode.StringSkip` | 3rdparty/mdns.h:562-580 | true exactly if the name can be skipped, and then the offset is behind it |
| `MdnsDecode.ReadImpliesSkip` | 3rdparty/mdns.h:562-580 | whenever a name can be extracted it can be skipped; the place is given by both methods as the end of the name |
| `MdnsDecode.StringExtract` | 3rdparty/mdns.h:623-659 | on arbitrary octets the text is the decoded name, each label with a dot, cut to the capacity, and the offset ends where skipping ends |
| `MdnsDecode.StringEqual` | 3rdparty/mdns.h:582-621 | true exactly if both names decode to the same labels but for case; on success both offsets end where skipping ends |
| `MdnsDecode.SameTextMeans` | 3rdparty/mdns.h:582-621 | labels compare as equal if and only if they are the same octet by octet but for the case of letters |
| `MdnsEncode.LabelsOfDotted` | 3rdparty/mdns.h:737-773 | cutting a dotted text at its dots gives back the labels it was joined from |
| `MdnsRoundTrip.DottedOfLabels` | 3rdparty/mdns.h:623-773 | cutting any text at its dots and joining the labels again gives the text with a dot at its end |
| `MdnsEncode.StringTable.Add` | 3rdparty/mdns.h:705-717 | the ring of 16 slots takes the offset and forgets the oldest one when full |
| `MdnsEncode.StringTable.Find` | 3rdparty/mdns.h:661-703 | the first remembered offset at which the labels searched for are found, in the order of the slots |
| `MdnsEncode.StringTable.MatchesAt` | 3rdparty/mdns.h:667-701 | whether the remembered name begins with the labels searched for, as the lookup compares them |
| `MdnsEncode.StringFind` | 3rdparty/mdns.h:719-728 | the position of the next dot, or none |
| `MdnsEncode.StringMakeRef` | 3rdparty/mdns.h:730-735 | a pointer of two octets is written where there is room for it |
| `MdnsEncode.StringMake` | 3rdparty/mdns.h:737-773 | the whole loop over the labels writes what `Make` says, with the table it leaves, or fails |
| `MdnsRoundTrip.MakeSpells` | 3rdparty/mdns.h:737-773 | what is written for a name spells that name in the packet, and keeps every name written before |
| `MdnsRoundTrip.NameReadsBackIff` | 3rdparty/mdns.h:661-773 | a written name reads back exactly if the first hit of the table lookup is on a finished name that consists of the remaining labels |
| `MdnsRoundTrip.MakeKeeps` | 3rdparty/mdns.h:705-773 | a name whose labels keep to the discipline leaves the table and the packet such that the next one can be written |
| `MdnsRoundTrip.NamesReadBackIff` | 3rdparty/mdns.h:623-773 | from any state of the writer, a list of names reads back if and only if the first hit of each name, when its turn comes, is on exactly its remaining labels |
| `MdnsRoundTrip.NamesReadBack` | 3rdparty/mdns.h:623-773 | from any state of the writer, all names that keep to the discipline read back, however often the ring has wrapped |
| `MdnsRoundTrip.LabelsRoundTrip` | 3rdparty/mdns.h:623-773 | names written with one fresh table read back in order, pointers included, if no label that ends one of them occurs earlier in any |
| `MdnsRoundTrip.RoundTrip` | 3rdparty/mdns.h:623-773 | under the same condition the texts that were given are returned, each with a dot at its end and cut to the capacity |
| `MdnsRoundTrip.CompressionLosesAName` | 3rdparty/mdns.h:697-699 | without that condition it fails: after "a.b" the name "a" reads back as "a.b" |
| `MdnsRoundTrip.AtMost64Labels` | 3rdparty/mdns.h:623-659 | a name that is spelt out is read if and only if it has at most 64 labels |
| `MdnsRoundTrip.AtMost16Jumps` | 3rdparty/mdns.h:528-560 | pointers to pointers are followed sixteen times and no further |
| `MdnsAssembly.AddRecordHeader` | 3rdparty/mdns.h:1211-1226 | name, type, class, lifetime and a length to be filled in later, or a failure |
| `MdnsAssembly.AddRecordData` | 3rdparty/mdns.h:1228-1284 | the data of each record type, or a failure for lack of room |
| `MdnsAssembly.AnswerAddRecord` | 3rdparty/mdns.h:1228-1284 | a whole record with its length filled in |
| `MdnsAssembly.AnswerAddTxtRecord` | 3rdparty/mdns.h:1298-1346 | all text records of a list as one record of key and value strings |
| `MdnsAssembly.AnswerGetRecordCount` | 3rdparty/mdns.h:1348-1360 | the number of records the list makes on the wire: all text records count as one |
| `MdnsAssembly.AnswerMulticast` | 3rdparty/mdns.h:1426-1473 | a response is put together as `Assemble` says, or nothing is sent |
| `MdnsMessageProof.AddRecordKeeps` | 3rdparty/mdns.h:1211-1284 | a written record is on the wire at its place, and the names before it stay readable |
| `MdnsMessageProof.SectionCount` | 3rdparty/mdns.h:1348-1360 | a section writes exactly as many records as the header counts |
| `MdnsMessageProof.AddSectionKeeps` | 3rdparty/mdns.h:1298-1346 | a section puts its records and its text record on the wire, one behind the other |
| `MdnsAssembly.RecordsParse` | 3rdparty/mdns.h:775-807 | the entries of a section, up to the first that does not fit, and where they end, under a callback that goes on |
| `MdnsAssembly.QueryRecv` | 3rdparty/mdns.h:1126-1192 | what the callback is told of a packet, section by section, until one comes up short |
| `MdnsAssembly.RecordParsePtr` | 3rdparty/mdns.h:1503-1511 | the name of a pointer record, or nothing |
| `MdnsAssembly.RecordParseSrv` | 3rdparty/mdns.h:1513-1536 | the numbers and the host of a service record, or zeros |
| `MdnsAssembly.RecordParseAddress` | 3rdparty/mdns.h:1538-1559 | an address of four or sixteen octets, or zeros |
| `MdnsAssembly.RecordParseTxt` | 3rdparty/mdns.h:1561-1613 | the pairs of a text record, as many as there is room for |
| `MdnsMessageRoundTrip.StringReadsBackIff` | 3rdparty/mdns.h:1561-1613 | one string comes back as its key and value exactly if the key is proper: not empty, printable ASCII, without "=" |
| `MdnsMessageRoundTrip.StringsReadBack` | 3rdparty/mdns.h:1561-1613 | the strings of a text record come back as the list of pairs they were made from |
| `MdnsMessageRoundTrip.BodyReads` | 3rdparty/mdns.h:1503-1613 | the data of a record on the wire is read as the data that was given |
| `MdnsMessageRoundTrip.WiresParse` | 3rdparty/mdns.h:775-807 | the records on the wire are parsed one by one, each with its type, class and lifetime |
| `MdnsMessageRoundTrip.WiresReceived` | 3rdparty/mdns.h:1426-1473 | a response that was put together is received with an entry for each record on the wire, under a header that counts them |
| `MdnsResponse.UpdatedHead` | 3rdparty/mdns.h:1286-1295 | all lifetimes are zero in a goodbye, else each is the own one of the record or the default; of the class the IN bit and the cache-flush bit are kept, the latter not for a PTR |
| `MdnsResponse.RecordTold` | 3rdparty/mdns.h:1503-1613 | an entry tells name, type code, class, lifetime and data of the record given, in its own terms |
| `MdnsResponse.SectionTold` | 3rdparty/mdns.h:1298-1360 | a section tells its records in order, and its text records as one with all their pairs |
| `MdnsResponse.MessageRoundTrip` | 3rdparty/mdns.h:1127-1613 | what a peer receives of a response that was put together: the answer and both sections, record by record, with the names, type codes, classes, lifetimes and data that were given, under the defaults of the response |
| `RouterSpec.Merge` | 3rdparty/crow/routing.h:756-764 | merging a node with its only child leaves a smaller tree, so compression ends |
| `RouterProof.MatchChars` | 3rdparty/crow/routing.h:965-977 | comparing a text at once is matching it character by character |
| `RouterProof.BestFrom` | 3rdparty/crow/routing.h:847-854 | keeping the least rule is independent of what was found before |
| `RouterProof.FindIsBest` | 3rdparty/crow/routing.h:832-988 | backtracking lookup is plain matching against the list of patterns a trie stands for |
| `RouterProof.FindInIsBest` | 3rdparty/crow/routing.h:865-981 | the loop over the children is plain matching against their patterns |
| `RouterProof.MergeKeeps` | 3rdparty/crow/routing.h:756-764 | merging a simple node keeps the patterns with their rules |
| `RouterProof.OptimizeNodeKeeps` | 3rdparty/crow/routing.h:752-773 | compressing a node keeps the patterns with their rules, in order |
| `RouterProof.OptimizeKeepsLookup` | 3rdparty/crow/routing.h:742-773 | for every trie and URL, lookup finds the same rule and parameters before and after compression |
| `RouterProof.OptimizeAllCompresses` | 3rdparty/crow/routing.h:742-773 | after compression no node below the head can be merged |
| `RouterProof.OptimizedStays` | 3rdparty/crow/routing.h:742-773 | compressing again changes nothing |
| `RouterProof.AddGains` | 3rdparty/crow/routing.h:996-1079 | `add` refuses a pattern without a zero character exactly if it has a rule, and else the trie gains that pattern and no other, or none for the index zero |
| `RouterTheorem.BuiltHasTheRules` | 3rdparty/crow/routing.h:996-1079 | rules can all be added exactly if no pattern comes again behind a rule, and the trie has just their patterns |
| `RouterTheorem.BestIsLeast` | 3rdparty/crow/routing.h:847-854 | the best of a list of patterns is the least rule that matches |
| `RouterTheorem.LookupIsPatternMatching` | 3rdparty/crow/routing.h:832-1079 | for every list of rules with different patterns and every URL: the least index among the matching rules with the parameters of such a match, or none, also after compression |
| `RouterMatch.ConvertIff` | 3rdparty/crow/routing.h:869-963 | what a parameter takes: the numeral behind an optional sign up to the last digit and in range, the text up to the next slash, or all the rest; and nothing else |
| `RouterMatch.MatchMeans` | 3rdparty/crow/routing.h:832-1079 | a URL matches a rule with these parameters if and only if pattern and URL are cut into parts that stand for each other, a character for itself and a tag for a text of its kind, and the values in order are the parameters |
| `RouterMatch.GoesThroughIff` | 3rdparty/crow/routing.h:1003-1047 | `add` gets through a pattern if and only if it consists of the seven tags and of characters that open none |
| `RouterZero.UnzeroedHasPieces` | 3rdparty/crow/routing.h:1003-1079 | a pattern with a parameter in the place of every zero has the same steps, but for those parameters |
| `RouterZero.PlainIffNeverRefusedWrongly` | 3rdparty/crow/routing.h:1050-1079 | a pattern is refused in no trie but for its own rule if and only if it has no zero character |
| `RouterZero.ZeroIsTakenForAParameter` | 3rdparty/crow/routing.h:826-1079 | in a trie that `validate` accepts, the pattern "/\0" is refused behind "/<int>" |
| `RouterTrie.Parameters.Pop` | 3rdparty/crow/routing.h:880-886 | popping gives back the parameters from before the push |
| `RouterTrie.TrieNode.Find` | 3rdparty/crow/routing.h:832-988 | the recursive lookup with shared parameters finds what the function says and leaves the parameters as they were |
| `RouterTrie.UpdateFound` | 3rdparty/crow/routing.h:847-854 | a rule replaces nothing or a rule of a larger index |
| `RouterTrie.TrieNode.IsSimpleNode` | 3rdparty/crow/routing.h:714-723 | the test for a node that can be merged |
| `RouterTrie.TrieNode.OptimizeNode` | 3rdparty/crow/routing.h:752-773 | compression in place gives the compressed tree, within the nodes there were |
| `RouterTrie.TrieNode.Add` | 3rdparty/crow/routing.h:996-1079 | adding in place gives the extended tree, or leaves the tree as it was |
| `RouterTrie.Trie.Add` | 3rdparty/crow/routing.h:996-1079 | a rule is added exactly if no rule added before has its pattern |
| `RouterTrie.Trie.Optimize` | 3rdparty/crow/routing.h:742-748 | compression keeps the rules, also when it is done again |
| `RouterTrie.Trie.Find` | 3rdparty/crow/routing.h:832-993 | on every run: the least index among the added rules that match, with its parameters, or nothing |
| `HttpBodyProof.AccumulateIsExact` | 3rdparty/crow/http_parser_merged.h:1416-1429 | within the overflow test an accumulator step is exact and stays below the sentinel |
| `HttpBodyProof.StepKeeps` | 3rdparty/crow/http_parser_merged.h:1723-1888 | the parser asserts hold after every octet, whatever it is |
| `HttpBodyProof.UnhexIs` | 3rdparty/crow/http_parser_merged.h:675-691 | the table gives every hexadecimal digit, small or capital, its value, and no other octet below 128 one; the upper half is zero |
| `HttpBodyProof.HexIsRead` | 3rdparty/crow/http_parser_merged.h:1770-1821 | the hexadecimal numeral of a number, with any zeros before it and any letters as capitals, is read as that number |
| `HttpBodyProof.RunDigits` | 3rdparty/crow/http_parser_merged.h:1786-1821 | a chunk size is read as its value, and refused exactly if the value is over the limit |
| `HttpBodyProof.RunLine` | 3rdparty/crow/http_parser_merged.h:1770-1849 | a size line, with anything behind the size, leads to the data or to the end of the chunks |
| `HttpBodyProof.LineIsTooLong` | 3rdparty/crow/http_parser_merged.h:292-300 | a size line of more than 80 kilobytes is an error, whatever it says |
| `HttpBodyProof.RunChunk` | 3rdparty/crow/http_parser_merged.h:1770-1888 | a chunk adds its data to the body |
| `HttpBodyProof.ChunkedBodyIsDecoded` | 3rdparty/crow/http_parser_merged.h:1770-1888 | every chunked body without trailer, the size of each chunk a hexadecimal numeral of its length, is decoded into the data of its chunks, as one message |
| `HttpBodyProof.IdentityBodyIsDecoded` | 3rdparty/crow/http_parser_merged.h:1723-1768 | a body of given length is those octets, as one message |
| `HttpBodyProof.NotCompleteBefore` | 3rdparty/crow/http_parser_merged.h:1766-1768 | a message complete with the last octet was not complete before |
| `HttpBodyProof.LengthIsExact` | 3rdparty/crow/http_parser_merged.h:1402-1436 | a Content-Length of digits is read as its value exactly if the value without its last digit is within the limit, and never as the sentinel |
| `HttpBodyProof.NumeralIsRead` | 3rdparty/crow/http_parser_merged.h:1402-1436 | the decimal numeral of any number is read as that number, or refused, according to an exact bound on the number |
| `HttpBody.HttpParser.Octet` | 3rdparty/crow/http_parser_merged.h:1766-1888 | the states that take one octet |
| `HttpBody.HttpParser.Stretch` | 3rdparty/crow/http_parser_merged.h:1723-1756 | data is taken in one go, marked, and handed over at the end of a body of given length |
| `HttpBody.HttpParser.Execute` | 3rdparty/crow/http_parser_merged.h:693-1928 | a call on a buffer does what its octets would do one at a time, and stands at the wrong octet after an error |
| `HttpBody.HttpParser.ExecuteAll` | 3rdparty/crow/http_parser_merged.h:693-1928 | any octets, cut in any way: the same error, counters and state as octet by octet, the same failing octet, and without an error the same body |
| `HttpBody.HttpParser.AtEnd` | 3rdparty/crow/http_parser_merged.h:712-727 | a call without octets is an error inside a body |
| `HttpBody.HttpParser.Feed` | 3rdparty/crow/parser.h:111-133 | nothing more is parsed once a message is complete |
| `HttpBody.HttpParser.FeedAll` | 3rdparty/crow/parser.h:111-133 | however a message is cut into buffers, the parser ends as if its octets had come one at a time |
| `HttpBody.DecodeChunked` | 3rdparty/crow/http_parser_merged.h:1770-1928 | every cutting of a well-formed chunked body yields its data and one complete message |
| `HttpBody.DecodeIdentity` | 3rdparty/crow/http_parser_merged.h:1723-1928 | every cutting of a body of given length yields it and one complete message |
| `HttpBody.ContentLength` | 3rdparty/crow/http_parser_merged.h:1402-1436 | the loop over a Content-Length value |
| `MustacheProof.ReadIsProper` | 3rdparty/crow/mustache.h:530-660 | the tree read from tags has exactly these tags, and its blocks are closed by their own names |
| `MustacheProof.CompileTree` | 3rdparty/crow/mustache.h:530-660 | whatever is open around it, a tree adds its flat actions and leaves the same blocks open |
| `MustacheProof.CompileIsReading` | 3rdparty/crow/mustache.h:495-676 | compiling succeeds exactly on the tags of a tree, and the actions are that tree laid out flat |
| `MustacheProof.ReadBack` | 3rdparty/crow/mustache.h:530-660 | no other tree has these tags |
| `MustacheRender.CompiledIsNested` | 3rdparty/crow/mustache.h:530-578 | opening and closing actions are well nested and name each other |
| `MustacheRender.RestHead` | 3rdparty/crow/mustache.h:287-421 | past a node, what it prints has been printed and the rest remains |
| `MustacheRender.RestInside` | 3rdparty/crow/mustache.h:400-417 | going into a block with one more context prints the rest with that context |
| `MustacheContext.NamesMean` | 3rdparty/crow/mustache.h:187-206 | the names of a dotted name have no dots, and with dots between them are that name |
| `MustacheContext.FollowMeans` | 3rdparty/crow/mustache.h:208-228 | names lead from a context to where the fields of these names lead |
| `MustacheContext.SearchMeans` | 3rdparty/crow/mustache.h:174-234 | a name stands for what the innermost context leads to that leads anywhere |
| `MustacheContext.EscapedIsNoMarkup` | 3rdparty/crow/mustache.h:237-256 | no character of markup is left in what is printed for a tag |
| `Mustache.Mustache.Parse` | 3rdparty/crow/mustache.h:495-676 | the loop over the tags with its stack of open blocks gives the compiled actions, or an exception exactly if there are none |
| `Mustache.Mustache.ChooseViews` | 3rdparty/crow/mustache.h:348-414 | the contexts for which a block is rendered: each item, one pushed context, or none |
| `Mustache.Mustache.TagText` | 3rdparty/crow/mustache.h:302-346 | what a tag prints, escaped or not, or an exception |
| `Mustache.Mustache.IsInsideObjectBlock` | 3rdparty/crow/mustache.h:258-280 | the backward scan for a block that is open around a tag |
| `Mustache.ContextOf` | 3rdparty/crow/mustache.h:174-235 | the search for a name through the stack, from the top |
| `Mustache.Escaped` | 3rdparty/crow/mustache.h:237-256 | the switch over the characters of markup |
| `Mustache.Mustache.RenderInternal` | 3rdparty/crow/mustache.h:280-425 | rendering flat actions with jumps prints what the tree prints and leaves the context stack as it found it |
| `Mustache.Mustache.RenderItems` | 3rdparty/crow/mustache.h:389-397 | a body is rendered once for every item of a list |
| `Mustache.Mustache.RenderString` | 3rdparty/crow/mustache.h:484-492 | a compiled template prints what the walk of its tree prints |
| `JsonSpec.ScanIsWell` | 3rdparty/crow/json.h:902-960 | a string that the parser accepts can be unescaped, and is itself if no escape was seen |
| `JsonProof.UnescapeEscape` | 3rdparty/crow/json.h:45-71 | unescaping undoes escaping, for every string with control characters and zeros |
| `JsonStrings.Utf8Is` | 3rdparty/crow/json.h:517-533 | the octets written for a code are that code in UTF-8, for all codes of four digits |
| `JsonStrings.StringMeans` | 3rdparty/crow/json.h:480-542 | a string is read, as these octets, if and only if the text is two quotes around characters and escapes that stand for them: all letters, all codes, digits in either case |
| `JsonProof.StringReads` | 3rdparty/crow/json.h:902-960 | a dumped string is read as the string |
| `JsonProof.DecimalReadsBack` | 3rdparty/crow/json.h:1933-1940 | a printed integer stands for that integer |
| `JsonProof.IntegerRuns` | 3rdparty/crow/json.h:1002-1126 | the number states read a printed integer up to the first character that is no part of a number |
| `JsonProof.ValueReads` | 3rdparty/crow/json.h:1129-1181 | a dumped value, wherever it stands and whatever follows, is read as the value if the nesting fits, else not at all |
| `JsonProof.LoadDump` | 3rdparty/crow/json.h:875-1258 | loading a compact or indented dump yields the value if it is nested at most 5000 deep, and fails if it is deeper |
| `JsonWriter.Writer.DumpString` | 3rdparty/crow/json.h:1838-1843 | escaping character by character between quotes |
| `JsonWriter.Writer.EscapeOne` | 3rdparty/crow/json.h:45-71 | the switch over one character |
| `JsonWriter.Writer.DumpInternal` | 3rdparty/crow/json.h:1852-2027 | the writer appends the dump of the value |
| `JsonReader.UnescapeInPlace` | 3rdparty/crow/json.h:480-542 | the string is replaced by its unescaped form, writing never overtakes reading, and nothing else changes |
| `JsonReader.DenotesFrame` | 3rdparty/crow/json.h:902-960 | writing outside a stretch of the buffer does not change what the values inside stand for |
| `JsonParser.Parser.DecodeString` | 3rdparty/crow/json.h:902-960 | the string is found, its quotes become flag and terminator, and what was parsed before stays |
| `JsonParser.Parser.DecodeNumber` | 3rdparty/crow/json.h:1002-1126 | the loop over the number states, with its inner loop over digits |
| `JsonParser.Parser.NextState` | 3rdparty/crow/json.h:1018-1108 | the switch over the number states |
| `JsonParser.Parser.DecodeValue` | 3rdparty/crow/json.h:1129-1181 | the result stands, in the changed buffer, for what the text before it was changed is read as |
| `JsonParser.Parser.DecodeList` | 3rdparty/crow/json.h:962-1000 | the same of a list, with its depth limit |
| `JsonParser.Parser.DecodeObject` | 3rdparty/crow/json.h:1183-1244 | the same of an object |
| `JsonParser.Parser.DecodeField` | 3rdparty/crow/json.h:1200-1229 | a key, unescaped at once, and its value |
| `JsonParser.Parser.Parse` | 3rdparty/crow/json.h:1246-1254 | one value and nothing but white space around it |
| `JsonRoundTrip.DumpAndLoad` | 3rdparty/crow/json.h:875-1270 | what the parser returns for a dump stands for the value in its own buffer, or is an error if the value is nested too deep |
| `JsonStore.Storage.EmplaceBack` | 3rdparty/crow/json.h:722-740 | an entry is put behind the others through every regrowth, and the places left fit in 16 bits |
| `JsonStore.LowerBound` | 3rdparty/crow/json.h:572-573 | the first entry whose key is not less |
| `JsonStore.LinearOfPermutation` | 3rdparty/crow/json.h:662-668 | with distinct keys the order of the entries does not matter for a search |
| `JsonStore.ObjectValue.Lookup` | 3rdparty/crow/json.h:641-676 | sorting on first use and searching by halves finds what looking at one entry after the other finds |
| `WebSocketProof.SwapStores` | 3rdparty/crow/websocket.h:318-323 | on machines of either byte order a 16-bit or 32-bit field is stored in network order |
| `WebSocketProof.Swap64Stores` | 3rdparty/crow/websocket.h:324-329 | on machines of either byte order a 64-bit length is stored in network order |
| `WebSocketProof.Swap64Loads` | 3rdparty/crow/websocket.h:496-496 | and is read back as the number |
| `WebSocketProof.MaskedTwice` | 3rdparty/crow/websocket.h:627-633 | masking twice gives the payload back |
| `WebSocketProof.XorIsBitwise` | 3rdparty/crow/websocket.h:627-633 | each bit of the exclusive or is set exactly if the bits of the operands differ |
| `WebSocketProof.MaskedIsBitwise` | 3rdparty/crow/websocket.h:627-633 | every bit of every octet of a payload is masked with the octets of the key in turn |
| `WebSocketProof.BuiltHeaderIsFrameHead` | 3rdparty/crow/websocket.h:309-330 | for every opcode and 64-bit size the header is the head of a final frame without mask, in the shortest form |
| `WebSocketProof.HandleParts` | 3rdparty/crow/websocket.h:634-723 | the fragments of a message are put together, with control frames between them |
| `WebSocketProof.StreamIsMessages` | 3rdparty/crow/websocket.h:625-723 | for any valid stream every message is delivered once, whole, in order and with the type of its first fragment, and every ping is answered |
| `WebSocketProof.ClosedStream` | 3rdparty/crow/websocket.h:625-710 | with a close frame behind them the messages are the same, the close handler is told its status and reason, and nothing after it is handled |
| `WebSocketReader.StartReads` | 3rdparty/crow/websocket.h:609-619 | the first two octets give opcode, final bit, mask bit and length code |
| `WebSocketReader.StartIff` | 3rdparty/crow/websocket.h:380-446 | whether the read of a start brings one octet or two: the connection is at the next field of the frame exactly if it was two, for every frame |
| `WebSocketReader.FrameStep` | 3rdparty/crow/websocket.h:366-607 | one read in a frame leads to the next field or piece of it, or to the end with the frame handled |
| `WebSocketReader.HalfAStart` | 3rdparty/crow/websocket.h:380-394 | two empty messages of which, after a start read of one octet, the second is never delivered |
| `WebSocket.Connection.OnMiniHeader` | 3rdparty/crow/websocket.h:380-446 | what one octet or two of a start are taken for, whatever they are, on machines of either byte order |
| `WebSocket.Connection.OnLen64` | 3rdparty/crow/websocket.h:486-519 | the 64-bit length is read on machines of either byte order |
| `WebSocket.Connection.OnPayload` | 3rdparty/crow/websocket.h:569-606 | a piece of the payload is collected, and the last one completes the frame |
| `WebSocket.Connection.HandleFragment` | 3rdparty/crow/websocket.h:625-723 | a frame is unmasked and handled by its opcode, close frames included |
| `WebSocket.Connection.OnClose` | 3rdparty/crow/websocket.h:668-706 | the status and reason of a close frame, and whether it is answered |
| `WebSocket.Connection.DoRead` | 3rdparty/crow/websocket.h:366-607 | one read of any stream in any state, of as many octets as have arrived |
| `WebSocket.Connection.ReadFrame` | 3rdparty/crow/websocket.h:366-607 | a frame whose start is read at once is handled, whatever the pieces of its payload |
| `WebSocket.Connection.ReadStream` | 3rdparty/crow/websocket.h:366-607 | a stream of frames is handled frame by frame up to a close frame, if every read of a start brings two octets |
| `WebSocket.Receive` | 3rdparty/crow/websocket.h:366-723 | every valid stream of masked or unmasked fragments, up to a close frame if there is one, delivers its messages, answers its pings and reports the close, if every read of a start brings two octets, whatever the other reads bring |
| `WebSocketWrites.Writer.DoWrite` | 3rdparty/crow/websocket.h:729-763 | a write begins only while none is in flight, and takes all that waits |
| `WebSocketWrites.Writer.SendData` | 3rdparty/crow/websocket.h:791-797 | header and payload are queued next to each other |
| `WebSocketWrites.Writer.Close` | 3rdparty/crow/websocket.h:260-289 | a close frame is queued behind what was queued before |
| `WebSocketWrites.Writer.OnWritten` | 3rdparty/crow/websocket.h:741-776 | a completed write makes room for the next; a failed one, or one behind the close frame, gives the connection up, which lives on while a read is pending |
| `WebSocketWrites.StepKeeps` | 3rdparty/crow/websocket.h:729-776 | whatever happens next, at most one write is in flight and nothing is lost or moved between what was handed over and what waits |
| `WebSocketWrites.InOrder` | 3rdparty/crow/websocket.h:729-797 | after every run what was handed to the socket and then what waits is what was queued, in queueing order, with at most one write in flight |
| `WebSocketWrites.OnlyMore` | 3rdparty/crow/websocket.h:729-797 | at no later time is less handed over |
| `WebSocketWrites.AllHanded` | 3rdparty/crow/websocket.h:741-751 | until the connection is given up, all that was queued has been handed over once no write is in flight |
| `WebSocketWrites.BuffersAreFrames` | 3rdparty/crow/websocket.h:260-330 | what a message or a closing queues is, octet by octet, one final unmasked frame with its opcode and payload; for closing the status in network order and the reason, or nothing |
| `WebSocketWrites.QueuedAreFrames` | 3rdparty/crow/websocket.h:260-330 | all that is queued in a run is the frames that were asked for until the connection is destroyed, one behind the other |
| `WebSocketWrites.OctetsInOrder` | 3rdparty/crow/websocket.h:729-797 | the octets of the writes that have ended and of any part of the one in flight begin the frames that were asked for, in their order |
| `WebSocketWrites.Run` | 3rdparty/crow/websocket.h:729-797 | a connection through any events is as the specification of the run says |
| `Sha1.RotationsAgree` | 3rdparty/crow/TinySHA1.hpp:52-54 | the rotations that are used are those of the standard |
| `Sha1.ChoicesAgree` | 3rdparty/crow/TinySHA1.hpp:178-191 | the forms of choice and majority in the code are those of the standard |
| `Sha1.Turn` | 3rdparty/crow/TinySHA1.hpp:175-198 | one of the eighty rounds |
| `Sha1.PaddingIs` | 3rdparty/crow/TinySHA1.hpp:98-124 | what is processed at the end is the padding of section 5.1.1 of FIPS 180-4 |
| `Sha1.Mix` | 3rdparty/crow/TinySHA1.hpp:175-191 | function and constant of a round |
| `Sha1.LoadWord` | 3rdparty/crow/TinySHA1.hpp:159-164 | a word of a block, the most significant octet first |
| `Sha1.SHA1.ProcessByte` | 3rdparty/crow/TinySHA1.hpp:75-83 | an octet is taken in, and a full block is compressed into the digest |
| `Sha1.SHA1.ProcessBlock` | 3rdparty/crow/TinySHA1.hpp:157-205 | the compression in place is the compression function |
| `Sha1.SHA1.GetDigest` | 3rdparty/crow/TinySHA1.hpp:98-124 | for messages below 2^29 octets the result is the hash of what was processed |
| `Sha1.GetDigestBytes` | 3rdparty/crow/TinySHA1.hpp:125-153 | the twenty octets of the digest |
| `Sha1.WordOctetsLoad` | 3rdparty/crow/TinySHA1.hpp:125-164 | the octets of a word, loaded again, are the word |
| `Sha1.HashPieces` | 3rdparty/crow/TinySHA1.hpp:75-124 | however a message is cut into calls, the digest is that of the whole |
| `MultipartProof.ParsersAgree` | 3rdparty/crow/multipart_view.h:210-250 | on every body whose delimiters lead to its end, the two parsers have the same outcome if and only if no short section is met; else the one is undefined where the other throws |
| `MultipartProof.NotRead` | 3rdparty/crow/multipart.h:183-191 | on any other body the copying parser returns nothing |
| `MultipartProof.ShortSection` | 3rdparty/crow/multipart_view.h:241-250 | a body with one character before its delimiter on which the parsers differ |
| `MultipartProof.DispositionIs` | 3rdparty/crow/multipart.h:196-203 | the disposition is the header of that name in letters of either case |
| `MultipartProof.NamedMeans` | 3rdparty/crow/multipart.h:196-203 | a part with one header has a name exactly if that is a disposition with the name parameter |
| `MultipartProof.ParamsRead` | 3rdparty/crow/multipart.h:245-261 | the parameters of a header come back |
| `MultipartProof.HeaderReads` | 3rdparty/crow/multipart.h:220-264 | a header line comes back as name, value and parameters |
| `MultipartProof.SectionReads` | 3rdparty/crow/multipart.h:207-218 | a part comes back from its own text |
| `MultipartProof.DumpReadsBack` | 3rdparty/crow/multipart.h:97-218 | the dump of a message that its boundary can separate is read back by either parser if and only if every part has the parameter that names it, and by the copying one if there is a boundary as well |
| `Multipart.ParseSectionHead` | 3rdparty/crow/multipart.h:220-264 | the loop over the header lines |
| `Multipart.Erase` | 3rdparty/crow/multipart.h:186-216 | cutting a text behind what was found, in 64 bits where nothing was |
| `Multipart.ReadParam` | 3rdparty/crow/multipart.h:245-268 | a parameter without its quotes |
| `Multipart.DumpMessage` | 3rdparty/crow/multipart.h:97-128 | the loops of the writer over parts, headers and parameters |
| `Multipart.Message.Add` | 3rdparty/crow/multipart.h:196-203 | a section is read and put behind the others, if the parameter that names it is there |
| `Multipart.Message.ParseBody` | 3rdparty/crow/multipart.h:178-205 | the loop of the copying parser: the parts, or how it ends without them |
| `Multipart.Message.ParseViewBody` | 3rdparty/crow/multipart_view.h:210-239 | the loop of the parser on views: the parts, or how it ends without them |
| `Multipart.FromRequest` | 3rdparty/crow/multipart.h:145-159 | a message from a request, with an exception for an empty boundary |
| `Multipart.RoundTrip` | 3rdparty/crow/multipart.h:97-276 | parts written and read by either parser are the same parts if and only if each has a name |
| `Base64.Encode` | 3rdparty/crow/utility.h:560-594 | the loop of the encoder writes the padded text |
| `Base64.Decode` | 3rdparty/crow/utility.h:611-684 | the loop of the decoder writes the octets of the text |
| `Base64.GroupReads` | 3rdparty/crow/utility.h:560-684 | four characters give back the three octets they were made from |
| `Base64.GroupsAreNumbers` | 3rdparty/crow/utility.h:560-594 | the characters of a group are the digits to the base 64 of the number that its octets are, with zero bits at the end |
| `Base64.OnlyKeyHasValue` | 3rdparty/crow/utility.h:616-624 | the decoder gives a value other than zero to the characters of the two alphabets only |
| `Base64.SizeOfEncoded` | 3rdparty/crow/utility.h:626-640 | the computed size is that of the octets, with padding |
| `Base64.RoundTrip` | 3rdparty/crow/utility.h:560-684 | for all octets and either alphabet, padded or not, decoding gives them back with exactly the computed size |
| `Decimal.Length` | 3rdparty/yas/defaul_traits.hpp:121-130 | the staged test gives the number of digits of every 64-bit number |
| `Decimal.Utoa` | 3rdparty/yas/defaul_traits.hpp:121-158 | the digits are written from the back |
| `Decimal.Atou` | 3rdparty/yas/defaul_traits.hpp:77-105 | the sum of digits times powers of ten, cut to 64 bits |
| `Decimal.RoundTrip` | 3rdparty/yas/defaul_traits.hpp:77-158 | every 64-bit number is read back from its digits |
| `Decimal.SignedRoundTrip` | 3rdparty/yas/defaul_traits.hpp:107-168 | every signed number but the least is read back |
| `ServiceSources.Closure` | scripts/collect-licenses.py:445-458 | the worklist ends on cyclic includes, with exactly the existing files that the header reaches |
| `ServiceSources.Sources` | scripts/collect-licenses.py:429-460 | for each declared id exactly the files that its headers reach, and no other id |

## Left out

- Sockets, timers, threads, files, logging and the server around the parsers: the model has their bytes and the events in which they come.
- mDNS: questions and queries, which are written without a table, unicast answers and discovery; `size_t` overflow, with buffers below 2^63; a packet shorter than its header, which the code reads as well. Addresses are raw octets. A failed write gives the packet up, and its contents are not described.
- mDNS: the round trips ask for a packet whose unwritten tail is zero and for offsets below 0x4000; the host of an SRV record that is the root name reads back empty, as `TellsData` says.
- MdnsAssembly.RecordsParse: leaves out a callback that stops the parsing.
- RouterSpec.Find: has the rule index and the parameters, not the blueprint indices, which affect neither. Reading floating-point numbers is a parameter. Rule and blueprint indices are not cut to 16 bits.
- RouterTrie.Trie.Add: asks for a pattern without a zero character; `PlainIffNeverRefusedWrongly` says that no other condition will do.
- RouterTrie.TrieNode.Add: is a recursion down the trie where the code moves a pointer in a loop.
- HTTP: the request line, headers other than the value of `Content-Length`, trailer fields, pipelined requests and pausing. The model stops at the first octet of a trailer field; a `Content-Length` of zero completes before the body states and is not a body.
- HttpBody.HttpParser.Execute: after an error it promises the same error, counters and position, and of the body a prefix: data of the last buffer that was still marked is not handed over.
- Mustache.Mustache.Parse: has the tags and the texts between them as its input; finding them in the text is left out.
- Mustache: partials, functions, changed delimiters, indentation and the trimming of standalone lines.
- JSON: floating-point numbers, functions as values, copies of a value that share a buffer, the conversion of a number's text when it is asked for. An object is the list of its fields in the order in which its map gives them. The library's sort is a parameter of `Lookup`.
- JsonStore.Storage.EmplaceBack: asks for fewer than 2^30 entries, since doubling is done in an `int`.
- WebSocket: failed reads, the upgrade response, and how often the close handler is called from `check_destroy`. A connection whose payload is above the limit stops; the streams that are read whole have none.
- WebSocket.Receive: asks that every read of a frame's start bring both octets; `StartIff` and `HalfAStart` say what one of them alone leads to.
- WebSocketWrites.Run: has no events of a connection that was destroyed, and its octets are those handed over, whatever a failed write has sent of them.
- SHA-1: messages of 2^29 octets and more, whose length does not fit the 32 bits that are written.
- Multipart: the map of parts by name, but for the parameter it is keyed with; the request header with the boundary. Headers and parameters are lists in the order of their maps; which of several headers of one name a map finds is not specified, so each disposition must have the parameter.
- MultipartProof.DumpReadsBack: has parts with at least one header, and texts without line breaks and separators in the wrong places.
- Base64: masks and shifts are written as quotients, remainders and sums of parts that do not overlap.
- Decimal: the fall-through switches are loops.
- ServiceSources: reading files and resolving paths; a file has the include targets that it has.
- `query_string.h`, `task_timer.h`, `mime_types.h`, `ci_map.h`, the YAS archives, the registry tables and the frontends: easy members or no algorithm.
