# The algorithms behind simple-flow, modelled and proved

simple-flow follows a log file, sends it over TCP and reassembles its lines on the other side.  Around that
thin core it carries its own copies of several libraries, and that is where the algorithms are: the matcher
engine of googlemock, the Redis client hiredis with its reader, formatter, string and hash-table code, an
HTTP parser, a multipart parser, and the thread pool of its HTTP server.  This project models those parts in
Dafny and proves what they are relied on for.

`dafny verify dfyconfig.toml` checks everything.

## How it is built

Code that changes things step by step is modelled that way: classes with the source's fields, arrays and
linked nodes that are rewritten in place, loops with the source's branches.  Each such method is proved equal
to a function on values, or its contract says outright what the caller relies on; the larger results are
lemmas about those functions, for all inputs, all ways of cutting a stream, all runs or all schedules.

| file | part of the program | main results |
|---|---|---|
| `BipartiteMatching.dfy` | `MaxBipartiteMatchState`, `FindPairing` | one visit to each left node gives a maximum matching |
| `RespProtocol.dfy`, `RespReader.dfy`, `RespRoundTrip.dfy` | the reply reader of hiredis | a stream may be cut anywhere; trees are rebuilt exactly from every text that spells them |
| `CommandFormatter.dfy` | command formatters, number printing | announced lengths are met; commands are read back |
| `Multipart.dfy`, `MultipartParser.dfy`, `MultipartRecovery.dfy` | multipart parser | cut independence; part data is recovered if and only if the boundary has a property |
| `HttpMessage.dfy`, `HttpParser.dfy`, `HttpBody.dfy` | headers and body in `http_parser_execute` | cut independence with fast loops and marks; exact lengths |
| `HttpValues.dfy`, `HttpHeaders.dfy`, `HttpWholeMessage.dfy`, `HttpRefusals.dfy` | the same, on messages as they are written | every kind of message ends where it should; what header lines mean; what is refused |
| `Url.dfy`, `UrlBlocks.dfy`, `UrlParts.dfy`, `UrlSite.dfy`, `UrlRoundTrip.dfy` | `http_parser_parse_url` | exactly the texts of a grammar are accepted, and every part is found in its field |
| `AsyncProtocol.dfy`, `AsyncProgress.dfy`, `AsyncContext.dfy` | asynchronous client | every callback runs exactly once whatever callbacks do; everything is sent and answered |
| `ThreadPool.dfy` | thread pool | safety over all schedules, who is refused, no lost wake-up, orderly end |
| `Dict.dfy`, `DictIterator.dfy` | chained hash table | a finite map across doublings; a walk that may delete |
| `Sds.dfy`, `SdsQuote.dfy` | string headers, quoting and splitting | representation invariant; words come back however they are quoted |
| `LineFlow.dfy`, `FileAgent.dfy` | line handler, file agent | lines of a stream in chunks; a growing file delivered exactly once |

`Bytes.dfy` holds bytes and decimal notation.

## Modelling choices

- Bytes are numbers from 0 to 255.  Machine integers are unbounded, and their width is written out where the
  code depends on it: the guards on Content-Length and chunk sizes, the 63-bit accumulator of the reply
  reader, header fields of strings, the `int` arithmetic of string ranges, 16-bit URL offsets.
- A parser reports text in pieces that depend on where its buffer ends.  The machines here report text byte
  by byte, so that "the same concatenated text" is equality; `NameEnd` and `ValueEnd` mark the calls that are
  made because a name or value is complete.
- The reply reader builds a tree through pointers into unfinished parents.  The model keeps one value in which
  unfilled slots are explicit, and stores an object by its path; `idx == -1` stands for the root.
- In the reply reader, the error `OutOfRange` stands for numbers at which the C code has no defined meaning: a
  length or count outside `int`, or a digit string beyond `long long`.  The model stops there.
- Callbacks of the asynchronous client are arbitrary: a script says which commands, disconnects and frees the
  n-th callback to run makes, and nothing is assumed about it.  A socket that is still connecting leaves an
  error on record, as the code does, so the first later read or write ends the connection.
- In the thread pool, everything between locking the mutex and the next point that another thread can see is
  one step; waiting releases the mutex and falls asleep at once; a signal without a sleeper is lost; threads
  may wake for no reason.
- `FileAgent` takes the world as what open and stat find at the start, and a sequence of what each turn of the loop
  finds: the file at both attempts to read, the inode, and whether the block is taken.

## Where the code differs from what it says

- A multipart boundary that contains CR can lose a delimiter, although nothing in the interface forbids it;
  `RecoveryCondition` says for which boundaries this cannot happen.
- A file that appears after the agent was started without tail mode is delivered twice, because its inode is not on
  record until the first idle check (`LateFileIsSentTwice`).  In tail mode it is delivered once, because the offset
  is -1 until then.  If that check never comes to set it, because the file could not be opened but its inode
  was found, nothing is ever delivered (`NothingIsEverSent`); `AllSentInTheEnd` has the exact condition.
- A URL with a fragment directly behind the authority is refused (`FragmentNeedsPath`).
- A connection option that is a mere beginning of `keep-alive`, `close` or `upgrade` swallows the comma directly behind
  it, and with it the next option (`CommaIsNoticed`); a byte that cannot begin an option ends the list (`ListEnds`), and
  an underscore is such a byte although it is a token character.
- The first byte of a header value is not checked: any byte but a blank or a line end may stand there.
- `Transfer-Encoding` means chunks only if `chunked` is all it says (`ChunkedIsExact`), so "gzip, chunked" does not.
- The reply reader takes an array of fewer than -1 elements for an array with that count and no elements, and does
  not look at the two bytes behind a bulk string.
- In a line of words, vertical tab and form feed are skipped between words but do not end a plain one.
- A file that replaces another and has already outgrown its position is handed on from that position first, and
  then as a whole (`ReplacedFileIsSent`).
- A chunk size may contain bytes from 128 to 255, each read as the digit 0, because the table at line 224 of
  `http_parser.c` spells out only half of its entries; `AcceptedSizes` says when a size is what its text says.
- When a header exceeds the size limit, the byte and the error at which the parser fails depend on how the message
  was cut (`CutsDiffer`), because its inner loops look at the limit only when they are done; that it fails does not.
- The reader applies the sign of an integer after accumulating its digits, so reading -2^63 is undefined (`IntegerIsReadBack`).
- Asking for an existing key to be added may double the hash table before the request is refused; the contract
  of `KeyIndex` allows for it.

## Model

| member | source | states |
|---|---|---|
| BipartiteMatching.CoverBoundsMatching | dependency/ehttp/deps/googletest/googlemock/src/gmock-matchers.cc:207-221 | No matching is larger than a vertex cover; the yardstick for "maximum". |
| BipartiteMatching.FrozenCertifiesMaximum | dependency/ehttp/deps/googletest/googlemock/src/gmock-matchers.cc:212-221 | Once every free left node lies in a part of the graph closed under alternating paths, no matching of the graph is larger than the pairs recorded in the two vectors. |
| BipartiteMatching.CoverIsNoLarger | dependency/ehttp/deps/googletest/googlemock/src/gmock-matchers.cc:212-221 | The matched left nodes outside the closed part together with its right nodes are no more than the matched pairs. |
| BipartiteMatching.AugmentedAddsOnePair | dependency/ehttp/deps/googletest/googlemock/src/gmock-matchers.cc:254-258 | A successful search matches the left node it started from and one right node more; every matched node stays matched. |
| BipartiteMatching.AugmentedKeeps | dependency/ehttp/deps/googletest/googlemock/src/gmock-matchers.cc:176-179 | After a search the two vectors refer to each other again, the parts closed by earlier failures are untouched, and no later left node has become matched, so the check at line 225 never fires. |
| BipartiteMatching.FreezeFailed | dependency/ehttp/deps/googletest/googlemock/src/gmock-matchers.cc:212-221 | What a failed search has explored can be added to the closed part: this is why one visit to each left node is enough. |
| BipartiteMatching.MatchMatrix.SetEdge | dependency/ehttp/deps/googletest/googlemock/include/gmock/gmock-matchers.h:3270-3272 | Sets or clears exactly one edge of the graph that the flattened matrix stands for. |
| BipartiteMatching.MaxBipartiteMatchState.TryAugment | dependency/ehttp/deps/googletest/googlemock/src/gmock-matchers.cc:259-285 | The depth-first search ends, marks only grow, failure changes no match and has explored every node it can reach, success matches the start and rematches others along a path; a search inside a closed part fails, and one outside never touches it. |
| BipartiteMatching.MaxBipartiteMatchState.Compute | dependency/ehttp/deps/googletest/googlemock/src/gmock-matchers.cc:207-238 | Trying each left node once yields a matching of the graph, listed by left node, and no matching of the graph is larger. |
| BipartiteMatching.FindMaxBipartiteMatching | dependency/ehttp/deps/googletest/googlemock/src/gmock-matchers.cc:307-310 | The pairs are distinct, form a matching in the graph, and no matching has more pairs. |
| BipartiteMatching.AssignmentIsMatching | dependency/ehttp/deps/googletest/googlemock/src/gmock-matchers.cc:328-333 | An assignment of distinct elements to all matchers is a matching with one pair per matcher. |
| BipartiteMatching.FullMatchingIsAssignment | dependency/ehttp/deps/googletest/googlemock/src/gmock-matchers.cc:328-333 | A matching with one pair per matcher gives every matcher its own distinct element. |
| BipartiteMatching.FindPairing | dependency/ehttp/deps/googletest/googlemock/src/gmock-matchers.cc:328-343 | True if and only if every matcher can be given its own distinct element. |
| RespProtocol.StackFrames | dependency/hiredis/read.c:190-213 | In every reachable state each entry of the task stack below the top is an array and each child index lies within its parent, which is what both assertions in moveToNextTask ask. |
| RespProtocol.AttachKeeps | dependency/hiredis/read.c:190-213 | Storing an object in its slot and moving on keeps the stack in order and the slots of the partial reply in step with it. |
| RespProtocol.MoveNextPops | dependency/hiredis/read.c:203-206 | Finishing the last child finishes the array that contains it. |
| RespProtocol.MoveNextAdvances | dependency/hiredis/read.c:207-211 | Finishing any other child moves to the next slot of the same array and to no other. |
| RespProtocol.Items | dependency/hiredis/read.c:502-516 | The loop over items ends, leaves the stack sound or empty, and consumes input whenever it completes a reply. |
| RespProtocol.ItemConsumes | dependency/hiredis/read.c:367-414 | Every item that succeeds consumes input, so each request for a reply terminates. |
| RespProtocol.ItemsWithMore | dependency/hiredis/read.c:367-525 | Reading with more input behind gives the same items: a reply or an error that was reached stays, an interrupted reading continues as if it had never stopped. |
| RespProtocol.DrainTwice | dependency/hiredis/read.c:477-525 | Once all replies have been taken, asking again yields none and changes nothing. |
| RespProtocol.SplitIndependence | dependency/hiredis/read.c:445-525 | Feeding a stream in any pieces and taking all replies after each piece gives the same replies, the same error and the same state as feeding it at once. |
| RespProtocol.SameReplies | dependency/hiredis/read.c:445-525 | Two ways of cutting the same stream cannot be told apart. |
| RespReader.SeekNewline | dependency/hiredis/read.c:120-144 | Finds the first CR that is followed by LF, skipping lone CRs. |
| RespReader.ReadLongLong | dependency/hiredis/read.c:148-173 | Computes the signed number that the line spells. |
| RespReader.Reader.MoveToNextTask | dependency/hiredis/read.c:190-213 | The loop over the nine-slot array does to the stack what the specification says, within bounds. |
| RespReader.Reader.ProcessItem | dependency/hiredis/read.c:367-414 | One item on the buffer with its cursor is one step of the machine on values. |
| RespReader.Reader.Feed | dependency/hiredis/read.c:445-475 | Appends to the unread bytes, unless an error is on record. |
| RespReader.Reader.GetReply | dependency/hiredis/read.c:477-525 | Resuming in the middle of a reply and dropping the read part of the buffer at 1024 bytes are invisible: the result is that of the machine on the unread bytes. |
| RespRoundTrip.ChildAttaches | dependency/hiredis/hiredis.c:102-189 | A child is stored in its own slot of its parent and in no other, however deep. |
| RespRoundTrip.IntegerStep | dependency/hiredis/read.c:148-173 | Anywhere in a reply an integer line is read exactly if its magnitude is at most LLONG_MAX, and otherwise leaves the range of the accumulator. |
| RespRoundTrip.ParseObject | dependency/hiredis/read.c:215-365 | Every text that spells a reply, with anything behind it, is rebuilt as exactly that reply in the slot where it belongs, and the cursor stands just behind it. Nil may be a bulk string of negative length or an array of -1 elements, at every depth; numbers may have signs and leading zeros. |
| RespRoundTrip.RoundTrip | dependency/hiredis/read.c:215-365 | Texts that spell trees with at most eight nested arrays, one after the other, are read back as the list of the same trees, with nothing left over. |
| RespRoundTrip.RoundTripInPieces | dependency/hiredis/read.c:445-525 | The same in whatever pieces the bytes arrive. |
| RespRoundTrip.EncodeSpells | dependency/hiredis/read.c:215-365 | The usual encoding of a tree is one of the texts that spell it. |
| RespRoundTrip.NilArrayStep | dependency/hiredis/read.c:320-331 | Anywhere in a reply an array of -1 elements is nil. |
| RespRoundTrip.NilBulkStep | dependency/hiredis/read.c:262-270 | So is a bulk string of negative length. |
| RespRoundTrip.JunkReads | dependency/hiredis/read.c:148-173 | A length or number with a byte that is no digit counts as -1. |
| RespRoundTrip.NoMeaning | dependency/hiredis/read.c:317-339 | A count outside `int`, or a length with no room for its line end, is where the model stops. |
| RespRoundTrip.UnknownType | dependency/hiredis/read.c:374-396 | An item is refused for its first byte exactly if that is none of the five type bytes. |
| RespRoundTrip.TooDeeply | dependency/hiredis/read.c:305-309 | Inside eight nested arrays a ninth is refused, whatever its size. |
| RespRoundTrip.IntegerIsReadBack | dependency/hiredis/read.c:148-173 | So an encoded integer is sure to come back if and only if its magnitude is at most LLONG_MAX; for -2^63 the multiplication by ten and the addition leave `long long`, and the code has no defined result. |
| CommandFormatter.CountDigits | dependency/hiredis/hiredis.c:193-203 | The count made four digits at a time equals the number of digits printed. |
| CommandFormatter.BulkLen | dependency/hiredis/hiredis.c:206-208 | The size announced for an argument is that of its header, its bytes and both line ends. |
| CommandFormatter.ReverseInPlace | dependency/hiredis/sds.c:448-456 | Swapping from both ends reverses the text. |
| CommandFormatter.Ll2Str | dependency/hiredis/sds.c:429-458 | Writes the printed form of a signed number and a NUL behind it. |
| CommandFormatter.Ull2Str | dependency/hiredis/sds.c:461-487 | Writes the printed form of an unsigned number and a NUL behind it. |
| CommandFormatter.TotalLength | dependency/hiredis/hiredis.c:536-541 | The length computed in advance is the length of the encoded command. |
| CommandFormatter.FormatCommandArgv | dependency/hiredis/hiredis.c:530-566 | The allocated buffer is filled exactly, with the command and a NUL, for every list of arguments. |
| CommandFormatter.FormatSdsCommandArgv | dependency/hiredis/hiredis.c:477-519 | The string built by appending is the same command, of exactly the announced length. |
| CommandFormatter.CommandIsReadBack | dependency/hiredis/hiredis.c:530-566 | A formatted command, fed to the reader in any pieces, comes back as an array of exactly the arguments. |
| Multipart.NameIsInert | dependency/ehttp/deps/multipart-parser-c/multipart_parser.c:150-176 | The held-back beginning of a header name influences nothing but the report of that name. |
| Multipart.SplitIndependence | dependency/ehttp/deps/multipart-parser-c/multipart_parser.c:111-306 | On any input, part events, values, data, bytes consumed and final state do not depend on how the input is cut. |
| Multipart.SplitIndependenceWithNames | dependency/ehttp/deps/multipart-parser-c/multipart_parser.c:111-306 | Header names do not depend on the cut either, when each of them ends with its colon. |
| MultipartParser.Parser.Execute | dependency/ehttp/deps/multipart-parser-c/multipart_parser.c:111-306 | The loop with marks, the lookbehind buffer and the re-scan of a mismatching byte makes exactly the callbacks of the byte machine. |
| MultipartRecovery.Search | dependency/ehttp/deps/multipart-parser-c/multipart_parser.c:223-262 | If giving up a partial match never loses a shorter one, the data ends at the first occurrence of the delimiter and all bytes before it are delivered. |
| MultipartRecovery.RecoveryCondition | dependency/ehttp/deps/multipart-parser-c/multipart_parser.c:223-262 | The data of every part is recovered if and only if no proper prefix of the delimiter that ends a longer one could have gone on where the longer one failed. |
| MultipartRecovery.OneCrIsRestartable | dependency/ehttp/deps/multipart-parser-c/multipart_parser.c:223-262 | Every boundary without CR meets the condition. |
| MultipartRecovery.LostData | dependency/ehttp/deps/multipart-parser-c/multipart_parser.c:249-256 | For every boundary that does not meet the condition there is a part whose data comes out wrong. |
| MultipartRecovery.CrInBoundaryCanFail | dependency/ehttp/deps/multipart-parser-c/multipart_parser.c:249-256 | There is such a boundary: one that contains CR. |
| MultipartRecovery.SeparatedData | dependency/ehttp/deps/multipart-parser-c/multipart_parser.c:223-262 | With no CR in the boundary, data is admissible as soon as it does not contain the delimiter. |
| MultipartRecovery.BodyIsRecovered | dependency/ehttp/deps/multipart-parser-c/multipart_parser.c:111-306 | Encoding parts and parsing them in any pieces, with anything behind the last delimiter, gives back the headers and the exact data of each part, in order, and one end; header names are any letters and hyphens. |
| MultipartRecovery.NothingElseIsTaken | dependency/ehttp/deps/multipart-parser-c/multipart_parser.c:125-306 | State by state, exactly which bytes are taken: in a header name, letters of either case, hyphens, a colon and CR. |
| HttpMessage.Run | dependency/ehttp/deps/http-parser/http_parser.c:1198-2045 | The invariant that the assertions at 1361, 1521, 1878, 1927, 1928, 1945, 1980, 1991, 2012, 2013, 2031, 2032 and 2039 ask for holds in every state, for every input: in particular the count of header bytes starts anew with every chunk size. |
| HttpMessage.RunAppend | dependency/ehttp/deps/http-parser/http_parser.c:1198-2045 | Running over two texts is running over the first and going on with the second. |
| HttpMessage.SplitIndependence | dependency/ehttp/deps/http-parser/http_parser.c:682-705 | Of the machine that takes one byte at a time: fed in any pieces, a message gives the same field, value and body bytes, flags, count of header bytes, error and final state as fed whole. The parser follows the machine as long as the header bytes are within the limit; beyond it, see `OverflowFits` in Execute. |
| HttpMessage.WithinLimit | dependency/ehttp/deps/http-parser/http_parser.c:154-162 | The limit is not exceeded by a text that is no longer than what the limit leaves. |
| HttpParser.Parser.General | dependency/ehttp/deps/http-parser/http_parser.c:1259-1266 | The fast loop over a name that matches nothing stops where the byte machine would, with the same state, or is past the limit. |
| HttpParser.Parser.GeneralValue | dependency/ehttp/deps/http-parser/http_parser.c:1498-1517 | The fast loop over a value stops at the line end or at a character that is not allowed, as the byte machine does; the byte it skips at its bound lies beyond the limit, so the call must fail. |
| HttpParser.Parser.Names | dependency/ehttp/deps/http-parser/http_parser.c:1248-1382 | The loop over a name, which counts its bytes only at its end, has passed, reported and counted exactly what the byte machine has, or fails as it does. |
| HttpParser.Parser.Values | dependency/ehttp/deps/http-parser/http_parser.c:1464-1668 | The same for the loop over a value. |
| HttpParser.Parser.Bulk | dependency/ehttp/deps/http-parser/http_parser.c:1873-1907 | A body is taken in one step per buffer, which is as many steps of the byte machine. |
| HttpParser.Parser.Execute | dependency/ehttp/deps/http-parser/http_parser.c:682-2076 | One call with inner loops, marks and the deferred count of header bytes makes the callbacks of the byte machine and ends in the same state. It fails if and only if the machine does, at the same byte, with the same error and with all callbacks but the text that was pending, those made before the refusal of the same byte included. When the machine meets the limit inside an inner loop, the call fails where that loop stops, with the error met there, if any. |
| HttpParser.ExecuteAll | dependency/ehttp/deps/http-parser/http_parser.c:682-2076 | Calls with any non-empty pieces, until the message is complete or has failed, have the outcome of the machine on the whole message: same callbacks, state, count and consumption, or the same error at the same byte with nothing unreported but text of the name, value or chunk in which it was met; beyond the size limit, that they fail, and exactly as the machine does when the bytes come one by one. |
| HttpParser.AgreeBeyondLimit | dependency/ehttp/deps/http-parser/http_parser.c:1367-1372 | Beyond the limit a call does what the machine does if and only if the limit is crossed outside an inner loop, or at the byte at which the loop stops anyway without an error or a callback of its own. |
| HttpParser.CutsDiffer | dependency/ehttp/deps/http-parser/http_parser.c:1663-1666 | It need not: one text, cut in two ways, fails with two errors at two bytes. |
| HttpBody.KnownNext | dependency/ehttp/deps/http-parser/http_parser.c:1295-1351 | Comparing letter by letter keeps track of exactly which header names are still possible, for every name. |
| HttpBody.NameIsRecognised | dependency/ehttp/deps/http-parser/http_parser.c:1248-1382 | At the end of a name the parser knows which of the six special headers it is, if any, whatever the letter case. |
| HttpBody.LengthIsExact | dependency/ehttp/deps/http-parser/http_parser.c:1529-1557 | A Content-Length is the exact value of its digits and below the sentinel, or the message is refused; accepted values are exactly those the guard lets through. |
| HttpBody.ChunkSizeIsExact | dependency/ehttp/deps/http-parser/http_parser.c:1925-1976 | A chunk size is the exact value of its digits as the decoding table has them and below the sentinel, or the message is refused; this holds for every text of bytes that the table accepts. |
| HttpBody.AcceptedSizes | dependency/ehttp/deps/http-parser/http_parser.c:1925-1976 | A text is read as a chunk size, and as which, if and only if the table accepts its bytes and the guard their value; what is accepted is the hexadecimal number that the text spells exactly when no byte is 128 or above. |
| HttpBody.HighByteEndsBody | dependency/ehttp/deps/http-parser/http_parser.c:224-233 | The byte 128 with a line end is read as a chunk of size zero and ends the body: the table leaves its upper half at 0. |
| HttpBody.IdentityConserves | dependency/ehttp/deps/http-parser/http_parser.c:1873-1907 | For every input, what is delivered is the input up to the declared length, and delivered plus outstanding is the declared length. |
| HttpBody.ChunkDataConserves | dependency/ehttp/deps/http-parser/http_parser.c:2007-2028 | For any part of a chunk's data, what is delivered is that part, and delivered plus outstanding is the announced size. |
| HttpBody.ChunksConserve | dependency/ehttp/deps/http-parser/http_parser.c:1925-2045 | Over any number of chunks and for every input, refused or not: the bytes delivered and those still to come of the current chunk are exactly what the chunk headers have announced. |
| HttpBody.CompletesOnce | dependency/ehttp/deps/http-parser/http_parser.c:1889-1904 | For every input the end of the message is reported once if it is reached, as the last event, and otherwise not at all. |
| HttpValues.TokenAlphabet | dependency/ehttp/deps/http-parser/http_parser.c:182-222 | The table of token characters is the alphabet of RFC 7230 section 3.2.6. |
| HttpValues.ChunkedIsExact | dependency/ehttp/deps/http-parser/http_parser.c:1565-1574 | Whatever the value, Transfer-Encoding turns chunks on if and only if it is "chunked" in any case, with nothing but spaces behind it. |
| HttpValues.OptionsRead | dependency/ehttp/deps/http-parser/http_parser.c:1575-1653 | After any list of connection options, with any spaces around the commas, exactly the flags are set that its options stand for, in any case. |
| HttpValues.CommaIsNoticed | dependency/ehttp/deps/http-parser/http_parser.c:1594-1631 | The comma behind an option is noticed if and only if the option is not a mere beginning of one of the three words. |
| HttpValues.ListEnds | dependency/ehttp/deps/http-parser/http_parser.c:1576-1592 | Behind a comma, a byte that is no space and cannot begin an option makes the rest of the value mean nothing. |
| HttpHeaders.KnownNames | dependency/ehttp/deps/http-parser/http_parser.c:1295-1351 | The six special names are recognised by their letters, in either case, and no other name is. |
| HttpHeaders.LinesRead | dependency/ehttp/deps/http-parser/http_parser.c:1198-1755 | Any header lines, with blanks, folded values, empty values and bare LF as line end, are reported name by name and value by value, and leave exactly the flags and the length they ask for. |
| HttpHeaders.FlagsMean | dependency/ehttp/deps/http-parser/http_parser.c:1692-1709 | Each flag is set after any header lines if and only if some line asks for it. |
| HttpHeaders.LengthMeans | dependency/ehttp/deps/http-parser/http_parser.c:1423-1437 | The body length is that of the one Content-Length line, or unknown. |
| HttpWholeMessage.BodilessMessage | dependency/ehttp/deps/http-parser/http_parser.c:1826-1868 | With neither length nor chunks, a request and a response with status 1xx, 204 or 304 are complete at the empty line, with exactly their header events and one completion; nothing behind is touched. |
| HttpWholeMessage.OpenMessage | dependency/ehttp/deps/http-parser/http_parser.c:2087-2108 | Any other response without length and chunks delivers all that follows as its body and is never complete. |
| HttpWholeMessage.ConnectMessage | dependency/ehttp/deps/http-parser/http_parser.c:1834-1842 | After CONNECT the rest is another protocol, whatever the header lines announce. |
| HttpWholeMessage.BothAreRefused | dependency/ehttp/deps/http-parser/http_parser.c:1768-1774 | A message with both a length and chunks is refused at its empty line, after all its header events. |
| HttpWholeMessage.LengthMessage | dependency/ehttp/deps/http-parser/http_parser.c:1873-1907 | A message whose header lines announce a length, among any others and in any order, delivers its headers and exactly its body, then completes; what follows is left alone; an upgrade is noted exactly if both headers ask for it in a request or a 101 response. |
| HttpWholeMessage.PayloadDelivered | dependency/ehttp/deps/http-parser/http_parser.c:1925-2045 | The body bytes among the events of a chunked message are the concatenated chunk payloads. |
| HttpWholeMessage.ChunkedMessage | dependency/ehttp/deps/http-parser/http_parser.c:1925-2045 | A chunked message behind any header lines is parsed to its end, with every size text the parser accepts, extensions and any trailer lines; the limit applies to the head, to each size line and to the trailer by itself. |
| HttpWholeMessage.BodilessMessageInPieces | dependency/ehttp/deps/http-parser/http_parser.c:682-2076 | The message without a body, in whatever pieces it arrives. |
| HttpWholeMessage.OpenMessageInPieces | dependency/ehttp/deps/http-parser/http_parser.c:682-2076 | The response that goes on until the connection ends, likewise. |
| HttpWholeMessage.ConnectMessageInPieces | dependency/ehttp/deps/http-parser/http_parser.c:682-2076 | The CONNECT request, likewise. |
| HttpWholeMessage.LengthMessageInPieces | dependency/ehttp/deps/http-parser/http_parser.c:682-2076 | The message with a length, likewise. |
| HttpWholeMessage.ChunkedMessageInPieces | dependency/ehttp/deps/http-parser/http_parser.c:682-2076 | The chunked message with its trailer, likewise. |
| HttpRefusals.RefusedExactly | dependency/ehttp/deps/http-parser/http_parser.c:1198-2045 | In every state every byte is taken or refused, and with which error, by its value, the length so far, the flags and the count of header bytes. |
| HttpRefusals.LimitIsKept | dependency/ehttp/deps/http-parser/http_parser.c:154-161 | Never more header bytes are counted than the limit allows, and the limit refuses a byte only when it is used up. |
| Url.ParsedInOrder | dependency/ehttp/deps/http-parser/http_parser.c:2345-2466 | For every accepted URL the fields are non-empty, inside the text, apart and in order; host is there whenever schema, user or port is; the port is the value of its digits and at most 65535; for CONNECT there are host and port and nothing else. |
| Url.ParsedIsAccounted | dependency/ehttp/deps/http-parser/http_parser.c:2345-2466 | Every byte of an accepted URL lies in a field whose kind of byte it is, or is a delimiter. |
| Url.ScanUrl | dependency/ehttp/deps/http-parser/http_parser.c:2362-2423 | The loop that extends the field met last computes the segments of the labels; its "unexpected state" cannot occur. |
| Url.ParseHost | dependency/ehttp/deps/http-parser/http_parser.c:2258-2338 | Rewriting offset and length of the host in place, with the fields for user and port, yields the segments found by the second machine, or an error exactly when that machine does not accept. |
| Url.ReadPort | dependency/ehttp/deps/http-parser/http_parser.c:2441-2463 | The early exit at 65535 refuses exactly the ports whose value is too large. |
| Url.ParseUrl | dependency/ehttp/deps/http-parser/http_parser.c:2345-2466 | Accepts exactly the texts of the specification and returns its fields and port. |
| UrlParts.PartsAreRead | dependency/ehttp/deps/http-parser/http_parser.c:490-636 | The first machine reads every text composed of fitting parts, in every state, and gives each byte to the field of its part. |
| UrlParts.TextHasParts | dependency/ehttp/deps/http-parser/http_parser.c:490-636 | Every text that it does not refuse consists of such parts. |
| UrlSite.SiteIsRead | dependency/ehttp/deps/http-parser/http_parser.c:2176-2256 | The same for the second machine and user, host and port: a name, or an address in brackets with or without a zone. |
| UrlSite.TextHasSite | dependency/ehttp/deps/http-parser/http_parser.c:2176-2256 | Every text that the second machine does not refuse consists of such pieces. |
| UrlRoundTrip.ComposedIsParsed | dependency/ehttp/deps/http-parser/http_parser.c:2345-2466 | Whatever is composed of the parts of a URL, absolute, with a path alone, or host and port for CONNECT, is accepted, and every part, present or absent, is found again; the port comes back as a number. |
| UrlRoundTrip.ParsedIsComposed | dependency/ehttp/deps/http-parser/http_parser.c:2345-2466 | Whatever is accepted is composed in this way of the parts that are found in its fields. |
| UrlRoundTrip.AcceptedExactly | dependency/ehttp/deps/http-parser/http_parser.c:2345-2466 | So a text is accepted if and only if it is in the grammar, whose bytes are listed by kind. |
| UrlRoundTrip.FragmentNeedsPath | dependency/ehttp/deps/http-parser/http_parser.c:544-568 | A fragment directly behind the authority is refused, whatever it is. |
| AsyncProtocol.NestedEffect | dependency/hiredis/async.c:584-591 | Whatever a callback calls, the context gains exactly the commands issued before the first request to disconnect or free. |
| AsyncProtocol.Drain | dependency/hiredis/async.c:282-283 | The loop that runs all pending callbacks with NULL ends with an empty queue, because new commands are refused meanwhile. |
| AsyncProtocol.RunKeeps | dependency/hiredis/async.c:265-272 | Taking a command off the queue and running its callback keeps the history: order of acceptance, one run each, replies first and NULL afterwards. |
| AsyncProtocol.ReleaseEnds | dependency/hiredis/async.c:275-317 | Freeing leaves nothing pending and calls the disconnect callback once if a connection was made, with the status that the comment at line 303 promises. |
| AsyncProtocol.DisconnectEnds | dependency/hiredis/async.c:331-350 | Disconnecting frees the context; its precondition, that without an error the queue is empty, is the assertion at line 340. |
| AsyncProtocol.ProcessKeeps | dependency/hiredis/async.c:412-490 | Handing out any replies to arbitrary callbacks keeps the invariant; the assertion about a spontaneous reply can only fail if there are more replies than commands. |
| AsyncProtocol.StepKeeps | dependency/hiredis/async.c:495-563 | Every event keeps the invariant, with callbacks that may issue commands, disconnect or free. |
| AsyncProtocol.PlayKeeps | dependency/hiredis/async.c:227-563 | So does every run, and a run in which the context is to be freed ends with it freed. |
| AsyncProtocol.EveryCallbackRunsOnce | dependency/hiredis/async.c:227-563 | Over any run that ends with the context freed, the callbacks of all accepted commands have run exactly once, in the order of acceptance, the first ones with their replies and the rest with NULL; bytes sent and buffered are the texts of the accepted commands. |
| AsyncProgress.RunContinues | dependency/hiredis/async.c:517-563 | Over every run without errors and with callbacks that only issue commands: the context is connected from the first event on its socket on, every reply read has been given to a command, in order, and the socket was given as much as it took of what was buffered. |
| AsyncProgress.AskedOnce | dependency/hiredis/async.c:517-528 | Once the connection was made, what its attempt would report makes no difference any more. |
| AsyncProgress.EverythingIsSent | dependency/hiredis/async.c:538-563 | Once nothing new is asked for and the socket has taken enough, the bytes sent are the texts of all accepted commands. |
| AsyncProgress.EveryCommandIsAnswered | dependency/hiredis/async.c:412-490 | From the beginning, over every such run: the i-th accepted command is handled with the i-th reply, and with as many replies as commands none is waiting. |
| AsyncProgress.LastReplyEnds | dependency/hiredis/async.c:418-437 | A context that is to disconnect is freed by replies if and only if they are the last ones that are awaited and nothing is left to be sent. |
| AsyncProgress.OrderlyEnd | dependency/hiredis/async.c:358-363 | After a request to disconnect, what is buffered is still sent, every command gets its own reply, and the disconnect callback is told that this was intended. |
| AsyncProgress.ErrorsEnd | dependency/hiredis/async.c:495-515 | An error on a connected socket and a failed connection free the context at once, every waiting command is told with NULL, and the disconnect callback learns of the error if there was a connection. |
| AsyncProgress.BrokenEnds | dependency/hiredis/async.c:487-489 | Replies that break off are handed out as far as they go; the rest is answered with NULL. |
| AsyncProgress.SpontaneousReply | dependency/hiredis/async.c:438-464 | A reply that no command waits for ends the connection if it is an error, and breaks the assertion if it is not. |
| AsyncProgress.UserEnds | dependency/hiredis/async.c:323-363 | A free takes effect at once, a disconnect at once only if no command is waiting. |
| AsyncContext.CallbackList.Push | dependency/hiredis/async.c:227-247 | Appends one callback to the linked list through its tail pointer. |
| AsyncContext.CallbackList.Shift | dependency/hiredis/async.c:249-263 | Takes the first callback, and clears the tail pointer with the last one. |
| AsyncContext.RedisAsyncContext.AsyncCommand | dependency/hiredis/async.c:584-649 | Queues the callback and buffers the text, or refuses and changes nothing. |
| AsyncContext.RedisAsyncContext.Run | dependency/hiredis/async.c:265-272 | A callback that calls back into the context has the effect of the protocol step; the flag is set while it runs. |
| AsyncContext.RedisAsyncContext.FreeNow | dependency/hiredis/async.c:275-317 | The drain loop over the list is the drain of the protocol. |
| AsyncContext.RedisAsyncContext.AsyncFree | dependency/hiredis/async.c:323-328 | Inside a callback only a flag is set; outside, the context is released at once. |
| AsyncContext.RedisAsyncContext.DisconnectContext | dependency/hiredis/async.c:331-350 | The assertion that a clean disconnect finds no pending callback holds. |
| AsyncContext.RedisAsyncContext.AsyncDisconnect | dependency/hiredis/async.c:358-363 | Deferred inside a callback or while replies are pending, immediate otherwise. |
| AsyncContext.RedisAsyncContext.ProcessCallbacks | dependency/hiredis/async.c:412-490 | The loop over replies does what the protocol says, including a context freed by a callback in the middle of it. |
| AsyncContext.RedisAsyncContext.HandleRead | dependency/hiredis/async.c:517-536 | A readable socket is the protocol event. |
| AsyncContext.RedisAsyncContext.HandleWrite | dependency/hiredis/async.c:538-563 | A writable socket is the protocol event. |
| ThreadPool.TasksKept | dependency/ehttp/src/threadpool.cpp:121-182 | Each step of any thread keeps: tasks leave the queue in the order added, each once, and what was started is running or finished. |
| ThreadPool.WakeupsKept | dependency/ehttp/src/threadpool.cpp:121-182 | Each step keeps: while a thread sleeps, the awake idle threads are at least as many as the queued tasks, one task pushed and not yet signalled excepted. |
| ThreadPool.StepKeeps | dependency/ehttp/src/threadpool.cpp:98-182 | Every step of every thread keeps the whole invariant, with lost signals and spurious wake-ups. |
| ThreadPool.StopIsFinal | dependency/ehttp/src/threadpool.cpp:98-165 | After STOPPED no further task is started. |
| ThreadPool.InvariantHolds | dependency/ehttp/src/threadpool.cpp:98-182 | The invariant holds along every schedule. |
| ThreadPool.PoolIsSafe | dependency/ehttp/src/threadpool.cpp:98-182 | On every schedule: accepted tasks are exactly the queued, running and finished ones, started first in first out; a positive limit bounds the queue by limit plus one; after the broadcast nobody sleeps; and no queued task waits for a wake-up that will not come. |
| ThreadPool.RefusedOnlyWhenFull | dependency/ehttp/src/threadpool.cpp:167-182 | On every schedule: a task is refused if and only if there is a positive limit and more tasks than that were queued when it was offered; without a positive limit the tasks offered are, in order, the accepted ones and those still being added. |
| ThreadPool.EverythingCanBeRun | dependency/ehttp/src/threadpool.cpp:121-165 | From every state of a pool with threads in which the mutex is free, the workers by themselves can start every accepted task in order and finish all of them. |
| ThreadPool.TasksCanBeRun | dependency/ehttp/src/threadpool.cpp:57-182 | For any tasks and any number of threads there is a whole life of a pool without a limit in which exactly these tasks are accepted, started in order and finished. |
| ThreadPool.PoolCanBeStopped | dependency/ehttp/src/threadpool.cpp:98-119 | Whenever the mutex is free the pool can be stopped and its threads told. |
| ThreadPool.WorkIsTaken | dependency/ehttp/src/threadpool.cpp:127-135 | With the mutex free and tasks queued, some thread is running or can take the mutex without being woken. |
| ThreadPool.ShutdownShrinks | dependency/ehttp/src/threadpool.cpp:98-119 | After the broadcast every step of a worker brings the end nearer and no other step delays it. |
| ThreadPool.ShutdownProceeds | dependency/ehttp/src/threadpool.cpp:98-119 | Nor is there a deadlock before all threads have exited. |
| ThreadPool.NothingIsLost | dependency/ehttp/src/threadpool.cpp:118 | When all threads have exited, accepted tasks are the finished ones and those still in the queue, whose number is returned. |
| Dict.MaskIsRemainder | dependency/hiredis/dict.c:95-97 | For a power of two, masking a hash is taking its remainder. |
| Dict.NextPower | dependency/hiredis/dict.c:306-315 | The smallest power of two, at least 4, that is not below the wanted size. |
| Dict.HashTable.Expand | dependency/hiredis/dict.c:88-132 | Moving every entry in place into a larger array leaves the map unchanged, and every entry in slot hash and mask; the assertion that nothing is left holds, and the early exit of the loop is harmless. |
| Dict.HashTable.ExpandIfNeeded | dependency/hiredis/dict.c:295-303 | Size 0 becomes 4, a full table doubles, and there is room for one more entry afterwards. |
| Dict.HashTable.KeyIndex | dependency/hiredis/dict.c:320-337 | -1 exactly if the key is in the map, else its slot; the map is unchanged although the table may have grown. |
| Dict.HashTable.Add | dependency/hiredis/dict.c:135-154 | Adds exactly this pair, or fails and leaves the map alone because the key is there. |
| Dict.HashTable.Replace | dependency/hiredis/dict.c:160-179 | The map with this pair; says whether the key is new. |
| Dict.HashTable.Delete | dependency/hiredis/dict.c:182-210 | The map without the key; unlinking touches one chain and nothing else. |
| Dict.HashTable.Find | dependency/hiredis/dict.c:243-256 | An entry with the value of the map exactly if the key is in it. |
| DictIterator.Iterator.Next | dependency/hiredis/dict.c:268-286 | Returns the next of the entries still to come, and NULL exactly when there is none. |
| DictIterator.Iterator.DeleteSeen | dependency/hiredis/dict.c:268-286 | Deleting a key that is not to come leaves the iterator intact: neither the entry returned last nor its links are needed again. |
| DictIterator.FlatIsContents | dependency/hiredis/dict.c:258-286 | The entries in order of iteration are those of the map. |
| DictIterator.VisitAll | dependency/hiredis/dict.c:258-290 | A walk that deletes any of the entries it is given visits every key exactly once and leaves exactly the others. |
| Sds.ReqType | dependency/hiredis/sds.c:57-67 | The header type chosen for a size can hold that size and, unless it is the first or the last, one more; no narrower one can. |
| Sds.Str.NewLen | dependency/hiredis/sds.c:81-135 | A new string holds the given bytes, with no room to spare and a terminating NUL, under the header type for its size, or the second for an empty one. |
| Sds.Str.SetLen | dependency/hiredis/sds.h:129-151 | Stores a length without loss whenever the type can hold it. |
| Sds.Str.MakeRoomFor | dependency/hiredis/sds.c:194-237 | Afterwards there is room for the bytes, and the content is the same: nothing moves while there is room, otherwise the length is doubled, or a megabyte added from a megabyte on, under the header type for that size. |
| Sds.Str.CatLen | dependency/hiredis/sds.c:376-385 | The content is the old one followed by the bytes; length stays within allocation and allocation within the header type. |
| Sds.Str.IncLen | dependency/hiredis/sds.h:153-176 | Adds to the length without wrapping while there is room. |
| Sds.Str.Range | dependency/hiredis/sds.c:712-738 | The content is the documented range of the old one, for all positions an int can hold. |
| Sds.RangeIsExact | dependency/hiredis/sds.c:696-738 | A position is in that range exactly if it is neither before the start nor behind the end, negative ones counted from the back. |
| Sds.OutputBuffer.AppendCommand | dependency/hiredis/hiredis.c:907-918 | Keeps: bytes sent followed by bytes buffered are all commands appended. |
| Sds.OutputBuffer.BufferWrite | dependency/hiredis/hiredis.c:831-858 | Keeps the same for every result of write, and says "done" exactly when everything was sent. |
| SdsQuote.CatRepr | dependency/hiredis/sds.c:856-879 | Appends the quoted form. |
| SdsQuote.ReprShows | dependency/hiredis/sds.c:850-852 | The quoted form of any bytes consists of printable characters. |
| SdsQuote.ReprLength | dependency/hiredis/sds.c:856-879 | Each byte takes one, two or four characters: only what cannot be shown is escaped, and the five control characters with letters of their own take two. |
| SdsQuote.SplitArgs | dependency/hiredis/sds.c:931-1039 | The nested loops return the words of the line, or nothing if a quote is misplaced or missing. |
| SdsQuote.ReadWord | dependency/hiredis/sds.c:942-1019 | One word, in plain text, double or single quotes, as the three flags are set and cleared. |
| SdsQuote.QuotedLineIsSplit | dependency/hiredis/sds.c:923-924 | Quoted strings with any blanks before, between and after them are split into exactly those strings, whatever bytes they hold. |
| SdsQuote.JoinedIsSplit | dependency/hiredis/sds.c:923-924 | In particular when joined by single spaces. |
| SdsQuote.TypedLineIsSplit | dependency/hiredis/sds.c:931-1030 | A line of words, each plain, in double quotes with its escapes, in single quotes, or a plain beginning with a part in quotes, with any blanks around them, is split into exactly what the words mean. |
| SdsQuote.BadWordIsRefused | dependency/hiredis/sds.c:1032-1038 | After any such words, a word that cannot be read makes the whole line fail. |
| SdsQuote.MisplacedQuotes | dependency/hiredis/sds.c:976-1004 | Such a word is one whose closing quote is missing or has something else than a blank behind it. |
| SdsQuote.ReprIsInjective | dependency/hiredis/sds.c:856-879 | Different strings have different quoted forms. |
| LineFlow.PiecesAreExact | src/server/flow_handler.cpp:14-26 | The pieces between newlines, joined by newlines, are the text, and contain none. |
| LineFlow.PiecesAreUnique | src/server/flow_handler.cpp:14-26 | No other pieces do that. |
| LineFlow.SplitStr | src/server/flow_handler.cpp:14-26 | The getline loop returns the non-empty pieces. |
| LineFlow.LinesOfBoth | src/server/flow_handler.cpp:33-51 | The lines of a longer text are those there were, followed by those of the remembered tail with what follows. |
| LineFlow.LineFlowHandler.DoHandle | src/server/flow_handler.cpp:33-51 | Keeps: lines handled so far are the non-empty ended lines of the stream, and part_line is what follows the last newline. |
| LineFlow.HandleAll | src/server/flow_handler.cpp:33-51 | For any non-empty chunks the lines handled are exactly the non-empty lines of the whole stream. |
| FileAgent.FileReader.Read | src/agent/file_reader.cpp:32-53 | 0 exactly if the file has bytes at the offset: what comes back is the content from the old offset to the new one, never more than a block, and less only if the file ends there. Otherwise nothing moves. |
| FileAgent.FileReader.CheckAndReset | src/agent/file_reader.cpp:55-68 | Starts over exactly when the inode differs from the one on record. |
| FileAgent.StartWatch | src/agent/file_agent.cpp:33-67 | From what the reader finds at the start, in either mode, the loop with its retries makes the turns of the specification. |
| FileAgent.TurnLooksTwice | src/agent/file_agent.cpp:40-50 | With nothing to be retried, a turn hands on up to 4096 bytes from the position on, as the first look shows the file or, if that shows nothing there, as the second does; if neither does, another inode makes it start over. |
| FileAgent.DeliveredExactlyOnce | src/agent/file_agent.cpp:40-66 | On a file that only grows, whatever the reader found at the start, the accepted blocks with the one to be retried are the content from the start to where reading stands, once, in order and without gap, if and only if the check for a new file never sets a positive offset back. |
| FileAgent.NotRewound | src/agent/file_reader.cpp:55-68 | So it is when the inode on record is the only one seen, and when the file could not be opened at the start in tail mode. |
| FileAgent.ExactInEveryRun | src/agent/file_reader.cpp:13-30 | What can be known at the start, for both modes and every outcome of open and stat: as long as one inode is seen, delivery has been exact at every moment of every run on a growing file, if and only if that inode is on record or the end of a file was asked for that could not be opened. |
| FileAgent.AllSentInTheEnd | src/agent/file_reader.cpp:13-30 | Under the same premise, every run hands on all of the file from the start on, and nothing twice, once the file has come to rest and was polled often enough, if and only if the inode on record differs from the one seen exactly when the end of a file was asked for that could not be opened. |
| FileAgent.NothingIsEverSent | src/agent/file_reader.cpp:16-20 | The first way to fail: open fails in tail mode and stat succeeds. The offset stays -1 and nothing is delivered as long as that inode is seen, whatever happens to the file. |
| FileAgent.SentAgain | src/agent/file_reader.cpp:55-68 | The second: the offset is known but another inode is on record. What follows the start is sent, and then the whole file. |
| FileAgent.ReplacedFileIsSent | src/agent/file_reader.cpp:55-68 | A file that has replaced another is handed on from its beginning, and nothing else is, if and only if it is no longer than the old position when it is first looked at; otherwise what lies behind that position comes first. |
| FileAgent.LateFileIsSentTwice | src/agent/file_reader.cpp:13-30 | So a file created after the start is sent twice, whatever it is and however many blocks it takes, when the agent was not started in tail mode. |
| FileAgent.LateFileIsSentOnce | src/agent/file_reader.cpp:13-30 | In tail mode, the default, it is sent once, completely, over any run. |
| FileAgent.LinesOfTheFile | src/agent/file_agent.cpp:40-66 | Whenever delivery is exact in this sense, what the line handler makes of the accepted blocks are the lines of that stretch of the file. |

## Left out

- RespReader.SeekNewline: buffers of 2^31 bytes and more, for which the C code narrows lengths to `int`.
- RespProtocol.SplitIndependence: out-of-memory errors, the `maxbuf` shrinking of an idle buffer, and what lies behind `OutOfRange`.
- RespRoundTrip.ParseObject: the integer -2^63, which the reader does not read back, as IntegerStep states.
- RespRoundTrip.RoundTrip: likewise -2^63.
- RespRoundTrip.RoundTripInPieces: likewise -2^63.
- CommandFormatter.Ll2Str: the value LLONG_MIN, whose magnitude is computed with undefined overflow.
- CommandFormatter.FormatCommandArgv: commands longer than INT_MAX, and the `argvlen == NULL` form that measures C strings.
- MultipartRecovery.BodyIsRecovered: preamble and padding, empty boundaries, and callbacks that return non-zero.
- Multipart.SplitIndependenceWithNames: header lines without a colon, whose reported text depends on the cut.
- HttpMessage.SplitIndependence: the start line, of which only the number of bytes is kept, pausing and failing callbacks, SKIPBODY, lenient and non-strict modes, the end-of-file call with length 0, and a further message on the same connection.
- HttpParser.Parser.Execute: where exactly a call stops that crosses the limit inside a value in a buffer larger than the limit, whose fast loop skips bytes; and buffers of 4 GiB and more, in which the 32-bit count of header bytes could wrap.
- HttpParser.ExecuteAll: the byte and the error beyond the limit for longer pieces, which depend on the cut; Execute states them for each call.
- HttpHeaders.LinesRead: connection options that end with a comma, and a list of options that goes on in a further line; lines that are refused are the subject of RefusedExactly.
- HttpWholeMessage.ChunkedMessage: several messages on one connection, of which each is a run of its own.
- Url.ParseUrl: texts of more than 65535 bytes, for which 16-bit offsets wrap, and the non-strict character classes.
- AsyncProtocol.EveryCallbackRunsOnce: publish/subscribe, MONITOR, and calls back into the API from the connect and disconnect callbacks.
- AsyncProgress.RunContinues: callbacks that disconnect or free in the middle of a run, for which the results on all runs hold.
- AsyncProtocol.StepKeeps: which replies the reader yields is a parameter of the event; the reader itself is the subject of RespProtocol.
- ThreadPool.PoolIsSafe: fairness of the scheduler, changing the limit while running, starting the pool again after it was stopped, and the start and exit callbacks.
- Dict.HashTable.Add: tables of more than 2^30 slots, whose slot numbers do not fit the `int` they are passed in; duplication and destruction of keys and values; comparison functions that are not equality.
- DictIterator.Iterator.Next: tables of more than INT_MAX slots, whose size the iterator narrows to `int`.
- Sds.Str.Range: strings longer than INT_MAX. The length of the range of all `int` positions overflows, which C leaves undefined; it wraps here, and the result is right all the same.
- Sds.Str.MakeRoomFor: sizes within one megabyte of SIZE_MAX, and allocation failure.
- SdsQuote.SplitArgs: the C locale's character classes are fixed; allocation failure.
- FileAgent.StartWatch: the run-time limit, whose counter the code leaves uninitialised, and a file that is truncated or replaced while it is read.
- FileAgent.FileReader.Read: a read error in the middle of a block.
- `sdssplitlen`, `sdsjoinsds`, `sdstrim` and the printf-like formatters add cases but no difficulty.
- Sockets, epoll, logging, curl, regular expressions and the HTTP server around the parsers are input and output.
- The response path of `sim_parser.cpp` depends on stringstream end-of-file behaviour.
