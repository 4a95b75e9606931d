# Proofs about the proxy's core

This project models the parts of the repository whose correctness is least obvious and proves
what they are for.  Each source file that changes things in place is modelled the same way, by
methods with loops over arrays and fields, proved against a specification written apart from
the code; the specification's own properties are lemmas.

- **Aho-Corasick engine** (`AcTheory`, `AcSpec`, `AcQueue`, `Acsm`, `AcEmpty`).  Every state stands
  for a word, its label.  The trie holds exactly the prefixes of the patterns; the two
  breadth-first passes compute failure links and match lists and then rewrite the table in place
  into a total automaton; a search reports every occurrence of every pattern once, in order.
  The engine accepts empty patterns but reports them only in part; `AcEmpty` says exactly when
  searches are complete, and when they are behind the start of the text.
- **Slab allocator** (`LinkedLists`, `SlabAccounts`, `Mempool`).  Free list and slab list are
  intrusive doubly linked lists over addresses; the accounts hold over every run.
- **Path collapsing** (`PathSpec`, `PathCollapse`).  Two indices over one buffer refine a stack of
  segments.  The header comment of the function does not say so, but a final ".." that leaves
  only the root is rejected while the same path with a further slash is not; the model follows
  the code.
- **Percent-decoding** (`PercentSpec`, `PercentDecode`).  Decoding from the end to the beginning is
  reading tokens from the beginning, and inverts every way of writing a string.
- **Base64** (`Base64`, `Base64Decode`).  The printer, and the parser with an exact account of what
  it accepts, also when it decodes over its own source (as at `http/http_header.c:475-476`).
- **Chunked bodies and header ends** (`ChunkSpec`, `ChunkedBody`, `HeaderEnd`).  Both recognisers
  are resumable; their results do not depend on how the stream is cut.  For arbitrary bytes that
  fit the cache and an `int`, `ChunkSpec.CutsUnseenExactlyWhen` says when a cut can be seen:
  exactly behind a byte that makes the receiver drop the rest of its buffer.
- **Ring buffer and connection table** (`RingBuffer`, `ConnectionTable`).
- **Proxy worker** (`Packets`, `Calls`, `Worker`, `WorkerLoop`).  Every event step over any number of
  connections, with the results of system calls left open.  Each connection has a log of the
  calls made for it; what the log shows of its two sockets is what its queues and flags say.  A connection that is freed while a
  flag is set leaves its share in `nblocked` for ever (`freed`), so the count is an upper bound;
  a packet cut short twice is forgotten, and the contracts say exactly when.  `cuts` counts these
  events for each connection, and `AfterAnyRun` says what they cost.

`Bytes` holds the shared byte strings.  `dafny verify dfyconfig.toml` checks everything.

## Preconditions taken from the callers

Texts of at most 65536 bytes; start state 0 when a pattern is case-sensitive; percent-decoding
with ONLY_ONE_DECODE; base64 sources in ASCII, NUL-terminated; size lines shorter than the
cache and sizes with room for two more in an `int`; `s_http_parse` entered with a state below 4;
rings of at least two slots; descriptors of sockets are positive, as the source takes 0 for none,
and a new one is not in use; a connection is added to a table only while it is not in it.

## Model

| member | source | states |
|---|---|---|
| AcTheory.SuffixOfPaths | http/acsmx.c:309-386 | the suffix relation on state labels is the suffix relation on the words on their trie paths |
| AcTheory.LongestIsMaximal | http/acsmx.c:309-386 | the longest suffix of a word in the language is a suffix, and every suffix in the language is a suffix of it |
| AcTheory.LongestExtend | http/acsmx.c:392-435 | the next state depends only on the longest known suffix of what was read: the state may forget the rest |
| AcTheory.SuffixOfFailure | http/acsmx.c:341-380 | a label is a suffix of a state's label exactly if it is that label or a suffix of the failure label, never both |
| AcTheory.FailureStep | http/acsmx.c:346-357 | one move of the failure-link walk keeps the walk's target |
| AcTheory.FailureOfChild | http/acsmx.c:346-360 | the failure label of a child is the walk's target from the parent's failure label |
| AcTheory.PassIsOrderly | http/acsmx.c:309-386 | every moment of a breadth-first pass: worklist distinct, not yet expanded, sorted by depth; reached = expanded + current + listed; all nearer states expanded |
| AcTheory.NearerFirst | http/acsmx.c:413-431 | the row being completed is not yet final, every row nearer to state 0 is |
| AcTheory.PassTake | http/acsmx.c:333-343 | taking a state off the worklist expands one more state of the language: the measure that ends both loops |
| AcTheory.PassIsComplete | http/acsmx.c:413-431 | when the worklist is empty every state has been enqueued and expanded |
| AcSpec.LanguageIsPrefixes | http/acsmx.c:273-303 | the trie's language is exactly the distinct prefixes of the patterns |
| AcSpec.MatchListExact | http/acsmx.c:341-380 | a state's match list is, as a multiset, the patterns that are suffixes of its label |
| AcSpec.MatchesFit | http/acsmx.c:242-267 | a match list holds only patterns no longer than the state's label |
| AcSpec.FoldsAlike | http/acsmx.c:209-223 | the case table is upper-casing: two bytes fold alike if and only if they are the same byte or the same ASCII letter in two cases, and no lower-case letter is left |
| AcSpec.OccursFolded | http/acsmx.c:636-644 | the byte-by-byte meaning of an occurrence (the same letters for nocase, the same bytes otherwise) is what comparing folded words finds |
| AcSpec.OccursWhenConfirmed | http/acsmx.c:636-661 | a pattern occurs at an end position exactly if its folded form ends the folded text read and the byte comparison passes |
| AcSpec.ReportedAt | http/acsmx.c:620-664 | the calls for one end position are the occurrences that end there, each once |
| AcSpec.HitsInOrder | http/acsmx.c:620-664 | calls come in increasing order of end position |
| AcSpec.SearchFindsOccurrences | http/acsmx.c:590-667 | from state 0 the calls are every occurrence of every pattern once and nothing else, for all lists of non-empty patterns and all texts |
| AcSpec.LabelAfterAppend | http/acsmx.c:613-666 | the state after one text and then another is the state after both joined |
| Acsm.StreamingSearch | http/acsmx.c:590-667 | for all-nocase patterns: a search of one text and then of another through the returned state makes the calls of one search of both, shifted, with the numbers added and the same final state |
| AcSpec.StreamingHits | http/acsmx.c:613-666 | for all-nocase patterns, scanning in two pieces makes the calls of one scan, indices shifted, from any start state |
| AcSpec.NoneAtTheStart | http/acsmx.c:620-664 | something occurs at the start of a text, where no call is made, if and only if some pattern is empty |
| AcEmpty.CompleteExactlyWhen | http/acsmx.c:321-330 | searches report every occurrence once and nothing else, for every text, if and only if no pattern is empty |
| AcEmpty.LaterCompleteExactlyWhen | http/acsmx.c:321-330 | the same for the occurrences at end positions 1 to the length of the text: if and only if the patterns are all non-empty or all empty |
| AcQueue.Queue.Add | http/acsmx.c:134-156 | the worklist grows at its end |
| AcQueue.Queue.Remove | http/acsmx.c:161-184 | the worklist gives its head, 0 when empty |
| Acsm.ConvertCaseEx | http/acsmx.c:227-236 | every byte of the text is folded into the buffer |
| Acsm.StateTable.constructor | http/acsmx.c:527-545 | a fresh table is the trie of no pattern: one state, no transition |
| Acsm.StateTable.AddMatchListEntry | http/acsmx.c:258-267 | an entry goes in front of one list; the others stay |
| Acsm.StateTable.FollowPattern | http/acsmx.c:281-290 | the first loop ends at the longest prefix of the pattern that has a state |
| Acsm.StateTable.AddRest | http/acsmx.c:292-300 | the second loop adds exactly the missing prefixes, and stays within the table |
| Acsm.StateTable.AddPatternStates | http/acsmx.c:273-303 | the table stays a trie, gains exactly the pattern's prefixes, and lists the pattern at its end state |
| Acsm.StateTable.Walk | http/acsmx.c:346-358 | the failure-link walk ends, at the longest known suffix for the byte |
| Acsm.StateTable.CopyMatchList | http/acsmx.c:360-379 | copies of one list are pushed in front of another; the rest stays |
| Acsm.StateTable.LinkChild | http/acsmx.c:341-380 | one child gets its failure link and final match list, the states done before keep theirs |
| Acsm.StateTable.SeedNfa | http/acsmx.c:321-330 | the children of state 0 are listed with failure state 0 |
| Acsm.StateTable.BuildNfa | http/acsmx.c:309-386 | every failure link leads to the longest proper suffix that has a state; every match list is final |
| Acsm.StateTable.FillCell | http/acsmx.c:418-430 | a missing transition becomes that of the failure state, whose row is already final; nothing else changes meaning |
| Acsm.StateTable.ConvertNfaToDfa | http/acsmx.c:392-435 | the table rewritten in place is total: every cell is the state of the longest suffix that has one |
| Acsm.StateTable.CompleteRoot | http/acsmx.c:552-559 | missing transitions of state 0 return to it, the others stay missing |
| Acsm.StateTable.EveryPrefixHasState | http/acsmx.c:546-550 | every prefix of a pattern has a state in the finished table |
| Acsm.StateTable.CellFollowsFailure | http/acsmx.c:418-430 | a finished cell is the trie child, or else the cell of the state that `fail` leads to: the walk of the NFA |
| Acsm.StateTable.ReportEntry | http/acsmx.c:639-660 | an entry is reported exactly if its comparison passes, and stops the search exactly if the callback says so |
| Acsm.StateTable.Report | http/acsmx.c:636-661 | a match list is reported in order up to the call that stops the search |
| Acsm.AnswersFromZero | http/acsmx.c:590-667 | what a search from state 0 answers for non-empty patterns: every occurrence once, in order, and their number |
| Acsm.StateTable.Scan | http/acsmx.c:618-666 | the loop keeps state, calls and the running count in step with the specification |
| Acsm.StateTable.Search | http/acsmx.c:590-667 | from any state: the calls of the specification cut where the callback stops, their number, and the state of the text read so far |
| Acsm.StateMachine.AddPattern | http/acsmx.c:456-476 | the pattern and its folded copy go in front of the list |
| Acsm.StateMachine.CountStates | http/acsmx.c:521-526 | one state and one more per pattern byte |
| Acsm.StateMachine.BuildTrie | http/acsmx.c:521-551 | the trie's language is that of all patterns, each listed at its own state; the last state is below the table size |
| Acsm.StateMachine.Compile | http/acsmx.c:511-582 | the compiled table is the finished automaton of the patterns added |
| Acsm.StateMachine.Search | http/acsmx.c:590-667 | with non-empty patterns, from state 0, and a callback that never stops: every occurrence once, in increasing end order, and their number; a nocase pattern occurs where the letters are the same, byte by byte, any other where the bytes are |
| LinkedLists.LinkedNoDuplicates | http/mempool.c:38-62 | a well-linked list has no node twice |
| LinkedLists.BypassLinked | http/mempool.c:200-203 | unlinking any node leaves a well-linked list of the others |
| LinkedLists.LinkedList.PushFront | http/mempool.c:144-149 | a node put in front: list, links and back link |
| LinkedLists.LinkedList.PopFront | http/mempool.c:389-397 | the first node taken off, its links cleared |
| LinkedLists.LinkedList.Unlink | http/mempool.c:200-203 | a node taken from anywhere in the list |
| SlabAccounts.TakeUnit | http/mempool.c:386-401 | handing out a unit adds one to its slab's counter and keeps all accounts |
| SlabAccounts.GiveUnit | http/mempool.c:271-290 | taking back a unit takes one from its slab's counter and keeps all accounts |
| SlabAccounts.EnlistSlab | http/mempool.c:114-166 | a new slab adds its units as free ones and keeps all accounts |
| SlabAccounts.ReleaseSlab | http/mempool.c:175-214 | the units of a slab without used ones are all free, and releasing it keeps all accounts |
| SlabAccounts.SumOfCounters | http/mempool.c:18-62 | the slabs' counters add up to the units that are not free |
| Mempool.ZeroIncrement | http/mempool.c:321-358 | exactly the positive multiples of 65536 make a pool whose increment is 0 |
| Mempool.AnyRun | http/mempool.c:373-449 | over every sequence of gets and puts no unit is handed out while it is held, and the units in use are those got and not yet put back |
| Mempool.Pool.Alloc | http/mempool.c:321-358 | a pool comes with its first slab or not at all; the increment is cut to 16 bits |
| Mempool.Pool.AllocCache | http/mempool.c:113-166 | a slab's units go on the free list; on failure nothing changes |
| Mempool.Pool.FreeCache | http/mempool.c:175-214 | a released slab takes exactly its own free nodes along, and no used one |
| Mempool.Pool.Get | http/mempool.c:373-406 | a unit that was not in use, or NULL exactly if none is free and no slab can be had; all invariants kept |
| Mempool.Pool.PutNode | http/mempool.c:265-301 | the unit is free again; its slab is released exactly if unused and more than twice the increment is free, and then more than the increment stays free |
| Mempool.Pool.Put | http/mempool.c:409-449 | exactly the given unit is no longer in use and NULL is refused; its slab is given back exactly if that leaves it unused with more than two slabs' worth of units free |
| Mempool.Pool.UsedUnit | http/mempool.c:386-401 | a unit in use lies in a slab that has not been released and counts it |
| SlabAccounts.CountersCountUsed | http/mempool.c:18-62 | over any slabs, the counters add up to the number of their units in use |
| Mempool.Pool.NothingToGive | http/mempool.c:383-391 | a pool without increment has a null free list and nothing in use, always: the list that the source then follows |
| Mempool.Pool.Accounting | http/mempool.c:18-62 | the slabs' counters add up to the number of units in use, which is nalloced − nfreed |
| PathSpec.CollapseIdempotent | http/http_decode.c:76-179 | a successful result has no backslash, empty, "." or ".." segment and is a fixed point |
| PathSpec.CollapseSlashed | http/http_decode.c:98-112 | a backslash separates like a slash |
| PathCollapse.CopySegment | http/http_decode.c:169-175 | one segment moved down in place, write index never past the read index |
| PathCollapse.ScanBack | http/http_decode.c:157-158 | the backward scan stops at the slash of the parent directory |
| PathCollapse.CopySlash | http/http_decode.c:105-112 | a separator after a segment becomes one slash |
| PathCollapse.Segment | http/http_decode.c:114-175 | one segment read: ".", ".." in the middle and at the end, or copied; rejected exactly as the segment stack rejects |
| PathCollapse.PopLast | http/http_decode.c:129-145 | a final ".." is rejected at the root and also when only the root would remain |
| PathCollapse.PopSegment | http/http_decode.c:147-167 | a ".." in the middle is rejected only at the root |
| PathCollapse.HttpDecodePath | http/http_decode.c:76-179 | in place, for every anchored NUL-free path: the result and return value of the segment stack |
| PercentSpec.DecodedPlain | http/http_decode.c:513-552 | up to the next '%' only '+' changes, into a blank |
| PercentSpec.ReadWritten | http/http_decode.c:434-496 | each way of writing a byte (literal, '+', %41, %x41, %u0041, %uff21, either letter case) reads as that byte whatever follows |
| PercentSpec.DecodeOfEncode | http/http_decode.c:513-552 | decoding inverts every encoding of every NUL-free string, '%' and '+' being escaped |
| PercentSpec.NulExactlyWhen | http/http_decode.c:224-285 | decoding a text without NUL gives one if and only if the full-width form %uffe0 stands in it: two-digit forms never do |
| PercentDecode.BackwardIsForward | http/http_decode.c:341-421 | what a '%' does to the text decoded behind it is what the token does read forward, for every text |
| PercentDecode.PercentXxDecodeBackward | http/http_decode.c:224-250 | two digits become their byte, unless they stand for NUL; otherwise nothing changes |
| PercentDecode.PercentFfxxDecodeBackward | http/http_decode.c:263-285 | the full-width form's byte, its digits unchecked |
| PercentDecode.TypeBackward | http/http_decode.c:341-421 | the kind of token, in the order of the source's tests |
| PercentDecode.DecodeBackward | http/http_decode.c:434-496 | the output after a '%' is the rewritten text, or unchanged where the digits fail |
| PercentDecode.StringDecode | http/http_decode.c:513-552 | the output is the reversal of the text read forward token by token |
| PercentDecode.ReverseString | http/http_decode.c:563-575 | the string reversed in place, the rest untouched |
| PercentDecode.DecodeString | http/http_decode.c:671-675 | one pass of decoding and reversing gives the forward reading, for every input |
| Base64.OrLow6 | http/base64.c:118-148 | or-ing bits into free low positions is adding them |
| Base64.CharIsNumbered | http/base64.c:12-13 | the character of each six-bit value is the one with that number in the alphabet of RFC 4648, written out |
| Base64.ValueIsPosition | http/base64.c:14-24 | the value read from a character is its position in that alphabet; every other character has none |
| Base64.BlockIsNumber | http/base64.c:33-44 | the sextets of a block, whole or short, are the base-64 digits of its bytes' number in base 256, the most significant first |
| Base64.NumberIsBlock | http/base64.c:118-148 | the bytes of four sextets write the number that these write |
| Base64.CodeIsNumbered | http/base64.c:27-86 | each block of an encoding: its characters' positions in the alphabet are the digits of the number of its bytes, with the padding where bytes are missing |
| Base64.BlockThere | http/base64.c:41-44 | the four sextets of three bytes give them back |
| Base64.BlockBack | http/base64.c:118-148 | the three bytes of four sextets give them back, also short ones without bits left over |
| Base64.CodeInjective | http/base64.c:27-86 | no two byte strings have the same encoding |
| Base64.SizeCode | http/base64.c:88-204 | without a target the parser's count for an encoding is the length of what was encoded |
| Base64Decode.Encode | http/base64.c:27-86 | the canonical encoding and a NUL if they fit, −1 exactly if not |
| Base64Decode.Store | http/base64.c:108-149 | each state's bits go where they belong, no slot before its character was read; it fails exactly if the target has no slot for the character |
| Base64Decode.Padding | http/base64.c:157-183 | what may follow a padding character, in every state |
| Base64Decode.Finish | http/base64.c:157-192 | padding of the right length, nothing but white space behind it, no bits left over |
| Base64Decode.Decode | http/base64.c:88-204 | success exactly on white-space-interspersed canonical encodings that fit, with the decoded bytes; the same when the target is the source itself; shape only when there is no target; `CodeIsNumbered` says what an encoding is in terms of the alphabet |
| Base64Decode.CodeIsText | http/base64.c:27-86 | an encoding is NUL-free ASCII without white space |
| Base64Decode.AnswersAgree | http/base64.c:88-204 | the answer depends on the text and the target's size only: decoding over the source gives what decoding elsewhere gives |
| Base64Decode.DecodeInjective | http/base64.c:88-204 | decoded bytes are the same if and only if the texts differ in white space only |
| Base64Decode.DecodeOfEncode | http/base64.c:88-204 | decoding an encoding succeeds exactly if the target has the room, and gives the bytes back |
| ChunkSpec.StrtolOfLine | http/http_body.c:61-61 | the size read from a size line is the size it was written with |
| ChunkSpec.CrlfAtEnd | http/http_body.c:14-18 | a cached line can only get its first CRLF at its end |
| ChunkSpec.ValueIsSpelled | http/http_body.c:61-61 | the value that reading gives a word of digits is n if and only if the word writes n: its last character is number n mod 16 of the literal digits of either case, the others write n / 16 |
| ChunkSpec.HexSpells | http/http_body.c:61-61 | a printer of numbers written apart from the reader: what it prints of n, in either case, is read as n |
| ChunkSpec.RunSplit | http/http_body.c:36-74 | for bytes that fit the cache and an int: the state after a buffer is the state after its halves, unless the first half makes the receiver stop |
| ChunkSpec.CutsUnseenExactlyWhen | http/http_body.c:36-74 | for bytes that fit the cache and an int: wherever a buffer is cut, two calls leave the state of one, if and only if no byte in front of its last makes the receiver stop |
| ChunkSpec.NoLineInsideAChunk | http/http_body.c:36-74 | inside a chunk nothing of a size line is cached, so the condition covers every state of a receiver |
| ChunkSpec.NegativeSizeShowsTheCut | http/http_body.c:62-64 | such a stop in the middle of a stream: behind a negative size the cut shows |
| ChunkSpec.EncodeIsEncoded | http/http_body.c:25-83 | every list of chunks with extensions, their size lines writing the lengths of their data in base 16, has such an encoding in a stream, whatever stands around it |
| ChunkSpec.RunEncoded | http/http_body.c:36-74 | one buffer from the start of a body: the exact rest of the current chunk and its CRLF, nothing read behind the body |
| ChunkSpec.ExpectedDone | http/http_body.c:75-77 | the end of the body is the one place where nothing is missing |
| ChunkSpec.EveryCutEndsOnTheLastByte | http/http_body.c:25-83 | for every list of non-empty chunks and every cutting: the state after each buffer, and the body over exactly on the buffer with the last byte |
| ChunkSpec.PrintedBodyEnds | http/http_body.c:25-83 | a body whose size lines a printer made of the lengths of any pieces of data, cut anywhere and with anything behind it, is over exactly on the buffer with its last byte |
| ChunkedBody.Receiver.FindCrlf | http/http_basic.c:84-99 | found exactly if the line holds a CRLF, also when it has one byte only |
| ChunkedBody.Receiver.ReadLine | http/http_body.c:4-22 | 0 exactly when the byte completes a line, which stays in the cache with its NUL; −1 when the cache is full |
| ChunkedBody.Receiver.RecvChunk | http/http_body.c:25-83 | one buffer has the effect of its bytes one by one, and the state NONE is set exactly if the body is over; `ValueIsSpelled` pins the base of the sizes |
| HeaderEnd.StepHolds | http/http.c:159-167 | the two tests of the loop body keep the longest suffix read that is a prefix of CRLFCRLF |
| HeaderEnd.Parser.Parse | http/http.c:151-189 | the state is that longest suffix; reading stops right behind the first CRLFCRLF or at the end of the piece |
| HeaderEnd.EveryCutFindsTheEnd | http/http.c:151-189 | for every segmentation the calls stop just behind the first CRLFCRLF of the stream, or read all of it |
| RingBuffer.RefinesList | http/queue.c:51-110 | a ring is a bounded FIFO of one item less than it has slots |
| RingBuffer.TakenIsStable | http/queue.c:68-83 | any number of enqueues leave the slot taken out last alone |
| RingBuffer.DequeuedStays | http/queue.c:97-110 | the pointer a dequeue returns keeps its item through any enqueues until the next dequeue |
| RingBuffer.Queue.Full | http/queue.c:51-57 | full exactly at one item less than the slots |
| RingBuffer.Queue.Empty | http/queue.c:59-65 | empty exactly without items |
| RingBuffer.Queue.Enqueue | http/queue.c:68-83 | the item goes behind the others, −1 exactly when full |
| RingBuffer.Queue.Dequeue | http/queue.c:97-110 | the slot of the first item, NULL exactly when empty |
| ConnectionTable.StopsExactlyWhen | http/connection.c:62-75 | the search ends if and only if some slot is empty or it does not start at slot 0 |
| ConnectionTable.Table.GetFreeId | http/connection.c:55-76 | the first empty slot at or behind the start, wrapping around; −1 exactly on a full table |
| ConnectionTable.Table.Add | http/connection.c:166-198 | succeeds exactly if a slot is free, changes that slot only, keeps the count of empty slots |
| ConnectionTable.Table.Find | http/connection.c:200-219 | the connection under the id, NULL out of range; the magic number holds |
| ConnectionTable.Table.Del | http/connection.c:221-248 | empties that slot only, −1 exactly if there was nothing to delete |
| ConnectionTable.StaysUntilDeleted | http/connection.c:166-248 | through any logged calls a connection stays under its id until that id is deleted |
| ConnectionTable.AnyCalls | http/connection.c:166-248 | after any sequence of adds and deletes the table is what the log of the successful ones makes of it |
| ConnectionTable.AddedIsFound | http/connection.c:166-248 | an added connection is what find answers for its id after any further calls, unless one of them deleted that id |
| WorkerLoop.Thread.AfterAnyRun | http/work2.c:1244-1256 | after any run, for every live connection, by the log of its system calls: the bytes got from each socket are those the other one has taken and those pending, in order, exactly if no packet of that direction was cut short again; nalloced = packets held + cuts; each socket is registered with exactly the epolls that the flags tell |
| Packets.FlowExactlyWhen | http/work2.c:837-901 | received = sent + pending, in order, if and only if no packet was forgotten |
| Packets.FlowSend | http/work2.c:837-856 | sending part of a packet keeps the bytes in order |
| Worker.SkSend | http/sock_util.c:407-426 | -1 without a socket or bytes, otherwise -1 or how many of the bytes were taken; the call is logged with its bytes |
| Worker.SkRecv | http/sock_util.c:378-405 | an error, or at most as many bytes as there is room; the peer has closed only when none came; the call is logged with what it gave |
| Calls.ShowsNext | http/work2.c:837-901 | what a log shows of a connection's two sockets (bytes got, bytes taken, epolls) changes with one call by that call's part only |
| Calls.ShowsConnect | http/work2.c:240-284 | the server's socket that a connect gives has nothing got or taken, and is registered with the epoll that fits |
| Calls.OthersIdle | http/work2.c:233-234 | calls about one socket show nothing of any other: before a connect nothing was got from or taken by the server's socket |
| Calls.ForwardedAll | http/work2.c:1030-1062 | a packet from the pool, a receive and calls made to send are a forwarding event, whose connection is kept exactly if all succeed and the source stays |
| Worker.Worker.SendClientPacket | http/work2.c:837-896 | one packet: the first call hands exactly its unsent bytes to the client's socket; what is sent, kept, counted or forgotten for each result; -1 exactly if the last call failed, and the log shows what the traces say |
| Worker.Worker.SendToClient | http/work2.c:804-905 | flags, nblocked and nalloced stay in step; the calls begin with the first packet's unsent bytes, all are made to send to the client, and it fails exactly if the last one failed; afterwards all is sent or the socket is blocked and counted; a packet is forgotten exactly if the first one is cut short under a set block flag |
| Worker.Worker.SentToClient | http/work2.c:837-896 | the outcome for each number of bytes that the socket has taken; under a set block flag a packet sent in part is forgotten, with the bytes that are left; the log shows it |
| Worker.ForgottenPacket | http/work2.c:854-856 | for every packet and every two places to cut it: it is forgotten, the client's socket has taken less than was got from the server's, and nalloced counts a packet nobody holds |
| Worker.Worker.SendServerPacket | http/work2.c:952-1019 | the same towards the server, where sending nothing is an error |
| Worker.Worker.GetServer | http/work2.c:221-287 | without a server socket the calls are a connect and, if it succeeds, its registration to wait or to be read from; a waiting connect is counted once; an existing socket is kept without a call |
| Worker.Worker.SendToServer | http/work2.c:912-1022 | flags, nblocked and nalloced stay in step; the calls begin with connecting if there is no socket, then with the first packet's unsent bytes, and it fails exactly if the last one failed; afterwards all is sent, or the socket waits or is blocked and counted; exactly when a packet is forgotten |
| Worker.Worker.CheckServer | http/work2.c:517-559 | the connection is checked, then the socket moves from the send epoll to the receive epoll; the wait flag and its count go together, also on failure; -1 exactly if the last call failed |
| Worker.Worker.ReceiveFromClient | http/work2.c:565-623 | a packet from the pool, then one receive from the client's socket; what it gave is exactly what becomes pending, last in order; an empty packet goes back; a close comes without bytes and changes nothing else; -1 exactly if one of the calls failed |
| Worker.Worker.ReceiveFromServer | http/work2.c:625-683 | the same from the server's socket |
| Worker.Worker.ParseClient | http/work2.c:694-736 | the received packet goes to the output queue and nothing changes in what is pending |
| Worker.Worker.ParseServer | http/work2.c:743-801 | the same for the server's packet |
| Worker.Worker.ProcessClient | http/work2.c:1030-1062 | a readable client: one receive from its socket, then calls made to send to the server; to be freed exactly if a call failed or the client closed, otherwise settled again; the counts in step; under the caller's guard no packet is forgotten; a client that closes has lost what it sent if and only if the server's connection is still waited for |
| Worker.Worker.ProcessServer | http/work2.c:1069-1099 | a readable server: the same the other way, with the other guard; a server that closes has all its bytes with the client |
| Worker.Worker.ClientWritable | http/work2.c:1224-1227 | a writable client: its queue is sent to its socket, first packet first; to be freed exactly if the last call failed, otherwise settled again, with the counts in step |
| Worker.Worker.ServerWritable | http/work2.c:1228-1234 | a writable or connected server: a connection waited for is checked and registered first; then the same towards the server; a packet is forgotten exactly if the first one is cut short under a set block flag |
| Worker.Worker.TakeClient | http/work2.c:494-506 | a new connection has its client's socket, registered with the receive epoll, and no other call was made |
| Worker.Worker.Clean | http/work2.c:321-363 | nalloced goes down by every packet the queue holds |
| WorkerLoop.Thread.NothingWaits | http/work2.c:1187-1190 | nblocked is never negative, and below 1 only if no live connection waits, has bytes pending or has a socket registered with the send epoll: the early return skips no event |
| WorkerLoop.Thread.FreeConnection | http/work2.c:370-448 | the connection leaves the table; nalloced ends at the number of forgotten packets; its flags are added to those that stay counted |
| WorkerLoop.Thread.AllocConnection | http/work2.c:289-314 | a new connection takes an empty slot, with no flag set |
| WorkerLoop.Thread.Accept | http/work2.c:480-510 | a new connection in an empty slot, with the given socket registered to be read from, or none; every invariant is kept |
| WorkerLoop.Thread.OnReceive | http/work2.c:1137-1165 | an event reads once from the socket it names and writes to the other one; with the other one blocked, or a foreign socket, nothing is called and nothing changes; the connection is freed exactly on an error event, a failed call or a close; other connections are unchanged, all invariants are kept and no packet is forgotten |
| WorkerLoop.Thread.OnSend | http/work2.c:1206-1238 | an event sends the queue of the socket it names, first packet first, to that socket; the connection is freed exactly on an error event or a failed call; a packet is forgotten exactly if the first one is cut short again, which `cuts` counts; other connections are unchanged |
| WorkerLoop.Thread.SendData | http/work2.c:1170-1239 | the assertion on nblocked holds; any events keep the invariants |
| WorkerLoop.Thread.Loop | http/work2.c:1244-1256 | every run of the loop, with any arrivals, events and results: nblocked = flags of live connections + flags of each freed one, and every connection is settled with as many forgotten packets as it had cuts |

## Left out

- Sockets, epoll, threads and locks: system calls are nondeterministic results, locked regions are atomic steps.
- Memory: allocation succeeds in `acsmx.c` and `queue.c`; in `mempool.c` its result is a parameter. Freeing whole tables and pools (`acsmFree`, `mempool_free`) is not modelled.
- Integer widths: counters are unbounded, except that the pool's increment is cut to 16 bits, a chunk size to an `int`, and bytes to 8 bits.
- Byte layout and alignment of structures: nodes and slabs are addresses, packets hold their data.
- Mempool.Pool.Get: does not cover a pool whose increment is 0 after the cut to 16 bits (`ZeroIncrement` says which requests give one, `NothingToGive` that its free list is always null); there the source dereferences a null free list.
- AcQueue.Queue.Add: the linked nodes of the worklist are one sequence, and so are the match lists of the state table and the pattern list.
- Packets: the packet queues of `http/packet.c` are sequences; `pktq_join` is not used by the worker and not modelled.
- Acsm.StateMachine.Search: the callback sees the calls made so far instead of an opaque pointer; its other arguments do not matter to the engine.
- PercentDecode.StringDecode: the repeated-decoding mode (CIC_DECODE) and `_http_percent_combine` are not modelled: in the built sources only a test harness asks for them, and `http/xhttp.c`, which is not built, can be configured to; neither are the entity and escape decoders around it.
- PercentDecode.DecodeString: is one pass; its caller repeats it up to 16 times, and only copies inputs of at most two bytes.
- PercentDecode.TypeBackward: a comparison with four characters fails when fewer are there; the source would read before its buffer.
- ChunkedBody.Receiver.ReadLine: a line that fills the cache to its last byte is excluded; the source writes its NUL behind the cache.
- ChunkSpec.EveryCutEndsOnTheLastByte: bodies without trailers, as the source knows none.
- Worker.Worker.ProcessClient: the request checks are switched off in the source and left out; data and lengths received are arbitrary.
- Worker.Worker.GetServer: assumes that a new server socket does not have descriptor 0, which the source takes for none and would connect again, nor that of the client's socket; a socket that cannot be registered is not closed.
- WorkerLoop.Thread.FreeConnection: taking the sockets of a freed connection out of the epolls and closing them is not modelled; the source ignores the results.
- WorkerLoop.Thread.OnSend: ends the event once a connection has been freed; the source goes on to use it after a failed connect.
- WorkerLoop.Thread.AllocConnection: takes any empty slot; which one is the subject of ConnectionTable.
- ConnectionTable.Table.Add: connections carry their id and magic number only.
- `http/xhttp.c` (not built), multipart forms, argument parsing, header tables, rule matching (`http/pat.c`), address lists, shared memory, logging, configuration and statistics.
- DETECTION_OPTION_TREE code and print functions.
