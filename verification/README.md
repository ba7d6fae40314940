# Verified models of the game-server framework

This project models the self-contained algorithms of the C++ framework in Dafny and proves what they promise. Code that
changes things step by step is modelled as classes, arrays and loops, and each method is tied by its contract to a
function of its inputs or of the old state; the lemmas then prove what that function means. Check everything with
`dafny verify dfyconfig.toml`.

| component | files |
|---|---|
| Shared notions | Basics |
| Service ordering and life cycle | DependencyGraph, DependencyResolver, ServiceManager |
| HTTP and WebSocket kernels of mongoose | GlobMatch, GlobMeaning, Bytes, Iobuf, RequestFraming, WebSocket, LinkedList |
| SHA-1 and MD5 streaming (both contexts, with the block transform as a parameter) | Digest, DigestBytes |
| Lua struct packing | StructInteger, StructAlign, StructPack, StructFormat, StructLayout |
| Concurrency primitives, as interleaved atomic steps and as classes | CircularFifo, DoubleBufferQueue, DoubleBufferProgress, ThreadPool |
| Dou-niu hands and the deck | NiuHand, Deck |
| CSV reader | CsvFormat, CsvRoundTrip, CsvParser |
| TinyXML string | TinyString |
| MySQL and Redis connection pools | ConnectionPool |

## What turned out not to hold

Where a property one would expect is false of the code, the model keeps the code as it is, a lemma gives an input that
shows it, and another one says exactly when the property holds.

- `ServiceManager::Init` answers true when the new services have a dependency cycle, having initialised none of them,
  and (where assertions are compiled out) when an earlier Init was refused: services that are already in the order are
  never called again, and `Start` starts them uninitialised (`InitIsCompleteIff`, `CycleExample`, `RefusedInitExample`,
  `Start`). Deregistering an ordered service breaks the order's invariant (`Deregister`).
- `match_prefix` on `$|a` and the empty text answers -1 although the first alternative matches: an empty match counts as
  a failure unless it is the last alternative (`OverallAnswer`, `EmptyMatchIsLost`).
- `deliver_websocket_frame` ignores the high word of a 64-bit length and reads the low one as an int, so that it may
  deliver an empty message or one of negative length (`LongFrameAgreesIff`, `LongFrameExample`, `NegativeLengthExample`).
- `b_size` accepts letters that `b_pack` and `b_unpack` reject (`SizedPacksIff`, `SizedUnpacksIff`,
  `SizeAcceptsUnknown`).
- The padding of the struct library aligns elements only when their alignment is a power of two, which a size such as 3
  need not be (`AlignsIff`). Integers of more than eight bytes get zeros above the eighth, negative ones too
  (`PackedByte`).
- `DoubleBufferQueue` lets a message overtake an earlier one when a swap falls between the two steps of a push
  (`RunIsInOrderIff`, `OvertakingExample`).
- `hasCow` accepts claims that repeat an index (`ClaimIsSafeIff`, `FourRepeatedBeat`, `ThreeRepeatedBeat`).
- `dealPokers` answers true when the deck runs out (`DealPokers`). A null slot in the group given to
  `initPokerExceptGroup` counts as equal to any card with value 0 (`TakesListedIff`, `NullSlotRemovesZeros`).
- The CSV reader loses the last field of a plain last row without a line terminator (`LastRowUnterminated`), and an
  enclosed field comes back only under the condition stated in `TableRoundTripIff`.

## Model

| member | source | states |
|---|---|---|
| DependencyResolver.Resolver.TopSort | framework/server/dependencyResolver.cpp:41-77 | Appends to the order a duplicate-free list of the given services, each after everything it waits for; true exactly when there is no dependency cycle, and then the list holds them all; when it stops short, every service left over still waits for another one left over. What was ordered before stays in front, also after a failure. |
| DependencyResolver.SortDecidesAcyclicity | framework/server/dependencyResolver.cpp:63-68 | Success if and only if acyclic; a failure comes with an actual cycle among services that were not appended. |
| DependencyGraph.OrderExcludesCycles | framework/server/dependencyResolver.cpp:63-76 | A complete order that respects dependencies leaves no cycle. |
| DependencyGraph.StuckHasCycle | framework/server/dependencyResolver.cpp:64-68 | If every service of a nonempty set waits for another one of the set, walking along the waits must close a cycle inside the set (pigeonhole on the walk). |
| DependencyResolver.EmissionIsUnique | framework/server/dependencyResolver.cpp:63-75 | The services appended before a failure do not depend on the order in which ready ones are picked. |
| DependencyResolver.SortIsOrderIndependent | framework/server/dependencyResolver.cpp:41-77 | Any two sorts of the same graph append the same set and give the same answer, whatever the iteration order of the map. |
| DependencyResolver.BuildGraph | framework/server/dependencyResolver.cpp:43-62 | Builds the adjacency matrix (self-dependencies and unregistered names ignored) and, for each service, the number of services it waits for. |
| DependencyResolver.FillRow | framework/server/dependencyResolver.cpp:56-61 | Fills one row of the matrix and its counter and leaves all the other rows alone. |
| DependencyResolver.FindReady | framework/server/dependencyResolver.cpp:64-66 | The first position whose counter is zero, or none. |
| DependencyResolver.Emit | framework/server/dependencyResolver.cpp:70-74 | Marks a service as appended and lowers exactly the counters of those that wait for it, so each counter again counts what its service still waits for. |
| DependencyResolver.LowerCounts | framework/server/dependencyResolver.cpp:70-74 | The loop takes exactly one off each counter with an edge to the position, and marks the position. |
| DependencyResolver.EmitReady | framework/server/dependencyResolver.cpp:64-74 | One round: either a ready service is appended and the state of the sort is kept, or the rest is stuck. |
| DependencyResolver.EmissionGrows | framework/server/dependencyResolver.cpp:69-74 | Appending a service that waits for nothing keeps the list duplicate-free and in dependency order. |
| DependencyResolver.Resolver.GetNewServices | framework/server/dependencyResolver.cpp:16-25 | Exactly the registered services that are not ordered yet, with their own dependencies. |
| DependencyResolver.Resolver.GetLackServices | framework/server/dependencyResolver.cpp:27-39 | Lists a name if and only if some service not yet ordered depends on it and it is not registered. |
| DependencyResolver.Resolver.LoadInitSort | framework/server/dependencyResolver.cpp:80-93 | Returns exactly what the sort has just appended, or nothing when the new services have a cycle. |
| DependencyResolver.Resolver.GetSort | framework/server/dependencyResolver.cpp:96-110 | Init order: the new suffix; start order: the rest of the list from the first service that is not running; stop order: the whole list. Only the first kind changes the list. |
| DependencyResolver.FirstIdle | framework/server/dependencyResolver.cpp:99-104 | The start order is a suffix before which everything is running. |
| ServiceManager.Manager.constructor | framework/server/service_manager.cpp:12-13 | An empty manager satisfies the invariant that every later call keeps: the order is duplicate-free, lists registered services only, and has each service after all its dependencies; what runs is ordered. |
| ServiceManager.Manager.Register | framework/server/service_manager.cpp:22-33 | Refuses exactly a name that is registered already; keeps the invariant; changes nothing else. |
| ServiceManager.Manager.Deregister | framework/server/service_manager.cpp:39-47 | Removes the service, and keeps the invariant exactly when the service was not ordered yet (the list is not told). |
| ServiceManager.Manager.Init | framework/server/service_manager.cpp:53-93 | With a missing dependency nothing happens; otherwise the new services are sorted behind the old ones, every dependency of a new service is injected, and Init is called in dependency order up to the first refusal. All registered services are then initialised exactly when the answer is true, there is no cycle, and no earlier round left a service out. |
| ServiceManager.Manager.SortNew | framework/server/service_manager.cpp:65-69 | After a sort, failed or not, the order stays duplicate-free, closed under dependencies and in dependency order. |
| ServiceManager.Manager.InjectAll | framework/server/service_manager.cpp:71-80 | Injects exactly the pairs of a sorted service and one of its registered dependencies. |
| ServiceManager.Manager.CallInits | framework/server/service_manager.cpp:82-89 | Calls Init in turn and stops at the first refusal. |
| ServiceManager.OrderExtends | framework/server/service_manager.cpp:53-65 | A dependency-closed order followed by a sort of the new services is again duplicate-free and in dependency order, even if the sort stopped short. |
| ServiceManager.CallsStopAtRefusal | framework/server/service_manager.cpp:82-89 | The calls are a prefix of the order, all accepted but possibly the last one, and all of the order if none refuses. |
| ServiceManager.InitIsCompleteIff | framework/server/service_manager.cpp:53-93 | After a round of Init every registered service has been initialised if and only if the answer is true, the new services have no cycle, and every service ordered before had been initialised; and when exactly a round leaves an ordered service out. Services ordered before are not called again. |
| ServiceManager.RefusedInitExample | framework/server/service_manager.cpp:82-92 | A service refuses its first Init; the second Init answers true without calling anything, and Start then starts a service that was never initialised. |
| ServiceManager.CycleExample | framework/server/service_manager.cpp:63-69 | Two services that wait for each other and a third one: the sort appends the third and fails. |
| ServiceManager.Manager.Start | framework/server/service_manager.cpp:95-111 | Starts, in order, from the first idle service to the first refusal; each service is started only when its dependencies run or have been started; if all accept, exactly the ordered services run, and each of them has been initialised exactly when no round of Init has left one out. |
| ServiceManager.SuffixIsSafe | framework/server/service_manager.cpp:101-107 | Starting a suffix of the order is safe when everything before it runs. |
| ServiceManager.StartEffect | framework/server/service_manager.cpp:102-107 | Starting adds ordered services only, and all of them if none refuses. |
| ServiceManager.Manager.Stop | framework/server/service_manager.cpp:113-127 | Stops running services in reverse order up to the first refusal; no service is stopped while another one that depends on it still runs; if all accept, nothing runs afterwards. |
| ServiceManager.StopIsSafe | framework/server/service_manager.cpp:116-123 | One step of the reverse walk: whoever depends on the service to be stopped has been stopped before. |
| GlobMatch.MatchPrefix | framework/server/mongoose.c:1514-1549 | For a pattern without a bar: the length of the greediest fit of the pattern to a prefix of the text, or -1 exactly when no prefix fits; with bars, the first positive answer of an alternative or else the answer of the last one. What fits is what the pattern stands for (FitsIffStands, StarAnswerIff). |
| GlobMatch.MatchStar | framework/server/mongoose.c:1529-1543 | The backtracking over the length of a run tries lengths from the longest down, so its answer is that of the greediest fit. |
| GlobMatch.FindBar | framework/server/mongoose.c:1518 | The first bar, or none. |
| GlobMatch.FitBounds | framework/server/mongoose.c:1524-1548 | A fit never reaches beyond the text and has one run for each wildcard. |
| GlobMatch.RunsDecide | framework/server/mongoose.c:1524-1548 | The lengths of the runs determine how much text is matched. |
| GlobMatch.AnswerIsUnique | framework/server/mongoose.c:1514-1549 | At most one answer is possible for a pattern and a text, and it is not longer than the text. |
| GlobMatch.AnswerIsPositive | framework/server/mongoose.c:1519-1520 | An answer is positive if and only if the pattern fits some nonempty prefix. |
| GlobMatch.OverallAnswer | framework/server/mongoose.c:1518-1522 | With alternatives: positive exactly when some alternative fits a nonempty prefix; -1 exactly when none does and the last one does not fit at all. |
| GlobMatch.EmptyMatchIsLost | framework/server/mongoose.c:1520-1521 | The pattern `$\|a` on the empty text: the first alternative matches, yet the answer is -1. |
| GlobMatch.LastAnswerCounts | framework/server/mongoose.c:1520-1521 | With two alternatives, the second answer is taken unless the first is positive. |
| GlobMeaning.FitsIffStands | framework/server/mongoose.c:1514-1549 | A pattern fits a prefix in the matcher's sense exactly when it stands for it in the plain one, defined separately: `?` for any character, `*` for any run without a slash, `**` for any run, `$` for the end of the text, any other character for itself in either case. |
| GlobMeaning.StarFits | framework/server/mongoose.c:1529-1543 | A pattern that begins with `*` (or `**`) fits a prefix exactly when its rest fits after some run without a slash (or after any run). |
| GlobMeaning.StarAnswerIff | framework/server/mongoose.c:1529-1543 | The answer for such a pattern: the length of the longest such run after which the rest has an answer, plus that answer; -1 exactly when there is no such run. |
| GlobMeaning.LetterAnswerIff | framework/server/mongoose.c:1525-1546 | The answer for a pattern that begins with a character: one more than the rest's answer when the character matches, otherwise -1. |
| GlobMeaning.AnswerIffStands | framework/server/mongoose.c:1518-1549 | With alternatives: positive exactly when one of them stands for a nonempty prefix; -1 exactly when none does and the last one does not stand for the empty prefix. |
| GlobMeaning.AlternativesJoin | framework/server/mongoose.c:1518-1522 | The alternatives are what stands between the bars of the pattern. |
| GlobMeaning.LettersMatchIff | framework/server/mongoose.c:1476-1478 | Two characters match exactly when they are equal or the two cases of one ASCII letter. |
| GlobMeaning.LowerCaseLettersDiffer | framework/server/mongoose.c:1544-1545 | Two different lower-case letters do not match, and a letter matches itself. |
| GlobMeaning.CaseIsIgnored | framework/server/mongoose.c:1476-1545 | Changing the case of letters in the pattern or in the text changes no answer. |
| GlobMeaning.CgiExample | framework/server/mongoose.c:156 | The first alternative of the default CGI pattern takes all 14 characters of /cgi-bin/x.cgi. |
| Iobuf.Iobuf.constructor | framework/server/mongoose.c:541-547 | An empty buffer with 0 <= len <= size. |
| Iobuf.Iobuf.Spool | framework/server/mongoose.c:541-565 | Appends all the bytes, growing the block when they do not fit, or nothing when the allocation fails; returns how many were taken; keeps 0 <= len <= size. |
| Iobuf.Iobuf.DiscardLeading | framework/server/mongoose.c:826-831 | Drops the first n bytes and keeps the rest in order; does nothing when n is out of range. |
| RequestFraming.GetRequestLen | framework/server/mongoose.c:595-613 | The loop computes the framing answer that the next rows characterise. |
| RequestFraming.RequestLenIsFirstBlankLine | framework/server/mongoose.c:595-613 | 0 exactly when neither a malformed byte nor a blank line has come; a positive answer is the end of the first blank line, with no malformed byte before it; -1 is a malformed byte that comes before any blank line. |
| RequestFraming.LengthOnBytes | framework/server/mongoose.c:595-613 | A positive answer n is given exactly when the first n bytes end in 10 10 or 10 13 10, no shorter beginning does, and all of them are 10, 13, 32 to 126, or at least 128. |
| RequestFraming.MalformedOnBytes | framework/server/mongoose.c:595-613 | The answer is -1 exactly when some byte is none of these and no beginning up to it ends in 10 10 or 10 13 10. |
| RequestFraming.RequestLenIsStable | framework/server/mongoose.c:595-613 | A nonzero answer is not changed by further bytes. |
| RequestFraming.FirstAnswerIsFinal | framework/server/mongoose.c:3502-3522 | However the stream is cut, the first nonzero answer given at some cut is the answer for the whole stream. |
| RequestFraming.FramedGrows | framework/server/mongoose.c:3502-3522 | After an answer, new bytes only lengthen what is left in the buffer. |
| RequestFraming.Framed | framework/server/mongoose.c:3502-3522 | Extracted request followed by what is left is always the whole stream received. |
| RequestFraming.Connection.TryParse | framework/server/mongoose.c:3502-3522 | Takes a complete request out of the buffer once; afterwards answer, request and buffer are those of the stream received so far. |
| RequestFraming.Connection.Receive | framework/server/mongoose.c:541-565 | One read: the stream grows by the chunk (or not at all when the allocation fails) and framing is up to date. |
| RequestFraming.ReadAll | framework/server/mongoose.c:3502-3522 | A connection that reads a stream in any pieces ends with the same answer, request and rest as one that reads it at once. |
| WebSocket.RoundTrip | framework/server/mongoose.c:1842-1887 | Any list of frames, masked with arbitrary keys or not, followed by any incomplete frame: the reader delivers exactly the payloads in order and leaves exactly the incomplete tail (sections 5.2 and 5.3 of RFC 6455). |
| WebSocket.HeadFrame | framework/server/mongoose.c:1848-1877 | A complete frame at the head is recognised, its length is right and its payload comes out unmasked. |
| WebSocket.IncompleteIsNotBuffered | framework/server/mongoose.c:1864-1865 | No proper beginning of a frame is taken for a frame. |
| WebSocket.MaskedTwice | framework/server/mongoose.c:1873-1877 | Masking twice with the same key gives the payload back. |
| WebSocket.DeliveredBit | framework/server/mongoose.c:1873-1877 | Each bit of each payload byte delivered from a masked frame differs from the bit in the buffer exactly when that bit is set in the key byte i % 4 of the four before the payload. |
| WebSocket.UnmaskedDelivered | framework/server/mongoose.c:1867-1877 | Without a key, or with a key of zeros, the bytes are delivered as they lie in the buffer. |
| WebSocket.MaskedHello | framework/server/mongoose.c:1842-1877 | The masked frame of section 5.7 of RFC 6455 is delivered as the text "Hello". |
| Bytes.XorBit | framework/server/mongoose.c:1875 | A bit of the exclusive or of two bytes is set exactly when the bits of the two differ. |
| WebSocket.LongFrameAgreesIff | framework/server/mongoose.c:1857-1865 | For a frame with a 64-bit length, whether the reader finds it complete agrees with section 5.2 of RFC 6455 if and only if the length is below 2^31, or its low word exceeds what follows the header and is at most 2^32 less the header length. |
| WebSocket.LongFrameExample | framework/server/mongoose.c:1857-1861 | A header announcing 2^32 bytes is delivered as an empty message and taken off the buffer. |
| WebSocket.NegativeLengthExample | framework/server/mongoose.c:1857-1870 | A header announcing almost 2^32 bytes is delivered with a negative content length, and one byte is taken off the buffer. |
| WebSocket.LengthsOfHeader | framework/server/mongoose.c:1848-1862 | From any buffer that begins with a header, in each of the three length formats and with or without a key, the reader gets the length of that header and of its payload. |
| WebSocket.PartialHeader | framework/server/mongoose.c:1848-1862 | From a proper beginning of a header the reader gets no length, or one that reaches beyond the buffer. |
| WebSocket.WebSocketConnection.Unmask | framework/server/mongoose.c:1873-1877 | Unmasks the payload in place and nothing else; what that does to each bit is stated by DeliveredBit. |
| WebSocket.WebSocketConnection.TakePayload | framework/server/mongoose.c:1867-1877 | Hands out the flags, length and unmasked payload of the head frame and leaves the bytes behind it alone. |
| WebSocket.WebSocketConnection.DeliverFrame | framework/server/mongoose.c:1842-1887 | Delivers the head frame exactly when it is complete and removes exactly its bytes; otherwise changes nothing. |
| WebSocket.WebSocketConnection.DeliverAll | framework/server/mongoose.c:2257-2264 | Repeated delivery ends, because the buffer shrinks each time, with all complete frames delivered and the rest left. |
| WebSocket.WebSocketWrite | framework/server/mongoose.c:1889-1929 | Appends the frame of the payload to the output, or leaves the output as it was; the answer tells which, and -1 means that no copy could be allocated. |
| WebSocket.PutHeader | framework/server/mongoose.c:1899-1921 | Writes the header of the frame in the shortest of the three length formats. |
| WebSocket.PutBigEndian | framework/server/mongoose.c:1910-1918 | Stores a number in network byte order and leaves the bytes around it alone. |
| Sha1.Context.Update | framework/server/mongoose.c:1752-1771 | Whatever the cut, the state is the chain over the whole blocks of the message so far, the two counter words hold its length in bits modulo 2^64, and the buffer begins with the incomplete block. |
| Sha1.Context.Count | framework/server/mongoose.c:1756-1759 | The carry between the two counter words is right. |
| Sha1.Context.PadToLength | framework/server/mongoose.c:1781-1786 | Padding one byte at a time stops exactly when 8 bytes are missing to a block. |
| Sha1.Context.Final | framework/server/mongoose.c:1773-1794 | The digest is the chain over the padded message (section 4 of RFC 3174), and the context is wiped. |
| Sha1.DigestChunks | framework/server/mongoose.c:1752-1794 | Any split into updates gives the digest of the concatenation. |
| DigestBytes.Sha1DigestWords | framework/server/mongoose.c:1788-1791 | Each four bytes of the digest, most significant first, are one word of the last chaining state, and there are 20 bytes. |
| DigestBytes.Sha1LengthField | framework/server/mongoose.c:1777-1787 | The padded message fills whole blocks, begins with the message, and its last eight bytes, most significant first, are its length in bits modulo 2^64. |
| Md5.Context.Update | framework/server/mongoose.c:2878-2912 | As for SHA-1, with the different treatment of a partly filled buffer. |
| Md5.Context.Count | framework/server/mongoose.c:2881-2884 | The carry between the two counter words is right. |
| Md5.Context.PadBlocks | framework/server/mongoose.c:2919-2938 | Both padding cases: the length fits in the last block, or one more block is needed. |
| Md5.Context.Final | framework/server/mongoose.c:2914-2942 | The digest is the chain over the padded message (sections 3.1 and 3.2 of RFC 1321), and the context is wiped. |
| Md5.DigestChunks | framework/server/mongoose.c:2878-2942 | Any split into updates gives the digest of the concatenation. |
| DigestBytes.Md5DigestWords | framework/server/mongoose.c:2938-2941 | Each four bytes of the digest, least significant first, are one word of the last chaining state, and there are 16 bytes (section 3.4 of RFC 1321). |
| DigestBytes.Md5LengthField | framework/server/mongoose.c:2914-2938 | The padded message fills whole blocks, begins with the message, and its last eight bytes, least significant first, are its length in bits modulo 2^64 (section 3.2 of RFC 1321). |
| DigestBytes.Md5InitialBytes | framework/server/mongoose.c:2786-2790 | The initial state, least significant byte first, is 01 23 45 67 89 ab cd ef fe dc ba 98 76 54 32 10. |
| Digest.ChainAppend | framework/server/mongoose.c:1761-1770 | Chaining over a message in two parts continues from the state after the first with its leftover bytes in front. |
| Digest.CountAdds | framework/server/mongoose.c:1756-1759 | Adding a length to the 64-bit count kept in two words, with the comparison that detects the carry. |
| Digest.LowBitsPosition | framework/server/mongoose.c:1760 | The position in the block can be read off the low counter word, also after it has wrapped. |
| Digest.PaddingStops | framework/server/mongoose.c:1783-1786 | The loop condition holds again only after exactly the right number of zeros. |
| Digest.LastBlocks | framework/server/mongoose.c:2919-2938 | The padded rest is one block or two, and how the bytes lie in them. |
| LinkedList.List.constructor | framework/server/mongoose.c:138-139 | An empty list is the head linked to itself. |
| LinkedList.List.IsEmpty | framework/server/mongoose.c:141 | The head is its own successor exactly when the list is empty. |
| LinkedList.List.AddToFront | framework/server/mongoose.c:144-145 | The list becomes the node followed by the old list; next and prev stay mutually inverse around one circle through the head. |
| LinkedList.List.AddToTail | framework/server/mongoose.c:146-147 | The list becomes the old list followed by the node, with the same circle invariant. |
| LinkedList.List.Remove | framework/server/mongoose.c:148-149 | Exactly the node is taken out, it ends linked to itself, and the circle stays whole. |
| LinkedList.List.CloseExpired | framework/server/mongoose.c:3871-3885 | The walk with a saved next node visits every initial node exactly once, in order, although it unlinks nodes on the way; afterwards the list holds exactly the nodes that were not expired, in order. |
| LinkedList.List.Visit | framework/server/mongoose.c:3872-3884 | Unlinking the node the walk stands on does not disturb the saved next one. |
| LinkedList.WithoutMembers | framework/server/mongoose.c:3882-3884 | What is left are exactly the members that were not closed. |
| StructPack.RoundTrip | framework/base/lua/struct.c:221-276 | For every valid format and every list of arguments that its items can hold, unpacking the packed bytes, whatever follows them, gives the arguments back and ends right behind them; both sides pad at the same places. |
| StructPack.PackedIsLaid | framework/base/lua/struct.c:230-273 | The packed items lie one after the other, each where the format aligns it; PackedAligned and PackedUnaligned say where that is. |
| StructLayout.PackedAligned | framework/base/lua/struct.c:230-273 | For a number or a padding byte whose size, limited by the alignment, is a power of two: the packing is zeros up to the first multiple of that, then the item's own bytes, then the packing of the rest from where they end. |
| StructLayout.UnpackedAligned | framework/base/lua/struct.c:314-343 | The value is read from that same place, or the data are too short. |
| StructLayout.SizedAligned | framework/base/lua/struct.c:379-389 | The size is counted from that same place. |
| StructLayout.OneAlignedPlace | framework/base/lua/struct.c:149-155 | There is exactly one such place. |
| StructLayout.PackedUnaligned | framework/base/lua/struct.c:150-154 | Strings, options and numbers of size 0 are packed at once behind what comes before, options as nothing. |
| StructLayout.UnpackedUnaligned | framework/base/lua/struct.c:150-154 | They are read from where the item before them ends. |
| StructLayout.SizedUnaligned | framework/base/lua/struct.c:150-154 | In the size, too, no padding comes before them. |
| StructLayout.DefaultIsUnaligned | framework/base/lua/struct.c:119 | Without a `!`, the size of a format is the sum of the sizes of its items. |
| StructLayout.AlignedExample | framework/base/lua/struct.c:221-276 | `!4bi4` packs 1 and 2 as 01 00 00 00 02 00 00 00. |
| StructLayout.UnalignedExample | framework/base/lua/struct.c:221-276 | `bi4` packs them as 01 02 00 00 00. |
| StructPack.LaidUnpacks | framework/base/lua/struct.c:314-368 | Unpacking reads items laid so, and stops where they end. |
| StructPack.ItemRoundTripIff | framework/base/lua/struct.c:236-271 | One argument comes back from its own bytes if and only if its item can hold it: integers in range, strings of the exact length, zero-terminated strings without a zero. |
| StructPack.SizeIsPackedLength | framework/base/lua/struct.c:374-393 | For any format that packs, the size is known beforehand exactly when it has no `s` and no `c0`, and then equals the packed length. |
| StructPack.SizedPacksIff | framework/base/lua/struct.c:374-393 | A format that has a size packs some arguments if and only if it has no letter that is no option. |
| StructPack.SizedUnpacksIff | framework/base/lua/struct.c:306-371 | A format that has a size unpacks given data if and only if it has no such letter and the data reach as far as its size; it then ends at its size. |
| StructPack.SizeAcceptsUnknown | framework/base/lua/struct.c:387-388 | For instance, the size computation accepts a letter that both packers reject. |
| StructPack.Pack | framework/base/lua/struct.c:221-276 | The loop over the format computes the packing of the parsed format, error cases included. |
| StructPack.Unpack | framework/base/lua/struct.c:306-371 | The loop over the format computes the unpacking of the parsed format, error cases included. |
| StructPack.Size | framework/base/lua/struct.c:374-393 | The loop over the format computes the size of the parsed format, error cases included. |
| StructPack.ReadNumber | framework/base/lua/struct.c:106-116 | Reads the decimal number at the head of the format, or gives the default. |
| StructFormat.ItemIsRead | framework/base/lua/struct.c:123-179 | Every item that an option gives, written as that option, is read back as the item, and exactly its characters are taken, whatever follows that is no digit. |
| StructFormat.FormatIsRead | framework/base/lua/struct.c:230-272 | Every list of such items, changes of byte order and alignment included, has a format from which the reader gets exactly that list. |
| StructFormat.NumberIsRead | framework/base/lua/struct.c:106-116 | A number written in decimal is read back from the head of a format. |
| StructFormat.LetterIsSized | framework/base/lua/struct.c:125-128 | Each letter for an integer of fixed size reads as the same integer with its size written out, signed if it is lower case. |
| StructFormat.DefaultsAreRead | framework/base/lua/struct.c:131-138 | Without a number, `i` and `I` mean four bytes and `c` one. |
| StructFormat.DefaultAlignmentIsRead | framework/base/lua/struct.c:166-171 | Without a number, `!` means an alignment of eight. |
| StructFormat.LargeIsRefused | framework/base/lua/struct.c:133-139 | An integer option is refused exactly when its size is above 32. |
| StructFormat.OtherCharacters | framework/base/lua/struct.c:387-388 | A character that is no option is taken as an unknown option exactly when it is a letter or a digit, and is an error otherwise. |
| StructPack.ArgumentPacks | framework/base/lua/struct.c:236-269 | An argument that its item can hold packs without error into bytes of the item's size from which the same value is read; a zero-terminated string into itself and a zero. |
| StructPack.GetItem | framework/base/lua/struct.c:318-366 | Reads one item, including strings, counted strings and the errors. |
| StructInteger.IntegerRoundTrip | framework/base/lua/struct.c:182-206 | Every number in range comes back from its bytes, for sizes 1 to 8, signed or not, under both byte orders. |
| StructInteger.IntegerRoundTripIff | framework/base/lua/struct.c:279-303 | A number comes back if and only if it is in the range of the format, sign extension included. |
| StructInteger.PutIntegerBytes | framework/base/lua/struct.c:182-206 | Both store loops give the low bytes of the two's complement in the order asked for. |
| StructLayout.PackedByte | framework/base/lua/struct.c:182-206 | Byte k of a number packed in little endian, counted from the front, and in big endian, counted from the back, is floor(n / 256^k) modulo 256 for k below 8 and zero above. |
| StructInteger.ReadInteger | framework/base/lua/struct.c:279-303 | Both read loops give the number of the bytes, sign-extended for signed formats. |
| StructInteger.CorrectBytes | framework/base/lua/struct.c:209-218 | Swapping in place reverses the bytes exactly when the byte order is not the host's. |
| StructAlign.ToAlignIsLeast | framework/base/lua/struct.c:149-155 | For power-of-two sizes the padding is the least one that reaches a multiple of the alignment. |
| StructAlign.AlignsIff | framework/base/lua/struct.c:149-155 | The padding before elements of a given size is, at every position, the least one that reaches a multiple of their alignment, if and only if that alignment, the smaller of size and maximum, is a power of two. |
| StructAlign.PaddingIs | framework/base/lua/struct.c:149-155 | Where it is a power of two, the padding is exactly the least one. |
| StructAlign.AndLowBits | framework/base/lua/struct.c:153 | Masking with a power of two less one is taking the remainder. |
| StructAlign.PowerOf2Exponent | framework/base/lua/struct.c:76 | Whatever passes the bit test of the `!` option is a power of two. |
| StructAlign.Pow2IsPowerOf2 | framework/base/lua/struct.c:76 | Every power of two passes the test. |
| CircularFifo.StepRefinesQueue | framework/base/circularfifo_memory_sequential_consistent.hpp:80-124 | Every atomic step of either thread keeps the ring consistent and is, seen from outside, a push at the tail, a pop of the oldest item, or nothing. |
| CircularFifo.EveryRunIsFifo | framework/base/circularfifo_memory_sequential_consistent.hpp:80-124 | In every interleaving: what has been popped followed by what is queued is what has been pushed, in order, and never more than Size items are queued in the Size + 1 slots. |
| CircularFifo.RefusalsAreJustified | framework/base/circularfifo_memory_sequential_consistent.hpp:93-119 | A push gives up exactly when the queue is full at that moment, a pop exactly when it is empty. |
| CircularFifo.PushCanFinish | framework/base/circularfifo_memory_sequential_consistent.hpp:80-101 | Wherever a run has got to, a push that begins can finish while the consumer stands still, and it appends its item unless the queue is full. |
| CircularFifo.PopCanFinish | framework/base/circularfifo_memory_sequential_consistent.hpp:106-124 | Likewise a pop, which takes the oldest item unless the queue is empty. |
| CircularFifo.NoConflict | framework/base/circularfifo_memory_sequential_consistent.hpp:95-121 | The slot about to be written is never the slot about to be read. |
| CircularFifo.RunKeepsInv | framework/base/circularfifo_memory_sequential_consistent.hpp:80-124 | The invariant holds after every interleaving. |
| CircularFifo.Increment | framework/base/circularfifo_memory_sequential_consistent.hpp:153-156 | The index wraps to 0 exactly at the end. |
| CircularFifo.Fifo.Push | framework/base/circularfifo_memory_sequential_consistent.hpp:80-101 | Called alone: appends unless full. |
| CircularFifo.Fifo.Pop | framework/base/circularfifo_memory_sequential_consistent.hpp:106-124 | Called alone: takes the oldest item unless empty. |
| CircularFifo.Fifo.WasEmpty | framework/base/circularfifo_memory_sequential_consistent.hpp:130-133 | Answers whether the queue is empty. |
| CircularFifo.Fifo.WasFull | framework/base/circularfifo_memory_sequential_consistent.hpp:139-143 | Answers whether the queue is full. |
| DoubleBufferQueue.EveryRunConserves | framework/base/double_buffer_queue.h:55-117 | Any threads may push, pop, check and swap, each call cut between its load of the index and its act: under every interleaving, what has been pushed is, as a multiset, what has been popped and what lies in the two buffers. |
| DoubleBufferQueue.StepConserves | framework/base/double_buffer_queue.h:55-117 | Each half of each call conserves the elements. |
| DoubleBufferQueue.OrderIsKeptIff | framework/base/double_buffer_queue.h:55-107 | From an ordered state with distinct messages, a step keeps popped, current and other buffer in the order of the pushes if and only if a push goes to the other buffer or finds it empty, a pop takes from the current buffer or finds one of the two empty, and a swap that moves the index finds one of the two empty. |
| DoubleBufferQueue.RunIsInOrderIff | framework/base/double_buffer_queue.h:55-107 | A whole run with distinct messages is in order at every moment if and only if every one of its steps is of that kind. |
| DoubleBufferQueue.KeepsOrderKeeps | framework/base/double_buffer_queue.h:55-107 | The same condition suffices for any messages. |
| DoubleBufferQueue.TidyRunsAreFifo | framework/base/double_buffer_queue.h:55-107 | With one consumer, one that swaps and then drains or one that pops first and swaps when it finds nothing, and no swap inside a push: messages are handled in the order of the pushes, in every run. |
| DoubleBufferQueue.StepKeepsTidy | framework/base/double_buffer_queue.h:55-117 | Either kind of consumer swaps only when the current buffer is empty and pops only from the current one, so each of its steps keeps the order. |
| DoubleBufferProgress.AllCanBeHandled | framework/base/double_buffer_queue.h:55-107 | Wherever a program of either kind of consumer has got to, with no swap inside a push, it can go on until every message pushed has been handled, in the order of the pushes. |
| DoubleBufferProgress.AnyMessagesCanBeHandled | framework/base/double_buffer_queue.h:55-107 | Any list of messages can be pushed and is handled in that order in some run of either program. |
| DoubleBufferQueue.OvertakingExample | framework/base/double_buffer_queue.h:73-81 | A swap between the two steps of a push lets a later message overtake an earlier one. |
| DoubleBufferQueue.Queue.Swap | framework/base/double_buffer_queue.h:55-67 | The two buffers change roles. |
| DoubleBufferQueue.Queue.Push | framework/base/double_buffer_queue.h:69-84 | Appends to the buffer that is not current. |
| DoubleBufferQueue.Queue.Pop | framework/base/double_buffer_queue.h:86-107 | Takes the oldest item of the current buffer, or none if it is empty. |
| DoubleBufferQueue.Async.PostMessage | framework/server/async.cpp:72-90 | Queues the message, or handles it at once in the loop's own thread. |
| DoubleBufferQueue.Async.Callback | framework/server/async.cpp:26-40 | Handles everything posted since the last callback, in order; what was left behind waits in the other buffer. |
| DoubleBufferQueue.Async.DrainCurrent | framework/server/async.cpp:28-40 | The loop empties the current buffer, in order, and nothing else. |
| ThreadPool.EveryRunIsSafe | framework/base/thread_pool.cpp:86-123 | In every interleaving of AddWork, Update and worker steps: tasks are handed out in the order of submission, each is run at most once and deleted at most once and only after running, and each is in exactly one of the queue, one worker's slot, or finished. |
| ThreadPool.StepKeepsInv | framework/base/thread_pool.cpp:99-123 | Every step of pool or worker keeps the invariant behind this. |
| ThreadPool.IdlePoolHasRunAll | framework/base/thread_pool.cpp:99-123 | When queue and slots are empty, every task submitted has been run exactly once and deleted exactly once. |
| ThreadPool.IdleWorkersTakeOldest | framework/base/thread_pool.cpp:103-121 | An update hands out the oldest tasks, as many as there are idle workers, to these in the order of the workers, and leaves the others queued. |
| ThreadPool.BusyWorkersKeep | framework/base/thread_pool.cpp:105 | An update disturbs no busy worker. |
| ThreadPool.UndisturbedUpdate | framework/base/thread_pool.cpp:99-123 | When nothing disturbs an update between taking and releasing the mutex, its steps do to the slots and the queue what Pool.Update does, hand out in queue order, and change nothing else. |
| ThreadPool.UpdateCanFinish | framework/base/thread_pool.cpp:99-123 | An update can always reach the release of the mutex. |
| ThreadPool.AllCanFinish | framework/base/thread_pool.cpp:99-123 | Wherever a run has got to, a pool with a worker can go on until every task submitted has been run once and deleted once. |
| ThreadPool.AnyTasksCanBeRun | framework/base/thread_pool.cpp:86-123 | Any tasks can be submitted and all be run. |
| ThreadPool.Pool.AddWork | framework/base/thread_pool.cpp:86-91 | Appends to the queue. |
| ThreadPool.Pool.Update | framework/base/thread_pool.cpp:99-123 | Fills the idle workers' slots, in the order of the workers, with the oldest tasks, until one of the two runs out. |
| ThreadPool.OnePlace | framework/base/worker.cpp:30-53 | A submitted task is waiting, or held by one worker only, or finished; a waiting one has neither run nor been deleted. |
| ThreadPool.EveryRunKeepsInv | framework/base/worker.cpp:30-53 | Worker loops cut into load, run, delete and clear keep the invariant under every interleaving. |
| NiuHand.FindCow | DN_application/DN_Account/dn_poker.cpp:324-488 | The type found is the best that hasCow grants to any duplicate-free claim, and the reported indices are themselves such a claim of that type. |
| NiuHand.HasCow | DN_application/DN_Account/dn_poker.cpp:490-580 | The answer for a claim, by the number of valid indices it begins with. |
| NiuHand.NoClaimBeatsBest | DN_application/DN_Account/dn_poker.cpp:490-580 | No duplicate-free claim is granted more than the best type of the hand. |
| NiuHand.BestTypeMeans | DN_application/DN_Account/dn_poker.cpp:403-416 | With jack, queen and king counting ten: a hand of no special type is worth nothing exactly when no three cards count a multiple of ten together, and otherwise the last digit of what all five count, ten for zero. |
| NiuHand.GrantedThree | DN_application/DN_Account/dn_poker.cpp:552-578 | A claim of three places is granted nothing exactly when the cards there do not count a multiple of ten, and otherwise the last digit of what all five count, ten for zero. |
| NiuHand.CourtCardsExample | DN_application/DN_Account/dn_poker.cpp:403-416 | King, ten, queen and two fives are worth ten. |
| NiuHand.ClaimIsSafeIff | DN_application/DN_Account/dn_poker.cpp:490-580 | A claim is granted at most what the hand is worth, on every hand, if and only if it is not one of three or four valid indices with a repeat. |
| NiuHand.FourRepeatedBeat | DN_application/DN_Account/dn_poker.cpp:540-551 | For every claim of four indices with a repeat, a hand of dealt cards on which it is granted four of a kind wrongly. |
| NiuHand.ThreeRepeatedBeat | DN_application/DN_Account/dn_poker.cpp:552-578 | For every claim of three indices with a repeat, a hand of dealt cards without a type on which it is granted one. |
| NiuHand.RepeatedIndexIsGranted | DN_application/DN_Account/dn_poker.cpp:493 | For instance, a claim that repeats one index is granted four of a kind. |
| NiuHand.CountCards | DN_application/DN_Account/dn_poker.cpp:330-350 | The counts decide the two five-card types and give the total of the points. |
| NiuHand.SortPokers | DN_application/DN_Account/dn_poker.cpp:366-373 | Any sort by value lists each card once. |
| NiuHand.SortedSiZha | DN_application/DN_Account/dn_poker.cpp:375-400 | After sorting, four equal cards are the first four or the last four. |
| NiuHand.FindSiZha | DN_application/DN_Account/dn_poker.cpp:375-400 | The scan with its early exit finds four of a kind exactly when there is one, and reports them. |
| NiuHand.FindTriple | DN_application/DN_Account/dn_poker.cpp:403-413 | The triple loop finds three cards whose points are a multiple of ten exactly when there are any. |
| NiuHand.ReportOthers | DN_application/DN_Account/dn_poker.cpp:419-439 | The other two indices are the two that the triple leaves. |
| Deck.OneDeck.constructor | DN_application/DN_Account/dn_poker.cpp:119-122 | A new deck is the full one, in order. |
| Deck.OneDeck.InitPoker | DN_application/DN_Account/dn_poker.cpp:170-197 | Builds the ascending deck of the range, position by position; the deck object then satisfies the invariant that it holds each card of its range outside its group exactly once. |
| Deck.OneDeck.InitPokerExceptGroup | DN_application/DN_Account/dn_poker.cpp:131-168 | Builds the same deck without the cards of the group. |
| Deck.NewDeckIsComplete | DN_application/DN_Account/dn_poker.cpp:131-168 | The deck built holds each card of the range outside the group exactly once, in ascending order. |
| Deck.DeckIsUnique | DN_application/DN_Account/dn_poker.cpp:131-168 | Order and membership leave only one deck. |
| Deck.TakesListedIff | DN_application/DN_Account/dn_poker.cpp:84-98 | A group takes away from a range exactly the cards it lists if and only if the range has no card of value 0, or the group has no null slot, or it lists all four zeros. |
| Deck.NullSlotRemovesZeros | DN_application/DN_Account/dn_poker.cpp:84-98 | For instance, from a range that starts at 0 one null slot removes cards that nobody listed. |
| Deck.OneDeck.Shuffle | DN_application/DN_Account/dn_poker.cpp:199-223 | Runs the given number of rounds with the values that rand() returns, and starts dealing anew. |
| Deck.OneDeck.ShuffleRound | DN_application/DN_Account/dn_poker.cpp:205-219 | One round of swaps in place. |
| Deck.ShufflePermutes | DN_application/DN_Account/dn_poker.cpp:199-223 | Whatever the draws and however many rounds, the deck keeps its cards. |
| Deck.PermutationKeepsDeck | DN_application/DN_Account/dn_poker.cpp:199-223 | So a shuffled deck again holds each card of the range outside the group exactly once. |
| Deck.EveryOrderIsReachable | DN_application/DN_Account/dn_poker.cpp:205-219 | Every arrangement can come out of one round. |
| Deck.ReachableIff | DN_application/DN_Account/dn_poker.cpp:199-223 | Any positive number of rounds can bring about exactly the arrangements of the cards. |
| Deck.EveryOrderAfterRounds | DN_application/DN_Account/dn_poker.cpp:199-223 | Whatever the rounds before, the last one can still bring about every arrangement. |
| Deck.OnlyRemaindersCount | DN_application/DN_Account/dn_poker.cpp:213 | Of the value drawn at a position, only the remainder by the number of positions left counts. |
| Deck.DrawsAreDetermined | DN_application/DN_Account/dn_poker.cpp:213 | Each arrangement of distinct cards comes from exactly one list of reduced draws, so a round favours none. |
| Deck.OneDeck.DealPoker | DN_application/DN_Account/dn_poker.cpp:225-237 | Deals the next five cards exactly when five are left; otherwise changes nothing. |
| Deck.OneDeck.DealPokers | DN_application/DN_Account/dn_poker.cpp:674-681 | Serves players in turn while five cards are left; the answer is true even for players who got nothing; all are served exactly when five times their number are left. |
| Deck.DealtAndUndealt | DN_application/DN_Account/dn_poker.cpp:225-237 | Dealt and undealt cards together are the deck. |
| Deck.OneDeck.HandsAreSafe | DN_application/DN_Account/dn_poker.cpp:225-237 | However the deck was built, shuffled and dealt: no card is in two hands or twice in one, none dealt is still in the deck, and dealt and undealt cards together are the deck. |
| ConnectionPool.Pool.NewConnection | framework/server/mysql_database.cpp:33-52 | Adds one free connection, indexed by its position, unless the limit is reached or the server refuses. |
| ConnectionPool.Pool.Connect | framework/server/mysql_database.cpp:54-80 | Fills the pool, giving up at the first connection that cannot be made. |
| ConnectionPool.Pool.Get | framework/server/mysql_database.cpp:83-121 | Leases a connection that was not leased, and nothing else; the leased connections are exactly those not marked free. |
| ConnectionPool.Pool.FindFree | framework/server/mysql_database.cpp:87-100 | Looks at each connection once in round-robin order and stops at the first free one. |
| ConnectionPool.Pool.Put | framework/server/mysql_database.cpp:123-129 | Frees exactly the connection given back. |
| ConnectionPool.ScanCovers | framework/server/mysql_database.cpp:87-100 | The scan of as many consecutive indices as there are connections fails exactly when all are leased. |
| ConnectionPool.RoundReaches | framework/server/mysql_database.cpp:89-93 | Any `count` consecutive indices modulo `count` reach every connection. |
| ConnectionPool.GetLeases | framework/server/redis_manager.cpp:386-417 | A leased connection is never leased again; the pool grows only when all are leased; the caller retries exactly when all are leased and no connection can be made. |
| ConnectionPool.GetIsRoundRobin | framework/server/redis_manager.cpp:390-403 | The connection reused is, of all the free ones, the one with the fewest connections ahead of it from the index on, going round; the index moves to it, and its slot is the index modulo the number of connections. |
| ConnectionPool.ScanFindsFirst | framework/server/redis_manager.cpp:392-403 | A scan stops at the first free connection in round-robin order. |
| ConnectionPool.PoolSizeIsPeak | framework/server/redis_manager.cpp:386-423 | Over any run of Get and Put, the pool is exactly as large as it was at first or as the greatest number of connections ever leased at once. |
| CsvRoundTrip.TableRoundTripIff | framework/base/csv_parser/csv_parser.cpp:96-136 | A written table reads back if and only if no field contains the line terminator or a NUL and, in plain mode, none contains the field separator, or, in enclosed mode, each enclosure character in a field has a backslash before it there and no field ends in a backslash. |
| CsvRoundTrip.LastRowUnterminated | framework/base/csv_parser/csv_parser.cpp:157-223 | Without its line terminator a last plain row loses its last field, while a last enclosed row comes back whole. |
| CsvRoundTrip.EnclosedRowIff | framework/base/csv_parser/csv_parser.cpp:225-332 | One enclosed row of NUL-free fields reads back if and only if all its fields are well escaped. |
| CsvRoundTrip.PlainRowIff | framework/base/csv_parser/csv_parser.cpp:157-223 | One plain row reads back if and only if its fields contain no separator and no NUL. |
| CsvRoundTrip.BareEnclosureCuts | framework/base/csv_parser/csv_parser.cpp:239-276 | An enclosure character without a backslash ends its field too early, and the row comes out differently. |
| CsvRoundTrip.InnerBackslashJoins | framework/base/csv_parser/csv_parser.cpp:248-256 | A backslash at the end of a field joins it to the next one. |
| CsvRoundTrip.LastBackslashHidesEnd | framework/base/csv_parser/csv_parser.cpp:284-327 | A backslash at the end of the last field hides its closing enclosure. |
| CsvFormat.LineCount | framework/base/csv_parser/csv_parser.cpp:430-486 | A terminated file gives one row for each line terminator. |
| CsvFormat.LinesAreFound | framework/base/csv_parser/csv_parser.cpp:430-486 | Without line terminators inside fields, every line is found again, whatever follows the table. |
| CsvFormat.CStringIsCut | framework/base/csv_parser/csv_parser.cpp:183-190 | A field taken as a C string is what comes before the first NUL, and the whole field exactly when it has none. |
| CsvParser.Parser.ReadSingleLine | framework/base/csv_parser/csv_parser.cpp:430-486 | Takes the next line with its terminator and a NUL, moves behind it, and knows whether more rows follow. |
| CsvParser.Parser.GetFieldsWithoutEnclosure | framework/base/csv_parser/csv_parser.cpp:157-223 | The loop gives the fields of the reference scan. |
| CsvParser.Parser.GetFieldsWithEnclosure | framework/base/csv_parser/csv_parser.cpp:225-332 | The loop with its state counter gives the fields of the reference scan, the whole line when no field is closed, and an unclosed last field. |
| CsvParser.Parser.GetRow | framework/base/csv_parser/csv_parser.cpp:96-136 | Gives the next row of the file and leaves the remaining ones to be read. |
| CsvParser.Parser.SkipLines | framework/base/csv_parser/csv_parser.cpp:143-155 | Drops that many rows, or all. |
| CsvParser.Parser.ReadAll | framework/base/csv_parser/csv_parser.cpp:96-136 | Repeated reading while there are more rows gives all the rows of the file and ends with none left. |
| CsvParser.ReadBack | framework/base/csv_parser/csv_parser.cpp:96-136 | Writing a table and reading it gives the table exactly when all its fields survive. |
| TinyString.TiXmlString.Reserve | framework/base/tinyxml/tinystr.cpp:37-46 | Never shrinks; keeps the text; a larger capacity copies the text to a new block. |
| TinyString.TiXmlString.Assign | framework/base/tinyxml/tinystr.cpp:49-65 | The text becomes the given one; reallocates exactly when it does not fit or would waste too much; a NUL follows the text; the shared empty block keeps its values. |
| TinyString.TiXmlString.Append | framework/base/tinyxml/tinystr.cpp:68-78 | The text grows by the given one, in the same block when it fits. |
| TinyString.Concat | framework/base/tinyxml/tinystr.cpp:81-88 | The sum is built without reallocation in a block of exactly its size, and the operands keep their texts. |
| TinyString.RunRefinesString | framework/base/tinyxml/tinystr.cpp:37-78 | Over any run of assign, append, reserve and clear, the text is that of an immutable string and fits in the capacity. |
| TinyString.AssignBoundsSlack | framework/base/tinyxml/tinystr.cpp:49-65 | After an assignment the capacity is at most 3 * (length + 8). |
| TinyString.AppendIsPaidFor | framework/base/tinyxml/tinystr.cpp:68-78 | What an append copies is paid for by the growth of the capacity. |
| TinyString.AppendsAreAmortised | framework/base/tinyxml/tinystr.cpp:68-78 | A run of appends copies in all at most what the capacity grew by, which stays below twice the length. |
| TinyString.AppendsFromEmpty | framework/base/tinyxml/tinystr.cpp:68-78 | From the empty string, all reallocations together copy at most the capacity, at most twice the length. |
| TinyString.TiXmlString.constructor | framework/base/tinyxml/tinystr.h:66-68 | An empty string uses the shared block. |
| TinyString.TiXmlString.Init | framework/base/tinyxml/tinystr.h:217-237 | A new block of the capacity asked for, or the shared one for none. |
| TinyString.TiXmlString.SetSize | framework/base/tinyxml/tinystr.h:207 | Sets the length and the NUL behind it and no other character. |
| TinyString.TiXmlString.Clear | framework/base/tinyxml/tinystr.h:178-186 | The string becomes empty and uses the shared block again. |

## Left out

- Sockets, timers, libuv, MySQL, Redis, ZooKeeper, RabbitMQ, Lua's C API, logging and signals: foreign calls. Whether a
  connection, an allocation or a service call succeeds is a parameter (`connects`, `allocates`, `accepts`).
- `TcpServer`, packet transcoding, generated protocol files, room and player logic, JSON, file monitoring: plumbing over
  code that is not part of this model.
- DependencyResolver.Resolver.TopSort: at most 256 services, the size of the source's arrays; more is undefined there.
  The map is visited in any order, of which the sorted order of std::map is one. A service is represented by the fixed set
  of names it depends on, so pointers shared between services are not modelled.
- DependencyResolver.Resolver.LoadInitSort: at most 32767 ordered services, because the source counts them in an int16_t.
- ServiceManager.Manager.Register: the assertion that aborts a debug build on a duplicate name is left out.
- GlobMatch.MatchPrefix: pattern and text are C strings without a NUL; the source reads the character one behind the
  pattern after a `*`, which the model takes never to be another `*`. Only ASCII letters fold.
- Iobuf.Iobuf.Spool: the buffered bytes stay below 2^31 / 1.2, where the source's int arithmetic does not overflow; the
  float multiplication is an exact one by 12 / 10, rounded down.
- RequestFraming.Connection.TryParse: whether parse_http_message accepts the request is a parameter; the content length
  header is left out.
- WebSocket.LongFrameAgreesIff: where header and payload length add up to more than an int holds, which is undefined in
  C, the sum wraps around.
- WebSocket.WebSocketWrite: payloads shorter than 2^31 bytes; the request handler is only a list of what was delivered.
- Sha1.Context.Update: at most 2^32 - 64 bytes at a time, beyond which the source's index arithmetic wraps; the round
  functions of both digests are a parameter.
- StructPack.ReadNumber: numbers in a format do not overflow an int, which is undefined in C.
- StructPack.RoundTrip: a 64-bit little-endian host. Floats are their IEEE 754 bytes; conversion between Lua numbers and
  floats, coercion of strings to numbers, and rounding of integers beyond 2^53 are left out. Integer sizes 0 and above 8
  (undefined shifts when signed) and `c0`, which needs the length packed before it, are outside the round trip.
- ThreadPool.AllCanFinish: says that the steps that run everything can be taken, not that they will be: the source waits
  on its condition variable without a predicate, so a worker may sleep through its notification. Waiting and waking are
  left out; a worker may look at its slot at any time.
- ThreadPool.Pool.Update: `Start`, `Stop` and the destructor are left out; each worker has one thread and each task is
  submitted once, since the pool deletes it.
- DoubleBufferQueue.TidyRunsAreFifo: the two consumer loops of async.cpp and rabbitmq_client.cpp; the swaps with which
  rabbitmq_client.cpp empties its queues at the end are covered by the lemmas for any threads only.
- NiuHand.FindCow: card values are not negative and the index arrays are preset to -1 by the caller, as DNGroupPoker does;
  the calls in compareGroupPoker that pass null arrays are left out. std::sort is any sort by value.
- Deck.OneDeck.InitPoker: the range must fit the 52 slots of the array; beyond it the source writes past its end.
- `DNGroupPoker::Confuse` (ends only with probability one), `CheckCowWithPokerInfo` (its table has no entry for value 13),
  card comparison and the random card generators.
- ConnectionPool.Pool.Get: calls are atomic, although the source changes the free flags without a lock; the endless retry
  is bounded by the list of attempts; the index does not wrap around.
- CsvParser.Parser.GetRow: the optional-enclosure mode is left out (its adjustments assume a quote at both ends), and
  separators are taken to be below 128, where plain char comparison is exact.
- TinyString.TiXmlString.Append: the argument does not alias the string itself; a reallocation would free it before it is
  copied.
- TinyString.TiXmlString.Assign: likewise; the destructor is left to the garbage collector.
- LinkedList.List.CloseExpired: the walk may unlink the node it stands on, not the one saved as next; freeing the node's
  memory is left out.
- Mongoose's CGI, DAV, authorization, directory listing, SSL and date handling.
