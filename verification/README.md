# smartc, its MD5 and its file cache: a verified model

smartc is an event-driven HTTP caching proxy; beside it the repository holds a streaming MD5 (`src/md5.c`) and a small
static server with an open-addressing file cache (`server/hashmap.c`). This project models the stateful core of all
three and proves what that core promises, as properties of every input and every run. `dafny verify dfyconfig.toml`
checks all of it.

| module | what it models |
|---|---|
| `Common` | optional results, joined pieces, division, the buffer sizes and the table sizes that several parts share |
| `Rfc1321`, `Md5`, `KnownAnswers` | RFC 1321 as a one-shot definition, pinned by digests of its test suite; the incremental state, the unrolled rounds, append and finish proved against it |
| `Delivery`, `WriteQueue` | what a client's write queue promises; the queue, its one-shot handler and its write interest |
| `Stream`, `RelaySpec`, `Relay` | a cache miss: what its callbacks do as functions on values, and the relay itself, with a sliding memory window, the swapout to disk and the client, one method per callback |
| `ClientRuns` | what the client of a miss gets over a whole run and when each end is closed, said of wire, queue and length |
| `RelayRuns` | the main loop over any inputs refines those functions; runs that go wrong |
| `Tiers`, `HitPath`, `HitRuns` | the cached copies of a reply; a cache hit served chunk by chunk from disk, or from a copy; hits on what a relay leaves behind |
| `Samples` | an ordinary reply, so that the failing runs are runs of something |
| `Chains`, `Hashtable`, `TableGrowth` | heap chains relinked in place, a growing table as a finite map, an iterator that survives its removals; when the table grows, and what that does to duplicate keys |
| `Primality`, `Probing`, `TableSizes`, `Hashmap` | why quadratic probing over prime sizes ends, and exactly when it does not; the file cache |
| `EventRing` | the kernel-style list with full frames; a ring without a sentinel as a FIFO queue |
| `FdTable`, `Timeouts` | the descriptor table, the epoll mirror, the timeout scan; which scan calls a descriptor, by the times that were set for it |
| `HttpHeader`, `HttpReply`, `HttpLaws` | finding the end of a header, taking its lines apart; the printer and the parser of replies, and their round trip; blanks, signs and letters spelled out |

Where the source updates something step by step, the model is a class or a method over arrays and linked objects, proved
against a specification function or a ghost sequence; what the source promises is then proved of that. Answers of the
operating system (how much a read or write took, an aio result, a new descriptor number) are parameters, so every
theorem holds for all of them.

## What the code does not do

Some expectations turn out false of the code. The model keeps the code as it is and proves exactly when they hold.

- Only a read of the origin that finds nothing asks epoll for readability (`smartc/http.c:716`), and the first read is a
  direct call. Arriving bytes reach the relay exactly if some read found nothing before
  (`RelayRuns.BytesReportedIff`, `Relay.Relay.BytesAreHeardIff`). If the origin's answer is there when it is first read,
  no second read is made while the connection stays up (`RelayRuns.OneReadOnly`), and the client of a longer reply never
  gets the rest (`RelayRuns.Stall`).
- An uncacheable reply that fills its window is not swapped out, and nothing registers `http_reply_read` again
  (`smartc/cache_file.c:373`, `smartc/http.c:1227-1230`): more of it can be read exactly if its window is not to be flushed
  (`RelayRuns.UncacheableStallsIff`). Of an uncacheable reply of more than a chunk the client gets no more than the chunk
  (`RelayRuns.FillWindow`).
- `cache->body_size` grows with every read after the first although it starts as the Content-Length. So
  - the second flush test of `http_reply_body_send` can only fire in the first read. A complete reply is on disk exactly if
    it is small or the window happens to be full at the last read (`Relay.Relay.DiskTheorem`); a reply of one chunk and one
    byte loses its last byte, whatever happens after its last read (`RelayRuns.LoseTail`);
  - a complete reply of known length leaves a file as long as its sizes say if and only if it came in one read
    (`Relay.Relay.FileTheorem`). A hit on it is finished exactly then; otherwise it is not, whatever tiers serve it, and one
    served from disk repeats a read of nothing at the end of the file for ever (`HitRuns.HitAfterMiss`,
    `HitPath.DeliverFromDisk`). `HitRuns.TailSample` is one such reply;
  - of a reply without a length the size is that of the body exactly if the first read stopped at the blank line and
    another one followed (`Relay.Relay.FileTheorem`); only then a hit from disk gives the client all of it, and a hit fails
    if process memory holds more than the first chunk but not all (`HitRuns.HitAfterDrain`).
- The assertion `cache->body_size == reply->body_in` at the end of a reply without a length holds only on that condition
  (`Relay.Relay.Failed`); it fails in `RelayRuns.Abort`.
- A short aio write breaks the window, and only a short one (`Relay.Relay.SwapoutDone`).
- The memory tier is a prefix of the stream on every run exactly if a whole read fits it or nothing does
  (`Tiers.KeptIsPrefixIff`).
- A hit that starts in shared memory or in process memory and runs out of it goes back to disk at the first chunk; it
  fails if and only if the client is already past that chunk, and it repeats an empty transfer for ever if only the other
  tier covers the position, because `http->stat` is not changed. `HitPath.Deliver` tells from the tiers, the file and the
  sizes how any hit ends and what the client then has; `HitRuns.GiveUp` and `HitRuns.Repeat` are two on whole files that
  do not end well.
- The `int` sum that bounds the first copy of `md5_append` overflows when the partial block and the data are 2^31 bytes or
  more together; wrapped around, it lets the copy leave the buffer exactly then (`Md5.CopyFitsIff`, `Md5.CopyOverflows`).
- Growing the chained table reverses the retrieval order of duplicate keys, as `hashtable.h` says (`Chains.DuplicatesFlip`):
  in a table of 53 a search gives the last value of a key up to the 35th insertion (`TableGrowth.SearchBefore`), and with
  the 36th the first value of a key inserted before it (`TableGrowth.SearchAfter`).
- The file cache grows at 0.65 of its slots, but its probes reach only half of them: 29 one-character file names in the
  smallest table of 53 slots are enough for one more add or lookup never to return, whether the machine's cast of too
  large a square yields INT_MIN or INT_MAX (`Hashmap.Clog`). This is an input of the module: the server itself asks for
  193 slots and prefixes every name with its root (`server/server.c:448`, `server/server.c:560`).
- A reply whose header does not arrive in a single read is given up: the parser refuses every proper prefix of a header
  (`HttpReply.IncompleteIsRefused`), `http_reply_read` takes the refusal for an error (`smartc/http.c:739-744`), and both
  connections end (`ClientRuns.PartOfHeader`).
- A header line without a blank behind the colon is entered under a name that keeps the colon
  (`HttpHeader.ColonStaysInName`); one that ends in a bare LF takes the next byte into its value (`HttpHeader.BareLineFeed`).
- `event_count` does not count the front event, and `event_exec_all` does not execute it.
- Setting events on a descriptor that does not exist breaks the epoll mirror, unless no event is asked for
  (`FdTable.Poller.SetEvent`); `assert(biggest_fd > 0)` fails exactly when descriptor 0 or 1 is closed as the biggest
  (`FdTable.Poller.Close`, `FdTable.CloseLast`); a timeout that its own handler re-arms is lost (`FdTable.Poller.Scan`,
  `Timeouts.CalledOnce`).

## Model

| member | source | states |
|---|---|---|
| `Rfc1321.CompressBlock` | src/md5.c:351-353 | one more full block is one more application of the block function, for every block-aligned message |
| `Rfc1321.Zeros` | src/md5.c:375-376 | the least padding that leaves 56 bytes mod 64 (RFC 1321, section 3.1) |
| `Rfc1321.Padding` | src/md5.c:363-378 | padding always ends on a block boundary and is 9 to 72 bytes long (sections 3.1 and 3.2) |
| `Md5.RotateLeftIsCircular` | src/md5.c:197-197 | the shift-and-or macro is the circular shift of the RFC for each amount that occurs |
| `Md5.SetIsOperation` | src/md5.c:203-205 | a SET line computes the RFC's operation |
| `Md5.StepIsSet` | src/md5.c:199-223 | one SET line on rotated registers is one indexed step of the RFC |
| `Md5.Table1` | src/md5.c:207-222 | word index, amount and constant of the sixteen lines of round 1 are the RFC's |
| `Md5.Table2` | src/md5.c:233-248 | the same for round 2 (5i + 1 mod 16) |
| `Md5.Table3` | src/md5.c:259-274 | the same for round 3 (3i + 5 mod 16) |
| `Md5.Table4` | src/md5.c:285-300 | the same for round 4 (7i mod 16) |
| `Md5.Round1` | src/md5.c:199-223 | the unrolled round equals RFC steps 0 to 15, for every state and block; their values on known messages are `KnownAnswers` |
| `Md5.Round2` | src/md5.c:225-249 | steps 16 to 31 |
| `Md5.Round3` | src/md5.c:251-275 | steps 32 to 47 |
| `Md5.Round4` | src/md5.c:277-301 | steps 48 to 63 |
| `Md5.Decode` | src/md5.c:152-195 | the words handed to the rounds are the block's bytes, low-order byte first |
| `Md5.State.Process` | src/md5.c:131-310 | one call folds one block into the registers |
| `Md5.State.constructor` | src/md5.c:313-320 | the state of the empty message |
| `Md5.State.AddLength` | src/md5.c:333-337 | the two count words go on holding the bit length mod 2^64, carry included |
| `Md5.CountCarries` | src/md5.c:333-337 | the carry test on the low word is the carry of the 64-bit sum, for all lengths |
| `Md5.State.Offset` | src/md5.c:327-327 | the low count word gives the fill of the partial block |
| `Md5.State.Partial` | src/md5.c:339-349 | the initial partial block is filled, and folded exactly when it is full |
| `Md5.State.FullBlocks` | src/md5.c:351-353 | the loop folds exactly the full blocks, less than one block is left |
| `Md5.State.Rest` | src/md5.c:351-357 | full blocks folded, tail bytes buffered |
| `Md5.State.AppendBytes` | src/md5.c:339-357 | the registers are the fold of the full blocks of the message so far, the buffer holds the rest |
| `Md5.State.Append` | src/md5.c:322-358 | every append whose int sum does not overflow extends the message by its data and keeps the invariant |
| `Md5.CopyFitsIff` | src/md5.c:339-345 | the first copy stays inside the buffer if and only if the int sum does not overflow |
| `Md5.CopyOverflows` | src/md5.c:341-341 | one buffered byte and 2^31 - 1 new ones: all of them are copied |
| `Md5.State.SavedLength` | src/md5.c:372-374 | the eight length bytes are those of the 64-bit bit length |
| `Md5.State.PadBytes` | src/md5.c:375-376 | the wrapped-around pad count is 0x80 and the RFC's number of zeros |
| `Md5.PadCount` | src/md5.c:375-376 | (55 - n) & 63 is that number of zeros, for every n |
| `Md5.CountByte` | src/md5.c:373-374 | byte i of the count words is byte i of the 64-bit length |
| `Md5.State.Output` | src/md5.c:379-380 | the digest bytes, low-order byte of each register first |
| `Md5.State.Finish` | src/md5.c:360-381 | finish returns the RFC digest of the whole message, which `KnownAnswers.EmptyDigest`, `AbcDigest` and `DigitsDigest` give as bytes |
| `Md5.HashPieces` | src/md5.c:312-381 | every way of cutting a message into appends gives the one-shot digest, as long as no int sum overflows |
| `KnownAnswers.EmptyDigest` | src/md5.c:131-381 | the sixteen bytes of the digest of the empty message (RFC 1321, appendix A.5) |
| `KnownAnswers.AbcDigest` | src/md5.c:131-381 | the digest of "abc", byte for byte |
| `KnownAnswers.DigitsDigest` | src/md5.c:131-381 | the digest of eighty digits, a message of two blocks |
| `KnownAnswers.EmptyRound1` | src/md5.c:199-223 | the registers after round 1 of the empty message, as numbers |
| `KnownAnswers.AbcRound2` | src/md5.c:225-249 | the registers after round 2 of "abc", as numbers |
| `KnownAnswers.FirstRound3` | src/md5.c:251-275 | the registers after round 3 of the first block of the eighty digits |
| `KnownAnswers.SecondRound4` | src/md5.c:277-301 | the registers after round 4 of their second block |
| `KnownAnswers.LengthIsNumber` | src/md5.c:372-374 | for every length, the last eight bytes of the padding are the digits to the base 256 of the length in bits mod 2^64 |
| `Delivery.WireIsPrefix` | smartc/sock_io.c:308-355 | what is on the wire is a prefix of the queued buffers in order |
| `Delivery.EnqueueKeepsWire` | smartc/sock_io.c:126-155 | queueing writes nothing |
| `Delivery.SendExtendsWire` | smartc/sock_io.c:317-341 | a partial write appends the next bytes of the front buffer |
| `Delivery.ReportKeepsWire` | smartc/http.c:1242-1268 | popping a delivered buffer changes nothing on the wire |
| `WriteQueue.Descriptor.constructor` | smartc/sock_io.c:240-254 | a new descriptor has an empty queue and nothing on the wire |
| `WriteQueue.Descriptor.WriteQueued` | smartc/sock_io.c:126-152 | the copy goes to the end of the queue; handler and write interest are set, no wakeup is lost |
| `WriteQueue.Descriptor.HandleFront` | smartc/sock_io.c:308-355 | progress on the front buffer; its callback fires exactly when it is out whole, with its full size, or on an error |
| `WriteQueue.Descriptor.HandleDirect` | smartc/sock_io.c:308-355 | the same for a write outside the queue |
| `WriteQueue.Descriptor.WriteDirect` | smartc/sock_io.c:126-155 | a direct write puts out what the socket takes at once and keeps the rest armed |
| `WriteQueue.Descriptor.RunEvent` | smartc/sock_io.c:73-92 | an empty queue drops the interest; a pending front is never started twice |
| `WriteQueue.Descriptor.Writable` | smartc/sock_epoll.c:144-169 | a handler is cleared before it is called, and the queue is ready again whenever no callback is due |
| `WriteQueue.Descriptor.NoLostWakeup` | smartc/sock_io.c:126-155 | whenever something waits, write interest is set and a handler is registered, and the next write offers what is left of the first buffer not yet out |
| `WriteQueue.Descriptor.Pop` | smartc/http.c:1256-1302 | the completion callback pops the delivered buffer, once |
| `WriteQueue.Descriptor.Rearm` | smartc/http.c:1295-1302 | after the pop the queue is armed again |
| `WriteQueue.Descriptor.Drop` | smartc/http.c:1256-1259 | on an error the front event leaves the queue, its buffer stays undelivered |
| `WriteQueue.Descriptor.Close` | smartc/sock_io.c:199-210 | closing leaves the wire as it is and no handler behind |
| `Stream.SizeGrows` | smartc/http.c:754-781 | body_size of the cache starts as the Content-Length, or -1, and every later read adds its length, from 0 on if it was negative |
| `Stream.LooksCompleteOnlyAtFirst` | smartc/http.c:1227-1236 | the second flush test fires if and only if the first read held the whole reply |
| `Stream.SmallStays` | smartc/http.c:1213-1239 | a reply of at most one chunk stays in the window until it is complete, then all of it is flushed |
| `Stream.WholeReplyOnDisk` | smartc/http.c:776-781 | a complete reply is entirely on disk if and only if it is small or the window was full at its last read, for every way of cutting it into reads |
| `Stream.FullReads` | smartc/http.c:1227-1236 | any reply of one byte over a chunk, read in full buffers, is flushed once, when the chunk is full |
| `Stream.TailIsLost` | smartc/http.c:1227-1236 | such a reply has one byte less on disk than was read |
| `Stream.FileIsShort` | smartc/http.c:776-781 | what is on disk of a complete reply is as long as body_size says if and only if it came in one read |
| `Stream.CompleteFlushes` | smartc/http.c:1227-1236 | a complete reply of which nothing was swapped out wants its window flushed |
| `Stream.FollowsFirst` | smartc/http.c:991-1031 | the first read, once flushed or not, starts a run of reads |
| `Stream.FollowsNext` | smartc/http.c:776-802 | one more read and its flush decision extend the run by exactly that read |
| `Stream.FollowsDisk` | smartc/http.c:1227-1236 | the same theorem for a stream that is what its reads make of it |
| `Relay.Relay.constructor` | smartc/http.c:650-671 | the request is out, nothing has been read, and the origin is not watched for reading |
| `Relay.Relay.Swapout` | smartc/cache_file.c:369-397 | the whole window is written at its low end; nothing for an uncacheable reply |
| `Relay.Relay.WantsSwapout` | smartc/http.c:1227-1236 | the tests on the counters are the flush tests on the stream |
| `Relay.Relay.QueueRest` | smartc/http.c:1213-1226 | exactly origin bytes from low + submit on are queued to the client |
| `Relay.Relay.BodySend` | smartc/http.c:1213-1239 | the bytes go to the end of the queue, then either the window is being swapped out or http_reply_read is registered, or neither; nothing else changes |
| `Relay.Relay.HeaderSendDone` | smartc/http.c:991-1031 | the header is out, the body read so far is handed over, and what follows is registered; an error closes both ends |
| `Relay.Relay.MemCacheAppend` | smartc/cache_file.c:752-773 | the memory tier takes a whole read or nothing |
| `Relay.Relay.MemStringAppend` | smartc/cache_file.c:343-367 | the window grows by the bytes read, high with it |
| `RelaySpec.FoundFits` | smartc/http.c:902-907 | a header that the parser finds lies within the bytes read |
| `Relay.Relay.Examine` | smartc/http.c:738-748 | what is made of the first read is what the parser makes of its bytes |
| `Relay.Relay.FirstData` | smartc/http.c:735-803 | the first data sets counters, window and stream and starts the header, or the relay ends, as the parser says of those bytes |
| `Relay.Relay.LoadReply` | smartc/http.c:753-794 | all of that up to the header: sizes, window, tiers, and the origin closed if the reply is complete |
| `Relay.Relay.TakeHeaders` | smartc/http.c:753-760 | the counters agree with the stream after the headers |
| `Relay.Relay.TakeBytes` | smartc/http.c:765-786 | the first bytes are in the window and, when cacheable, in the memory tier |
| `Relay.Relay.CloseIfComplete` | smartc/http.c:788-794 | the origin is closed exactly on a complete cacheable reply of known length |
| `Relay.Relay.HeaderSend` | smartc/http.c:955-989 | the header is written directly, before any body buffer is queued |
| `Relay.Relay.MoreData` | smartc/http.c:776-802 | a later read extends the stream and the client's queue by the same bytes, closes the origin of a complete cacheable reply, and swaps out, registers or stops |
| `Relay.Relay.AddSizes` | smartc/http.c:776-781 | the inflated body_size as a function of the stream |
| `Relay.Relay.HttpReplyRead` | smartc/http.c:674-803 | every outcome of a read keeps the invariant and leads to the one state that follows from it; finding nothing, and only that, asks for read interest |
| `Relay.Relay.Attended` | smartc/http.c:788-802 | whenever http_reply_read runs for a reply the client is still open, uncacheable replies included |
| `Relay.Relay.ServerReadable` | smartc/sock_epoll.c:144-159 | a report reaches http_reply_read exactly if the origin is watched for it and the handler is registered, else nothing changes; the slot is cleared first |
| `Relay.Relay.Again` | smartc/http.c:714-718 | the branch that asks for readability and registers the handler |
| `Relay.Relay.Ended` | smartc/http.c:721-734 | end of file closes the origin exactly when enough has come in |
| `Relay.Relay.Failed` | smartc/http.c:697-713 | the body size assertion fails if and only if the stated condition on the first read does not hold |
| `Relay.Relay.Drain` | smartc/http.c:699-702 | what is left in the window is swapped out exactly if there is anything and the reply is cacheable |
| `Relay.Relay.SwapoutDone` | smartc/cache_file.c:594-638 | a whole write moves the window, puts all of the stream on disk and registers the next read; high - low equals the buffer length if and only if the write was whole |
| `Relay.Relay.MoveWindow` | smartc/cache_file.c:594-638 | the window after n written bytes |
| `Relay.Relay.BodySendDone` | smartc/http.c:1242-1302 | a reported buffer leaves the queue; the client is closed exactly when the buffers reported hold at least Content-Length bytes; on an error the event is dropped and both ends are closed |
| `Relay.Relay.ClientWritable` | smartc/sock_epoll.c:160-168 | a write moves the header or the front buffer on; what follows when it is out whole; nothing else changes |
| `Relay.Relay.ClientAwaited` | smartc/sock_io.c:308-355 | an open client that has not got all it was handed is watched for writing, with a handler registered |
| `Relay.Relay.StreamTheorem` | smartc/http.c:1213-1239 | disk then window are exactly the reads joined; what the client has, exactly, and that it is a prefix of the header followed by the body as the origin sent it |
| `Relay.Relay.DiskTheorem` | smartc/http.c:1227-1236 | a complete cacheable reply at rest is entirely on the relay's disk if and only if it is small or the window was full at its last read |
| `Relay.Relay.FileTheorem` | smartc/http.c:776-781 | when the file that a relay leaves is as long as cache->body_size says, with and without a length |
| `Relay.Relay.MemoryTheorem` | smartc/cache_file.c:752-773 | the memory tier of a relay is a prefix of the reads, all of it up to the per-object limit |
| `Relay.Relay.ReadsOnIff` | smartc/http.c:1227-1238 | while the origin is open, http_reply_read is registered exactly if no swapout runs (cacheable) or the window is not to be flushed (uncacheable) |
| `Relay.Relay.BytesAreHeardIff` | smartc/http.c:714-718 | epoll reports arriving bytes if and only if some read found nothing |
| `RelayRuns.Start` | smartc/http.c:650-671 | the first read is made directly, before epoll watches for anything, and leads to the state specified |
| `RelayRuns.Dispatch` | smartc/sock_epoll.c:138-169 | one input leads to the one state that the specification says |
| `RelayRuns.MainLoop` | smartc/http.c:674-803 | over any interleaving, what is heard, read, written, queued and closed follows from the inputs alone; disk and window are the reads joined, the client has a prefix of header and body; if no write failed, it is closed if and only if Content-Length bytes were reported |
| `RelayRuns.Served` | smartc/http.c:1269-1279 | at the end of every run in which no write failed, the client is closed if and only if buffers of at least Content-Length bytes were reported, and then the header and that many body bytes are on its wire |
| `ClientRuns.ClosedIff` | smartc/http.c:1269-1279 | the same of the specified run, said of wire, queue and length only |
| `ClientRuns.AlwaysOrderly` | smartc/http.c:1213-1239 | in every run the queued buffers joined are the body as far as it was read, and nothing is queued before the header is out |
| `ClientRuns.WriteTakes` | smartc/sock_io.c:308-355 | in every run a write of n bytes extends the wire by exactly the next n bytes of the header followed by the body |
| `ClientRuns.CanDrain` | smartc/http.c:1292-1302 | from every reachable state a client that takes what it is offered is closed or gets everything that was read |
| `ClientRuns.FailureEnds` | smartc/http.c:1261-1267 | a failed write closes both ends for good and leaves the wire as it is |
| `ClientRuns.PartOfHeader` | smartc/http.c:739-744 | a first read of only a part of a printed header ends both connections, whatever follows |
| `ClientRuns.OriginClosedIff` | smartc/http.c:788-794 | unless something fails or ends, the origin is closed if and only if a cacheable reply has come in up to its length |
| `ClientRuns.ErrorDrains` | smartc/http.c:697-713 | after a read error and the swapout it starts, everything is on disk if and only if the reply is cacheable without a length, or it was there before |
| `RelayRuns.BytesReportedIff` | smartc/http.c:714-718 | in every run, arriving bytes are reported at its end if and only if the first or a heard read found nothing |
| `RelayRuns.HeardIff` | smartc/sock_epoll.c:128-159 | a registered http_reply_read learns of a dead origin if and only if some read found nothing before, or the hang-up is reported and the request left the origin watched for writing |
| `RelayRuns.UnwatchedIsDeaf` | smartc/http.c:650-671 | if the request left the origin unwatched, not even a hang-up is heard once the first read found something |
| `RelayRuns.OneReadOnly` | smartc/http.c:670-671 | a run whose first read finds something, without hang-ups, takes no other read |
| `RelayRuns.Unheard` | smartc/sock_epoll.c:144-159 | an input that is not heard changes nothing of what was read |
| `RelayRuns.FoundPrinted` | smartc/http.c:841-925 | what the relay finds in a first read that begins with a printed header |
| `RelayRuns.Stall` | smartc/http.c:670-671 | any printed reply longer than its first read, if it was there at the first read: nothing else of it is read or sent, whatever the inputs |
| `RelayRuns.Filling` | smartc/http.c:1213-1239 | where the relay of any reply of more than a chunk stands after each full buffer |
| `RelayRuns.StaysAtRest` | smartc/cache_file.c:638-638 | with the origin closed and no swapout running, no input changes what is on disk |
| `RelayRuns.LosesTail` | smartc/http.c:1227-1236 | the inputs after which the last byte of such a reply is missing on disk, whatever follows |
| `RelayRuns.LoseTail` | smartc/http.c:1227-1236 | a relay given a printed reply of one byte over a chunk by whole reads and writes never has its last byte on disk, whatever follows |
| `RelayRuns.AlwaysSound` | smartc/http.c:1227-1238 | in every run, an uncacheable reply with an open origin awaits a read exactly if its window is not to be flushed |
| `RelayRuns.StalledForGood` | smartc/cache_file.c:369-374 | once neither a read nor a swapout is awaited, none ever is |
| `RelayRuns.UncacheableStallsIff` | smartc/http.c:1227-1238 | more of an uncacheable reply can be read if and only if its window is not to be flushed |
| `RelayRuns.FillWindow` | smartc/http.c:1227-1230 | any printed uncacheable reply of more than a chunk, in full buffers: the client never gets more than that chunk, whatever follows |
| `RelayRuns.Abort` | smartc/http.c:697-704 | any printed reply without a length whose first read goes past the header fails the assertion on the body size at a read error |
| `Tiers.FindPiece` | smartc/cache_file.c:683-712 | a piece containing the position is found if there is one |
| `Tiers.AppendPiece` | smartc/cache_file.c:658-681 | a piece is added or refused; the use of shared memory never exceeds its limit |
| `Tiers.KeptIsPrefix` | smartc/cache_file.c:752-773 | with room for a whole read the memory tier is a prefix of the stream, all of it up to the per-object limit |
| `Tiers.KeptIsPrefixIff` | smartc/cache_file.c:752-773 | on every run if and only if a read fits or nothing ever does |
| `HitPath.Hit.constructor` | smartc/http.c:939-953 | a hit at its start, for any file, any tiers and any sizes |
| `HitPath.Hit.HeaderSent` | smartc/http.c:991-1031 | the tier chosen: a shared piece, else memory, else disk |
| `HitPath.Hit.BodyRead` | smartc/http.c:1065-1107 | the next chunk is mapped unless one is, and the read asks for what it lacks |
| `HitPath.Hit.BodySend` | smartc/http.c:1166-1211 | which bytes of which source are sent; from a map, the transfer fails exactly past the chunk |
| `HitPath.Hit.CopyIn` | smartc/http.c:1109-1135 | after a short read the map holds stored bytes from low on |
| `HitPath.Hit.ReadDone` | smartc/http.c:1109-1164 | a short read is repeated for the rest, at the end of the file for ever; a complete chunk moves low by its size |
| `HitPath.Hit.OfferChunk` | smartc/http.c:1142-1153 | a piece offered to the shared tier holds exactly stored bytes low to high |
| `HitPath.Hit.Put` | smartc/sock_io.c:357-402 | the bytes the socket takes are the next body bytes in order |
| `HitPath.Hit.Progress` | smartc/sock_io.c:357-402 | partial transfers add up; where a finished one leads, and that a stuck one repeats for ever |
| `HitPath.Hit.SendDone` | smartc/http.c:1242-1291 | the end, the next chunk, or another tier |
| `HitPath.Hit.NextTier` | smartc/http.c:1284-1291 | another tier is looked for, http->stat stays |
| `HitPath.FromDiskEnds` | smartc/http.c:1093-1101 | going on chunk by chunk ends exactly if the file is as long as the sizes say |
| `HitPath.FromDiskStarves` | smartc/http.c:1281-1283 | one that never ends has sent whole chunks, and the next one is not all in the file |
| `HitPath.DeliverFromDisk` | smartc/http.c:1065-1189 | a pure-disk hit ends with the whole body in order if the file is as long as the sizes say, and else never, for any short reads and partial transfers that make progress |
| `HitPath.GapBehind` | smartc/cache_file.c:699-706 | a cached piece is passed as a whole |
| `HitPath.Deliver` | smartc/http.c:1065-1291 | every hit ends as its tiers, its file and its sizes foretell, and with exactly that much of the body sent: finished, given up, or an empty transfer or read for ever |
| `HitRuns.HitAfterMiss` | smartc/http.c:384-384 | a hit on a stored reply of known length is finished if and only if the reply came in one read |
| `HitRuns.HitAfterDrain` | smartc/http.c:697-711 | a hit on a stored reply without a length: when it is finished, and when the client has the whole body |
| `HitRuns.FateOfWhole` | smartc/http.c:1242-1291 | with a long enough file only a memory tier that ends behind the first chunk does harm |
| `HitRuns.TailSample` | smartc/http.c:1136-1139 | a reply stored and asked for again whose hit waits for ever |
| `HitRuns.GiveUp` | smartc/http.c:1176-1182 | a hit on any printed reply with two chunks in shared memory and the third on disk ends given up, with two chunks sent |
| `HitRuns.Repeat` | smartc/http.c:1284-1291 | a hit on any printed reply whose shared piece ends inside the memory prefix repeats an empty transfer |
| `Samples.SampleIsPrintable` | smartc/http.c:1033-1063 | an ordinary head, with and without a length, is one that the printer prints and the parser reads |
| `Chains.LimitGrows` | smartc/hashtable.c:46-58 | every growth raises the load limit |
| `Chains.LimitIsLeast` | smartc/hashtable.c:82-82 | the load limit is the least number that is no less than 0.65 of the size |
| `Chains.NoRepeat` | smartc/hashtable.c:241-247 | a terminated chain visits no entry twice |
| `Chains.RehashedNext` | smartc/hashtable.c:152-168 | one relinked entry keeps each new chain the reverse of what moved into it |
| `Chains.RehashedTotal` | smartc/hashtable.c:152-168 | relinking loses and doubles no entry |
| `Chains.RehashedMembers` | smartc/hashtable.c:152-168 | an entry is in new chain j exactly if it was in the table and its hash says j |
| `Chains.RehashedKeeps` | smartc/hashtable.c:152-168 | entries, their number and the bucket discipline survive |
| `Chains.DuplicatesFlip` | smartc/hashtable.h:163-167 | growing reverses the retrieval order of each key's entries |
| `Chains.ReverseAt` | smartc/hashtable.c:160-167 | the reverse order, position by position |
| `Hashtable.Relink` | smartc/hashtable.c:141-168 | the in-place loops leave the old chains concatenated, filtered by bucket and reversed |
| `Hashtable.MoveChain` | smartc/hashtable.c:156-165 | one bucket is emptied into the new array |
| `Hashtable.MoveHead` | smartc/hashtable.c:157-164 | one entry is relinked |
| `Hashtable.CreateHashtable` | smartc/hashtable.c:60-84 | null exactly for an unreasonable size, else an empty map with more buckets than asked for |
| `Hashtable.HashTable.constructor` | smartc/hashtable.c:60-84 | the first prime above the size, an empty table |
| `Hashtable.HashTable.Expand` | smartc/hashtable.c:141-196 | growth to the next prime, refused exactly at the last one |
| `Hashtable.HashTable.MakeRoom` | smartc/hashtable.c:205-220 | the entries are relinked into the next size exactly if the new count is above the limit and the last size is not reached; then the count is within it again |
| `Hashtable.HashTable.AddEntry` | smartc/hashtable.c:221-229 | the new entry is the first of its bucket's chain |
| `Hashtable.HashTable.Insert` | smartc/hashtable.c:205-230 | a fresh key extends the map; growth happens exactly above the limit |
| `TableGrowth.Fill` | smartc/hashtable.c:205-231 | after any n insertions into a new table its size is the first, from its own on, of which 0.65 is no less than n, rounded up; until it grows, a key's entries are in the order newest first |
| `TableGrowth.InsertNext` | smartc/hashtable.c:205-231 | one more insertion: when the table grows, and what that does to the order of every key's entries |
| `TableGrowth.SearchBefore` | smartc/hashtable.c:205-249 | up to 35 insertions leave a table of 53 as it is, and a search gives the last value inserted for the key |
| `TableGrowth.SearchAfter` | smartc/hashtable.c:205-249 | the 36th makes it one of 97; a search then gives the first value inserted before, or the new one |
| `TableGrowth.GrownIsOldest` | smartc/hashtable.c:156-167 | growth turns every key's entries from newest first to oldest first |
| `Hashtable.HashTable.Walk` | smartc/hashtable.c:234-249 | the first entry of a key and the entry before it |
| `Hashtable.HashTable.Search` | smartc/hashtable.c:233-249 | the map's answer; with duplicates, the first entry's |
| `Hashtable.HashTable.Change` | smartc/hashtable.c:469-489 | the value of the first entry of the key and no other changes |
| `Hashtable.HashTable.Unlink` | smartc/hashtable.c:263-280 | exactly one entry leaves its chain, whether at the head or not |
| `Hashtable.HashTable.Remove` | smartc/hashtable.c:252-283 | the map without the key, and the value it had |
| `Hashtable.ModelRemoves` | smartc/hashtable.c:252-283 | without its entry a key is gone from the map |
| `Hashtable.ModelAdds` | smartc/hashtable.c:205-230 | a fresh entry extends the map |
| `Hashtable.Perform` | smartc/hashtable.c:205-283 | each operation acts on the table as on the map |
| `Hashtable.Run` | smartc/hashtable.c:205-283 | every run of fresh inserts, searches, changes and removes refines a finite map, the answers of searches, changes and removes included, with any number of expansions |
| `Hashtable.EntriesDiffer` | smartc/hashtable.c:317-341 | no entry is in two chains or twice in one |
| `Hashtable.Visit` | smartc/hashtable.c:317-394 | advancing to the end visits every entry exactly once |
| `Hashtable.Iterator.constructor` | smartc/hashtable.c:317-341 | every entry is still to come |
| `Hashtable.Iterator.Seek` | smartc/hashtable.c:328-340 | empty buckets are skipped |
| `Hashtable.Iterator.Step` | smartc/hashtable.c:360-394 | the move along the chain or to the next bucket |
| `Hashtable.Iterator.Advance` | smartc/hashtable.c:359-394 | the sequence still to visit loses its first entry, no other |
| `Hashtable.Iterator.UnlinkCurrent` | smartc/hashtable.c:404-418 | the current entry leaves its chain, its next pointer still says what follows |
| `Hashtable.Iterator.Remove` | smartc/hashtable.c:404-430 | exactly the current entry goes, the iterator stays well formed and stands on the next one |
| `Hashtable.Iterator.Search` | smartc/hashtable.c:434-460 | the iterator moves to the first entry of a key, or stays |
| `Hashtable.Drain` | smartc/hashtable.c:404-430 | draining by remove ends with an empty table and entrycount 0 |
| `Primality.NoZeroDivisors` | server/hashmap.c:9-13 | a product of two numbers below a prime is no multiple of it |
| `Primality.TrialDivision` | server/hashmap.c:9-13 | no divisor up to the square root means prime |
| `TableSizes.SmallSizePrime` | server/hashmap.c:9-13 | the table sizes up to 49157 are prime |
| `TableSizes.NextSize` | server/hashmap.c:9-16 | a rehash neither reaches the growth threshold nor fills half of the next table |
| `Probing.SquaresDiffer` | server/hashmap.c:126-126 | two offsets below half an odd prime never share a square modulo it |
| `Probing.ProbesDiffer` | server/hashmap.c:120-127 | probes on the same side of a 32-bit wrap never meet |
| `Probing.ProbeWraps` | server/hashmap.c:120-126 | for every offset with an int square, the slot as a plain sum, from which the 32-bit word is taken off when it is passed |
| `Probing.CountSlots` | server/hashmap.c:120-127 | the first (p + 1) / 2 probes are that many different slots |
| `Probing.ProbesRepeat` | server/hashmap.c:120-127 | later probes only revisit those slots |
| `Probing.SomeProbeIsFree` | server/hashmap.c:120-127 | fewer taken slots than different probes leave one of them free |
| `Probing.SomeProbeIsFreeEvenWrapped` | server/hashmap.c:120-127 | half as many taken slots do so for every code, wrapping or not |
| `Hashmap.HashOf` | server/hashmap.c:51-58 | a hash is never the zero that marks a free slot |
| `Hashmap.StrHash` | server/hashmap.c:51-58 | the loop over signed characters with 32-bit wrap-around |
| `Hashmap.KnownHashes` | server/hashmap.c:51-58 | four hashes as numbers, one with a character above 127 and one that wraps around |
| `Hashmap.BlockedForEver` | server/hashmap.c:120-127 | the offset wraps around, so the loop never ends if and only if the probes up to the first square that is no int are taken |
| `Hashmap.RoomyEnds` | server/hashmap.c:116-127 | a condition on count and code under which the probe loop ends within half the size of the table |
| `Hashmap.BlockedExactly` | server/hashmap.c:120-127 | without a wrap the loop never ends if and only if the first (size + 1) / 2 probes and the one past the last square are taken |
| `Hashmap.StoredIsFound` | server/hashmap.c:145-171 | a stored path is met before any free slot |
| `Hashmap.PlaceKeepsSettled` | server/hashmap.c:129-140 | every stored record has all earlier slots of its probe path taken |
| `Hashmap.HashMap.constructor` | server/hashmap.c:61-83 | the first size above the scaled capacity; that many records need no growth |
| `Hashmap.HashMap.Walk` | server/hashmap.c:120-127 | finds the path exactly if it is stored, else the first free slot of its path, else never ends; with the number of probes |
| `Hashmap.HashMap.WalkIsShort` | server/hashmap.c:120-127 | with room for one more path a search looks at no more than half the slots |
| `Hashmap.HashMap.Get` | server/hashmap.c:145-171 | the stored item, or a miss, or no return, each under its exact condition |
| `Hashmap.HashMap.Place` | server/hashmap.c:116-142 | the first content added for a path stays; the record goes to its first free probe |
| `Hashmap.HashMap.Add` | server/hashmap.c:103-143 | every result under its exact condition, growth included; growth that is sure to succeed does |
| `Hashmap.HashMap.AddAgain` | server/hashmap.c:37-44 | the adds inside a rehash never grow again, and go to the first free probe |
| `Hashmap.FilledIsPut` | server/hashmap.c:120-140 | where the probe loop puts a record is its first free probe |
| `Hashmap.HashMap.Rehash` | server/hashmap.c:37-44 | the new table holds the same paths with the same items, each at its first free probe in turn; it never ends exactly if one finds none |
| `Hashmap.HashMap.Grow` | server/hashmap.c:19-48 | the next size with the same model, refused exactly at the last size |
| `Hashmap.HashMap.GrowthIsReady` | server/hashmap.c:19-48 | growth into sizes up to 49157 always succeeds while no code wraps |
| `Hashmap.FirstItemStays` | server/hashmap.c:103-143 | after a run of adds each path has the first item added for it |
| `Hashmap.FirstWinsGrows` | server/hashmap.c:103-143 | what a part of a run leaves is no larger, and smaller before a new path |
| `Hashmap.Load` | server/hashmap.c:103-143 | any run of adds on a new table, with any growths, leaves that map or stops at an add that the table refuses: the largest table is crowded, or growth or the probes never end; it does not stop if all paths are sure of a slot |
| `Hashmap.HomesBlock` | server/hashmap.c:120-127 | the 29 slots k^2 mod 53, 20 and 21 are all the probes of a path that hashes to a multiple of 53, on machines of either kind |
| `Hashmap.Clog` | server/hashmap.c:103-143 | 29 concrete adds below the growth threshold after which one more add or lookup never returns |
| `EventRing.Rotate` | smartc/list.h:16-18 | a ring can be read from any of its nodes |
| `EventRing.Link` | smartc/list.h:35-43 | a node goes between two others, nothing else changes |
| `EventRing.AddTail` | smartc/list.h:66-69 | the node is appended to the ring read from the head |
| `EventRing.Add` | smartc/list.h:53-56 | the node is inserted right behind the head |
| `EventRing.Unlink` | smartc/list.h:78-83 | the ring without the node |
| `EventRing.WithoutParts` | smartc/list.h:78-83 | put back at its place, the node completes the ring again |
| `EventRing.Del` | smartc/list.h:90-94 | the same, and the node's links are null |
| `EventRing.DelInit` | smartc/list.h:100-104 | the same, and the node is a ring of its own |
| `EventRing.Splice` | smartc/list.h:120-134 | one list's entries go behind the head of another; the emptied head keeps its stale links |
| `EventRing.SplicedParts` | smartc/list.h:120-134 | the head of the one list, the entries of the other, its own entries |
| `EventRing.EventQueue.Append` | smartc/fd_event.c:50-70 | a new event goes to the end of the queue |
| `EventRing.EventQueue.Pop` | smartc/fd_event.c:132-149 | the front goes, null after the last; its links are null |
| `EventRing.EventQueue.Count` | smartc/fd_event.c:37-48 | one less than the length of a queue that is not empty |
| `EventRing.EventQueue.ExecOne` | smartc/fd_event.c:97-114 | the front's handler is called once only |
| `EventRing.EventQueue.ExecAll` | smartc/fd_event.c:72-95 | every event behind the front is unlinked and executed in order, the front stays |
| `EventRing.FirstInFirstOut` | smartc/fd_event.c:50-70 | what left the queue and what is in it are, in order, all that was appended |
| `EventRing.Run` | smartc/fd_event.c:116-149 | every run on the linked ring behaves as on a sequence |
| `FdTable.Poller.constructor` | smartc/sock_epoll.c:47-55 | zeroed tables mirror an empty interest list |
| `FdTable.Poller.EpollCtl` | smartc/sock_epoll.c:91-94 | the kernel's answer to a legal and to an illegal request |
| `FdTable.Poller.SetEvent` | smartc/sock_epoll.c:57-95 | the request chosen is legal, the mirror kept and the interest as asked for, if and only if the descriptor exists or nothing is asked for |
| `FdTable.Poller.Open` | smartc/sock_io.c:240-254 | every open descriptor is at most biggest_fd |
| `FdTable.Poller.Close` | smartc/sock_io.c:199-271 | mirror and bound are kept; when exactly the assertion on biggest_fd fails |
| `FdTable.Poller.Arm` | smartc/sock_io.c:54-71 | the moment now + time is stored, on open descriptors and for positive times only; what scans make of it is `Timeouts.CalledIff` |
| `FdTable.Poller.Handle` | smartc/sock_epoll.c:117-123 | a handler's closes and timeouts happen in order to the table and to the kernel, and no assertion fails while the listener is open |
| `FdTable.Poller.ScanOne` | smartc/sock_epoll.c:112-125 | a descriptor is called exactly if it is due, then its slot is empty |
| `FdTable.ScanMeans` | smartc/sock_epoll.c:112-126 | over the turns: no due descriptor is missed, none is called before its time, no pending timeout is dropped, except where an earlier handler acted on it |
| `FdTable.Poller.Scan` | smartc/sock_epoll.c:112-126 | the whole table and the calls after a scan, each call once and in order; a timeout re-armed by its own handler is lost |
| `FdTable.Start` | smartc/sock_io.c:183-194 | the listener is entered and watched |
| `FdTable.Step` | smartc/sock_io.c:199-271 | every operation keeps mirror and bound, no assertion fails |
| `FdTable.Serve` | smartc/sock_epoll.c:57-126 | every run that keeps the callers' discipline: the table, the interest list and biggest_fd are what the operations make of them |
| `Timeouts.AlwaysBounded` | smartc/sock_io.c:240-271 | in every run, every open descriptor is within the scan and a closed one has no timeout handler |
| `Timeouts.CalledIff` | smartc/sock_epoll.c:112-126 | in every run, with timeouts set for a descriptor since it was opened and no scan too late: the next scan calls it if and only if it is a socket, a time was set, and the last one set has passed |
| `Timeouts.CalledWhenDue` | smartc/sock_io.c:54-71 | the same of one sock_timeout_set at t: a scan at now calls the descriptor if and only if it is a socket, the time is positive and now > t + time |
| `Timeouts.CalledOnce` | smartc/sock_epoll.c:117-124 | once called, no later scan calls it until a timeout is set again; one set by its own handler does not count |
| `Timeouts.ClosedIsNotCalled` | smartc/sock_io.c:256-265 | what was pending for a closed descriptor is gone, even if it is opened anew |
| `Timeouts.HandlerDecides` | smartc/sock_epoll.c:112-126 | what the handler of an earlier descriptor did decides: one that it closed is not called in this scan, one whose timeout it set is called by that time |
| `FdTable.CloseLast` | smartc/sock_io.c:256-271 | closing descriptor 1 as the only one fails the assertion |
| `HttpHeader.HeadersEnd` | smartc/http_header.c:260-292 | the state machine finds the least prefix that ends in an empty line, bare LF or CRLF, and 0 if there is none |
| `HttpHeader.EndIsStable` | smartc/http_header.c:260-292 | a non-zero answer never changes when more bytes arrive |
| `HttpHeader.CleanSpace` | smartc/http_header.c:399-420 | the trimmed region, for any bytes, the scan from one past the end included |
| `HttpHeader.HeaderEntryCreate` | smartc/http_header.c:357-397 | name and value of any line as positions in the buffer |
| `HttpHeader.EntryOfText` | smartc/http_header.c:357-397 | a printed line gives back its name and value |
| `HttpHeader.ColonStaysInName` | smartc/http_header.c:379-382 | without a blank behind the colon, and only then, the colon stays in the name |
| `HttpHeader.BareLineFeed` | smartc/http_header.c:384-388 | what the value is when the line ends in a bare LF |
| `HttpLaws.BlanksAreCut` | smartc/http_header.c:357-420 | blanks, tabs and CRs around name and value, spelled out, are cut off, for every line that has one behind its colon |
| `HttpLaws.NulEnds` | smartc/http_header.c:379-388 | a name or value ends at its first NUL, however many bytes were asked for |
| `HttpHeader.EntriesFound` | smartc/http_header.c:314-319 | the search for the next LF never comes back empty |
| `HttpHeader.HeaderLines` | smartc/http_header.c:314-340 | the loop lists the entries of the lines in order |
| `HttpHeader.HttpHeaderParse` | smartc/http_header.c:294-345 | nothing exactly if there is no empty line, else the entries up to it, for any bytes |
| `HttpHeader.EndOfBlock` | smartc/http_header.c:260-292 | a printed block ends at its own empty line and nowhere before |
| `HttpHeader.EntriesOfBlock` | smartc/http_header.c:294-345 | parsing a printed block gives back its entries in order |
| `HttpReply.Buffer.constructor` | smartc/string.c:63-79 | an empty zeroed buffer |
| `HttpReply.Buffer.Grow` | smartc/string.c:113-121 | the text is kept, the new part zeroed |
| `HttpReply.Buffer.Append` | smartc/string.c:90-100 | the piece is appended, the buffer grows by its length exactly if it does not fit |
| `HttpReply.Buffer.AppendBuffer` | smartc/string.c:37-47 | the text of another buffer is appended |
| `HttpReply.Buffer.Reset` | smartc/string.c:102-110 | the buffer is empty and zeroed |
| `HttpReply.ReplyHeaderBuild` | smartc/http.c:1033-1063 | status line, entries in order, the Via mark and the empty line |
| `HttpReply.AtoiOfDecimal` | smartc/http.c:878-890 | a printed number is read back up to the first byte that is no digit |
| `HttpReply.RescanAgrees` | smartc/http.c:902-907 | looking again at one byte more than the header finds the same end |
| `HttpReply.FindContentLength` | smartc/http.c:910-920 | the first Content-Length entry decides, none without one; in which spellings and for which numbers is `HttpLaws.LengthRead` and `HttpLaws.NoLengthIff` |
| `HttpReply.ContentLengthRead` | smartc/http.c:910-920 | it is read back as the number printed, however it is capitalised |
| `HttpLaws.LengthRead` | smartc/http.c:910-915 | the first entry named Content-Length, with the case of any of its letters changed, gives the number of its value with its sign, blanks before and other text behind |
| `HttpLaws.NoLengthIff` | smartc/http.c:910-920 | there is no length if and only if no entry has that name in any spelling |
| `HttpLaws.LengthOfPrinted` | smartc/http.c:902-922 | the same of a printed reply, parsed with any body behind it |
| `HttpLaws.SameTextIff` | smartc/http_header.c:422-436 | strcasecmp holds if and only if the texts differ in the case of letters only |
| `HttpLaws.AtoiOfNumeral` | smartc/http.c:911-912 | atoi skips the six blank characters, takes a sign, and stops at the first byte that is no digit |
| `HttpLaws.MixedLetters` | smartc/http_header.c:422-436 | one spelling, with a blank, a tab and a sign before its number |
| `HttpLaws.OtherNames` | smartc/http_header.c:422-436 | two names that are not taken |
| `HttpLaws.PrefixIff` | smartc/http.c:862-865 | whatever is parsed begins with HTTP/, in any spelling |
| `HttpLaws.SampleText` | smartc/http.c:1033-1063 | a printed head to the last byte |
| `HttpLaws.SampleWithLength` | smartc/http.c:1033-1063 | one with a length, to the last byte |
| `HttpReply.ReplyParse` | smartc/http.c:841-925 | what is made of any received bytes, each refusal included; spelled out in `HttpLaws` |
| `HttpReply.LineScanned` | smartc/http.c:856-890 | the scans of the parser stop at the seams of a printed status line |
| `HttpReply.ParseOfPrinted` | smartc/http.c:841-925 | parsing undoes printing, whatever body follows: version, status, entries in order, Via, header size |
| `HttpReply.IncompleteIsRefused` | smartc/http.c:856-925 | no proper prefix of a printed header is parsed |
| `HttpReply.BuildAndParse` | smartc/http.c:1033-1063 | builder, buffer and parser together |

## Left out

- All real I/O, DNS, the Lua configuration, logging and the access log: their results are parameters of the model.
- Allocation failure, and with it the realloc branch of `hashtable_expand` (`smartc/hashtable.c:170-192`), which clears
  the value of a slot instead of the new slots.
- Reference counts of `http_state` and freeing: an object that is no longer used just stays.
- What the timeout handlers of `smartc/http.c` do, revalidation and the cache index. All calls of `sock_timeout_set` but the
  one at `smartc/http.c:285` pass handler and data in the other order than `smartc/sock_io.h:91` declares them.
- `hashmap_remove` (`server/hashmap.c:174-204`): it zeroes the hash that probes depend on, against its own comment, so the
  file cache refines a map only without it. `hashmap_destroy`, `h->length` and the visit counters go with it.
- `same_hash`, `hashtable_destroy` and the string hashes of `smartc/hashtable.c`: keys are compared by equality, the hash is a parameter.
- The sine formula for the MD5 constants: the table is the hexadecimal one of RFC 1321, appendix A.3.
- `http_reply_build`, `request_parse` and the request side of the header code: the reply printer and parser carry the same arithmetic.
- The float load factors: 13/20 stands for 0.65.
- What C leaves undefined when the probe loop casts a square that is no int: the model takes one fixed value, a parameter,
  as machines give it.
- Allocator-dependent and undefined cases: a hash table capacity above the last size, a path of 200 bytes or more, `strtok`
  past the end of the status line, a line longer than its stack array.
- `src/estring.c`, `smartc/cache_control.c`, `smartc/rfc1123.c`, `smartc/array.c`: string and date helpers without state.
- Hashmap.RoomyEnds: assumes the size is prime; that is proved for the eleven sizes up to 49157, above which half
  of the probes already exceed the squares that fit an int.
- Md5.State.Append: an append of zero or negative length returns at once in the source; the overflow of the int sum, whose
  exact condition is `Md5.CopyFitsIff`, is required not to happen, because the copy then leaves the buffer.
- EventRing.EventQueue.ExecAll: its handlers do not change the queue; nothing in the repository calls `event_exec_all`.
- Relay.Relay.HttpReplyRead: after a bad reply both ends are taken as closed, after a read error the client is left as it
  is; freeing the state, and the peer closing the client, are not modelled.
- Relay.Relay.TakeBytes: with a negative Content-Length that leaves no room for a window the source makes none and fails
  when the header is out; here the window is made.
- RelaySpec.FoundFits: numbers are unbounded; `atoi` of a Content-Length beyond an int is undefined in C.
- HitPath.Hit.constructor: `body_size` is positive; with an empty body the source makes no map and tries for ever to send
  the header (`smartc/http.c:972-979`). Shared pieces end within the sizes, as chunks of earlier hits do.
- RelayRuns.MainLoop: an aio write is whole or fails; a short one is `Relay.Relay.SwapoutDone`.
- WriteQueue.Descriptor.Writable: the queue is a sequence here; `EventRing` proves that the linked ring behaves like one.
- FdTable.Poller.Open: descriptors stay below MAX_FD, which the source does not check.
- FdTable.Step: epoll_ctl succeeds whenever the kernel's rules allow it, and the listener is never closed.
- HttpReply.ReplyHeaderBuild: the two lines formatted on the stack must fit `MAX_LINE`; a longer status line would be cut by the source.
- HttpReply.ParseOfPrinted: values are not empty and names hold no blank or colon, the form the printer's own entries have.
