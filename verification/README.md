# Verified models of the recommendation engine's core

This project models, in Dafny, the parts of the repository whose correctness is hardest to see, and
proves what they promise.

- The RESP reader of the Redis client, as a recursive parser (`Resp.dfy`) that undoes a printer of
  replies (`RespPrint.dfy`), as a stack machine over the unread bytes (`ReaderMachine.dfy`), as the
  linked reply objects (`ReplyObjects.dfy`) and as the mutable reader object (`Reader.dfy`); each
  refines the one before.
- The command formatters (`Formatter.dfy`, `FormatString.dfy`), formats written out of their parts
  (`FormatPieces.dfy`), and the argument scanner of the asynchronous client (`ArgumentScan.dfy`).
- The asynchronous context as a value (`AsyncModel.dfy`), as the mutable object over its linked callback
  list (`Async.dfy`, `CallbackList.dfy`), in whole runs (`AsyncSession.dfy`) and over the reader
  (`AsyncWire.dfy`); and as a ledger of calls and replies without any queue (`AsyncLedger.dfy`).
- The distributed lock of the Python client as interleaved server commands (`Lock.dfy`), and what their
  order alone says about key and leases (`LockHistory.dfy`).
- The watch table of the event loop over event ports and epoll (`EventLoop.dfy`).
- The chained hash table on an explicit heap, its resizing and its iterator (`DictHeap.dfy`,
  `DictRehash.dfy`, `Dict.dfy`, `DictIteration.dfy`).
- The inverted index with mark-then-clear expiry (`PostingList.dfy`, `PostingReader.dfy`,
  `PostingRepeats.dfy`, `Indexing.dfy`, `Cleaning.dfy`) and retrieval over it (`Retrieval.dfy`, `ForwardScan.dfy`).
- Dynamic strings: buffers, splitting, quoting (`Sds.dfy`, `SdsSplit.dfy`, `SdsQuote.dfy`) and
  typed lines (`SdsLine.dfy`).
- The consistent hash ring (`HashRing.dfy`).

Replies follow the Redis serialization protocol specification (RESP2), sections "Simple strings",
"Simple errors", "Integers", "Bulk strings" and "Arrays", with the leniency of the code: the two
bytes after a bulk body are not looked at, every negative bulk length is nil, and an array in the
ninth stack slot is an error.

Check everything with `dafny verify dfyconfig.toml`.

## What the code does not do

Some expectations turn out false of the code. The model keeps the code as it is, and each is settled
by an exact condition or a concrete run.

- The lock with timeouts is not exclusive: a late release deletes a newer holder's key
  (`Lock.LateReleaseOverlaps`, exactly when: `Lock.ExclusiveIffNeverExpiring`).
- The no-pending assertion of a clean disconnect does not follow from its guard
  (`AsyncSession.OutstandingReplyAborts`, exactly when: `AsyncModel.RunAborts` and, by counting,
  `AsyncModel.DisconnectingOutcome`).
- A cleaning cycle loses stories pushed meanwhile onto lists that are wholly stale, keeps the
  attachment of a story without keywords, and keeps a posting stamped late for an early story
  (exactly when none of these: `Cleaning.CleaningCommutes`).
- A posting can be returned twice to an iterator that stands in front of the list
  (`PostingReader.PushRepeatsPosting`, exactly when: `PostingRepeats.NoPostingTwice`).
- `\x` escapes written by sdscatrepr are not decoded by sdssplitargs, although its comment says so
  (exactly when quoting round-trips: `SdsQuote.QuoteRoundTrip`).
- RemoveNode creates an empty entry when the node is unknown, and trusts whatever node sits at the
  first point (exactly when it undoes AddNode: `HashRing.RemoveUndoesAdd`).
- The reply code for "keyword not found" is always overwritten by "ok" (`Retrieval.MakeReply`).
- Registering for no event leaves an association behind: with epoll it blocks the descriptor for good
  (`EventLoop.EmptyRegistrationBlocks`, exactly when: `EventLoop.EpollReplay`), with event ports until the next
  registration (exactly when: `EventLoop.PortReplay`).
- Splitting does not always undo joining (exactly when: `SdsSplit.JoinSplits`).

## Model

| member | source | states |
|---|---|---|
| `ReaderMachine.ChunkIndependence` | src/hiredis/hiredis.cc:584-666 | for every stack, stream and way of cutting it into feeds, draining after each feed gives the replies, error, stack and unread bytes of one feed of the whole |
| `ReaderMachine.ChunkedStreamIsParsed` | src/hiredis/hiredis.cc:584-666 | a fresh reader fed any chunks delivers the replies the recursive parser finds in their concatenation and reports an error exactly when the parser refuses it |
| `ReaderMachine.RunRefinesParser` | src/hiredis/hiredis.cc:330-554 | from any stack the item loop computes what the recursive parser would still do: same reply and bytes left, same refusal, or input missing |
| `ReaderMachine.EmittedReplyIsTheParse` | src/hiredis/hiredis.cc:618-666 | a reply comes out exactly when the recursive parser completes one, it is the parse of exactly the bytes taken, and every array slot in it is filled |
| `RespPrint.PrintParses` | src/hiredis/hiredis.cc:442-554 | every reply written in wire form (bytes 43, 45, 58, 36, 42), nested to any depth and followed by any bytes, parses as that reply and leaves those bytes exactly when it fits the nine stack slots, and is refused as too deep otherwise |
| `RespPrint.PrintedRoundTrip` | src/hiredis/hiredis.cc:584-666 | any sequence of replies in wire form, fed in any pieces to a fresh reader, comes out as those replies with nothing left |
| `Reader.ReadChunks` | src/hiredis/hiredis.cc:556-666 | the reader object, fed in pieces, hands out objects that denote in order the parsed replies of the concatenated stream, and ends in error exactly when the parser refuses it |
| `Formatter.CommandRoundTrip` | src/hiredis/hiredis.cc:940-972 | a formatted command fed in any pieces to a fresh reader yields one array of its arguments and leaves nothing behind |
| `Formatter.CommandInjective` | src/hiredis/hiredis.cc:940-972 | different argument lists never format to the same bytes |
| `FormatString.FormatV` | src/hiredis/hiredis.cc:687-896 | the format-string formatter writes byte for byte what the argument-vector formatter writes for the words of the format with the values substituted; what that is, written without the scanner, is FormatPieces.FormatMeaning |
| `FormatPieces.FormatMeaning` | src/hiredis/hiredis.cc:687-896 | for every format written as words of literal bytes, %s, %b and %% behind any spaces, the arguments are the words with each string inserted up to its end and each binary value in full, and the directives take the values in order |
| `FormatPieces.StringsInStringsOut` | src/hiredis/hiredis.cc:687-896 | a format of %s words over strings without NUL gives exactly those strings as its arguments |
| `ArgumentScan.ScanCommand` | src/hiredis/async.cc:500-512 | repeated nextArgument over a formatted command gives exactly its arguments in order and then NULL, whatever bytes they hold |
| `AsyncSession.Session` | src/hiredis/async.cc:180-423 | in every run over the linked callback list the k-th server reply went to the k-th issued callback, every issued callback is answered, orphaned or waiting, none waits once the context is freed, the run aborts exactly when one of its reads does, and the issued callbacks, the flags and the end of the context are those of the ledger of calls |
| `AsyncLedger.LedgerKept` | src/hiredis/async.cc:180-575 | in every run the context follows a ledger that has no queue: the issued callbacks are those of all commands given by the application and by callbacks, in call order up to the first free or disconnect; the next reply is that of the next accepted command; flags, output state and the end of the context follow from the calls and the number of replies |
| `AsyncWire.WireSession` | src/hiredis/async.cc:361-468 | over the reader: the k-th reply parsed from the concatenated bytes, however they were cut, reaches the k-th issued callback as an object denoting it; while the context lives, all complete replies have; the issued callbacks are those of the accepted calls in order |
| `AsyncModel.RunAborts` | src/hiredis/async.cc:281-423 | a run aborts if and only if some read meets a reply that is no error while nobody waits, or leaves a flushed, disconnecting context with a waiting callback |
| `AsyncModel.DisconnectingOutcome` | src/hiredis/async.cc:361-423 | how a read ends on a disconnecting context, for any replies, by counting: it aborts exactly with fewer replies than waiting callbacks, flushed and unbroken, or with one reply too many that is no error, unless a callback that got its reply asked to free the context |
| `Lock.MutualExclusion` | debug/redis/client.py:2167-2209 | without timeouts, under every interleaving, at most one client holds the lock and the key exists exactly while one does |
| `Lock.ExclusiveIffNeverExpiring` | debug/redis/client.py:2135-2209 | among two or more clients the lock is exclusive under every interleaving if and only if no lease can run out before the last clock reading |
| `LockHistory.RunTallies` | debug/redis/client.py:2167-2209 | in every run the key and every client's lease are what the commands so far call for: a losing getset still overwrites the key, a release gives the lease up whether or not it deletes, and a client holds the lock exactly while it has a lease |
| `EventLoop.PortReplay` | debug/redis/src/ae_evport.c:104-308 | after any calls, refusals and polls the table is that of the calls that succeeded, each association is in the kernel or pending, never both, with the mask of the loop, together they watch exactly the table if and only if for no descriptor the last registration asked for no event while nobody watched it, and each poll fires what is reported of the associated descriptors: readable exactly for POLLIN, writable exactly for POLLOUT |
| `EventLoop.EpollReplay` | debug/redis/src/ae_epoll.c:66-126 | the same for epoll: a registration succeeds exactly when it is granted, fits and no earlier one asked for no event on an unwatched descriptor, the interest list is the table if and only if there was no such registration, and each poll fires readable exactly for EPOLLIN and writable exactly for EPOLLOUT, EPOLLERR or EPOLLHUP |
| `Dict.Perform` | src/hiredis/dict-inl.h:88-210 | over every sequence of add, replace and delete, through all resizes, the heap table stands for the finite map of those calls and stays well formed, each call reports whether it added or found its key, and the size is doubled exactly when a call that may add finds the table full |
| `Dict.InMapIffSet` | src/hiredis/dict-inl.h:135-210 | after any calls a key is present exactly when a call replaced it or added it while missing and none since deleted or replaced it, with the value of that call |
| `DictIteration.Sweep` | src/hiredis/dict-inl.h:258-286 | iterating while deleting returned entries sees every key present at the start exactly once and removes exactly the doomed ones |
| `PostingRepeats.NoPostingTwice` | src/indexing/iterator.cc:12-58 | over every run an iterator is given no posting twice if and only if no push falls between its first GetValue and its first Next, or it takes at most as many postings as such pushes; with m of them the first posting comes again as number m |
| `PostingReader.ReaderSafety` | src/indexing/iterator.cc:12-58 | an iterator made on a marked list never follows a NULL link and is never given a posting that a clear erases, under all interleavings with pushes and the clear |
| `Cleaning.CleaningCommutes` | src/indexing/clean_old_story_thread.cc:60-131 | mark, any stories indexed meanwhile, clear: the result equals indexing only the stories not older than the target, if and only if stale stories had postings and only stale ones and no push met a list without a young posting |
| `Cleaning.RunIndexesTheFresh` | src/indexing/clean_old_story_thread.cc:60-131 | after every run of additions and cleanings, with stories pushed between mark and clear under the exact condition, the index holds exactly the postings and attachments of the stories no cleaning found stale, under their ids |
| `Cleaning.LiveIff` | src/indexing/clean_old_story_thread.cc:60-131 | after a proper run a story is live exactly when some operation brought it and no later cleaning had a target past its arrival |
| `ForwardScan.RetrieveMarked` | src/retrieval/retrieval_handler.cpp:30-79 | retrieval between the mark and the clear already answers with the best of the stories the clear leaves: every story with at least the ratio of the request keywords has one entry, its global id scored by the number it has |
| `ForwardScan.RetrieveAfterRun` | src/retrieval/retrieval_handler.cpp:30-79 | after any proper run every live story with a request keyword and at least the ratio times the number of request keywords has exactly one entry, its global id scored by how many it has, and no other entry exists; the best are returned, best first |
| `SdsQuote.QuoteRoundTrip` | src/hiredis/sds.cc:379-502 | any number of quoted strings on a line split back into those strings if and only if all bytes are printable or newline, return, tab, bell or backspace |
| `SdsLine.LineSplits` | src/hiredis/sds.cc:419-502 | a line of plain words, quoted strings and plain words running into quoted strings, with any blanks between, splits into exactly what was written |
| `SdsLine.BadQuoteFails` | src/hiredis/sds.cc:450-458 | behind any good arguments, a quote that is never closed or is closed in front of a byte that is no blank makes the whole line fail |
| `SdsSplit.JoinSplits` | src/hiredis/sds.cc:290-344 | splitting undoes joining, for any separator, if and only if in every remaining joined string the first separator is the joint |
| `SdsSplit.SplitInverts` | src/hiredis/sds.cc:290-344 | the tokens joined by the separator give the input back and none contains the separator |
| `HashRing.AddMovesOnlyToNew` | src/redis_cluster.cc:7-38 | adding a node moves a key only to that node, whatever points collide |
| `HashRing.RemoveUndoesAdd` | src/redis_cluster.cc:7-25 | removing a node restores the previous ring if and only if it had a replica and took no point of another node, or had none and its first point already held an empty node |
| `HashRing.HistoryIndependence` | src/redis_cluster.cc:7-25 | two collision-free histories of joins and leaves with the same members end in the same ring |
| `Bytes.ReadLongLongDecimal` | src/hiredis/hiredis.cc:288-313 | the reader's number parser inverts the decimal printer before any CR-led bytes |
| `Bytes.ReadLongLongSigned` | src/hiredis/hiredis.cc:288-313 | a plus sign is ignored and a minus sign negates |
| `Bytes.OtherByteSpoils` | src/hiredis/hiredis.cc:288-313 | any byte but a digit or CR behind digits makes the value -1 |
| `Bytes.DecimalIsTheNumber` | src/hiredis/hiredis.cc:953-968 | the decimal text has that value in base ten, in ASCII digits without leading zeros |
| `Resp.SplitLineMeaning` | src/hiredis/hiredis.cc:260-285 | a line is cut at the first CR LF, and no line means there is none |
| `Resp.SplitLineUnique` | src/hiredis/hiredis.cc:315-328 | the cut is determined by where the first CR LF stands |
| `Resp.ParseItem` | src/hiredis/hiredis.cc:507-554 | a completed reply consumes input; what it is, type byte by type byte, is fixed by RespPrint.PrintParses and RespPrint.OtherBytesRefused |
| `Resp.ParseItemWellFilled` | src/hiredis/hiredis.cc:442-505 | every array of a parsed reply has as many elements as its count, at every depth |
| `Resp.ParseItemLocal` | src/hiredis/hiredis.cc:507-554 | a complete reply depends on exactly the bytes it used and leaves any following bytes alone |
| `RespPrint.OtherBytesRefused` | src/hiredis/hiredis.cc:511-537 | every other type byte is refused with that byte |
| `RespPrint.Leniency` | src/hiredis/hiredis.cc:389-505 | every negative bulk length and the count -1 are nil, other negative counts make empty arrays, and the two bytes after a body may be any |
| `ReaderMachine.Attach` | src/hiredis/hiredis.cc:330-353 | handing a reply to the open arrays keeps the stack well formed and never deepens it |
| `ReaderMachine.Step` | src/hiredis/hiredis.cc:507-554 | a step keeps the nine-slot stack valid and consumes input whenever it goes on |
| `ReaderMachine.RunExtend` | src/hiredis/hiredis.cc:618-666 | more input never changes what the loop did; where it waited it continues |
| `ReaderMachine.DrainExtend` | src/hiredis/hiredis.cc:618-666 | draining early loses nothing and changes nothing |
| `ReaderMachine.DrainIsParseStream` | src/hiredis/hiredis.cc:618-666 | draining a stream gives the replies and the final status of the recursive parser |
| `ReplyObjects.AttachBuilt` | src/hiredis/hiredis.cc:97-184 | once a child object denotes its reply, the linked objects agree with what the stack does: the root denotes the whole reply or the open arrays stay well linked |
| `ReplyObjects.DeliverBuilt` | src/hiredis/hiredis.cc:97-184 | creating an object and linking it into its parent keeps objects and stack in agreement |
| `ReplyObjects.OpenBuilt` | src/hiredis/hiredis.cc:129-152 | opening an array links an object with empty slots below its parent |
| `Reader.SeekNewline` | src/hiredis/hiredis.cc:260-285 | the search finds the first CR LF or proves there is none, without leaving the buffer |
| `Reader.ReadNumber` | src/hiredis/hiredis.cc:288-313 | the digit loop computes the value of the line up to its CR |
| `Reader.ReadLineItem` | src/hiredis/hiredis.cc:355-387 | status, error and integer items are taken whole or not at all |
| `Reader.ReadBulkItem` | src/hiredis/hiredis.cc:389-440 | a bulk string is taken only when its whole body is there; every negative length is nil |
| `Reader.ReadMultiBulkItem` | src/hiredis/hiredis.cc:442-505 | an array header is nil only for -1 and opens an array otherwise |
| `Reader.RedisReader.Create` | src/hiredis/hiredis.cc:97-184 | the create functions allocate the object and write it into the parent slot; the parent is always an array |
| `Reader.RedisReader.MoveToNextTask` | src/hiredis/hiredis.cc:330-353 | the task stack follows Attach; both assertions of the source hold |
| `Reader.RedisReader.ProcessItem` | src/hiredis/hiredis.cc:507-554 | one call is one step of the machine over the unread bytes and keeps earlier replies |
| `Reader.RedisReader.Feed` | src/hiredis/hiredis.cc:584-616 | input is appended to the unread bytes, and refused once there is an error |
| `Reader.RedisReader.Discard` | src/hiredis/hiredis.cc:651-657 | dropping consumed input keeps exactly the unread bytes |
| `Reader.RedisReader.GetReply` | src/hiredis/hiredis.cc:618-666 | one call is one fetch of the machine, and the object handed out denotes the fetched reply |
| `Reader.DrainReader` | src/hiredis/hiredis.cc:618-666 | taking replies until none is left hands out objects for exactly the drained replies |
| `Formatter.IntLen` | src/hiredis/hiredis.cc:669-680 | the width is the number of decimal digits and a sign |
| `Formatter.BulkLen` | src/hiredis/hiredis.cc:683-685 | the size of any bulk string of that length |
| `Formatter.Write` | src/hiredis/hiredis.cc:953-968 | the buffer is filled to exactly the precomputed length |
| `Formatter.FormatArgv` | src/hiredis/hiredis.cc:940-972 | the computed length is exact and the buffer holds the command and a NUL |
| `Formatter.CommandParses` | src/hiredis/hiredis.cc:389-505 | a command followed by any bytes parses as the array of its arguments and leaves those bytes |
| `RespPrint.CommandIsPrinted` | src/hiredis/hiredis.cc:940-972 | a formatted command is the wire form of the array of its arguments |
| `FormatString.ScanIsArguments` | src/hiredis/hiredis.cc:687-896 | the scanning loop yields one argument per word of the format, whatever bytes the values hold |
| `FormatString.CStringMeaning` | src/hiredis/hiredis.cc:735-742 | what %s inserts is the value up to its first NUL byte, or all of it |
| `ArgumentScan.NextOnBulk` | src/hiredis/async.cc:500-512 | the first bulk string after a gap without $ and NUL is found with its exact extent |
| `ArgumentScan.StrChrMeaning` | src/hiredis/async.cc:500-512 | strchr finds the first such byte unless a NUL or the end comes before it |
| `ArgumentScan.StrToLReads` | src/hiredis/async.cc:500-512 | strtol skips blanks, takes a sign and reads digits up to the first byte that is none |
| `CallbackList.Queue.Push` | src/hiredis/async.cc:180-197 | the linked list gains the callback at its end |
| `CallbackList.Queue.Shift` | src/hiredis/async.cc:199-213 | the linked list gives up its first callback, or reports that it is empty |
| `Async.AsyncContext.Command` | src/hiredis/async.cc:517-575 | the callback goes to the end of the linked list and of the history unless a disconnect or free was asked for, and the result says which; a refused command changes nothing |
| `Async.AsyncContext.RunCallback` | src/hiredis/async.cc:215-222 | a callback runs once, may queue commands and set closing flags, and nothing else happens meanwhile |
| `Async.AsyncContext.TearDown` | src/hiredis/async.cc:225-267 | the loop over the linked list takes the context to its torn-down state |
| `Async.AsyncContext.AsyncDisconnect` | src/hiredis/async.cc:281-299 | an error closes and tears down; a clean disconnect aborts when a callback waits and tears down otherwise |
| `Async.AsyncContext.Call` | src/hiredis/async.cc:273-312 | free tears down at once; disconnect waits for outstanding replies |
| `Async.AsyncContext.Dispatch` | src/hiredis/async.cc:382-416 | a reply goes to the oldest waiting callback; a spontaneous error reply closes the context |
| `Async.AsyncContext.ProcessCallbacks` | src/hiredis/async.cc:361-423 | all replies the reader has are dispatched in order, then the context disconnects if it must |
| `AsyncModel.FirstInFirstOut` | src/hiredis/async.cc:180-423 | in every run the k-th reply went to the k-th issued callback, every issued callback is answered, orphaned or waiting, each orphan ran once with NULL, and none waits once the context is freed |
| `AsyncModel.TornDownInOrder` | src/hiredis/async.cc:225-267 | teardown orphans every waiting callback in order, runs each once with NULL, and accepts no command |
| `AsyncModel.DispatchedKeepsInv` | src/hiredis/async.cc:382-416 | dispatching a reply keeps the order of callbacks, replies and executions |
| `AsyncModel.ProcessedAborts` | src/hiredis/async.cc:361-423 | one read aborts if and only if a reply comes that nobody asked for, or a disconnect cuts off a waiting callback |
| `AsyncModel.AnsweredAt` | src/hiredis/async.cc:361-423 | where all callbacks have functions the k-th execution is the k-th callback with the k-th reply |
| `AsyncModel.OrphanedAt` | src/hiredis/async.cc:225-267 | each orphaned callback runs at its own place, once, with NULL |
| `AsyncLedger.PassiveIssues` | src/hiredis/async.cc:517-575 | with callbacks that call nothing, an open context has issued exactly the commands of the application |
| `AsyncSession.OutstandingReplyAborts` | src/hiredis/async.cc:281-299 | the guard of the clean disconnect does not imply its assertion: a run that aborts |
| `AsyncWire.Receive` | src/hiredis/async.cc:450-468 | an arrival hands out objects for exactly the replies it completes, error replies marked |
| `AsyncWire.Decode` | src/hiredis/async.cc:450-468 | through the whole wire every arrival brings the replies it completes and fails exactly when the parser refuses the bytes up to there |
| `Lock.StepKeepsInv` | debug/redis/client.py:2167-2209 | each server command keeps at most one holder guarded by an unexpired key |
| `Lock.StepKeepsGuarded` | debug/redis/client.py:2167-2209 | without timeouts each command keeps one holder and the key in step |
| `Lock.LateReleaseOverlaps` | debug/redis/client.py:2200-2209 | a lease that has run out lets its late release delete a newer key, so two live leases overlap |
| `EventLoop.AeTable.Record` | debug/redis/src/ae.c:105-123 | registering updates one mask and the bound above which nothing is watched |
| `EventLoop.AeTable.Forget` | debug/redis/src/ae.c:125-141 | deleting updates one mask and finds the new bound downwards |
| `EventLoop.WatchedIffStands` | debug/redis/src/ae.c:105-141 | after any calls a descriptor is watched for an event exactly when some registration of it succeeded and no later deletion covers it |
| `EventLoop.PortLoop.LookupPending` | debug/redis/src/ae_evport.c:104-116 | finds the pending slot of a descriptor or proves there is none |
| `EventLoop.PortLoop.AddEvent` | debug/redis/src/ae_evport.c:147-176 | the association invariant holds for the new mask, in the pending arrays or in the kernel |
| `EventLoop.PortLoop.CreateFileEvent` | debug/redis/src/ae.c:105-123 | the table changes only on success, and the invariant holds either way |
| `EventLoop.PortLoop.DelEvent` | debug/redis/src/ae_evport.c:178-236 | the association to change is always found, and the invariant holds for the reduced mask |
| `EventLoop.PortLoop.DeleteFileEvent` | debug/redis/src/ae.c:125-141 | the table loses the mask and the invariant holds |
| `EventLoop.PortLoop.Reassociate` | debug/redis/src/ae_evport.c:250-265 | every pending association is back in the kernel with its mask |
| `EventLoop.PortLoop.Collect` | debug/redis/src/ae_evport.c:290-311 | reported descriptors become pending with the masks they had, within the arrays |
| `EventLoop.PortLoop.Poll` | debug/redis/src/ae_evport.c:238-311 | a poll changes nothing that is watched, and a reported descriptor fires readable exactly when POLLIN is set and writable exactly when POLLOUT is |
| `EventLoop.PortLoop.Park` | debug/redis/src/ae_evport.c:290-308 | a reported descriptor leaves the kernel and becomes pending with its mask |
| `EventLoop.PortLoop.Perform` | debug/redis/src/ae_evport.c:104-308 | what a call does to the table and to the associations, refused or not |
| `EventLoop.WatchedIffNoneLeftOver` | debug/redis/src/ae_evport.c:60-64 | associations equal the watch table exactly when none is left over for an unwatched descriptor |
| `EventLoop.LeftOverAfter` | debug/redis/src/ae.c:105-141 | only a registration changes what is left over, and only for its own descriptor |
| `EventLoop.EpollLoop.Perform` | debug/redis/src/ae_epoll.c:66-126 | what a call does to the table and to the interest list; a registration succeeds exactly when granted and not blocked |
| `EventLoop.BlockedForGood` | debug/redis/src/ae_epoll.c:66-101 | nothing that happens later ends a block |
| `EventLoop.EpollLoop.CreateFileEvent` | debug/redis/src/ae_epoll.c:66-82 | ADD or MOD succeeds exactly when the kernel accepts it, and the table changes only then |
| `EventLoop.EpollLoop.DeleteFileEvent` | debug/redis/src/ae_epoll.c:84-101 | MOD or DEL finds the descriptor, and list and table agree afterwards |
| `EventLoop.EpollLoop.Poll` | debug/redis/src/ae_epoll.c:103-126 | a reported descriptor fires readable exactly when EPOLLIN is set and writable exactly when EPOLLOUT, EPOLLERR or EPOLLHUP is |
| `EventLoop.EmptyRegistrationBlocks` | debug/redis/src/ae_epoll.c:66-82 | a first registration for no event is granted, makes every later registration of that descriptor fail, and leaves the interest list wrong |
| `DictHeap.SameKeySameEntry` | src/hiredis/dict-inl.h:320-337 | two entries with the same key are the same entry |
| `DictHeap.NotFound` | src/hiredis/dict-inl.h:243-256 | a key whose chain was walked to the end is not in the map |
| `DictRehash.MoveOne` | src/hiredis/dict-inl.h:113-125 | relinking one entry keeps both halves of the move in order |
| `DictRehash.Finished` | src/hiredis/dict-inl.h:106-132 | once all entries moved the new buckets stand for the same map |
| `Dict.NextPower` | src/hiredis/dict-inl.h:306-315 | the smallest power of two that is at least four and large enough |
| `Dict.BucketIsRemainder` | src/hiredis/dict-inl.h:328-328 | with a power of two as size the masked hash is its remainder |
| `Dict.Table.Size` | src/hiredis/dict-inl.h:295-303 | the used field is the number of keys and never exceeds the size |
| `Dict.Table.MoveAll` | src/hiredis/dict-inl.h:106-127 | every entry is relinked into its new bucket and none is lost |
| `Dict.Table.Expand` | src/hiredis/dict-inl.h:88-132 | the map is unchanged, growing is refused exactly when the entries do not fit, and the new size is the smallest power of two from four on that is large enough |
| `Dict.Table.Find` | src/hiredis/dict-inl.h:243-256 | finds the entry of a key exactly when the map has it, with its value |
| `Dict.Table.ExpandIfNeeded` | src/hiredis/dict-inl.h:295-303 | the map is unchanged and there is room for one more entry: four buckets at first, twice as many when full, else as many as before |
| `Dict.Table.Add` | src/hiredis/dict-inl.h:135-157 | adds exactly when the key is absent |
| `Dict.Table.Replace` | src/hiredis/dict-inl.h:160-179 | the key has the value, and the result tells whether it was new |
| `Dict.Table.Delete` | src/hiredis/dict-inl.h:182-210 | removes exactly this key, unlinking exactly its entry |
| `DictIteration.Iterator.Next` | src/hiredis/dict-inl.h:268-286 | returns the next entry still to come, or nothing when all were returned |
| `DictIteration.FlatIsAll` | src/hiredis/dict-inl.h:268-286 | the order of iteration holds every key once |
| `DictIteration.DeleteReturned` | src/hiredis/dict-inl.h:182-210 | deleting the returned entry leaves what is still to come alone |
| `PostingList.MarkList` | src/indexing/clean_old_story_thread.cc:65-81 | the mark is the last node of the leading run of young postings, or the sentinel |
| `PostingList.Size` | src/indexing/posting.cc:57-69 | counts exactly the postings a clear would keep |
| `PostingList.MarkCount` | src/indexing/posting.cc:33-49 | the marked node is the last one the clear keeps |
| `PostingReader.StepKeepsInv` | src/indexing/iterator.cc:12-58 | every iterator call, push and clear keeps the reader on kept nodes |
| `PostingReader.PushRepeatsPosting` | src/indexing/iterator.cc:39-58 | a push between GetValue and Next makes the iterator return the same posting again |
| `Indexing.InstantIndex.NewTokens` | src/indexing/index_build_thread.cc:77-87 | exactly the tokens of the story that have no list |
| `Indexing.InstantIndex.CreateLists` | src/indexing/index_build_thread.cc:88-95 | those tokens get empty lists and the others keep theirs |
| `Indexing.InstantIndex.PushPostings` | src/indexing/index_build_thread.cc:98-114 | each keyword's posting is pushed to the front of its list |
| `Indexing.InstantIndex.AddStory` | src/indexing/index_build_thread.cc:58-117 | one new id, its attachment, and one posting per keyword; the list is always found |
| `Indexing.InstantIndex.MarkAll` | src/indexing/clean_old_story_thread.cc:60-82 | every list is marked for the target time |
| `Indexing.InstantIndex.CollectAfterMark` | src/indexing/clean_old_story_thread.cc:97-106 | exactly the documents behind the mark |
| `Indexing.InstantIndex.ClearAll` | src/indexing/clean_old_story_thread.cc:90-131 | every list is cut at its mark and the attachments of all dropped documents go |
| `Indexing.InstantIndex.DeleteAttachments` | src/indexing/clean_old_story_thread.cc:115-127 | the attachments lose exactly these documents |
| `Indexing.InstantIndex.TranslateToGlobalId` | src/indexing/instant_index.cc:133-149 | the attachment when there is one, else the local id |
| `Cleaning.AddAllRepresents` | src/indexing/index_build_thread.cc:58-117 | indexing more stories gives the index of all of them, whatever marks are set, and marks stay |
| `Cleaning.PostingsFalling` | src/indexing/index_build_thread.cc:58-117 | document ids fall from front to back in every list |
| `Cleaning.KeptAfterPushes` | src/indexing/clean_old_story_thread.cc:60-113 | what a list keeps after mark, pushes and clear: nothing if no posting was young, else the pushes and the young run |
| `Cleaning.StampedGoWholly` | src/indexing/index_build_thread.cc:98-114 | stories with one clock reading and a keyword each always meet the condition on stale stories |
| `Cleaning.DroppedAfterCycle` | src/indexing/clean_old_story_thread.cc:94-113 | the documents collected are exactly the stale stories |
| `Cleaning.LingeringPosting` | src/indexing/clean_old_story_thread.cc:63-81 | a young posting of a stale story survives the cycle |
| `Retrieval.PostingIterator.HasValue` | src/indexing/iterator.cc:20-36 | there is a value exactly before the mark, or the end when unmarked |
| `Retrieval.PostingIterator.GetValue` | src/indexing/iterator.cc:39-47 | the posting behind the cursor, or the exception when HasValue did not say yes before |
| `Retrieval.PostingIterator.Next` | src/indexing/iterator.cc:50-58 | the cursor moves one posting on |
| `Retrieval.IndexReader.AddHitKeywordToDocInfo` | src/retrieval/index_reader.cpp:59-72 | the hit is appended to those of its document |
| `Retrieval.IndexReader.BeginIntersect` | src/retrieval/index_reader.cpp:27-57 | the hits of every document are those of all request keywords in order, repetitions counted |
| `Retrieval.IndexReader.NextDoc` | src/retrieval/index_reader.cpp:85-95 | documents come in ascending order with their hits and global ids |
| `Retrieval.ResultSet.Dump` | src/retrieval/result_set.cpp:23-26 | the entries are permuted into descending score |
| `Retrieval.MakeReply` | src/retrieval/retrieval_handler.cpp:65-79 | the first entries are returned, and the code is always OK |
| `Retrieval.Retrieve` | src/retrieval/retrieval_handler.cpp:30-63 | the answer is a descending top of the hit documents that score at least the ratio times the number of request keywords; none left out scores above one returned |
| `ForwardScan.ScoreIsCount` | src/retrieval/index_reader.cpp:27-57 | the score of a document is the number of request keyword occurrences in its story |
| `ForwardScan.CountMeaning` | src/retrieval/index_reader.cpp:27-57 | that number is how many places of the request hold a keyword of the story |
| `ForwardScan.ScanFindsPassing` | src/retrieval/retrieval_handler.cpp:44-51 | the scan holds exactly one entry for each story that has a request keyword and at least the ratio of them |
| `ForwardScan.HitDocsAreScanned` | src/retrieval/retrieval_handler.cpp:30-63 | the selected entries are those of a scan through the stories |
| `ForwardScan.RetrieveQuiet` | src/retrieval/retrieval_handler.cpp:30-63 | on a quiet index the answer is the best of its stories that pass the ratio, each scored by its request keywords |
| `ForwardScan.RetrieveShown` | src/retrieval/retrieval_handler.cpp:30-63 | the answer is the best of the stories that iterators see and that pass the ratio, each scored by its request keywords |
| `ForwardScan.MidwayShows` | src/indexing/iterator.cc:20-36 | between mark and clear iterators already see exactly what the clear will leave |
| `ForwardScan.Process` | src/indexing/index_build_thread.cc:58-117 | the operations on the shared maps follow the run of additions and cleanings |
| `Sds.RangeDropsPrefix` | src/hiredis/sds.cc:219-248 | the range from a position to -1 is the rest of the string |
| `Sds.RangeCutsOut` | src/hiredis/sds.cc:219-248 | a non-empty part in the middle is cut out by its indices, counted from either end |
| `Sds.RangeClamps` | src/hiredis/sds.cc:219-248 | indices past the ends stop there; a start behind the end or past the string gives nothing |
| `Sds.Sds.MakeRoomFor` | src/hiredis/sds.cc:88-106 | the contents stay and there is room; a grown buffer holds twice the needed length |
| `Sds.Sds.CatLen` | src/hiredis/sds.cc:127-139 | the bytes are appended, in place when they fit |
| `Sds.Sds.Range` | src/hiredis/sds.cc:219-248 | the buffer holds the range, with negative and clamped indices, and keeps its size |
| `Sds.Bounds` | src/hiredis/sds.cc:223-242 | the index arithmetic yields start and length of the slice |
| `SdsSplit.SplitLen` | src/hiredis/sds.cc:290-344 | the slots hold the tokens cut at leftmost separators; every write is within the doubled slots |
| `SdsSplit.OneByteJoints` | src/hiredis/sds.cc:290-344 | for a one-byte separator that is so whenever no token holds it |
| `SdsQuote.CatRepr` | src/hiredis/sds.cc:379-405 | the quoted form is appended |
| `SdsQuote.ReadToken` | src/hiredis/sds.cc:428-482 | one token with its quotes and escapes, or failure |
| `SdsQuote.SplitLine` | src/hiredis/sds.cc:419-502 | the arguments of the line, or failure for unbalanced quotes |
| `SdsQuote.SplitOfRepr` | src/hiredis/sds.cc:416-502 | what comes back for arbitrary bytes: other bytes become x and two hex digits |
| `SdsLine.PrintableIsItself` | src/hiredis/sds.cc:379-405 | printable text without quotes and backslashes stands between the quotes as it is |
| `SdsLine.EscapedBytes` | src/hiredis/sds.cc:379-405 | other bytes become a backslash and the byte, the letter of its C escape, or x and the two hexadecimal digits of its number |
| `HashRing.HashRing.AddNode` | src/redis_cluster.cc:7-15 | the node takes over the hashes of its name with each replica number appended, no other point changes hands or appears, and the last one is returned |
| `HashRing.HashRing.RemoveNode` | src/redis_cluster.cc:18-25 | the points counted by the node found at the first point go; a missing first point is created |
| `HashRing.HashRing.GetNode` | src/redis_cluster.cc:28-38 | the node at the point with the least clockwise distance from the key |
| `HashRing.OwnerIsLowerBound` | src/redis_cluster.cc:28-38 | that is the least point not below the hash, and past the last point the least of all |
| `HashRing.SuffixIsTheNumber` | src/redis_cluster.cc:40-46 | the suffix is the replica number in base ten below a thousand million, and its first nine digits from there on |
| `HashRing.AllReplicasPlaced` | src/redis_cluster.cc:7-15 | without hash collisions among its replica strings a node of up to a thousand million replicas gets one point for each |
| `HashRing.RemoveMovesOnlyItsOwn` | src/redis_cluster.cc:7-38 | removing a collision-free node changes the owner only of its own keys |
| `HashRing.SameMembersSameRing` | src/redis_cluster.cc:7-25 | a ring is determined by its members |
| `HashRing.HistoryHolds` | src/redis_cluster.cc:7-25 | after any collision-free history the ring holds exactly the points of the present members |

## Left out

- Bytes.ReadLongLongDecimal: numbers are unbounded, so 64-bit overflow in readLongLong, counts beyond int and 32-bit document ids are not modelled.
- Reader.RedisReader.Create: reply objects live in a growing arena and are named by allocation number; freeing them, the duplicated string bytes and failed allocations are not modelled.
- FormatString.FormatV: only literals, spaces, %s, %b and %%; the printf integer and double conversions rest on va_list and libc.
- Formatter.FormatArgv: argument lengths are those of the byte sequences; the variant that measures arguments with strlen is the same formatter on shorter arguments.
- AsyncSession.Session: pub/sub, connection setup and the disconnect callback are left out; what user callbacks do is an arbitrary parameter.
- AsyncWire.WireSession: the reader is followed through the whole wire before the callbacks run; neither touches the other, so the order makes no difference.
- Lock.MutualExclusion: each server command is one atomic step, clock readings are parameters between 1 and LOCK_FOREVER, and connection retries are excluded.
- EventLoop.PortReplay: timers, the poll timeout and event handlers are left out; what the kernel grants and reports is a parameter, and event masks are sets.
- Dict.NextPower: the cap at LONG_MAX is not modelled.
- Dict.Table.Delete: key and value destructors and duplication hooks are left out.
- PostingReader.ReaderSafety: each iterator call, push and clear is one step; util/containers/lockless_list.h is not part of this model, and neither is memory order.
- Indexing.InstantIndex.AddStory: each phase of the builder and the cleaner is atomic; locks, counters and the story pool are left out.
- Retrieval.ResultSet.Dump: std::sort is replaced by an insertion sort; only its contract is used, so the order of equal scores stays open.
- Retrieval.Retrieve: scores and the ratio are reals, and the index does not change while a request is served.
- Sds.Sds.MakeRoomFor: failed allocations and size_t overflow are not modelled.
- SdsSplit.SplitLen: a negative length cannot be expressed; failed allocations are not modelled.
- SdsQuote.SplitLine: the two NULL results (no arguments, failure) are distinguished as the argument count distinguishes them.
- HashRing.HashRing.AddNode: the hash is an arbitrary function that includes the cut at the first NUL; the value returned for no replicas is undefined in the original.
- Sockets, reconnection and the redispp wrappers: network plumbing.
- Replay logs, log cleanup, thrift and LevelDB: file I/O and unseen libraries.
- Plugin loading, configuration, server mains, monitor counters: nothing to prove beyond the code.
- The other sds operations (case conversion, trimming, comparison, printf) and adlist.c: they would only add easy members.
- TranslateToGlobalIDBatch and GetPostingListBatch: loops over the single lookups.
