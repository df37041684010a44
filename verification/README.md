# Coypu: verified models of its stateful containers and protocols

Coypu is a single-threaded cache for market data. Its core is a handful of hand-written
containers and small step protocols. Each has a simple specification that it has to agree
with, and the proofs here are about that agreement:

- **The paged log** (`src/main/store/store.h`). Data is written through one mapped page at a
  time and read back through a cache of mapped pages. The file is one byte sequence that the
  pages are views of. The whole stack behaves as one flat byte sequence (`WriteBuffer`,
  `PageCaches`, `LruTheory`, `OneShot`, `RWStream`, `DropBehind`, `LogRuns`, `Cursors`).
- **The circular buffer** (`src/main/buf/buf.h`): fifteen operations that refine one FIFO
  queue, including claim, give-back and un-read (`BipBuf`, `BipBufRuns`).
- **Tags** (`src/main/cache/tagcache.h`, `src/main/event/event_mgr.h`). A restorable log of
  tag names (`TagStore`, `TagStoreRuns`), and the delivery of tagged slices to clients over an
  eventfd and epoll: exactly once, in order, with no lost wakeup, and with rest reached after
  finitely many events (`Delivery`, `Wakeups`, `EventLoop`, `TagStream`).
- **WebSocket frames** (`src/main/http/websocket.h`): the incremental parser, the frame
  writer, and what the one makes of the other (`Framing`, `WebSocket`, `FrameQueue`,
  `WebSocketRuns`).
- **The order book** (`src/main/book/level.h`): sorted vectors of nodes, a free list threaded
  through the nodes and a bump allocator, refining two price tables (`PriceTable`,
  `OrderBook`).

`Sequences`, `Pages` and `Words` hold the vocabulary the others share.

## How to read the proofs

The source's objects are classes with the source's fields; each method is proved against what
it does to an abstract value (`Contents`, `Log`, `Unread`, `State`, `Entries`), and the
theorems are lemmas about those values or methods that run whole scripts. Invariants are often
written as an equation with `true`, which keeps the verifier from taking them apart at every
call. Kernel calls are parameters: a read is a `ReadReply`, a write callback is what it
accepted, a socket is the list of answers it will give, and an epoll batch is a list of events.

Where the code does not do what the surrounding code intends, the code is modelled as it is
and the exact condition under which it is right is proved:

- peeking in the circular buffer (`PeekIsPrefixExactlyWhen`), its gathered write with head 0
  (`Writev`), sending the whole queue while head is at the capacity (`Write`, `Writev`) and its
  direct read of wrapped data (`Direct`);
- pushing after `SetPosition` (`AppendAfterSetPositionExactlyWhen`,
  `AddedAfterRestoreExactlyWhen`), giving back more than the page has, or to a page that is
  unmapped by then (`ZeroCopyWriteBackup`), reading behind a drop-behind cache
  (`PopIsSliceExactlyWhen`), searching a log whose last page is full (`Find`), unmasking in pages
  that are mapped for reading only (`UnmasksExactlyWhen`, and what it does to a connection: `Feed`),
  and a gathered write over a drop-behind cache (`DropBehind.Gather`);
- restoring tags (`RestoredExactlyWhen`); the endless loop at an ephemeral tag from before a
  client's start mark (`EndsExactlyWhen`), where the code compares a stream offset with a
  position in the tag log; late subscriptions (`SubscribeWakesExactlyWhen`) and tags for one
  descriptor (`DirectTagWakesExactlyWhen`);
- masked frames with an extended length (`MaskedRoundTripExactlyWhen`), the length 65535
  (`ShortestExactlyWhen`) and the test for free space (`QueuedWholeExactlyWhen`,
  `CutExactlyWhen`).

`PopAll` has one case that a caller would not expect: after `Readv` left `tail` at the
capacity, the callback may be called with an empty piece first.

Two signals of the kernel are modelled, both as a result `fault`. A copy of the paged log that
asks for more than is available still succeeds while it stays in the file, where bytes that no
one has written are zero; but when the last page of the file is full, `Pop` and `Find` go on to
a page past the end of the file, which the kernel maps but does not let anyone touch
(`FaultsExactlyWhen`). And the pages of an `LRUCache` are mapped for reading only
(`src/main/file/file.cpp:103-105`), so that `Unmask` faults at the first byte it stores; a masked
text or ping with a payload therefore ends a connection whose log has such a cache.

## Model

| member | source | states |
|---|---|---|
| PageCaches.LRUCache.FindPage | src/main/store/store.h:449-485 | the lookup returns the page of the offset, mapped at index*pageSize; it moves or maps that page in front, keeps every other entry and its mapping, and evicts only the last of a full deque |
| PageCaches.LRUCache.Search | src/main/store/store.h:452-460 | the scan of the deque finds the page's entry exactly when it is cached |
| PageCaches.CacheIsDistinct | src/main/store/store.h:449-485 | no page stands twice in the deque, after any trace of lookups |
| LruTheory.CacheHoldsMostRecent | src/main/store/store.h:449-485 | after any trace the deque of a cache of k pages is the list of the k most recently used distinct pages, newest first |
| LruTheory.RecentIsByLastUse | src/main/store/store.h:449-485 | the reference list is ordered by the time of last use and holds exactly the pages of the trace |
| LruTheory.SmallerIsPrefix | src/main/store/store.h:449-485 | over one trace the list of a smaller cache is a prefix of that of a larger one |
| LruTheory.LargerNeverMissesMore | src/main/store/store.h:449-485 | over any trace a larger cache never maps more pages than a smaller one |
| OneShot.LiveUntilPassed | src/main/store/store.h:389-417 | over any history, an added page is in the cache if and only if no strictly later page was looked up since it was added |
| OneShot.FoundExactlyWhen | src/main/store/store.h:389-417 | over any history, a lookup inside a page finds it if and only if it was added and no strictly later page has been looked up since: every later lookup until then, none after |
| OneShot.OneShotCache.FindPage | src/main/store/store.h:389-405 | drops exactly the pages that end at or before the offset; it finds the page of the offset if and only if that page was added and no strictly later page was looked up since |
| OneShot.OneShotCache.PeakPage | src/main/store/store.h:375-387 | finds the page of the offset exactly when one is cached, and drops nothing |
| OneShot.OneShotCache.AddPage | src/main/store/store.h:407-420 | appends a page behind the others and keeps the history's account |
| WriteBuffer.PushAppends | src/main/store/store.h:31-49 | from the normal state a push of any length leaves the file with the old bytes followed by the data, across page boundaries |
| WriteBuffer.AppendAfterSetPositionExactlyWhen | src/main/store/store.h:31-49 | after SetPosition a push appends if and only if the data fits in the rest of that page, for every file and all data; otherwise the page is started over |
| WriteBuffer.PushOverflows | src/main/store/store.h:109-175 | what the file holds when data pushed after SetPosition does not fit: the rest of the data overwrites the beginning of that page |
| WriteBuffer.LogWriteBuf.Push | src/main/store/store.h:31-49 | the loop over pages leaves the file in the state of the reference function Pushed |
| WriteBuffer.LogWriteBuf.AllocatePage | src/main/store/store.h:148-175 | a page is added at the end of the file, zero-filled, and handed to the drop-behind cache |
| WriteBuffer.LogWriteBuf.Readv | src/main/store/store.h:51-68 | a read goes into the rest of the page and advances the position by what came |
| WriteBuffer.LogWriteBuf.ZeroCopyNext | src/main/store/store.h:80-93 | hands out the rest of the page, all of which counts as written |
| WriteBuffer.LogWriteBuf.Backup | src/main/store/store.h:95-99 | gives back bytes of the page being written, and fails when there are not as many |
| RWStream.LogRWStream.Push | src/main/store/store.h:624-628 | the log grows by exactly the data |
| RWStream.LogRWStream.Readv | src/main/store/store.h:630-635 | the log grows by exactly the bytes read; an error changes nothing |
| RWStream.LogRWStream.ZeroCopyWriteNext | src/main/store/store.h:613-617 | the log keeps its old bytes and grows by the run handed out |
| RWStream.LogRWStream.ZeroCopyWriteBackup | src/main/store/store.h:619-622 | the log can be written on, and has lost exactly the bytes given back, if and only if no more is given back than the page has and a drop-behind cache has not given up that page |
| RWStream.LogRWStream.Pop | src/main/store/store.h:698-723 | copies exactly the bytes from the first page the cache has; it succeeds if and only if they all lie in the file, and faults if and only if it runs into a page past the end of the file; the cache gives up no page past the last byte copied |
| RWStream.LogRWStream.FaultsExactlyWhen | src/main/store/store.h:698-723 | a copy faults if and only if pages are mapped on demand, the last page of the file is full with everything in it available, and the range ends past the file and begins before the end of the page behind it |
| RWStream.LogRWStream.Find | src/main/store/store.h:677-696 | finds the least match in the file exactly when there is one; it faults if and only if there is none, pages are mapped on demand, the last page of the file is full with everything in it available, and the search begins before the end of the page behind it |
| RWStream.LogRWStream.Peak | src/main/store/store.h:637-643 | the byte at an absolute offset |
| RWStream.LogRWStream.Unmask | src/main/store/store.h:653-675 | with a cache that maps on demand it faults if and only if there is a byte to store in a page that is mapped, and changes nothing; otherwise the k-th byte of the range, as far as that is mapped, is XORed with byte k modulo the length of the mask, across pages, and every other byte of the file stays; it succeeds if and only if the range is mapped |
| RWStream.UnmasksExactlyWhen | src/main/store/store.h:653-675 | a range that lies in the file is unmasked, for every file and mask, if and only if the pages can be stored into or the range is empty |
| RWStream.LogRWStream.XorInPlace | src/main/store/store.h:295-311 | the loop over one page: from any mask position, which byte of the mask meets which byte of the file, and that the others stay |
| RWStream.MaskedTwice | src/main/store/store.h:653-675 | unmasking twice restores the bytes (section 5.3 of RFC 6455) |
| RWStream.LogRWStream.Writev | src/main/store/store.h:727-752 | the bytes read through the gathered addresses at the time of the callback are those of the file at the start offset |
| RWStream.LogRWStream.WritevWritten | src/main/store/store.h:727-752 | a gather-write of written bytes sends the slice of the log at the start offset, as far as it was accepted |
| RWStream.LogRWStream.Gather | src/main/store/store.h:727-752 | with the LRU cache no page mapped earlier in the call is evicted or remapped before the callback; the runs cover min(size, CacheSize*pageSize - start%pageSize) bytes, as far as there are any |
| RWStream.LogRWStream.GatherPage | src/main/store/store.h:738-748 | one page of a gather-write keeps all earlier runs readable |
| DropBehind.Gather | src/main/store/store.h:727-752 | over a drop-behind cache a gather-write of written bytes is refused if and only if its first page is not cached any more; otherwise it gathers one run a page, each at its page, with its offset and length there; what can be read through those addresses at the time of the callback is what lies in the last of the pages, which is what was asked for if and only if all of it lies in one page |
| RWStream.LogRWStream.SetPosition | src/main/store/store.h:754-756 | the write position is at the offset; what is available stays as it was |
| LogRuns.PopIsSliceExactlyWhen | src/main/store/store.h:698-723 | a copy yields the slice asked for, for every file, if and only if it does not start below the oldest page the cache has |
| LogRuns.ClaimFillGiveBack | src/main/store/store.h:613-622 | claiming a run, filling its beginning and giving back the rest equals pushing those bytes |
| LogRuns.ReadWritten | src/main/store/store.h:698-723 | a copy of written bytes from the oldest cached page on always succeeds with the exact slice |
| LogRuns.FindWritten | src/main/store/store.h:677-696 | the least written match is found exactly when there is one; the scan faults if and only if there is none, the last page of the file is full and pages are mapped on demand |
| LogRuns.Run | src/main/store/store.h:613-723 | any mix of writes and reads: the log grows by exactly what the script writes, in order, and the copies are exactly the slices of its readable reads; with a drop-behind cache a read is readable when it starts no earlier than the page where the one before it ended |
| LogRuns.ReadsAreSlices | src/main/store/store.h:698-723 | every copy of a script is the slice at its position of the log as it is in the end |
| LogRuns.Write | src/main/store/store.h:613-635 | one write of a script adds exactly its bytes: pushed data always, what is read or put into a claimed run if it fits in the rest of the page, and nothing otherwise |
| Cursors.PositionedStream.Pop | src/main/store/store.h:816-822 | consumes and copies the first unread bytes; for more than is unread it succeeds if and only if the bytes are in the file, and says exactly when it faults |
| Cursors.PositionedStream.Skip | src/main/store/store.h:856-862 | consumes unread bytes, and refuses more than there are |
| Cursors.PositionedStream.Backup | src/main/store/store.h:848-854 | steps back; the stream stays readable exactly when the bytes stepped over are still cached |
| Cursors.PositionedStream.Peak | src/main/store/store.h:804-806 | the unread byte at a distance from the cursor, exactly when there is one |
| Cursors.PositionedStream.PopAt | src/main/store/store.h:824-829 | copies bytes of the file at an absolute offset and leaves the cursor; consumed bytes that are cached are copied exactly |
| Cursors.PositionedStream.Push | src/main/store/store.h:835-837 | the unread bytes grow by the data |
| Cursors.PositionedStream.Readv | src/main/store/store.h:831-833 | the unread bytes grow by what was read |
| Cursors.PositionedStream.Unmask | src/main/store/store.h:808-810 | XORs a range of the log, the k-th byte with byte k modulo the length of the mask, or faults when the pages are read-only and there is a byte to store; every other byte stays, and so does what is unread when the range was consumed |
| Cursors.PositionedStream.Writev | src/main/store/store.h:839-846 | what was sent is the first of the unread bytes and is consumed |
| Cursors.PositionedStream.ResetPosition | src/main/store/store.h:864-866 | nothing is unread any more |
| Cursors.MultiPositionedStreamLog.Writev | src/main/store/store.h:945-954 | what a descriptor was handed since its mark stays exactly the log between mark and cursor, over any short writes; every other cursor is unchanged |
| Cursors.MultiPositionedStreamLog.Mark | src/main/store/store.h:923-929 | the cursor and the account of a descriptor start at the offset; every other descriptor is unchanged |
| Cursors.MultiPositionedStreamLog.MarkEnd | src/main/store/store.h:931-937 | the same at the end of the log |
| Cursors.MultiPositionedStreamLog.Unregister | src/main/store/store.h:939-943 | the descriptor has no cursor any more; every other one is unchanged |
| Cursors.MultiPositionedStreamLog.Register | src/main/store/store.h:914-921 | a new descriptor gets a cursor and the table grows as needed; every other cursor is unchanged |
| Cursors.MultiPositionedStreamLog.Push | src/main/store/store.h:900-904 | appending keeps every descriptor's account |
| BipBuffer.BipBuf.Push | src/main/buf/buf.h:111-119 | appends one cell exactly when there is room |
| BipBuffer.BipBuf.PushAll | src/main/buf/buf.h:121-148 | appends a block exactly when it is not empty and fits, in every wrap position |
| BipBuffer.BipBuf.PushDirect | src/main/buf/buf.h:150-168 | hands out the free run at head and counts its cells as queued |
| BipBuffer.BipBuf.BackupDirect | src/main/buf/buf.h:170-192 | takes back the last cells, and refuses more than are queued |
| BipBuffer.BipBuf.Pop | src/main/buf/buf.h:194-226 | without peeking, the front of the queue is copied and removed; with peeking, nothing is removed and what is copied is stated exactly |
| BipBuffer.BipBuf.PopAll | src/main/buf/buf.h:228-254 | exactly what the callback acknowledged leaves the queue, also when a later piece is refused; how often it is called and how much it gets is stated for every position |
| BipBuffer.BipBuf.Skip | src/main/buf/buf.h:442-463 | removes the front of the queue, and refuses nothing or too much |
| BipBuffer.BipBuf.Peak | src/main/buf/buf.h:70-82 | the cell at a queue position, exactly when there is one |
| BipBuffer.BipBuf.Find | src/main/buf/buf.h:89-109 | the least queue position that holds the cell, exactly when there is one |
| BipBuffer.BipBuf.Read | src/main/buf/buf.h:256-273 | what was read is appended; head may end at the capacity |
| BipBuffer.BipBuf.Readv | src/main/buf/buf.h:347-388 | what was read is appended; head ends at the capacity exactly when an empty buffer at index 0 is filled |
| BipBuffer.BipBuf.Write | src/main/buf/buf.h:275-295 | what was sent is the front of the queue; it leaves the queue if and only if it is not all of a queue whose head is at the capacity, and otherwise every cell of the storage is queued again; when nothing of a full buffer is sent with both indices at the capacity, tail alone wraps, the flag stays and the queue is the same (`AfterFlagStays` says what follows) |
| BipBuffer.BipBuf.Writev | src/main/buf/buf.h:297-345 | the same for a gathered write; the lengths offered add up to the queue if and only if head is not 0 |
| BipBuffer.AfterFlagStays | src/main/buf/buf.h:194-226 | after such a write, dequeuing fewer cells than there are leaves the others, and dequeuing all of them at once queues every cell again |
| BipBuffer.BipBuf.Backup | src/main/buf/buf.h:394-417 | the cells before tail come back in front of the queue, in every wrap position, and the full flag says when all cells are queued |
| BipBuffer.BipBuf.Direct | src/main/buf/buf.h:420-440 | hands out and removes the front run; on wrapped data that is not full the length comes out negative and the run at tail is lost |
| BipBufferRuns.PeekIsPrefixExactlyWhen | src/main/buf/buf.h:221-223 | a peeking Pop copies the front of the queue for all contents if and only if the data is wrapped, or full, or starts at cell 0 |
| BipBufferRuns.PopThenBackup | src/main/buf/buf.h:194-417 | popping and un-reading the same number of cells restores the queue in every position, and the full flag of a full buffer |
| BipBufferRuns.SkipThenBackup | src/main/buf/buf.h:394-463 | skipping and un-reading the same number of cells does, too |
| BipBufferRuns.Perform | src/main/buf/buf.h:111-417 | a call has the effect that it has in the state before it, and is refused when it is not within its contract; the queue, the ring and the indices change by that effect only |
| BipBufferRuns.StepLeaves | src/main/buf/buf.h:111-417 | what each call leaves in the queue, in terms of its arguments and the queue before it; a call outside its contract changes nothing |
| BipBufferRuns.ClaimThenGiveBack | src/main/buf/buf.h:150-192 | claiming, filling the first cells and giving the rest back equals pushing those cells, for the queue and for the ring |
| BipBufferRuns.Run | src/main/buf/buf.h:111-417 | over any run of calls, every call has exactly the effect that it has in the state before it, or is refused, and the cells that left followed by the queue are exactly the cells that entered, in order |
| BipBufferRuns.Account | src/main/buf/buf.h:111-417 | one call of any kind keeps that account |
| BipBuffer.WindowIsNewest | src/main/buf/buf.h:51-67 | the queue is the newest part of the ring, whatever the indices and the flag |
| TagStore.TagStore.GetOrCreateTag | src/main/cache/tagcache.h:149-152 | an existing tag keeps its id, a new one gets the next id and its record is written; too long a tag changes nothing |
| TagStore.TagStore.Append | src/main/cache/tagcache.h:163-181 | a tag of at most 128 bytes gets the next id and its record is behind the others: its length in one byte, seven zeros, and the characters |
| TagStore.TagStore.FindTag | src/main/cache/tagcache.h:154-161 | finds the first id of a tag exactly when it is in the table |
| TagStore.TagStore.Restore | src/main/cache/tagcache.h:109-142 | the table, the offset and the result are those of the reference parser on the file, and the write position is behind the last record; it faults exactly when a record's length points past the end of the file |
| TagStore.ParseInside | src/main/cache/tagcache.h:109-142 | whatever the file holds, reading its records never gets past its end |
| TagStoreRuns.RestoredExactlyWhen | src/main/cache/tagcache.h:109-142 | restoring a padded log is complete if and only if no tag is empty and the padding is 0 or has room for a length |
| TagStoreRuns.ParseEncoded | src/main/cache/tagcache.h:109-142 | what is read back from any encoded list with any zero padding |
| TagStoreRuns.AddedAfterRestoreExactlyWhen | src/main/cache/tagcache.h:140-181 | a tag added after a restore lands behind the restored ones if and only if its record fits in the rest of the page |
| TagStoreRuns.MutuallyInverse | src/main/cache/tagcache.h:144-181 | without duplicates, ids and tags determine each other |
| TagStoreRuns.WriteAndReopen | src/main/cache/tagcache.h:109-181 | a store has the names in the order of their first occurrence, and a second store opened on its file has the ones before the first empty name; it has all of them, with the same ids both ways, if and only if no name is empty and the padding is 0 or has room for a length |
| TagStoreRuns.FirstsAreTheNames | src/main/cache/tagcache.h:149-181 | the tags of a store are the names that are not too long, without duplicates |
| TagStoreRuns.FirstsAreInOrder | src/main/cache/tagcache.h:149-181 | a tag with a smaller id occurred before one with a larger id |
| TagStoreRuns.SameTables | src/main/cache/tagcache.h:144-161 | equal lists of tags give the same ids, and ids and tags determine each other in both tables |
| Words.LittleEndianRoundTrip | src/main/cache/tagcache.h:163-175 | the length of a record comes back from its bytes |
| Words.LittleEndianAt | src/main/cache/tagcache.h:163-168 | the byte at an index of a record's length is that of its weight, the least significant first |
| Words.EightLittleBytes | src/main/cache/tagcache.h:118-121 | what the eight bytes of a record's length say, each with its weight |
| Words.BigEndianAt | src/main/http/websocket.h:304-313 | the byte at an index of an extended length is that of its weight, the most significant first (network byte order) |
| Words.EightBytes | src/main/http/websocket.h:556-559 | what the eight bytes of an extended length say, each with its weight |
| Words.TwoBytes | src/main/http/websocket.h:552-555 | what the two bytes of an extended length say |
| Delivery.TurnSends | src/main/cache/tagcache.h:268-319 | one pass of the loop sends exactly the bytes between the two positions of the cursor |
| Delivery.TurnsSend | src/main/cache/tagcache.h:261-323 | after any number of passes the bytes sent are the slices of the matching tags passed, and the sent part of the current one |
| Delivery.EndsExactlyWhen | src/main/cache/tagcache.h:267-323 | the call comes back whatever the socket does if and only if no ephemeral tag from before the client's start mark is within its reach of 16 tags |
| Delivery.HangsAt | src/main/cache/tagcache.h:286-293 | a socket with room and an ephemeral tag within reach that points before the start mark: the call never comes back |
| Delivery.ServeReturns | src/main/cache/tagcache.h:261-323 | at most 16 tags are finished; 0 means nothing is left, 1 that there is more, and with a socket that has room 1 only after 16 tags |
| Delivery.FailsExactlyWhen | src/main/cache/tagcache.h:271-314 | a call fails if and only if the socket answered an offer below zero, and then it offers nothing more |
| Delivery.TurnsMoveOn | src/main/cache/tagcache.h:261-323 | with a socket that takes at least one byte of its first offer, a call sends a byte or finishes a tag, unless the client had come to the end |
| Delivery.DeliverAdds | src/main/cache/tagcache.h:261-323 | what is owed for consecutive ranges of tags composes, so calls compose |
| Delivery.DeliverStays | src/main/cache/tagcache.h:261-323 | what was owed does not change when tags are queued later |
| Delivery.ShareIs | src/main/cache/tagcache.h:295-301 | what a client is owed for one tag: the bytes at the offset the tag names, if the tag is for that descriptor or for one it subscribed to, and nothing otherwise |
| Delivery.DeliverIsExpected | src/main/cache/tagcache.h:261-323 | for broadcast tags, what a client is owed is what its subscriptions alone say |
| TagStreams.TagStream.StreamWrite | src/main/cache/tagcache.h:261-323 | the loop over tags, with partial writes and skipped tags, is the call that the delivery lemmas are about; only this client's record changes |
| TagStreams.TagStream.Pass | src/main/cache/tagcache.h:268-319 | the body of the loop, branch by branch, is one turn |
| TagStreams.TagStream.Register | src/main/cache/tagcache.h:325-336 | a new client starts unregistered, without subscriptions and with its mark at the size of the tag log in bytes; an existing one gives -1; no other client changes |
| TagStreams.TagStream.Start | src/main/cache/tagcache.h:349-358 | the client runs from the offset, which is also where its account starts, and waits for EPOLLOUT; an unknown one gives -1 |
| TagStreams.TagStream.Subscribe | src/main/cache/tagcache.h:374-383 | the client is in the tag's audience and the tag in its subscriptions; no other audience or client changes |
| TagStreams.TagStream.Queue | src/main/cache/tagcache.h:439-446 | the tag is behind the others in the log, nothing of the clients changes, and the eventfd waits for EPOLLOUT |
| TagStreams.TagStream.Read | src/main/cache/tagcache.h:385-422 | drains the next 128 tags, or as many as there are, arming each one's running subscribers, empties the counter and re-arms the eventfd when some are left; -1 when the counter was zero |
| TagStreams.TagStream.Wake | src/main/cache/tagcache.h:406-410 | exactly the running, open subscribers of the tag are armed |
| TagStreams.TagStream.Write | src/main/cache/tagcache.h:424-437 | the eventfd's counter grows by the size of the tag log |
| TagStreams.Loop.Wait | src/main/event/event_mgr.h:119-192 | a batch of captured events: every descriptor that hung up, or had a callback that answered below zero, is neither registered nor armed, every other one still is registered, and apart from that the state is the one its events lead to, one after the other; the invariant holds again |
| TagStreams.Loop.Dispatch | src/main/event/event_mgr.h:131-164 | the callbacks of one event, for reading and then for writing, and the reaction to their results |
| TagStreams.EventManager.SetWrite | src/main/event/event_mgr.h:92-97 | arms a registered descriptor and fails for another one |
| TagStreams.EventManager.ClearWrite | src/main/event/event_mgr.h:99-104 | disarms the descriptor |
| TagStreams.EventManager.Unregister | src/main/event/event_mgr.h:106-111 | the descriptor is neither registered nor armed |
| Wakeups.ServeExact | src/main/cache/tagcache.h:261-323 | exactly-once: the bytes a socket took stay the concatenation of what its client is owed up to the cursor, and the sent part of the next tag |
| Wakeups.ServeKeeps | src/main/cache/tagcache.h:261-323 | serving an armed client keeps the whole invariant, whatever the socket answers |
| Wakeups.DrainOneWakes | src/main/cache/tagcache.h:393-411 | after a tag is drained every running client that is owed a drained tag is armed |
| Wakeups.ReadKeeps | src/main/cache/tagcache.h:385-422 | a read of a non-zero eventfd keeps the invariant |
| Wakeups.WriteKeeps | src/main/cache/tagcache.h:424-437 | writing the counter and clearing EPOLLOUT keeps the invariant |
| Wakeups.ActKeeps | src/main/cache/tagcache.h:325-446 | registering, subscribing in time, starting and queueing keep the invariant |
| Wakeups.SubscribeWakesExactlyWhen | src/main/cache/tagcache.h:374-383 | after a late subscription its client is awake if and only if it is armed or no drained tag of that name lies ahead of its cursor |
| Wakeups.DirectTagWakesExactlyWhen | src/main/cache/tagcache.h:399-400 | draining a tag addressed to one descriptor leaves that client awake if and only if it was armed already or is past the tag |
| EventLoop.WaitKeeps | src/main/event/event_mgr.h:119-192 | one batch keeps the invariant whatever the sockets and the read callbacks do |
| EventLoop.ClosedExactly | src/main/event/event_mgr.h:131-174 | a batch closes exactly the descriptors that hung up or had a callback that answered below zero |
| EventLoop.NoLostWakeup | src/main/event/event_mgr.h:119-192 | in every run of the loop the invariant holds, the tag log has the tags that the program and the read callbacks queued, in order, and the clients are those that registered, as they subscribed and started; where the loop rests every client that was started and is still registered got exactly the bytes that the tags it subscribed to point to, from where it started on |
| EventLoop.RunKeeps | src/main/event/event_mgr.h:119-192 | a run keeps the invariant and the account of what the program did: tags queued, clients registered with their marks, subscriptions and starts |
| EventLoop.QuietMeansDelivered | src/main/cache/tagcache.h:374-446 | with nothing armed and a zero counter, every tag is drained and delivered exactly once and in order |
| EventLoop.Progress | src/main/event/event_mgr.h:119-161 | every event served, however few bytes its socket takes, strictly decreases what is left to drain, send and wake |
| EventLoop.BatchProgress | src/main/event/event_mgr.h:119-192 | every batch of such events strictly decreases it too, and closes nobody |
| EventLoop.SomethingToServe | src/main/event/event_mgr.h:119-161 | while the loop is not at rest some event, and so some batch, can be served |
| EventLoop.Settle | src/main/event/event_mgr.h:119-161 | whatever batches are served, in whatever order, and if every socket takes at least a byte a time, the loop comes to rest after finitely many, with everything delivered |
| Framing.UnmaskedRoundTrip | src/main/http/websocket.h:286-316 | the header read back is the one written, for every unmasked length below 2^64, and agrees with section 5.2 of RFC 6455 |
| Framing.MaskedRoundTripExactlyWhen | src/main/http/websocket.h:517-571 | masked headers come back for every mask if and only if the length is at most 125 |
| Framing.MaskedLayout | src/main/http/websocket.h:286-316 | by the layout of section 5.2 of RFC 6455 every masked header that is written can be read |
| Framing.ReadsLayout | src/main/http/websocket.h:517-571 | without a mask, or without an extended length, the reader follows the layout of section 5.2 of RFC 6455 |
| Framing.ShortestExactlyWhen | src/main/http/websocket.h:293-314 | the shortest length form is used for every length except 65535 |
| Framing.HeadSpelled | src/main/http/websocket.h:286-316 | byte by byte, the header that is written: the final-fragment bit and the opcode, the mask bit and the short length, and the extended length in network byte order |
| Framing.HeadInReads | src/main/http/websocket.h:534-563 | byte by byte, the header that is read: opcode, mask bit, mask, and the extended length behind the mask in network byte order |
| Framing.PayloadTaken | src/main/http/websocket.h:469-515 | taking a complete payload dispatches its message, for all bytes that may still arrive |
| Framing.MessageTaken | src/main/http/websocket.h:469-515 | handling a payload leaves the payloads handled before where they were taken, and its own, unmasked when that is asked for, at its offset; it faults if and only if the message stores into a read-only page |
| Framing.HeadTaken | src/main/http/websocket.h:517-571 | taking a complete header keeps the parser on track, for all bytes that may still arrive |
| Framing.AllTakenForGood | src/main/http/websocket.h:726-737 | after a close frame no later byte yields a message |
| Framing.FirstTaken | src/main/http/websocket.h:691-737 | whatever arrives, the messages dispatched are the first ones of the whole |
| Framing.AllSparedExactlyWhen | src/main/http/websocket.h:480-498 | all messages can be handled if and only if pages can be stored into or none is a masked text or ping with a payload |
| Framing.XorTwice | src/main/http/websocket.h:428-438 | masking twice restores the payload (section 5.3 of RFC 6455) |
| WebSocket.Connection.DoOpen | src/main/http/websocket.h:517-571 | a header is taken if and only if all of it is there in the 32-bit count of available bytes; its fields are those of the bytes, one by one, in the source's order |
| WebSocket.Connection.DoOpenData | src/main/http/websocket.h:469-515 | a message is handled exactly when all of its payload is there; of masked texts and pings the k-th byte is XORed in the log with byte k modulo 4 of the mask, and every other byte of the log, and every other payload, stays; it closes at opcode 8, and faults at a payload that must be stored into a read-only page |
| WebSocket.Connection.ReadHeader | src/main/http/websocket.h:537-563 | the fields are those of the header the unread bytes begin with, byte by byte: the mask before the extended length, which is in network byte order |
| WebSocket.Connection.Unmask | src/main/http/websocket.h:480-484 | the k-th byte of the payload in the log is XORed with byte k modulo the length of the mask, unless the page is read-only and the payload is not empty, which faults; every other byte stays |
| WebSocket.Connection.ProcessState | src/main/http/websocket.h:691-737 | true only with fewer bytes available than before, and some left; false only when nothing more can be dispatched and less than a header or than the payload due is left, as far as that can be counted in 32 bits, or with a fault at a message that must be stored into a read-only page |
| WebSocket.Connection.Read | src/main/http/websocket.h:207-237 | after every read that does not fault the messages dispatched are all complete messages of the bytes received, as long as a header that waits can be counted in 32 bits, which holds again after the read when it held with the bytes read; a closed connection takes nothing more, and answers an error when its other buffer is full |
| WebSocket.Feed | src/main/http/websocket.h:207-237 | chunk independence: however the bytes are cut into reads, the messages dispatched are those of the whole up to the first close, for all data when pages are at least 14 bytes below 2^32 and what waits before leaves room for a page in the 32-bit count; then less than a header, or than the payload due, waits afterwards; each payload lies as handled at its offset in the log; with read-only pages the messages are those before the first masked text or ping with a payload, and it faults if and only if there is one |
| WebSocketRuns.Talk | src/main/http/websocket.h:207-237 | frames fed to a new connection in any chunks are dispatched one by one with their opcodes and payloads, up to the first close, under the same condition, and lie in the log; with read-only pages up to the first masked one with a payload, where it faults |
| FrameQueue.Outbox.Queue | src/main/http/websocket.h:319-341 | what is added to the write buffer, or the refusal, for any state of the connection and any number of free cells |
| FrameQueue.Outbox.WriteFrame | src/main/http/websocket.h:286-316 | the header, byte by byte as section 5.2 of RFC 6455 has it and with its extended length in network byte order, is pushed exactly when the test for free cells passes |
| FrameQueue.Outbox.PushMask | src/main/http/websocket.h:434-438 | the payload is pushed as far as there is room, its k-th byte XORed with byte k modulo 4 of the mask; what was queued stays |
| FrameQueue.QueuedWholeExactlyWhen | src/main/http/websocket.h:292-341 | a frame is queued whole if and only if it fits, with four cells to spare when it has no mask |
| FrameQueue.CutExactlyWhen | src/main/http/websocket.h:292-341 | a frame is accepted but cut if and only if it is masked and up to four cells too long |
| FrameQueue.CutLeaves | src/main/http/websocket.h:318-341 | what is queued of a frame that is cut: its first bytes if the mask fits, and otherwise the header and the masked payload without the mask |
| FrameQueue.WireRoundTrip | src/main/http/websocket.h:286-571 | a sequence of written frames is read back as the same messages, up to the first close |
| FrameQueue.SparedAreReached | src/main/http/websocket.h:469-515 | the messages that can be handled are those of the frames before the first that must be stored into a read-only page |
| FrameQueue.AllAreTheFrames | src/main/http/websocket.h:469-515 | messages that answer to the frames sent are those frames one by one, up to and including the first close, or up to the first that must be stored into a read-only page |
| PriceTable.InsertKeepsOrder | src/main/book/level.h:193-200 | inserting at the lower bound keeps the side sorted; prices stay distinct if and only if the price is new |
| PriceTable.FoundAtBound | src/main/book/level.h:203-235 | a price is on the side exactly when it stands at its lower bound |
| PriceTable.InsertTable | src/main/book/level.h:193-200 | insertion of a new price adds exactly that price to the table |
| PriceTable.EraseTable | src/main/book/level.h:203-220 | erasing removes exactly that price from the table |
| PriceTable.UpdateTable | src/main/book/level.h:222-235 | updating changes exactly the quantity of that price |
| PriceTable.LastIsBest | src/main/book/level.h:182-190 | the last level has the best price of the side, also with equal prices |
| PriceTable.BestAreTheBest | src/main/book/level.h:263-277 | the levels shown are the best ones, best first, each better than all that are not shown |
| PriceTable.LastChangesStand | src/main/main.cpp:799-826 | after a feed every price of a side has the quantity of the last change for that side and price, is gone when that is 0, and is as before when there is none |
| PriceTable.FullestMoment | src/main/main.cpp:799-826 | the count kept with the tables is the number of levels at the fullest moment of the feed |
| OrderBook.CLevelFwdBook.FindBound | src/main/book/level.h:193-235 | the binary search ends at the lower bound |
| OrderBook.CLevelFwdBook.Insert | src/main/book/level.h:193-200 | the node stands at its lower bound and the others keep their order |
| OrderBook.CLevelFwdBook.Locate | src/main/book/level.h:203-215 | the index of the level with the price, exactly when there is one |
| OrderBook.CLevelFwdBook.GetBack | src/main/book/level.h:182-190 | the last level, if there is one |
| OrderBook.CLevelFwdBook.GetLevel | src/main/book/level.h:162-170 | the level at an index, if there is one |
| OrderBook.CLevelFwdBook.Remove | src/main/book/level.h:203-220 | the located node leaves the vector and the others keep their order |
| OrderBook.CLevelFwdBook.Update | src/main/book/level.h:222-235 | exactly the quantity of the located level changes |
| OrderBook.CLevelFwdBook.Snap | src/main/book/level.h:263-277 | the n best levels from the back, all of them for 0 |
| OrderBook.LevelAllocator.Allocate | src/main/book/level.h:30-43 | the i-th node is new and gets the i-th slot: page i/(PageSize/size), offset (i mod (PageSize/size))*size |
| OrderBook.SlotsDisjoint | src/main/book/level.h:30-43 | no two slots overlap, and each lies inside its page |
| OrderBook.NodesApart | src/main/book/level.h:30-43 | two different nodes ever allocated never overlap in memory |
| OrderBook.CBook.Allocate | src/main/book/level.h:408-421 | a node comes from the head of the free list, and from the allocator only when the list is empty; the partition of the nodes is kept |
| OrderBook.CBook.Free | src/main/book/level.h:423-430 | the node is put in front of the free list, which stays acyclic |
| OrderBook.CBook.InsertBid | src/main/book/level.h:307-311 | the bids gain the level at its place, the asks are unchanged, and the nodes allocated are as many as the book ever held at once |
| OrderBook.CBook.InsertAsk | src/main/book/level.h:313-317 | the same for the asks |
| OrderBook.CBook.UpdateBid | src/main/book/level.h:319-321 | the level's quantity changes if the price is there; the asks are unchanged |
| OrderBook.CBook.UpdateAsk | src/main/book/level.h:323-325 | the same for the asks |
| OrderBook.CBook.EraseBid | src/main/book/level.h:343-353 | the level leaves the bids if the price is there, its node is free; the asks are unchanged |
| OrderBook.CBook.EraseAsk | src/main/book/level.h:355-365 | the same for the asks |
| OrderBook.CBook.ClearBid | src/main/book/level.h:376-383 | the bids are empty and their nodes free; the asks are unchanged |
| OrderBook.CBook.ClearAsk | src/main/book/level.h:385-392 | the same for the asks |
| OrderBook.CBook.Clear | src/main/book/level.h:376-397 | both sides are empty and every node is on the free list |
| OrderBook.CBook.BestBid | src/main/book/level.h:368-370 | the highest price of the bid table, exactly when there is one, with the quantity of a level there |
| OrderBook.CBook.BestAsk | src/main/book/level.h:372-374 | the lowest price of the ask table, exactly when there is one, with the quantity of a level there |
| OrderBook.CBook.Snap | src/main/book/level.h:399-402 | the levels from the back of both sides, all of them for 0; with distinct prices these are the best ones of the tables, best first |
| OrderBook.CBook.Apply | src/main/main.cpp:810-826 | one change of the feed sets or takes out its price on its side, the other side is unchanged, and prices stay distinct |
| OrderBook.CBook.ApplyAll | src/main/main.cpp:799-826 | over a whole feed every price of each side has the quantity of the last change for it, and the nodes ever allocated are exactly as many as the levels at the fullest moment |

## Left out

- Integer widths, except where named: offsets, page indices and counts are natural numbers, so logs are taken to be below 2^32 pages and, for the drop-behind cache, below 2^32 bytes. `DoOpen` counts the available bytes in 32 bits, and that is modelled.
- Failing system calls: mapping and extending files always succeed.
- Destination buffers of `Pop` on the log are returned as sequences; null pointers are not modelled.
- Cursors.PositionedStream.Writev: requires that no more is asked for than is unread; otherwise the cursor may pass what is available.
- Cursors.MultiPositionedStreamLog.Writev: requires that no more is asked for than is available, as its callers do; otherwise the cursor passes what is available and the count of what is left wraps.
- Cursors.MultiPositionedStreamLog.Register: requires an offset that is not past what is available, for the same reason.
- Cursors.MultiPositionedStreamLog.Mark: the same.
- RWStream.LogRWStream.SetPosition: requires an offset in the file, because a position past it is mapped without extending the file, and a cache that maps on demand, because a drop-behind cache asserts that pages come in order.
- RWStream.LogRWStream.Writev: the kernel accepts nothing past the end of the file; with a callback that copies in user space the write would fault there instead.
- Cursors.PositionedStream.Unmask: requires an offset that a drop-behind cache still has.
- RWStream.LogRWStream.Unmask: pages of anonymous memory, which `MMapAnon` maps, can be stored into also by an LRU cache; that pairing is not instantiated anywhere and is not modelled.
- DropBehind.Gather: is stated for written bytes; more than is available makes the loop look up a page that is not there yet.
- BipBuffer.BipBuf.Writev: requires an answer of at most what is queued; with head 0 the length offered is a huge number, and a kernel that took more would have read past the storage.
- TagStreams.TagStream.StreamWrite: requires that no stale tag is within reach; when one is, the call does not come back (`HangsAt`).
- TagStreams.TagStream.Pass: the same, for one pass.
- TagStreams.Loop.Wait: the close callbacks and the counts of events per descriptor are not modelled.
- FrameQueue.Outbox.WriteFrame: lengths within 14 of 2^64, for which the sum in the test for free space wraps, and buffers of 2^32 cells or more.
- `PositionedStream::Find`, `MultiPositionedStreamLog::Pop`, zero-copy reads, the stream iterators and the protobuf adapters.
- BipBufferRuns.Run: a claim is filled and its rest given back before the next call (`ClaimAndFill`); `Direct` and peeking are not part of the scripts.
- `Unmask` of the circular buffer, which does nothing.
- The tag log is a sequence of records, and cursors count records; a start offset inside a record is not modelled. Records are read back through the paged log, whose exactness is proved separately.
- EventLoop.NoLostWakeup: tags are broadcast ones, subscriptions come before tags of that name, clients start once and at a record from which no tag is stale, and a descriptor number is not used again after a close, because `TagStream::Unregister` is not modelled.
- EventLoop.Settle: the program queues nothing meanwhile, and nothing hangs up.
- The streams a tag points into are their final contents; callbacks for streams are registered before the loop runs.
- `EventCBManager`: the same eventfd protocol with a queue of numbers and no clients.
- The HTTP upgrade, the key check and the handshake copy; the model of a connection begins when it is open and has a stream.
- The answer to a ping and the two assertions on it; the ping itself is unmasked and dispatched. Fragments are dispatched one by one, as the code does.
- A connection without a stream, or without a text callback.
- OrderBook.CLevelFwdBook.Remove: `Erase` of the vector is split into the search (`Locate`) and the removal.
- `CLevelBook`, which nothing uses, and the dumps.
- `seqcache.h`, HTTP/2 and gRPC, configuration, the command line, the BPF loader, the clients in other languages.
