# A verified model of win-xenvbd

win-xenvbd is a paravirtual block driver for Windows guests on Xen, together with a twin of it that
writes crash dumps. This project models the parts of both drivers whose correctness is not visible in
one function and proves what they promise. `dafny verify dfyconfig.toml` checks everything.

* **Reads and writes** (`Transfer`, `Requests`, `TransferFacts`, `DataMovement`). A scatter-gather list
  is cut into block requests of at most eleven segments. A segment is either the caller's own page,
  granted to the backend, or a bounce page that the rest of one page of the caller and the beginning
  of the next share. The loops of the driver are kept as loops; they are proved to make requests whose
  segments are the caller's bytes in order and whose sector ranges follow one another, never to fire
  an assertion of the driver, and to give back everything after a failure at any point.
  `DataMovement` adds a backend that goes by each request's operation and first sector, writes only
  where its grants let it, and performs the segments in any order; a read leaves the disk range in
  the caller's buffer, a write leaves the buffer on the disk, and nothing else changes.
  `RingBackend` has a backend that knows only what is on the ring and in the grant table, and shows that
  for the entries which the frontend makes of these requests it does the same.
* **The life of an SRB** (`DataPath`). Fresh, prepared, submitted, completed; put back when a step
  fails, reverted on resume, aborted on power down. Every accepted SRB is in exactly one place, what is
  in use is exactly what the requests of prepared and submitted SRBs hold, and an SRB ends good exactly
  when every request of a correct translation has been answered, once, and with success. Waiting SRBs
  are prepared and submitted in order, and go back to waiting in order; but a new SRB is prepared and
  submitted ahead of those that are still fresh.
  `Target` puts these queues, the ring and the frontend together, step by step: the identifier in each
  response belongs to exactly one request that is out. `Delivery` joins them to `RingBackend`: a read
  or write that ends good has moved the data that it was accepted for, through any number of suspends
  in between, if the backend reports success only for what it has done.
* **The shared ring** (`Words`, `SharedRing`, `FrontRing`). A state machine over the single memory
  accesses of both sides, with 32-bit indices that wrap around. No run loses a wakeup, delivers a
  message wrongly or overwrites a slot that somebody still has to read. The positions in the history
  part of a state count without bound and are never consulted by a step. `FrontRing` puts the
  frontend's own functions on top, with any number of backend steps between any two accesses.
* **The emergency heap** (`BigHeap`, `SubHeap`). A next-fit allocator of pages whose headers are joined
  only when an allocation fails, and inside single pages an allocator with boundary tags.
* **The XenStore transport** (`ByteRing`, `Store`). Requests in segments are fed into a ring of bytes
  whenever there is room; replies are put together from whatever has arrived. Both refine a stream of
  messages.
* **The connection to the backend** (`Frontend`). The states closed, prepared, connected and enabled,
  what is held in each, what is published in XenStore and after which answers of XenStore.
* **Smaller parts**: the queue of SRBs linked through the SRBs (`SrbQueue`), the free list of grant
  references (`GrantTable`), the pool of bounce pages (`BouncePool`) and the base 64 decoder (`Base64`).
  `Basics` and `Arithmetic` hold what several modules share.

Some properties that one might expect are false of the code. Each is stated with its exact condition:

* An allocation of pages does not always return. It never does if and only if no run of the wanted
  number of pages is free, more than one page is wanted, and the page at the cursor and the page before
  it are both free: compaction then absorbs the block at which the scan would stop
  (`BigHeap.BigHeap.AllocBig`; `BigHeap.SpinningHeap` is a run of calls that ends like this).
* Freeing a page at which no live run starts is not always without effect. It is if and only if the page
  is outside the heap or its header is not zero, that is, unless it lies inside a block whose header at
  that page was never written (`BigHeap.BigHeap.FreeBig`; `BigHeap.StrayFree` is a call on a new heap
  that puts it out of order).
* A second free of a small chunk is not always ignored. It is if and only if the first free neither
  joined the chunk to its left neighbour nor gave the page back; otherwise its size is counted as free
  twice (`SubHeap.SubHeap.FreeTwice`; `SubHeap.SecondFreeIsCounted` and `SubHeap.SecondFreeOfReleased`
  are runs of calls that end like this, one for each case).
* The range check of a read or write adds two 64-bit numbers without regard to overflow. It is right
  for every request if and only if the disk has at most 2^64 - 2^32 + 1 sectors
  (`TransferFacts.ValidateSectorsIsExact`).
* The assertions before a grant reference is put back do not catch every reference that is not in use.
  Besides references in use they let pass the last one of the free list, as soon as one is in use, and
  the one past the end of the table, when all are in use (`GrantTable.Table.AssertsOfPut`;
  `GrantTable.FreeOnePasses` and `GrantTable.PastTheEndPasses` are runs that reach each of the two).
* What the base 64 decoder accepts is not always what an encoder makes: a text that it accepts encodes
  back to itself if and only if its length is a multiple of four and the unused bits of its last digit
  are zero (`Base64.Reencodes`; `Base64.NotReencoded` shows a text for each way to fail).

## Model

| member | source | states |
|---|---|---|
| Transfer.AddressAt | src/xenvbd/pdo.c:884-910 | the bytes of a transfer are those that the elements of its list name, in order |
| Transfer.Phase | src/xenvbd/pdo.c:884-910 | the page offset of an element of a locked buffer's list depends only on how many bytes come before it |
| Transfer.ChunkLength | src/xenvbd/pdo.c:884-910 | a chunk that stops at a page boundary or the end of its element stops at a page boundary or the end of the whole transfer |
| Transfer.SgCursor.GetPhysAddr | src/xenvbd/pdo.c:884-910 | the walk over the list takes exactly the next bytes of the transfer, up to the end of the page or of the bounce page; the driver's assertions hold |
| Transfer.GrantedGeometry | src/xenvbd/pdo.c:1010-1018 | a chunk that starts on a sector boundary is a whole number of sectors and fits the sector bytes of a segment |
| Transfer.BouncedGeometry | src/xenvbd/pdo.c:1036-1071 | the size of a bounced segment is a whole number of sectors, at most one page, and at least the first chunk |
| Requests.AlignmentIsUniform | src/xenvbd/pdo.c:1008-1011 | whether a chunk is aligned is decided by the first byte of the whole transfer |
| Requests.GrantedPlan | src/xenvbd/pdo.c:1010-1018 | an aligned chunk covers its page up to the end of the page or the transfer, in whole sectors, and the assertion on the sector count holds |
| Requests.BouncedPlan | src/xenvbd/pdo.c:1036-1071 | a bounce page is filled by at most two chunks, of which the second starts a page, and together they end where the next bounce page begins |
| Requests.PlanSegment | src/xenvbd/pdo.c:1004-1071 | the next segment, granted or bounced, stands for exactly the next bytes of the transfer |
| Requests.PlanGranted | src/xenvbd/pdo.c:1010-1018 | the frame and sectors granted in place are the chunk itself |
| Requests.PlanBounced | src/xenvbd/pdo.c:1036-1071 | the one or two frames mapped for bouncing hold the next bytes of the transfer; the driver's three assertions hold |
| Requests.BounceSegment | src/xenvbd/pdo.c:1073-1100 | whatever was acquired before mapping or buffering failed is recorded in the segment |
| Requests.GrantSegment | src/xenvbd/pdo.c:1103-1113 | a grant covers the frame of the data, is read-only exactly for writes, and its sector bytes lose nothing |
| Requests.PrepareSegment | src/xenvbd/pdo.c:1006-1115 | one turn of the inner loop adds one correct segment, or fails with everything accounted for |
| Requests.FillRequest | src/xenvbd/pdo.c:1000-1122 | a request takes eleven segments unless the transfer ends first, and the sectors done never exceed the transfer |
| Requests.PrepareReadWrite | src/xenvbd/pdo.c:946-1133 | on success the requests are a translation of the transfer (bytes in order, sectors contiguous, full requests but the last) and hold exactly what was acquired; on failure nothing is held, and it fails only when something could not be acquired |
| Requests.Resources.CleanupSegment | src/xenvbd/pdo.c:778-806 | releases exactly the grant, the page and the mapping that one segment holds |
| Requests.Resources.CleanupRequest | src/xenvbd/pdo.c:765-808 | releases exactly what the segments of one request hold, wherever the request is among others |
| Requests.CleanupSrb | src/xenvbd/pdo.c:809-827 | releases exactly what the requests of one SRB hold and counts them off |
| Requests.Abandon | src/xenvbd/pdo.c:1130-1133 | a translation that failed gives back everything |
| Requests.CoveredCount | src/xenvbd/pdo.c:1000-1123 | the number of segments of a finished transfer is the number of pages it touches, after realignment if it is bounced |
| TransferFacts.RequestCount | src/xenvbd/pdo.c:985-1123 | the number of requests is the number of pages divided by eleven, rounded up |
| TransferFacts.MaximalTransfer | src/xenvbd/driver.h:44-48 | the longest announced transfer needs at most 17 requests, and at most 16 when it starts at a page or is bounced |
| TransferFacts.AllOrNothingBounced | src/xenvbd/pdo.c:1010-1013 | a transfer is granted in place throughout or bounced throughout |
| TransferFacts.BackendSector | src/xenvbd/pdo.c:995-998 | the sector at which the backend performs a segment is the one where its bytes belong |
| TransferFacts.NoSharing | src/xenvbd/pdo.c:1089-1111 | no two segments in use share a bounce page or a grant reference |
| TransferFacts.SectorByteIsExact | src/xenvbd/pdo.c:1112-1113 | the casts to a byte lose nothing for every sector of a page if and only if sectors have at least 16 bytes |
| TransferFacts.ValidateSectorsIsExact | src/xenvbd/pdo.c:1415-1425 | the wrapping range check is right for every request if and only if the disk has at most 2^64 - 2^32 + 1 sectors |
| TransferFacts.SectorNumbersFit | src/xenvbd/pdo.c:995-998 | where the check is right, every request starts on the disk |
| DataMovement.Job.ReadStep | src/xenvbd/pdo.c:786-793 | performing or completing one segment of a read keeps what the others have delivered |
| DataMovement.Job.WriteStep | src/xenvbd/pdo.c:1089-1100 | buffering or performing one segment of a write keeps what the others have delivered |
| DataMovement.Job.RunFrame | src/xenvbd/buffer.c:340-374 | no event changes memory outside the segments' pages and buffers, or the disk outside the segments' sectors |
| DataMovement.PieceFacts | src/xenvbd/frontend.c:483-492 | what the backend computes from a request's operation and first sector is, segment by segment, the operation and the place on the disk that the transfer is about |
| DataMovement.TransferLayout | src/xenvbd/pdo.c:1073-1114 | a translation assigns every byte of the buffer to one segment, bounce pages are apart from the buffer and each other, and the grants let the backend write exactly for reads |
| DataMovement.ReadDelivers | src/xenvbd/pdo.c:1352-1410 | a read, performed request by request in any order and completed, leaves the caller's buffer equal to the disk range, including what was bounced, and changes nothing but the buffer and the bounce pages |
| DataMovement.WriteDelivers | src/xenvbd/pdo.c:1089-1114 | a write, performed in any order, leaves the disk range equal to what the buffer held, including what was bounced, and changes neither the buffer, nor the rest of the disk, nor memory outside the bounce pages |
| RingBackend.RingReadDelivers | src/xenvbd/frontend.c:483-501 | a backend that goes by the ring entries of a read alone (operation 0, sector, grant references, first and last sectors) leaves the disk range in the caller's buffer and changes nothing else |
| RingBackend.RingWriteDelivers | src/xenvbd/frontend.c:483-501 | a backend that goes by the ring entries of a write alone (operation 1) leaves the caller's buffer in the disk range and changes nothing else but bounce pages |
| RingBackend.RingDoes | src/xenvbd/frontend.c:483-501 | whatever the order of events, what the backend does by the entries is what it should do by the requests |
| RingBackend.OrdersAre | src/xenvbd/frontend.c:483-501 | the entries say of every segment what its request says, in order |
| RingBackend.BarrierEntry | src/xenvbd/frontend.c:502-508 | the entry of a flush has operation 2, its sector and no segments, and moves nothing |
| RingBackend.HeldAreGranted | src/xenvbd/pdo.c:1103-1110 | the references that a transfer holds name its own pages in the grant table, because no two of them are the same |
| DataPath.Pdo.BuildIo | src/xenvbd/fdo.c:1420-1441 | an SRB that is accepted starts without requests and is counted; what it asks for is remembered |
| Delivery.GoodReadIsDelivered | src/xenvbd/pdo.c:1352-1410 | if the backend goes by the ring and answers a request with success only after performing all its segments, every read that has been completed as good has left the disk range in the buffer, both as they were when the SRB was accepted, whatever the order of segments and responses |
| Delivery.GoodWriteIsDelivered | src/xenvbd/pdo.c:1352-1410 | under the same condition, every write that has been completed as good has left the buffer in the disk range, both as they were when the SRB was accepted, and the rest of the disk as it was |
| Delivery.HasHistory | src/xenvbd/pdo.c:1352-1410 | the condition on the backend can be met whatever responses an SRB was completed with |
| Delivery.GoodIsFinished | src/xenvbd/pdo.c:1352-1410 | for an SRB that ended good, every segment has been performed and copied out, each after the step it depends on |
| Delivery.EventsOrderly | src/xenvbd/pdo.c:766-808 | copying out at each response, after copying in before submission, keeps the order that data movement depends on |
| Delivery.DistinctRequests | src/xenvbd/pdo.c:993-1000 | the requests of one transfer start at different sectors, so no two are alike |
| DataPath.Pdo.StartIo | src/xenvbd/pdo.c:1944-1968 | every SRB is completed at once, queued for shutdown, put at the end of the prepared order, or, when something cannot be acquired, at the end of the fresh queue, or resets the device; which of these follows from its address, its command, the state of the target and the sector check |
| DataPath.Pdo.Decide | src/xenvbd/pdo.c:1778-1942 | which status and SCSI status an SRB is handed back with, for each cause: wrong path, wrong unit, no such target, read-only disk, not connected, sectors off the disk, no barriers, commands that always succeed, unknown commands; the inquiry commands set a status and may set a SCSI status |
| DataPath.Pdo.HandBack | src/xenvbd/fdo.c:1464-1483 | an SRB that never goes to the backend is completed once |
| DataPath.Pdo.StartFlush | src/xenvbd/pdo.c:1843-1851 | a flush or shutdown waits at the end of the shutdown queue |
| DataPath.Pdo.StartPrepare | src/xenvbd/pdo.c:1474-1485 | a new SRB is prepared with a correct translation, or joins the fresh queue owning nothing because something could not be acquired |
| DataPath.Pdo.StartTransfer | src/xenvbd/pdo.c:1453-1517 | a new transfer comes last among all that is submitted or prepared, or last among the fresh; and what is then prepared first does not fit the ring |
| DataPath.Pdo.Prepare | src/xenvbd/pdo.c:1134-1165 | the requests of an SRB are made with everything they hold accounted for, or nothing is held |
| DataPath.Pdo.PrepareOne | src/xenvbd/pdo.c:1177-1204 | the head of the fresh queue becomes the tail of the prepared queue, or stays where it was owning nothing |
| DataPath.Pdo.PrepareFresh | src/xenvbd/pdo.c:1169-1209 | fresh SRBs are prepared from the front, in order, until something cannot be acquired |
| DataPath.Pdo.SubmitOne | src/xenvbd/pdo.c:1218-1236 | all requests of the head of the prepared queue go on the ring if and only if there is room for all of them; otherwise the queue is as before |
| DataPath.Pdo.SubmitPrepared | src/xenvbd/pdo.c:1211-1239 | prepared SRBs are submitted from the front, in order, until the next does not fit the ring |
| DataPath.Pdo.Answer | src/xenvbd/pdo.c:1352-1399 | a response takes one request off its SRB and releases what it holds; the status says success exactly while all responses have; an unsupported barrier switches barriers off |
| DataPath.Pdo.CompleteSubmittedRequest | src/xenvbd/pdo.c:1352-1410 | each response takes its request off the SRB and sets the status; the SRB is completed by the last response, once, and ends good if and only if every response since its submission was success |
| DataPath.Pdo.CompleteSubmitted | src/xenvbd/pdo.c:1397-1409 | the completed SRB leaves the submitted queue from any position |
| DataPath.Pdo.CompleteShutdown | src/xenvbd/pdo.c:1319-1338 | waiting flushes are completed, all and in order, if and only if nothing is fresh, prepared or submitted |
| DataPath.Pdo.EvtchnCallback | src/xenvbd/frontend.c:355-365 | the responses are taken in one by one (DataPath.OneResponse), what waits is prepared and submitted in order, and flushes complete exactly when nothing else is left; an SRB is left fresh only if something could not be acquired, prepared only if the first one left does not fit the ring, and waiting for shutdown only if another SRB is still in a queue |
| DataPath.Pdo.RevertPrepared | src/xenvbd/pdo.c:1268-1279 | the last prepared SRB becomes the first fresh one and gives back what it holds |
| DataPath.Pdo.RevertSubmitted | src/xenvbd/pdo.c:1285-1296 | the last submitted SRB becomes the first fresh one and gives back what it holds |
| DataPath.Pdo.CompleteResponses | src/xenvbd/frontend.c:311-348 | what has been submitted and completed afterwards is what the responses make of it, one after the other |
| DataPath.OneResponse | src/xenvbd/pdo.c:1352-1410 | a response gives its SRB one reply, with the request and the status, and takes the request off; the last one completes the SRB, as good if and only if no reply reports an error; other SRBs stay as they are |
| DataPath.ErrorIsNeverGood | src/xenvbd/pdo.c:1361-1364 | an SRB that gets an error in a list of responses is not completed as good by that list, whatever comes before or after |
| DataPath.LastResponseCompletes | src/xenvbd/pdo.c:1395-1409 | a list of responses with the one to an SRB's last request completes the SRB |
| DataPath.AfterKeeps | src/xenvbd/pdo.c:1395-1409 | responses lose no SRB and complete none twice |
| DataPath.Pdo.PreResume | src/xenvbd/pdo.c:1259-1300 | afterwards the fresh queue is the submitted, the prepared and the old fresh SRBs, in this order, each as it was but for its requests and status, and nothing is in use |
| DataPath.Pdo.SuspendLate | src/xenvbd/frontend.c:1406-1447 | a suspend takes the frontend down and up again; the SRBs in flight become fresh in their old order and own nothing, and it fails only with the store or the backend or for a frontend that was not yet closed |
| DataPath.Pdo.AbortOne | src/xenvbd/pdo.c:1757-1776 | an aborted SRB gives back what it holds and is completed once, as aborted; its status and all else stay as they are |
| DataPath.Pdo.AbortAllSrbs | src/xenvbd/pdo.c:1971-1981 | every SRB that was fresh, prepared or submitted is completed as aborted, in queue order, and nothing is in use |
| DataPath.Pdo.PowerDown | src/xenvbd/pdo.c:546-572 | when powering down returns, nothing is fresh, prepared or submitted, nothing is in use, and the frontend is disconnected and holds no ring |
| DataPath.Pdo.PauseDataPath | src/xenvbd/pdo.c:355-373 | pausing returns if and only if everything submitted has been completed; until then it goes on with whatever the backend answers |
| DataPath.Pdo.PdoReset | src/xenvbd/pdo.c:1853-1893 | a device reset first completes all fresh SRBs as aborted, in order, and returns if and only if everything prepared or submitted has been completed too, going on until then with whatever the backend answers; nothing is lost meanwhile |
| DataPath.Conservation | src/xenvbd/fdo.c:1273-1299 | in every state an accepted SRB is in exactly one queue, or completed exactly once, and CurrentSrbs counts those not completed |
| DataPath.EmptyRingAccepts | src/xenvbd/frontend.c:442-453 | an empty ring of at least 32 slots accepts the next prepared SRB, up to the longest transfer that the driver announces |
| DataPath.NothingInUse | src/xenvbd/pdo.c:729-764 | when nothing is prepared or submitted, all counters are zero and no grant or bounce page is in use |
| DataPath.ResetIsFresh | src/xenvbd/pdo.c:1241-1258 | a reverted SRB is as fresh as before it was first prepared |
| Words.CrossesExactly | src/xencrsh/frontend.c:303-305 | the 32-bit notification test holds if and only if some counter with the event's low bits lies between the old and the new index |
| Words.CrossesNearby | src/xencrsh/frontend.c:303-305 | within 2^32 of the two indices the test holds if and only if old < event <= new |
| Words.SlotOfWord | src/xencrsh/frontend.c:155-162 | masking a wrapped index picks the slot of the unbounded counter |
| Words.DifferentSlots | src/xencrsh/frontend.c:155-162 | positions less than the ring size apart are in different slots |
| SharedRing.Tests | src/xencrsh/frontend.c:123-129 | the driver's tests on wrapped indices say of the unbounded counters what they seem to say |
| SharedRing.StepOrder | src/xencrsh/frontend.c:163-203 | every step of either side keeps the indices in order and fewer requests than slots outstanding |
| SharedRing.StepSlots | src/xencrsh/frontend.c:236-284 | every step keeps unread responses and untaken requests in their slots |
| SharedRing.InitIsSafe | include/xen/io/ring.h:156-175 | a freshly initialised ring of any power-of-two size satisfies the invariant |
| SharedRing.StepAccounts | src/xencrsh/frontend.c:172-195 | every request taken has been answered once or is in the backend's hands |
| SharedRing.StepFrontWakes | src/xencrsh/frontend.c:130-143 | every step keeps the frontend's wakeup: an unseen response is pending, notified or about to be notified |
| SharedRing.StepBackWakes | include/xen/io/blkif.h:34-44 | every step keeps the backend's wakeup, by the same hold-off rule |
| SharedRing.ReachableIsSafe | src/xencrsh/frontend.c:163-306 | all of this holds in every state that any run of both sides reaches |
| SharedRing.NoLostWakeup | src/xencrsh/frontend.c:130-203 | whenever the frontend is outside its completion loop, every pushed response has been read, an event is pending, or the backend's test is about to send one; and the same for a sleeping backend |
| SharedRing.FaithfulQueues | src/xencrsh/frontend.c:163-203 | the frontend reads exactly the responses written, in order, and the backend takes exactly the requests inserted |
| SharedRing.SlotSafety | src/xenvbd/frontend.c:442-453 | inserting as many requests as the room test allows, writing a response and zeroing a read one never touch a slot that somebody still has to read |
| FrontRing.Ring.CompleteResponses | src/xencrsh/frontend.c:163-203 | the completion loop ends, whatever the backend does meanwhile, and when it does all responses pushed before it began have been read and none is missed |
| FrontRing.Ring.CompletionPass | src/xenvbd/frontend.c:309-347 | one pass reads at least the responses pushed when it began |
| FrontRing.Ring.FinalCheck | src/xencrsh/frontend.c:130-143 | the final check reports an unread response or leaves an event requested |
| FrontRing.Ring.SubmitRequest | src/xenvbd/frontend.c:455-537 | the entries of all requests of an SRB, with operation, sector and segments, go on the ring, or none, and which of the two is decided by the room |
| FrontRing.Ring.PushRequests | src/xencrsh/frontend.c:284-306 | everything inserted is published, and a sleeping backend has taken it all or has been woken |
| FrontRing.Background | include/xen/io/blkif.h:34-44 | no sequence of backend steps disturbs what the frontend relies on |
| FrontRing.IdleMissesNothing | src/xencrsh/frontend.c:130-143 | outside its loop the frontend never misses a response |
| Target.Target.SubmitOne | src/xenvbd/pdo.c:1218-1236 | the queues' test for room and the ring's agree; the entries on the ring are those of the SRB that becomes submitted, and they are published; every entry ever put on the ring has been answered or belongs to one outstanding request |
| Target.Target.Complete | src/xenvbd/frontend.c:319-343 | the identifier in the response read is that of exactly one outstanding request; the submitted SRB that owns it has that request less out, with the status of the response, or is completed by it; the entries on the ring remain those answered and those outstanding |
| Target.NextIsOut | src/xenvbd/frontend.c:319-343 | the next response on the ring carries the identifier of a request that is still out |
| Target.Target.SomeoneWaits | src/xenvbd/frontend.c:319-343 | as long as a response is there to be read, some submitted SRB has a request out |
| Target.Target.SuspendLate | src/xenvbd/frontend.c:1406-1447 | after a suspend the counts agree on a new and empty ring |
| BigHeap.BigHeap.constructor | src/xencrsh/austere.c:342-365 | the heap starts as one free block, of one page less when the section is not aligned |
| BigHeap.BigHeap.CompactBigHeap | src/xencrsh/austere.c:79-98 | compaction joins all free neighbours, changes no page's state, leaves the headers of absorbed blocks as they were, and says whether it joined any |
| BigHeap.BigHeap.Scan | src/xencrsh/austere.c:113-127 | a scan, even one that steps through stale headers, only ever stops at the start of a block that fits, and rules out all others when it comes round |
| BigHeap.BigHeap.Carve | src/xencrsh/austere.c:129-138 | the first pages of a free block become a live run and the rest stays free |
| BigHeap.BigHeap.AllocBig | src/xencrsh/austere.c:99-139 | returns a run of free pages with room for the bytes asked for, and no page more, if and only if there is one; otherwise it returns nothing, or never returns, and exactly when is stated |
| BigHeap.LiveBytesApart | src/xencrsh/austere.c:99-139 | the bytes asked for in two allocations are apart, inside the heap and outside the free pages |
| BigHeap.BigHeap.FreeBig | src/xencrsh/austere.c:140-155 | frees the run that starts at a page; any other page is left alone if and only if it is outside the heap or its header is not zero, and if it is not, the heap is in order no longer |
| BigHeap.LiveRunsDisjoint | src/xencrsh/austere.c:99-155 | live runs do not overlap, lie inside the heap, and with the free pages make up all of it |
| BigHeap.RunFits | src/xencrsh/austere.c:79-98 | once all free neighbours are joined, every run of free pages lies inside one block |
| BigHeap.WalkStale | src/xencrsh/austere.c:111-120 | a scan that starts at a header that compaction absorbed finds its way back to real blocks and cannot stop at a stale one |
| BigHeap.AbsorbTrail | src/xencrsh/austere.c:86-93 | each joining keeps the tiling and leaves the absorbed header unchanged behind it |
| BigHeap.StrayFree | src/xencrsh/austere.c:140-155 | on a new heap, freeing a page at which nothing was allocated marks it as the start of a free run, to which the cursor points |
| BigHeap.SpinningHeap | src/xencrsh/austere.c:111-127 | a run of calls from the initial heap after which a request of three pages never returns |
| SubHeap.SubHeap.constructor | src/xencrsh/austere.c:209-225 | a new page is one free chunk |
| SubHeap.SubHeap.TrySmall | src/xencrsh/austere.c:156-208 | takes the first chunk that fits, splits it if enough is left, writes to no other chunk, and fails exactly when none fits |
| SubHeap.SubHeap.Place | src/xencrsh/austere.c:194-206 | the tags of the taken chunk and of the rest are written and the free count follows |
| SubHeap.SubHeap.FreeSmall | src/xencrsh/austere.c:269-321 | joins the freed chunk with its free neighbours, writes to no other chunk, and gives the page back if and only if no live chunk is left; whatever has a header marked free is ignored, and afterwards, unless the page was given back, the freed chunk has one if and only if it was not joined to its left neighbour |
| SubHeap.SubHeap.FreeTwice | src/xencrsh/austere.c:280-321 | a second free is ignored, and the page stays in order, if and only if the first one neither joined the chunk to its left neighbour nor gave the page back; in the latter case more words are counted as free than there are |
| SubHeap.SecondFreeIsCounted | src/xencrsh/austere.c:311-321 | a run of calls on a new page that ends with a chunk counted as free twice |
| SubHeap.SecondFreeOfReleased | src/xencrsh/austere.c:286-297 | the same after the only chunk of a page has been freed, which gives the page back before the header is marked |
| SubHeap.SubHeap.Coalesce | src/xencrsh/austere.c:299-321 | joining right and then left keeps tags, free count and the absence of free neighbours |
| SubHeap.TakeSize | src/xencrsh/austere.c:178-200 | an allocation has the size asked for and at most 64 bytes more |
| SubHeap.TakeFacts | src/xencrsh/austere.c:194-206 | an allocation keeps the total size and lowers the free count by what it takes |
| SubHeap.TakeKeepsApart | src/xencrsh/austere.c:194-206 | an allocation creates no free neighbours |
| SubHeap.ReleaseFacts | src/xencrsh/austere.c:299-321 | freeing keeps the total size and raises the free count by what was live |
| SubHeap.ReleaseKeepsApart | src/xencrsh/austere.c:299-321 | freeing leaves no free neighbours |
| SubHeap.AllFree | src/xencrsh/austere.c:286-297 | the free count reaches the page size if and only if the freed chunk was the last live one |
| SubHeap.FreeUndoesTake | src/xencrsh/austere.c:156-321 | freeing an allocation restores the chunks as they were before it |
| SubHeap.TakeLive | src/xencrsh/austere.c:156-208 | an allocation adds one live chunk and moves no other |
| SubHeap.TakeTouchesNoOther | src/xencrsh/austere.c:194-206 | all live chunks lie outside the words that an allocation writes |
| SubHeap.ReleaseLive | src/xencrsh/austere.c:269-321 | freeing removes one live chunk and moves no other |
| SubHeap.ReleaseTouchesNoOther | src/xencrsh/austere.c:299-321 | all other live chunks lie outside the words that freeing writes |
| SubHeap.LiveApart | src/xencrsh/austere.c:156-321 | live chunks never overlap |
| ByteRing.ByteRing.CopyIn | src/xencrsh/store.c:174-224 | puts as many bytes on the ring as fit, across the end of the buffer and of the 32-bit index, and never more than the ring holds unread |
| ByteRing.ByteRing.CopyOut | src/xencrsh/store.c:283-333 | takes the next bytes off the ring, as many as there are and are wanted |
| Store.HeaderRoundTrip | include/xen/io/xs_wire.h:89-103 | a header of four 32-bit words is read back from its 16 bytes |
| Store.HeaderLayout | include/xen/io/xs_wire.h:89-97 | each of the 16 bytes of a header by its place: type, request, transaction, length, the low byte of each first |
| Store.HeaderBytes | include/xen/io/xs_wire.h:89-103 | any 16 bytes are the encoding of the header that is read from them |
| Store.PrepareRequest | src/xencrsh/store.c:119-169 | the segments of a request are its header and payload, and the header announces the number of payload bytes |
| Store.Store.SendRequest | src/xencrsh/store.c:226-270 | the bytes sent are the next unsent bytes of the request; it is finished, or the ring is full |
| Store.Store.SendRequests | src/xencrsh/store.c:243-281 | requests are sent in order, each is moved to the pending list once all of it is on the ring, and sending stops only at the end or when the ring is full |
| Store.Store.SubmitRequest | src/xencrsh/store.c:507-516 | a submitted request is queued after the earlier ones |
| Store.Store.ReceiveHeader | src/xencrsh/store.c:393-396 | header bytes are gathered across calls |
| Store.Store.ReceivePayload | src/xencrsh/store.c:406-411 | payload bytes are gathered across calls, and success means that all have arrived |
| Store.Store.ReceiveResponse | src/xencrsh/store.c:384-413 | success if and only if the next message of the peer is complete; the driver's check of the header holds for a peer that keeps to the protocol |
| Store.Store.FindRequest | src/xencrsh/store.c:416-438 | finds the pending request with the reply's id |
| Store.Store.ProcessResponse | src/xencrsh/store.c:456-481 | a reply completes exactly the pending request with its id; a watch event completes none |
| Store.Store.StorePoll | src/xencrsh/store.c:483-503 | with a quiet peer the loop ends, with everything that has arrived consumed and everything that fits sent |
| Store.Store.PeerWrites | src/xencrsh/store.c:283-333 | however the peer chops up its messages, the transport stays consistent |
| Store.Store.PeerSays | src/xencrsh/store.c:456-481 | whatever the peer says next, within the protocol, the transport stays consistent |
| Store.SentIsPrefix | src/xencrsh/store.c:243-281 | the bytes ever put on the request ring are a prefix of the submitted messages in order, all of them once nothing is waiting, and never more than the ring size unread |
| Store.ReceivedAll | src/xencrsh/store.c:384-481 | once all bytes of the peer's messages have been consumed, exactly these messages have been processed and the completions are the replies among them, in order, each with a request of its id |
| Frontend.LawOfStates | include/xen/io/blkif.h:284-355 | over what XenStore was asked and what it answered: Initialising is only written after the backend was read as closed, with no write in between; Initialised after a successful write of Initialising, with a ring published between; Connected after a successful write of Initialised, with the backend read as connected between |
| Frontend.LawOfClosing | src/xencrsh/frontend.c:713-732 | Closing is only written to a backend read as neither closing nor closed, Closed only to one read as not closed, the first time as closing |
| Frontend.RingNodes | src/xencrsh/frontend.c:631-682 | a published ring is a whole transaction of successful writes of the event channel, the reference and the rest |
| Frontend.Frontend.Ask | include/xen/io/blkif.h:284-355 | each answer in the history is the next one that XenStore gives |
| Frontend.Frontend.WaitState | src/xencrsh/frontend.c:384-415 | waiting ends with the first answer that is another state than the old one, and that is the state returned, or with a failure to read; nothing is written meanwhile |
| Frontend.Frontend.PublishState | src/xencrsh/frontend.c:416-431 | one write, which succeeds exactly when XenStore says so, keeps the law when it is one that the law allows |
| Frontend.Frontend.Close | src/xencrsh/frontend.c:684-749 | success only with the backend read as closed since the last write; a closing backend has been answered with Closed, and any other that is not initialising with Closing or Closed; in the full driver no watch is left; it fails only when XenStore refuses something |
| Frontend.Frontend.Prepare | src/xenvbd/frontend.c:1198-1302 | success leaves Initialising as the last state written, the backend read as waiting since and, in the full driver, all four watches; it fails only when XenStore refuses something or the backend leaves closed and initialising for another state, and leaves no watch then |
| Frontend.Frontend.PreparePaths | src/xenvbd/frontend.c:1200-1247 | what is read, watched and written before Initialising, in order and up to the first refusal |
| Frontend.Frontend.WatchBackend | src/xenvbd/frontend.c:1210-1235 | success means that all four watches are there |
| Frontend.Frontend.AllocRing | src/xencrsh/frontend.c:548-605 | ring page, grant and event channel are all acquired, or none is |
| Frontend.Frontend.FreeRing | src/xencrsh/frontend.c:606-630 | whatever of the ring is held is given back |
| Frontend.Frontend.WriteRing | src/xencrsh/frontend.c:631-682 | success means that a transaction with the held event channel and grant was committed, after any number of retries |
| Frontend.Frontend.Connect | src/xencrsh/frontend.c:801-864 | success leaves Connected as the last state written and the published ring the one that is held; it fails only when the ring cannot be made, XenStore refuses something or the backend gets ready for another state than connected, and holds nothing then |
| Frontend.Frontend.CloseConnected | src/xenvbd/frontend.c:1727-1740 | going down from connected frees the ring in either driver's order |
| Frontend.Frontend.Step | src/xencrsh/frontend.c:968-1082 | every step that does not fail comes nearer to the target |
| Frontend.Frontend.SetState | src/xencrsh/frontend.c:955-1087 | ends for every state and target, succeeds if and only if the target is reached, fails only when something outside the frontend did or no way leads there, keeps an invalid frontend invalid, and keeps in every state what is held and published |
| Frontend.Frontend.SuspendLate | src/xenvbd/frontend.c:1406-1447 | a suspend that succeeds restores the state; it fails only with the store or the backend, or for a frontend that was not yet closed |
| SrbQueue.Queue.InsertHead | src/xencrsh/queue.c:85-114 | puts an SRB before the sequence of the queue, with all links, ends and counts consistent |
| SrbQueue.Queue.InsertTail | src/xencrsh/queue.c:116-145 | puts an SRB after the sequence of the queue |
| SrbQueue.Queue.Remove | src/xencrsh/queue.c:50-84 | takes an SRB out of any place of the sequence; the driver's assertions hold |
| SrbQueue.Queue.Pop | src/xencrsh/queue.c:157-168 | takes the first SRB, if there is one |
| SrbQueue.Queue.Peek | src/xencrsh/queue.c:148-155 | shows the first SRB, if there is one |
| SrbQueue.Queue.RemoveTail | src/xenvbd/queue.c:173-193 | takes the last SRB, if there is one |
| SrbQueue.QueuesAreApart | src/xencrsh/queue.c:50-145 | two queues never share an SRB |
| SrbQueue.MoveHead | src/xenvbd/pdo.c:1221-1231 | moving an SRB from one queue to another is a pop and an append, and disturbs neither |
| SrbQueue.PutBack | src/xenvbd/pdo.c:1225-1228 | putting a popped SRB back at the head restores the queue |
| GrantTable.Table.constructor | src/xencrsh/gnttab.c:337-345 | the free chain is all references from 8 to 255, in this order |
| GrantTable.Table.Get | src/xencrsh/gnttab.c:168-193 | hands out a reference that is not in use, and fails if and only if all 248 are |
| GrantTable.Table.Put | src/xencrsh/gnttab.c:195-213 | takes a reference back; the others stay in use; the driver's assertions hold |
| GrantTable.Table.AssertsOfPut | src/xencrsh/gnttab.c:60-82 | the driver's assertions accept, besides references in use, exactly the end of the free chain as soon as any is in use, and the reference past the table, whose link is the head of the chain, when all are |
| GrantTable.FreeOnePasses | src/xencrsh/gnttab.c:60-82 | after one reference has been handed out, a free one passes the assertions |
| GrantTable.PastTheEndPasses | src/xencrsh/gnttab.c:60-82 | after all have been handed out, the reference past the table passes them |
| GrantTable.Pigeons | src/xencrsh/gnttab.c:204-206 | a reference in use means that the count is not zero |
| GrantTable.PutThenGet | src/xencrsh/gnttab.c:168-213 | a reference put back is the next to be handed out |
| BouncePool.Pool.constructor | src/xenvbd/buffer.c:245-268 | the pool starts with up to 32 free pages |
| BouncePool.Pool.BufferGet | src/xenvbd/buffer.c:292-322 | hands out a page that is not in use, from the free list if it has one; fails only if the list is empty and nothing can be allocated |
| BouncePool.Pool.BufferPut | src/xenvbd/buffer.c:324-338 | moves a page from the used to the free list |
| BouncePool.Pool.Reap | src/xenvbd/buffer.c:226-239 | frees pages from the head of the free list until at most 32 are left, and no used one |
| BouncePool.Pool.Terminate | src/xenvbd/buffer.c:270-290 | gives every page back: as many freed as allocated |
| BouncePool.Pool.PopFree | src/xenvbd/buffer.c:146-161 | takes the first free page, if there is one, with the counters kept |
| BouncePool.Pool.RemoveUsed | src/xenvbd/buffer.c:193-206 | takes a page off the used list, wherever it is |
| Base64.Decode | src/xenvbd/pdo-inquiry.c:112-145 | decodes one block in place and touches nothing before it |
| Base64.DecodeBase64 | src/xenvbd/pdo-inquiry.c:146-184 | succeeds if and only if there is memory and the whole blocks decode; the buffer holds what they decode to; up to three trailing characters are ignored |
| Base64.RoundTrip | src/xenvbd/pdo-inquiry.c:112-184 | decoding the standard encoding of any bytes gives these bytes (section 4 of RFC 4648) |
| Base64.Accepted | src/xenvbd/pdo-inquiry.c:126-172 | accepted are exactly the texts of digits with padding only at the end of the last block |
| Base64.Reencodes | src/xenvbd/pdo-inquiry.c:147-186 | a text that is accepted encodes back to itself if and only if its length is a multiple of four and the unused bits of its last digit are zero |
| Base64.NotReencoded | src/xenvbd/pdo-inquiry.c:147-186 | two accepted texts that do not: one with unused bits that are not zero, one with a character too many |
| Base64.DigitRoundTrip | src/xenvbd/pdo-inquiry.c:98-110 | every six bits have one digit, which decodes to them |

## Left out

- Windows and the hypervisor: IRPs, plug and play, power dispatch, spin locks, threads, mapping of memory descriptor lists, hypercalls, logging and debug output. Allocation, mapping and grants succeed or fail arbitrarily.
- Command parsing, and mode, inquiry and capacity pages: start sector and length are inputs, and the verdict on commands that need no backend is a parameter.
- Statistics counters, the maximum and total numbers of SRBs, and reference counts.
- Scatter-gather lists that do not describe one locked buffer: the model requires a list in which only the first element starts inside a page and only the last ends inside one.
- Sector sizes below 16 bytes, for which the casts of sector numbers to bytes are wrong (TransferFacts.SectorByteIsExact).
- Mapping: the driver counts a mapped page by its frame number, and frame 0 is never counted; the model counts the same way.
- Discard and cache flush requests: the full driver has code for their responses and ring slots but never makes such a request.
- Two threads that submit at once: each turn of the submit loop is one step. The ring lock covers only the insertion, so another thread may publish an SRB before it is on the submitted queue.
- DataPath.Pdo.SubmitOne: an SRB is a value in a queue rather than a record reached through pointers, so aliasing of SRBs is not captured there; the pointers of the queue are in SrbQueue.
- DataPath.Pdo.StartIo: a read or write that is going to the backend has a buffer of its size; with zero sectors it has none, and the driver asserts that there is an element in its list (src/xenvbd/pdo.c:894). The statuses that the inquiry commands set are parameters.
- DataPath.Pdo.PdoReset: the backend answers from a finite script; a call that has used it up has not returned. The same goes for DataPath.Pdo.PauseDataPath.
- DataPath.Pdo.PowerDown: what follows the closing of the frontend, the release of interfaces, is not modelled.
- DataPath.Pdo.EvtchnCallback: a response that carries no request is passed over and takes no slot of the ring; the backend never writes one (SharedRing.FaithfulQueues).
- Target.Target.SubmitOne: identifiers are the addresses of requests in use, so the model takes them as given, different from each other and from those that are out, and not zero.
- Delivery.GoodReadIsDelivered: what the backend performs after a request has been answered is not excluded, although its grants are gone by then; bounce pages are taken to be apart from each other and from the caller's buffer (TransferFacts.NoSharing has the former while they are in use).
- Requests.Resources.CleanupSegment: the bytes that are copied out of a bounce page on the way are in DataMovement.
- BigHeap.BigHeap.AllocBig: the loop is given a number of steps instead of running forever; every number from twice the number of pages on gives the same answer, so Spins means that the call does not return.
- BigHeap.BigHeap.FreeBig: what later calls do to a heap that a free has put out of order is not modelled.
- SubHeap.SubHeap.FreeSmall: an address that is neither the payload of a live chunk nor behind a header marked free is not passed in; SubHeap.SubHeap.FreeTwice says what the first half of such a call does to the count.
- SubHeap.SubHeap.TrySmall: sizes are in words of four bytes, as the driver rounds every size up to whole words; the search over several pages is not modelled.
- The list of sub-heap pages: moving a page to its front never sets the back link of the old first page (src/xencrsh/austere.c:258-266), so the list is not well formed in general.
- The threshold between the two layers of the emergency heap, and its callers.
- Store.Store.ReceiveResponse: a peer that breaks the protocol trips an assertion of the driver; the model requires one that keeps to it. The payload buffer is allocated without fail, as the driver asserts.
- Store.Store.StorePoll: the wait of a caller for its reply, with pauses between polls, depends on the peer.
- Store.Store.ProcessResponse: the payload of a watch event is never freed by the driver; the model does not follow memory there.
- Frontend.Frontend.WaitState: XenStore answers from a finite script and fails afterwards, so a wait that never ends is cut off; every finite beginning of such a run is one that the model has.
- Frontend.Frontend.AllocRing: the ring has one page, as in the crash dump driver. With several pages the full driver keeps earlier grants when a later one fails, and returns the status of the last success when the event channel cannot be opened (src/xenvbd/frontend.c:893-936).
- Frontend.Frontend.Prepare: features, inquiry data and disk information that are read on the way are not modelled.
- Frontend.Frontend.SuspendLate: a frontend that was not yet closed cannot be restored, because no way leads back to that state; the driver asserts that this does not happen.
- The data path of the crash dump driver (src/xencrsh/pdo.c), which ignores a failed preparation and always reports success.
- The backend's side of the connection, and whether it ever answers.
