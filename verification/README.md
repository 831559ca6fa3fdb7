# simple_chat: a verified model

This project models the parts of the chat client where state, arithmetic and interleaving meet, and proves
what they promise. `dafny verify dfyconfig.toml` checks all of it.

| file | models |
|---|---|
| `Bytes.dfy`, `Framing.dfy` | little-endian ids; the flag + id + payload frames of the file connection |
| `Meter.dfy`, `Upload.dfy`, `Download.dfy` | percentages; reading a file in 1024-byte pieces with a pause every 2 MiB; writing received pieces; the end-to-end law |
| `FileTables.dfy`, `FilesChannel.dfy` | the open-file and channel tables as a state machine, and the classes that update them in place |
| `Disk.dfy` | the files on disk behind the ids being received, which several ids may share |
| `FilesClient.dfy` | the create / begin / data / finish protocol of `qweb_files` |
| `ThreadPool.dfy` | the fixed-size thread pool, one step for each access to shared state |
| `RingBuffer.dfy`, `VarBuffer.dfy` | the ring allocator and the double-ended byte buffer |
| `History.dfy`, `ChatAck.dfy`, `ChatWindow.dfy` | history tables, message and acknowledgement packets over a bad network, shown and unread rows |
| `Template.dfy`, `NumberedTemplate.dfy`, `SqlText.dfy` | `sformat`, which rewrites its string while scanning it; templates `l0{0}l1{1}…`; the SQL text built with them |
| `ResponseWriter.dfy` | HTTP responses, against a decoder of whole messages: header lines, stated length and chunked coding (sections 5, 6 and 7.1 of RFC 9112) |
| `Varint.dfy` | the varint codec |
| `TextWrap.dfy`, `Layout.dfy` | text wrapping in a label; placing widgets in rows and columns |

Imperative code is modelled by classes and loops; each method is tied to a value-level function or transition,
and the laws of whole runs are lemmas about those. Protocols and threads are state machines whose runs are
all sequences of actions.

## How the world outside is represented

- A file to send is its bytes, and a stream is (bytes, position, eof flag), where only a short read sets eof.
  Files are not empty and a declared length is not zero, because both are divisors in the progress computation.
- `fate(k)` tells whether the k-th binary send on a connection succeeds, `Env` what opening a file and writing to
  the disk do. All outcomes are covered. A write that fails is taken to leave no bytes, and one that succeeds to be on
  disk at once.
- A JSON message is a datatype value; SQLite is a map whose insert fails on a key clash or a missing table, whose
  update of a missing row does nothing, and whose select lists each matching row once in any order.
- The clock, the font's advance widths, widget sizes, the status line and header lines of an HTTP response, and the
  memory behind its body are parameters.
- `int64` is a bounded type for ids and times; `count * 100` wraps in two's complement and `int prog` truncates.
  Byte counters and buffer sizes are unbounded.

## Where the code falls short of the intent

Each of these is a theorem with the exact condition under which the intent holds.

- A failed send is not repeated: its piece is already read and counted. On an otherwise quiet link the peer gets the
  file exactly when the next ceil(L / 1024) sends succeed (`Upload.DeliveredIffSendsSucceed`,
  `Download.UploadReachesPeer`), and the client answers `finish(true)` in any case (`FilesClient.AnsweredUpload`,
  `FilesClient.LostUploadIsReported`). A failed send only costs one more begin (`Upload.WholeCalls`).
- `finish(true)` also answers a begin for an id that is not open (`FilesClient.FinishIsEarnedIff`).
- A managed open leaves the open files alone exactly when its id is free; a duplicate create message closes the
  transfer (`FileTables.OpenSendKeepsOpenIff`, `FileTables.OpenRecvKeepsOpenIff`,
  `FilesClient.DuplicateCreateClosesUpload`, `FilesClient.DuplicateCreateClosesDownload`).
- Removing a channel keeps track of every open file exactly when each open id of that channel is also tracked by
  another; channels that leave empty never lose one (`FileTables.LeaveKeepsTracked`,
  `FileTables.TrackedThroughoutIff`, `FileTables.EmptyLeavesKeepTracked`, `FileTables.LeaveLosesTrack`).
- Two downloads into one path destroy each other's files. The disk holds what was received for every open id exactly
  when no opening or write touches a file another open id has begun; paths that no open id has are always safe
  (`Disk.OnDiskThroughoutIff`, `Disk.DiskHoldsPayloads`, `Disk.SharedFileIsLost`).
- A length above (2^63 - 1) / 100 bytes spoils the percentages, which then never reach 100 (`Meter.PercentIsFloorIff`).
- The pool dequeues in commit order, but with two or more threads tasks may start out of order
  (`ThreadPool.StartOrderIff`).
- The ring allocator refuses a block that has a free place exactly when the block would fit behind the highest live
  one (`RingBuffer.HRingBuf.RefusalIff`): in an empty ring, which keeps its position (`RingBuffer.UncompactedRing`),
  and when the end of the buffer was skipped (`RingBuffer.SkippedEndUnused`).
- A message from somebody without a history table, or sent at a time the receiver also used, is acknowledged but
  not stored, unless it is delivered again when the table is there (`ChatAck.AcknowledgedIsStoredIff`,
  `ChatAck.AcknowledgedTextIff`, `ChatAck.AcknowledgedButNotStored`, `ChatAck.AcknowledgedButReplaced`).
  Tables are made at login (qweb_client.cpp:93), but not when the friend list is updated later
  (qweb_client.cpp:137-153).
- A message sent to a friend without a table, or at a time that is already in it, is shown although its insert fails
  (`ChatWindow.SplitThroughoutIff`, `ChatWindow.UnstoredIsShown`).
- A click shows the friend's unread rows exactly when it makes the window, or there are none
  (`ChatWindow.ClickShowsUnreadIff`, `ChatWindow.UnreadStaysHidden`).
- A marker is overlooked when it follows the one before too closely, and a brace pair in front of a marker is taken for
  one (`Template.SubstitutesIffClean`). So a brace pair before the last value spoils an INSERT, and one in the table
  or field names an UPDATE or DELETE (`SqlText.InsertIff`, `SqlText.UpdateIff`, `SqlText.DeleteIff`). A friend request
  from another account spoils its INSERT exactly when its note holds a brace pair (`SqlText.RecordIff`,
  `SqlText.NoteSpoilsInsert`).
- An empty piece ends a chunked body early, and End without a piece sends no last chunk
  (`ResponseWriter.WellFormedIff`). When nothing was written after the header block, End sends the status line again
  (`ResponseWriter.StreamedIff`).
- A character wider than the limit does not fit into its label (`TextWrap.LinesFitIff`).
- Rows of widgets overlap for some widths unless each line but the last ends with a widget that is, with the space, as
  tall as any in its line (`Layout.RowsApartIff`). The default arrangement is not the nearest to a square for numbers
  between s(s+1) and s(s+2) (`Layout.DefaultIsSquareIff`), and divides by zero exactly when there are no widgets
  (`Layout.DefaultFailsIff`).

## Model

| member | source | states |
|---|---|---|
| `Framing.BinaryRoundTrip` | web_protocol.h:565-586 | a framed piece is recognised as binary and decodes to the same id and payload, for every int64 id |
| `Framing.BinaryFrameOnto` | web_protocol.h:572-586 | a binary message decodes iff it has at least nine bytes, and is then the frame of what it decodes to |
| `Framing.GetFilesBinary` | web_protocol.h:572-586 | success exactly from nine bytes on; id and buffer are the message's own bytes |
| `Framing.IdImageOfSmall` | web_protocol.h:565-570 | the image of an id begins with its lowest byte |
| `Meter.TickKeepsFaithful` | files_transfer.h:171-176 | each reported percentage is the exact floor, in 1..100 and larger than all before; 100 exactly when the count is the length |
| `Meter.CompleteReportsHundredOnce` | files_transfer.h:171-176 | at the end of the file 100 has been reported, once, by the last report |
| `Meter.PercentIsFloorIff` | files_transfer.h:171 | the percentage is the exact quotient up to the end of the file, despite wrap-around and truncation, iff the length is at most (2^63 - 1) / 100 |
| `Meter.TruncatesTowardZero` | files_transfer.h:171 | C++ division for all signs: the remainder has the dividend's sign and is smaller than the divisor |
| `Meter.WrapsAround` | files_transfer.h:171 | overflow of 64 and 32 bits yields the value in range that differs by a multiple of the modulus |
| `Upload.AddData` | files_transfer.h:152-181 | a call that answers true has reached the end of the file; one that answers false leaves less to do |
| `Upload.WholeHandsOver` | files_transfer.h:152-181 | whatever sends fail, the pieces of all calls together are the file, in order, and count_send ends as the length |
| `Upload.DeliveredIffSendsSucceed` | files_transfer.h:161-178 | what reaches the wire is the file iff the first ceil(L / 1024) sends of the upload succeed; on a quiet link, the next ceil(L / 1024) sends |
| `Upload.WholeTries` | files_transfer.h:161-178 | the j-th send carries bytes 1024 j to 1024 (j + 1) of the file, across all calls and pauses, and meets the link's next outcome |
| `Upload.CallEnds` | files_transfer.h:161-180 | whatever sends fail: a call sends until the first failed send, total that is a multiple of 2097152, or read past the end, and is true iff only the last applies |
| `Upload.WholeCalls` | files_transfer.h:161-180 | an upload takes one call more than it has failed sends and totals that are multiples of 2097152 |
| `Upload.WholeReads` | files_transfer.h:161-180 | it takes floor(L / 1024) + 1 reads |
| `Upload.UpCall` | files_transfer.h:316-322 | with working sends a call ends exactly at the next multiple of 2 MiB or at the end of the file, with the right result |
| `Upload.UpCallCount` | files_transfer.h:161-180 | an upload takes floor(L / 2 MiB) + 1 calls, one more when L is a multiple of 2 MiB |
| `Upload.UploadReports` | files_transfer.h:167-176 | reports of a whole upload are faithful and end with a single 100 |
| `Download.AcceptAllRebuilds` | files_transfer.h:213-235 | successful writes append the payloads in order and count them |
| `Download.DownloadReports` | files_transfer.h:226-231 | reports of a download within its declared length are faithful; 100 iff complete |
| `Download.OnlyFramesAreReceived` | qweb_files.cpp:290-300 | only a binary frame of an open id changes anything, and that id's file alone |
| `Download.UploadReachesPeer` | files_transfer.h:152-235 | end to end through frames, pauses and other open files: the peer's file is the sender's iff the sends of its pieces succeed; both counters end as the length |
| `Download.FailedSendIsLost` | files_transfer.h:168-180 | whenever the one send of a one-byte file fails, nothing is on the wire and the sender ends as if it were complete |
| `FileTables.EachFileHoldsItsPayloads` | files_transfer.h:199-247 | under every interleaving each id is open iff its own events say so and holds its own payloads since opening, up to the first failed write |
| `FileTables.EachUploadGoesItsOwnWay` | files_transfer.h:137-197 | under every interleaving each id is being sent, and stands where it stands, as its own events say |
| `FileTables.EachChannelTracksItsOwn` | files_transfer.h:326-432 | with any number of channels, each one's sets hold what its own opens added and its own failures and closes removed |
| `FileTables.OpenSendKeepsOpenIff` | files_transfer.h:326-339 | a managed open leaves all files being sent as they are iff its id is free |
| `FileTables.OpenRecvKeepsOpenIff` | files_transfer.h:342-354 | the same for files being received |
| `FileTables.EmptyLeavesKeepTracked` | files_transfer.h:326-432 | with any number of channels, every open id is tracked after every run whose channels are removed empty |
| `FileTables.LeaveKeepsTracked` | files_transfer.h:380-385 | removing a channel keeps every open id tracked iff each open id in its sets is in another channel's sets too |
| `FileTables.TrackedThroughoutIff` | files_transfer.h:326-432 | every open id is tracked at every moment of a run iff every removal passed that guard |
| `FileTables.LeaveLosesTrack` | files_transfer.h:380-385 | a run of three steps after which an upload is open and no channel tracks it |
| `FileTables.SingleChannelIsExact` | files_transfer.h:326-432 | with one channel, its sets equal the open-id tables after every run |
| `Disk.OnDiskThroughoutIff` | files_transfer.h:199-235 | with any paths, the files of all open ids hold what was received for them at every moment of a run iff no opening truncates a begun file of an open id and no write goes to a path of two open ids |
| `Disk.StepOnDiskIff` | files_transfer.h:199-235 | the same for one operation |
| `Disk.WrittenAt` | files_transfer.h:213-222 | a write leaves its data at the stream's position, zeros in a gap, and the rest as it was |
| `Disk.DiskHoldsPayloads` | files_transfer.h:199-247 | when downloads open paths no open id has, each open id's file is its own payloads since opening, up to the first failed write |
| `Disk.SharedFileIsLost` | qweb_files.cpp:193-199 | a run in which a complete download's file is emptied by a second download of the same name |
| `FilesChannel.FilesChannel.AddDataSend` | files_transfer.h:152-181 | the loop computes the specified call, frames exactly the delivered pieces, and answers true for an id that is not open |
| `FilesChannel.FilesChannel.ReadAndSend` | files_transfer.h:162-177 | one turn: read, count, send, report |
| `FilesChannel.FilesChannel.AddDataRecv` | files_transfer.h:213-235 | refines the data transition; true iff the id is open and the write succeeded |
| `FilesChannel.FilesChannel.OpenFileSendChannel` | files_transfer.h:326-339 | open, track, and undo on failure is the open transition |
| `FilesChannel.FilesChannel.OpenFileRecvChannel` | files_transfer.h:342-354 | the same for receiving |
| `FilesChannel.FilesChannel.SendPiece` | qweb_files.cpp:109-112 | the send callback: one frame, then the limit check |
| `FilesClient.FilesClient.TaskBeginUploadBack` | qweb_files.cpp:145-164 | answers finish(true) iff the id is not open or the call reached the end of the file, all bytes then being counted and handed over |
| `FilesClient.FilesClient.TaskCreateUploadBack` | qweb_files.cpp:107-143 | opens and begins, or finishes with false |
| `FilesClient.FilesClient.TaskCreateDownloadBack` | qweb_files.cpp:178-216 | opens and begins, or finishes with false |
| `FilesClient.FilesClient.TaskFinishDownloadBack` | qweb_files.cpp:230-254 | success is signalled iff the server said ok and the open file has its declared length |
| `FilesClient.FilesClient.RecvRaw` | qweb_files.cpp:290-300 | raw bytes reach the open file their id names and nothing else |
| `FilesClient.FilesClient.SlMessage` | qweb_files.cpp:264-302 | each message gets exactly its table operation, answer, signal and frames: what create and finish replies open, close and signal is spelled out; a successful download is signalled only for a file of the right length |
| `FilesClient.AnsweredUpload` | qweb_files.cpp:107-164 | a whole upload through the handlers, whatever sends fail: one begin for each call and finish(true) last; the exact number of reads and calls, from the sends' outcomes; all pieces are handed over; the frames carry the file iff the next ceil(L / 1024) sends succeed |
| `FilesClient.LostUploadIsReported` | qweb_files.cpp:107-164 | an upload whose only send fails puts nothing on the wire and answers finish(true) |
| `FilesClient.FinishIsEarnedIff` | qweb_files.cpp:145-164 | an answer finish(true) to begin means the file was read and counted to its end iff the id is open |
| `FilesClient.DuplicateCreateClosesUpload` | qweb_files.cpp:107-143 | two create replies in a row for one id: the first begins, the second closes the upload and answers finish(false) |
| `FilesClient.DuplicateCreateClosesDownload` | qweb_files.cpp:178-216 | the same for a download |
| `ThreadPool.EveryRun` | include/hv/hthreadpool.h:149-183 | every interleaving keeps: idle == threads - busy, the mutex, the queue, and each popped task with one worker or finished |
| `ThreadPool.WaitReturnsAfterAllBefore` | include/hv/hthreadpool.h:110-118 | when wait() returns, every task pushed before the call has finished |
| `ThreadPool.DequeuedInOrderStartedOnce` | include/hv/hthreadpool.h:128-183 | tasks leave the queue in commit order and start at most once |
| `ThreadPool.NeverStuck` | include/hv/hthreadpool.h:149-183 | some worker can move, or everything has finished and the test in wait() succeeds |
| `ThreadPool.WaitLoop` | include/hv/hthreadpool.h:110-118 | a call takes the number pushed as its mark, tests queue and idle threads in turn, and is left iff both tests succeed |
| `ThreadPool.IdleWaitReturns` | include/hv/hthreadpool.h:110-118 | on an idle pool wait() returns after one round |
| `ThreadPool.WaitCanReturn` | include/hv/hthreadpool.h:110-183 | from every reachable state some worker steps and one round of tests make a caller of wait() return |
| `ThreadPool.WorkersRunOut` | include/hv/hthreadpool.h:149-183 | without new tasks every schedule of worker steps is bounded by the work that is left |
| `ThreadPool.Overtaken` | include/hv/hthreadpool.h:171-177 | with two or more threads, a run in which task 1 starts before task 0 |
| `ThreadPool.StartOrderIff` | include/hv/hthreadpool.h:171-177 | tasks start in commit order in every schedule iff there is at most one thread |
| `RingBuffer.HRingBuf.Alloc` | include/hv/hbuf.h:210-233 | when there is room, and where, in terms of the live blocks: behind the newest, else at the beginning; apart from all live blocks; positions and size afterwards; a refusal leaves a free place iff the block fits behind the highest live one |
| `RingBuffer.HRingBuf.Free` | include/hv/hbuf.h:235-244 | frees exactly the oldest block and moves the head past it |
| `RingBuffer.HRingBuf.HeadAtOldest` | include/hv/hbuf.h:210-244 | the head is at the oldest block, unless that one was put at the beginning because it did not fit |
| `RingBuffer.HRingBuf.EmptyMeets` | include/hv/hbuf.h:210-244 | an empty ring has head == tail and size 0 |
| `RingBuffer.HRingBuf.LiveBlocksApart` | include/hv/hbuf.h:210-244 | after any run, live blocks are inside the buffer and pairwise apart, also across the skipped end, and size is the sum of their lengths |
| `RingBuffer.LayoutSeparates` | include/hv/hbuf.h:210-244 | the layout behind it keeps any two live blocks apart |
| `RingBuffer.HRingBuf.RefusalIff` | include/hv/hbuf.h:212-230 | for every reachable ring and refused length: some place in the buffer is free iff the one behind the highest live block is |
| `RingBuffer.UncompactedRing` | include/hv/hbuf.h:210-244 | a run after which an empty ring refuses its whole capacity |
| `RingBuffer.SkippedEndUnused` | include/hv/hbuf.h:210-244 | a run after which six bytes are refused although six bytes behind the only live block are free |
| `VarBuffer.HVLBuf.Resize` | include/hv/hbuf.h:91-102 | reallocation keeps the common prefix |
| `VarBuffer.HVLBuf.PushFront` | include/hv/hbuf.h:128-143 | prepends to the contents through growth and relocation, all copies in range |
| `VarBuffer.HVLBuf.PushBack` | include/hv/hbuf.h:145-157 | appends to the contents through growth and relocation |
| `VarBuffer.HVLBuf.PopFront` | include/hv/hbuf.h:159-168 | takes a prefix, or does nothing when it is too long |
| `VarBuffer.HVLBuf.PopBack` | include/hv/hbuf.h:170-177 | takes a suffix, or does nothing when it is too long |
| `History.HistoryDb.Select` | sqlite_op.cpp:145-181 | lists each row, or each unread row, once |
| `History.HistoryDb.Read` | sqlite_read_history.h:24-62 | delivers each selected row once, marks exactly those, and leaves nothing unread |
| `History.OneCellChanges` | sqlite_op.cpp:99-143 | each statement changes exactly the row it names, in the column it names, and only a missing table is made |
| `ChatAck.QwebClient.TaskSwapMsg` | qweb_client.cpp:210-235 | stores an unread row if it can, announces and acknowledges in any case |
| `ChatAck.QwebClient.TaskSwapCacheBack` | qweb_client.cpp:198-208 | handles the cached packets in order, each with its own clock reading: histories, announcements and acknowledgements |
| `ChatAck.QwebClient.AskSwapMsg` | qweb_client.cpp:293-305 | inserts a row that is not unread and hands over only what it could insert; true iff that and the connection is up |
| `ChatAck.SeenByWindow` | qweb_client.cpp:222-227 | what is stored on arrival and on sending is what the window's session takes as such |
| `ChatAck.CacheIsDeliveries` | qweb_client.cpp:198-208 | handling the cache leaves histories and acknowledgements as delivering its packets one by one does |
| `ChatAck.AcksAnswerMessages` | qweb_client.cpp:198-208 | exactly the cached messages are announced, in order, each with its acknowledgement |
| `ChatAck.UnreadUntilMarked` | qweb_client.cpp:222-296 | after every run a received row is unread iff it was not read since it was stored, and a sent row never is |
| `ChatAck.FeedBackIsLastReply` | qweb_client.cpp:237-250 | after every run feed_back of a sent row is the time in the last acknowledgement that arrived for it, 0 before the first |
| `ChatAck.AckCarriesClock` | qweb_client.cpp:229-232 | an acknowledgement carries the receiver's clock at a delivery of its message |
| `ChatAck.EveryRun` | qweb_client.cpp:210-305 | with loss, duplication and reordering: packets match their sender's rows, received rows are copies with feed_back == send_time, acknowledgements answer sent rows |
| `ChatAck.AcknowledgedButNotStored` | qweb_client.cpp:137-153 | a run that acknowledges a message from somebody the receiver has no table for |
| `ChatAck.StoredAfterLogin` | qweb_client.cpp:86-96 | a run in which the message comes before the login that makes its table, and once more after it: it is stored |
| `ChatAck.AcknowledgedIsStoredIff` | qweb_client.cpp:210-250 | in every run an acknowledged row has a row with its send time at the receiver, iff the receiver had the table from the start |
| `ChatAck.AcknowledgedTextIff` | qweb_client.cpp:210-250 | after every run, tables made late included, all messages b acknowledged to a are stored as written iff each was once delivered while b had a table for a without its own row at that time |
| `ChatAck.TracesOfRun` | qweb_client.cpp:210-250 | b has acknowledged a time iff it was delivered in the run, and has a copy iff a delivery was accepted |
| `ChatAck.AcknowledgedUnlessClash` | qweb_client.cpp:210-250 | in particular, when b has the table from the start: iff no message of a was delivered at a time for which the table held b's own row |
| `ChatAck.AcknowledgedTextByTimes` | qweb_client.cpp:210-250 | seen from the final state: all rows with feed_back are stored as written iff the receiver has a row at the time of each and sent nothing at the time of any |
| `ChatAck.AcknowledgedButReplaced` | qweb_client.cpp:210-250 | a run in which both send at one time: the message is acknowledged and the receiver keeps its own row |
| `ChatWindow.StepInvIff` | wid_friend_list.cpp:309-412 | a step loses no row and shows none twice, iff it is no send whose insert fails; windows of friends without a table included |
| `ChatWindow.ShownAndUnreadSplit` | sqlite_read_history.h:24-62 | in every run, with arrivals between select and marking, shown and unread rows split the table when the reader is idle; no row is ever shown twice |
| `ChatWindow.SplitThroughoutIff` | wid_chat.cpp:26-28 | the split holds at every idle moment iff every message sent can be inserted |
| `ChatWindow.UnstoredIsShown` | wid_chat.cpp:26-28 | a run after which a message to a friend without a table is shown and in no table |
| `ChatWindow.ClickShowsUnreadIff` | wid_friend_list.cpp:369-397 | after a click all unread rows of the friend are shown or about to be iff the window is made by it or there are none |
| `ChatWindow.NoticeShowsUnreadIff` | wid_friend_list.cpp:334-344 | after a notice all unread rows of the friend are shown or about to be iff its window is the one on the screen or there are none |
| `ChatWindow.ReadingShowsAll` | sqlite_read_history.h:24-62 | whatever arrives meanwhile, a finished reading has shown all rows it selected, and none of them is unread |
| `ChatWindow.ReadingEnds` | sqlite_read_history.h:24-62 | one step for each row and one more end a reading |
| `ChatWindow.NoticeIsShown` | wid_friend_list.cpp:334-344 | once a notice for the window on the screen is handled, the window shows every row the table had, and none is unread |
| `ChatWindow.ClickIsShown` | wid_friend_list.cpp:384-397 | the first click shows the whole history |
| `ChatWindow.ShowingIsLastClicked` | wid_friend_list.cpp:369-382 | the window on the screen is the one last clicked |
| `ChatWindow.LoginMakesTable` | qweb_client.cpp:86-96 | after a login messages to the friend can be inserted at every free time |
| `ChatWindow.UnreadStaysHidden` | wid_friend_list.cpp:309-412 | a run after which the window on the screen does not show an unread row of its friend |
| `Template.Sformat.FindFlg` | format.h:95-111 | finds the first closing brace after an opening one and the last opening one before it |
| `Template.Sformat.SformatT` | format.h:43-68 | the loop computes the specified scan and terminates although the string grows |
| `Template.Sformat.Apply` | format.h:70-79 | the values are pushed in order, then the string is rewritten |
| `Template.Next` | format.h:48-66 | each turn moves the scan on, leaves what was scanned, and brings it nearer to the end of the string |
| `Template.StoiReads` | format.h:121-132 | a marker's number is read in decimal, behind spaces and a sign and before any text, within 32 bits |
| `Template.StoiRejects` | format.h:121-132 | text without a digit behind spaces and a sign is no number |
| `Template.SubstitutesIffClean` | format.h:43-68 | for arbitrary literal text, formatting is simultaneous substitution for all values iff, from where the scan resumes, no brace pair comes before the next marker, the marker is still ahead, and no pair behind the last marker holds a number (none at all without markers) |
| `Template.SubstitutesIffSpaced` | format.h:43-68 | for literal text without brace pairs: iff markers are far enough apart |
| `NumberedTemplate.PassIff` | format.h:43-68 | the same for templates l0{0}l1{1}… of up to ten markers |
| `Template.BadFirstMarkerThrows` | format.h:56-63 | an out-of-range or non-numeric first marker ends in an exception |
| `SqlText.InsertIff` | sqlite_op.h:69-75 | insert_db builds INSERT INTO t VALUES (q1,…,qn); iff no brace pair stands before the last value |
| `SqlText.InsertMplIff` | sqlite_op.h:116-144 | the same for the recursion over the columns |
| `SqlText.RecordIff` | sqlite_op.cpp:258-262 | a friend request is stored by the intended INSERT iff its note holds no brace pair, whatever the remark |
| `SqlText.NoteSpoilsInsert` | qweb_client.cpp:123-135 | the note {0} is enough to spoil it |
| `SqlText.BraceFreeFront` | sqlite_op.h:69-75 | table and all but the last value without opening braces meet the condition |
| `SqlText.UpdateIff` | sqlite_op.h:55-66 | the two passes build the UPDATE statement for all values iff neither table + updated field nor the other field holds a brace pair |
| `SqlText.DeleteIff` | sqlite_op.h:44-52 | the two passes build the DELETE statement for all values iff table + field hold no brace pair |
| `SqlText.SpelledOut` | sqlite_op.h:44-66 | the intended UPDATE and DELETE, part by part |
| `SqlText.Quoting` | sqlite_op.h:104-111 | texts are quoted, numbers are not |
| `SqlText.ThreeColumns` | sqlite_op.h:116-144 | the list of an INSERT keeps the columns' order, with commas between them |
| `ResponseWriter.HttpResponseWriter.WriteChunked` | include/hv/HttpResponseWriter.h:77-94 | header block if still due, then one chunk |
| `ResponseWriter.HttpResponseWriter.WriteBody` | include/hv/HttpResponseWriter.h:104-117 | a chunk, or kept for later, or sent at once |
| `ResponseWriter.HttpResponseWriter.Dump` | third_party/libhv/http/HttpMessage.cpp:801-823 | the status line always, header lines with a length filled in, the body as far as the length |
| `ResponseWriter.HttpResponseWriter.End` | include/hv/HttpResponseWriter.h:145-185 | closes the body once, for chunked, buffered and streamed responses |
| `ResponseWriter.DecodeChunk` | include/hv/HttpResponseWriter.h:83-92 | a written chunk decodes to its piece; an empty one is the last chunk |
| `ResponseWriter.WellFormedIff` | include/hv/HttpResponseWriter.h:28-185 | the wire is one complete chunked message carrying the pieces iff there are pieces and none is empty |
| `ResponseWriter.BufferedIsFramed` | include/hv/HttpResponseWriter.h:104-185 | a body written before any header makes one complete message with its exact length |
| `ResponseWriter.StreamedIff` | include/hv/HttpResponseWriter.h:61-185 | after EndHeaders with a length, or with 0 when none is given, the wire is one complete message carrying the pieces iff they add up to it and something was written |
| `ResponseWriter.LateHeaders` | third_party/libhv/http/HttpMessage.cpp:540-547 | what is sent when the body was written before EndHeaders, for every stated length |
| `ResponseWriter.BlockThenBody` | third_party/libhv/http/HttpMessage.cpp:801-823 | a header block and a body are a complete message iff the body is framed as the block's lines say |
| `ResponseWriter.EndIsFinal` | include/hv/HttpResponseWriter.h:145-147 | repeated End calls add nothing |
| `Varint.VarintEncode` | include/hv/hmath.h:28-39 | writes exactly the encoding and nothing behind it |
| `Varint.VarintDecode` | include/hv/hmath.h:42-66 | value and size of the first varint, or too short, or no end within ten bytes |
| `Varint.RoundTrip` | include/hv/hmath.h:28-66 | decoding an encoded value in front of any bytes returns it and its size, at most nine |
| `Varint.LowGroupFirst` | include/hv/hmath.h:28-39 | the low seven bits come first |
| `Varint.PrefixIsTooShort` | include/hv/hmath.h:47-51 | every proper non-empty prefix is reported as too short |
| `TextWrap.QlabWrap.InsertBreak` | qlab_wrap.cpp:70-86 | the loop computes the specified wrapping |
| `TextWrap.QlabWrap.UpdateText` | qlab_wrap.cpp:88-101 | the label gets the wrapped text, its width, and one line height for each displayed line |
| `TextWrap.WrapKeepsText` | qlab_wrap.cpp:70-86 | without the inserted breaks the result is the text |
| `TextWrap.BreaksAreLines` | qlab_wrap.cpp:48-56 | one line more than breaks |
| `TextWrap.LinesJoin` | qlab_wrap.cpp:58-68 | the lines are the text cut at its breaks and nowhere else |
| `TextWrap.BreaksWhereNeeded` | qlab_wrap.cpp:70-86 | a break is put before a character iff the running width would reach the limit with it |
| `TextWrap.LabelIsTight` | qlab_wrap.cpp:88-101 | a width is enough for the label iff it is the limit or more, or no line of the text is wider |
| `TextWrap.LinesFitIff` | qlab_wrap.cpp:70-101 | every displayed line fits the label iff no character is wider than the limit |
| `Layout.QmovePos.MoveGroup` | qmove_pos.cpp:33-98 | the loops move every widget to the place of the specified fold, in either order, and return its extent |
| `Layout.QmovePos.MoveX` | qmove_pos.cpp:13-16 | each widget stands behind the widths of those before it, on one line |
| `Layout.QmovePos.MoveXr` | qmove_pos.cpp:18-21 | the same in reverse order |
| `Layout.QmovePos.MoveY` | qmove_pos.cpp:23-26 | each widget stands below the heights of those before it |
| `Layout.QmovePos.MoveYr` | qmove_pos.cpp:28-31 | the same in reverse order |
| `Layout.PlacingOfDistinct` | qmove_pos.cpp:41-46 | without repetition the i-th widget ends at the i-th place |
| `Layout.DefaultIsSquareIff` | qmove_pos.cpp:75-81 | the default has at most one line more than widgets in a line iff the number is not between s(s+1) and s(s+2); there s+1 would be square |
| `Layout.DefaultFailsIff` | qmove_pos.cpp:75-81 | there is no default exactly when there are no widgets |
| `Layout.RowsApartIff` | qmove_pos.cpp:49-60 | given heights, widgets in rows never overlap whatever their widths iff each line but the last ends tall enough |
| `Layout.RowsApart` | qmove_pos.cpp:49-60 | rows whose lines end tall enough never overlap, empty sizes included |
| `Layout.ColumnsAreRows` | qmove_pos.cpp:61-71 | columns are rows of the turned widgets, turned back |
| `Layout.LineApart` | qmove_pos.cpp:13-31 | move_x, move_y and their reversed forms never overlap widgets of any sizes |
| `Layout.Grid` | qmove_pos.cpp:49-60 | equal widgets: the i-th stands at column i mod row, line i / row |
| `Layout.ExtentIsExact` | qmove_pos.cpp:44-47 | the returned size is the smallest box from the corner that holds all widgets |

## Left out

- Qt widgets, painting, signals, sockets and the event loop, SQLite and JSON parsing themselves.
- FileTables.Step: `std::mutex` and concurrent calls on one transfer are not modelled; operations are atomic, as on the client's single event-loop thread.
- FilesClient.SlMessage: the choice of the file name for a download, logging, and the JSON sends' own success are not modelled.
- ThreadPool.EveryRun: pause and resume only delay workers and are not separate actions; stop, shrinking and growing pools are not modelled, since their counters change in separate steps.
- RingBuffer.HRingBuf.Free: the caller frees in order with the lengths it allocated, and lengths are positive; buffers over borrowed memory are left out.
- Varint.VarintEncode: negative values are left out, because the encoding loop does not end for them.
- ChatWindow.ShownAndUnreadSplit: showing and inserting a sent message is one step, and messages are text, so that each one has a widget.
- ChatAck.EveryRun: the server only carries packets; friend lists, login data and error messages are left out.
- ResponseWriter.HttpResponseWriter.End: a connection that is already closed, `close()` after the last write, and failing writes are left out, and so are WriteResponse, server-sent events, and bodies set other than by WriteBody.
- Layout.QmovePos.MoveGroup: 32-bit overflow of coordinates and move_center.
- Disk.OnDiskThroughoutIff: stream buffers, which delay writes until a file is closed, and files that are sent while they are received.
- Numbers in SQL text: `std::to_string` is any non-empty text without braces.
- Older copies of the same code (`swap_files.h`, `qsqlist.*`, `tests/web_server/format.h`).
