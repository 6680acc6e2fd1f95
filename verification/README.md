# A verified model of the H.264-over-RTP tools

The repository sends an H.264 file over RTP, receives it back into a file, and brings along the data
structures and the small TCP server that its programs use. This project models those parts in Dafny
and proves what they keep over all inputs and all runs.

| file | models |
|---|---|
| `Bytes.dfy`, `Wrappers.dfy` | optional values, bytes and wrapping integers, and the C library calls (memset, memcpy, fread, fputc, fwrite) |
| `AnnexB.dfy`, `AnnexBTheorems.dfy` | the byte-at-a-time Annex B splitter `copy_nal_from_file` |
| `Rtp.dfy` | the packed header layouts, read and written bit field by bit field |
| `Packetizer.dfy`, `RtpTheorems.dfy`, `SenderRuns.dfy` | `h264nal2rtp_send`: one call, and whole runs of calls |
| `Depacketizer.dfy` | `decode_rtp2h264` |
| `Pipeline.dfy` | the driver loop, the receiving loop, and the two programs together |
| `BlockQueue.dfy`, `QueueInterleaving.dfy`, `QueueCalls.dfy` | the two-lock ring of byte blocks: sequentially, and under every interleaving of any number of threads |
| `CounterRing.dfy` | the ring on free-running 32-bit counters |
| `SessionTable.dfy` | the TCP server's table of four sessions and its select loop |
| `StartCodeScanner.dfy` | the skipping start-code scanner and its I/P counters |
| `ListQueue.dfy`, `ClientList.dfy` | the linked queue and the list of client addresses |

Code that updates state in place is a class with methods, or a method with loops. Each is proved
equal to a function on values, and the theorems are about that function. Integers are unbounded in
Dafny, so every 16- and 32-bit wrap-around is written out. Bit fields are quotients and remainders by
powers of two. A packet handed to `send_data_to_client_list` is appended to the trace `sent`; the
network between the two programs neither loses nor reorders packets. The results of `accept`, `recv`,
`write` and `select`, and the random session ids, are inputs.

## What turned out false, and when it is true

- Section B.1 of ITU-T H.264 allows extra zero bytes before a start code. The splitter drops every
  00 00 00 that is not followed by 01 together with the byte after it, and can miss the start code.
  It cuts at the first start code if and only if no 00 00 00 comes before it, other than the one that
  begins a four-byte code (`SplitterExactness`, `ExtraZeroByteMissed`).
- A NAL unit of type 28 that fits one packet is sent unfragmented and taken for an FU-A fragment by
  the decoder; one of a single byte even makes the decoder ask for a negative number of bytes. The
  round trip holds if and only if there is no such unit (`NalRoundTrip`, `TransmitRoundTrip`).
- `++seq_num % UINT16_MAX` is not the increment modulo 65536 of section 5.1 of RFC 3550: 65534 is
  followed by 0, and that 0 by 0. Everywhere else the step is right (`SequenceSteps`).
- `GetSequeueSize` says 3 for an empty queue, and is right if and only if the queue is not empty
  (`ReportedSizeExact`).
- In `common/queue.c` `rear` is advanced before the bytes are copied, so a reader can overtake the
  writer and get a block that is partly stale, even if the writer is done by the time the reader
  finishes (`TornRead`). A reader gets its element whole if and only if it copied each cell after the
  element's writer had copied that cell (`ReadIsCompleteIff`). A read under way is bound to end well
  if and only if nothing was copied too early and what is left has arrived (`BoundToBeCompleteIff`);
  it is enough that no writer is busy with the element when `front` is advanced (`WriterGoneIsEnough`).
  A cell copied too early is a zero or belongs to the element three before (`StaleRead`).
- The counter ring is a FIFO for ever if and only if its size divides 2^32. With any other size every
  run that stores fewer than 2^32 items is right, and some run goes wrong at the 2^32nd
  (`RefinesFifo`, `WrapBreaksSize`, `FifoForeverIff`). In any state its reported size is right if and
  only if the size divides 2^32 or both counters have wrapped equally often (`SizeRightIff`).
- The session table relies on `accept` not returning descriptor 0. A session that is accepted and
  fails in the next round leaves everything as before if and only if its descriptor is not 0, which
  is never closed (`DescriptorZeroLeaks`).

Where comments and code disagree, the model follows the code: `sample/llist.h` says that
`delete_this_node` returns the node before the deleted one, while for a node that is not in the list
the code returns the last node; the comment above `search_node` speaks of 0 and 1, while the code
returns a pointer; `file_parse/test_h264.c` calls the result of `parse_h264_file` the remaining
length, while it is the offset past the last start code.

## Model

| member | source | states |
|---|---|---|
| AnnexB.CopyNalFromFile | sample/send_h264file_rtp.c:358-431 | The flag machine equals the window form `Scan`: same bytes in the buffer, same result, same file position; its loop invariant `Midway` says bytes read = length + flag + 4 * discards and flag = `FlagAfter` of the bytes read |
| AnnexB.MidwayStep | sample/send_h264file_rtp.c:371-428 | One turn of the loop keeps that invariant, or ends the call with the scan of the whole input |
| AnnexB.OneByte | sample/send_h264file_rtp.c:378-426 | For every flag and byte: which bytes reach the buffer, the next flag, and when the call returns |
| AnnexB.MachineStep | sample/send_h264file_rtp.c:378-426 | One byte of the machine keeps "written so far, then the scan of held-back zeros and the rest" equal to the scan of the whole input |
| AnnexBTheorems.ScanConservation | sample/send_h264file_rtp.c:371-428 | On every input each byte read is written, held back, part of the start code or discarded in a group of four; a successful call stops just past a start code |
| AnnexBTheorems.FlagIsZeroRunIff | sample/send_h264file_rtp.c:378-424 | At every point of the input the flag is the length of the zero run just read if and only if the input has no four zeros in a row |
| AnnexBTheorems.ScanClean | sample/send_h264file_rtp.c:387-425 | On every input, malformed included, the bytes written contain no 00 00 00 or 00 00 01 and do not end in 00 |
| AnnexBTheorems.SplitterExactness | sample/send_h264file_rtp.c:373-428 | The call cuts at the first start code if and only if no stray 00 00 00 comes before it |
| AnnexBTheorems.NoCodeNoUnit | sample/send_h264file_rtp.c:374-377 | Without a start code the call reads to the end of the file and returns -1 |
| AnnexBTheorems.ExtraZeroByteMissed | sample/send_h264file_rtp.c:417-424 | An extra zero byte before a four-byte start code hides that code, whatever the unit and the rest |
| AnnexBTheorems.ScanUnit | sample/send_h264file_rtp.c:358-431 | A unit followed by a 3- or 4-byte start code is read back if and only if it is clean |
| AnnexBTheorems.SplitInvertsEncode | sample/send_h264file_rtp.c:466-478 | For every list of units and every mix of start codes: splitting the stream gives the list back if and only if all units are clean |
| Rtp.HeaderCarries | sample/h264tortp.h:13-29 | Twelve bytes are the sender's header for given fields if and only if reading the fields by the layout of RFC 3550 gives version 2, payload type 96, source 10, zeros, and those fields |
| Packetizer.FragmentBounds | sample/send_h264file_rtp.c:185-186 | A unit over 1400 bytes has at least two fragments and the last has 1 to 1400 bytes |
| Packetizer.FragmentTiling | sample/send_h264file_rtp.c:185-342 | Fragment ranges are contiguous and disjoint, cover exactly bytes 1 to n-1 and stay inside the unit |
| Packetizer.EmitShort | sample/send_h264file_rtp.c:124-172 | A unit of 1 to 1400 bytes, of any type, becomes one packet whose bytes from 12 on are the unit |
| Packetizer.EmitCount | sample/send_h264file_rtp.c:124-186 | One packet if and only if the unit has at most 1400 bytes, otherwise the least m with 1400 m >= the length |
| Packetizer.EmitLong | sample/send_h264file_rtp.c:189-341 | Packet k of a longer unit, byte by byte: indicator with type 28, FU header 128, 0 or 64 plus the type, and the unit's bytes from 1400 k (1 for the first) to 1400 (k + 1) or the end; middle packets have 1414 bytes |
| Packetizer.TickIsQuotient | sample/send_h264file_rtp.c:112 | The tick is 90000 divided by the frame rate, truncated toward zero, for positive and negative rates |
| Packetizer.Sender.FillRtpHeader | sample/send_h264file_rtp.c:134-143 | Writes the whole header but for the marker bit, which keeps the buffer's old value, and advances the counter |
| Packetizer.Sender.SendSingle | sample/send_h264file_rtp.c:124-172 | After the memset no stale byte is sent: the packet is a header without marker and then the unit, 12 bytes longer than the unit |
| Packetizer.Sender.SendFragment | sample/send_h264file_rtp.c:189-342 | One turn of the loop sends exactly fragment k, in all three branches |
| Packetizer.Sender.H264Nal2RtpSend | sample/send_h264file_rtp.c:94-355 | The call sends exactly the packets of `Call` and moves both static counters as `Call` says: -1 and no packet for an empty unit, one packet with the unit itself up to 1400 bytes, and the least number of packets of 1400 bytes for more |
| RtpTheorems.EmittedHeader | sample/send_h264file_rtp.c:129-171 | Every packet carries the call's timestamp and its own sequence number, the marker only on a last fragment, and has 13 to 1414 bytes |
| RtpTheorems.EmittedHeaderBytes | sample/h264tortp.h:13-29 | The first twelve bytes of every packet, each as a number or a byte of the sequence number or timestamp |
| RtpTheorems.FragmentStructure | sample/send_h264file_rtp.c:195-341 | S on the first fragment only, E on the last only, never both; F, NRI and type as in the unit; payload k is the unit's range k |
| RtpTheorems.FragmentsDecode | sample/test_decode_rtp2h264.c:37-54 | Decoding the first k fragments gives a start code and the unit's bytes up to the end of fragment k-1 |
| RtpTheorems.NalRoundTrip | sample/test_decode_rtp2h264.c:36-66 | Decoding the packets of a unit gives 00 00 00 01 and the unit if and only if it is not a short unit of type 28 |
| SenderRuns.SequenceNumbers | sample/send_h264file_rtp.c:100-142 | Over any run of calls the k-th packet ever sent, from 0, carries (k+1) mod 65536 mod 65535 |
| SenderRuns.SequenceSteps | sample/send_h264file_rtp.c:141-142 | Successive numbers differ by 1 modulo 65536 except at exactly two places per turn of the counter |
| SenderRuns.RunTimestamp | sample/send_h264file_rtp.c:99-122 | Over calls at any frame rates, every packet of call c carries the ticks of calls 0 to c modulo 2^32, empty calls included |
| SenderRuns.Timestamps | sample/send_h264file_rtp.c:112-142 | At a fixed frame rate the packets of call c carry (c+1) * (90000/framerate) modulo 2^32 |
| Pipeline.DriverTimestamps | sample/send_h264file_rtp.c:466-478 | The driver's packets for unit c, empty units counted, carry (c+1) * 3600 modulo 2^32 |
| Depacketizer.DecodeRtp2H264 | sample/test_decode_rtp2h264.c:27-70 | Appends exactly what `DecodePacket` says: the end bit is looked at before the start bit, and the header byte is rebuilt from indicator and FU header |
| Depacketizer.DecodeOnWire | sample/test_decode_rtp2h264.c:27-70 | The bytes appended for any packet, from its bytes 12 and 13: for type 28 the end bit decides first, then the start bit |
| Pipeline.SendFile | sample/send_h264file_rtp.c:466-478 | The driver loop sends exactly the packets of the file's units, in order |
| Pipeline.ReceiveAll | sample/test_decode_rtp2h264.c:136-147 | The receiving loop appends the decoding of all packets in order |
| Pipeline.EncodedFits | sample/send_h264file_rtp.c:15-27 | The unchecked buffer is large enough for a stream if and only if it holds every unit and what is scanned of the tail |
| Pipeline.DriverFits | sample/send_h264file_rtp.c:15-27 | The driver's buffer is large enough if and only if no unit has more than 75000 bytes, nor what is scanned of the tail |
| Pipeline.TransmitRoundTrip | sample/test_decode_rtp2h264.c:27-70 | For every list of units the receiver's file is the normal form if and only if no unit is a short one of type 28 |
| Pipeline.EndToEnd | sample/send_h264file_rtp.c:466-478 | Clean units with any mix of start codes arrive in order, each non-empty one behind 00 00 00 01, and nothing else, if and only if none is a short one of type 28; a tail without start code is not forwarded |
| Pipeline.NormalForm | sample/send_h264file_rtp.c:358-431 | For every input file: the normal form of its units, closed by a start code, splits into the same units |
| Pipeline.SecondPassIsIdentity | sample/test_decode_rtp2h264.c:42-65 | For every first input without a short unit of type 28, well formed or not, a second pass through both programs reproduces the received file byte for byte |
| Pipeline.Relay | sample/send_h264file_rtp.c:433-484 | Sender and receiver run one after the other write the normal form of the file's units |
| BlockQueue.IndexTests | common/queue.c:44-58 | Full, empty and the index steps match the number of blocks, which is at most 2 |
| BlockQueue.ReportedSizeExact | common/queue.c:110-118 | The reported size is right if and only if the queue is not empty |
| BlockQueue.BlocksAppend | common/queue.c:75-78 | Writing the block behind `rear` appends it, and the blocks before it stay |
| BlockQueue.DataSequeue.EnDataQueue | common/queue.c:60-82 | -1 and nothing changed when two blocks are in; otherwise the block is appended and no other slot changes |
| BlockQueue.DataSequeue.DeDataQueue | common/queue.c:84-108 | -1 and nothing changed when empty; otherwise the oldest block is removed and, if asked for, copied out |
| BlockQueue.DataSequeue.GetSequeueSize | common/queue.c:110-118 | The number of blocks, or 3 for none |
| BlockQueue.DataSequeue.DeAllDataQueue | common/queue.c:120-130 | Empties the queue |
| QueueInterleaving.RunInv | common/queue.c:60-108 | Under every schedule of any number of threads, for any block size, the invariant of locks, counters, slot contents and reader buffer holds |
| QueueInterleaving.Safety | common/queue.c:60-108 | At most one writer and one reader inside, 0 to 2 elements in the queue, indices equal to the counters modulo 3 |
| QueueInterleaving.NoCrossElementCollision | common/queue.c:75-103 | A slot being written and a slot being read coincide if and only if they are the same element's |
| QueueInterleaving.ReadIsCompleteIff | common/queue.c:99-104 | A finished reader has copied every cell, and all are its element's own if and only if no cell was copied before the element's writer had copied that cell |
| QueueInterleaving.BoundToBeCompleteIff | common/queue.c:75-104 | Every continuation of a read under way ends with the whole element if and only if nothing was copied early and every cell left has arrived |
| QueueInterleaving.WriterGoneIsEnough | common/queue.c:75-104 | If no writer is in its memset or memcpy for the element when `front` is advanced, the reader gets it whole under every continuation |
| QueueInterleaving.TornRead | common/queue.c:75-104 | A schedule in which a reader ends with one stale and one new cell although no writer is left |
| QueueCalls.EnCheck | common/queue.c:52-73 | Under every schedule a thread at the full test gives up with -1 if and only if two elements are in the queue at that moment, and goes on otherwise |
| QueueCalls.DeCheck | common/queue.c:44-97 | Under every schedule a thread at the empty test gives up with -1 if and only if no element is in the queue at that moment, and goes on otherwise |
| QueueCalls.ReturnCodes | common/queue.c:60-108 | In every run the calls that returned 0 are exactly those that advanced the index, every other finished call returned -1, and entered = finished + inside |
| QueueCalls.MemoryExact | common/queue.c:75-78 | The contents of every cell in every reachable state: the three newest elements, the newest as far cleared and copied as its writer has got |
| QueueCalls.StaleRead | common/queue.c:99-104 | Each cell a reader gets is its element's own, a zero, or of the element three before |
| QueueCalls.GetsOut | common/queue.c:60-108 | From every reachable state a thread inside a call leaves it, and frees its lock, by its own steps alone, wherever the other threads stand |
| QueueCalls.EnqueueAlone | common/queue.c:60-82 | From every reachable state with the lock free, an enqueue that runs alone returns 0 if and only if there is room; then one slot holds the new element, and nothing else changes |
| QueueCalls.DequeueAlone | common/queue.c:84-108 | From every reachable state with the lock free, a dequeue that runs alone returns 0 if and only if the queue is not empty; then it has copied the whole slot behind `front`, and nothing else changes |
| CounterRing.HeldCounters | data_structure/queue_linear_pointer.c:6-49 | Empty, full and size, computed from wrapped counters and remainders, match the number of items |
| CounterRing.RefinesFifo | data_structure/queue_linear_pointer.c:17-92 | Every run of pushes, pops and size queries is answered as by a FIFO of node_size items: for ever if node_size divides 2^32, else as long as fewer than 2^32 items are stored, refused pushes not counted |
| CounterRing.WrapBreaksSize | data_structure/queue_linear_pointer.c:31-48 | For every other size some run that stores 2^32 items makes the queue report full and n items while it holds 2^32 mod n |
| CounterRing.SizeRightIff | data_structure/queue_linear_pointer.c:34-49 | In any state of the counters the reported size is right if and only if the ring size divides 2^32 or both counters have wrapped equally often |
| CounterRing.FifoForeverIff | data_structure/queue_linear_pointer.c:17-92 | All runs are answered as by a FIFO if and only if node_size divides 2^32 |
| CounterRing.PointerQueue.PushQueue | data_structure/queue_linear_pointer.c:66-77 | The new counters, slots and result are those of the ring's push step; -1 without storage |
| CounterRing.PointerQueue.PopQueue | data_structure/queue_linear_pointer.c:80-92 | The new counters and the item are those of the ring's pop step; -1 without storage |
| CounterRing.PointerQueue.GetQueueSize | data_structure/queue_linear_pointer.c:34-49 | The size of the ring, 0 without storage |
| CounterRing.PointerQueue.FullQueue | data_structure/queue_linear_pointer.c:17-32 | The ring's full test, true without storage |
| CounterRing.PointerQueue.CreateQueue | data_structure/queue_linear_pointer.c:51-63 | -1 and nothing changed for a size that is not positive, else an empty ring of that size |
| SessionTable.RunConsistent | server/tcp/tcp_server.cpp:219-259 | After any rounds: clientNum counts the used slots, sockets are distinct and with the listener exactly the open descriptors, and no slot waits to be reaped |
| SessionTable.AcceptConsistent | server/tcp/tcp_server.cpp:50-91 | Accept keeps the table consistent, whether it fails, finds a slot or finds none |
| SessionTable.ReadConsistent | server/tcp/tcp_server.cpp:94-140 | Serving a client keeps the table consistent for every outcome of recv and write |
| SessionTable.DestroyConsistent | server/tcp/tcp_server.cpp:142-174 | A slot marked -1 is in use and its socket open; reaping closes that one descriptor, keeps the table consistent and never needs the clamp |
| SessionTable.RoundSlots | server/tcp/tcp_server.cpp:221-257 | The exact table after a round, slot by slot: dropped if and only if served and failed, the new connection in the first free slot and not served in its own round, all else unchanged |
| SessionTable.ServedSessionKeptIff | server/tcp/tcp_server.cpp:94-140 | A served session survives a round, unchanged and with its socket open, if and only if recv failed with EINTR or EAGAIN, or data came and the write was positive or failed with EINTR or EAGAIN, or recv returned less than -1; otherwise the slot is cleared and the socket closed |
| SessionTable.IdleSessionKept | server/tcp/tcp_server.cpp:219-259 | A session whose socket is not ready is unchanged and open after the round |
| SessionTable.AcceptedConnection | server/tcp/tcp_server.cpp:63-91 | An accepted connection is open after the round if and only if fewer than four were in use, and then it is in the table |
| SessionTable.ReapUndoesAcceptIff | server/tcp/tcp_server.cpp:142-174 | Accepting, failing and reaping a session leaves everything as before if and only if its descriptor is not 0 |
| SessionTable.DescriptorZeroLeaks | server/tcp/tcp_server.cpp:219-259 | The same over two rounds of the server from any loop head with room: after accepting and failing, all is as before if and only if the descriptor is not 0, and 0 stays open |
| SessionTable.MyServer.IncomingConnectionHandler | server/tcp/tcp_server.cpp:34-92 | The new table is that of the accept step |
| SessionTable.MyServer.IncomingConnectionHandlerClient | server/tcp/tcp_server.cpp:94-140 | The slot is marked -1 exactly on end of file, and on errors of recv or write other than EINTR and EAGAIN; nothing else changes |
| SessionTable.MyServer.DestroyClientSession | server/tcp/tcp_server.cpp:142-174 | The new table is that of the reap step, clamp included; the socket it closes must be open |
| SessionTable.MyServer.ReapClients | server/tcp/tcp_server.cpp:249-256 | The reap loop over a consistent table equals `ReapLoop`, and closes only descriptors that are open at that moment, so none twice |
| SessionTable.MyServer.SelectRound | server/tcp/tcp_server.cpp:221-258 | The loops of one round give the round's table and restore the loop-head invariant |
| SessionTable.MyServer.Serve | server/tcp/tcp_server.cpp:219-259 | The loop-head invariant holds after any number of rounds |
| StartCodeScanner.NaiveFindsAll | file_parse/file_parse.c:77-91 | Trying every position finds exactly the start codes, in order |
| StartCodeScanner.SkippingIsNaive | file_parse/file_parse.c:128-142 | Skipping four bytes after a match visits the same positions as trying every one |
| StartCodeScanner.PastLastExact | file_parse/file_parse.c:122-143 | The answer is 0 without a start code, and otherwise four past the last one |
| StartCodeScanner.CountIsSize | file_parse/file_parse.c:128-142 | Counting along the list of start codes is counting all positions with a start code and that type |
| StartCodeScanner.ParseH264File | file_parse/file_parse.c:114-146 | Returns 0 if and only if no position holds 00 00 00 01, and otherwise the offset just past the last one; I and P grow by the number of positions that hold a start code followed by type 5 or type 1 |
| StartCodeScanner.NalCounters.PrintNalType | file_parse/file_parse.c:51-75 | 0 exactly for types 1 to 13, 19 and 0xff0f001, else -1; I counts type 5 and P type 1 |
| ListQueue.Queue.PushQueue | data_structure/queue_list.c:69-101 | Appends one item behind a fresh node; a stale rear is never followed |
| ListQueue.Queue.PopQueue | data_structure/queue_list.c:104-119 | Removes the oldest item and frees exactly its node; -1 when empty |
| ListQueue.Queue.GetQueueSize | data_structure/queue_list.c:38-53 | The length of the chain |
| ListQueue.Drive | data_structure/queue_list_test.c:8-46 | Any run of pushes and pops is answered, results and sizes, as by a FIFO |
| ClientList.RemoveIsEntire | sample/llist.c:32-51 | From a list without duplicates, deleting the first match deletes the address entirely |
| ClientList.RunIsSet | sample/llist.c:106-119 | Any run of insertions and deletions leaves no duplicate and holds exactly the addresses of the corresponding set |
| ClientList.LinkList.InsertLink | sample/llist.c:19-30 | The address goes to the front, in a fresh node, the chain stays acyclic |
| ClientList.LinkList.SearchNode | sample/llist.c:79-94 | A node with the address if and only if the address is in the list |
| ClientList.LinkList.InsertNodulpNode | sample/llist.c:110-119 | Inserts, and returns 1, exactly when the address is new |
| ClientList.LinkList.DeleteNode | sample/llist.c:32-51 | The list without the first match, and unchanged without a match |
| ClientList.LinkList.DeleteThisNode | sample/llist.c:54-74 | Unlinks the node and returns the one before it; for a foreign node nothing changes and the last node or the header is returned |
| ClientList.LinkList.NumNode | sample/llist.c:96-104 | The number of addresses |

## Left out

- Sockets, address resolution, multicast and options (`common/commonsocket.c`, `common/tcpsocket.c`, `common/udpsocket.c`): input and output only.
- The loop over clients in `send_data_to_client_list` and its failure counter: every packet goes to one trace.
- Loss, reordering and duplication on the network: neither program reacts to them.
- The repeated copies of splitter, packetizer and decoder in `client/udp/client.c`, `sample/test_tcp_send_nal.c`, `sample/test_tcp_recv_nal.c` and `sample/test_rtp2h264.c`: the same logic.
- `data_structure/queue_linear_arrary.c`: the counter ring with three slots.
- `copy_nal_from_file` and `find_nal_start_code` in `file_parse/file_parse.c`: the first is unfinished and the second only serves it.
- The destroy functions (`destroy_queue`, `free_linklist`, `DestroyDataSequeue`, `DestroyServer`): operations after them are outside the contracts.
- `DeAllDataQueue` in the interleaved model: it takes only the enqueue lock; it is modelled sequentially.
- Allocation failure, null-pointer guards (but for the counter ring's missing storage), logging, sleeping and argument parsing.
- AnnexB.CopyNalFromFile: assumes that what it writes fits the buffer, as the C code does; `Pipeline.SmallFileFits` and `Pipeline.EncodedFits` say when it does.
- Depacketizer.DecodeRtp2H264: assumes the packet is long enough for the bytes that are read, as the C code does.
- StartCodeScanner.ParseH264File: assumes that the byte after a start code can be read, which for one at the very end of the data lies behind it.
- QueueInterleaving.RunInv: each index store, lock operation, test and cell access is one atomic step in one order for all threads, so reordered memory accesses are not modelled; nor is a dequeue without an output buffer, which copies nothing.
