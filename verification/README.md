# omxtranscode, verified

A Dafny model of the logic of omxtranscode, a multithreaded transcoder: the demultiplexer, the thread
that feeds the OMX decoder, the encoder's callback, the writer, and the data structures between them.
The OMX and libav calls themselves are opaque; the code around them is what is modelled and proved.

## The parts

- `IntrusiveList` is list.h on the heap: nodes with next/prev pointers, and every operation proved to do
  to a ring of nodes what it should, including moves and splices between two lists.
- `PacketQueue` is packet_queue.c on top of it: add, both gets, and the flush that deletes while it
  iterates, against a sequence of packets. `Memory` records which blocks are freed or handed over.
- `Selections` says by positions which elements of a list are kept. `FrameLaws` and `NalLaws` use it to say,
  frame by frame and NAL unit by NAL unit, what the functions of `Pipeline`, `Chunking` and `NalSpec` compute.
- `Runs` has what all step systems share: runs, reachable states, and invariants.
- `QueueSignals` asks for how many consumers the signalling of the queue suffices: exactly for one.
- `BufferPools` has both buffer pools of an OMX component, as values (used by the step systems below) and
  as chains of buffer headers on the heap, proved to do what the values say.
- `Chunking` and `Timestamps` cut packets into OMX buffers and put them together again.
- `Demux` has the read loop of the demultiplexer.
- `Pipeline` is a step system of the demultiplexer, the decode thread and the decoder. `PipelineSafety`
  proves its invariants, `PipelineTheorems` what they amount to, `PipelineProgress` that every run ends
  and where, and `PipelineRaces` shows two things the program does not guarantee.
- `InputPoolRace` looks at the input pool in smaller steps than `Pipeline` does.
- `NalSpec` says what the writer should write, as grouping followed by filtering, and proves that what it
  does meets that. `Muxer` is the writer's code on the heap, with the ownership of its blocks.
- `EncoderOutput` is a step system of the writer and the encoder, `EncoderTheorems` what follows, and
  `EncoderProgress` that every run ends and where.
- `Transcoder` puts the two step systems together: the decode thread starts the writer, the writer takes the
  audio packets, and reads the flag that the demultiplexer sets. `TranscoderStart` says what the start means for
  the audio packets, `TranscoderProgress` how runs of the whole end, and `TranscoderRuns` which ends are possible
  for which input.
- `Handshake` is the command slot of an OMX component and the waiting for a completion.

A step system has one action for each critical section and for each access to a shared variable outside
one. A run is any list of actions that are possible one after the other, so a theorem about reachable
states is about every interleaving. Accesses are taken to be sequentially consistent.

## Where the code falls short

Six properties one would expect do not hold of the code. The model keeps the code as it is, gives a run
that shows the failure, and proves exactly when the property does hold.

- The loop of the decode thread can end with a packet still in the queue, because its guard reads two
  variables one after the other (encode.c:48; the comment there says so): `PacketLeftBehind`,
  `ExitIsCompleteIff`, `ExitLeavesPacketIff`, `AtomicExitIsComplete`.
- The demultiplexer, the decode thread and the writer can wait for each other for ever. Only the writer takes
  audio packets, at most one for each output buffer it gets (mux.c:327-329), and it starts only after the decode
  thread has set is_running while it held bytes of a packet (encode.c:182, mux.c:318). If the audio queue is
  full, the demultiplexer polls it (demux.c:111), the decode thread sleeps on an empty queue (packet_queue.c:74),
  and the writer waits for its start, or for a buffer from an encoder that is fed no more (omx.c:410):
  `Deadlocked`, `DeadlockedForever`, `LastToWait`. A run ends there exactly if the audio packets not taken do not
  fit into the queue: `EndsInDeadlockIff`. Which inputs are concerned depends on how many timestamped audio
  packets they have in all, and how many of these are ahead, that is, in front of the first video packet with
  data. With a writer that may be left unstarted, it can happen exactly if there are more than 101 in all:
  `CanDeadlockIff`. With a started writer, exactly if at most 101 are ahead, and those left, after the writer has
  taken as few as it can, are more than 101: `StartedCanDeadlockIff`, `LeastAudioTaken`, `LeastAudioRun`. The
  demultiplexer never finishes, in any interleaving, exactly if more than 101 are ahead, or those in all are more
  than the output buffers, the packets of the encoder and 101 together: `NeverFinishesIff`, `TooMuchAudio`.
- The decode thread can sleep for good on an empty queue, so that the end of the stream is never announced:
  `PipelineRaces.AsleepForGood`. Apart from the deadlock, this is so exactly if its guard is evaluated when no
  packet is left to come and queue_finished is not set yet; of the two reads of the guard the second decides:
  `GuardDoomsIff`, `DoomedAtGuard`, `PipelineProgress.DoomedForever`, `WhoIsAsleep`. Outside the deadlock every
  packet has been delivered then: `AtTheEnd`. The writer waits for good then, too: `WhoIsAsleep`.
- The writer can sleep for good in omx_get_next_output_buffer, although the exit condition of its loop
  (mux.c:322) is true, so that the output file is never finished: `EncoderProgress.AsleepForGood`, for every
  output of the encoder and every number of buffers. It does exactly if the loop test reads one of its two
  flags as not set when the encoder has all buffers and nothing left to put into them: `LoopTestDoomsIff`,
  `DoomedAtLoopTest`, `EncoderProgress.DoomedForever`, `EncoderProgress.EndsAsleepIff`; or, seen from the moment
  when the second flag is set, exactly if the writer waits by then and no buffer will come:
  `DecidedWhenFlagsAreSet`. All video data have been written then: `AsleepHasWrittenAll`. Of the audio packets,
  up to 101 are left in the queue where the demultiplexer has finished: `AudioLeft`. The writer has taken no more
  of them than there are buffers and packets of the encoder, `AudioIsBounded`, and no fewer than that or than are
  ahead of the first video packet with data, `LeastAudioTaken`; it can be that few: `LeastAudioRun`.
- The wakeup of a thread that waits for an input buffer can be lost, because the callback reads its flag
  without the mutex (omx.c:171): `WakeupCanBeLost`, `WakeupIsLostIff`. The step system `Pipeline` treats
  the emptying of a buffer and the callback as one action.
- Waiting for a command can end too early if another one with the same Cmd and nParam is outstanding:
  `EarlyReturnIff`; and of two commands sent in a row the first is not awaited at all, although
  encode.c:166 means to: `OverwrittenCommandIsNotAwaited`.

## Assumptions

- A component returns a buffer only after it was submitted, once for each submission, leaves pAppPrivate
  alone, and changes nFilledLen of an input buffer only to 0 and only when it returns the buffer.
- There is at least one input buffer, and each has room for at least one byte. A component does not empty
  an input buffer again while its callback for that buffer is still running.
- The encoder puts some finite list of fragments into buffers, one after the other, and then leaves its
  remaining buffers alone. The list is all that it puts out in the run at hand, which may depend on what it has
  been fed; when it does so is left open, but in `Transcoder` it puts out nothing before the decoder has been
  given something. It raises the end-of-stream event once, and in `Transcoder` only after
  the decode thread has announced the end of the stream, but then it does.
- The decoder returns every buffer in the end. When the event comes that makes the decode thread start the writer,
  and whether it does, is left open; so is whether the writer gets the signal.
- What the encoder delivers respects the reassembly buffer and the header test of the writer, neither of
  which checks its bounds: `NalSpec.FitsAfter`.
- av_read_frame delivers some finite list of frames; av_rescale_q is an arbitrary function;
  av_interleaved_write_frame takes over the packet's data.
- Flag words are sets of named bits; timestamps have 64 bits; lengths and counters are unbounded, which
  the bounds on the queues justify.

## Model

| member | source | states |
|---|---|---|
| IntrusiveList.LinksAreInverse | list.h:57-84 | in a ring, the next of a node's prev and the prev of its next are the node itself, and both stay in the ring |
| IntrusiveList.CycleIsUnique | list.h:239-241 | the address of a list head determines the entries of the list and their order |
| IntrusiveList.InitListHead | list.h:66-68 | the node becomes an empty list |
| IntrusiveList.AddBetween | list.h:76-84 | the new node stands between the two given neighbours and the ring is otherwise unchanged |
| IntrusiveList.Add | list.h:94-97 | the new node becomes the first entry, also of an empty list |
| IntrusiveList.AddTail | list.h:107-110 | the new node becomes the last entry, also of an empty list |
| IntrusiveList.DelBetween | list.h:120-124 | the node between the two neighbours leaves the ring |
| IntrusiveList.Del | list.h:132-137 | the entry leaves the ring and its links are poisoned |
| IntrusiveList.DelInit | list.h:145-149 | the entry leaves the ring and becomes an empty list |
| IntrusiveList.Move | list.h:156-160 | the entry leaves its list and becomes the first of the other one, or of its own, whatever its place; no other entry is lost or reordered |
| IntrusiveList.MoveTail | list.h:167-172 | the same with the last place |
| IntrusiveList.EmptyMeansNoEntries | list.h:178-181 | the pointer test is true exactly of a list without entries |
| IntrusiveList.SpliceBetween | list.h:183-195 | the entries of the one list, in order, come before those of the other, in one ring |
| IntrusiveList.Splice | list.h:202-206 | the same, for empty lists too; the links of the emptied head still lead into the ring |
| IntrusiveList.SpliceInit | list.h:215-222 | the same, and the emptied head is an empty list |
| Memory.Heap.Free | packet_queue.c:61-65 | a live block is freed, and as long as only live blocks are, none is freed or handed over twice |
| Memory.Heap.Give | mux.c:116-124 | the same of a block that is handed over, so that it has one owner |
| PacketQueue.Queue.constructor | packet_queue.c:22-30 | the queue is empty and its counter is zero |
| PacketQueue.FreePacket | packet_queue.c:55-66 | the payload, if there is one and it is asked for, then the packet are freed; nothing for NULL |
| PacketQueue.Queue.AddItem | packet_queue.c:32-53 | the packet is appended, the counter agrees with the list, a signal is given exactly if the queue was empty, and NULL is ignored |
| PacketQueue.Queue.TakeFirst | packet_queue.c:77-80 | the head of a non-empty queue is removed and returned, with poisoned links |
| PacketQueue.Queue.GetNextItem | packet_queue.c:68-85 | whatever other threads add while it waits: it returns the head of old contents and arrivals, it waits only while the queue is empty, and it is still asleep only if nothing arrived |
| PacketQueue.Queue.GetNextItemAsynch | packet_queue.c:87-108 | the head is removed and returned, or NULL from an empty queue |
| PacketQueue.Queue.FreeEntry | packet_queue.c:119-123 | deleting and freeing the first entry frees its payload and packet and leaves a well-formed queue of the others |
| PacketQueue.Queue.FlushRound | list.h:271-273 | one round of the deleting loop never follows the links of a freed node, and its look-ahead is the new first entry |
| PacketQueue.BlocksAreFreed | packet_queue.c:119-123 | freeing packets one after the other frees every packet and every payload, each payload before its packet, and nothing else |
| PacketQueue.Queue.Flush | packet_queue.c:110-129 | the loop ends, and the queue is empty with counter zero; what has been freed are exactly its packets and their payloads, each payload before its packet, and none twice |
| QueueSignals.StarvationIff | packet_queue.c:41-52 | a consumer can sleep beside a non-empty queue exactly if there are two or more of them |
| QueueSignals.TwoConsumersCanStarve | packet_queue.c:43-48 | a run in which one of two consumers does |
| BufferPools.ChainIsUnique | omx.c:316-318 | the first buffer determines the chain along pAppPrivate |
| BufferPools.FirstFree | omx.c:373-375 | the result is the first buffer that is empty, or none if all are full |
| BufferPools.Component.AllocBuffers | omx.c:322-359 | a fresh NULL-terminated chain of the given number of empty buffers replaces the pool of that direction, its flag is set, and the other pool is unchanged |
| BufferPools.Component.TakeOutput | omx.c:408-434 | one pass on the heap does what `Take` says: sleep without the flag, clear the flag on an empty chain, else unlink and return the last buffer |
| BufferPools.Component.FillBufferDone | omx.c:218-237 | the buffer, emptied, is appended to the chain, the flag is set, and a signal is given exactly if it was not |
| BufferPools.Component.TakeInput | omx.c:370-386 | the first empty buffer in chain order is returned and nothing changes, or the flag is cleared |
| BufferPools.Component.GetNextOutputBuffer | omx.c:402-438 | whatever callbacks return while it waits: the buffer is the last of the chain with all returned buffers appended, and it is still asleep only if there is none at all |
| BufferPools.Component.GetNextInputBuffer | omx.c:366-394 | whatever the component empties while it waits: the buffer is the first empty one, and it is still asleep exactly if no buffer was empty and none has come back |
| BufferPools.Component.ReturnAll | omx.c:190-240 | a number of callbacks append their buffers in order |
| BufferPools.Component.EmptyBufferDone | omx.c:159-178 | the returned buffer is empty; the flag is set and a signal given exactly if it was read as not set, however long ago |
| BufferPools.Component.GetFreeBufferCount | omx.c:465-479 | the number of empty buffers in the chain |
| Timestamps.TimestampRoundTrip | omx.c:31-44 | a signed 64-bit timestamp survives the way through the two halves |
| Timestamps.TicksRoundTrip | omx.c:31-44 | so do the halves on the way through 64 bits |
| Timestamps.HalvesAgree | omx.c:31-44 | the receiver joins the halves to a timestamp exactly if the sender split that one |
| Timestamps.HalvesAre | omx.c:31-44 | the high half counts multiples of 2^32 of the two's complement, the low half is the rest |
| Chunking.FillBuffer | encode.c:60-83 | the bytes copied are the next ones, as many as are left or as the buffer takes; ENDOFFRAME exactly if none are left, SYNCFRAME exactly for a key packet, STARTTIME exactly for the first buffer and TIME_UNKNOWN for all others, with the timestamp of the packet |
| Chunking.SendChunk | encode.c:54-87 | one round sends at least one byte and no more than fits, fills the buffer unless the packet ends, and what has been sent stays proper |
| Chunking.SendPacket | encode.c:50-87 | the loop over a packet ends, every chunk fits the buffer it went into, and exactly that packet has been sent in addition |
| Chunking.SendPackets | encode.c:48-91 | for every list of packets and all buffer sizes: cut at ENDOFFRAME, the chunks are the non-empty packets, byte for byte, with the right flags and timestamps on each chunk; a chunk without ENDOFFRAME fills its buffer |
| Chunking.CutIsUnique | encode.c:60-64 | by that, the room in the buffers determines how a packet is cut |
| FrameLaws.NonEmptyAre | encode.c:54 | the packets sent are those with data, all of them and in order |
| Chunking.SendContinues | encode.c:60-83 | one more chunk keeps all that: ENDOFFRAME on exactly the last chunk of a packet, SYNCFRAME on all chunks of a key packet, STARTTIME on the first chunk of all |
| Chunking.DeliveredPayloads | encode.c:60-64 | the bytes of the groups are the payloads of the packets |
| Chunking.RegroupKeepsAll | encode.c:81-83 | cutting at ENDOFFRAME loses and reorders nothing |
| Chunking.GroupsEndAtEndOfFrame | encode.c:81-83 | every group ends with its only ENDOFFRAME |
| Demux.Queues.AwaitRoom | demux.c:92-95 | the wait ends at the first look that finds the queue short enough: it is too long at every look before, whatever the consumers do meanwhile |
| Demux.Queues.ExtractStreams | demux.c:55-126 | whatever is dequeued meanwhile: both queues get exactly the timestamped frames of their stream, one packet for each with all its fields and in order, and never hold more than 101; the flags are set exactly when all is read, as it is if the consumers keep up |
| FrameLaws.VideoPacketsAre | demux.c:71-84 | one packet for each timestamped video frame and in order, with its bytes and flags and its rescaled timestamp |
| FrameLaws.AudioPacketsAre | demux.c:99-109 | one packet for each timestamped audio frame and in order, with its bytes, its PTS, DTS and duration |
| Demux.PacketsConcat | demux.c:69-119 | reading in parts yields what reading at once yields |
| Demux.EachFrameGoesToOnePlace | demux.c:71-116 | a frame goes into exactly one queue, with all its fields, if it has a timestamp and a known stream, and nowhere otherwise |
| PipelineSafety.DemuxKeepsDemuxInv | demux.c:69-122 | no step of the demultiplexer loses or duplicates a packet or overfills a queue |
| PipelineSafety.DequeueKeepsInv | packet_queue.c:77-80 | neither does a dequeue, and a packet begins with none of its bytes sent |
| PipelineSafety.ScanKeepsInv | omx.c:370-386 | a scan of the input pool yields an empty buffer that is not at the decoder, or leaves all buffers full and the flag cleared |
| PipelineSafety.SubmitKeepsDecodeInv | encode.c:60-86 | a submission sends the next bytes of the current packet and nothing else |
| PipelineSafety.SubmitKeepsPoolInv | encode.c:62-86 | after a submission, too, every buffer at the decoder holds exactly what was submitted in it, and every other one is empty |
| PipelineSafety.SubmitEndKeepsInv | encode.c:195-200 | the empty last buffer is submitted once, after all data |
| PipelineSafety.ReachableInv | encode.c:48-200 | all invariants hold in every state that any interleaving reaches |
| PipelineTheorems.DeliveryIsPrefix | encode.c:48-91 | at every moment of every run, the submitted buffers cut at ENDOFFRAME are a prefix of the non-empty timestamped video packets, perhaps with a part of the next one |
| PipelineTheorems.PrefixOfPayloads | encode.c:60-64 | the same in bytes |
| PipelineTheorems.ExitIsCompleteIff | encode.c:48 | an exit from the loop has delivered everything exactly if no packet with data is left in the queue |
| PipelineTheorems.ExitLeavesPacketIff | encode.c:48 | the second read of the guard leaves the loop with something undelivered exactly if the end is announced and the queue, found empty by the first read, holds a packet with data |
| PipelineTheorems.TimestampsArrive | encode.c:67 | at every moment, each submitted buffer with data gives back the timestamp of the packet that its bytes are from |
| PipelineTheorems.AtomicExitIsComplete | encode.c:48-200 | if the guard is read at once, every exit has, and one empty end-of-stream buffer follows |
| PipelineTheorems.FlagsOverTheRun | encode.c:60-83 | STARTTIME is on the first buffer with data only, EOS on the last buffer of a finished thread only, only that one is empty, has TIME_UNKNOWN besides and no timestamp; every buffer fits, and is full unless it ends its packet |
| PipelineTheorems.AudioIsPrefix | demux.c:99-115 | the audio packets the writer has taken are a prefix of the timestamped ones of the input; with the queue they are all, once the demultiplexer has finished |
| PipelineTheorems.PacketsAreTheFrames | demux.c:71-116 | in every state, the packets dequeued, queued and in hand are the timestamped frames read so far, one by one and with all their fields |
| PipelineTheorems.QueuesStayShort | demux.c:92-95 | the video and the audio queue never hold more than 101 packets |
| PipelineTheorems.QueueCanBeThatLong | demux.c:92-95 | every input with at least 101 timestamped video packets, among whatever else, has a run in which the queue gets that long |
| PipelineTheorems.NoLostWakeup | packet_queue.c:41-52 | the decode thread never sleeps beside a non-empty queue, hence never while the demultiplexer polls a long video queue; nor beside an empty buffer, if the emptying and the callback are one action |
| PipelineTheorems.WakesForABuffer | omx.c:385-391 | a thread woken up while it waits for an input buffer scans the pool again exactly if a buffer is empty, and else goes back to sleep |
| PipelineTheorems.InputBuffersAreExclusive | omx.c:366-390 | the decode thread never holds a buffer that is at the decoder, and what is there is as submitted |
| PipelineTheorems.StepsLeaveInFlightAlone | encode.c:57-66 | no step overwrites a buffer that is at the decoder |
| PipelineTheorems.FreeCountIsExact | encode.c:56 | the reported count is the number of buffers not at the decoder |
| PipelineTheorems.CountFreeIsCardinality | omx.c:465-479 | counting empty buffers along the chain gives the size of their set |
| PipelineProgress.StopsOnlyAtEnd | encode.c:48-50 | the only states where the demultiplexer, the decode thread and the decoder can do no more, whatever the writer does: all is returned, the decode thread is done or asleep on the empty queue, and the demultiplexer is done or polls an audio queue that is too long |
| PipelineProgress.AtTheEnd | encode.c:48-200 | there, everything is delivered exactly if no packet with data is still to come, and so if the demultiplexer is done and the guard atomic; a buffer with EOS has been submitted exactly if the thread is done, and then the demultiplexer is |
| PipelineProgress.RunsAreBounded | encode.c:48-91 | every run is finite: its length is bounded by the input and the number of wakeups without a signal |
| PipelineProgress.StepWorks | encode.c:54-87 | each step that is not such a wakeup decreases the measure |
| PipelineProgress.ToComeIsTheRest | demux.c:69-98 | what was dequeued, followed by what is still to come, is the whole list of timestamped video packets |
| PipelineProgress.DemuxKeepsToCome | demux.c:69-98 | no step of the demultiplexer changes the list of packets still to come |
| PipelineProgress.DoomedForever | packet_queue.c:73-75 | a decode thread inside the blocking get with no packet to come never leaves it, in any run |
| PipelineProgress.DoomedAtGuard | encode.c:48 | only the loop guard gets it there, when no packet is left to come and the end of the queue is not set |
| PipelineProgress.GuardDoomsIff | encode.c:48 | the second read of the guard, or the only one of an atomic guard, gets it there exactly then |
| PipelineProgress.EndsAsleepIff | encode.c:48-50 | there, the thread is unfinished exactly if that has happened or the demultiplexer polls the audio queue |
| PipelineRaces.PacketLeftBehind | encode.c:48-49 | a run in which the loop ends and the end of the stream is announced with a packet left in the queue |
| PipelineRaces.AsleepForGood | packet_queue.c:74-75 | a run in which the decode thread sleeps for ever, even with an atomic guard |
| InputPoolRace.WakeupIsLostIff | omx.c:171-176 | in its real lock steps, a sleeper misses an empty buffer exactly if the callback of a buffer emptied since the scan has read the flag before it was cleared |
| InputPoolRace.WakeupCanBeLost | omx.c:171-176 | a run in which that happens and nothing can wake the sleeper any more |
| NalSpec.StepMeets | mux.c:212-290 | one call of write_video_frame keeps the writer's state and output equal to the specification |
| NalSpec.WriterMeetsSpec | mux.c:212-290 | for every list of fragments: the non-empty writes are the grouped NAL units filtered for those that are no parameter sets and come after both; the copies kept are the latest ones |
| NalLaws.GroupsAre | mux.c:226-256 | the NAL units are the runs of fragments up to each ENDOFNAL, with the timestamp and key flag of the last one, and the open one is the rest |
| NalLaws.FilteredAre | mux.c:268-287 | kept are exactly the units, in order and with all fields, that are no parameter set and have one of each kind before them |
| NalLaws.KindOfIff | mux.c:157-175 | a unit is an SPS or a PPS exactly if it has a four-byte start code and a header byte with type 7 or 8, whatever its three high bits |
| NalLaws.EveryWrite | mux.c:276-287 | each call writes nothing while a parameter set is missing, an empty packet for a fragment that ends no unit, and otherwise the unit, unless it is a parameter set |
| NalLaws.ExtraDataAre | mux.c:193-210 | for every list of fragments, the extra data are empty while a parameter set is missing, and then the last SPS followed by the last PPS |
| NalLaws.ReadableIff | mux.c:157-162 | the header test stays inside a unit exactly if each byte it looks at exists |
| NalSpec.FilteredAreNonEmpty | mux.c:276-287 | the filter never yields an empty packet, so empty writes are only those for partial units |
| NalSpec.FragmentationIsInvisible | mux.c:226-256 | lists of fragments with the same units give the same output and state |
| NalSpec.CuttingIsInvisible | mux.c:226-235 | cutting any fragment in two, anywhere, changes nothing |
| NalSpec.GroupKeepsAll | mux.c:233-246 | reassembly keeps every byte in order |
| NalSpec.AcceptableNalsAreReadable | mux.c:157-162 | if every fragment fits after those before it, the header test of every unit stays inside it |
| NalLaws.NoParameterSetEver | mux.c:162-186 | nothing that was ever written has a start code and type 7 or 8 |
| NalSpec.WritesAreGated | mux.c:219 | in every run, a write happens only while both parameter sets are known, and then the extra data are the latest SPS followed by the latest PPS |
| NalSpec.StaysReady | mux.c:164-184 | once known they stay known |
| NalSpec.LatestIffKnown | mux.c:164-184 | a copy of a parameter set is kept exactly if one has been seen |
| Muxer.MuxState.constructor | mux.c:298 | the initial state knows and holds nothing |
| Muxer.MuxState.PacketType | mux.c:157-175 | the byte tests find exactly the units with a start code and type 7 or 8, without reading outside the unit |
| Muxer.MuxState.ExtractParameterSet | mux.c:152-191 | a parameter set replaces its old copy, which is freed, and holds back the write; anything else changes nothing |
| Muxer.MuxState.InitStreamExtraData | mux.c:193-210 | the old extra data are freed; the new ones are NULL while a copy of a parameter set is missing, and otherwise the SPS followed by the PPS |
| Muxer.MuxState.BufferFragment | mux.c:226-235 | the fragment is appended to the open unit and its payload freed |
| Muxer.MuxState.CompleteNal | mux.c:240-256 | the packet's data are the whole unit, and the block they are in has left the writer |
| Muxer.MuxState.WriteAndRelease | mux.c:276-289 | the data are handed over exactly if they are written, and the packet is freed |
| Muxer.MuxState.WriteVideoFrame | mux.c:212-290 | the pointer code does what `Step` says, and frees and hands over exactly the listed live blocks |
| Muxer.WritePacket | mux.c:212-290 | it leaves all other packets alive and unchanged |
| Muxer.WriteAll | mux.c:322-340 | over any list of dequeued packets and misses, what is written, empty packets aside, is the list of wanted NAL units, and no block is freed twice, handed over twice, or both |
| EncoderOutput.TakeKeepsPoolInv | omx.c:408-434 | a take moves one buffer and keeps the order of the chain |
| EncoderOutput.ReturnKeepsInv | omx.c:220-237 | so does a return |
| EncoderOutput.DequeueKeepsQueueInv | mux.c:222-224 | a missed dequeue can happen only when the queue is empty, so the bound of the queue is restored |
| EncoderOutput.ReachableInv | mux.c:322-340 | all invariants hold in every state that any interleaving reaches |
| EncoderTheorems.BufferIsInOnePlace | omx.c:190-240 | each buffer is in exactly one of pool, writer, encoder and callback, and nothing else is anywhere |
| EncoderTheorems.FreeChainIsDistinct | omx.c:403-438 | the chain of free buffers has no duplicates |
| EncoderTheorems.TakesMostRecent | omx.c:414-429 | a take yields the free buffer that was returned last |
| EncoderTheorems.NoLostWakeup | omx.c:407-436 | the flag is false only over an empty chain, and the writer sleeps only while every buffer is with the encoder |
| EncoderTheorems.EncodedQueueIsBounded | mux.c:322-331 | queued packets and buffers at the encoder are at most N at the top of the loop and N+1 anywhere |
| EncoderTheorems.BoundIsReached | mux.c:326-331 | for every N and every output of more than N packets, a run in which the queue alone reaches N+1 |
| EncoderTheorems.OutputIsPrefix | mux.c:212-290 | at every moment the data written are the wanted NAL units of what was dequeued, a prefix of those of all that the encoder ever puts out |
| EncoderTheorems.DequeuedFits | mux.c:233-245 | every dequeued fragment meets the precondition of write_video_frame |
| EncoderProgress.StopsOnlyAtEnd | mux.c:322-331 | the only states where the writer and the output buffers can move no more, whether or not the flags will be set: the writer has left its loop, or sleeps while the encoder has all buffers |
| EncoderProgress.DoomedForever | omx.c:410-411 | a writer inside omx_get_next_output_buffer with no buffer to come never leaves it, in any run |
| EncoderProgress.DoomedAtLoopTest | mux.c:322 | only the loop test gets it there: one of its flags is read as not set when the encoder has all buffers and nothing to put into them |
| EncoderProgress.LoopTestDoomsIff | mux.c:322 | an evaluation of the loop test gets it there exactly then |
| EncoderProgress.EndsAsleepIff | mux.c:322-331 | there, the writer is inside its loop exactly if that has happened |
| EncoderProgress.DecidedWhenFlagsAreSet | mux.c:322 | every run that goes on from where both flags are set to a stop ends with the writer out of its loop, unless it already waited for a buffer that will not come |
| EncoderProgress.AsleepHasWrittenAll | mux.c:322-331 | where the writer sleeps for good, the queue is empty and the data written are the wanted NAL units of all that the encoder put out |
| EncoderProgress.AsleepForGood | omx.c:410-411 | for every output of the encoder and every number of buffers, a run in which the writer sleeps for ever with the exit condition true |
| EncoderProgress.RunsAreBounded | mux.c:322-340 | every run is finite: its length is bounded by the encoder's output, the number of buffers and the number of wakeups without a signal |
| EncoderProgress.StepWorks | mux.c:322-340 | each step that is not such a wakeup decreases the measure |
| Transcoder.ReachableInv | mux.c:317-331 | every interleaving of all parties is one of each of the two step systems, with the flag they share; the writer does nothing before its start, and takes at most one audio packet for each buffer it submits |
| Transcoder.StepKeepsInv | mux.c:133-135 | the rounds without an audio packet are exactly those that found the audio queue empty |
| Transcoder.AudioIsBounded | mux.c:327-329 | the writer never takes more audio packets than there are output buffers and packets of the encoder |
| Transcoder.AudioLeft | demux.c:111-113 | where the demultiplexer has finished, at most 101 audio packets are not taken; where it polls the audio queue, more than 101 are not |
| TranscoderStart.NoDataIff | encode.c:54 | a part of the input has no video packet with data exactly if it ends before the first one |
| TranscoderStart.GotMeansEnqueued | demux.c:69-116 | when the decode thread has dequeued a packet with data, all timestamped audio packets ahead of the first one are enqueued |
| TranscoderStart.StartedMeansAudio | encode.c:182 | the writer is started only if these fit into the audio queue, and all of them are enqueued or taken by then |
| TranscoderStart.LeastTaken | mux.c:327-329 | the writer takes an audio packet in every round until it has taken at least all those |
| TranscoderProgress.StopsOnlyAtEnd | mux.c:317-331 | the only states of the whole where nothing more can happen are those where the front has come to rest, the writer and the encoder have, too, or were never started, and an announced end of the stream has gone through |
| TranscoderProgress.DeadlockedForever | demux.c:111-113 | demultiplexer, decode thread and writer, once they wait for each other, do so for ever, in every run, and an unstarted writer is never started |
| TranscoderProgress.LastToWait | demux.c:111-113 | the only ways in: the demultiplexer reads an audio packet, the guard of the decode thread or the loop test of the writer finds a flag not set, while the other two wait |
| TranscoderProgress.EndsInDeadlockIff | demux.c:111-113 | a run that has stopped is in the deadlock exactly if the demultiplexer has not finished, and exactly if more audio packets are not taken than fit into the queue |
| TranscoderProgress.WhoIsAsleep | encode.c:48-50 | a run that has stopped leaves the decode thread unfinished exactly if its guard came too early or in the deadlock, the writer exactly if it was never started or its loop test came too early, and never the former without the latter |
| TranscoderProgress.RunsAreBounded | mux.c:322-340 | every run of the whole is finite |
| TranscoderRuns.CanDeadlockIff | demux.c:111-113 | the deadlock is reachable, if only with a writer that is never started, exactly if the input has more than 101 timestamped audio packets |
| TranscoderRuns.StartedCanDeadlockIff | demux.c:111-113 | it is reachable with a started writer exactly if at most 101 of them are ahead of the first video packet with data, and there are more than 101 beyond those the writer takes at least |
| TranscoderRuns.LeastAudioTaken | mux.c:327-329 | a started writer that waits for good has taken at least the smaller of the number of its rounds and the number of audio packets ahead |
| TranscoderRuns.LeastAudioRun | mux.c:327-329 | for every input where the writer can be started, a run in which it has taken exactly that many |
| TranscoderRuns.TooMuchAudio | mux.c:327-329 | with more than 101 ahead, or more in all than output buffers, packets of the encoder and 101 together, in no interleaving does any thread get to its end |
| TranscoderRuns.NeverFinishesIff | mux.c:327-329 | the demultiplexer finishes in no interleaving exactly if that is so |
| Handshake.Component.Wait1 | omx.c:74-84 | whatever completes while it waits: it returns at the first wakeup that finds the recorded command completed, at once if none is recorded, and is still asleep exactly if there is no such completion |
| Handshake.Component.CompleteAll | omx.c:113-122 | whatever completions the handler runs for, the slot is cleared if the recorded command is among them, and unchanged otherwise |
| Handshake.Component.SendCommandAndWait | omx.c:86-91 | it returns exactly if the command is completed, before the wait or during it, without sleeping in the first case |
| Handshake.Component.SendTwoAndWait | encode.c:157-166 | both waits are over exactly if the second command is completed, whatever becomes of the first |
| Handshake.ReachableInv | omx.c:54-122 | in every interleaving the slot is cleared or holds the last recorded command, and is cleared once that is completed |
| Handshake.NoCompletionIsLost | omx.c:75-84 | a thread sleeps only while the component owes it the last recorded command, and does not sleep if that has been completed before |
| Handshake.GuardHolds | omx.c:54-122 | without an outstanding twin, the slot keeps the command until it is completed |
| Handshake.EarlyReturnIff | omx.c:86-91 | a wait can end before its command is completed exactly if one with the same Cmd and nParam was outstanding when it was sent |
| Handshake.OverwrittenCommandIsNotAwaited | encode.c:157-166 | after two commands in a row, both waits can be over while the first is outstanding |

## Left out

- libav: opening files, finding streams, codecs, headers and trailers, writing the file.
- The rescaling of audio timestamps, which uses a field the context does not have.
- OMX tunnels, parameters and port-settings events; of the commands there only the handshake is modelled.
- The start-up signal of the encoder, which is given without its mutex: a writer may start after is_running is set, or never.
- Code that is compiled out, video.c, the teardown functions, and the start and join of the threads in main.c.
- The list macros other than the deleting iteration.
- The time the demultiplexer sleeps between two looks at the length of a queue.
- Muxer.MuxState.WriteVideoFrame: does not say that every block is freed in the end, because the code drops the last fragment of a reassembled unit, parameter sets, and units that come too early without freeing them; and requires what the encoder must guarantee, because the code checks no bounds.
- EncoderTheorems.OutputIsPrefix: claims a prefix only, because the writer does not drain its queues when it ends.
- PipelineProgress.AtTheEnd: does not claim that the end of the stream is announced, because the decode thread can be asleep for good.
- EncoderProgress.EndsAsleepIff: does not claim that the output is finished, because the writer can be asleep for good.
- TranscoderRuns.StartedCanDeadlockIff: does not relate when the encoder puts out a packet to what it has been fed, beyond the first buffer at the decoder, nor the start to the events before it.
- TranscoderRuns.LeastAudioRun: the same freedom.
- TranscoderRuns.NeverFinishesIff: the same freedom, in its half about inputs for which the demultiplexer can finish.
- PipelineTheorems.NoLostWakeup: takes the emptying of an input buffer and its callback as one action; InputPoolRace says what holds without that.
- PacketQueue.Packet: its fields are constants, because both producers write them once, before they enqueue the packet.
- The two poison addresses of list.h are both null.
