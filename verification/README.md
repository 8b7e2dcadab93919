# Verified model of the caption pipeline

obs-captions shows live captions in OBS. A C++ plugin captures audio and talks over pipes to a Python sidecar process,
which transcribes it. This project models the path from audio to caption and the conversation between the two
processes, and proves what each part promises, over whole runs and under every interleaving of the threads involved.

The transcriber, the voice activity model, the outcome of spawning a process, timeouts and what the session probes see
are arbitrary at every step: nothing is assumed about them beyond what a theorem states.

## Layout

| file | what it models |
|---|---|
| `LocalWhisper.dfy`, `Tokens.dfy`, `CaptionRuns.dfy` | incremental transcription over a rolling window: the backend class, its tokens, and whole runs of it |
| `CaptionTexts.dfy` | the texts given to the callbacks, against the tokens they stand for |
| `CommittedAgain.dfy`, `ClosingHypothesis.dfy` | when a token already sent as final is sent again, and when one is lost without a trim |
| `SeqlockRing.dfy`, `RingSlots.dfy` | the lossy audio ring when push and pop do not overlap, as a class refining a bounded queue |
| `SeqlockInterleaved.dfy` | the same ring with push and pop interleaved load by load, store by store and word by word |
| `SeqlockAlone.dfy` | the interleaved ring while only one thread is inside: it is the class, frame for frame |
| `OutQueueModel.dfy`, `OutQueue.dfy`, `OutQueueRuns.dfy` | the plugin's queue of control messages: state machine, the classes proved against it, whole runs |
| `ControlDispatcher.dfy`, `DispatchRuns.dfy` | the sidecar's dispatcher: its locked sections as a class, then its task, the handlers and the reader thread interleaved |
| `HandlerReplies.dfy`, `DispatchDrain.dfy` | what each reply tells of what was found, and that the task answers everything |
| `ControlProtocol.dfy`, `ProtocolReasons.dfy`, `ReplyOrder.dfy` | both ends composed over two first-in first-out channels, what a waiter is told, and the way of the replies |
| `Options.dfy`, `Bytes.dfy`, `Crc32.dfy`, `CrcRemainder.dfy`, `Framing.dfy`, `Messages.dfy`, `CanonicalFrames.dfy`, `NativePayloads.dfy` | the wire format, in both implementations |
| `Streaming.dfy`, `StreamDecoder.dfy`, `PluginReader.dfy` | the decoders of a stream that arrives in chunks, on both sides |
| `BridgeLifecycle.dfy`, `Quiesce.dfy` | one start-to-stop lifetime of the bridge, and the producers of audio |
| `BridgeEndings.dfy`, `BridgeStops.dfy` | which terminal state a lifetime ends in, what the bridge can come to, and that a stop is bounded |
| `EpochGate.dfy` | which captions the plugin shows |
| `Vad.dfy` | cutting speech into utterances |
| `AudioPath.dfy`, `AudioDelivery.dfy` | from an audio callback to an AUDIO payload, and through ring and pipe to the sidecar |
| `Arithmetic.dfy`, `Sequences.dfy` | facts about remainders and about sequences |

`dafny verify dfyconfig.toml` checks all of it.

## How it is modelled

* Objects whose methods update fields are classes whose methods are proved equal to a function of the old state; the
  properties of runs are lemmas about those functions. A lock held throughout a method makes the method one step.
* Concurrent code (the interleaved ring, the dispatcher, the bridge, the quiesce counter) is a state machine whose steps
  are single atomic operations in a sequentially consistent order, or stretches under a lock or between two awaits.
  Fields such as `pushes`, `pops`, `placed`, `sent`, `arrivals`, `spawned`, `detached` and `waiters` only record the run.
* Integer widths are written out where they can wrap: the 32-bit slot version, the 32-bit epoch, the 32-bit sums
  in the guards of the parsers, the 64-bit audio sequence number and the 64-bit product in the timestamp. Sizes, indices
  and ring positions are unbounded.
* Text is the sequence of its UTF-8 bytes on the wire, and a sequence of characters in the caption core.

## Where the code differs from what it says

* `_rebase_after_trim` says that no committed token is emitted again even for an adversarial hypothesis
  (src/obs_captions/stt/local_whisper.py:198-204). `CommittedAgain.CommittedTwice` is a run in which one is. Comparing
  tokens by value, `CommittedAgain.AgainAfterRebaseIff` and `CommittedAgain.SomeCallAgainIff` say exactly when the claim
  fails. `CommittedAgain.SafeAfterCallIff`, `CommittedAgain.NeverAgainIff` and `CommittedAgain.UtteranceDistinctIff`
  decide more than the claim, that all finals are different: a word really said twice breaks that, too.
* Words can be lost without a trim: the confirmed boundary is a count, so a hypothesis that differs from what was sent is
  committed from that count on only (src/obs_captions/stt/local_whisper.py:136-139). `ClosingHypothesis.WordsLost` is such
  a run, and `ClosingHypothesis.ClosingIsFinalIff` says exactly when the finals are the closing hypothesis.
* The length guards of `parse_status_payload` and `parse_caption_payload` add in 32 bits
  (native-plugin/src/ipc-bridge-internal.cpp:307, 326). A declared length close to 2^32 wraps the sum, the guard passes
  and the text is read past the payload, where Python raises: `NativePayloads.StatusReadPastEnd` is such a payload, and
  `NativePayloads.StatusPastEndIff` and `NativePayloads.CaptionPastEndIff` say exactly which are.
* `parse_ready_payload` does not skip the language text before it reads the partial-support flag
  (native-plugin/src/ipc-bridge-internal.cpp:286-294). `NativePayloads.PartialFlagAgreesIff` says exactly when the flag
  read is the one sent. The plugin ignores the flag, so nothing else depends on it.
* `detokenize_text` does not invert `tokenize_text` on every text; `Tokens.DetokenizeRoundTripIff` says when it does.
* The duplicate filter of the epoch gate can show a final caption twice (`EpochGate.ShownTwice`), when an equal sequence
  number and text came with another timestamp before; `EpochGate.CopyDroppedIff` says exactly when a copy is dropped.
* A pop that is overrun does not skip the overwritten frame only, as the ring's drop-oldest rule has it
  (docs/OBS_PLUGIN_IPC.md:164-165): when a push reuses the slot before pop's first load of its version, pop returns the
  newest frame, all frames still held then count as old (native-plugin/src/ring.hpp:124-128), and the next pop drops them
  all. `SeqlockAlone.OverrunLosesRing` gives that interleaving for every full ring, and `SeqlockAlone.TakesOldestIff`
  says exactly when a pop takes the oldest frame.
* A lifetime of the bridge can end with neither terminal state and with its ring unreleased, although the design promises
  both on destroy (docs/OBS_PLUGIN_IPC.md:208, 249): `BridgeLifecycle.DestroyDuringBackoff` is such a run, and
  `BridgeLifecycle.EndsWithoutStateIff` says exactly when, by where the supervisor is when `stop` stores `no_respawn_`.

## Model

| member | source | states |
|---|---|---|
| `LocalWhisper.LocalAgreement` | src/obs_captions/stt/base.py:57-74 | the agreed prefix for n = 2, everything for n <= 1, nothing for n > 2 |
| `LocalWhisper.CommonPrefixIsLongest` | src/obs_captions/stt/base.py:69-74 | the agreed tokens are a prefix of both hypotheses and no longer one is |
| `LocalWhisper.LongestIsCommonPrefix` | src/obs_captions/stt/base.py:69-74 | a common prefix that cannot be extended is the agreed prefix |
| `LocalWhisper.FindRetainedOverlap` | src/obs_captions/stt/local_whisper.py:304-327 | the two search loops return the specified overlap |
| `LocalWhisper.RetainedOverlapSpec` | src/obs_captions/stt/local_whisper.py:304-327 | the overlap is the longest suffix of the old hypothesis that reappears in the new one, at its rightmost place, or (0, 0); nothing else satisfies this |
| `LocalWhisper.LocalWhisperBackend.StartStream` | src/obs_captions/stt/local_whisper.py:63-69 | marks the stream started and changes nothing else |
| `LocalWhisper.LocalWhisperBackend.FeedAudio` | src/obs_captions/stt/local_whisper.py:71-84 | fails without a started stream, ignores empty audio, otherwise appends, trims to the cap, flags a rebase and transcribes when due |
| `LocalWhisper.LocalWhisperBackend.Flush` | src/obs_captions/stt/local_whisper.py:86-102 | transcribes once more, sends the uncommitted rest as one final, whose text FlushedTexts fixes, and resets the segment |
| `LocalWhisper.LocalWhisperBackend.StopStream` | src/obs_captions/stt/local_whisper.py:104-109 | flushes what is buffered and stops |
| `LocalWhisper.LocalWhisperBackend.TrimBufferToCap` | src/obs_captions/stt/local_whisper.py:111-124 | keeps the newest bytes; flags a rebase exactly when it dropped some |
| `LocalWhisper.LocalWhisperBackend.EmitPartialFromBuffer` | src/obs_captions/stt/local_whisper.py:126-150 | the step on a transcription: empty window, rebase or agreement, with its exact callbacks |
| `LocalWhisper.LocalWhisperBackend.CommitAgreed` | src/obs_captions/stt/local_whisper.py:136-150 | commits the newly agreed tokens, once each and in order, and shows the tail |
| `LocalWhisper.LocalWhisperBackend.HandleEmptyWindow` | src/obs_captions/stt/local_whisper.py:152-188 | force-commits the uncommitted tokens only after a trim, then forgets the hypothesis |
| `LocalWhisper.LocalWhisperBackend.RebaseAfterTrim` | src/obs_captions/stt/local_whisper.py:190-252 | re-anchors the confirmed boundary and force-commits what scrolled off |
| `LocalWhisper.LocalWhisperBackend.ResetSegment` | src/obs_captions/stt/local_whisper.py:295-301 | clears the segment but not the confirmed text |
| `LocalWhisper.SentAppend` | src/obs_captions/stt/local_whisper.py:136-150 | the callbacks of two steps after each other are those of the steps together |
| `CaptionRuns.RetainedBlock` | src/obs_captions/stt/local_whisper.py:218-225 | the retained block is the end of the old hypothesis and stands at the offset in the new one |
| `CaptionRuns.BoundaryKept` | src/obs_captions/stt/local_whisper.py:220-225 | a token of the retained block is committed after the rebase if and only if it was before |
| `CaptionRuns.RebaseAccounting` | src/obs_captions/stt/local_whisper.py:205-240 | for arbitrary hypotheses: the uncommitted tokens are those force-committed by the rebase followed by the new hypothesis from the new boundary to the end of the retained block |
| `CaptionRuns.AgreementCommits` | src/obs_captions/stt/local_whisper.py:136-150 | without a trim exactly the tokens beyond the boundary on which two consecutive hypotheses agree up to their first difference are committed |
| `CaptionRuns.TranscribedEmits` | src/obs_captions/stt/local_whisper.py:126-252 | what a transcription commits and leaves depends on tokens only, not on the text they came from |
| `CaptionRuns.OverlapOfWindows` | src/obs_captions/stt/local_whisper.py:304-327 | in a stream without repetitions the retained overlap is where the two windows overlap |
| `CaptionRuns.EffectTracks` | src/obs_captions/stt/local_whisper.py:126-252 | one transcription of the next window skips nothing and commits nothing twice |
| `CaptionRuns.FeedsTrack` | src/obs_captions/stt/local_whisper.py:71-150 | neither does any sequence of feed_audio calls |
| `CaptionRuns.ExactlyOnce` | src/obs_captions/stt/local_whisper.py:86-252 | whole-run theorem: over windows of one stream of pairwise distinct tokens that move forward, closed by a flush, the finals are the stream up to the last window's end, each token once and in order |
| `CaptionTexts.TranscribedTexts` | src/obs_captions/stt/local_whisper.py:126-252 | what a transcription gives to the callbacks: each final is one token as it stands, and one partial after them renders the open tail; no partial when the tail is empty |
| `CaptionTexts.FlushedTexts` | src/obs_captions/stt/local_whisper.py:86-102 | the texts of a flush: the tokens its transcription commits, then the open rest of its hypothesis in one text, or none when nothing is open |
| `CaptionTexts.SentTexts` | src/obs_captions/stt/local_whisper.py:86-150 | the log of on_final holds the texts of the emissions, in order |
| `CaptionTexts.RendersOnce` | src/obs_captions/stt/local_whisper.py:340-343 | a list of tokens is rendered by one text only |
| `CaptionTexts.UtteranceTexts` | src/obs_captions/stt/local_whisper.py:71-252 | for every utterance, with or without trims: its final texts and its final tokens joined are the same, and when the closing text has a space the words of the texts are those tokens |
| `CaptionTexts.ExactlyOnceInText` | src/obs_captions/stt/local_whisper.py:71-252 | ExactlyOnce on the texts themselves: the words of what on_final was given are the stream from its start to the last window's end, each once and in order; written without spaces, the texts together are that stream |
| `CaptionTexts.EmptyWithdraws` | src/obs_captions/stt/local_whisper.py:152-188 | an empty transcription without a trim sends nothing, and the flush that hears it sends nothing |
| `CaptionTexts.ConfirmedTextFollows` | src/obs_captions/stt/local_whisper.py:71-301 | at every point of every run confirmed_text renders the committed tokens, and the flush leaves the last one standing |
| `CaptionTexts.BufferIsNewest` | src/obs_captions/stt/local_whisper.py:71-124 | after any calls the buffer holds exactly the newest bytes of all that was fed, up to the cap |
| `CommittedAgain.NextNeverAgainIff` | src/obs_captions/stt/local_whisper.py:136-252 | whatever the transcriber says next, no token is sent as final twice: if and only if the tokens sent and those still open are all different |
| `CommittedAgain.SafeAfterCallIff` | src/obs_captions/stt/local_whisper.py:126-252 | a call keeps that property if and only if its hypothesis adds no token that was sent, is open or occurs twice; known before the call from the remembered hypothesis, the boundary and the retained overlap |
| `CommittedAgain.NeverAgainIff` | src/obs_captions/stt/local_whisper.py:71-252 | over any sequence of feed_audio calls: at no point can a token be sent as final twice, whatever comes next, if and only if each hypothesis was such |
| `CommittedAgain.FlushDistinctIff` | src/obs_captions/stt/local_whisper.py:86-102 | the finals up to and including a flush are distinct if and only if its hypothesis is such |
| `CommittedAgain.UtteranceDistinctIff` | src/obs_captions/stt/local_whisper.py:71-102 | the same for a whole utterance from its start, when each hypothesis before the flush was such |
| `CommittedAgain.AgainAfterRebaseIff` | src/obs_captions/stt/local_whisper.py:198-252 | for every next hypothesis: the call after a rebase sends a token again if and only if one stands between the new boundary and the first difference of the two hypotheses |
| `CommittedAgain.SomeCallAgainIff` | src/obs_captions/stt/local_whisper.py:198-252 | some next hypothesis makes the call after a rebase send a token again if and only if one stands anywhere behind the new boundary |
| `CommittedAgain.CommittedTwice` | src/obs_captions/stt/local_whisper.py:198-204 | for any words a, b and x with b other than a and x, any audio and any cap that holds two of the calls, from a fresh utterance: a run of feed_audio and flush in which a is sent to on_final a second time |
| `CommittedAgain.FlushClaims` | src/obs_captions/stt/local_whisper.py:86-102 | the finals up to and including a flush are those before it, the open tokens kept and what its hypothesis adds |
| `ClosingHypothesis.FlushSendsRest` | src/obs_captions/stt/local_whisper.py:136-139 | without a trim the flush sends its hypothesis from the boundary on; the tokens before the boundary are never final |
| `ClosingHypothesis.ClosingIsFinalIff` | src/obs_captions/stt/local_whisper.py:71-150 | the finals of an utterance that was never trimmed are its closing hypothesis if and only if those sent before the flush are that hypothesis up to the boundary |
| `ClosingHypothesis.WordsLost` | src/obs_captions/stt/local_whisper.py:136-139 | for any words: two committed, three others at the flush, of which only the third becomes final |
| `Tokens.DetokenizeRoundTripIff` | src/obs_captions/stt/local_whisper.py:330-343 | detokenizing and tokenizing again returns the same tokens if and only if the text has a space character, at most one word, or only one-character tokens |
| `Tokens.UnspacedWordsFallApart` | src/obs_captions/stt/local_whisper.py:330-343 | two words with other white space between them fall apart into characters |
| `Tokens.TabbedWordsFallApart` | src/obs_captions/stt/local_whisper.py:330-343 | an instance: a tab between two words |
| `Tokens.TokenizeSpaced` | src/obs_captions/stt/local_whisper.py:330-337 | words joined with spaces tokenize to those words |
| `Tokens.SplitJoined` | src/obs_captions/stt/local_whisper.py:334-336 | splitting inverts joining words with spaces |
| `Tokens.StripFinds` | src/obs_captions/stt/local_whisper.py:330-337 | strip removes exactly the white space at both ends |
| `Tokens.SplitAtSpace` | src/obs_captions/stt/local_whisper.py:334-336 | a white-space character separates: the words of a text are those before it and then those behind it |
| `SeqlockRing.SeqlockRing.Create` | native-plugin/src/ring.hpp:54-60 | a zero capacity is refused |
| `SeqlockRing.SeqlockRing.constructor` | native-plugin/src/ring.hpp:54-60 | an empty ring |
| `SeqlockRing.SeqlockRing.Push` | native-plugin/src/ring.hpp:62-84 | the ring is a bounded queue that evicts its oldest element; dropped_oldest holds exactly on eviction, which is counted |
| `SeqlockRing.SeqlockRing.Pop` | native-plugin/src/ring.hpp:86-136 | returns the first consistent frame newer than the last one returned, each frame skipped counted; with increasing numbers and right markers that is the front of the queue, nothing is skipped, and it fails exactly on an empty queue; terminates |
| `SeqlockRing.SeqlockRing.Attempt` | native-plugin/src/ring.hpp:88-135 | one turn of the loop: popped, dropped and held frames add up before and after |
| `SeqlockRing.SeqlockRing.Turned` | native-plugin/src/ring.hpp:88-135 | a turn that returns nothing leaves what the whole pop will return |
| `SeqlockRing.SeqlockRing.CatchUp` | native-plugin/src/ring.hpp:95-100 | stepping over lost frames changes nothing in the queue |
| `SeqlockRing.FrontFirst` | native-plugin/src/ring.hpp:120-124 | when the last frame returned came before all that are left, pop takes the front of the queue and drops nothing |
| `SeqlockRing.RingIsBoundedQueue` | native-plugin/src/ring.hpp:62-136 | any sequence of pushes and pops of frames as push_audio makes them is that of a bounded first-in first-out queue that evicts its oldest element: the same frames popped, the same left, exactly the evicted ones counted as dropped |
| `SeqlockRing.NewRingIsBoundedQueue` | native-plugin/src/ring.hpp:54-136 | the same from an empty ring |
| `SeqlockRing.HoldsAfterPush` | native-plugin/src/ring.hpp:66-74 | a push overwrites no slot that is still wanted |
| `RingSlots.SlotOfIsRemainder` | native-plugin/src/ring.hpp:68-68 | the slot index is the remainder by the capacity |
| `RingSlots.SlotsDiffer` | native-plugin/src/ring.hpp:68-68 | frames less than a capacity apart never share a slot |
| `SeqlockInterleaved.CopyIsWhole` | native-plugin/src/ring.hpp:102-115 | two equal versions around the copy: the words read are those of one push, no older than the head |
| `SeqlockInterleaved.StepKeeps` | native-plugin/src/ring.hpp:62-136 | every single step of either thread keeps the invariant |
| `SeqlockInterleaved.RunKeeps` | native-plugin/src/ring.hpp:62-136 | and so does every interleaving, as long as no version wraps within one read |
| `SeqlockInterleaved.OnlyWholeFrames` | native-plugin/src/ring.hpp:62-136 | in every interleaving of one push and one pop: head <= tail at every step, every frame returned is one whole pushed frame, and with increasing sequence numbers the returned frames are an increasing subsequence of the pushes |
| `SeqlockAlone.PopAlone` | native-plugin/src/ring.hpp:86-136 | from every state an interleaving can lead to with no push under way: a pop that is not overlapped returns, and does to frames, last number and dropped_frames what pop of the bounded queue does |
| `SeqlockAlone.PushAlone` | native-plugin/src/ring.hpp:62-84 | so does a push, even while a pop stands before its first load of a version |
| `SeqlockAlone.CallsAlone` | native-plugin/src/ring.hpp:62-136 | any pushes and pops after each other are the calls of SeqlockRing: the step machine and the class are the same ring |
| `SeqlockAlone.PopTakes` | native-plugin/src/ring.hpp:86-136 | with frames as push_audio makes them a pop takes exactly the first frame left that is newer than the last one popped, counting the older ones as dropped, and nothing if and only if there is none |
| `SeqlockAlone.TakesOldestIff` | native-plugin/src/ring.hpp:124-128 | that frame is the oldest one left if and only if the last one popped was pushed before it |
| `SeqlockAlone.OverrunLosesRing` | native-plugin/src/ring.hpp:86-136 | in every full ring: an interleaving of one push and one pop in which the pop returns the frame just pushed, and after which the next pop drops every frame held |
| `OutQueue.Waiter.Complete` | native-plugin/src/out_queue.cpp:35-43 | only the first reason counts |
| `OutQueue.OutQueue.constructor` | native-plugin/src/out_queue.cpp:62-62 | an empty accepting queue, for any audio capacity |
| `OutQueue.OutQueue.EnqueueControl` | native-plugin/src/out_queue.cpp:96-122 | refines the state machine: supersede the queued message, keep its place, schedule it unless scheduled or in flight; refuse after teardown |
| `OutQueue.OutQueue.EnqueueHeartbeat` | native-plugin/src/out_queue.cpp:124-127 | enqueues a heartbeat with sequence number 0 |
| `OutQueue.OutQueue.EnqueueAudio` | native-plugin/src/out_queue.cpp:129-137 | a full audio queue drops and counts its oldest frame |
| `OutQueue.OutQueue.RemoveStaleControls` | native-plugin/src/out_queue.cpp:82-94 | the loop is the specified removal of commands that are not queued |
| `OutQueue.OutQueue.PopNext` | native-plugin/src/out_queue.cpp:139-189 | refines the state machine: the first scheduled command, else the oldest audio frame |
| `OutQueue.OutQueue.Notify` | native-plugin/src/out_queue.cpp:191-212 | settles the message in flight exactly when command and sequence number match, and schedules the queued one |
| `OutQueue.OutQueue.Timeout` | native-plugin/src/out_queue.cpp:214-217 | reports whether command and sequence number match the message in flight, and settles it as timed out exactly then |
| `OutQueue.OutQueue.Cancel` | native-plugin/src/out_queue.cpp:219-222 | likewise, settled as cancelled |
| `OutQueue.OutQueue.BeginTeardown` | native-plugin/src/out_queue.cpp:224-242 | refines the state machine: settles everything and stops accepting |
| `OutQueueModel.NothingStale` | native-plugin/src/out_queue.cpp:82-94 | in every reachable state remove_stale_controls removes nothing |
| `OutQueueModel.EnqueueKeeps` | native-plugin/src/out_queue.cpp:96-122 | enqueue_control keeps the invariant of schedule and waiters |
| `OutQueueModel.PopKeeps` | native-plugin/src/out_queue.cpp:139-189 | pop_next keeps it |
| `OutQueueModel.NotifyKeeps` | native-plugin/src/out_queue.cpp:191-212 | notify keeps it |
| `OutQueueModel.TeardownKeeps` | native-plugin/src/out_queue.cpp:224-242 | begin_teardown keeps it |
| `OutQueueRuns.RunKeeps` | native-plugin/src/out_queue.cpp:96-242 | any run keeps it: a duplicate-free schedule, scheduled implies queued and not in flight, queued implies scheduled or in flight |
| `OutQueueRuns.ScheduleBounded` | native-plugin/src/out_queue.cpp:117-120 | the schedule never exceeds five entries |
| `OutQueueRuns.EmittedInTurn` | native-plugin/src/out_queue.cpp:112-189 | the command at place k of the schedule leaves with the (k+1)-th pop_next, with the newest message enqueued for it by then |
| `OutQueueRuns.EmissionsSeparated` | native-plugin/src/out_queue.cpp:139-212 | between two emissions of a command that expects a reply there is a notify with the first one's sequence number |
| `OutQueueRuns.AudioWaitsForControls` | native-plugin/src/out_queue.cpp:144-188 | audio is returned exactly when nothing is scheduled |
| `OutQueueRuns.AudioConserved` | native-plugin/src/out_queue.cpp:129-188 | over any run audio in = audio out + dropped + still queued |
| `OutQueueRuns.AudioInOrder` | native-plugin/src/out_queue.cpp:129-188 | which frames: those popped followed by those left, shuffled with the evicted ones, are those enqueued, each in order; as many were evicted as were counted, and each eviction took the oldest frame held |
| `OutQueueRuns.WaitersSettledOnce` | native-plugin/src/out_queue.cpp:96-242 | in every run each Start, Stop, Flush or Reconfigure waiter is finished and in no slot, or unfinished and in exactly one |
| `OutQueueRuns.ReasonsFinal` | native-plugin/src/out_queue.cpp:35-43 | a reason never changes, and a waiter that has left its slot is never touched again |
| `OutQueueRuns.PoppedHeartbeatNeverCompletes` | native-plugin/src/out_queue.cpp:168-173 | the waiter of a popped heartbeat stays unfinished for good |
| `OutQueueRuns.NobodyWaitsAfterTeardown` | native-plugin/src/out_queue.cpp:224-242 | after begin_teardown no waiter that may expect a reply is unfinished, whatever is called later |
| `OutQueueRuns.EnqueueSupersedes` | native-plugin/src/out_queue.cpp:107-120 | the queued waiter, and no other, finishes as superseded; the new message takes its slot and keeps its place |
| `OutQueueRuns.NotifySettles` | native-plugin/src/out_queue.cpp:191-212 | a matching notify gives its reason to the waiter in flight and to no other, and schedules what is queued |
| `OutQueueRuns.TeardownSettles` | native-plugin/src/out_queue.cpp:224-242 | begin_teardown finishes waiters in flight as cancelled and queued ones with no session |
| `OutQueueRuns.ClosedRefuses` | native-plugin/src/out_queue.cpp:96-242 | in every run of a closed queue the schedule and all slots stay empty, no earlier waiter changes, and every waiter enqueued has finished with no session |
| `OutQueueRuns.TeardownRefusesEver` | native-plugin/src/out_queue.cpp:101-104 | so it is after begin_teardown, whatever is called later |
| `ControlDispatcher.ControlDispatcher.constructor` | src/obs_captions/ipc/control_dispatcher.py:34-67 | empty slots, nothing in flight, no last sequence number |
| `ControlDispatcher.ControlDispatcher.Enqueue` | src/obs_captions/ipc/control_dispatcher.py:69-101 | the verdict, the slots and the replies of each branch |
| `ControlDispatcher.ControlDispatcher.Take` | src/obs_captions/ipc/control_dispatcher.py:106-113 | takes a message out of its slot unless one is in flight |
| `ControlDispatcher.ControlDispatcher.PutBack` | src/obs_captions/ipc/control_dispatcher.py:122-126 | puts the message back and clears the mark |
| `ControlDispatcher.ControlDispatcher.Release` | src/obs_captions/ipc/control_dispatcher.py:129-130 | clears the mark in flight |
| `ControlDispatcher.ControlDispatcher.Finish` | src/obs_captions/ipc/control_dispatcher.py:139-142 | records the sequence number and clears the mark |
| `ControlDispatcher.ControlDispatcher.ClearPending` | src/obs_captions/ipc/control_dispatcher.py:144-151 | empties every slot and mark and answers each waiting message with CANCELLED |
| `ControlDispatcher.ControlDispatcher.HasPending` | src/obs_captions/ipc/control_dispatcher.py:153-158 | true if and only if something waits or is in flight |
| `DispatchRuns.ArriveKeeps` | src/obs_captions/ipc/control_dispatcher.py:69-101 | a message arriving at any moment keeps the accounting |
| `DispatchRuns.HandleKeeps` | src/obs_captions/ipc/sidecar.py:366-415 | so do the handlers with their replies |
| `DispatchRuns.ClearKeeps` | src/obs_captions/ipc/control_dispatcher.py:144-151 | so does clear_pending, one command at a time |
| `DispatchRuns.AdvanceKeeps` | src/obs_captions/ipc/control_dispatcher.py:103-151 | so does every step of the task |
| `DispatchRuns.RunKeeps` | src/obs_captions/ipc/control_dispatcher.py:69-151 | so does every run |
| `DispatchRuns.OneReplyEach` | src/obs_captions/ipc/control_dispatcher.py:69-151 | in every run each message has exactly one reply, or none and is in its slot or being handled; each reply carries its message's number and only a flush gets FLUSH_DONE |
| `DispatchRuns.AllAnswered` | src/obs_captions/ipc/control_dispatcher.py:69-151 | with empty slots and an idle task every message has exactly one reply |
| `HandlerReplies.RepliesMean` | src/obs_captions/ipc/sidecar.py:366-415 | in every run, for each reply: OK or FLUSH_DONE exactly when the backend was there and the handler succeeded, NO_SESSION exactly when there was none, CONFIG_ERROR, ENGINE_INIT_FAIL and RUNTIME_ERROR for the failure found, CANCELLED exactly when it was superseded or cleared - told from what was found when the message was looked at, not from the handlers |
| `HandlerReplies.RunTells` | src/obs_captions/ipc/control_dispatcher.py:69-151 | every step of every run keeps replies and findings together |
| `DispatchDrain.MarksMean` | src/obs_captions/ipc/control_dispatcher.py:106-142 | in every run a mark in flight belongs to the message the task holds, and last_seq to the last one of its command that a handler finished |
| `DispatchDrain.ClearsAll` | src/obs_captions/ipc/control_dispatcher.py:144-151 | clear_pending leaves no message and no mark, and answers exactly those that waited |
| `DispatchDrain.DrainAnswersAll` | src/obs_captions/ipc/control_dispatcher.py:103-151 | from every reachable state, with no message arriving meanwhile and a session there: after finitely many steps of the task every message has exactly one reply |
| `ControlProtocol.NeverSuperseded` | src/obs_captions/ipc/control_dispatcher.py:69-101 | a message from the plugin meets an empty slot and no mark: neither a "superseded" nor an "ack" branch of enqueue is taken |
| `ControlProtocol.MatchesOwnMessage` | native-plugin/src/ipc-bridge-internal.cpp:192-207 | a reply can match only the command and waiter of its own message |
| `ControlProtocol.StatusWaiters` | native-plugin/src/ipc-bridge-internal.cpp:192-201 | a STATUS changes only waiters of messages in flight with its sequence number |
| `ControlProtocol.SettlesOwnWaiter` | native-plugin/src/ipc-bridge-internal.cpp:192-233 | delivering a reply changes no waiter but that of the message it answers |
| `ControlProtocol.TransmitKeeps` | src/obs_captions/ipc/sidecar.py:535-549 | a reply leaves the sidecar only at an await, when the task is done with its message |
| `ControlProtocol.DeliverKeeps` | native-plugin/src/ipc-bridge-internal.cpp:192-233 | delivery keeps the protocol invariant |
| `ControlProtocol.SendKeeps` | native-plugin/src/out_queue.cpp:139-189 | so does sending: the frame popped is the only live message of its command |
| `ControlProtocol.TaskKeeps` | src/obs_captions/ipc/control_dispatcher.py:103-151 | so does every step of the dispatcher's task |
| `ControlProtocol.StepKeeps` | src/obs_captions/ipc/control_dispatcher.py:69-151 | so does every step of the composed system |
| `ControlProtocol.EndToEnd` | src/obs_captions/ipc/sidecar.py:366-415 | whole-run theorem of plugin, pipes and sidecar: no superseded and no ack branch, and each STATUS or FLUSH_DONE settles at most one waiter, its own |
| `ControlProtocol.StatusIsOneNotify` | native-plugin/src/ipc-bridge-internal.cpp:192-201 | of the four notifies of apply_status only the matching one acts |
| `ControlProtocol.ReplyIsOneNotify` | native-plugin/src/ipc-bridge-internal.cpp:192-233 | a reply acts as one notify, for the command of its own message |
| `ControlProtocol.ReplySettlesExactly` | native-plugin/src/ipc-bridge-internal.cpp:192-233 | in every run: a reply whose message is in flight finishes exactly that message's waiter, with the reason of its code, and frees the command; any other reply changes nothing |
| `ReplyOrder.RepliesInOrder` | src/obs_captions/ipc/sidecar.py:535-549 | whole-run theorem: the replies the plugin has heard, then those in the pipe, then those in the sidecar's out queue are those the dispatcher made but for the ones that queue dropped, all in the order in which they were made |
| `ProtocolReasons.WaiterIsTold` | native-plugin/src/ipc-bridge-internal.cpp:192-233 | whole-run theorem: the reason with which the waiter of a message finishes is the one its finding in the sidecar means, Complete exactly when the handler succeeded |
| `Crc32.MakeTable` | native-plugin/src/framing.cpp:41-52 | entry i is i shifted through the polynomial eight times |
| `Crc32.Compute` | native-plugin/src/framing.cpp:60-71 | the table-driven loop computes the bit-serial CRC-32 of section 8 of RFC 1952 on every input |
| `Crc32.TableStep` | native-plugin/src/framing.cpp:65-68 | one table step is eight steps of the bit-serial division |
| `Crc32.FeedByteInjectiveInState` | native-plugin/src/framing.cpp:65-68 | a byte step is injective in the checksum state |
| `Crc32.FeedByteInjectiveInByte` | native-plugin/src/framing.cpp:65-68 | and in the byte |
| `Crc32.SingleByteChangeDetected` | native-plugin/src/framing.cpp:60-71 | changing exactly one byte always changes the checksum |
| `Crc32.FieldRoundTrip` | native-plugin/src/framing.cpp:19-39 | the checksum field is read back as written |
| `CrcRemainder.ChecksumIsRemainder` | native-plugin/src/framing.cpp:60-71 | on every input the checksum is the complement of the remainder, and of nothing else, that the message leaves when its first 32 bits are complemented, it is multiplied by x^32 and divided by the generator; neither table nor bit loop is part of that definition |
| `CrcRemainder.RemainderUnique` | native-plugin/src/framing.cpp:60-71 | a division leaves one remainder only |
| `CrcRemainder.GeneratorPowers` | native-plugin/src/framing.cpp:46-46 | the generator is x^32 + x^26 + x^23 + x^22 + x^16 + x^12 + x^11 + x^10 + x^8 + x^7 + x^5 + x^4 + x^2 + x + 1 |
| `CrcRemainder.FieldIsLittleEndian` | native-plugin/src/framing.cpp:19-25 | the field holds the checksum as a number, least significant byte first |
| `Bytes.DigitAt` | native-plugin/src/framing.cpp:13-25 | byte i of a field is the i-th digit of its number in base 256 |
| `Framing.EncodeFrame` | native-plugin/src/framing.cpp:91-113 | the buffer it fills is the frame of _pack_frame, and it refuses the same payloads |
| `Framing.PackedFrameAccepted` | src/obs_captions/ipc/framing/encode.py:24-36 | a packed frame, whatever follows, is accepted by both decoders as that type and payload |
| `Framing.VerdictsAgree` | native-plugin/src/framing.cpp:115-166 | both decoders give the same accept, need-more or reject verdict on every byte string |
| `Framing.OffsetIsSlice` | src/obs_captions/ipc/framing/decode.py:165-193 | decoding at an offset is decoding what starts there |
| `Framing.VerdictStable` | src/obs_captions/ipc/framing/decode.py:165-193 | more bytes never change a verdict other than need-more |
| `Framing.HeaderCorruptionRejected` | native-plugin/src/framing.cpp:115-138 | an acceptable frame with exactly one header byte changed is rejected by both |
| `Messages.PackThenUnpack` | src/obs_captions/ipc/framing/encode.py:78-92 | sixteen-bit samples survive packing and nothing else is packed |
| `Messages.UnpackThenPack` | src/obs_captions/ipc/framing/messages.py:125-134 | unpacked samples pack to the same bytes |
| `Messages.PayloadRoundTrip` | src/obs_captions/ipc/framing/decode.py:141-162 | decoding a payload inverts encoding it for all nine messages |
| `Messages.EncodeDecode` | src/obs_captions/ipc/framing/decode.py:165-193 | decode_frame inverts the encoder exactly on the well-formed messages, whatever follows the frame |
| `Messages.EncodedIsBounded` | src/obs_captions/ipc/framing/encode.py:39-150 | whatever an encoder accepts is well formed, but for the byte that encode_ready masks |
| `CanonicalFrames.PayloadIff` | src/obs_captions/ipc/framing/decode.py:39-162 | for every payload up to the size limit: it decodes to a message if and only if the message is well formed and of that type and the payload is its encoding - nothing trails, nothing is out of range |
| `CanonicalFrames.FrameWritten` | src/obs_captions/ipc/framing/decode.py:165-193 | every frame either frame layer accepts is, byte for byte, the one _pack_frame writes for its type and payload |
| `CanonicalFrames.FrameIff` | src/obs_captions/ipc/framing/decode.py:165-193 | decode_frame takes a message off the front of any bytes if and only if it is well formed and the bytes used up are its encoding |
| `CanonicalFrames.RejectedIff` | native-plugin/src/framing.cpp:115-160 | once a header is there either side rejects it if and only if its magic, checksum, version, type or length is wrong, and the reason named is true |
| `NativePayloads.BuildHelloPayload` | native-plugin/src/ipc-bridge-internal.cpp:49-60 | the sidecar decodes it to the plugin's fields |
| `NativePayloads.BuildControlPayload` | native-plugin/src/ipc-bridge-internal.cpp:354-362 | the sidecar decodes it to command, sequence number and argument |
| `NativePayloads.ReadyAgrees` | native-plugin/src/ipc-bridge-internal.cpp:266-296 | both sides take the same READY payloads and see the same version and epoch |
| `NativePayloads.PartialFlagAgreesIff` | native-plugin/src/ipc-bridge-internal.cpp:294-294 | exactly when the C++ parser sees the partial-support flag that was sent |
| `NativePayloads.PartialFlagMisread` | native-plugin/src/ipc-bridge-internal.cpp:294-294 | a READY whose flag is 0 and is read as true |
| `NativePayloads.GuardMeansIff` | native-plugin/src/ipc-bridge-internal.cpp:307-307 | a length guard, summed in 32 bits, means what it says if and only if its sum does not wrap, or wraps to more bytes than there are |
| `NativePayloads.StatusPastEndIff` | native-plugin/src/ipc-bridge-internal.cpp:298-312 | exactly when parse_status_payload passes its guard and reads past the payload |
| `NativePayloads.CaptionPastEndIff` | native-plugin/src/ipc-bridge-internal.cpp:314-331 | exactly when parse_caption_payload does |
| `NativePayloads.StatusReadPastEnd` | native-plugin/src/ipc-bridge-internal.cpp:306-310 | a STATUS of 14 bytes that Python refuses and C++ reads past its end |
| `NativePayloads.StatusAgrees` | native-plugin/src/ipc-bridge-internal.cpp:298-312 | Python takes a STATUS exactly when C++ parses it within its bounds, the code is known and nothing trails; then both see the same fields; unless the sum wraps, C++ refuses exactly what is too short |
| `NativePayloads.CaptionAgrees` | native-plugin/src/ipc-bridge-internal.cpp:314-331 | Python takes a caption exactly when C++ parses it within its bounds and nothing trails; then both see the same fields; unless the sum wraps, C++ refuses exactly what is too short |
| `NativePayloads.SidecarMessagesParsed` | native-plugin/src/ipc-bridge-internal.cpp:266-331 | what the sidecar encodes is what the plugin parses |
| `Streaming.FrameDecoder.Feed` | src/obs_captions/ipc/framing/decode.py:207-224 | messages and kept bytes are those of decoding the whole buffer; on an error the earlier messages of the call are lost and the rest is kept from the bad frame |
| `Streaming.FrameDecoder.DecodeFrames` | src/obs_captions/ipc/framing/decode.py:210-222 | the loop decodes all frames up to the first error or incomplete frame |
| `Streaming.DecodeInTwo` | src/obs_captions/ipc/framing/decode.py:207-224 | decoding a longer buffer is decoding the shorter one and going on from what it left |
| `Streaming.ChunkingIndependent` | src/obs_captions/ipc/framing/decode.py:207-224 | some call raises exactly when feeding the whole stream would; otherwise messages and final buffer are the same however it is cut |
| `Streaming.NothingLost` | src/obs_captions/ipc/framing/decode.py:207-224 | consumed frames plus leftover are the input |
| `Streaming.WrittenIsRead` | src/obs_captions/ipc/framing/decode.py:207-224 | frames written one after the other are decoded to their messages |
| `Streaming.WrittenThenMore` | src/obs_captions/ipc/framing/decode.py:207-224 | and then comes what follows them |
| `Streaming.PipeReader.Receive` | native-plugin/src/ipc-bridge-core.cpp:298-320 | the messages processed and the bytes kept are those of decoding the whole buffer, up to a bad frame; nothing read ends the loop |
| `Streaming.ReadingIsChunkingIndependent` | native-plugin/src/ipc-bridge-core.cpp:298-320 | such a reader processes the same messages for every cut, also when the stream has an error |
| `StreamDecoder.MessageAtOffset` | src/obs_captions/ipc/framing/decode.py:165-193 | decode_frame at the cursor is decode_frame at the front of what starts there |
| `StreamDecoder.SidecarDecoderStable` | src/obs_captions/ipc/framing/decode.py:165-193 | the verdict of decode_frame on a message is stable under extension |
| `StreamDecoder.FeedingIsChunkingIndependent` | src/obs_captions/ipc/framing/decode.py:196-224 | the sidecar's decoder does not depend on how the pipe cuts the stream |
| `StreamDecoder.SentIsReceived` | src/obs_captions/ipc/framing/decode.py:196-224 | any messages encoded, concatenated and cut arbitrarily come out again, and nothing is left |
| `PluginReader.PluginDecoderStable` | native-plugin/src/framing.cpp:115-166 | the verdict of try_decode_frame other than need-more is stable under extension |
| `PluginReader.PluginIsChunkingIndependent` | native-plugin/src/ipc-bridge-core.cpp:298-320 | run_reader processes the same frames however the pipe cuts the stream: all of them, or those before the first bad one |
| `PluginReader.SidecarIsHeard` | native-plugin/src/ipc-bridge-core.cpp:298-320 | any messages the sidecar encodes, any bytes behind them, any cut: each message is processed in order and parsed to its fields, and then what the bytes behind decode to |
| `BridgeLifecycle.SupervisorKeeps` | native-plugin/src/ipc-bridge-core.cpp:159-233 | every step of the supervisor, through start_session and execute_teardown, keeps the invariant |
| `BridgeLifecycle.StopperKeeps` | native-plugin/src/ipc-bridge-core.cpp:80-87 | so does every step of the thread that calls stop |
| `BridgeLifecycle.StepKeeps` | native-plugin/src/ipc-bridge-teardown.cpp:11-144 | so does every step of any thread, request_restart in any number of threads included |
| `BridgeLifecycle.DestroyStays` | native-plugin/src/ipc-bridge-teardown.cpp:11-21 | a latched Destroy is never lost, not to the exchange from Restart to Run either |
| `BridgeLifecycle.SpawnsAlone` | native-plugin/src/ipc-bridge.cpp:18-40 | when a session is spawned no thread of an earlier one is unjoined or was given up |
| `BridgeLifecycle.EpochsIncrease` | native-plugin/src/ipc-bridge-core.cpp:201-206 | the epochs of the sessions spawned strictly increase |
| `BridgeLifecycle.RingReleasedWhenIdle` | native-plugin/src/ipc-bridge-teardown.cpp:80-92 | the audio ring is released only when no push_audio is inside, and none gets in later |
| `BridgeLifecycle.StopEndsAll` | native-plugin/src/ipc-bridge-core.cpp:80-87 | when stop has returned Destroy is latched, the supervisor is done and no thread is left to join |
| `BridgeLifecycle.LeavingFindsNoThread` | native-plugin/src/ipc-bridge-core.cpp:182-186 | the joins at the end of the loop and in stop find nothing to join |
| `BridgeLifecycle.EndsWithoutStateIff` | native-plugin/src/ipc-bridge-teardown.cpp:62-144 | a lifetime that is stopped ends neither Inactive nor Degraded if and only if stop stores no_respawn_ when the supervisor is past the last test of a teardown: on its way round the loop, or with a respawn open that it takes before Destroy is latched |
| `BridgeLifecycle.TerminalIffLastTeardownDestroys` | native-plugin/src/ipc-bridge-teardown.cpp:78-144 | at the end the state is Inactive if and only if the ring was released, and terminal if and only if the last teardown returned Destroy; when it does is the lemma above |
| `BridgeLifecycle.EndsDegradedWithoutStop` | native-plugin/src/ipc-bridge-core.cpp:159-190 | a lifetime that ends without stop ends Degraded |
| `BridgeEndings.WhichStateIff` | native-plugin/src/ipc-bridge-teardown.cpp:78-144 | which terminal state: at the end of every lifetime that has one, Degraded if and only if a thread was given up or the quiesce timed out, Inactive if and only if neither; the ring is released if and only if the audio path was drained |
| `BridgeEndings.FlagsTellAlways` | native-plugin/src/ipc-bridge-teardown.cpp:23-60 | in every run: no_respawn_ is set if and only if the bridge is degraded or stop has begun, running_ cleared if and only if it is degraded, stop has cleared it or the loop has been left |
| `BridgeEndings.SessionComesUp` | native-plugin/src/ipc-bridge-core.cpp:192-233 | from the head of the loop with Run latched the bridge can come to a session with its three threads |
| `BridgeEndings.RestartLatched` | native-plugin/src/ipc-bridge-teardown.cpp:11-21 | a request_restart that finds Run latches Restart |
| `BridgeEndings.RestarterLeaves` | native-plugin/src/ipc-bridge-teardown.cpp:11-21 | it ends only after latching Restart, or when it had loaded Restart or Destroy |
| `BridgeEndings.RestartComesUp` | native-plugin/src/ipc-bridge-core.cpp:159-233 | from a session a restart request leads to a new session with the next epoch |
| `BridgeEndings.FailedHelloRestarts` | native-plugin/src/ipc-bridge-core.cpp:208-228 | a failed handshake in a running bridge latches Restart |
| `BridgeEndings.StopEndsInactive` | native-plugin/src/ipc-bridge-teardown.cpp:78-92 | an ordinary stop, threads ended and no push_audio inside, can end Inactive with the ring released |
| `BridgeEndings.OrdinaryLifetime` | native-plugin/src/ipc-bridge-core.cpp:80-233 | a lifetime from start through a restart to a stop that ends Inactive with the ring released |
| `BridgeStops.StopIsBounded` | native-plugin/src/ipc-bridge-teardown.cpp:23-144 | in every interleaving: once Destroy is latched the supervisor is done after at most 42 of its own steps taken with the deadlines passed, whatever the other threads do |
| `BridgeStops.StopReturns` | native-plugin/src/ipc-bridge-core.cpp:80-87 | a stop called at any point of any lifetime can return, though no thread of the session ever ends |
| `BridgeLifecycle.QueueClearedAlone` | native-plugin/src/ipc-bridge.cpp:42-49 | the control queue is destroyed and rebuilt only when no thread of the session is left, unjoined or given up |
| `BridgeLifecycle.DestroyDuringBackoff` | native-plugin/src/ipc-bridge-core.cpp:162-180 | a run from the start in which stop lands during the backoff, which ends with no terminal state and the ring unreleased |
| `Quiesce.StepKeeps` | native-plugin/src/quiesce.cpp:8-36 | every atomic step keeps the counter equal to the number of producers between increment and decrement |
| `Quiesce.NobodyInsideAfterDrain` | native-plugin/src/quiesce.cpp:8-36 | once begin_quiesce_and_wait has returned true no producer is inside or ever gets in |
| `EpochGate.EpochGate.constructor` | native-plugin/src/epoch_gate.cpp:6-6 | nothing remembered yet |
| `EpochGate.EpochGate.AdvanceEpoch` | native-plugin/src/epoch_gate.cpp:18-25 | the next epoch, modulo 2^32, and nothing remembered |
| `EpochGate.EpochGate.Evaluate` | native-plugin/src/epoch_gate.cpp:27-51 | the decision and what is remembered afterwards |
| `EpochGate.ShownIff` | native-plugin/src/epoch_gate.cpp:27-51 | exactly which captions are shown, told from the captions seen before and not from the gate's fields |
| `EpochGate.ShownInOrder` | native-plugin/src/epoch_gate.cpp:18-51 | captions are shown with the active epoch; generations never go back and within one sequence numbers never decrease |
| `EpochGate.CaptionsInOrder` | native-plugin/src/epoch_gate.cpp:18-51 | the same from the start of a bridge, for every run |
| `EpochGate.NoRepeats` | native-plugin/src/epoch_gate.cpp:38-47 | and likewise that no final caption repeats the one before it |
| `EpochGate.EpochsInOrder` | native-plugin/src/epoch_gate.cpp:18-51 | without a wrap the epochs themselves never decrease |
| `EpochGate.NoRepeatedFinal` | native-plugin/src/epoch_gate.cpp:38-47 | with strictly increasing sequence numbers no final caption repeats timestamp and text of the one shown before it |
| `EpochGate.CopyDroppedIff` | native-plugin/src/epoch_gate.cpp:33-48 | exactly when a second copy of a final caption is dropped as a duplicate |
| `EpochGate.ShownTwice` | native-plugin/src/epoch_gate.cpp:43-48 | a run from the start in which a final caption is shown twice in a row |
| `Vad.UtteranceSegmenter.Create` | src/obs_captions/vad.py:41-51 | durations that are not positive are refused; at least one silent frame ends an utterance |
| `Vad.UtteranceSegmenter.Process` | src/obs_captions/vad.py:58-86 | refines one step on frames; a frame of the wrong length changes nothing |
| `Vad.UtteranceSegmenter.Flush` | src/obs_captions/vad.py:88-95 | returns the open utterance, if any |
| `Vad.InMsScales` | src/obs_captions/vad.py:58-86 | a span in milliseconds starts and ends where its frames do |
| `Vad.SegmentationUnique` | src/obs_captions/vad.py:58-95 | at most one list of spans meets the specification |
| `Vad.ProcessFollows` | src/obs_captions/vad.py:58-86 | after any decisions the utterances so far meet the specification |
| `Vad.SegmentsExactly` | src/obs_captions/vad.py:58-95 | whole-run theorem: ordered, disjoint, every speech frame covered once, speech at both ends, only short silences inside, long ones between - and the segmenter returns exactly the spans with these properties |
| `AudioPath.AudioProducer.PushAudio` | native-plugin/src/ipc-bridge-core.cpp:101-157 | pushes nothing when closed or empty, otherwise the slots of the clamped downmix, and moves the sequence number behind them |
| `AudioPath.MixLength` | native-plugin/src/ipc-bridge-core.cpp:131-131 | one sample per whole frame |
| `AudioPath.MixAt` | native-plugin/src/ipc-bridge-core.cpp:140-151 | sample f is the clamped mean of the channels of frame f |
| `AudioPath.ClampIsNearest` | native-plugin/src/ipc-bridge-core.cpp:147-147 | clamping gives the nearest value in [-1, 1] and leaves those inside alone |
| `AudioPath.MeanBetween` | native-plugin/src/ipc-bridge-core.cpp:140-146 | the mean of the channels lies between any bounds of theirs |
| `AudioPath.MixInRange` | native-plugin/src/ipc-bridge-core.cpp:140-151 | every sample of the mix is in [-1, 1] |
| `AudioPath.SlotsJoin` | native-plugin/src/ipc-bridge-core.cpp:131-156 | the slots concatenate back to the downmix |
| `AudioPath.SlotsSized` | native-plugin/src/ipc-bridge-core.cpp:136-138 | slots hold 1 to 1920 samples, all but the last are full, markers complement sequence numbers, and each carries the number of channels |
| `AudioPath.SlotsContiguous` | native-plugin/src/ipc-bridge-core.cpp:136-137 | each slot's sequence number is that of the one before plus its length, modulo 2^64 |
| `AudioPath.TimestampExactIff` | native-plugin/src/ipc-bridge-internal.cpp:367-367 | the timestamp is 62500 * seq if and only if seq <= 18446744073 |
| `AudioPath.QuantisedNearest` | native-plugin/src/ipc-bridge-internal.cpp:371-374 | in range a sample is rounded to the nearest step and never clipped |
| `AudioPath.BuildAudioPayload` | native-plugin/src/ipc-bridge-internal.cpp:364-377 | the fields and sample bytes of the payload |
| `AudioPath.AudioArrives` | src/obs_captions/ipc/framing/decode.py:82-93 | the sidecar decodes such a payload to the timestamp, the length and the quantised samples |
| `AudioDelivery.PushedContiguous` | native-plugin/src/ipc-bridge-core.cpp:129-156 | over any calls of push_audio the slots are numbered without a gap, modulo 2^64, and marked with the complement |
| `AudioDelivery.OrderlyIff` | native-plugin/src/ipc-bridge-core.cpp:136-138 | the ring takes these slots as frames in increasing order if and only if the last one starts before 2^64 |
| `SeqlockRing.QueueConserves` | native-plugin/src/ring.hpp:62-136 | each frame pushed is popped, left or evicted, once, and each of these in the order of the pushes |
| `AudioDelivery.PoppedFromCalls` | native-plugin/src/ipc-bridge-core.cpp:101-157 | any calls of push_audio with pops in between: what is popped and left is what was pushed but for the evicted slots, in order; exactly those are counted as dropped |
| `AudioDelivery.AudioIsDelivered` | native-plugin/src/ipc-bridge-core.cpp:247-284 | from the callbacks to the sidecar, for any calls, pops, other messages among the audio and any cut of the bytes: the sidecar decodes the messages sent, and their audio is the slots not evicted, in order and quantised, as far as they were popped |

## Left out

- Model inference, voice activity probabilities, resampling: oracle inputs of the model.
- Floating-point rounding in the downmix and the quantisation: samples are reals there.
- The UTF-8 codec: text on the wire is the bytes, so a payload with invalid UTF-8, which Python refuses, is accepted by the modelled decoder; `CanonicalFrames.FrameIff` speaks of such texts.
- `await` points inside `feed_audio` and `flush`: each call is one step, so overlapping calls on one backend are not modelled.
- When a partial is due: `partial_interval_ms` and the clock become a Boolean argument of each call.
- Streaming.FrameDecoder.Feed: the decoder is a function of the rest of the buffer instead of buffer and cursor; `StreamDecoder.MessageAtOffset` shows that this is the same.
- CRC-32 on the Python side is zlib's, which is taken to be the reference that the C++ loop is proved to compute.
- SeqlockInterleaved.OnlyWholeFrames: assumes that no slot version wraps its 32 bits between the two loads of one read, and is safety only: what a pop returns and counts is said for pops that are not overlapped (`SeqlockAlone.PopTakes`, `SeqlockAlone.CallsAlone`).
- AudioDelivery.AudioIsDelivered: push and pop do not overlap there; SeqlockInterleaved.OnlyWholeFrames has them overlap. Control frames are any well-formed messages among the audio.
- PluginReader.SidecarIsHeard: the session lives on; that process_payload may ask for a restart, after which run_reader stops at its next turn, is not modelled.
- Weak memory orderings of C++: steps are sequentially consistent.
- ControlProtocol.EndToEnd: does not promise that replies arrive, since the sidecar's out queue may drop its oldest entry; `timeout` and `cancel` are not used; the reader's epoch check and the restart that follows an error status are subsumed by a teardown at any moment.
- DispatchRuns.OneReplyEach: counts replies handed to the out queue; texts of replies, replies that do not concern a control message, and the cancellation of the task at shutdown are left out, and encoding a reply is taken to succeed.
- OutQueue.OutQueue.EnqueueAudio: requires a positive audio capacity; with 0 the program pops from an empty queue. The program itself uses 16.
- The array of command states in `OutQueue` is a map from the five commands; a payload is not copied but shared.
- Quiesce.NobodyInsideAfterDrain: the 32-bit counter is taken not to wrap, that is, fewer than 2^32 producers at once.
- BridgeLifecycle.EpochsIncrease: epochs are unbounded; after 2^32 teardowns in one lifetime they repeat.
- BridgeLifecycle.StepKeeps: `request_restart` is allowed at any time, without its three guards, by any number of threads; backoff lengths, heartbeats and condition variables are left out; stores in a row that only the same thread reads in the model count as one step: the three of `mark_degraded`, and those that prepare a session, begin a teardown or leave the loop.
- An `OutQueue` is taken for one session: the bridge replaces it at each teardown, when every waiter that may expect a reply is finished.
- The bridge starts with its `start` method having reset all fields; a second `start` is a new lifetime.
- Process and pipe handling, OBS glue, the properties panel, cloud back ends, the HTTP server, the web overlay, hotkeys and configuration files.
- Regular-expression filtering, wrapping of text, caption state and the export sink, which would add only easy members.
