# A verified model of the gemini-teacher session loop

`starter.py` runs a spoken English-practice session against a streaming
conversational service. Three loops of its `AudioLoop` object share state:

- `listen_audio` reads microphone frames and queues them;
- `send_audio` takes frames off the queue and sends them;
- `receive_audio` assembles the streamed reply text into turns, reacts to the
  pause and continue phrases, and hands each turn to display and to speech
  synthesis.

Before they start, `startup` waits for the service to answer the initial prompt
with "OK".

This project models that state machine in Dafny and proves what it guarantees.
The state is the pause flag, the step value `running_step`, the turn
accumulator and the audio queue.

- `Wrappers`: `Option`, for JSON keys that may be absent.
- `Text`: the string operations the turn path uses. These are `lower()`, the
  `in` test, `startswith`, `split("---")[0]`, `strip()` and `"".join`, with their
  characterising lemmas.
- `Pcm`: frames as bytes; the signed 16-bit little-endian decode and its inverse;
  the per-sample volume loop (`MeasureVolume`); the loudness test.
- `Protocol`: inbound frames, already decoded (`serverContent.modelTurn.parts[].text`,
  `serverContent.turnComplete`), and the loop that collects part texts (`CollectTexts`).
- `Transitions`: the shared state as a value (`State`) and one iteration of each
  loop as a function (`Receive`, `Capture`, `Transmit`). It also holds the session
  invariant `Inv` (step in {0, 1, 2}, and paused implies step 2) and the handshake
  condition `HandshakeDoneAt`.
- `Properties`: lemmas about one iteration of each loop. It defines `Run`, any
  interleaving of whole iterations of the three loops, and the lemmas over it:
  the invariant, FIFO order, silence while paused, and turns assembled in arrival
  order. It also holds the handshake lemmas and concrete sessions.
- `Session`: the class `AudioLoop`, with fields `paused`, `runningStep`,
  `currentResponse` and `outQueue`. Its methods `ListenStep`, `SendStep`,
  `ReceiveStep` and `Startup` are imperative. Each is proved to perform exactly the
  step of `Transitions`. Ghost histories `enqueued` and `sent` carry FIFO order as
  a class invariant.

I/O becomes parameters and results:
- the device read is the `frame` parameter of `ListenStep`;
- the frames the stream delivers are `Message` values;
- a sent chunk is the `Sent` outcome;
- display and speech are the `TurnReport` of `ReceiveStep`;
- whether a voice client exists is the constructor's `voiceEnabled`.

Behaviour of `starter.py` worth knowing, which the model keeps:
- `startup` never resets its accumulator (starter.py:163-178). So an earlier reply
  of two or more characters that does not begin with "OK" blocks the handshake
  for good (`HandshakeStuck`,
  `HandshakeNeverEndsAfterOtherReply`). A shorter reply, or a completion marker
  with no text, does not block (`ShortReplyDoesNotBlock`). When the stream ends normally before any
  frame completes the handshake, `startup` simply returns (`StreamClosed`).
- `audio_out_queue` is an unbounded `asyncio.Queue()` (starter.py:64), so the model
  gives the queue no capacity.
- The step goes from 1 to 2 on any inbound frame, before the frame is parsed, and
  never from 0 (starter.py:245-247). A turn that leaves the session paused also
  sets the step to 2 from 0 (starter.py:300, `ReceiveStepRise`).
- A turn is reported as soon as the accumulator list is non-empty (starter.py:262).
  Its text may then be the empty string, when every part carried `""`.
- `starter.py` as written does not parse. The docstring of `startup`
  (starter.py:100) is indented less than the body after it, and the pause message
  at starter.py:268 closes its string early. The model follows the evident intent
  of both lines.
- An empty frame makes the volume computation divide by zero (starter.py:212).
  That ends the capture loop and, through the task group, the session (`Crashed`).

## Model

| member | source | states |
|---|---|---|
| Text.ToLower | starter.py:266-269 | `text.lower()` on ASCII: each upper-case letter becomes its lower-case letter and every other character is kept, position by position |
| Text.StartsWith | starter.py:178 | `s.startswith(p)`: `p` is no longer than `s` and equals as many leading characters of `s` |
| Text.Contains | starter.py:266-269 | the `in` test as a left-to-right scan: the phrase starts at the first position, or it is found in the rest |
| Text.Strip | starter.py:285 | `s.strip()`: leading whitespace removed, then trailing whitespace removed |
| Text.Concat | starter.py:263 | `"".join(parts)`: the fragments concatenated in list order |
| Text.ContainsIff | starter.py:266-269 | the left-to-right scan for a phrase succeeds exactly when the phrase occurs at some index |
| Text.ContainsNeedsChar | starter.py:266-269 | a phrase cannot occur in a text that lacks one of its characters |
| Text.ToLowerCaseBlind | starter.py:266-269 | two strings lower-case to the same string exactly when they have the same length and agree character by character up to ASCII letter case |
| Text.FirstSegment | starter.py:282-285 | the first `---` segment is a prefix of the turn |
| Text.FirstSegmentSpec | starter.py:282-285 | no `---` starts inside the first segment, and one starts right after it unless the segment is the whole turn |
| Text.FirstSegmentAt | starter.py:282-285 | the first segment ends at the index of the first `---` |
| Text.FirstSegmentWhole | starter.py:282-285 | the first segment is the whole turn exactly when the turn has no `---` |
| Text.LeadingSpaces | starter.py:285 | the count of leading whitespace is the length of the longest all-whitespace prefix: everything before it is whitespace and the next character is not |
| Text.KeptLength | starter.py:285 | the kept length is where the longest all-whitespace suffix starts: everything from it on is whitespace and the character before it is not |
| Text.StripSlice | starter.py:285 | the stripped text is the slice of the input that starts right after its leading whitespace and is followed only by whitespace |
| Text.StripKeeps | starter.py:285 | a string that neither begins nor ends with whitespace is left unchanged |
| Text.StripEnds | starter.py:285 | the stripped text neither begins nor ends with whitespace |
| Text.IsSpace | starter.py:285 | the whitespace `strip()` removes, on ASCII: tab, line feed, vertical tab, form feed, carriage return (9-13), the four separators 28-31 and space |
| Text.StripEmpty | starter.py:285 | stripping leaves nothing exactly when the input is all whitespace |
| Text.ConcatAppend | starter.py:263 | joining two runs of fragments is joining each and concatenating |
| Text.StartsWithExtend | starter.py:178 | appending text never changes whether a long-enough string starts with a prefix |
| Pcm.DecodeSample | starter.py:210 | the signed little-endian value of a byte pair: `lo + 256 * hi`, less 65536 when that reaches 32768 |
| Pcm.DecodeByte | starter.py:210 | the signed value of the lone last byte of an odd-length frame: the byte, less 256 when it reaches 128 |
| Pcm.Loud | starter.py:212-214 | a frame is loud when the sum of its absolute samples exceeds 200 times their count, the mean test without division |
| Pcm.DecodeRange | starter.py:210 | a decoded 16-bit sample lies in [-32768, 32767], a lone trailing byte in [-128, 127] |
| Pcm.DecodeEncode | starter.py:210 | decoding the two's-complement little-endian bytes of any 16-bit value gives the value back |
| Pcm.EncodeDecode | starter.py:210 | encoding a decoded pair of bytes gives the same bytes back |
| Pcm.Samples | starter.py:209-211 | a frame of n bytes has (n+1)/2 samples, each of absolute value at most 32768 |
| Pcm.SumAbsBound | starter.py:211-212 | the sum of absolute samples lies between 0 and 32768 times the sample count |
| Pcm.AllAboveIsLoud | starter.py:212-214 | a frame whose every sample exceeds 200 in absolute value has mean above 200 |
| Pcm.AllBelowIsQuiet | starter.py:212-214 | a frame whose every sample is at most 200 in absolute value has mean at most 200 |
| Pcm.SumAbs | starter.py:211-212 | `sum(audio_data)` over the absolute values of the samples |
| Pcm.LoudIsMeanAbove | starter.py:212-214 | on a non-empty frame, the integer test `Loud` holds exactly when the mean of the absolute samples, divided over the reals, exceeds 200 |
| Pcm.MeasureVolume | starter.py:208-212 | the per-sample loop returns the sum of absolute samples, `SumAbs(Samples(data))`, and their count, (n+1)/2 for n bytes |
| Protocol.PartTexts | starter.py:253-255 | the texts of the parts that carry a "text" key, in the order of the parts; parts without one contribute nothing |
| Protocol.MessageTexts | starter.py:251-255 | the texts one frame contributes: those of its parts, in order, when it has `serverContent`, and none otherwise |
| Protocol.AllTexts | starter.py:163-171 | the never-reset accumulator of `startup` after a run of frames: each frame's texts, frame after frame |
| Protocol.Completes | starter.py:176-177 | a frame completes a turn when it has `serverContent` and its `turnComplete` is present and true (also the test of starter.py:261-262) |
| Protocol.PartTextsAppend | starter.py:252-255 | collecting texts distributes over consecutive runs of parts |
| Protocol.PartTextsLength | starter.py:253-255 | there are never more texts than parts, and exactly as many when every part has text |
| Protocol.AllTextsSnoc | starter.py:164-171 | the texts of the first i+1 frames are those of the first i followed by those of frame i |
| Protocol.AllTextsAppend | starter.py:164-171 | the texts of consecutive runs of frames are the texts of each, in order |
| Protocol.CollectTexts | starter.py:252-255 | the parts loop appends the texts of the parts that have one, in order, to the accumulator |
| Transitions.Recognize | starter.py:266-270 | the command of a turn: Pause when the lower-cased turn contains "can i have a break"; otherwise Resume when it contains "ok let's continue" and the session is paused; otherwise none |
| Transitions.ApplyCommand | starter.py:266-270 | the new pause flag: set by the break command (267), cleared by the continue command (270), kept otherwise |
| Transitions.SpokenPart | starter.py:282-285 | the text handed to speech: the turn up to its first `---`, stripped |
| Transitions.Receive | starter.py:244-302 | one receive iteration: step 1 becomes 2; the frame's part texts are appended to the accumulator; on a completion marker with a non-empty accumulator, the joined text yields the command, the new pause flag, the speech (voice client and not paused), an empty accumulator and step 2 if paused else 0; otherwise no turn |
| Transitions.Capture | starter.py:198-219 | one capture iteration: paused, it sleeps; in step 2 the frame is read and dropped; an empty frame crashes the loop; otherwise the frame is queued, and a loud one in step 0 sets step 1 |
| Transitions.Transmit | starter.py:223-228 | one transmit iteration: paused, it sleeps; with an empty queue it waits; otherwise it takes the head of the queue and sends it |
| Transitions.HandshakeDoneAt | starter.py:163-180 | the handshake ends at frame k when that frame completes a turn and the texts of all frames up to it, never reset and joined, begin with "OK" |
| Properties.TurnCompletion | starter.py:260-263 | a turn is reported exactly on a completion marker with a non-empty accumulator; its text is the join of the accumulator; the step ends with an empty accumulator, step 2 if paused and 0 if not, and the queue untouched |
| Properties.NoTurnKeepsState | starter.py:250-262 | a frame that completes no turn keeps the pause flag and the queue and only appends its texts |
| Properties.PauseRule | starter.py:266-271 | after a turn the session is paused iff the lower-cased turn contains "can i have a break", or it was paused and the turn lacks "ok let's continue" |
| Properties.BreakWins | starter.py:266-267 | the break phrase pauses even when the continue phrase is present |
| Properties.RecognizeCaseBlind | starter.py:266-269 | two turns that differ only in ASCII letter case lower-case alike and carry the same command, paused or not |
| Properties.ContinueNeedsPause | starter.py:269-270 | while not paused, a turn without the break phrase leaves the session unpaused and carries no command |
| Properties.SpeechRule | starter.py:278-285 | speech is requested iff a voice client exists and the session is not paused after the command; the spoken text is the first `---` segment stripped, or the whole turn stripped when there is no `---` |
| Properties.SpokenPartSlice | starter.py:282-285 | the spoken text lies before the first `---` and differs from that segment only by surrounding whitespace |
| Properties.CaptureGating | starter.py:199-205 | while paused capture changes nothing; in step 2 the frame is dropped; otherwise a non-empty frame is queued unchanged whatever its volume; the queue grows by at most that frame |
| Properties.TransmitRule | starter.py:224-228 | while paused or with an empty queue nothing is taken; otherwise the head is sent and removed; what is sent followed by what remains is the old queue |
| Properties.CaptureStepRise | starter.py:214-217 | capture raises the step only from 0 to 1 on a loud queued frame, and always does so for a loud frame in step 0 |
| Properties.ReceiveStepRise | starter.py:245-247 | an inbound frame that completes no turn turns step 1 into 2; an inbound frame raises the step only from 1 to 2 or, by a pausing turn, to 2 |
| Properties.ReceiveKeepsInv | starter.py:245-300 | the receive step keeps the step in {0,1,2} and paused implying step 2 |
| Properties.CaptureKeepsInv | starter.py:199-217 | the capture step keeps the session invariant |
| Properties.TransmitKeepsInv | starter.py:224-228 | the transmit step keeps the session invariant |
| Properties.StepKeepsInv | starter.py:198-300 | any single iteration of any loop keeps the session invariant |
| Properties.RunKeepsInv | starter.py:198-300 | the session invariant holds after any interleaving of iterations of the three loops |
| Properties.StepFifo | starter.py:219 | one iteration sends the head of the queue, queues at its tail, or neither |
| Properties.FifoOrder | starter.py:219-228 | over any interleaving, the chunks sent followed by the remaining queue are the initial queue followed by the frames queued, in order |
| Properties.SentIsPrefix | starter.py:219-228 | the chunks sent are a prefix of everything queued: no drop, no duplicate, no reordering |
| Properties.PausedIsSilent | starter.py:199-201 | while paused and without inbound frames, no frame is queued, nothing is sent and the state is unchanged |
| Properties.StepAccumulates | starter.py:250-258 | an iteration that reports no turn only appends the texts of its inbound frame, and keeps the pause flag |
| Properties.AccumulatorInArrivalOrder | starter.py:250-258 | until a turn is reported, the accumulator is its old contents followed by the texts of every inbound frame in arrival order, whatever the other loops do |
| Properties.TurnTextInArrivalOrder | starter.py:250-263 | from an empty accumulator, the next turn's text is the join of every text received since, including the completing frame's, and a turn is reported iff that frame completes and some text arrived |
| Properties.TextFrameAppends | starter.py:245-258 | a frame with one text part appends that text and ends step 1, without a turn |
| Properties.CompleteFrameCloses | starter.py:260-300 | a bare completion marker turns a non-empty accumulator into a turn with the command, pause flag, step and speech it implies |
| Properties.HelloHasNoBreak | starter.py:266 | "Hello---Olá" does not contain the break phrase |
| Properties.HelloFirstSegment | starter.py:282 | the first `---` segment of "Hello---Olá" is "Hello" |
| Properties.BilingualText | starter.py:266-285 | "Hello---Olá" carries no command, and its spoken part is "Hello" |
| Properties.BilingualReplyScenario | starter.py:250-300 | a text frame "Hello---Olá" and a completion marker produce that turn, no command, speech "Hello", and the initial state again |
| Properties.BreakText | starter.py:266 | "Can I have a break, sure." is a pause command |
| Properties.ResumeText | starter.py:269 | "OK let's continue now" resumes a paused session |
| Properties.PauseResumeScenario | starter.py:199-300 | "Can I have a break, sure." pauses; then any capture and transmit iterations queue and send nothing; then "OK let's continue now" resumes with step 0 |
| Properties.HandshakeStuck | starter.py:163-180 | once the never-reset handshake text has two characters and does not begin with "OK", no later frame ends the handshake |
| Properties.HandshakeScenario | starter.py:163-180 | "OK" followed by a completion marker ends the handshake at the second frame, not the first |
| Properties.ShortReplyDoesNotBlock | starter.py:163-180 | replies "O" then "K", each closed by a completion marker, do not end the handshake at the first marker and end it at the second |
| Properties.HandshakeNeverEndsAfterOtherReply | starter.py:163-180 | a first reply "Sure" keeps the handshake from ending even when "OK" follows |
| Session.AudioLoop.constructor | starter.py:62-77 | a new session is unpaused, in step 0, with empty accumulator and queue, and has a voice client as configured |
| Session.AudioLoop.Startup | starter.py:163-182 | the handshake returns after the first frame where a completion marker meets accumulated text beginning with "OK", or reports the stream closed when no frame does |
| Session.AudioLoop.ListenStep | starter.py:198-219 | one capture iteration performs the `Capture` step, appends a queued frame to the history of queued frames, and keeps the invariant |
| Session.AudioLoop.SendStep | starter.py:223-239 | one transmit iteration performs the `Transmit` step, appends a sent chunk to the history of sent chunks, and keeps the invariant |
| Session.AudioLoop.ReceiveStep | starter.py:244-302 | one receive iteration performs the `Receive` step and keeps the invariant and the queue histories |

## Left out

- The websocket connection, the proxy tunnel, and `ws.send` / `ws.recv` (starter.py:108-109, 160, 239, 306-313) are network I/O. Inbound frames arrive as decoded `Message` values, and a sent chunk is an outcome.
- The reply to the setup message, which `startup` reads and ignores (starter.py:109), is not part of the frame sequence given to `Startup`.
- JSON and base64 encoding and decoding (starter.py:165, 229-238, 249) are library calls; only the identity and order of chunks matter. Frames shaped so that the source's own try blocks interfere are outside the decoded datatype: a `serverContent` that is not an object, a part that is not an object, or a non-string `text`.
- Opening the audio device and reading it (starter.py:186-194, 203) is device I/O; the frame read is a parameter.
- ElevenLabs speech synthesis and `play` (starter.py:286-291), and the `asyncio.to_thread` dispatch, are foreign calls. The text to speak is an output. A playback failure is caught by the source and changes nothing the model tracks.
- Console and Markdown output are cosmetic. Display is the `text` of a reported turn; progress markers are not modelled.
- Concurrency: `asyncio.TaskGroup`, the done-callback with `sys.exit`, and the 0.1 s sleep while paused (starter.py:199-201, 225, 320-333). An interleaving is a sequence of whole loop iterations. By contrast, the source's receive loop awaits playback before it resets the accumulator and the step (starter.py:294-300), so the other loops can run in between. While the reply plays, capture still sees the old step: in step 2 it reads and drops frames, and in step 0 or 1 it queues them, where a loud one sets step 1 that starter.py:300 then overwrites. The atomic `Receive` cannot show any of this. A crash of the capture loop ends a `Run`.
- `calculate_pronunciation_score` (starter.py:79-97) uses numpy and floating point, and nothing calls it.
- `THEMES`, and loading the environment and dotenv (starter.py:33-59).
- Transitions.Transmit: an iteration tests `paused` (starter.py:224), takes from the queue (starter.py:228) and sends (starter.py:239) as one step, and `Blocked` changes nothing. In the source, a chunk taken off the queue before a pause begins can still go out after it begins: a `get` already woken by a `put` (starter.py:219) that has not resumed when the pause begins (starter.py:267), or a `ws.send` (starter.py:239) in progress. `PausedIsSilent` and `TransmitRule` hold for interleavings of whole iterations only.
- Session.AudioLoop.Startup: the `async for` over the connection (starter.py:164) raises when the connection closes with an error. The model only has the normal end of the stream, which is `StreamClosed`.
- Queue capacity and blocking backpressure: the source's queue is unbounded. A `get` on an empty queue blocks, which is modelled as the `Blocked` outcome with no change.
- Text.ToLower, Text.IsSpace: Python's Unicode `lower()` and `strip()` are approximated on ASCII. Upper-case ASCII letters are lowered. The whitespace set is code points 9-13 and 28-32, Python's `isspace` on ASCII.
- Pcm.Loud: Python's float test `sum / len > 200` is stated as the exact integer test `sum > 200 * len`. `LoudIsMeanAbove` proves the integer test equal to the mean test over exact reals. The two differ only if float rounding reaches 200, which needs frames far longer than the 1024-byte frames the source reads (`CHUNK_SIZE` 512 samples).
