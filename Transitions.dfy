/**
 * The session state shared by the three loops of `AudioLoop`, and what one
 * iteration of each loop does to it, as functions on values. `Session.AudioLoop`
 * implements each of these steps imperatively and is proved against them.
 */
module Transitions {
  import opened Wrappers
  import opened Text
  import opened Pcm
  import opened Protocol

  /** Phrases that control the session, matched against the lower-cased turn. */
  const BreakPhrase: string := "can i have a break"
  const ContinuePhrase: string := "ok let's continue"

  /** Separates the English half of a reply from the Portuguese half. */
  const Delimiter: string := "---"

  /** What a reply to the initial prompt must begin with. */
  const HandshakePrefix: string := "OK"

  /**
   * `paused` and `runningStep` (0 idle, 1 local speech heard, 2 response under
   * way) are the fields of `AudioLoop`; `currentResponse` is the turn accumulator
   * of the receive loop; `outQueue` is the contents of `audio_out_queue`.
   */
  datatype State = State(paused: bool, runningStep: int, currentResponse: seq<string>, outQueue: seq<Bytes>)

  /** The state `AudioLoop.__init__` leaves, with the accumulator of the receive loop empty. */
  const Initial: State := State(false, 0, [], [])

  /**
   * The session invariant: the step is one of its three values, and a paused
   * session is always in step 2.
   */
  predicate Inv(s: State) {
    0 <= s.runningStep <= 2 && (s.paused ==> s.runningStep == 2)
  }

  datatype Command = Pause | Resume | NoCommand

  /** The control command a completed turn carries; resuming is only honoured while paused. */
  function Recognize(text: string, paused: bool): Command {
    if Contains(ToLower(text), BreakPhrase) then Pause
    else if Contains(ToLower(text), ContinuePhrase) && paused then Resume
    else NoCommand
  }

  function ApplyCommand(paused: bool, c: Command): bool {
    match c
    case Pause => true
    case Resume => false
    case NoCommand => paused
  }

  /** The part of a turn handed to speech synthesis: its first segment, stripped. */
  function SpokenPart(text: string): string {
    Strip(FirstSegment(text, Delimiter))
  }

  /**
   * What one inbound frame produces: nothing, or a completed turn with its text
   * (handed to the display), the command found in it, and the text to speak
   * (`None` when there is no voice client or the session is now paused).
   */
  datatype TurnReport = NoTurn | Turn(text: string, command: Command, speech: Option<string>)

  /** One iteration of `receive_audio`; `voice` says whether a voice client is configured. */
  function Receive(s: State, voice: bool, m: Message): (State, TurnReport) {
    var step := if s.runningStep == 1 then 2 else s.runningStep;
    var acc := s.currentResponse + MessageTexts(m);
    if Completes(m) && acc != [] then
      var text := Concat(acc);
      var command := Recognize(text, s.paused);
      var paused := ApplyCommand(s.paused, command);
      var speech := if voice && !paused then Some(SpokenPart(text)) else None;
      (State(paused, if paused then 2 else 0, [], s.outQueue), Turn(text, command, speech))
    else
      (s.(runningStep := step, currentResponse := acc), NoTurn)
  }

  /**
   * How one iteration of `listen_audio` ends: it slept because the session is
   * paused, it read the frame and dropped it because a response is under way,
   * it queued the frame (and whether the frame was loud), or it raised
   * `ZeroDivisionError` on an empty frame, which ends the loop.
   */
  datatype CaptureOutcome = Slept | Discarded | Enqueued(loud: bool) | Crashed

  /** One iteration of `listen_audio`, given the frame the device would return. */
  function Capture(s: State, frame: Bytes): (State, CaptureOutcome) {
    if s.paused then (s, Slept)
    else if s.runningStep > 1 then (s, Discarded)
    else if |frame| == 0 then (s, Crashed)
    else
      var loud := Loud(frame);
      var step := if loud && s.runningStep == 0 then 1 else s.runningStep;
      (s.(runningStep := step, outQueue := s.outQueue + [frame]), Enqueued(loud))
  }

  /**
   * How one iteration of `send_audio` ends: it slept because the session is
   * paused, it is waiting on an empty queue, or it sent the head of the queue.
   */
  datatype TransmitOutcome = Idle | Blocked | Sent(chunk: Bytes)

  /** One iteration of `send_audio`. */
  function Transmit(s: State): (State, TransmitOutcome) {
    if s.paused then (s, Idle)
    else if s.outQueue == [] then (s, Blocked)
    else (s.(outQueue := s.outQueue[1..]), Sent(s.outQueue[0]))
  }

  /**
   * The handshake of `startup` ends at frame `k`: it completes a turn and the
   * texts of all frames up to and including it, never reset, begin with "OK".
   */
  predicate HandshakeDoneAt(ms: seq<Message>, k: int) {
    0 <= k < |ms| && Completes(ms[k]) && StartsWith(Concat(AllTexts(ms[..k + 1])), HandshakePrefix)
  }

  /** `startup` returns after `consumed` frames, or the stream ends first and it returns anyway. */
  datatype HandshakeOutcome = Ready(consumed: nat) | StreamClosed
}
