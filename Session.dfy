/**
 * `AudioLoop`: the object whose three loops share the pause flag, the step value
 * and the audio queue. Each method is one iteration of one loop, with the I/O of
 * that iteration turned into parameters and results; each is proved to perform
 * exactly the step that `Transitions` defines, so every property in `Properties`
 * holds of the object.
 */
module Session {
  import opened Wrappers
  import opened Text
  import opened Pcm
  import opened Protocol
  import opened Transitions
  import opened Properties

  class AudioLoop {
    /** Whether `ELEVENLABS_API_KEY` gave a voice client when the object was made. */
    const voiceEnabled: bool

    var paused: bool
    var runningStep: int
    /** The turn accumulator of the receive loop. */
    var currentResponse: seq<string>
    /** `audio_out_queue`, head first. */
    var outQueue: seq<Bytes>

    /** Every frame ever put on the queue, and every chunk ever taken off it and sent. */
    ghost var enqueued: seq<Bytes>
    ghost var sent: seq<Bytes>

    function Snapshot(): State
      reads this
    {
      State(paused, runningStep, currentResponse, outQueue)
    }

    /** The session invariant, and FIFO: what was sent, then what is queued, is what was queued. */
    ghost predicate Valid()
      reads this
    {
      Inv(Snapshot()) && sent + outQueue == enqueued
    }

    constructor (voiceEnabled: bool)
      ensures Valid()
      ensures Snapshot() == Initial && this.voiceEnabled == voiceEnabled
      ensures enqueued == [] && sent == []
    {
      this.voiceEnabled := voiceEnabled;
      paused := false;
      runningStep := 0;
      currentResponse := [];
      outQueue := [];
      enqueued := [];
      sent := [];
    }

    /**
     * The response loop of `startup`, over the frames the stream delivers. It
     * returns after the first frame at which the handshake is done, or, when the
     * stream ends first, with `StreamClosed`. Its accumulator is never reset.
     */
    method Startup(ms: seq<Message>) returns (outcome: HandshakeOutcome)
      ensures outcome.Ready? ==> 1 <= outcome.consumed <= |ms| && HandshakeDoneAt(ms, outcome.consumed - 1)
      ensures forall k :: 0 <= k < (if outcome.Ready? then outcome.consumed - 1 else |ms|) ==> !HandshakeDoneAt(ms, k)
    {
      var acc: seq<string> := [];
      var i := 0;
      while i < |ms|
        invariant 0 <= i <= |ms|
        invariant acc == AllTexts(ms[..i])
        invariant forall k :: 0 <= k < i ==> !HandshakeDoneAt(ms, k)
      {
        var m := ms[i];
        if m.serverContent.Some? {
          acc := CollectTexts(acc, m.serverContent.value.parts);
        }
        AllTextsSnoc(ms, i);
        assert acc == AllTexts(ms[..i + 1]);
        if Completes(m) && StartsWith(Concat(acc), HandshakePrefix) {
          assert HandshakeDoneAt(ms, i);
          return Ready(i + 1);
        }
        assert !HandshakeDoneAt(ms, i);
        i := i + 1;
      }
      return StreamClosed;
    }

    /**
     * One iteration of `listen_audio`; `frame` is what the device read returns.
     * While paused the read does not happen and `frame` is not looked at.
     */
    method ListenStep(frame: Bytes) returns (outcome: CaptureOutcome)
      requires Valid()
      modifies this
      ensures Valid()
      ensures (Snapshot(), outcome) == Capture(old(Snapshot()), frame)
      ensures enqueued == old(enqueued) + (if outcome.Enqueued? then [frame] else [])
      ensures sent == old(sent)
    {
      if paused {
        return Slept;
      }
      if runningStep > 1 {
        return Discarded;
      }
      var total, count := MeasureVolume(frame);
      if count == 0 {
        return Crashed;
      }
      var loud := total > VolumeThreshold * count;
      if loud && runningStep == 0 {
        runningStep := runningStep + 1;
      }
      outQueue := outQueue + [frame];
      enqueued := enqueued + [frame];
      return Enqueued(loud);
    }

    /** One iteration of `send_audio`; a `Sent` chunk is what goes out on the stream. */
    method SendStep() returns (outcome: TransmitOutcome)
      requires Valid()
      modifies this
      ensures Valid()
      ensures (Snapshot(), outcome) == Transmit(old(Snapshot()))
      ensures sent == old(sent) + (if outcome.Sent? then [outcome.chunk] else [])
      ensures enqueued == old(enqueued)
    {
      if paused {
        return Idle;
      }
      if outQueue == [] {
        return Blocked;
      }
      var chunk := outQueue[0];
      assert sent + [chunk] + outQueue[1..] == sent + outQueue;
      outQueue := outQueue[1..];
      sent := sent + [chunk];
      return Sent(chunk);
    }

    /**
     * One iteration of `receive_audio` on one decoded inbound frame. The report
     * carries the turn to display and the text to hand to speech synthesis, whose
     * failure the source catches without touching this state.
     */
    method ReceiveStep(msg: Message) returns (report: TurnReport)
      requires Valid()
      modifies this
      ensures Valid()
      ensures (Snapshot(), report) == Receive(old(Snapshot()), voiceEnabled, msg)
      ensures enqueued == old(enqueued) && sent == old(sent)
    {
      ReceiveKeepsInv(Snapshot(), voiceEnabled, msg);
      ghost var before := Snapshot();
      if runningStep == 1 {
        runningStep := runningStep + 1;
      }
      if msg.serverContent.Some? {
        currentResponse := CollectTexts(currentResponse, msg.serverContent.value.parts);
      }
      assert currentResponse == before.currentResponse + MessageTexts(msg);
      if Completes(msg) && currentResponse != [] {
        var text := Concat(currentResponse);
        var command := NoCommand;
        if Contains(ToLower(text), BreakPhrase) {
          paused := true;
          command := Pause;
        } else if Contains(ToLower(text), ContinuePhrase) && paused {
          paused := false;
          command := Resume;
        }
        assert command == Recognize(text, before.paused);
        assert paused == ApplyCommand(before.paused, command);
        var speech := None;
        if voiceEnabled && !paused {
          speech := Some(Strip(FirstSegment(text, Delimiter)));
        }
        currentResponse := [];
        runningStep := if !paused then 0 else 2;
        report := Turn(text, command, speech);
      } else {
        report := NoTurn;
      }
    }
  }
}
