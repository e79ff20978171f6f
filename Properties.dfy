/**
 * What the steps of `Transitions` guarantee: the rules of one step of each loop,
 * and, over any interleaving of whole steps of the three loops, the session
 * invariant, FIFO order of the audio queue, silence while paused and the
 * assembly of turns in arrival order; then the handshake.
 */
module Properties {
  import opened Wrappers
  import opened Text
  import opened Pcm
  import opened Protocol
  import opened Transitions

  // ---------------------------------------------------------------------------
  // One step of the receive loop

  /**
   * A turn is reported exactly when the frame completes a turn and the accumulator,
   * with the frame's own texts added, is not empty. Its text is the concatenation of
   * the accumulator, and the step ends with an empty accumulator and the step value
   * 2 if paused, 0 if not.
   */
  lemma TurnCompletion(s: State, voice: bool, m: Message)
    ensures var (next, report) := Receive(s, voice, m);
      var acc := s.currentResponse + MessageTexts(m);
      (report.Turn? <==> Completes(m) && acc != []) &&
      (report.Turn? ==>
        report.text == Concat(acc) &&
        next.currentResponse == [] &&
        next.runningStep == (if next.paused then 2 else 0) &&
        next.outQueue == s.outQueue)
  {
  }

  /** A frame that reports no turn keeps the pause flag and only appends its texts. */
  lemma NoTurnKeepsState(s: State, voice: bool, m: Message)
    requires Receive(s, voice, m).1 == NoTurn
    ensures var next := Receive(s, voice, m).0;
      next.paused == s.paused &&
      next.currentResponse == s.currentResponse + MessageTexts(m) &&
      next.outQueue == s.outQueue
  {
  }

  /**
   * After a turn the session is paused exactly when the lower-cased turn contains
   * the break phrase, or it was paused and the turn does not contain the continue phrase.
   */
  lemma PauseRule(s: State, voice: bool, m: Message)
    requires Receive(s, voice, m).1.Turn?
    ensures var (next, report) := Receive(s, voice, m);
      var low := ToLower(report.text);
      next.paused <==> Contains(low, BreakPhrase) || (s.paused && !Contains(low, ContinuePhrase))
  {
  }

  /** The break phrase pauses the session even when the continue phrase is present too. */
  lemma BreakWins(s: State, voice: bool, m: Message)
    requires Receive(s, voice, m).1.Turn?
    requires Contains(ToLower(Receive(s, voice, m).1.text), BreakPhrase)
    ensures Receive(s, voice, m).0.paused
    ensures Receive(s, voice, m).1.command == Pause
  {
  }

  /**
   * The command test ignores the case of ASCII letters: two turns that differ only
   * in letter case carry the same command, whether or not the session is paused.
   */
  lemma RecognizeCaseBlind(s: string, t: string, paused: bool)
    requires |s| == |t| && forall i :: 0 <= i < |s| ==> SameUpToCase(s[i], t[i])
    ensures ToLower(s) == ToLower(t)
    ensures Recognize(s, paused) == Recognize(t, paused)
  {
    ToLowerCaseBlind(s, t);
  }

  /** While not paused, the continue phrase changes nothing. */
  lemma ContinueNeedsPause(s: State, voice: bool, m: Message)
    requires !s.paused && Receive(s, voice, m).1.Turn?
    requires !Contains(ToLower(Receive(s, voice, m).1.text), BreakPhrase)
    ensures !Receive(s, voice, m).0.paused
    ensures Receive(s, voice, m).1.command == NoCommand
  {
  }

  /**
   * Speech is requested exactly when a voice client is configured and the session
   * is not paused after the command; what is spoken is the turn up to its first
   * "---", stripped, and with no "---" it is the whole turn stripped.
   */
  lemma SpeechRule(s: State, voice: bool, m: Message)
    requires Receive(s, voice, m).1.Turn?
    ensures var (next, report) := Receive(s, voice, m);
      (report.speech.Some? <==> voice && !next.paused) &&
      (report.speech.Some? ==> report.speech.value == Strip(FirstSegment(report.text, Delimiter))) &&
      (report.speech.Some? && !Contains(report.text, Delimiter) ==> report.speech.value == Strip(report.text))
  {
    var report := Receive(s, voice, m).1;
    FirstSegmentWhole(report.text, Delimiter);
  }

  /**
   * The spoken text is a slice of the turn that lies before the first "---",
   * with only whitespace cut off around it.
   */
  lemma SpokenPartSlice(text: string)
    ensures var seg := FirstSegment(text, Delimiter); var r := SpokenPart(text);
      seg == text[..|seg|] &&
      (forall i :: 0 <= i < |seg| ==> !OccursAt(text, Delimiter, i)) &&
      (exists i :: OccursAt(seg, r, i) && AllSpace(seg[..i]) && AllSpace(seg[i + |r|..]))
  {
    var seg := FirstSegment(text, Delimiter);
    FirstSegmentSpec(text, Delimiter);
    StripSlice(seg);
  }

  // ---------------------------------------------------------------------------
  // One step of the capture loop and of the transmit loop

  /**
   * While paused, capture changes nothing. When a response is under way, the frame
   * is dropped. Otherwise a non-empty frame is queued unchanged, whatever its
   * volume. The queue never grows by more than the one frame, and capture never
   * touches the pause flag or the accumulator.
   */
  lemma CaptureGating(s: State, frame: Bytes)
    ensures var (next, outcome) := Capture(s, frame);
      (s.paused ==> next == s && outcome == Slept) &&
      (!s.paused && s.runningStep > 1 ==> next == s && outcome == Discarded) &&
      (!s.paused && s.runningStep <= 1 && frame != [] ==>
        outcome.Enqueued? && next.outQueue == s.outQueue + [frame]) &&
      (next.outQueue == s.outQueue || next.outQueue == s.outQueue + [frame]) &&
      (next.outQueue != s.outQueue <==> outcome.Enqueued?) &&
      next.paused == s.paused && next.currentResponse == s.currentResponse
  {
  }

  /**
   * Transmit does nothing while paused or while the queue is empty; otherwise it
   * sends the head of the queue and removes it. Either way what it sends, followed
   * by what remains, is the queue it started with.
   */
  lemma TransmitRule(s: State)
    ensures var (next, outcome) := Transmit(s);
      (s.paused ==> next == s && outcome == Idle) &&
      (!s.paused && s.outQueue != [] ==> outcome == Sent(s.outQueue[0]) && next.outQueue == s.outQueue[1..]) &&
      (if outcome.Sent? then [outcome.chunk] else []) + next.outQueue == s.outQueue &&
      next.(outQueue := s.outQueue) == s
  {
  }

  // ---------------------------------------------------------------------------
  // The step value

  /**
   * Capture raises the step only from 0 to 1, on a loud frame, and a loud frame
   * queued in step 0 always does.
   */
  lemma CaptureStepRise(s: State, frame: Bytes)
    ensures var (next, outcome) := Capture(s, frame);
      (next.runningStep > s.runningStep ==>
        s.runningStep == 0 && next.runningStep == 1 && outcome == Enqueued(true) && Loud(frame)) &&
      (!s.paused && s.runningStep == 0 && frame != [] && Loud(frame) ==> next.runningStep == 1)
  {
  }

  /**
   * Any inbound frame moves step 1 to 2; if it also completes a turn the step is then
   * reset. The step rises on an inbound frame only from 1 to 2, or to 2 by a turn
   * that leaves the session paused.
   */
  lemma ReceiveStepRise(s: State, voice: bool, m: Message)
    requires Inv(s)
    ensures var (next, report) := Receive(s, voice, m);
      (s.runningStep == 1 && report.NoTurn? ==> next.runningStep == 2) &&
      (next.runningStep > s.runningStep ==>
        (s.runningStep == 1 && next.runningStep == 2) ||
        (report.Turn? && next.paused && next.runningStep == 2))
  {
  }

  lemma ReceiveKeepsInv(s: State, voice: bool, m: Message)
    requires Inv(s)
    ensures Inv(Receive(s, voice, m).0)
  {
  }

  lemma CaptureKeepsInv(s: State, frame: Bytes)
    requires Inv(s)
    ensures Inv(Capture(s, frame).0)
  {
  }

  lemma TransmitKeepsInv(s: State)
    requires Inv(s)
    ensures Inv(Transmit(s).0)
  {
  }

  // ---------------------------------------------------------------------------
  // Interleavings of the three loops

  /** One iteration of one of the three loops. */
  datatype Event = Inbound(msg: Message) | Frame(data: Bytes) | SendTick

  /**
   * What one iteration does: the new state, the report of an inbound frame, the
   * frame it queued, the chunk it sent, and whether the capture loop crashed.
   */
  datatype StepResult = StepResult(next: State, reports: seq<TurnReport>, queued: seq<Bytes>, sent: seq<Bytes>, crashed: bool)

  function Step(s: State, voice: bool, e: Event): StepResult {
    match e
    case Inbound(m) =>
      var r := Receive(s, voice, m);
      StepResult(r.0, [r.1], [], [], false)
    case Frame(d) =>
      var r := Capture(s, d);
      StepResult(r.0, [], if r.1.Enqueued? then [d] else [], [], r.1 == Crashed)
    case SendTick =>
      var r := Transmit(s);
      StepResult(r.0, [], [], if r.1.Sent? then [r.1.chunk] else [], false)
  }

  /**
   * The outcome of a run of iterations: the state reached, the report of every
   * inbound frame, the frames queued and the chunks sent, in order, and whether
   * the capture loop crashed, which ends the session.
   */
  datatype Trace = Trace(final: State, turns: seq<TurnReport>, enqueued: seq<Bytes>, sent: seq<Bytes>, crashed: bool)

  function Run(s: State, voice: bool, evs: seq<Event>): Trace
    decreases |evs|
  {
    if evs == [] then Trace(s, [], [], [], false)
    else
      var r := Step(s, voice, evs[0]);
      if r.crashed then Trace(s, [], [], [], true)
      else
        var t := Run(r.next, voice, evs[1..]);
        Trace(t.final, r.reports + t.turns, r.queued + t.enqueued, r.sent + t.sent, t.crashed)
  }

  function InboundOf(e: Event): seq<Message> {
    if e.Inbound? then [e.msg] else []
  }

  /** The inbound frames of a run of iterations, in arrival order. */
  function Inbounds(evs: seq<Event>): seq<Message> {
    if evs == [] then [] else InboundOf(evs[0]) + Inbounds(evs[1..])
  }

  predicate NoTurns(turns: seq<TurnReport>) {
    forall k :: 0 <= k < |turns| ==> turns[k] == NoTurn
  }

  lemma StepKeepsInv(s: State, voice: bool, e: Event)
    requires Inv(s)
    ensures Inv(Step(s, voice, e).next)
  {
    match e
    case Inbound(m) => ReceiveKeepsInv(s, voice, m);
    case Frame(d) => CaptureKeepsInv(s, d);
    case SendTick => TransmitKeepsInv(s);
  }

  /** The session invariant holds throughout any interleaving. */
  lemma {:induction false} RunKeepsInv(s: State, voice: bool, evs: seq<Event>)
    requires Inv(s)
    ensures Inv(Run(s, voice, evs).final)
    decreases |evs|
  {
    if evs != [] {
      var r := Step(s, voice, evs[0]);
      if !r.crashed {
        StepKeepsInv(s, voice, evs[0]);
        RunKeepsInv(r.next, voice, evs[1..]);
      }
    }
  }

  /** One iteration sends the head of the queue, queues at its tail, or neither. */
  lemma StepFifo(s: State, voice: bool, e: Event)
    ensures var r := Step(s, voice, e);
      r.sent + r.next.outQueue == s.outQueue + r.queued
  {
    match e
    case Inbound(m) =>
    case Frame(d) => CaptureGating(s, d);
    case SendTick => TransmitRule(s);
  }

  /**
   * FIFO: the chunks sent, followed by what is still queued, are exactly the frames
   * that were queued, in the order they were queued; nothing is dropped or repeated.
   */
  lemma {:induction false} FifoOrder(s: State, voice: bool, evs: seq<Event>)
    ensures var t := Run(s, voice, evs);
      t.sent + t.final.outQueue == s.outQueue + t.enqueued
    decreases |evs|
  {
    if evs != [] {
      var r := Step(s, voice, evs[0]);
      if !r.crashed {
        var t := Run(r.next, voice, evs[1..]);
        FifoOrder(r.next, voice, evs[1..]);
        StepFifo(s, voice, evs[0]);
        FifoCompose(s.outQueue, r.sent, r.next.outQueue, r.queued, t.sent, t.final.outQueue, t.enqueued);
      }
    }
  }

  /** Two FIFO stretches, the second starting from the queue the first ends with, make one. */
  lemma FifoCompose<T>(q0: seq<T>, sent1: seq<T>, q1: seq<T>, queued1: seq<T>, sent2: seq<T>, q2: seq<T>, queued2: seq<T>)
    requires sent1 + q1 == q0 + queued1
    requires sent2 + q2 == q1 + queued2
    ensures (sent1 + sent2) + q2 == q0 + (queued1 + queued2)
  {
    calc {
      (sent1 + sent2) + q2;
      sent1 + (sent2 + q2);
      sent1 + (q1 + queued2);
      (sent1 + q1) + queued2;
      (q0 + queued1) + queued2;
    }
  }

  /** Hence the chunks sent are a prefix of everything that was ever queued. */
  lemma SentIsPrefix(s: State, voice: bool, evs: seq<Event>)
    ensures var t := Run(s, voice, evs);
      |t.sent| <= |s.outQueue + t.enqueued| &&
      t.sent == (s.outQueue + t.enqueued)[..|t.sent|]
  {
    FifoOrder(s, voice, evs);
    var t := Run(s, voice, evs);
    assert (t.sent + t.final.outQueue)[..|t.sent|] == t.sent;
  }

  /**
   * While paused and with no inbound frame, nothing at all happens: no frame is
   * read into the queue, nothing is sent, and the state stays as it was.
   */
  lemma {:induction false} PausedIsSilent(s: State, voice: bool, evs: seq<Event>)
    requires s.paused
    requires Inbounds(evs) == []
    ensures var t := Run(s, voice, evs);
      t.final == s && t.enqueued == [] && t.sent == [] && !t.crashed
    decreases |evs|
  {
    if evs != [] {
      assert InboundOf(evs[0]) == [];
      CaptureGating(s, if evs[0].Frame? then evs[0].data else []);
      TransmitRule(s);
      PausedIsSilent(s, voice, evs[1..]);
    }
  }

  /** One iteration that reports no turn only appends the texts of its inbound frame. */
  lemma StepAccumulates(s: State, voice: bool, e: Event)
    requires NoTurns(Step(s, voice, e).reports)
    ensures var r := Step(s, voice, e);
      r.next.currentResponse == s.currentResponse + AllTexts(InboundOf(e)) &&
      r.next.paused == s.paused
  {
    match e
    case Inbound(m) =>
      assert Step(s, voice, e).reports[0] == NoTurn;
      NoTurnKeepsState(s, voice, m);
      assert AllTexts([m]) == MessageTexts(m) + AllTexts([]);
    case Frame(d) => CaptureGating(s, d);
    case SendTick => TransmitRule(s);
  }

  lemma AppendCompose<T>(a0: seq<T>, a1: seq<T>, a2: seq<T>, x: seq<T>, y: seq<T>)
    requires a1 == a0 + x && a2 == a1 + y
    ensures a2 == a0 + (x + y)
  {
  }

  lemma NoTurnsSplit(a: seq<TurnReport>, b: seq<TurnReport>)
    requires NoTurns(a + b)
    ensures NoTurns(a) && NoTurns(b)
  {
    forall k | 0 <= k < |a| ensures a[k] == NoTurn {
      assert a[k] == (a + b)[k];
    }
    forall k | 0 <= k < |b| ensures b[k] == NoTurn {
      assert b[k] == (a + b)[|a| + k];
    }
  }

  /**
   * As long as no turn is reported, the accumulator is what it was followed by the
   * texts of every inbound frame in arrival order, whatever the other two loops do,
   * and the session stays paused or unpaused as it was.
   */
  lemma {:induction false} AccumulatorInArrivalOrder(s: State, voice: bool, evs: seq<Event>)
    requires !Run(s, voice, evs).crashed
    requires NoTurns(Run(s, voice, evs).turns)
    ensures var t := Run(s, voice, evs);
      t.final.currentResponse == s.currentResponse + AllTexts(Inbounds(evs)) &&
      t.final.paused == s.paused
    decreases |evs|
  {
    if evs != [] {
      var r := Step(s, voice, evs[0]);
      assert !r.crashed;
      var t := Run(r.next, voice, evs[1..]);
      assert Run(s, voice, evs) == Trace(t.final, r.reports + t.turns, r.queued + t.enqueued, r.sent + t.sent, t.crashed);
      NoTurnsSplit(r.reports, t.turns);
      StepAccumulates(s, voice, evs[0]);
      AccumulatorInArrivalOrder(r.next, voice, evs[1..]);
      assert Inbounds(evs) == InboundOf(evs[0]) + Inbounds(evs[1..]);
      AllTextsAppend(InboundOf(evs[0]), Inbounds(evs[1..]));
      AppendCompose(s.currentResponse, r.next.currentResponse, t.final.currentResponse,
        AllTexts(InboundOf(evs[0])), AllTexts(Inbounds(evs[1..])));
    }
  }

  /**
   * Starting from an empty accumulator, the next turn's text is the concatenation,
   * in arrival order, of every text part received since, including those of the
   * completing frame; parts without text contribute nothing.
   */
  lemma TurnTextInArrivalOrder(s: State, voice: bool, evs: seq<Event>, m: Message)
    requires s.currentResponse == []
    requires !Run(s, voice, evs).crashed
    requires NoTurns(Run(s, voice, evs).turns)
    ensures var report := Receive(Run(s, voice, evs).final, voice, m).1;
      var texts := AllTexts(Inbounds(evs) + [m]);
      (report.Turn? <==> Completes(m) && texts != []) &&
      (report.Turn? ==> report.text == Concat(texts))
  {
    AccumulatorInArrivalOrder(s, voice, evs);
    AllTextsAppend(Inbounds(evs), [m]);
    assert AllTexts([m]) == MessageTexts(m) + AllTexts([]);
    var acc := Run(s, voice, evs).final.currentResponse;
    assert acc == AllTexts(Inbounds(evs));
    assert acc + MessageTexts(m) == AllTexts(Inbounds(evs) + [m]);
  }

  // ---------------------------------------------------------------------------
  // Concrete sessions

  function TextFrame(text: string): Message {
    Message(Some(ServerContent([Part(Some(text))], None)))
  }

  const CompleteFrame: Message := Message(Some(ServerContent([], Some(true))))

  lemma FrameTexts(text: string)
    ensures MessageTexts(TextFrame(text)) == [text]
    ensures MessageTexts(CompleteFrame) == []
  {
    var parts := [Part(Some(text))];
    assert parts[1..] == [];
    assert PartTexts(parts) == [text] + PartTexts([]);
  }

  lemma HelloHasNoBreak()
    ensures !Contains(ToLower("Hello---Olá"), BreakPhrase)
  {
    ContainsNeedsChar(ToLower("Hello---Olá"), BreakPhrase, 'b');
  }

  lemma HelloFirstSegment()
    ensures FirstSegment("Hello---Olá", Delimiter) == "Hello"
  {
    var text := "Hello---Olá";
    assert text[..5] == "Hello";
    assert '-' !in text[..5];
    forall i | 0 <= i < 5 ensures !OccursAt(text, Delimiter, i) {
      assert text[i] == text[..5][i];
      assert text[i..i + 3][0] == text[i];
    }
    assert text[5..8] == Delimiter;
    FirstSegmentAt(text, Delimiter, 5);
    assert text[..5] == "Hello";
  }

  /** "Hello---Olá" carries no command, and its spoken part is "Hello". */
  lemma BilingualText()
    ensures Recognize("Hello---Olá", false) == NoCommand
    ensures SpokenPart("Hello---Olá") == "Hello"
  {
    HelloHasNoBreak();
    HelloFirstSegment();
    StripKeeps("Hello");
  }

  /** A frame with one text part only appends that text (and ends step 1). */
  lemma TextFrameAppends(s: State, voice: bool, text: string)
    ensures Receive(s, voice, TextFrame(text)) ==
      (s.(runningStep := if s.runningStep == 1 then 2 else s.runningStep,
          currentResponse := s.currentResponse + [text]), NoTurn)
  {
    var parts := [Part(Some(text))];
    assert parts[1..] == [];
    assert PartTexts(parts) == [text] + PartTexts([]);
    assert MessageTexts(TextFrame(text)) == [text];
    assert !Completes(TextFrame(text));
  }

  /** A bare completion marker closes a non-empty accumulator into a turn. */
  lemma CompleteFrameCloses(s: State, voice: bool)
    requires s.currentResponse != []
    ensures var text := Concat(s.currentResponse);
      var command := Recognize(text, s.paused);
      var paused := ApplyCommand(s.paused, command);
      Receive(s, voice, CompleteFrame) ==
        (State(paused, if paused then 2 else 0, [], s.outQueue),
         Turn(text, command, if voice && !paused then Some(SpokenPart(text)) else None))
  {
    assert MessageTexts(CompleteFrame) == [];
    assert s.currentResponse + [] == s.currentResponse;
  }

  /** A reply "Hello---Olá" is displayed whole and only "Hello" is spoken. */
  lemma BilingualReplyScenario()
    ensures var s1 := Receive(Initial, true, TextFrame("Hello---Olá"));
      var s2 := Receive(s1.0, true, CompleteFrame);
      s1.1 == NoTurn &&
      s2.1 == Turn("Hello---Olá", NoCommand, Some("Hello")) &&
      s2.0 == Initial
  {
    var text := "Hello---Olá";
    TextFrameAppends(Initial, true, text);
    var s1 := State(false, 0, [text], []);
    CompleteFrameCloses(s1, true);
    assert Concat([text]) == text;
    BilingualText();
  }

  lemma BreakText()
    ensures Recognize("Can I have a break, sure.", false) == Pause
  {
    assert ToLower("Can I have a break, sure.")[..|BreakPhrase|] == BreakPhrase;
  }

  lemma ResumeText()
    ensures Recognize("OK let's continue now", true) == Resume
  {
    var resumeText := "OK let's continue now";
    assert ToLower(resumeText)[..|ContinuePhrase|] == ContinuePhrase;
    ContainsNeedsChar(ToLower(resumeText), BreakPhrase, 'b');
  }

  /**
   * "Can I have a break, sure." pauses the session, which then neither queues nor
   * sends anything until "OK let's continue now" resumes it.
   */
  lemma PauseResumeScenario(frames: seq<Event>)
    requires Inbounds(frames) == []
    ensures var paused := Receive(Receive(Initial, false, TextFrame("Can I have a break, sure.")).0, false, CompleteFrame);
      var idle := Run(paused.0, false, frames);
      var resumed := Receive(Receive(idle.final, false, TextFrame("OK let's continue now")).0, false, CompleteFrame);
      paused.1.Turn? && paused.1.command == Pause && paused.0.paused &&
      idle.final == paused.0 && idle.enqueued == [] && idle.sent == [] &&
      resumed.1.Turn? && resumed.1.command == Resume && !resumed.0.paused && resumed.0.runningStep == 0
  {
    var breakText := "Can I have a break, sure.";
    TextFrameAppends(Initial, false, breakText);
    CompleteFrameCloses(State(false, 0, [breakText], []), false);
    assert Concat([breakText]) == breakText;
    BreakText();
    var pausedState := State(true, 2, [], []);
    PausedIsSilent(pausedState, false, frames);
    var resumeText := "OK let's continue now";
    TextFrameAppends(pausedState, false, resumeText);
    CompleteFrameCloses(State(true, 2, [resumeText], []), false);
    assert Concat([resumeText]) == resumeText;
    ResumeText();
  }

  // ---------------------------------------------------------------------------
  // The handshake

  /**
   * The handshake accumulator is never reset, so once the text received so far has
   * two characters and does not begin with "OK", no later frame can end the handshake.
   */
  lemma HandshakeStuck(ms: seq<Message>, k: nat)
    requires k <= |ms|
    requires |Concat(AllTexts(ms[..k]))| >= |HandshakePrefix|
    requires !StartsWith(Concat(AllTexts(ms[..k])), HandshakePrefix)
    ensures forall j :: k <= j + 1 && j < |ms| ==> !HandshakeDoneAt(ms, j)
  {
    forall j | k <= j + 1 && j < |ms| ensures !HandshakeDoneAt(ms, j) {
      assert ms[..j + 1] == ms[..k] + ms[k..j + 1];
      AllTextsAppend(ms[..k], ms[k..j + 1]);
      ConcatAppend(AllTexts(ms[..k]), AllTexts(ms[k..j + 1]));
      StartsWithExtend(Concat(AllTexts(ms[..k])), Concat(AllTexts(ms[k..j + 1])), HandshakePrefix);
    }
  }

  /** "OK" followed by a completion marker ends the handshake, at the second frame. */
  lemma HandshakeScenario()
    ensures !HandshakeDoneAt([TextFrame("OK"), CompleteFrame], 0)
    ensures HandshakeDoneAt([TextFrame("OK"), CompleteFrame], 1)
  {
    var ms := [TextFrame("OK"), CompleteFrame];
    assert ms[..2] == ms;
    assert AllTexts(ms) == ["OK"] + AllTexts([CompleteFrame]);
    assert Concat(["OK"]) == "OK";
  }

  /**
   * A reply shorter than two characters does not block the handshake: "O" then "K",
   * each closed by a completion marker, ends it at the second marker.
   */
  lemma ShortReplyDoesNotBlock()
    ensures var ms := [TextFrame("O"), CompleteFrame, TextFrame("K"), CompleteFrame];
      !HandshakeDoneAt(ms, 1) && HandshakeDoneAt(ms, 3)
  {
    TwoRepliesTexts("O", "K");
    assert Concat(["O"]) == "O" + Concat([]);
    assert Concat(["O", "K"]) == "O" + Concat(["K"]) by {
      assert ["O", "K"][1..] == ["K"];
    }
    assert Concat(["K"]) == "K" + Concat([]);
  }

  /** The texts of two replies, each closed by a completion marker, after the first reply and after both. */
  lemma TwoRepliesTexts(a: string, b: string)
    ensures var ms := [TextFrame(a), CompleteFrame, TextFrame(b), CompleteFrame];
      AllTexts(ms[..2]) == [a] && AllTexts(ms[..4]) == [a, b]
  {
    var ms := [TextFrame(a), CompleteFrame, TextFrame(b), CompleteFrame];
    FrameTexts(a);
    FrameTexts(b);
    assert ms[..0] == [];
    AllTextsSnoc(ms, 0);
    AllTextsSnoc(ms, 1);
    AllTextsSnoc(ms, 2);
    AllTextsSnoc(ms, 3);
  }

  /** A first reply "Sure" that is not "OK" keeps the handshake from ever ending, even when "OK" follows. */
  lemma HandshakeNeverEndsAfterOtherReply()
    ensures var ms := [TextFrame("Sure"), CompleteFrame, TextFrame("OK"), CompleteFrame];
      forall j :: 0 <= j < |ms| ==> !HandshakeDoneAt(ms, j)
  {
    var ms := [TextFrame("Sure"), CompleteFrame, TextFrame("OK"), CompleteFrame];
    assert ms[..1] == [TextFrame("Sure")];
    assert AllTexts(ms[..1]) == ["Sure"] + AllTexts([]);
    assert Concat(["Sure"]) == "Sure";
    assert "Sure"[..2][0] == 'S';
    HandshakeStuck(ms, 1);
    assert !HandshakeDoneAt(ms, 0);
  }
}
