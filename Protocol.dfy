/**
 * Inbound frames of the bidirectional stream, already decoded from JSON. Only the
 * fields the session reads are kept: `serverContent.modelTurn.parts[].text` and
 * `serverContent.turnComplete`. A missing `modelTurn` or `parts` reads as no parts.
 */
module Protocol {
  import opened Wrappers

  /** One entry of `parts`; `text` is `None` when the part has no "text" key. */
  datatype Part = Part(text: Option<string>)

  datatype ServerContent = ServerContent(parts: seq<Part>, turnComplete: Option<bool>)

  /** `serverContent` is `None` when the frame has no "serverContent" key. */
  datatype Message = Message(serverContent: Option<ServerContent>)

  /** The texts of the parts that carry one, in the order the parts arrive. */
  function PartTexts(parts: seq<Part>): seq<string> {
    if parts == [] then []
    else (if parts[0].text.Some? then [parts[0].text.value] else []) + PartTexts(parts[1..])
  }

  function MessageTexts(m: Message): seq<string> {
    if m.serverContent.Some? then PartTexts(m.serverContent.value.parts) else []
  }

  /** `response["serverContent"]["turnComplete"]` exists and is true. */
  predicate Completes(m: Message) {
    m.serverContent.Some? && m.serverContent.value.turnComplete == Some(true)
  }

  /** The texts of a run of frames, frame after frame. */
  function AllTexts(ms: seq<Message>): seq<string> {
    if ms == [] then [] else MessageTexts(ms[0]) + AllTexts(ms[1..])
  }

  /** Collecting texts distributes over consecutive runs of parts. */
  lemma {:induction false} PartTextsAppend(a: seq<Part>, b: seq<Part>)
    ensures PartTexts(a + b) == PartTexts(a) + PartTexts(b)
  {
    if a == [] {
      assert a + b == b;
    } else {
      assert (a + b)[0] == a[0];
      assert (a + b)[1..] == a[1..] + b;
      PartTextsAppend(a[1..], b);
    }
  }

  /** Every collected text comes from a part, so there are never more texts than parts. */
  lemma {:induction false} PartTextsLength(parts: seq<Part>)
    ensures |PartTexts(parts)| <= |parts|
    ensures |PartTexts(parts)| == |parts| <==> forall k :: 0 <= k < |parts| ==> parts[k].text.Some?
  {
    if parts != [] {
      PartTextsLength(parts[1..]);
      if forall k :: 0 <= k < |parts[1..]| ==> parts[1..][k].text.Some? {
        if parts[0].text.Some? {
          forall k | 0 <= k < |parts| ensures parts[k].text.Some? {
            if k > 0 {
              assert parts[k] == parts[1..][k - 1];
            }
          }
        }
      } else {
        var k :| 0 <= k < |parts[1..]| && parts[1..][k].text.None?;
        assert parts[k + 1].text.None?;
      }
    }
  }

  lemma {:induction false} AllTextsAppend(a: seq<Message>, b: seq<Message>)
    ensures AllTexts(a + b) == AllTexts(a) + AllTexts(b)
  {
    if a == [] {
      assert a + b == b;
    } else {
      assert (a + b)[0] == a[0];
      assert (a + b)[1..] == a[1..] + b;
      AllTextsAppend(a[1..], b);
    }
  }

  /** The texts of the first `i + 1` frames are those of the first `i`, then those of frame `i`. */
  lemma AllTextsSnoc(ms: seq<Message>, i: nat)
    requires i < |ms|
    ensures AllTexts(ms[..i + 1]) == AllTexts(ms[..i]) + MessageTexts(ms[i])
  {
    AllTextsAppend(ms[..i], [ms[i]]);
    assert ms[..i + 1] == ms[..i] + [ms[i]];
    assert AllTexts([ms[i]]) == MessageTexts(ms[i]) + AllTexts([]);
  }

  /** The parts loop of the receive path: appends the text of each part that has one, in order (starter.py:253-255). */
  method CollectTexts(acc: seq<string>, parts: seq<Part>) returns (r: seq<string>)
    ensures r == acc + PartTexts(parts)
  {
    r := acc;
    var i := 0;
    while i < |parts|
      invariant 0 <= i <= |parts|
      invariant r == acc + PartTexts(parts[..i])
    {
      PartTextsAppend(parts[..i], [parts[i]]);
      assert parts[..i + 1] == parts[..i] + [parts[i]];
      if parts[i].text.Some? {
        r := r + [parts[i].text.value];
      }
      i := i + 1;
    }
    assert parts[..i] == parts;
  }
}
