/** `wait_for_initialization`: in debug mode the manager follows the client's
    log (`tail -f`) and decides, line by line, whether the connection came up.
    The first line that carries the success marker wins; the first line that
    carries a failure marker (and not the success marker) loses; every other
    line is skipped. End of stream and a keyboard interrupt both lose. */
module Classifier {
  import opened PyText

  /** What one `readline()` on the log stream gives: a line (with its newline,
      so only the end of stream reads as the empty string), or the user's
      interrupt arriving while the manager waits for it. */
  datatype ReadEvent = Line(text: string) | Interrupt

  const SuccessMarker: string := "Initialization Sequence Completed"
  const FailureMarkers: seq<string> := ["AUTH_FAILED", "Connection refused", "No such file or directory"]

  /** `any(x in output for x in [...])` over the failure markers. */
  predicate HasFailureMarker(line: string)
  {
    exists m :: m in FailureMarkers && Contains(line, m)
  }

  /** The decision the loop reaches on the events from here on. */
  function Classify(events: seq<ReadEvent>): (connected: bool)
    ensures connected ==> exists k :: 0 <= k < |events| && events[k].Line? && Contains(events[k].text, SuccessMarker)
  {
    if events == [] then false
    else match events[0]
      case Interrupt => false
      case Line(text) =>
        if text == "" then false
        else if Contains(text, SuccessMarker) then true
        else if HasFailureMarker(text) then false
        else Classify(events[1..])
  }

  /** The loop of `wait_for_initialization`; running out of events is the end of stream. */
  method WaitForInitialization(events: seq<ReadEvent>) returns (connected: bool)
    ensures connected == Classify(events)
  {
    var i := 0;
    while i < |events|
      invariant 0 <= i <= |events|
      invariant Classify(events[i..]) == Classify(events)
      decreases |events| - i
    {
      assert events[i..][1..] == events[i + 1..];
      match events[i]
      case Interrupt =>
        return false;
      case Line(output) =>
        if output == "" {
          break;
        }
        if Contains(output, SuccessMarker) {
          return true;
        }
        if HasFailureMarker(output) {
          return false;
        }
      i := i + 1;
    }
    return false;
  }

  /** A line the loop reads and passes over. */
  predicate Skipped(e: ReadEvent)
  {
    e.Line? && e.text != "" && !Contains(e.text, SuccessMarker) && !HasFailureMarker(e.text)
  }

  /** A line carrying the success marker. */
  predicate Succeeds(e: ReadEvent)
  {
    e.Line? && Contains(e.text, SuccessMarker)
  }

  /** First match wins: once every event before `i` was skipped and event `i`
      is not, the outcome is decided by event `i` alone, and nothing after it
      is looked at. */
  lemma {:induction false} DecidedAt(events: seq<ReadEvent>, i: nat, rest: seq<ReadEvent>)
    requires i < |events| && !Skipped(events[i])
    requires forall j :: 0 <= j < i ==> Skipped(events[j])
    ensures Classify(events) == Succeeds(events[i])
    ensures Classify(events[..i + 1] + rest) == Classify(events)
  {
    if i > 0 {
      assert (events[..i + 1] + rest)[1..] == events[1..][..i] + rest;
      DecidedAt(events[1..], i - 1, rest);
    } else {
      assert (events[..1] + rest)[0] == events[0];
    }
  }

  /** A stream that only ever shows unrelated lines ends without a connection. */
  lemma {:induction false} EndOfStreamFails(events: seq<ReadEvent>)
    requires forall j :: 0 <= j < |events| ==> Skipped(events[j])
    ensures !Classify(events)
  {
    if events != [] {
      EndOfStreamFails(events[1..]);
    }
  }

  /** Both directions: the loop reports a connection exactly when some line
      carries the success marker and every line before it was skipped. */
  lemma ClassifyIff(events: seq<ReadEvent>)
    ensures Classify(events) <==>
      exists i :: 0 <= i < |events| && Succeeds(events[i]) && forall j :: 0 <= j < i ==> Skipped(events[j])
  {
    if Classify(events) {
      var i := FirstUnskipped(events);
      DecidedAt(events, i, []);
    }
    forall i | 0 <= i < |events| && Succeeds(events[i]) && forall j :: 0 <= j < i ==> Skipped(events[j])
      ensures Classify(events)
    {
      DecidedAt(events, i, []);
    }
  }

  /** A connected outcome comes from some line that was not skipped. */
  lemma {:induction false} FirstUnskipped(events: seq<ReadEvent>) returns (i: nat)
    requires Classify(events)
    ensures i < |events| && !Skipped(events[i])
    ensures forall j :: 0 <= j < i ==> Skipped(events[j])
  {
    if Skipped(events[0]) {
      var k := FirstUnskipped(events[1..]);
      i := k + 1;
    } else {
      i := 0;
    }
  }

  /** A failure marker stops the wait, unless the same line carries the success marker. */
  lemma FailureMarkerLoses(prefix: seq<ReadEvent>, line: string, marker: string, rest: seq<ReadEvent>)
    requires forall j :: 0 <= j < |prefix| ==> Skipped(prefix[j])
    requires marker in FailureMarkers && Contains(line, marker)
    ensures Classify(prefix + [Line(line)] + rest) == Contains(line, SuccessMarker)
  {
    var events := prefix + [Line(line)] + rest;
    assert events[|prefix|] == Line(line);
    DecidedAt(events, |prefix|, []);
  }

  /** An interrupt while waiting ends the wait without a connection. */
  lemma InterruptLoses(prefix: seq<ReadEvent>, rest: seq<ReadEvent>)
    requires forall j :: 0 <= j < |prefix| ==> Skipped(prefix[j])
    ensures !Classify(prefix + [Interrupt] + rest)
  {
    var events := prefix + [Interrupt] + rest;
    assert events[|prefix|] == Interrupt;
    DecidedAt(events, |prefix|, []);
  }

  /** The success marker anywhere in a line wins, whatever failure marker the
      same line carries, since the success test comes first. */
  lemma SuccessMarkerWins(prefix: seq<ReadEvent>, before: string, after: string, rest: seq<ReadEvent>)
    requires forall j :: 0 <= j < |prefix| ==> Skipped(prefix[j])
    ensures Classify(prefix + [Line(before + SuccessMarker + after)] + rest)
  {
    var events := prefix + [Line(before + SuccessMarker + after)] + rest;
    ContainsInFix(before, SuccessMarker, after);
    assert events[|prefix|] == Line(before + SuccessMarker + after);
    DecidedAt(events, |prefix|, []);
  }
}
