/** The analysis at the end of `check_datasource_health`: what a health check
    says about the probed port, from the text Grafana answered (or the transport
    error) and how long the check took. */
module VerdictClassifier {
  import opened Wrappers
  import opened PyText

  /** The SQL Server client got an answer it could not read: something listens. */
  const PacketMarker: string := "invalid packet size"
  /** The SQL Server client could not connect. */
  const RefusedMarker: string := "failed to connect to server"
  /** Seconds below which a failure counts as a refusal (closed port). */
  const ClosedBelow: real := 1.0
  /** Seconds from which a failure counts as a timeout (filtered port); the
      request itself gives up after 2 seconds. */
  const FilteredFrom: real := 2.0

  datatype Verdict = Open | Closed | Filtered | Unknown

  /** What the health request came back with: Grafana's answer, or the
      transport error `requests` raised. */
  datatype Outcome = Answered(text: string) | TransportError(message: string)

  /** The word written to the output file for a verdict. */
  function VerdictName(v: Verdict): (name: string)
    ensures name in {"open", "closed", "filtered", "unknown"}
  {
    match v
    case Open => "open"
    case Closed => "closed"
    case Filtered => "filtered"
    case Unknown => "unknown"
  }

  /** Distinct verdicts are written as distinct words, so a line of the output
      file names its verdict unambiguously. */
  lemma VerdictNameInjective(v: Verdict, w: Verdict)
    requires VerdictName(v) == VerdictName(w)
    ensures v == w
  {
  }

  /** The classification as written: for an answer naming the connection
      failure, an elapsed time from 1 up to 2 seconds falls through every branch
      and the function returns None. */
  function ClassifyAsWritten(outcome: Outcome, elapsed: real): (v: Option<Verdict>)
    ensures v.None? <==>
      && outcome.Answered?
      && !Contains(outcome.text, PacketMarker) && Contains(outcome.text, RefusedMarker)
      && ClosedBelow <= elapsed < FilteredFrom
  {
    match outcome
    case Answered(text) =>
      if Contains(text, PacketMarker) then Some(Open)
      else if Contains(text, RefusedMarker) then
        if elapsed < ClosedBelow then Some(Closed)
        else if elapsed >= FilteredFrom then Some(Filtered)
        else None
      else Some(Unknown)
    case TransportError(_) =>
      if elapsed < ClosedBelow then Some(Closed)
      else if elapsed >= FilteredFrom then Some(Filtered)
      else Some(Unknown)
  }

  /** Whether the outcome is a connection failure whose timing tells the port's
      state: a transport error, or an answer naming the failure (and not the
      packet-size error, which is checked first). */
  predicate TimedFailure(outcome: Outcome) {
    match outcome
    case Answered(text) => !Contains(text, PacketMarker) && Contains(text, RefusedMarker)
    case TransportError(_) => true
  }

  /** The classification with the gap closed the way the transport-error branch
      closes it: a connection failure of 1 up to 2 seconds is `unknown`. */
  function Classify(outcome: Outcome, elapsed: real): (v: Verdict)
    ensures v == Open <==> outcome.Answered? && Contains(outcome.text, PacketMarker)
    ensures v == Closed <==> TimedFailure(outcome) && elapsed < ClosedBelow
    ensures v == Filtered <==> TimedFailure(outcome) && elapsed >= FilteredFrom
    ensures v == Unknown <==>
      || (outcome.Answered? && !Contains(outcome.text, PacketMarker) && !Contains(outcome.text, RefusedMarker))
      || (TimedFailure(outcome) && ClosedBelow <= elapsed < FilteredFrom)
  {
    match outcome
    case Answered(text) =>
      if Contains(text, PacketMarker) then Open
      else if Contains(text, RefusedMarker) then
        if elapsed < ClosedBelow then Closed
        else if elapsed >= FilteredFrom then Filtered
        else Unknown
      else Unknown
    case TransportError(_) =>
      if elapsed < ClosedBelow then Closed
      else if elapsed >= FilteredFrom then Filtered
      else Unknown
  }

  // ---------------------------------------------------------------------------
  // Facts about the classification

  /** The corrected classification agrees with the code wherever the code gives
      a verdict. */
  lemma ClassifyRefinesAsWritten(outcome: Outcome, elapsed: real)
    ensures ClassifyAsWritten(outcome, elapsed).Some? ==>
      ClassifyAsWritten(outcome, elapsed).value == Classify(outcome, elapsed)
    ensures ClassifyAsWritten(outcome, elapsed).None? ==> Classify(outcome, elapsed) == Unknown
  {
  }

  /** The gap, on a concrete input: the answer "failed to connect to server"
      after 1.5 seconds gets no verdict, so the caller's
      `status, response = check_datasource_health(...)` cannot unpack it. */
  lemma AsWrittenGap()
    ensures ClassifyAsWritten(Answered(RefusedMarker), 1.5) == None
    ensures Classify(Answered(RefusedMarker), 1.5) == Unknown
  {
    var r, p := RefusedMarker, PacketMarker;
    assert OccursAt(r, r, 0);
    assert |r| - |p| == 8 && p[0] == 'i' && p[1] == 'n';
    assert r[..10] == "failed to ";
    assert !Contains(r, p) by {
      forall i | 0 <= i <= |r| ensures !OccursAt(r, p, i) {
        if i <= |r| - |p| {
          var w := r[i..i + |p|];
          assert w[0] == r[..10][i] && w[1] == r[..10][i + 1];
        }
      }
    }
  }

  /** The packet-size marker wins over the connection-failure marker, whatever
      the timing. */
  lemma PacketMarkerFirst(text: string, elapsed: real)
    requires Contains(text, PacketMarker) && Contains(text, RefusedMarker)
    ensures Classify(Answered(text), elapsed) == Open
    ensures ClassifyAsWritten(Answered(text), elapsed) == Some(Open)
  {
  }

  /** Waiting longer never makes a failure look closed rather than filtered: a
      filtered verdict stays filtered for any longer time, a closed one stays
      closed for any shorter time. */
  lemma ClassifyMonotone(outcome: Outcome, e1: real, e2: real)
    requires e1 <= e2
    ensures Classify(outcome, e1) == Filtered ==> Classify(outcome, e2) == Filtered
    ensures Classify(outcome, e2) == Closed ==> Classify(outcome, e1) == Closed
    ensures Classify(outcome, e1) == Open <==> Classify(outcome, e2) == Open
  {
  }
}
