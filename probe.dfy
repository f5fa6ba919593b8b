/**
 * The classification half of `check_site` (app.py:111-123). The HTTP GET
 * itself, its 10 s timeout and the wall clock are outside the model: the
 * probe arrives as a value saying what the request produced.
 */
module Probe {
  import opened StatusRecords

  /**
   * What one request produced: a response with its HTTP status code and the
   * measured latency in hundredths of a millisecond, or an exception.
   */
  datatype ProbeResult = Responded(httpStatus: int, elapsed: nat) | Raised

  /** The status and response time handed to the aggregator. */
  datatype Outcome = Outcome(status: Status, responseTime: nat)

  /**
   * `up` exactly for status 200 (not any 2xx or 3xx); a response keeps its
   * measured latency whatever its status, and an exception gives `down` in 0.
   */
  function Classify(p: ProbeResult): (o: Outcome)
    ensures o.status == Up <==> p.Responded? && p.httpStatus == 200
    ensures p.Raised? ==> o == Outcome(Down, 0)
    ensures p.Responded? ==> o.responseTime == p.elapsed
  {
    match p
    case Responded(code, elapsed) => Outcome(if code == 200 then Up else Down, elapsed)
    case Raised => Outcome(Down, 0)
  }
}
