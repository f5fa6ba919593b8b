/**
 * The status aggregator: the per-url record kept in `user.status_data` and the
 * update `update_site_status` applies to it after every check (app.py:125-162).
 *
 * Response times are naturals in hundredths of a millisecond, the resolution
 * of `round(..., 2)` on milliseconds. The uptime percentage and the average
 * response time are exact ratios (reals); the source rounds them to two
 * decimals, which is not modelled.
 */
module StatusRecords {
  import opened Wrappers
  import opened Sites

  /** The history keeps at most this many entries (app.py:147). */
  const HistoryLimit: nat := 100

  /** The two status strings 'up' and 'down'. */
  datatype Status = Up | Down

  /** One history entry: clock reading, status and response time. */
  datatype Entry = Entry(time: string, status: Status, responseTime: nat)

  /** The dictionary `user.status_data[url]` with its eleven keys. */
  datatype StatusRecord = StatusRecord(
    name: string,
    history: seq<Entry>,
    uptimePercent: real,
    lastChecked: Option<string>,
    responseTime: nat,
    totalChecks: nat,
    upCount: nat,
    downCount: nat,
    avgResponseTime: real,
    lastStatus: Status,
    paused: bool)

  /** The record created on the first check of a url (app.py:127-139). */
  function Fresh(site: MonitoredSite, status: Status): StatusRecord
  {
    StatusRecord(site.name, [], 0.0, None, 0, 0, 0, 0, 0.0, status, site.paused)
  }

  /** The record the update starts from: the stored one, or a fresh one. */
  function Prior(data: map<string, StatusRecord>, site: MonitoredSite, status: Status): StatusRecord
  {
    if site.url in data then data[site.url] else Fresh(site, status)
  }

  /** Response times of the `up` entries, in history order (app.py:161). */
  function SuccessTimes(h: seq<Entry>): seq<nat>
  {
    if h == [] then []
    else (if h[0].status == Up then [h[0].responseTime] else []) + SuccessTimes(h[1..])
  }

  function Sum(xs: seq<nat>): nat
  {
    if xs == [] then 0 else xs[0] + Sum(xs[1..])
  }

  /** The average of `xs`, and 0 when it is empty (app.py:162). */
  function Mean(xs: seq<nat>): real
  {
    if xs == [] then 0.0 else (Sum(xs) as real) / (|xs| as real)
  }

  /**
   * `up_count / total_checks * 100` (app.py:156); a record that has never been
   * checked holds the initial 0 of app.py:130.
   */
  function UptimePercent(up: nat, total: nat): real
  {
    if total == 0 then 0.0 else (up as real) / (total as real) * 100.0
  }

  function Min(a: nat, b: nat): nat
  {
    if a <= b then a else b
  }

  function Last(h: seq<Entry>): Entry
    requires h != []
  {
    h[|h| - 1]
  }

  /** The last `HistoryLimit` elements of `s` (all of `s` when it is shorter). */
  function Window(s: seq<Entry>): (w: seq<Entry>)
  {
    if |s| <= HistoryLimit then s else s[|s| - HistoryLimit..]
  }

  /** The history after appending `e` and dropping the oldest entry beyond the limit (app.py:142-148). */
  function Pushed(h: seq<Entry>, e: Entry): seq<Entry>
  {
    var appended := h + [e];
    if |appended| > HistoryLimit then appended[1..] else appended
  }

  /** The record after one check with outcome `e` (app.py:141-162). */
  function Recorded(prior: StatusRecord, paused: bool, e: Entry): StatusRecord
  {
    var history := Pushed(prior.history, e);
    var up := prior.upCount + (if e.status == Up then 1 else 0);
    var down := prior.downCount + (if e.status == Up then 0 else 1);
    var total := prior.totalChecks + 1;
    prior.(history := history,
           totalChecks := total,
           upCount := up,
           downCount := down,
           uptimePercent := UptimePercent(up, total),
           lastChecked := Some(e.time),
           responseTime := e.responseTime,
           lastStatus := e.status,
           paused := paused,
           avgResponseTime := Mean(SuccessTimes(history)))
  }

  /**
   * The record invariant: the counters add up, the history holds the last
   * min(total, 100) checks, the retained successes and failures are no more
   * than the all-time counts, the derived fields are recomputed from the
   * counters and the history, and the `last_*` fields describe the newest entry.
   */
  ghost predicate RecordValid(r: StatusRecord)
  {
    && r.totalChecks == r.upCount + r.downCount
    && |r.history| == Min(r.totalChecks, HistoryLimit)
    && |SuccessTimes(r.history)| <= r.upCount
    && |r.history| - |SuccessTimes(r.history)| <= r.downCount
    && r.uptimePercent == UptimePercent(r.upCount, r.totalChecks)
    && r.avgResponseTime == Mean(SuccessTimes(r.history))
    && (r.totalChecks > 0 ==>
          && r.history != []
          && r.lastStatus == Last(r.history).status
          && r.responseTime == Last(r.history).responseTime
          && r.lastChecked == Some(Last(r.history).time))
  }

  /** Every record of a user's status data satisfies the record invariant. */
  ghost predicate RecordsValid(data: map<string, StatusRecord>)
  {
    forall url :: url in data ==> RecordValid(data[url])
  }

  /** Storing the result of one check keeps every record valid. */
  lemma StoreRecorded(data: map<string, StatusRecord>, site: MonitoredSite, status: Status, e: Entry)
    requires RecordsValid(data)
    ensures RecordsValid(data[site.url := Recorded(Prior(data, site, status), site.paused, e)])
  {
    FreshValid(site, status);
    RecordedValid(Prior(data, site, status), site.paused, e);
  }

  // ---------------------------------------------------------------------
  // Facts about the retained successes
  // ---------------------------------------------------------------------

  lemma {:induction false} SuccessTimesBound(h: seq<Entry>)
    ensures |SuccessTimes(h)| <= |h|
  {
    if h != [] {
      SuccessTimesBound(h[1..]);
    }
  }

  lemma {:induction false} SuccessTimesConcat(a: seq<Entry>, b: seq<Entry>)
    ensures SuccessTimes(a + b) == SuccessTimes(a) + SuccessTimes(b)
  {
    if a == [] {
      assert a + b == b;
    } else {
      var head := if a[0].status == Up then [a[0].responseTime] else [];
      assert (a + b)[0] == a[0];
      assert (a + b)[1..] == a[1..] + b;
      assert SuccessTimes(a + b) == head + SuccessTimes(a[1..] + b);
      assert SuccessTimes(a) == head + SuccessTimes(a[1..]);
      SuccessTimesConcat(a[1..], b);
    }
  }

  lemma SuccessTimesAppend(h: seq<Entry>, e: Entry)
    ensures SuccessTimes(h + [e]) == SuccessTimes(h) + (if e.status == Up then [e.responseTime] else [])
  {
    SuccessTimesConcat(h, [e]);
    assert [e][1..] == [];
  }

  /** Every entry is `up` with the same time `t`: the successes are all `t`. */
  lemma {:induction false} SuccessTimesAllUp(h: seq<Entry>, t: nat)
    requires forall i :: 0 <= i < |h| ==> h[i].status == Up && h[i].responseTime == t
    ensures |SuccessTimes(h)| == |h|
    ensures forall i :: 0 <= i < |h| ==> SuccessTimes(h)[i] == t
  {
    if h != [] {
      SuccessTimesAllUp(h[1..], t);
    }
  }

  /** No entry is `up`: there are no successes. */
  lemma {:induction false} SuccessTimesAllDown(h: seq<Entry>)
    requires forall i :: 0 <= i < |h| ==> h[i].status == Down
    ensures SuccessTimes(h) == []
  {
    if h != [] {
      SuccessTimesAllDown(h[1..]);
    }
  }

  lemma {:induction false} SumConstant(xs: seq<nat>, t: nat)
    requires forall i :: 0 <= i < |xs| ==> xs[i] == t
    ensures Sum(xs) == |xs| * t
  {
    if xs != [] {
      SumConstant(xs[1..], t);
    }
  }

  /** The mean of equal values is that value. */
  lemma MeanConstant(xs: seq<nat>, t: nat)
    requires xs != []
    requires forall i :: 0 <= i < |xs| ==> xs[i] == t
    ensures Mean(xs) == t as real
  {
    SumConstant(xs, t);
    var n := |xs| as real;
    assert Sum(xs) as real == n * (t as real);
  }

  // ---------------------------------------------------------------------
  // One update
  // ---------------------------------------------------------------------

  /** A ratio of a part to a positive whole lies in [0, 1], with 1 only for the whole and 0 only for nothing. */
  lemma RatioInUnit(part: real, whole: real)
    requires 0.0 <= part <= whole && whole > 0.0
    ensures 0.0 <= part / whole <= 1.0
    ensures part / whole == 1.0 <==> part == whole
    ensures part / whole == 0.0 <==> part == 0.0
  {
    var q := part / whole;
    assert q * whole == part;
    assert (1.0 - q) * whole == whole - part;
  }

  /** The uptime percentage lies in [0, 100] and is 100 exactly when no check failed. */
  lemma UptimeInRange(up: nat, total: nat)
    requires up <= total
    ensures 0.0 <= UptimePercent(up, total) <= 100.0
    ensures total > 0 ==> (UptimePercent(up, total) == 100.0 <==> up == total)
    ensures total > 0 ==> (UptimePercent(up, total) == 0.0 <==> up == 0)
  {
    if total > 0 {
      RatioInUnit(up as real, total as real);
    }
  }

  /**
   * A consistent record's uptime lies in [0, 100]; once checked, it is 100
   * exactly when no check ever failed and 0 exactly when none succeeded.
   */
  lemma ValidUptimeInRange(r: StatusRecord)
    requires RecordValid(r)
    ensures 0.0 <= r.uptimePercent <= 100.0
    ensures r.totalChecks > 0 ==> (r.uptimePercent == 100.0 <==> r.downCount == 0)
    ensures r.totalChecks > 0 ==> (r.uptimePercent == 0.0 <==> r.upCount == 0)
  {
    UptimeInRange(r.upCount, r.totalChecks);
  }

  /**
   * One check adds one to `total_checks` and to exactly one of `up_count` and
   * `down_count`, appends the outcome as the newest entry, drops the oldest
   * entry exactly when the history was full, and sets the `last_*` fields;
   * the name given at creation is kept.
   */
  lemma RecordedStep(prior: StatusRecord, paused: bool, e: Entry)
    requires |prior.history| <= HistoryLimit
    ensures var r := Recorded(prior, paused, e);
      && r.totalChecks == prior.totalChecks + 1
      && (e.status == Up ==> r.upCount == prior.upCount + 1 && r.downCount == prior.downCount)
      && (e.status == Down ==> r.downCount == prior.downCount + 1 && r.upCount == prior.upCount)
      && |r.history| <= HistoryLimit
      && r.history[|r.history| - 1] == e
      && (|prior.history| < HistoryLimit ==> r.history == prior.history + [e])
      && (|prior.history| == HistoryLimit ==> r.history == prior.history[1..] + [e])
      && r.lastStatus == e.status && r.responseTime == e.responseTime
      && r.lastChecked == Some(e.time) && r.paused == paused && r.name == prior.name
  {
  }

  /** One check preserves the record invariant. */
  lemma RecordedValid(prior: StatusRecord, paused: bool, e: Entry)
    requires RecordValid(prior)
    ensures RecordValid(Recorded(prior, paused, e))
  {
    var r := Recorded(prior, paused, e);
    var h := prior.history;
    var appended := h + [e];
    SuccessTimesAppend(h, e);
    SuccessTimesBound(h);
    if |appended| > HistoryLimit {
      assert appended == [h[0]] + appended[1..];
      SuccessTimesConcat([h[0]], appended[1..]);
      assert [h[0]][1..] == [];
      assert r.history == appended[1..];
    }
  }

  /** The record a fresh url starts from satisfies the invariant. */
  lemma FreshValid(site: MonitoredSite, status: Status)
    ensures RecordValid(Fresh(site, status))
    ensures Fresh(site, status).totalChecks == 0 && Fresh(site, status).history == []
  {
  }

  /**
   * The example of two checks: a 120 ms success on a new url, then a timeout.
   * The failure halves the uptime but leaves the average latency alone.
   */
  lemma SuccessThenTimeout(site: MonitoredSite, t1: string, t2: string)
    ensures var r1 := Recorded(Fresh(site, Up), site.paused, Entry(t1, Up, 12000));
      && r1.totalChecks == 1 && r1.upCount == 1 && r1.downCount == 0
      && r1.uptimePercent == 100.0 && r1.avgResponseTime == 12000.0
    ensures var r1 := Recorded(Fresh(site, Up), site.paused, Entry(t1, Up, 12000));
      var r2 := Recorded(r1, site.paused, Entry(t2, Down, 0));
      && r2.totalChecks == 2 && r2.upCount == 1 && r2.downCount == 1
      && r2.uptimePercent == 50.0 && r2.avgResponseTime == 12000.0
  {
    var r1 := Recorded(Fresh(site, Up), site.paused, Entry(t1, Up, 12000));
    assert r1.history == [Entry(t1, Up, 12000)];
    assert r1.history[1..] == [];
    assert SuccessTimes(r1.history) == [12000];
    assert [12000][1..] == [];
    assert Sum([12000]) == 12000;
    var r2 := Recorded(r1, site.paused, Entry(t2, Down, 0));
    SuccessTimesAppend(r1.history, Entry(t2, Down, 0));
  }
}
