/**
 * What a run of consecutive checks on one url does to its record: the
 * all-time counters count every check, while the history and the average
 * response time only see the last 100.
 */
module Histories {
  import opened Sites
  import opened StatusRecords

  /** The record after recording the entries `es` one after another. */
  function Run(r: StatusRecord, paused: bool, es: seq<Entry>): StatusRecord
    decreases |es|
  {
    if es == [] then r else Run(Recorded(r, paused, es[0]), paused, es[1..])
  }

  /** The number of `up` entries in `es`. */
  function UpEntries(es: seq<Entry>): nat
  {
    |SuccessTimes(es)|
  }

  /** The counters grow by the number of checks of each kind, whatever the window. */
  lemma {:induction false} RunCounters(r: StatusRecord, paused: bool, es: seq<Entry>)
    ensures Run(r, paused, es).totalChecks == r.totalChecks + |es|
    ensures Run(r, paused, es).upCount == r.upCount + UpEntries(es)
    ensures Run(r, paused, es).downCount == r.downCount + (|es| - UpEntries(es))
    decreases |es|
  {
    SuccessTimesBound(es);
    if es != [] {
      RunCounters(Recorded(r, paused, es[0]), paused, es[1..]);
      SuccessTimesBound(es[1..]);
    }
  }

  lemma WindowOfWindow(s: seq<Entry>, t: seq<Entry>)
    ensures Window(Window(s) + t) == Window(s + t)
  {
    var w := Window(s);
    if |s| > HistoryLimit {
      var k := |s| - HistoryLimit;
      assert w + t == (s + t)[k..];
    } else {
      assert w == s;
    }
  }

  /** The history alone after pushing the entries `es` one after another. */
  function PushAll(h: seq<Entry>, es: seq<Entry>): seq<Entry>
    decreases |es|
  {
    if es == [] then h else PushAll(Pushed(h, es[0]), es[1..])
  }

  /** A run of checks changes the history only by pushing each new entry. */
  lemma {:induction false} RunHistory(r: StatusRecord, paused: bool, es: seq<Entry>)
    ensures Run(r, paused, es).history == PushAll(r.history, es)
    decreases |es|
  {
    if es != [] {
      var r' := Recorded(r, paused, es[0]);
      assert r'.history == Pushed(r.history, es[0]);
      RunHistory(r', paused, es[1..]);
    }
  }

  /** Pushing onto a history of at most 100 entries keeps the last 100. */
  lemma PushedWindow(h: seq<Entry>, e: Entry)
    requires |h| <= HistoryLimit
    ensures Pushed(h, e) == Window(h + [e])
  {
  }

  /** Pushing many entries onto a history of at most 100 keeps the last 100 of all. */
  lemma {:induction false} PushAllWindow(h: seq<Entry>, es: seq<Entry>)
    requires |h| <= HistoryLimit
    ensures PushAll(h, es) == Window(h + es)
    decreases |es|
  {
    if es == [] {
      assert h + es == h;
    } else {
      var h' := Pushed(h, es[0]);
      PushedWindow(h, es[0]);
      PushAllWindow(h', es[1..]);
      WindowOfWindow(h + [es[0]], es[1..]);
      assert h + [es[0]] + es[1..] == h + es;
    }
  }

  /**
   * First in, first out: after any run of checks the history is the last 100
   * entries of the old history followed by the new entries.
   */
  lemma RunWindow(r: StatusRecord, paused: bool, es: seq<Entry>)
    requires |r.history| <= HistoryLimit
    ensures Run(r, paused, es).history == Window(r.history + es)
  {
    RunHistory(r, paused, es);
    PushAllWindow(r.history, es);
  }

  /** Any run of checks preserves the record invariant. */
  lemma {:induction false} RunValid(r: StatusRecord, paused: bool, es: seq<Entry>)
    requires RecordValid(r)
    ensures RecordValid(Run(r, paused, es))
    decreases |es|
  {
    if es != [] {
      RecordedValid(r, paused, es[0]);
      RunValid(Recorded(r, paused, es[0]), paused, es[1..]);
    }
  }

  /**
   * A new url checked `n >= 1` times, every check a success in time `t`: every
   * check counts toward the uptime of 100, the history holds the last
   * min(n, 100), and the average is `t`.
   */
  lemma AllSuccesses(site: MonitoredSite, es: seq<Entry>, t: nat)
    requires es != []
    requires forall i :: 0 <= i < |es| ==> es[i].status == Up && es[i].responseTime == t
    ensures var r := Run(Fresh(site, Up), site.paused, es);
      && r.totalChecks == |es| && r.upCount == |es| && r.downCount == 0
      && |r.history| == Min(|es|, HistoryLimit)
      && r.uptimePercent == 100.0
      && r.avgResponseTime == t as real
  {
    var f := Fresh(site, Up);
    var r := Run(f, site.paused, es);
    FreshValid(site, Up);
    RunValid(f, site.paused, es);
    RunCounters(f, site.paused, es);
    SuccessTimesAllUp(es, t);
    RunWindow(f, site.paused, es);
    assert f.history + es == es;
    WindowAllUp(es, t);
    UptimeInRange(|es|, |es|);
  }

  /** The retained window of a run of equal successes averages to their time. */
  lemma WindowAllUp(es: seq<Entry>, t: nat)
    requires es != []
    requires forall i :: 0 <= i < |es| ==> es[i].status == Up && es[i].responseTime == t
    ensures Mean(SuccessTimes(Window(es))) == t as real
  {
    var w := Window(es);
    assert forall i :: 0 <= i < |w| ==> w[i].status == Up && w[i].responseTime == t;
    SuccessTimesAllUp(w, t);
    MeanConstant(SuccessTimes(w), t);
  }

  /** 150 successes of 50 ms: 100 entries kept, all 150 counted, the average still 50 ms. */
  lemma HundredFiftySuccesses(site: MonitoredSite, es: seq<Entry>)
    requires |es| == 150
    requires forall i :: 0 <= i < |es| ==> es[i].status == Up && es[i].responseTime == 5000
    ensures var r := Run(Fresh(site, Up), site.paused, es);
      && |r.history| == 100 && r.totalChecks == 150 && r.upCount == 150
      && r.uptimePercent == 100.0 && r.avgResponseTime == 5000.0
  {
    AllSuccesses(site, es, 5000);
  }

  /** Once at least 100 entries follow `h`, none of `h` is left in the window. */
  lemma WindowOfLongTail(h: seq<Entry>, es: seq<Entry>)
    requires |es| >= HistoryLimit
    ensures Window(h + es) == es[|es| - HistoryLimit..]
  {
    var all := h + es;
    assert all[|all| - HistoryLimit..] == es[|es| - HistoryLimit..];
  }

  /**
   * Successes that have left the window no longer count toward the average:
   * after 100 or more failures in a row the average is 0, although the
   * all-time `up_count` still holds them.
   */
  lemma EvictedSuccessesDropOut(r: StatusRecord, paused: bool, es: seq<Entry>)
    requires RecordValid(r)
    requires |es| >= HistoryLimit
    requires forall i :: 0 <= i < |es| ==> es[i].status == Down
    ensures Run(r, paused, es).avgResponseTime == 0.0
    ensures Run(r, paused, es).upCount == r.upCount
  {
    RunValid(r, paused, es);
    RunCounters(r, paused, es);
    SuccessTimesAllDown(es);
    RunWindow(r, paused, es);
    WindowOfLongTail(r.history, es);
    var w := es[|es| - HistoryLimit..];
    assert forall i :: 0 <= i < |w| ==> w[i].status == Down;
    SuccessTimesAllDown(w);
  }
}
