/**
 * Target selection of one tick of `monitor_sites` (app.py:101-109): every
 * unpaused site of every user, users in registry order and each user's sites
 * in list order. Dispatching the checks, gathering them and sleeping are
 * outside the model.
 */
module Scheduling {
  import opened Sites

  /** One scheduled check: the owning user's name and the site. */
  datatype Task = Task(owner: string, site: MonitoredSite)

  /** One user as the tick sees it: name and monitor list. */
  type Account = (string, seq<MonitoredSite>)

  /** The inner loop: the unpaused sites of one user, in list order. */
  function Unpaused(owner: string, ms: seq<MonitoredSite>): seq<Task>
  {
    if ms == [] then []
    else Unpaused(owner, ms[..|ms| - 1]) + (if ms[|ms| - 1].paused then [] else [Task(owner, ms[|ms| - 1])])
  }

  /** The outer loop: the tasks of all accounts, account by account. */
  function Selected(accounts: seq<Account>): seq<Task>
  {
    if accounts == [] then []
    else
      var last := accounts[|accounts| - 1];
      Selected(accounts[..|accounts| - 1]) + Unpaused(last.0, last.1)
  }

  /** A task is selected for a user exactly when it names an unpaused site of that user. */
  lemma {:induction false} UnpausedMembership(owner: string, ms: seq<MonitoredSite>, t: Task)
    ensures t in Unpaused(owner, ms) <==> t.owner == owner && t.site in ms && !t.site.paused
  {
    if ms != [] {
      var init := ms[..|ms| - 1];
      var last := ms[|ms| - 1];
      assert Unpaused(owner, ms) == Unpaused(owner, init) + (if last.paused then [] else [Task(owner, last)]);
      UnpausedMembership(owner, init, t);
      assert ms == init + [ms[|ms| - 1]];
    }
  }

  /** The task names a site of this account. */
  ghost predicate Owns(a: Account, t: Task)
  {
    a.0 == t.owner && t.site in a.1
  }

  /**
   * Paused sites are never checked, and every unpaused site of every account
   * is: a task is selected exactly when its site is unpaused and belongs to
   * the account of its owner.
   */
  lemma {:induction false} SelectedMembership(accounts: seq<Account>, t: Task)
    ensures t in Selected(accounts) <==>
      !t.site.paused && exists i :: 0 <= i < |accounts| && Owns(accounts[i], t)
  {
    if accounts != [] {
      var n := |accounts| - 1;
      var init := accounts[..n];
      var tail := Unpaused(accounts[n].0, accounts[n].1);
      assert Selected(accounts) == Selected(init) + tail;
      assert t in Selected(accounts) <==> t in Selected(init) || t in tail;
      SelectedMembership(init, t);
      UnpausedMembership(accounts[n].0, accounts[n].1, t);
      assert forall i :: 0 <= i < n ==> init[i] == accounts[i];
    }
  }

  /** A user contributes no more tasks than sites, and one per site when none is paused. */
  lemma {:induction false} UnpausedLength(owner: string, ms: seq<MonitoredSite>)
    ensures |Unpaused(owner, ms)| <= |ms|
    ensures (forall i :: 0 <= i < |ms| ==> !ms[i].paused) ==> |Unpaused(owner, ms)| == |ms|
  {
    if ms != [] {
      UnpausedLength(owner, ms[..|ms| - 1]);
    }
  }

  /**
   * An unpaused site is scheduled as often as it occurs in the user's list,
   * a paused one never.
   */
  lemma {:induction false} UnpausedCount(owner: string, ms: seq<MonitoredSite>, s: MonitoredSite)
    ensures multiset(Unpaused(owner, ms))[Task(owner, s)] == if s.paused then 0 else multiset(ms)[s]
  {
    if ms != [] {
      var init := ms[..|ms| - 1];
      var last := ms[|ms| - 1];
      assert ms == init + [last];
      assert multiset(ms) == multiset(init) + multiset{last};
      var tail := if last.paused then [] else [Task(owner, last)];
      assert Unpaused(owner, ms) == Unpaused(owner, init) + tail;
      assert multiset(Unpaused(owner, ms)) == multiset(Unpaused(owner, init)) + multiset(tail);
      UnpausedCount(owner, init, s);
    }
  }

  /** A site occurs once in a list whose urls are unique. */
  lemma {:induction false} UniqueOccurrence(ms: seq<MonitoredSite>, s: MonitoredSite)
    requires UniqueUrls(ms)
    requires s in ms
    ensures multiset(ms)[s] == 1
  {
    var init := ms[..|ms| - 1];
    var last := ms[|ms| - 1];
    assert ms == init + [last];
    assert multiset(ms) == multiset(init) + multiset{last};
    assert UniqueUrls(init);
    if s == last {
      assert s !in init;
    } else {
      UniqueOccurrence(init, s);
    }
  }

  /** With unique urls, one tick checks each unpaused site of a user exactly once. */
  lemma OneTaskPerSite(owner: string, ms: seq<MonitoredSite>, s: MonitoredSite)
    requires UniqueUrls(ms)
    requires s in ms && !s.paused
    ensures multiset(Unpaused(owner, ms))[Task(owner, s)] == 1
  {
    UnpausedCount(owner, ms, s);
    UniqueOccurrence(ms, s);
  }
}
