/**
 * The `UptimeMonitor` service object (app.py:36-217) and the `User` records it
 * mutates in place: the registry of users and their sites, the per-url status
 * update, the check of one site, one tick's target selection, and the
 * add-site, sign-up and login operations with their error replies.
 *
 * Web routing, sessions, the JSON file and the scheduler's gather/sleep are
 * outside the model; `save_users` is a no-op here. The session's username,
 * the probe result, the clock reading, the salt and the password hash
 * function are parameters.
 */
module Monitor {
  import opened Wrappers
  import opened Sites
  import opened StatusRecords
  import opened Probe
  import opened Scheduling

  /** The rejections the handlers reply with. */
  datatype Rejection =
    | NotAuthenticated      // 'Not authenticated' (app.py:210)
    | SiteAlreadyExists     // 'Site already exists' (app.py:213)
    | PasswordsDontMatch    // "Passwords don't match" (app.py:191)
    | UsernameTaken         // 'Username already exists' (app.py:193)
    | InvalidCredentials    // 'Invalid username or password' (app.py:180)

  /** A user account (app.py:21-27). Only `monitors` and `status_data` ever change. */
  class User {
    const username: string
    const passwordHash: string
    const salt: string
    var monitors: seq<MonitoredSite>
    var statusData: map<string, StatusRecord>

    /** Urls are unique among the user's sites and every status record is consistent. */
    ghost predicate Valid()
      reads this
    {
      && UniqueUrls(monitors)
      && RecordsValid(statusData)
    }

    /** A new account with no sites and no status data (app.py:196). */
    constructor (username: string, passwordHash: string, salt: string)
      ensures this.username == username && this.passwordHash == passwordHash && this.salt == salt
      ensures monitors == [] && statusData == map[]
      ensures Valid()
    {
      this.username := username;
      this.passwordHash := passwordHash;
      this.salt := salt;
      monitors := [];
      statusData := map[];
    }
  }

  class UptimeMonitor {
    /** `self.users`, keyed by username. */
    var users: map<string, User>
    /** The insertion order of `self.users`, which `users.values()` follows. */
    var order: seq<string>

    /**
     * Each account is stored under its own username (so distinct names are
     * distinct objects), `order` lists every username once, and every account
     * is valid.
     */
    ghost predicate Valid()
      reads this, users.Values
    {
      && (forall name :: name in users ==> users[name].username == name && users[name].Valid())
      && (forall i, j :: 0 <= i < j < |order| ==> order[i] != order[j])
      && (forall name :: name in users <==> name in order)
    }

    /** An empty registry; loading `users.db` is outside the model. */
    constructor ()
      ensures Valid() && users == map[] && order == []
    {
      users := map[];
      order := [];
    }

    /**
     * `get_current_user` (app.py:96-99): the account named by the session,
     * none when the session holds no name, an empty name or an unknown one.
     */
    function CurrentUser(session: Option<string>): (u: User?)
      reads this
      ensures u != null <==> session.Some? && session.value != "" && session.value in users
      ensures u != null ==> u == users[session.value]
    {
      if session.Some? && session.value != "" && session.value in users then users[session.value] else null
    }

    /**
     * In a valid registry the session's account is the one registered under
     * the session's name: it carries that name, is listed in the registry's
     * order and is itself valid.
     */
    lemma SessionAccount(session: Option<string>)
      requires Valid()
      ensures var u := CurrentUser(session);
        u != null ==> session.Some? && u.username == session.value && u.username in order && u.Valid()
    {
    }

    /**
     * An account registered under the empty name can pass the login check,
     * yet a session holding that name is never authenticated, so that
     * account can never add a site.
     */
    lemma EmptyNameLockedOut(password: string, hash: (string, string) -> string)
      requires Login("", password, hash).Ok?
      ensures "" in users
      ensures CurrentUser(Some("")) == null
    {
    }

    /** The accounts in registry order, as the tick's outer loop visits them. */
    function Accounts(names: seq<string>): (a: seq<Account>)
      reads this, users.Values
      requires forall k :: k in names ==> k in users
      ensures |a| == |names|
    {
      if names == [] then []
      else
        var last := names[|names| - 1];
        Accounts(names[..|names| - 1]) + [(last, users[last].monitors)]
    }

    /**
     * `update_site_status` (app.py:125-163): create the record on first use,
     * append the entry, evict the oldest beyond 100, bump the counters and
     * recompute the derived fields. Only this url's record changes.
     */
    method UpdateSiteStatus(user: User, site: MonitoredSite, status: Status, responseTime: nat, now: string)
      modifies user
      ensures user.monitors == old(user.monitors)
      ensures user.statusData ==
        old(user.statusData)[site.url := Recorded(Prior(old(user.statusData), site, status), site.paused, Entry(now, status, responseTime))]
    {
      ghost var before := user.statusData;
      ghost var entry := Entry(now, status, responseTime);
      if site.url !in user.statusData {
        user.statusData := user.statusData[site.url := Fresh(site, status)];
      }
      var record := user.statusData[site.url];
      var history := record.history + [Entry(now, status, responseTime)];
      if |history| > HistoryLimit {
        history := history[1..];
      }
      var total := record.totalChecks + 1;
      var up, down := record.upCount, record.downCount;
      if status == Up {
        up := up + 1;
      } else {
        down := down + 1;
      }
      record := record.(history := history, totalChecks := total, upCount := up, downCount := down,
                        uptimePercent := UptimePercent(up, total), lastChecked := Some(now),
                        responseTime := responseTime, lastStatus := status, paused := site.paused);
      var successful := SuccessTimes(history);
      record := record.(avgResponseTime := Mean(successful));
      user.statusData := user.statusData[site.url := record];
      assert record == Recorded(Prior(before, site, status), site.paused, entry);
    }

    /**
     * `check_site` (app.py:111-123) once the request has produced `probe`:
     * classify it, record it, and return the status.
     */
    method CheckSite(user: User, site: MonitoredSite, probe: ProbeResult, now: string) returns (status: Status)
      requires user.Valid()
      modifies user
      ensures status == Classify(probe).status
      ensures user.Valid()
      ensures user.monitors == old(user.monitors)
      ensures user.statusData ==
        old(user.statusData)[site.url := Recorded(Prior(old(user.statusData), site, status), site.paused,
                                                  Entry(now, status, Classify(probe).responseTime))]
    {
      var outcome := Classify(probe);
      StoreRecorded(user.statusData, site, outcome.status, Entry(now, outcome.status, outcome.responseTime));
      UpdateSiteStatus(user, site, outcome.status, outcome.responseTime, now);
      status := outcome.status;
    }

    /**
     * The task list one tick of `monitor_sites` builds (app.py:103-107): the
     * unpaused sites of every user, in registry and list order.
     */
    method TickTargets() returns (tasks: seq<Task>)
      requires Valid()
      ensures tasks == Selected(Accounts(order))
      ensures forall t :: t in tasks <==>
        t.owner in users && t.site in users[t.owner].monitors && !t.site.paused
    {
      tasks := [];
      var i := 0;
      while i < |order|
        invariant 0 <= i <= |order|
        invariant tasks == Selected(Accounts(order[..i]))
      {
        var name := order[i];
        var ms := users[name].monitors;
        ghost var before := tasks;
        var j := 0;
        while j < |ms|
          invariant 0 <= j <= |ms|
          invariant tasks == before + Unpaused(name, ms[..j])
        {
          if !ms[j].paused {
            tasks := tasks + [Task(name, ms[j])];
          }
          assert ms[..j + 1][..j] == ms[..j];
          j := j + 1;
        }
        assert ms[..j] == ms;
        assert order[..i + 1][..i] == order[..i];
        i := i + 1;
      }
      assert order[..i] == order;
      forall t ensures t in tasks <==> t.owner in users && t.site in users[t.owner].monitors && !t.site.paused {
        TickMembership(t);
      }
    }

    /** The listing pairs each name with that user's current site list. */
    lemma {:induction false} AccountsAt(names: seq<string>, k: nat)
      requires forall n :: n in names ==> n in users
      requires k < |names|
      ensures Accounts(names)[k] == (names[k], users[names[k]].monitors)
    {
      var n := |names| - 1;
      if k < n {
        AccountsAt(names[..n], k);
      }
    }

    /**
     * A tick selects a task exactly when it names an unpaused site of a
     * registered user: paused sites are never checked, all others always are.
     */
    lemma TickMembership(t: Task)
      requires Valid()
      ensures t in Selected(Accounts(order)) <==>
        t.owner in users && t.site in users[t.owner].monitors && !t.site.paused
    {
      var accounts := Accounts(order);
      SelectedMembership(accounts, t);
      if t in Selected(accounts) {
        var i :| 0 <= i < |accounts| && Owns(accounts[i], t);
        AccountsAt(order, i);
      }
      if t.owner in users && t.site in users[t.owner].monitors {
        var k :| 0 <= k < |order| && order[k] == t.owner;
        AccountsAt(order, k);
        assert Owns(accounts[k], t);
      }
    }

    /**
     * `handle_add_site` (app.py:207-217): reject an unauthenticated request,
     * reject a url the user already monitors without changing anything,
     * otherwise append the site unpaused, check it once and reply with the
     * status. Other accounts are untouched.
     */
    method AddSite(session: Option<string>, name: string, url: string, interval: int,
                   probe: ProbeResult, now: string) returns (r: Result<Status, Rejection>)
      requires Valid()
      modifies users.Values
      ensures Valid()
      ensures users == old(users) && order == old(order)
      ensures forall n, p, h :: Login(n, p, h) == old(Login(n, p, h))
      ensures forall k :: k in users && users[k] != CurrentUser(session) ==>
        users[k].monitors == old(users[k].monitors) && users[k].statusData == old(users[k].statusData)
      ensures CurrentUser(session) == null ==> r == Err(NotAuthenticated)
      ensures var u := CurrentUser(session);
        u != null && old(HasUrl(u.monitors, url)) ==>
          && r == Err(SiteAlreadyExists)
          && u.monitors == old(u.monitors) && u.statusData == old(u.statusData)
      ensures var u := CurrentUser(session);
        var site := MonitoredSite(name, url, interval, false);
        var o := Classify(probe);
        u != null && !old(HasUrl(u.monitors, url)) ==>
          && r == Ok(o.status)
          && u.monitors == old(u.monitors) + [site]
          && u.statusData == old(u.statusData)[url := Recorded(Prior(old(u.statusData), site, o.status), false,
                                                               Entry(now, o.status, o.responseTime))]
    {
      var user := CurrentUser(session);
      if user == null {
        return Err(NotAuthenticated);
      }
      if HasUrl(user.monitors, url) {
        return Err(SiteAlreadyExists);
      }
      var site := MonitoredSite(name, url, interval, false);
      AppendKeepsUnique(user.monitors, site);
      user.monitors := user.monitors + [site];
      var status := CheckSite(user, user.monitors[|user.monitors| - 1], probe, now);
      r := Ok(status);
    }

    /**
     * The structural check of `handle_login` (app.py:174-183): the account
     * exists and its stored hash equals the hash of the password with its salt.
     */
    function Login(username: string, password: string, hash: (string, string) -> string): (r: Result<string, Rejection>)
      reads this
      ensures r.Ok? <==> username in users && users[username].passwordHash == hash(password, users[username].salt)
      ensures r.Ok? ==> r.value == username
      ensures r.Err? ==> r.error == InvalidCredentials
    {
      if username in users && users[username].passwordHash == hash(password, users[username].salt)
      then Ok(username)
      else Err(InvalidCredentials)
    }

    /**
     * Once a password passes the login check, another password passes it
     * exactly when it hashes, with the account's salt, to the same value.
     */
    lemma LoginDistinguishes(username: string, password: string, other: string, hash: (string, string) -> string)
      requires Login(username, password, hash).Ok?
      ensures username in users
      ensures Login(username, other, hash).Ok? <==>
        hash(other, users[username].salt) == hash(password, users[username].salt)
    {
    }

    /**
     * `handle_signup` (app.py:185-200): a password mismatch is rejected first,
     * then an existing username; otherwise a new account with no sites is
     * added at the end of the registry, and logging in with the same password
     * succeeds.
     */
    method Signup(username: string, password: string, confirmPassword: string,
                  salt: string, hash: (string, string) -> string) returns (r: Result<string, Rejection>)
      requires Valid()
      modifies this
      ensures Valid()
      ensures password != confirmPassword ==>
        r == Err(PasswordsDontMatch) && users == old(users) && order == old(order)
      ensures password == confirmPassword && username in old(users) ==>
        r == Err(UsernameTaken) && users == old(users) && order == old(order)
      ensures password == confirmPassword && username !in old(users) ==>
        && r == Ok(username)
        && username in users && fresh(users[username])
        && users == old(users)[username := users[username]]
        && order == old(order) + [username]
        && users[username].monitors == [] && users[username].statusData == map[]
        && users[username].salt == salt && users[username].passwordHash == hash(password, salt)
        && Login(username, password, hash) == Ok(username)
        && (forall p :: Login(username, p, hash).Ok? <==> hash(p, salt) == hash(password, salt))
        && (forall n, p :: n != username ==> Login(n, p, hash) == old(Login(n, p, hash)))
        && (username != "" ==> CurrentUser(Some(username)) == users[username])
        && (username == "" ==> CurrentUser(Some(username)) == null)
    {
      if password != confirmPassword {
        return Err(PasswordsDontMatch);
      }
      if username in users {
        return Err(UsernameTaken);
      }
      var passwordHash := hash(password, salt);
      var user := new User(username, passwordHash, salt);
      users := users[username := user];
      order := order + [username];
      r := Ok(username);
    }
  }
}
