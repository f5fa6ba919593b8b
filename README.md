# Stormx uptime monitor — Dafny model of the monitoring core

This project models the core of the `UptimeMonitor` service in `app.py`. It
covers:

- the per-url **status record** that `update_site_status` keeps in
  `user.status_data`;
- the **classification** of one probe in `check_site`;
- the **target selection** of one tick of `monitor_sites`;
- the registry operations **add site**, **sign up** and the structural part
  of **log in**.

Modules, one per component of the service:

| file | module | what it holds |
|---|---|---|
| `wrappers.dfy` | `Wrappers` | `Option`, `Result` |
| `sites.dfy` | `Sites` | `MonitoredSite`, url uniqueness, the duplicate-url test |
| `status_records.dfy` | `StatusRecords` | the status record, one update (`Recorded`), the record invariant |
| `histories.dfy` | `Histories` | runs of many checks: counters, the 100-entry first-in-first-out window, the average |
| `probe.dfy` | `Probe` | probe result → `up`/`down` and response time |
| `scheduling.dfy` | `Scheduling` | the tick's filter over all users' sites |
| `monitor.dfy` | `Monitor` | the `User` and `UptimeMonitor` classes and their in-place operations |

Units and arithmetic:

- Response times are naturals in hundredths of a millisecond. That is the
  resolution `round(..., 2)` gives on milliseconds.
- The uptime percentage (`up_count / total_checks * 100`) is an exact real.
- The average response time (the mean over the retained successful entries)
  is an exact real.

The stateful parts keep the source's form:

- `User` is a class whose `monitors` and `statusData` fields the service
  methods update in place.
- `UptimeMonitor` is a class holding the `users` map and the map's insertion
  order. Python dictionaries iterate in insertion order, and the tick visits
  users in that order.
- Each method's postcondition states its new state as a function of the old
  one. The lemmas about those functions carry the guarantees.

Behaviour of the source worth noting:

- A response with a status other than 200 is `down`, but it keeps its
  measured latency (app.py:116-117). Only an exception gives latency 0.
- Neither the url nor the interval of a new site is validated. `interval` is
  stored and never used. Every tick checks every unpaused site and then sleeps
  a fixed 10 s (app.py:101-109).
- The record's `name` is set when the record is created and is never updated
  afterwards (app.py:128).
- At most one history entry is evicted per update (app.py:147-148).
- No operation ever sets `paused`, and no site is ever removed: `app.py`
  has no pause, resume or delete handler.
- Sign-up accepts the empty username (app.py:185-200), but
  `get_current_user` treats an empty session name as no user (app.py:99).
  Such an account passes the login check and can never add a site.

## Model

| member | source | states |
|---|---|---|
| `Sites.HasUrl` | app.py:212 | true exactly when some site in the list has the url |
| `Sites.AppendKeepsUnique` | app.py:212-214 | appending a site whose url is absent keeps urls unique within the list |
| `StatusRecords.FreshValid` | app.py:126-139 | the record created for an unseen url has zero counters and an empty history, and satisfies the record invariant |
| `StatusRecords.RecordedStep` | app.py:141-160 | one check raises `total_checks` by one and exactly one of `up_count`/`down_count` by status; the entry is appended last; the oldest entry (index 0) is dropped exactly when the history was full; `last_status`, `response_time`, `last_checked` and `paused` describe this call; the name is kept |
| `StatusRecords.RecordedValid` | app.py:141-162 | one check preserves the record invariant: total = up + down, history length = min(total, 100), retained successes and failures bounded by the all-time counts, uptime and average recomputed from counters and history, `last_*` fields matching the newest entry |
| `StatusRecords.StoreRecorded` | app.py:126-162 | storing the updated record for a url keeps every record of the user consistent |
| `StatusRecords.UptimeInRange` | app.py:156 | `up/total*100` lies in [0, 100], equals 100 exactly when up = total and 0 exactly when up = 0 |
| `StatusRecords.ValidUptimeInRange` | app.py:150-156 | a consistent record's uptime lies in [0, 100] and is 100 exactly when no check ever failed |
| `StatusRecords.SuccessTimesAppend` | app.py:161 | appending an entry adds its time to the successful times exactly when it is `up` |
| `StatusRecords.MeanConstant` | app.py:162 | the average of equal response times is that time |
| `StatusRecords.SuccessThenTimeout` | app.py:141-162 | a 120 ms success on a new url gives uptime 100 and average 120 ms; a following timeout gives uptime 50 with the average unchanged |
| `Histories.RunCounters` | app.py:150-154 | after any run of checks, `total_checks` grows by the run length, `up_count` by the successes, `down_count` by the failures |
| `Histories.RunWindow` | app.py:142-148 | after any run of checks on a history of at most 100, the history is the last 100 entries of the old history followed by the new entries (first in, first out) |
| `Histories.RunValid` | app.py:125-162 | any run of checks preserves the record invariant |
| `Histories.AllSuccesses` | app.py:142-162 | n successes of time t on a new url: all n counted, uptime 100, history of min(n, 100) entries, average t |
| `Histories.HundredFiftySuccesses` | app.py:142-162 | 150 successes of 50 ms: history of 100, 150 checks counted, uptime 100, average 50 ms |
| `Histories.EvictedSuccessesDropOut` | app.py:147-162 | after 100 or more failures in a row the average is 0, while `up_count` still counts the evicted successes |
| `Probe.Classify` | app.py:117-120 | `up` exactly when a response arrived with status 200; an exception gives `down` with time 0; a response keeps its measured time |
| `Scheduling.UnpausedMembership` | app.py:105-107 | a user's task list holds exactly that user's unpaused sites |
| `Scheduling.SelectedMembership` | app.py:103-107 | a task is selected exactly when its site is unpaused and belongs to its owner's list; paused sites never are |
| `Scheduling.UnpausedLength` | app.py:105-107 | no more tasks than sites, and one for every site when none is paused |
| `Scheduling.UnpausedCount` | app.py:105-107 | an unpaused site is scheduled as many times as it occurs in the user's list; a paused site never |
| `Scheduling.OneTaskPerSite` | app.py:105-107 | when the user's urls are unique, each unpaused site of that user gets exactly one task per tick |
| `Monitor.User.constructor` | app.py:196 | a new account has the given name, hash and salt, no sites and no status data |
| `Monitor.UptimeMonitor.constructor` | app.py:37-38 | the registry starts empty |
| `Monitor.UptimeMonitor.SessionAccount` | app.py:96-99 | in a consistent registry the session's account carries the session's name, is listed in registry order and is itself consistent |
| `Monitor.UptimeMonitor.EmptyNameLockedOut` | app.py:96-99 | an account under the empty name that passes the login check is still never the session's account |
| `Monitor.UptimeMonitor.UpdateSiteStatus` | app.py:125-163 | only this url's record changes, and it becomes `Recorded` of the stored record (or of a fresh one for an unseen url); the site list is unchanged |
| `Monitor.UptimeMonitor.CheckSite` | app.py:111-123 | returns the classified status, records the classified outcome, and keeps the user consistent |
| `Monitor.UptimeMonitor.TickTargets` | app.py:101-107 | the tick's task list is the unpaused sites of every user, in registry and list order; a task is in it exactly when it names an unpaused site of a registered user |
| `Monitor.UptimeMonitor.TickMembership` | app.py:104-107 | over the registry, a task is selected exactly when its owner is registered and its site is one of that owner's unpaused sites |
| `Monitor.UptimeMonitor.AddSite` | app.py:207-217 | unauthenticated: rejected; duplicate url: rejected with nothing changed; otherwise the unpaused site is appended last, checked once, and its status returned; other accounts untouched; urls stay unique; the registry and every login answer are unchanged |
| `Monitor.UptimeMonitor.LoginDistinguishes` | app.py:174-183 | once one password is accepted for an account, another is accepted exactly when it hashes to the same value with that account's salt |
| `Monitor.UptimeMonitor.Signup` | app.py:185-200 | mismatched passwords rejected first, then an existing name, both without change; otherwise a fresh account with no sites is added last; logging in with it then succeeds exactly for passwords with the same salted hash; every other account's login answer is unchanged; a session with the new name is that account unless the name is empty |

## Left out

- Web plumbing is not modelled: the routes, the HTTP replies and status codes, the index/login/signup placeholder pages, logout, and the cookie session middleware. The session's username is a parameter.
- `load_users` and `save_users` (the JSON file and the exceptions they swallow) are not modelled. Saving is a no-op, and the registry starts empty.
- `hash_password` (PBKDF2-HMAC-SHA256) and `secrets.token_hex` are not modelled. The hash function and the salt are parameters of `Signup` and `Login`.
- The HTTP GET, its 10 s timeout and the `time.time()` latency measurement are not modelled. A probe is given as a `ProbeResult`.
- `datetime.now()` is not modelled. A clock reading is given as a string.
- `asyncio.gather`, `asyncio.sleep(10)`, `create_task` and all concurrency are not modelled. Only the tick's selection of targets is.
- Rounding to two decimals of the uptime, the average and the latency is not modelled. The model keeps exact ratios and integral hundredths of a millisecond.
- StatusRecords.UptimeInRange: "100 exactly when up = total" and "0 exactly when up = 0" hold for the exact ratio only. The source rounds the percentage to two decimals (app.py:156), so it reports 100.0 with one failure among more than 20,000 checks (about 2.3 days at the 10 s tick) and 0.0 with one success among as many.
- StatusRecords.ValidUptimeInRange: "100 exactly when no check ever failed" holds for the exact ratio only; with the source's rounding a record with one failure among more than 20,000 checks reports 100.0.
- The error message `check_site` prints when the request raises (app.py:121) is not modelled.
- Probe.Classify: takes the measured latency as a natural. The source measures it with the wall clock `time.time()` (app.py:113, app.py:116), which can step backwards and give a negative latency.
- Missing form fields in sign-up and log-in are not modelled: there `data.get` yields `None`. Usernames and passwords are strings.
- Parsing failures of the add-site request are not modelled: a missing key or a non-integer interval raises in the source. `interval` is taken as an integer.
- Aliasing of the status dictionary is not modelled: the record is a value stored back into `statusData`. In the source the dictionary is reachable only through `status_data`, so the resulting state is the same.
- Monitor.UptimeMonitor.UpdateSiteStatus: takes one clock reading for both the history entry's time and `last_checked`. The source reads the clock twice (app.py:143, app.py:157), so there the two may differ by a second.
- Monitor.UptimeMonitor.UpdateSiteStatus: does not itself promise the record invariant, because the source accepts any record. `CheckSite` and `AddSite` keep it, through `StatusRecords.StoreRecorded`.
