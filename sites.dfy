/**
 * The registry's view of one monitored target (`MonitoredSite`, app.py:29-34)
 * and the per-user uniqueness of urls that `handle_add_site` maintains.
 */
module Sites {

  /** A target as a user registered it; `paused` starts out false. */
  datatype MonitoredSite = MonitoredSite(name: string, url: string, interval: int, paused: bool)

  /** No two sites in one user's list share a url. */
  ghost predicate UniqueUrls(ms: seq<MonitoredSite>)
  {
    forall i, j :: 0 <= i < j < |ms| ==> ms[i].url != ms[j].url
  }

  /** The duplicate test `any(site.url == url for site in monitors)`. */
  function HasUrl(ms: seq<MonitoredSite>, url: string): (b: bool)
    ensures b <==> exists i :: 0 <= i < |ms| && ms[i].url == url
  {
    if ms == [] then false
    else if ms[0].url == url then true
    else
      var b := HasUrl(ms[1..], url);
      assert b ==> exists i :: 0 <= i < |ms| && ms[i].url == url by {
        if b {
          var k :| 0 <= k < |ms[1..]| && ms[1..][k].url == url;
          assert ms[k + 1].url == url;
        }
      }
      b
  }

  /** Appending a site whose url is not yet present keeps the urls unique. */
  lemma AppendKeepsUnique(ms: seq<MonitoredSite>, site: MonitoredSite)
    requires UniqueUrls(ms)
    requires !HasUrl(ms, site.url)
    ensures UniqueUrls(ms + [site])
  {
  }
}
