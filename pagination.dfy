/**
 * The GitHub page walkers.  A walker either follows the `Link` header
 * (`while url:`) or steps a page number until a page comes back short or
 * empty.  The network is an input:
 *
 *   - a Link-following walk receives `replies[k]` for its k-th request; a
 *     request past the end of the list ends the walk (the source would keep
 *     following a Link cycle forever);
 *   - a page-number walk receives `pages[p - 1]` for page p; a page past the
 *     end of the list is the empty page GitHub answers past the last one.
 */
module Pagination {
  import opened Common
  import opened LinkHeader

  /**
   * One request as its caller sees it: github_api_request raised (and the
   * caller's `except Exception` ends the walk), or it returned a decoded
   * body (None for a JSON null) and the response's Link header.
   */
  datatype Reply<T> = Failed | Page(body: Option<seq<T>>, link: Option<string>)

  /** The walker's test on a body: `if data:` or `if data is not None:`. */
  datatype BodyTest = NonEmpty | NotNone

  predicate Accepts<T>(test: BodyTest, r: Reply<T>) {
    r.Page? && r.body.Some? && (test == NotNone || r.body.value != [])
  }

  /** `url = get_next_link(headers)` followed by the next `while url:` test. */
  predicate HasNext<T>(r: Reply<T>)
    requires r.Page?
  {
    Truthy(NextLink(r.link))
  }

  // -----------------------------------------------------------------------
  // Link-following walks

  /** The bodies a Link-following walk gathers, in request order. */
  function LinkWalk<T>(replies: seq<Reply<T>>, test: BodyTest): seq<seq<T>> {
    if replies == [] || !Accepts(test, replies[0]) then []
    else [replies[0].body.value] + (if HasNext(replies[0]) then LinkWalk(replies[1..], test) else [])
  }

  /**
   * A walk gathers the bodies of a prefix of the replies: every gathered
   * reply passed the body test, every one but the last announced a next
   * page, and the walk stopped because the last one announced none, the
   * following reply failed the test, or the replies ran out.
   */
  lemma {:induction false} LinkWalkSpec<T>(replies: seq<Reply<T>>, test: BodyTest)
    ensures var w := LinkWalk(replies, test);
      && |w| <= |replies|
      && (forall k :: 0 <= k < |w| ==> Accepts(test, replies[k]) && w[k] == replies[k].body.value)
      && (forall k :: 0 <= k < |w| - 1 ==> HasNext(replies[k]))
      && (|w| < |replies| ==>
            !Accepts(test, replies[|w|]) || (|w| > 0 && !HasNext(replies[|w| - 1])))
  {
    if replies != [] && Accepts(test, replies[0]) && HasNext(replies[0]) {
      LinkWalkSpec(replies[1..], test);
      var w := LinkWalk(replies, test);
      var w' := LinkWalk(replies[1..], test);
      assert w == [replies[0].body.value] + w';
      forall k | 0 <= k < |w| ensures Accepts(test, replies[k]) && w[k] == replies[k].body.value {
        if k > 0 { assert replies[k] == replies[1..][k - 1]; }
      }
      forall k | 0 <= k < |w| - 1 ensures HasNext(replies[k]) {
        if k > 0 { assert replies[k] == replies[1..][k - 1]; }
      }
      if |w| < |replies| {
        assert replies[|w|] == replies[1..][|w'|];
        if |w'| > 0 { assert replies[|w| - 1] == replies[1..][|w'| - 1]; }
      }
    }
  }

  /** One more reply of a walk: the invariant of the Link-following loop moves on. */
  lemma LinkWalkNext<T>(replies: seq<Reply<T>>, k: nat, test: BodyTest, walked: seq<seq<T>>, all: seq<seq<T>>)
    requires k < |replies|
    requires all == walked + LinkWalk(replies[k..], test)
    ensures !Accepts(test, replies[k]) ==> all == walked
    ensures Accepts(test, replies[k]) && !HasNext(replies[k]) ==> all == walked + [replies[k].body.value]
    ensures Accepts(test, replies[k]) && HasNext(replies[k]) ==>
      all == (walked + [replies[k].body.value]) + LinkWalk(replies[k + 1..], test)
  {
    var r := replies[k];
    assert replies[k..][0] == r && replies[k..][1..] == replies[k + 1..];
    if Accepts(test, r) && HasNext(r) {
      var rest := LinkWalk(replies[k + 1..], test);
      assert LinkWalk(replies[k..], test) == [r.body.value] + rest;
      assert walked + ([r.body.value] + rest) == (walked + [r.body.value]) + rest;
    } else if Accepts(test, r) {
      assert LinkWalk(replies[k..], test) == [r.body.value];
    } else {
      assert LinkWalk(replies[k..], test) == [];
      assert walked + [] == walked;
    }
  }

  /**
   * The `while url:` loop shared by get_contributors, get_repository_issues,
   * get_release_downloads and search_repositories_with_queries: the bodies
   * are appended in request order.
   */
  method FollowLinks<T>(replies: seq<Reply<T>>, test: BodyTest) returns (items: seq<T>)
    ensures items == Flatten(LinkWalk(replies, test))
  {
    items := [];
    ghost var walked: seq<seq<T>> := [];
    var k := 0;
    var more := true;
    while more && k < |replies|
      invariant 0 <= k <= |replies|
      invariant items == Flatten(walked)
      invariant more ==> LinkWalk(replies, test) == walked + LinkWalk(replies[k..], test)
      invariant !more ==> LinkWalk(replies, test) == walked
      decreases |replies| - k, more
    {
      var r := replies[k];
      LinkWalkNext(replies, k, test, walked, LinkWalk(replies, test));
      if Accepts(test, r) {
        var body := r.body.value;
        FlattenSnoc(walked, body);
        items := items + body;
        walked := walked + [body];
        more := HasNext(r);
        k := k + 1;
      } else {
        more := false;
      }
    }
    if more {
      assert replies[k..] == [];
      assert walked + [] == walked;
    }
  }

  /** get_contributors: every contributor of every non-empty page, in order. */
  method GetContributors<T>(replies: seq<Reply<T>>) returns (contributors: seq<T>)
    ensures contributors == Flatten(LinkWalk(replies, NonEmpty))
    ensures forall page :: page in LinkWalk(replies, NonEmpty) ==> page != []
  {
    LinkWalkSpec(replies, NonEmpty);
    contributors := FollowLinks(replies, NonEmpty);
  }

  /** An issue of the issues endpoint; pull requests carry a `pull_request` key. */
  datatype Issue = Issue(number: int, isPullRequest: bool)

  function IssuesOnly(s: seq<Issue>): (r: seq<Issue>)
    ensures |r| <= |s|
    ensures forall i :: i in r ==> i in s && !i.isPullRequest
    ensures forall i :: i in s && !i.isPullRequest ==> i in r
  {
    if s == [] then []
    else if s[|s| - 1].isPullRequest then IssuesOnly(s[..|s| - 1])
    else IssuesOnly(s[..|s| - 1]) + [s[|s| - 1]]
  }

  /**
   * get_repository_issues: the walk goes on over an empty page (it stops
   * only on a null body), and pull requests are dropped page by page.
   */
  method GetRepositoryIssues(replies: seq<Reply<Issue>>) returns (issues: seq<Issue>)
    ensures issues == IssuesOnly(Flatten(LinkWalk(replies, NotNone)))
    ensures forall i :: i in issues ==> !i.isPullRequest
  {
    var all := FollowLinks(replies, NotNone);
    issues := IssuesOnly(all);
  }

  // -----------------------------------------------------------------------
  // Release downloads (get_release_downloads)

  /** A release asset; a missing download_count reads as 0. */
  datatype Asset = Asset(downloadCount: int)

  /** A release: its assets (a missing list reads as empty) and its published_at. */
  datatype Release = Release(assets: seq<Asset>, publishedAt: Option<string>)

  function AssetDownloads(assets: seq<Asset>): int {
    if assets == [] then 0
    else AssetDownloads(assets[..|assets| - 1]) + assets[|assets| - 1].downloadCount
  }

  function TotalDownloads(releases: seq<Release>): int {
    if releases == [] then 0
    else TotalDownloads(releases[..|releases| - 1]) + AssetDownloads(releases[|releases| - 1].assets)
  }

  /** Downloads add up over consecutive runs of releases (pages, say). */
  lemma {:induction false} TotalDownloadsAppend(a: seq<Release>, b: seq<Release>)
    ensures TotalDownloads(a + b) == TotalDownloads(a) + TotalDownloads(b)
    decreases |b|
  {
    if b == [] {
      assert a + b == a;
    } else {
      assert (a + b)[..|a + b| - 1] == a + b[..|b| - 1];
      TotalDownloadsAppend(a, b[..|b| - 1]);
    }
  }

  /** The inner `for asset in release.get("assets", [])` loop: the sum of the download counts. */
  method SumDownloads(assets: seq<Asset>) returns (sum: int)
    ensures sum == AssetDownloads(assets)
  {
    sum := 0;
    for j := 0 to |assets|
      invariant sum == AssetDownloads(assets[..j])
    {
      assert assets[..j + 1][..j] == assets[..j];
      sum := sum + assets[j].downloadCount;
    }
    assert assets[..|assets|] == assets;
  }

  /** get_release_downloads: the download counts of every asset of every release fetched. */
  method GetReleaseDownloads(replies: seq<Reply<Release>>) returns (total: int)
    ensures total == TotalDownloads(Flatten(LinkWalk(replies, NonEmpty)))
  {
    var releases := FollowLinks(replies, NonEmpty);
    total := 0;
    for i := 0 to |releases|
      invariant total == TotalDownloads(releases[..i])
    {
      var downloads := SumDownloads(releases[i].assets);
      total := total + downloads;
      assert releases[..i + 1][..i] == releases[..i];
    }
    assert releases[..|releases|] == releases;
  }

  // -----------------------------------------------------------------------
  // Page-number walks

  const PerPage: nat := 100

  /** The reply to page p (1-based); past the end of the list, an empty page. */
  function PageAt<T>(pages: seq<Reply<T>>, p: nat): Reply<T> {
    if 1 <= p <= |pages| then pages[p - 1] else Page(Some([]), None)
  }

  /**
   * When a page-number walk asks for the next page: after a full page
   * (get_issue_comments), or when the Link header mentions "next"
   * (get_total_downloads, which tests `'next' in Link`).
   */
  datatype PageRule = FullPage | NextInLink

  predicate Continues<T>(rule: PageRule, r: Reply<T>) {
    r.Page? && r.body.Some? &&
    match rule
    case FullPage => |r.body.value| >= PerPage
    case NextInLink => Contains(OrEmpty(r.link), "next")
  }

  /** The bodies a page-number walk gathers from page p on. */
  function PageWalk<T>(pages: seq<Reply<T>>, p: nat, test: BodyTest, rule: PageRule): seq<seq<T>>
    requires p >= 1
    decreases |pages| + 1 - p
  {
    var r := PageAt(pages, p);
    if !Accepts(test, r) then []
    else if Continues(rule, r) then
      [r.body.value] + PageWalk(pages, p + 1, test, rule)
    else [r.body.value]
  }

  /**
   * A page-number walk from page p reads pages p, p+1, ... in order: every
   * gathered page passed the body test and its items are gathered in order,
   * all but the last asked for another page, and the walk stopped at a page
   * that asked for none or at a page that failed the body test, whose
   * items are not gathered.
   */
  lemma PageWalkSpec<T>(pages: seq<Reply<T>>, p: nat, test: BodyTest, rule: PageRule)
    requires p >= 1
    ensures var w := PageWalk(pages, p, test, rule);
      && (forall q :: p <= q < p + |w| ==> Accepts(test, PageAt(pages, q)) && w[q - p] == PageAt(pages, q).body.value)
      && (forall q :: p <= q < p + |w| - 1 ==> Continues(rule, PageAt(pages, q)))
      && ((|w| > 0 && !Continues(rule, PageAt(pages, p + |w| - 1))) || !Accepts(test, PageAt(pages, p + |w|)))
  {
    PageWalkGathers(pages, p, test, rule);
    PageWalkContinues(pages, p, test, rule);
    PageWalkStops(pages, p, test, rule);
  }

  lemma {:induction false} PageWalkGathers<T>(pages: seq<Reply<T>>, p: nat, test: BodyTest, rule: PageRule)
    requires p >= 1
    ensures var w := PageWalk(pages, p, test, rule);
      forall q :: p <= q < p + |w| ==> Accepts(test, PageAt(pages, q)) && w[q - p] == PageAt(pages, q).body.value
    decreases |pages| + 1 - p
  {
    var r := PageAt(pages, p);
    var w := PageWalk(pages, p, test, rule);
    if Accepts(test, r) && Continues(rule, r) {
      PageWalkGathers(pages, p + 1, test, rule);
      var w' := PageWalk(pages, p + 1, test, rule);
      assert w == [r.body.value] + w';
      forall q | p < q < p + |w|
        ensures Accepts(test, PageAt(pages, q)) && w[q - p] == PageAt(pages, q).body.value
      {
        assert w[q - p] == w'[q - (p + 1)];
      }
    }
  }

  lemma {:induction false} PageWalkContinues<T>(pages: seq<Reply<T>>, p: nat, test: BodyTest, rule: PageRule)
    requires p >= 1
    ensures var w := PageWalk(pages, p, test, rule);
      forall q :: p <= q < p + |w| - 1 ==> Continues(rule, PageAt(pages, q))
    decreases |pages| + 1 - p
  {
    var r := PageAt(pages, p);
    if Accepts(test, r) && Continues(rule, r) {
      PageWalkContinues(pages, p + 1, test, rule);
    }
  }

  lemma {:induction false} PageWalkStops<T>(pages: seq<Reply<T>>, p: nat, test: BodyTest, rule: PageRule)
    requires p >= 1
    ensures var w := PageWalk(pages, p, test, rule);
      (|w| > 0 && !Continues(rule, PageAt(pages, p + |w| - 1))) || !Accepts(test, PageAt(pages, p + |w|))
    decreases |pages| + 1 - p
  {
    var r := PageAt(pages, p);
    if Accepts(test, r) && Continues(rule, r) {
      PageWalkStops(pages, p + 1, test, rule);
      var w' := PageWalk(pages, p + 1, test, rule);
      assert |PageWalk(pages, p, test, rule)| == 1 + |w'|;
    }
  }

  /** One more page of a walk: the invariant of the page-number loops moves on. */
  lemma PageWalkNext<T>(pages: seq<Reply<T>>, p: nat, test: BodyTest, rule: PageRule, walked: seq<seq<T>>, all: seq<seq<T>>)
    requires p >= 1
    requires all == walked + PageWalk(pages, p, test, rule)
    ensures !Accepts(test, PageAt(pages, p)) ==> all == walked
    ensures Accepts(test, PageAt(pages, p)) && !Continues(rule, PageAt(pages, p)) ==>
      all == walked + [PageAt(pages, p).body.value]
    ensures Accepts(test, PageAt(pages, p)) && Continues(rule, PageAt(pages, p)) ==>
      p <= |pages| && all == (walked + [PageAt(pages, p).body.value]) + PageWalk(pages, p + 1, test, rule)
  {
    var r := PageAt(pages, p);
    if Accepts(test, r) && Continues(rule, r) {
      var rest := PageWalk(pages, p + 1, test, rule);
      assert PageWalk(pages, p, test, rule) == [r.body.value] + rest;
      assert walked + ([r.body.value] + rest) == (walked + [r.body.value]) + rest;
    } else if Accepts(test, r) {
      assert PageWalk(pages, p, test, rule) == [r.body.value];
    } else {
      assert PageWalk(pages, p, test, rule) == [];
      assert walked + [] == walked;
    }
  }

  /**
   * The `while True:` page loop: requests pages 1, 2, 3, ... and gathers
   * the bodies PageWalk describes.  Pages 1 to `requests` are requested;
   * the request that ends the walk is counted even when its page is not
   * gathered.
   */
  method WalkPages<T>(pages: seq<Reply<T>>, test: BodyTest, rule: PageRule) returns (items: seq<T>, requests: nat)
    ensures items == Flatten(PageWalk(pages, 1, test, rule))
    ensures |PageWalk(pages, 1, test, rule)| <= requests <= |PageWalk(pages, 1, test, rule)| + 1
  {
    items := [];
    requests := 0;
    ghost var walked: seq<seq<T>> := [];
    ghost var all := PageWalk(pages, 1, test, rule);
    var page := 1;
    var more := true;
    while more
      invariant 1 <= page <= |pages| + 1
      invariant items == Flatten(walked)
      invariant more ==> requests == page - 1 == |walked|
      invariant more ==> all == walked + PageWalk(pages, page, test, rule)
      invariant !more ==> all == walked && |walked| <= requests <= |walked| + 1
      decreases more, |pages| + 1 - page
    {
      requests := requests + 1;
      var r := PageAt(pages, page);
      PageWalkNext(pages, page, test, rule, walked, all);
      if !Accepts(test, r) {
        more := false;
      } else {
        var body := r.body.value;
        FlattenSnoc(walked, body);
        items := items + body;
        walked := walked + [body];
        if Continues(rule, r) {
          page := page + 1;
        } else {
          more := false;
        }
      }
    }
  }

  /**
   * get_issue_comments: the comments of pages 1, 2, ... up to the first
   * short page; a fetch error or a null body ends the walk and keeps what
   * was gathered.
   */
  method GetIssueComments<T>(pages: seq<Reply<T>>) returns (comments: seq<T>, requests: nat)
    ensures comments == Flatten(PageWalk(pages, 1, NotNone, FullPage))
    ensures |PageWalk(pages, 1, NotNone, FullPage)| <= requests <= |PageWalk(pages, 1, NotNone, FullPage)| + 1
    ensures var w := PageWalk(pages, 1, NotNone, FullPage);
      && (forall j :: 0 <= j < |w| - 1 ==> |w[j]| >= PerPage)
      && ((|w| > 0 && |w[|w| - 1]| < PerPage) || !Accepts(NotNone, PageAt(pages, |w| + 1)))
  {
    var w := PageWalk(pages, 1, NotNone, FullPage);
    PageWalkSpec(pages, 1, NotNone, FullPage);
    forall j | 0 <= j < |w| - 1 ensures |w[j]| >= PerPage {
      assert w[(j + 1) - 1] == PageAt(pages, j + 1).body.value;
    }
    if |w| > 0 {
      assert w[|w| - 1] == PageAt(pages, 1 + |w| - 1).body.value;
    }
    comments, requests := WalkPages(pages, NotNone, FullPage);
  }

  // -----------------------------------------------------------------------
  // Download totals of repo_cite (get_total_downloads)

  datatype Totals = Totals(downloads: int, recentDownloads: int, recentReleasesCount: int)

  /** published_at is set and falls inside the recency window (the last 30 days). */
  predicate IsRecent(r: Release, recent: string -> bool) {
    Truthy(r.publishedAt) && recent(r.publishedAt.value)
  }

  /**
   * The three counters after a run of releases.  The recency test sits
   * inside the asset loop, so recent_releases_count grows by one per asset
   * of a recent release.
   */
  function Tally(releases: seq<Release>, recent: string -> bool): Totals {
    if releases == [] then Totals(0, 0, 0)
    else TallyStep(Tally(releases[..|releases| - 1], recent), releases[|releases| - 1], recent)
  }

  /** The counters after the assets of one more release. */
  function TallyStep(t: Totals, r: Release, recent: string -> bool): Totals {
    var d := AssetDownloads(r.assets);
    if IsRecent(r, recent) then Totals(t.downloads + d, t.recentDownloads + d, t.recentReleasesCount + |r.assets|)
    else Totals(t.downloads + d, t.recentDownloads, t.recentReleasesCount)
  }

  /** repo_cite's total agrees with repofinder's get_release_downloads. */
  lemma {:induction false} TallyDownloads(releases: seq<Release>, recent: string -> bool)
    ensures Tally(releases, recent).downloads == TotalDownloads(releases)
  {
    if releases != [] {
      TallyDownloads(releases[..|releases| - 1], recent);
    }
  }

  /** The number of recent releases that have at least one asset. */
  function RecentReleases(releases: seq<Release>, recent: string -> bool): nat {
    if releases == [] then 0
    else
      var r := releases[|releases| - 1];
      RecentReleases(releases[..|releases| - 1], recent) + (if IsRecent(r, recent) && r.assets != [] then 1 else 0)
  }

  /**
   * recent_releases_count counts assets, not releases: it is at least the
   * number of recent releases with assets, and equal to it exactly when no
   * recent release has more than one asset.
   */
  lemma {:induction false} RecentCountIsPerAsset(releases: seq<Release>, recent: string -> bool)
    ensures Tally(releases, recent).recentReleasesCount >= RecentReleases(releases, recent)
    ensures Tally(releases, recent).recentReleasesCount == RecentReleases(releases, recent)
      <==> forall i :: 0 <= i < |releases| && IsRecent(releases[i], recent) ==> |releases[i].assets| <= 1
  {
    if releases != [] {
      var init := releases[..|releases| - 1];
      RecentCountIsPerAsset(init, recent);
      forall i | 0 <= i < |init| ensures init[i] == releases[i] { }
    }
  }

  /** The inner asset loop of get_total_downloads: one release moves the three counters on. */
  method TallyRelease(total: int, recentDownloads: int, recentReleasesCount: int, release: Release, recent: string -> bool)
    returns (total': int, recentDownloads': int, recentReleasesCount': int)
    ensures Totals(total', recentDownloads', recentReleasesCount')
      == TallyStep(Totals(total, recentDownloads, recentReleasesCount), release, recent)
  {
    total', recentDownloads', recentReleasesCount' := total, recentDownloads, recentReleasesCount;
    var assets := release.assets;
    for j := 0 to |assets|
      invariant total' == total + AssetDownloads(assets[..j])
      invariant recentDownloads' == recentDownloads + (if IsRecent(release, recent) then AssetDownloads(assets[..j]) else 0)
      invariant recentReleasesCount' == recentReleasesCount + (if IsRecent(release, recent) then j else 0)
    {
      assert assets[..j + 1][..j] == assets[..j];
      var downloadCount := assets[j].downloadCount;
      total' := total' + downloadCount;
      if Truthy(release.publishedAt) && recent(release.publishedAt.value) {
        recentDownloads' := recentDownloads' + downloadCount;
        recentReleasesCount' := recentReleasesCount' + 1;
      }
    }
    assert assets[..|assets|] == assets;
  }

  /**
   * get_total_downloads: pages 1, 2, ... while the Link header mentions
   * "next"; an empty page, a null body or a failed request ends the walk.
   */
  method GetTotalDownloads(pages: seq<Reply<Release>>, recent: string -> bool)
    returns (total: int, recentDownloads: int, recentReleasesCount: int)
    ensures Totals(total, recentDownloads, recentReleasesCount)
      == Tally(Flatten(PageWalk(pages, 1, NonEmpty, NextInLink)), recent)
  {
    var releases, _ := WalkPages(pages, NonEmpty, NextInLink);
    total, recentDownloads, recentReleasesCount := 0, 0, 0;
    for i := 0 to |releases|
      invariant Totals(total, recentDownloads, recentReleasesCount) == Tally(releases[..i], recent)
    {
      total, recentDownloads, recentReleasesCount :=
        TallyRelease(total, recentDownloads, recentReleasesCount, releases[i], recent);
      assert releases[..i + 1][..i] == releases[..i];
    }
    assert releases[..|releases|] == releases;
  }
}
