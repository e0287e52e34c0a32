/**
 * Contributor analysis in repo_cite: role classification by commit
 * percentile, connections between contributors or issue participants and
 * the paper's authors, the affiliation guessed from a GitHub profile, and
 * the activity score.
 */
module ContributorAnalysis {
  import opened Common

  // -----------------------------------------------------------------------
  // classify_contributor_roles

  /** A contributor as the GitHub contributors endpoint lists it; None marks an absent key. */
  datatype GhContributor = GhContributor(login: Option<string>, contributions: Option<int>)

  /** `(username, commits)`, with `contributions` defaulting to 0. */
  type Tally = (Option<string>, int)

  datatype Role = Core | Occasional | OneTime

  datatype RoleEntry = RoleEntry(commits: int, role: Role)

  function TallyOf(c: GhContributor): Tally {
    (c.login, if c.contributions.Some? then c.contributions.value else 0)
  }

  /**
   * The role at 0-based position idx of n: the percentile (idx + 1) / n
   * compared with 0.10 and 0.50, in exact arithmetic.
   */
  function RoleAt(idx: nat, n: nat): Role
    requires idx < n
  {
    if 10 * (idx + 1) <= n then Core
    else if 2 * (idx + 1) <= n then Occasional
    else OneTime
  }

  /** Core positions are the first ⌊n/10⌋, Occasional ones run up to ⌊n/2⌋. */
  lemma RoleBands(idx: nat, n: nat)
    requires idx < n
    ensures RoleAt(idx, n) == Core <==> idx < n / 10
    ensures RoleAt(idx, n) == Occasional <==> n / 10 <= idx < n / 2
    ensures RoleAt(idx, n) == OneTime <==> n / 2 <= idx
  {
  }

  /** How many of the first k positions of n carry `role`. */
  function CountRole(n: nat, role: Role, k: nat): nat
    requires k <= n
  {
    if k == 0 then 0 else CountRole(n, role, k - 1) + (if RoleAt(k - 1, n) == role then 1 else 0)
  }

  lemma {:induction false} CountRolePrefix(n: nat, k: nat)
    requires k <= n
    ensures CountRole(n, Core, k) == Min(k, n / 10)
    ensures CountRole(n, Occasional, k) == Min(k, n / 2) - Min(k, n / 10)
  {
    if k > 0 {
      CountRolePrefix(n, k - 1);
      RoleBands(k - 1, n);
    }
  }

  function Min(a: int, b: int): int {
    if a <= b then a else b
  }

  /**
   * Exactly ⌊n/10⌋ positions are Core and ⌊n/2⌋ − ⌊n/10⌋ Occasional; with
   * fewer than 10 contributors nobody is Core.
   */
  lemma RoleCounts(n: nat)
    ensures CountRole(n, Core, n) == n / 10
    ensures CountRole(n, Occasional, n) == n / 2 - n / 10
    ensures CountRole(n, OneTime, n) == n - n / 2
    ensures n < 10 ==> CountRole(n, Core, n) == 0
  {
    CountRolePrefix(n, n);
    CountRoleTotal(n, n);
  }

  lemma {:induction false} CountRoleTotal(n: nat, k: nat)
    requires k <= n
    ensures CountRole(n, Core, k) + CountRole(n, Occasional, k) + CountRole(n, OneTime, k) == k
  {
    if k > 0 {
      CountRoleTotal(n, k - 1);
    }
  }

  // The sort: `contributor_commits.sort(key=lambda x: x[1], reverse=True)`,
  // which is stable, so equal counts keep their input order.

  /** Insert x after every leading element whose count is at least x's. */
  function InsertDesc(sorted: seq<Tally>, x: Tally): (r: seq<Tally>)
    ensures |r| == |sorted| + 1
  {
    if sorted == [] then [x]
    else if sorted[0].1 >= x.1 then [sorted[0]] + InsertDesc(sorted[1..], x)
    else [x] + sorted
  }

  lemma {:induction false} InsertDescPermutes(sorted: seq<Tally>, x: Tally)
    ensures multiset(InsertDesc(sorted, x)) == multiset(sorted) + multiset{x}
  {
    if sorted != [] && sorted[0].1 >= x.1 {
      InsertDescPermutes(sorted[1..], x);
      assert sorted == [sorted[0]] + sorted[1..];
    }
  }

  function SortDesc(xs: seq<Tally>): (r: seq<Tally>)
    ensures |r| == |xs|
  {
    if xs == [] then [] else InsertDesc(SortDesc(xs[..|xs| - 1]), xs[|xs| - 1])
  }

  predicate SortedDesc(s: seq<Tally>) {
    forall i, j :: 0 <= i < j < |s| ==> s[i].1 >= s[j].1
  }

  /** The entries with count k, in order. */
  function WithCount(s: seq<Tally>, k: int): seq<Tally> {
    if s == [] then []
    else WithCount(s[..|s| - 1], k) + (if s[|s| - 1].1 == k then [s[|s| - 1]] else [])
  }

  lemma {:induction false} WithCountCons(x: Tally, s: seq<Tally>, k: int)
    ensures WithCount([x] + s, k) == (if x.1 == k then [x] else []) + WithCount(s, k)
    decreases |s|
  {
    if s != [] {
      var init := s[..|s| - 1];
      assert ([x] + s)[..|s|] == [x] + init;
      WithCountCons(x, init, k);
    } else {
      assert ([x] + s)[..0] == [];
    }
  }

  /** Every entry of a sequence with count at most c. */
  predicate AllAtMost(s: seq<Tally>, c: int) {
    forall j :: 0 <= j < |s| ==> s[j].1 <= c
  }

  lemma AllAtMostInsert(s: seq<Tally>, x: Tally, c: int)
    requires AllAtMost(s, c) && x.1 <= c
    ensures AllAtMost(InsertDesc(s, x), c)
  {
    var r := InsertDesc(s, x);
    InsertDescPermutes(s, x);
    forall j | 0 <= j < |r| ensures r[j].1 <= c {
      assert r[j] in multiset(r);
      if r[j] != x {
        assert r[j] in multiset(s);
        var m :| 0 <= m < |s| && s[m] == r[j];
      }
    }
  }

  lemma {:induction false} InsertSorted(sorted: seq<Tally>, x: Tally)
    requires SortedDesc(sorted)
    ensures SortedDesc(InsertDesc(sorted, x))
  {
    if sorted != [] && sorted[0].1 >= x.1 {
      var rest := InsertDesc(sorted[1..], x);
      InsertSorted(sorted[1..], x);
      AllAtMostInsert(sorted[1..], x, sorted[0].1);
      assert InsertDesc(sorted, x) == [sorted[0]] + rest;
    }
  }

  /** Inserting x keeps the entries with any one count in order, x after them. */
  lemma {:induction false} InsertStable(sorted: seq<Tally>, x: Tally, k: int)
    requires SortedDesc(sorted)
    ensures WithCount(InsertDesc(sorted, x), k) == WithCount(sorted, k) + (if x.1 == k then [x] else [])
  {
    if sorted == [] {
      WithCountCons(x, [], k);
    } else if sorted[0].1 >= x.1 {
      assert SortedDesc(sorted[1..]);
      InsertStable(sorted[1..], x, k);
      var rest := InsertDesc(sorted[1..], x);
      assert InsertDesc(sorted, x) == [sorted[0]] + rest;
      StableHead(sorted[0], sorted[1..], rest, x, k);
      assert [sorted[0]] + sorted[1..] == sorted;
    } else {
      WithCountCons(x, sorted, k);
      if x.1 == k {
        NoneWithCount(sorted, k);
      }
    }
  }

  /** A common head keeps the entries with count k of both sides in step. */
  lemma StableHead(h: Tally, s: seq<Tally>, rest: seq<Tally>, x: Tally, k: int)
    requires WithCount(rest, k) == WithCount(s, k) + (if x.1 == k then [x] else [])
    ensures WithCount([h] + rest, k) == WithCount([h] + s, k) + (if x.1 == k then [x] else [])
  {
    WithCountCons(h, rest, k);
    WithCountCons(h, s, k);
    ConsAppended(if h.1 == k then [h] else [], WithCount(rest, k), WithCount(s, k), if x.1 == k then [x] else []);
  }

  lemma ConsAppended(head: seq<Tally>, a: seq<Tally>, b: seq<Tally>, tail: seq<Tally>)
    requires a == b + tail
    ensures head + a == (head + b) + tail
  {
  }

  /** A descending sequence whose head is below k holds no entry with count k. */
  lemma {:induction false} NoneWithCount(sorted: seq<Tally>, k: int)
    requires SortedDesc(sorted) && sorted != [] && sorted[0].1 < k
    ensures WithCount(sorted, k) == []
    decreases |sorted|
  {
    if |sorted| > 1 {
      NoneWithCount(sorted[..|sorted| - 1], k);
    } else {
      assert sorted[..0] == [];
    }
  }

  /**
   * The order the roles are assigned in: the counts in descending order,
   * a permutation of the input in which equal counts keep their input order.
   */
  lemma SortDescSpec(xs: seq<Tally>)
    ensures SortedDesc(SortDesc(xs))
    ensures multiset(SortDesc(xs)) == multiset(xs)
    ensures forall k :: WithCount(SortDesc(xs), k) == WithCount(xs, k)
  {
    SortDescSorted(xs);
    SortDescPermutes(xs);
    forall k ensures WithCount(SortDesc(xs), k) == WithCount(xs, k) {
      SortDescStable(xs, k);
    }
  }

  lemma {:induction false} SortDescSorted(xs: seq<Tally>)
    ensures SortedDesc(SortDesc(xs))
  {
    if xs != [] {
      SortDescSorted(xs[..|xs| - 1]);
      InsertSorted(SortDesc(xs[..|xs| - 1]), xs[|xs| - 1]);
    }
  }

  lemma {:induction false} SortDescPermutes(xs: seq<Tally>)
    ensures multiset(SortDesc(xs)) == multiset(xs)
  {
    if xs != [] {
      var init := xs[..|xs| - 1];
      SortDescPermutes(init);
      InsertDescPermutes(SortDesc(init), xs[|xs| - 1]);
      assert xs == init + [xs[|xs| - 1]];
    }
  }

  lemma {:induction false} SortDescStable(xs: seq<Tally>, k: int)
    ensures WithCount(SortDesc(xs), k) == WithCount(xs, k)
  {
    if xs != [] {
      var init := xs[..|xs| - 1];
      SortDescStable(init, k);
      SortDescSorted(init);
      InsertStable(SortDesc(init), xs[|xs| - 1], k);
    }
  }

  /** The `roles` dictionary after assigning positions 0..|s| of n in order. */
  function Roles(s: seq<Tally>, n: nat): map<Option<string>, RoleEntry>
    requires |s| <= n
  {
    if s == [] then map[]
    else Roles(s[..|s| - 1], n)[s[|s| - 1].0 := RoleEntry(s[|s| - 1].1, RoleAt(|s| - 1, n))]
  }

  /**
   * Every username gets an entry, and a username listed twice keeps the
   * entry of its later position.
   */
  lemma {:induction false} RolesSpec(s: seq<Tally>, n: nat, u: Option<string>)
    requires |s| <= n
    ensures u in Roles(s, n) <==> exists i :: 0 <= i < |s| && s[i].0 == u
    ensures u in Roles(s, n) ==> exists i :: (0 <= i < |s| && s[i].0 == u
      && Roles(s, n)[u] == RoleEntry(s[i].1, RoleAt(i, n))
      && forall j :: i < j < |s| ==> s[j].0 != u)
  {
    if s != [] {
      var init := s[..|s| - 1];
      RolesSpec(init, n, u);
      if u != s[|s| - 1].0 && u in Roles(s, n) {
        var i :| 0 <= i < |init| && init[i].0 == u && Roles(init, n)[u] == RoleEntry(init[i].1, RoleAt(i, n))
          && forall j :: i < j < |init| ==> init[j].0 != u;
        assert s[i] == init[i];
        forall j | i < j < |s| ensures s[j].0 != u {
          if j < |init| {
            assert s[j] == init[j];
          }
        }
      }
      if exists i :: 0 <= i < |s| && s[i].0 == u {
        var i :| 0 <= i < |s| && s[i].0 == u;
        if i < |init| {
          assert init[i] == s[i];
        }
      }
    }
  }

  /**
   * classify_contributor_roles: sort by commits, descending and stably,
   * and give each username the role of its position.
   */
  method ClassifyContributorRoles(contributors: seq<GhContributor>) returns (roles: map<Option<string>, RoleEntry>)
    ensures var tallies := seq(|contributors|, i requires 0 <= i < |contributors| => TallyOf(contributors[i]));
      roles == Roles(SortDesc(tallies), |contributors|)
  {
    var tallies: seq<Tally> := [];
    for i := 0 to |contributors|
      invariant tallies == seq(i, j requires 0 <= j < i => TallyOf(contributors[j]))
    {
      tallies := tallies + [TallyOf(contributors[i])];
    }
    var sorted := SortDesc(tallies);
    var n := |sorted|;
    roles := map[];
    for idx := 0 to n
      invariant roles == Roles(sorted[..idx], n)
    {
      assert sorted[..idx + 1][..idx] == sorted[..idx];
      roles := roles[sorted[idx].0 := RoleEntry(sorted[idx].1, RoleAt(idx, n))];
    }
    assert sorted[..n] == sorted;
  }

  // -----------------------------------------------------------------------
  // analyze_connections

  /** A contributor's `login` and `name`; None marks an absent or null value. */
  datatype GhUser = GhUser(login: Option<string>, name: Option<string>)

  datatype ConnectionRole = ContributorRole | ParticipantRole

  /** `{'username': ..., 'role': ..., 'connection': 'Author'}` */
  datatype Connection = Connection(username: Option<string>, role: ConnectionRole)

  function LowerNames(authorNames: seq<string>): set<string> {
    set i | 0 <= i < |authorNames| :: Lower(authorNames[i])
  }

  /** The lowercased login or the lowercased name is an author's lowercased name. */
  predicate IsAuthorContributor(c: GhUser, names: set<string>) {
    Lower(OrEmpty(c.login)) in names || Lower(OrEmpty(c.name)) in names
  }

  function ContributorLinks(cs: seq<GhUser>, names: set<string>): (r: seq<Connection>)
    ensures |r| <= |cs|
    ensures forall i :: 0 <= i < |r| ==> r[i].role == ContributorRole
  {
    if cs == [] then []
    else
      var c := cs[|cs| - 1];
      ContributorLinks(cs[..|cs| - 1], names)
        + (if IsAuthorContributor(c, names) then [Connection(c.login, ContributorRole)] else [])
  }

  function ParticipantLinks(ps: seq<string>, names: set<string>): (r: seq<Connection>)
    ensures |r| <= |ps|
    ensures forall i :: 0 <= i < |r| ==> r[i].role == ParticipantRole
  {
    if ps == [] then []
    else
      var p := ps[|ps| - 1];
      ParticipantLinks(ps[..|ps| - 1], names) + (if Lower(p) in names then [Connection(Some(p), ParticipantRole)] else [])
  }

  /** Some contributor with login u is an author. */
  predicate HasAuthorLogin(cs: seq<GhUser>, names: set<string>, u: Option<string>) {
    exists i :: 0 <= i < |cs| && cs[i].login == u && IsAuthorContributor(cs[i], names)
  }

  lemma HasAuthorLoginSnoc(cs: seq<GhUser>, names: set<string>, u: Option<string>)
    requires cs != []
    ensures HasAuthorLogin(cs, names, u) <==> (HasAuthorLogin(cs[..|cs| - 1], names, u)
      || (cs[|cs| - 1].login == u && IsAuthorContributor(cs[|cs| - 1], names)))
  {
    var p := (c: GhUser) => c.login == u && IsAuthorContributor(c, names);
    SomeSatisfiesSnoc(cs, p);
    assert HasAuthorLogin(cs, names, u) == SomeSatisfies(cs, p);
    assert HasAuthorLogin(cs[..|cs| - 1], names, u) == SomeSatisfies(cs[..|cs| - 1], p);
  }

  /** A contributor yields a connection exactly when its login or name is an author's. */
  lemma {:induction false} ContributorLinksMembers(cs: seq<GhUser>, names: set<string>, u: Option<string>)
    ensures Connection(u, ContributorRole) in ContributorLinks(cs, names) <==> HasAuthorLogin(cs, names, u)
  {
    if cs != [] {
      ContributorLinksMembers(cs[..|cs| - 1], names, u);
      HasAuthorLoginSnoc(cs, names, u);
    }
  }

  /** A participant yields a connection exactly when its lowercased name is an author's. */
  lemma {:induction false} ParticipantLinksMembers(ps: seq<string>, names: set<string>, p: string)
    ensures Connection(Some(p), ParticipantRole) in ParticipantLinks(ps, names) <==> p in ps && Lower(p) in names
  {
    if ps != [] {
      var n := |ps| - 1;
      ParticipantLinksMembers(ps[..n], names, p);
      assert ps == ps[..n] + [ps[n]];
    }
  }

  /**
   * analyze_connections: the contributors who are authors, then the
   * participants who are authors, each compared case-insensitively.
   */
  method AnalyzeConnections(contributors: seq<GhUser>, participants: seq<string>, authorNames: seq<string>)
    returns (connections: seq<Connection>)
    ensures connections == ContributorLinks(contributors, LowerNames(authorNames))
                           + ParticipantLinks(participants, LowerNames(authorNames))
    ensures |connections| <= |contributors| + |participants|
    ensures forall i, j :: 0 <= i < j < |connections| && connections[j].role == ContributorRole ==>
      connections[i].role == ContributorRole
  {
    var names := set a | a in authorNames :: Lower(a);
    assert names == LowerNames(authorNames) by {
      forall x ensures x in names <==> x in LowerNames(authorNames) {
        if x in names {
          var a :| a in authorNames && Lower(a) == x;
          var i :| 0 <= i < |authorNames| && authorNames[i] == a;
        }
      }
    }
    connections := ConnectContributors(contributors, names);
    connections := ConnectParticipants(connections, participants, names);
  }

  /** The contributor loop of analyze_connections. */
  method ConnectContributors(contributors: seq<GhUser>, names: set<string>) returns (connections: seq<Connection>)
    ensures connections == ContributorLinks(contributors, names)
  {
    connections := [];
    for i := 0 to |contributors|
      invariant connections == ContributorLinks(contributors[..i], names)
    {
      assert contributors[..i + 1][..i] == contributors[..i];
      var c := contributors[i];
      var login := Lower(OrEmpty(c.login));
      var name := if Truthy(c.name) then Lower(c.name.value) else "";
      assert name == Lower(OrEmpty(c.name));
      if login in names || name in names {
        connections := connections + [Connection(c.login, ContributorRole)];
      }
    }
    assert contributors[..|contributors|] == contributors;
  }

  /** The participant loop of analyze_connections, appending to the contributors' connections. */
  method ConnectParticipants(before: seq<Connection>, participants: seq<string>, names: set<string>)
    returns (connections: seq<Connection>)
    ensures connections == before + ParticipantLinks(participants, names)
  {
    connections := before;
    for i := 0 to |participants|
      invariant connections == before + ParticipantLinks(participants[..i], names)
    {
      assert participants[..i + 1][..i] == participants[..i];
      var p := participants[i];
      if Lower(p) in names {
        connections := connections + [Connection(Some(p), ParticipantRole)];
      }
    }
    assert participants[..|participants|] == participants;
    assert before + ParticipantLinks(participants, names) == connections;
  }

  // -----------------------------------------------------------------------
  // analyze_contributor_affiliations

  /** The `company` and `email` of a GitHub user profile. */
  datatype UserData = UserData(company: Option<string>, email: Option<string>)

  /**
   * The affiliation of one contributor, given the profile fetch (None when
   * it raised): the stripped company when that is not empty, otherwise the
   * text after the last `@` of the email, otherwise whatever the company
   * gave.
   */
  function Affiliation(user: Option<UserData>): (a: Option<string>)
    ensures user.None? ==> a.None?
    ensures user.Some? ==>
      var company := user.value.company;
      var email := user.value.email;
      && (Truthy(company) && Strip(company.value) != "" ==> a == Some(Strip(company.value)))
      && (!(Truthy(company) && Strip(company.value) != "") && Truthy(email) ==>
            a == Some(email.value[AfterLast(email.value, '@')..]) && '@' !in a.value)
      && (!(Truthy(company) && Strip(company.value) != "") && !Truthy(email) ==>
            a == (if Truthy(company) then Some("") else None))
  {
    match user
    case None => None
    case Some(data) =>
      var affiliation := if Truthy(data.company) then Some(Strip(data.company.value)) else None;
      if !Truthy(affiliation) && Truthy(data.email) then
        var pieces := Split(data.email.value, '@');
        LastPieceOfSplit(data.email.value, '@');
        Some(pieces[|pieces| - 1])
      else affiliation
  }

  /** analyze_contributor_affiliations: one (username, affiliation) record per contributor, in order. */
  method AnalyzeContributorAffiliations(contributors: seq<(Option<string>, Option<UserData>)>)
    returns (affiliations: seq<(Option<string>, Option<string>)>)
    ensures |affiliations| == |contributors|
    ensures forall i :: 0 <= i < |contributors| ==>
      affiliations[i] == (contributors[i].0, Affiliation(contributors[i].1))
  {
    affiliations := [];
    for i := 0 to |contributors|
      invariant |affiliations| == i
      invariant forall j :: 0 <= j < i ==> affiliations[j] == (contributors[j].0, Affiliation(contributors[j].1))
    {
      var (username, fetched) := contributors[i];
      affiliations := affiliations + [(username, Affiliation(fetched))];
    }
  }

  // -----------------------------------------------------------------------
  // calculate_activity_score

  /** The recent-activity counts of a repository; None marks an absent key. */
  datatype ActivityCounts = ActivityCounts(
    commits: Option<int>, issuesOpened: Option<int>, issuesClosed: Option<int>,
    prsOpened: Option<int>, prsMerged: Option<int>, discussion: Option<int>)

  function CountOf(x: Option<int>): int {
    if x.Some? then x.value else 0
  }

  /**
   * calculate_activity_score: commits and pull requests weigh 1, issues
   * opened, issues closed and discussion weigh 1/2; absent counts are 0.
   */
  function ActivityScore(m: ActivityCounts): (score: real)
    ensures 2.0 * score == (2 * (CountOf(m.commits) + CountOf(m.prsOpened) + CountOf(m.prsMerged))
                            + CountOf(m.issuesOpened) + CountOf(m.issuesClosed) + CountOf(m.discussion)) as real
  {
    var score := 0.0;
    var score := score + (CountOf(m.commits) * 1) as real;
    var score := score + CountOf(m.issuesOpened) as real * 0.5;
    var score := score + CountOf(m.issuesClosed) as real * 0.5;
    var score := score + (CountOf(m.prsOpened) * 1) as real;
    var score := score + (CountOf(m.prsMerged) * 1) as real;
    score + CountOf(m.discussion) as real * 0.5
  }

  /** More activity of any kind never lowers the score. */
  lemma ActivityScoreMonotone(m: ActivityCounts, m': ActivityCounts)
    requires CountOf(m.commits) <= CountOf(m'.commits) && CountOf(m.issuesOpened) <= CountOf(m'.issuesOpened)
    requires CountOf(m.issuesClosed) <= CountOf(m'.issuesClosed) && CountOf(m.prsOpened) <= CountOf(m'.prsOpened)
    requires CountOf(m.prsMerged) <= CountOf(m'.prsMerged) && CountOf(m.discussion) <= CountOf(m'.discussion)
    ensures ActivityScore(m) <= ActivityScore(m')
  {
  }
}
