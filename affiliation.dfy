/**
 * University-affiliation scoring in repofinder: identifier search and
 * occurrence points, contributor and owner affiliation points, the set of
 * active committers, and the set-to-list conversion applied before JSON
 * output.
 */
module Affiliation {
  import opened Common

  // -----------------------------------------------------------------------
  // contains_university_identifier

  /** Some identifier, lowercased, is a substring of the lowercased text. */
  predicate HasIdentifier(text: string, identifiers: seq<string>) {
    exists i :: 0 <= i < |identifiers| && Contains(Lower(text), Lower(identifiers[i]))
  }

  /** contains_university_identifier: stops at the first identifier found. */
  method ContainsIdentifier(text: string, identifiers: seq<string>) returns (found: bool)
    ensures found <==> HasIdentifier(text, identifiers)
  {
    var lowered := Lower(text);
    for i := 0 to |identifiers|
      invariant forall j :: 0 <= j < i ==> !Contains(lowered, Lower(identifiers[j]))
    {
      if Contains(lowered, Lower(identifiers[i])) {
        return true;
      }
    }
    return false;
  }

  // -----------------------------------------------------------------------
  // count_university_identifier_occurrences

  /** The items of `points_per_occurrence`, in dictionary order. */
  type Weights = seq<(string, int)>

  /** Σ count × points over the identifiers, counts taken in `lowered`. */
  function IdentifierPoints(lowered: string, weights: Weights): int {
    if weights == [] then 0
    else
      var last := weights[|weights| - 1];
      IdentifierPoints(lowered, weights[..|weights| - 1]) + CountOccurrences(lowered, Lower(last.0)) * last.1
  }

  /** The `matches` dictionary: identifiers with a non-zero count, mapped to it. */
  function IdentifierMatches(lowered: string, weights: Weights): map<string, nat> {
    if weights == [] then map[]
    else
      var m := IdentifierMatches(lowered, weights[..|weights| - 1]);
      var k := weights[|weights| - 1].0;
      var count := CountOccurrences(lowered, Lower(k));
      if count > 0 then m[k := count] else m
  }

  predicate IsKey(weights: Weights, k: string) {
    exists i :: 0 <= i < |weights| && weights[i].0 == k
  }

  /**
   * An identifier is among the matches exactly when it is a key whose
   * lowercased form occurs in the text, and it maps to its str.count.
   */
  lemma {:induction false} IdentifierMatchesSpec(lowered: string, weights: Weights, k: string)
    ensures k in IdentifierMatches(lowered, weights) <==> IsKey(weights, k) && Contains(lowered, Lower(k))
    ensures k in IdentifierMatches(lowered, weights) ==>
      IdentifierMatches(lowered, weights)[k] == CountOccurrences(lowered, Lower(k))
  {
    CountPositiveIffContains(lowered, Lower(k));
    if weights != [] {
      var init := weights[..|weights| - 1];
      IdentifierMatchesSpec(lowered, init, k);
      if IsKey(init, k) {
        var i :| 0 <= i < |init| && init[i].0 == k;
        assert weights[i].0 == k;
      }
      if IsKey(weights, k) && weights[|weights| - 1].0 != k {
        var i :| 0 <= i < |weights| && weights[i].0 == k;
        assert init[i].0 == k;
      }
    }
  }

  /**
   * count_university_identifier_occurrences: lowercases the text and, for
   * each key of the points dictionary, counts its non-overlapping
   * occurrences.  The `university_identifiers` argument is never read.
   */
  method CountIdentifierOccurrences(text: string, weights: Weights)
    returns (points: int, matches: map<string, nat>)
    ensures points == IdentifierPoints(Lower(text), weights)
    ensures matches == IdentifierMatches(Lower(text), weights)
  {
    var lowered := Lower(text);
    points := 0;
    matches := map[];
    for i := 0 to |weights|
      invariant points == IdentifierPoints(lowered, weights[..i])
      invariant matches == IdentifierMatches(lowered, weights[..i])
    {
      assert weights[..i + 1][..i] == weights[..i];
      var (identifier, value) := weights[i];
      var count := CountOccurrences(lowered, Lower(identifier));
      if count > 0 {
        matches := matches[identifier := count];
        points := points + count * value;
      }
    }
    assert weights[..|weights|] == weights;
  }

  /** Every identifier weighted the same: `{k: v for k in identifiers}`. */
  function Uniform(identifiers: seq<string>, v: int): (w: Weights)
    ensures |w| == |identifiers|
    ensures forall i :: 0 <= i < |w| ==> w[i] == (identifiers[i], v)
  {
    seq(|identifiers|, i requires 0 <= i < |identifiers| => (identifiers[i], v))
  }

  /** The total number of occurrences of the identifiers. */
  function TotalCount(lowered: string, identifiers: seq<string>): nat {
    if identifiers == [] then 0
    else TotalCount(lowered, identifiers[..|identifiers| - 1]) + CountOccurrences(lowered, Lower(identifiers[|identifiers| - 1]))
  }

  /** With a uniform weight the points are that weight times the total number of occurrences. */
  lemma {:induction false} UniformPoints(lowered: string, identifiers: seq<string>, v: int)
    ensures IdentifierPoints(lowered, Uniform(identifiers, v)) == v * TotalCount(lowered, identifiers)
  {
    if identifiers != [] {
      var init := identifiers[..|identifiers| - 1];
      UniformPoints(lowered, init, v);
      var count := CountOccurrences(lowered, Lower(identifiers[|identifiers| - 1]));
      assert Uniform(identifiers, v)[..|identifiers| - 1] == Uniform(init, v);
      assert IdentifierPoints(lowered, Uniform(identifiers, v)) == v * TotalCount(lowered, init) + count * v;
      assert v * (TotalCount(lowered, init) + count) == v * TotalCount(lowered, init) + count * v;
    }
  }

  // -----------------------------------------------------------------------
  // analyze_owner_for_affiliation

  /** The owner record: each field absent, null or a string. */
  datatype Owner = Owner(ownerType: Option<Option<string>>, name: Option<string>, description: Option<string>,
                         blog: Option<string>, email: Option<string>, location: Option<string>)

  /** `owner_data.get('type', 'User') == 'Organization'` */
  predicate IsOrganization(owner: Owner) {
    owner.ownerType == Some(Some("Organization"))
  }

  /**
   * The organisation text that is searched, before lowercasing (the
   * source lowercases it once here and again inside the count, to the
   * same effect).
   */
  function OwnerText(owner: Owner): string {
    Join([OrEmpty(owner.name), OrEmpty(owner.description), OrEmpty(owner.blog),
          OrEmpty(owner.email), OrEmpty(owner.location)], " ")
  }

  const OwnerPoints: int := 30

  lemma OwnerCount(text: string, identifiers: seq<string>)
    ensures IdentifierPoints(Lower(text), Uniform(identifiers, OwnerPoints)) == OwnerPoints * TotalCount(Lower(text), identifiers)
  {
    UniformPoints(Lower(text), identifiers, OwnerPoints);
  }

  /** With uniform weights an identifier matches exactly when it occurs. */
  lemma UniformMatches(lowered: string, identifiers: seq<string>, v: int, k: string)
    ensures k in IdentifierMatches(lowered, Uniform(identifiers, v)) <==> k in identifiers && Contains(lowered, Lower(k))
  {
    var weights := Uniform(identifiers, v);
    IdentifierMatchesSpec(lowered, weights, k);
    if k in identifiers {
      var i :| 0 <= i < |identifiers| && identifiers[i] == k;
      assert weights[i].0 == k;
    }
  }

  /** Each matched identifier maps to its number of occurrences in the text. */
  lemma OwnerMatchCounts(lowered: string, identifiers: seq<string>, v: int, k: string)
    requires k in IdentifierMatches(lowered, Uniform(identifiers, v))
    ensures IdentifierMatches(lowered, Uniform(identifiers, v))[k] == CountOccurrences(lowered, Lower(k))
  {
    IdentifierMatchesSpec(lowered, Uniform(identifiers, v), k);
  }

  /**
   * analyze_owner_for_affiliation: an organisation scores 30 points per
   * identifier occurrence in its name, description, blog, email and
   * location; a user (or an owner without a type) scores nothing.
   */
  method AnalyzeOwnerForAffiliation(owner: Owner, identifiers: seq<string>)
    returns (points: int, matches: map<string, nat>, isOrganization: bool)
    ensures isOrganization <==> IsOrganization(owner)
    ensures !isOrganization ==> points == 0 && matches == map[]
    ensures isOrganization ==> points == OwnerPoints * TotalCount(Lower(OwnerText(owner)), identifiers)
    ensures isOrganization ==> forall k :: k in matches <==>
      (k in identifiers && Contains(Lower(OwnerText(owner)), Lower(k)))
    ensures isOrganization ==> forall k :: k in matches ==>
      matches[k] == CountOccurrences(Lower(OwnerText(owner)), Lower(k))
    ensures isOrganization ==> matches == IdentifierMatches(Lower(OwnerText(owner)), Uniform(identifiers, OwnerPoints))
  {
    points := 0;
    matches := map[];
    if IsOrganization(owner) {
      var text := OwnerText(owner);
      var weights := Uniform(identifiers, OwnerPoints);
      points, matches := CountIdentifierOccurrences(text, weights);
      OwnerCount(text, identifiers);
      forall k ensures k in matches <==> (k in identifiers && Contains(Lower(text), Lower(k))) {
        UniformMatches(Lower(text), identifiers, OwnerPoints, k);
      }
      forall k | k in matches ensures matches[k] == CountOccurrences(Lower(text), Lower(k)) {
        OwnerMatchCounts(Lower(text), identifiers, OwnerPoints, k);
      }
    }
    isOrganization := IsOrganization(owner);
  }

  // -----------------------------------------------------------------------
  // analyze_contributors_for_affiliation

  /** The contributor details the scoring reads; `repoCount` is len(contributor.get('repositories', [])). */
  datatype Contributor = Contributor(username: Option<string>, email: Option<string>, bio: Option<string>, repoCount: nat)

  datatype RepoMatch = RepoMatch(username: Option<string>, repoCount: nat, points: int)

  datatype Category<T> = Category(contributors: seq<T>, points: int)

  datatype AffiliationMatches = AffiliationMatches(
    email: Category<Option<string>>, profile: Category<Option<string>>, otherRepos: Category<RepoMatch>)

  const EmailPoints: int := 15
  const ProfilePoints: int := 10
  const RepoPoints: int := 5

  predicate EmailMatch(c: Contributor, emailDomain: string) {
    Contains(Lower(OrEmpty(c.email)), Lower(emailDomain))
  }

  predicate ProfileMatch(c: Contributor, identifiers: seq<string>) {
    HasIdentifier(OrEmpty(c.bio), identifiers)
  }

  /** The usernames of the contributors whose email contains the domain, in order. */
  function EmailMatched(cs: seq<Contributor>, emailDomain: string): seq<Option<string>> {
    if cs == [] then []
    else
      var c := cs[|cs| - 1];
      EmailMatched(cs[..|cs| - 1], emailDomain) + (if EmailMatch(c, emailDomain) then [c.username] else [])
  }

  /** The usernames of the contributors whose bio names an identifier, in order. */
  function ProfileMatched(cs: seq<Contributor>, identifiers: seq<string>): seq<Option<string>> {
    if cs == [] then []
    else
      var c := cs[|cs| - 1];
      ProfileMatched(cs[..|cs| - 1], identifiers) + (if ProfileMatch(c, identifiers) then [c.username] else [])
  }

  /** One record per contributor with associated repositories, worth 5 per repository. */
  function RepoMatches(cs: seq<Contributor>): seq<RepoMatch> {
    if cs == [] then []
    else
      var c := cs[|cs| - 1];
      RepoMatches(cs[..|cs| - 1])
        + (if c.repoCount > 0 then [RepoMatch(c.username, c.repoCount, RepoPoints * c.repoCount)] else [])
  }

  function SumPoints(ms: seq<RepoMatch>): int {
    if ms == [] then 0 else SumPoints(ms[..|ms| - 1]) + ms[|ms| - 1].points
  }

  function TotalRepos(cs: seq<Contributor>): nat {
    if cs == [] then 0 else TotalRepos(cs[..|cs| - 1]) + cs[|cs| - 1].repoCount
  }

  lemma SumPointsSnoc(ms: seq<RepoMatch>, m: RepoMatch)
    ensures SumPoints(ms + [m]) == SumPoints(ms) + m.points
  {
    assert (ms + [m])[..|ms|] == ms;
  }

  /** The repository points are 5 per associated repository over all contributors. */
  lemma {:induction false} RepoPointsTotal(cs: seq<Contributor>)
    ensures SumPoints(RepoMatches(cs)) == RepoPoints * TotalRepos(cs)
  {
    if cs != [] {
      var c := cs[|cs| - 1];
      RepoPointsTotal(cs[..|cs| - 1]);
      if c.repoCount > 0 {
        SumPointsSnoc(RepoMatches(cs[..|cs| - 1]), RepoMatch(c.username, c.repoCount, RepoPoints * c.repoCount));
        assert RepoPoints * (TotalRepos(cs[..|cs| - 1]) + c.repoCount) == RepoPoints * TotalRepos(cs[..|cs| - 1]) + c.repoCount * RepoPoints;
      } else {
        assert RepoMatches(cs) == RepoMatches(cs[..|cs| - 1]);
        assert TotalRepos(cs) == TotalRepos(cs[..|cs| - 1]);
      }
    }
  }

  /** Some contributor with username `u` has an email containing the domain. */
  predicate HasEmailMatch(cs: seq<Contributor>, emailDomain: string, u: Option<string>) {
    exists i :: 0 <= i < |cs| && cs[i].username == u && EmailMatch(cs[i], emailDomain)
  }

  lemma HasEmailMatchSnoc(cs: seq<Contributor>, emailDomain: string, u: Option<string>)
    requires cs != []
    ensures HasEmailMatch(cs, emailDomain, u) <==>
      HasEmailMatch(cs[..|cs| - 1], emailDomain, u) || (cs[|cs| - 1].username == u && EmailMatch(cs[|cs| - 1], emailDomain))
  {
    var p := (c: Contributor) => c.username == u && EmailMatch(c, emailDomain);
    SomeSatisfiesSnoc(cs, p);
    assert HasEmailMatch(cs, emailDomain, u) == SomeSatisfies(cs, p);
    assert HasEmailMatch(cs[..|cs| - 1], emailDomain, u) == SomeSatisfies(cs[..|cs| - 1], p);
  }

  /** A username is listed under email exactly when a contributor with it has a matching email. */
  lemma {:induction false} EmailMatchedMembers(cs: seq<Contributor>, emailDomain: string, u: Option<string>)
    ensures u in EmailMatched(cs, emailDomain) <==> HasEmailMatch(cs, emailDomain, u)
  {
    if cs != [] {
      EmailMatchedMembers(cs[..|cs| - 1], emailDomain, u);
      HasEmailMatchSnoc(cs, emailDomain, u);
    }
  }

  /**
   * analyze_contributors_for_affiliation: 15 points per email containing
   * the university's email domain, 10 per bio naming an identifier, 5 per
   * associated repository; the total is the sum of the three categories.
   */
  method AnalyzeContributorsForAffiliation(cs: seq<Contributor>, emailDomain: string, identifiers: seq<string>)
    returns (total: int, matches: AffiliationMatches)
    ensures matches.email == Category(EmailMatched(cs, emailDomain), EmailPoints * |EmailMatched(cs, emailDomain)|)
    ensures matches.profile == Category(ProfileMatched(cs, identifiers), ProfilePoints * |ProfileMatched(cs, identifiers)|)
    ensures matches.otherRepos == Category(RepoMatches(cs), RepoPoints * TotalRepos(cs))
    ensures total == matches.email.points + matches.profile.points + matches.otherRepos.points
  {
    var emailPoints, profilePoints, otherReposPoints := 0, 0, 0;
    var emails: seq<Option<string>> := [];
    var profiles: seq<Option<string>> := [];
    var repos: seq<RepoMatch> := [];
    for i := 0 to |cs|
      invariant emails == EmailMatched(cs[..i], emailDomain)
      invariant profiles == ProfileMatched(cs[..i], identifiers)
      invariant repos == RepoMatches(cs[..i])
      invariant emailPoints == EmailPoints * |emails|
      invariant profilePoints == ProfilePoints * |profiles|
      invariant otherReposPoints == SumPoints(repos)
    {
      assert cs[..i + 1][..i] == cs[..i];
      var c := cs[i];
      if Contains(Lower(OrEmpty(c.email)), Lower(emailDomain)) {
        emails := emails + [c.username];
        emailPoints := emailPoints + EmailPoints;
      }
      var inBio := ContainsIdentifier(OrEmpty(c.bio), identifiers);
      if inBio {
        profiles := profiles + [c.username];
        profilePoints := profilePoints + ProfilePoints;
      }
      if c.repoCount > 0 {
        var points := RepoPoints * c.repoCount;
        otherReposPoints := otherReposPoints + points;
        SumPointsSnoc(repos, RepoMatch(c.username, c.repoCount, points));
        repos := repos + [RepoMatch(c.username, c.repoCount, points)];
      }
    }
    assert cs[..|cs|] == cs;
    RepoPointsTotal(cs);
    matches := AffiliationMatches(Category(emails, emailPoints), Category(profiles, profilePoints),
                                  Category(repos, otherReposPoints));
    total := emailPoints + profilePoints + otherReposPoints;
  }

  // -----------------------------------------------------------------------
  // get_active_contributors

  /** `commit.get('author')`: absent or null, or an author with an optional login. */
  datatype Commit = Commit(author: Option<Option<string>>)

  /** The login a commit contributes, if its author and login are both present and non-empty. */
  predicate ActiveLogin(c: Commit, login: string) {
    c.author.Some? && c.author.value == Some(login) && login != ""
  }

  /** get_active_contributors: the set of non-empty author logins of the commits. */
  method GetActiveContributors(commits: seq<Commit>) returns (contributors: set<string>)
    ensures forall u :: u in contributors <==> exists i :: 0 <= i < |commits| && ActiveLogin(commits[i], u)
  {
    contributors := {};
    for i := 0 to |commits|
      invariant forall u :: u in contributors <==> exists j :: 0 <= j < i && ActiveLogin(commits[j], u)
    {
      var author := commits[i].author;
      if author.Some? && Truthy(author.value) {
        contributors := contributors + {author.value.value};
      }
    }
  }

  // -----------------------------------------------------------------------
  // convert_sets_to_lists

  /**
   * The values the analysis results are built from.  A set's elements are
   * listed in its iteration order; a dictionary's items in insertion order.
   */
  datatype PyValue =
    | Atom(text: string)
    | PyList(elements: seq<PyValue>)
    | PySet(members: seq<PyValue>)
    | PyDict(items: seq<(string, PyValue)>)

  /** Python sets hold hashable values only, so never a list, set or dictionary. */
  predicate WellFormedValue(v: PyValue) {
    match v
    case Atom(_) => true
    case PyList(es) => forall i :: 0 <= i < |es| ==> WellFormedValue(es[i])
    case PySet(ms) => forall i :: 0 <= i < |ms| ==> ms[i].Atom?
    case PyDict(items) => forall i :: 0 <= i < |items| ==> WellFormedValue(items[i].1)
  }

  predicate NoSets(v: PyValue) {
    match v
    case Atom(_) => true
    case PyList(es) => forall i :: 0 <= i < |es| ==> NoSets(es[i])
    case PySet(_) => false
    case PyDict(items) => forall i :: 0 <= i < |items| ==> NoSets(items[i].1)
  }

  /** convert_sets_to_lists: every set becomes the list of its members, recursively through lists and dictionaries. */
  function ConvertSetsToLists(v: PyValue): (r: PyValue)
    ensures v.Atom? <==> r.Atom?
    ensures v.PyDict? <==> r.PyDict?
    ensures v.PyDict? ==> |r.items| == |v.items| && forall i :: 0 <= i < |v.items| ==> r.items[i].0 == v.items[i].0
    ensures v.PySet? ==> r == PyList(v.members)
  {
    match v
    case Atom(_) => v
    case PyList(es) => PyList(seq(|es|, i requires 0 <= i < |es| => ConvertSetsToLists(es[i])))
    case PySet(ms) => PyList(ms)
    case PyDict(items) => PyDict(seq(|items|, i requires 0 <= i < |items| => (items[i].0, ConvertSetsToLists(items[i].1))))
  }

  /** On a well-formed value no set survives the conversion. */
  lemma {:induction false} ConvertRemovesSets(v: PyValue)
    requires WellFormedValue(v)
    ensures NoSets(ConvertSetsToLists(v))
  {
    match v
    case Atom(_) =>
    case PyList(es) =>
      forall i | 0 <= i < |es| ensures NoSets(ConvertSetsToLists(v).elements[i]) {
        ConvertRemovesSets(es[i]);
      }
    case PySet(ms) =>
      forall i | 0 <= i < |ms| ensures NoSets(ms[i]) {
      }
    case PyDict(items) =>
      forall i | 0 <= i < |items| ensures NoSets(ConvertSetsToLists(v).items[i].1) {
        ConvertRemovesSets(items[i].1);
      }
  }

  /** A value without sets is left unchanged, so the conversion is idempotent on well-formed values. */
  lemma {:induction false} ConvertFixesSetFree(v: PyValue)
    requires NoSets(v)
    ensures ConvertSetsToLists(v) == v
  {
    match v
    case Atom(_) =>
    case PyList(es) =>
      forall i | 0 <= i < |es| ensures ConvertSetsToLists(es[i]) == es[i] {
        ConvertFixesSetFree(es[i]);
      }
      assert ConvertSetsToLists(v).elements == es;
    case PyDict(items) =>
      forall i | 0 <= i < |items| ensures ConvertSetsToLists(items[i].1) == items[i].1 {
        ConvertFixesSetFree(items[i].1);
      }
      assert ConvertSetsToLists(v).items == items;
  }

  lemma ConvertIdempotent(v: PyValue)
    requires WellFormedValue(v)
    ensures ConvertSetsToLists(ConvertSetsToLists(v)) == ConvertSetsToLists(v)
  {
    ConvertRemovesSets(v);
    ConvertFixesSetFree(ConvertSetsToLists(v));
  }
}
