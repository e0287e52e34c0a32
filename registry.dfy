/**
 * The entity registry that repo_cite's analyze_repository fills in place:
 * four dictionaries (people, papers, projects, institutions) keyed by
 * fresh identifiers, shared by every repository analysed in one run.
 *
 * Identifiers come from uuid4 in the program; here they are the values of
 * a counter `nextId`, which is what the registry relies on: every new key
 * differs from every key in use.  Python dictionaries remember insertion
 * order, which matters to the `next(...)` lookups and to the final
 * recomputation of a project's contributors; `personOrder` and
 * `institutionOrder` keep that order.
 */
module Registry {
  import opened Common

  type Id = nat

  datatype Person = Person(
    name: Option<string>,
    orcid: Option<string>,
    githubUsername: Option<string>,
    affiliations: seq<Id>,
    authoredPapers: seq<Id>,
    contributedProjects: seq<Id>)

  datatype Institution = Institution(name: Option<string>, affiliatedPeople: seq<Id>)

  datatype Paper = Paper(
    doi: Option<string>,
    title: Option<string>,
    domains: seq<string>,
    authors: seq<Id>,
    citesPapers: seq<Id>,
    citedByPapers: seq<Id>,
    associatedProjects: seq<Id>,
    concepts: seq<string>)

  /** A project record; its descriptive fields and activity metrics are not modelled. */
  datatype Project = Project(fullName: string, contributors: seq<Id>, associatedPapers: seq<Id>, queries: seq<string>)

  /** An entry of `authors_info`. */
  datatype AuthorInput = AuthorInput(name: Option<string>, orcid: Option<string>, authorId: Option<string>, institutions: seq<Option<string>>)

  /** An entry of the first- or second-degree citation lists. */
  datatype CitationInput = CitationInput(doi: Option<string>, title: Option<string>, concepts: seq<string>)

  /** The part of `paper_analysis` that exists when a DOI and its paper were found. */
  datatype PaperAnalysis = PaperAnalysis(
    doi: Option<string>,
    title: Option<string>,
    domains: seq<string>,
    authors: seq<AuthorInput>,
    firstDegree: seq<CitationInput>,
    secondDegree: seq<CitationInput>)

  /** An entry of `contributor_affiliations`. */
  datatype ContributorAffiliation = ContributorAffiliation(username: Option<string>, realName: Option<string>, affiliation: Option<string>)

  // -----------------------------------------------------------------------
  // Invariants on the dictionaries, stated on values

  /** `order` lists the keys of m, each once: the dictionary's insertion order. */
  ghost predicate OrderedKeys<V>(order: seq<Id>, m: map<Id, V>) {
    Distinct(order) && forall k :: k in m <==> k in order
  }

  lemma OrderedKeysSnoc<V>(order: seq<Id>, m: map<Id, V>, k: Id, v: V)
    requires OrderedKeys(order, m) && k !in m
    ensures OrderedKeys(order + [k], m[k := v])
  {
    assert forall i :: 0 <= i < |order| ==> (order + [k])[i] == order[i];
  }

  /** Every key is below the next identifier to be handed out. */
  predicate Below<V>(m: map<Id, V>, bound: nat) {
    forall k :: k in m ==> k < bound
  }

  /** No two institutions share a name. */
  predicate NamesDistinct(order: seq<Id>, insts: map<Id, Institution>) {
    forall i, j :: 0 <= i < j < |order| && order[i] in insts && order[j] in insts ==>
      insts[order[i]].name != insts[order[j]].name
  }

  /** A person lists an institution among its affiliations exactly when the institution lists the person. */
  predicate AffiliationsLinked(people: map<Id, Person>, insts: map<Id, Institution>) {
    && (forall p, i :: p in people && i in people[p].affiliations ==> i in insts && p in insts[i].affiliatedPeople)
    && (forall i, p :: i in insts && p in insts[i].affiliatedPeople ==> p in people && i in people[p].affiliations)
  }

  /** A person lists a paper as authored exactly when the paper lists the person as an author. */
  predicate AuthorshipLinked(people: map<Id, Person>, papers: map<Id, Paper>) {
    && (forall p, q :: p in people && q in people[p].authoredPapers ==> q in papers && p in papers[q].authors)
    && (forall q, p :: q in papers && p in papers[q].authors ==> p in people && q in people[p].authoredPapers)
  }

  /** A person lists a project as contributed to exactly when the project lists the person as a contributor. */
  predicate ContributionsLinked(people: map<Id, Person>, projects: map<Id, Project>) {
    && (forall p, j :: p in people && j in people[p].contributedProjects ==> j in projects && p in projects[j].contributors)
    && (forall j, p :: j in projects && p in projects[j].contributors ==> p in people && j in people[p].contributedProjects)
  }

  /** `next((inst for inst in institutions.values() if inst["name"] == name), None)` */
  function FirstNamed(order: seq<Id>, insts: map<Id, Institution>, name: Option<string>): (r: Option<Id>)
    ensures r.Some? ==> r.value in order && r.value in insts && insts[r.value].name == name
    ensures r.None? ==> forall k :: k in order && k in insts ==> insts[k].name != name
  {
    if order == [] then None
    else if order[0] in insts && insts[order[0]].name == name then Some(order[0])
    else FirstNamed(order[1..], insts, name)
  }

  /** With distinct names, the institution found is the only one with that name. */
  lemma {:induction false} FirstNamedUnique(order: seq<Id>, insts: map<Id, Institution>, name: Option<string>, k: Id)
    requires NamesDistinct(order, insts)
    requires k in order && k in insts && insts[k].name == name
    ensures FirstNamed(order, insts, name) == Some(k)
  {
    if order[0] != k {
      var j :| 0 <= j < |order| && order[j] == k;
      assert j > 0;
      assert NamesDistinct(order[1..], insts) by {
        forall i, j | 0 <= i < j < |order[1..]| && order[1..][i] in insts && order[1..][j] in insts
          ensures insts[order[1..][i]].name != insts[order[1..][j]].name
        {
          assert order[1..][i] == order[i + 1] && order[1..][j] == order[j + 1];
        }
      }
      FirstNamedUnique(order[1..], insts, name, k);
    }
  }

  /** Whose GitHub username is `username`: the first such person in insertion order. */
  function FirstWithUsername(order: seq<Id>, people: map<Id, Person>, username: Option<string>): (r: Option<Id>)
    ensures r.Some? ==> r.value in order && r.value in people && people[r.value].githubUsername == username
    ensures r.None? ==> forall k :: k in order && k in people ==> people[k].githubUsername != username
  {
    if order == [] then None
    else if order[0] in people && people[order[0]].githubUsername == username then Some(order[0])
    else FirstWithUsername(order[1..], people, username)
  }

  /** `[person['id'] for person in people.values() if project_id in person['contributed_projects']]` */
  function ContributorsOf(order: seq<Id>, people: map<Id, Person>, project: Id): (r: seq<Id>)
    ensures forall p :: p in r <==> p in order && p in people && project in people[p].contributedProjects
  {
    if order == [] then []
    else
      var rest := ContributorsOf(order[1..], people, project);
      assert forall p :: p in order[1..] ==> p in order;
      assert forall p :: p in order && p != order[0] ==> p in order[1..];
      if order[0] in people && project in people[order[0]].contributedProjects then [order[0]] + rest else rest
  }

  // -----------------------------------------------------------------------
  // The registry as a value, and each step of analyze_repository on it

  /** The four dictionaries, the insertion orders that matter, and the next fresh identifier. */
  datatype Db = Db(
    people: map<Id, Person>,
    personOrder: seq<Id>,
    papers: map<Id, Paper>,
    projects: map<Id, Project>,
    institutions: map<Id, Institution>,
    institutionOrder: seq<Id>,
    nextId: nat)

  ghost predicate DbValid(d: Db) {
    && OrderedKeys(d.personOrder, d.people)
    && OrderedKeys(d.institutionOrder, d.institutions)
    && Below(d.people, d.nextId) && Below(d.papers, d.nextId) && Below(d.projects, d.nextId) && Below(d.institutions, d.nextId)
    && NamesDistinct(d.institutionOrder, d.institutions)
    && AffiliationsLinked(d.people, d.institutions)
    && AuthorshipLinked(d.people, d.papers)
    && ContributionsLinked(d.people, d.projects)
  }

  const EmptyDb := Db(map[], [], map[], map[], map[], [], 0)

  /**
   * The institution get-or-create block for person pid: the first
   * institution named `name` gets pid appended to its affiliated people,
   * or a new one is created with pid alone; its id is appended to the
   * person's affiliations.
   */
  function Link(d: Db, pid: Id, name: Option<string>): (r: (Db, Id))
    requires pid in d.people
    ensures r.0.people.Keys == d.people.Keys && r.0.personOrder == d.personOrder
    ensures r.0.papers == d.papers && r.0.projects == d.projects
  {
    var found := FirstNamed(d.institutionOrder, d.institutions, name);
    var iid := if found.Some? then found.value else d.nextId;
    var d1 :=
      if found.Some? then
        d.(institutions := d.institutions[iid := d.institutions[iid].(affiliatedPeople := d.institutions[iid].affiliatedPeople + [pid])])
      else
        d.(institutions := d.institutions[iid := Institution(name, [pid])],
           institutionOrder := d.institutionOrder + [iid],
           nextId := d.nextId + 1);
    (d1.(people := d1.people[pid := d1.people[pid].(affiliations := d1.people[pid].affiliations + [iid])]), iid)
  }

  /** Linking keeps the registry valid: names distinct, keys fresh, every link two-way. */
  lemma LinkValid(d: Db, pid: Id, name: Option<string>)
    requires DbValid(d) && pid in d.people
    ensures DbValid(Link(d, pid, name).0)
  {
    var r := Link(d, pid, name).0;
    LinkAffiliations(d, pid, name);
    LinkNames(d, pid, name);
    LinkOrdered(d, pid, name);
    LinkFacts(d, pid, name);
    AuthorshipSamePeople(d.people, r.people, d.papers);
    ContributionsSamePeople(d.people, r.people, d.projects);
  }

  /** The institution linked carries the name asked for; no other person changes. */
  lemma LinkFacts(d: Db, pid: Id, name: Option<string>)
    requires pid in d.people
    ensures var r := Link(d, pid, name).0;
      var iid := Link(d, pid, name).1;
      && iid in r.institutions && r.institutions[iid].name == name
      && r.people[pid].affiliations == d.people[pid].affiliations + [iid]
      && r.people[pid].authoredPapers == d.people[pid].authoredPapers
      && r.people[pid].contributedProjects == d.people[pid].contributedProjects
      && r.people[pid].githubUsername == d.people[pid].githubUsername
      && (forall p :: p in d.people && p != pid ==> r.people[p] == d.people[p])
  {
  }

  lemma LinkOrdered(d: Db, pid: Id, name: Option<string>)
    requires pid in d.people && OrderedKeys(d.institutionOrder, d.institutions)
    requires Below(d.people, d.nextId) && Below(d.papers, d.nextId) && Below(d.projects, d.nextId) && Below(d.institutions, d.nextId)
    ensures var r := Link(d, pid, name).0;
      && OrderedKeys(r.institutionOrder, r.institutions)
      && Below(r.people, r.nextId) && Below(r.papers, r.nextId) && Below(r.projects, r.nextId) && Below(r.institutions, r.nextId)
  {
    if FirstNamed(d.institutionOrder, d.institutions, name).None? {
      assert d.nextId !in d.institutionOrder;
    }
  }

  lemma LinkNames(d: Db, pid: Id, name: Option<string>)
    requires pid in d.people && OrderedKeys(d.institutionOrder, d.institutions) && Below(d.institutions, d.nextId)
    requires NamesDistinct(d.institutionOrder, d.institutions)
    ensures NamesDistinct(Link(d, pid, name).0.institutionOrder, Link(d, pid, name).0.institutions)
  {
    var found := FirstNamed(d.institutionOrder, d.institutions, name);
    var r := Link(d, pid, name).0;
    if found.Some? {
      assert r.institutionOrder == d.institutionOrder;
      assert forall k :: k in d.institutions ==> k in r.institutions && r.institutions[k].name == d.institutions[k].name;
    } else {
      var n := |d.institutionOrder|;
      assert forall i :: 0 <= i < n ==> r.institutionOrder[i] == d.institutionOrder[i];
      assert d.nextId !in d.institutions;
      assert forall k :: k in d.institutions ==> r.institutions[k] == d.institutions[k];
      forall i, j | 0 <= i < j < |r.institutionOrder| && r.institutionOrder[i] in r.institutions && r.institutionOrder[j] in r.institutions
        ensures r.institutions[r.institutionOrder[i]].name != r.institutions[r.institutionOrder[j]].name
      {
        if j == n {
          assert r.institutionOrder[i] in d.institutions;
        }
      }
    }
  }

  lemma AuthorshipSamePeople(before: map<Id, Person>, after: map<Id, Person>, papers: map<Id, Paper>)
    requires before.Keys == after.Keys
    requires forall p :: p in before ==> after[p].authoredPapers == before[p].authoredPapers
    requires AuthorshipLinked(before, papers)
    ensures AuthorshipLinked(after, papers)
  {
  }

  lemma ContributionsSamePeople(before: map<Id, Person>, after: map<Id, Person>, projects: map<Id, Project>)
    requires before.Keys == after.Keys
    requires forall p :: p in before ==> after[p].contributedProjects == before[p].contributedProjects
    requires ContributionsLinked(before, projects)
    ensures ContributionsLinked(after, projects)
  {
  }

  lemma LinkAffiliations(d: Db, pid: Id, name: Option<string>)
    requires pid in d.people && AffiliationsLinked(d.people, d.institutions) && Below(d.institutions, d.nextId)
    ensures AffiliationsLinked(Link(d, pid, name).0.people, Link(d, pid, name).0.institutions)
  {
    var found := FirstNamed(d.institutionOrder, d.institutions, name);
    var iid := Link(d, pid, name).1;
    LinkKeepsAffiliations(d.people, d.institutions, pid, iid, name);
    if found.Some? {
      assert iid in d.institutions;
    } else {
      assert iid !in d.institutions;
    }
  }

  lemma LinkKeepsAffiliations(people: map<Id, Person>, insts: map<Id, Institution>, pid: Id, iid: Id, name: Option<string>)
    requires AffiliationsLinked(people, insts) && pid in people
    ensures var inst := if iid in insts then insts[iid].(affiliatedPeople := insts[iid].affiliatedPeople + [pid])
                        else Institution(name, [pid]);
      AffiliationsLinked(people[pid := people[pid].(affiliations := people[pid].affiliations + [iid])], insts[iid := inst])
  {
  }
  /** What no step undoes: keys stay, names, usernames and contributed projects of existing people stay, institution names stay. */
  ghost predicate Grows(d: Db, r: Db) {
    && d.nextId <= r.nextId
    && d.people.Keys <= r.people.Keys && d.papers.Keys <= r.papers.Keys && d.projects.Keys <= r.projects.Keys
    && (forall p :: p in d.people ==>
          && r.people[p].name == d.people[p].name
          && r.people[p].githubUsername == d.people[p].githubUsername
          && r.people[p].contributedProjects == d.people[p].contributedProjects)
    && (forall i :: i in d.institutions ==> i in r.institutions && r.institutions[i].name == d.institutions[i].name)
  }

  lemma GrowsTrans(a: Db, b: Db, c: Db)
    requires Grows(a, b) && Grows(b, c)
    ensures Grows(a, c)
  {
  }

  lemma LinkGrows(d: Db, pid: Id, name: Option<string>)
    requires pid in d.people && Below(d.institutions, d.nextId)
    ensures Grows(d, Link(d, pid, name).0)
    ensures Link(d, pid, name).0.papers == d.papers && Link(d, pid, name).0.projects == d.projects
  {
    LinkFacts(d, pid, name);
    if FirstNamed(d.institutionOrder, d.institutions, name).None? {
      assert d.nextId !in d.institutions;
    }
  }

  /** The affiliation loop of one person: each name in turn is linked. */
  function LinkAll(d: Db, pid: Id, names: seq<Option<string>>): (r: Db)
    requires pid in d.people
    ensures r.people.Keys == d.people.Keys && r.personOrder == d.personOrder
    ensures r.papers == d.papers && r.projects == d.projects
  {
    if names == [] then d
    else Link(LinkAll(d, pid, names[..|names| - 1]), pid, names[|names| - 1]).0
  }

  lemma {:induction false} LinkAllValid(d: Db, pid: Id, names: seq<Option<string>>)
    requires DbValid(d) && pid in d.people
    ensures DbValid(LinkAll(d, pid, names)) && Grows(d, LinkAll(d, pid, names))
  {
    if names != [] {
      var prev := LinkAll(d, pid, names[..|names| - 1]);
      LinkAllValid(d, pid, names[..|names| - 1]);
      LinkValid(prev, pid, names[|names| - 1]);
      LinkGrows(prev, pid, names[|names| - 1]);
      GrowsTrans(d, prev, LinkAll(d, pid, names));
    }
  }

  /** The affiliation loop adds one affiliation per name to pid and touches nobody else. */
  lemma {:induction false} LinkAllFacts(d: Db, pid: Id, names: seq<Option<string>>)
    requires pid in d.people
    ensures LinkAll(d, pid, names).people[pid].authoredPapers == d.people[pid].authoredPapers
    ensures |LinkAll(d, pid, names).people[pid].affiliations| == |d.people[pid].affiliations| + |names|
    ensures forall p :: p in d.people && p != pid ==> LinkAll(d, pid, names).people[p] == d.people[p]
  {
    if names != [] {
      var prev := LinkAll(d, pid, names[..|names| - 1]);
      LinkAllFacts(d, pid, names[..|names| - 1]);
      LinkFacts(prev, pid, names[|names| - 1]);
    }
  }

  /** A new person record, with no links yet. */
  function NewPerson(name: Option<string>, orcid: Option<string>, username: Option<string>, projects: seq<Id>): Person {
    Person(name, orcid, username, [], [], projects)
  }

  /**
   * The person and authorship part of one entry of the author loop: a
   * fresh person id (both branches of the author_id test mint one), a
   * person record if that id is not yet a key, then the two-way
   * authorship link.
   */
  function AuthorRecord(d: Db, paperId: Id, a: AuthorInput): (r: Db)
    requires paperId in d.papers
    ensures d.nextId in r.people && r.papers.Keys == d.papers.Keys && r.projects == d.projects
  {
    var pid := d.nextId;
    var d1 :=
      if pid in d.people then d.(nextId := pid + 1)
      else d.(people := d.people[pid := NewPerson(a.name, a.orcid, None, [])],
              personOrder := d.personOrder + [pid],
              nextId := pid + 1);
    d1.(people := d1.people[pid := d1.people[pid].(authoredPapers := d1.people[pid].authoredPapers + [paperId])],
        papers := d1.papers[paperId := d1.papers[paperId].(authors := d1.papers[paperId].authors + [pid])])
  }

  /** One entry of the author loop: the record and authorship, then the affiliations. */
  function AddAuthor(d: Db, paperId: Id, a: AuthorInput): (r: (Db, Id))
    requires paperId in d.papers
    ensures r.0.papers.Keys == d.papers.Keys && r.0.projects == d.projects
  {
    (LinkAll(AuthorRecord(d, paperId, a), d.nextId, a.institutions), d.nextId)
  }

  /** In a valid registry the minted id is fresh, so a record is always created. */
  lemma AuthorRecordShape(d: Db, paperId: Id, a: AuthorInput)
    requires paperId in d.papers && d.nextId !in d.people
    ensures AuthorRecord(d, paperId, a) ==
      Db(d.people[d.nextId := Person(a.name, a.orcid, None, [], [paperId], [])],
         d.personOrder + [d.nextId],
         d.papers[paperId := d.papers[paperId].(authors := d.papers[paperId].authors + [d.nextId])],
         d.projects, d.institutions, d.institutionOrder, d.nextId + 1)
  {
    var pid := d.nextId;
    var d1 := d.(people := d.people[pid := NewPerson(a.name, a.orcid, None, [])],
                 personOrder := d.personOrder + [pid],
                 nextId := pid + 1);
    assert d1.people[pid].authoredPapers + [paperId] == [paperId];
  }

  lemma AuthorRecordAuthorship(d: Db, paperId: Id, a: AuthorInput)
    requires paperId in d.papers && d.nextId !in d.people && AuthorshipLinked(d.people, d.papers)
    ensures AuthorshipLinked(AuthorRecord(d, paperId, a).people, AuthorRecord(d, paperId, a).papers)
  {
    AuthorRecordShape(d, paperId, a);
  }

  lemma AuthorRecordAffiliations(d: Db, paperId: Id, a: AuthorInput)
    requires paperId in d.papers && d.nextId !in d.people && AffiliationsLinked(d.people, d.institutions)
    ensures AffiliationsLinked(AuthorRecord(d, paperId, a).people, AuthorRecord(d, paperId, a).institutions)
  {
    AuthorRecordShape(d, paperId, a);
  }

  lemma AuthorRecordContributions(d: Db, paperId: Id, a: AuthorInput)
    requires paperId in d.papers && d.nextId !in d.people && ContributionsLinked(d.people, d.projects)
    ensures ContributionsLinked(AuthorRecord(d, paperId, a).people, AuthorRecord(d, paperId, a).projects)
  {
    AuthorRecordShape(d, paperId, a);
  }

  lemma AuthorRecordValid(d: Db, paperId: Id, a: AuthorInput)
    requires DbValid(d) && paperId in d.papers
    ensures DbValid(AuthorRecord(d, paperId, a)) && Grows(d, AuthorRecord(d, paperId, a))
  {
    assert d.nextId !in d.people;
    AuthorRecordKeys(d, paperId, a);
    AuthorRecordGrows(d, paperId, a);
    AuthorRecordAuthorship(d, paperId, a);
    AuthorRecordAffiliations(d, paperId, a);
    AuthorRecordContributions(d, paperId, a);
  }

  lemma AuthorRecordKeys(d: Db, paperId: Id, a: AuthorInput)
    requires paperId in d.papers && OrderedKeys(d.personOrder, d.people)
    requires Below(d.people, d.nextId) && Below(d.papers, d.nextId) && Below(d.projects, d.nextId) && Below(d.institutions, d.nextId)
    ensures var r := AuthorRecord(d, paperId, a);
      && OrderedKeys(r.personOrder, r.people)
      && Below(r.people, r.nextId) && Below(r.papers, r.nextId) && Below(r.projects, r.nextId) && Below(r.institutions, r.nextId)
      && r.institutions == d.institutions && r.institutionOrder == d.institutionOrder
  {
    assert d.nextId !in d.people;
    OrderedKeysSnoc(d.personOrder, d.people, d.nextId, Person(a.name, a.orcid, None, [], [paperId], []));
    AuthorRecordShape(d, paperId, a);
  }

  lemma AuthorRecordGrows(d: Db, paperId: Id, a: AuthorInput)
    requires paperId in d.papers && d.nextId !in d.people
    ensures Grows(d, AuthorRecord(d, paperId, a))
  {
    AuthorRecordShape(d, paperId, a);
  }

  lemma AddAuthorValid(d: Db, paperId: Id, a: AuthorInput)
    requires DbValid(d) && paperId in d.papers
    ensures var r := AddAuthor(d, paperId, a).0;
      && DbValid(r) && Grows(d, r)
      && (forall q :: q in d.papers && q != paperId ==> r.papers[q] == d.papers[q])
  {
    var d2 := AuthorRecord(d, paperId, a);
    assert d.nextId !in d.people;
    AuthorRecordShape(d, paperId, a);
    AuthorRecordValid(d, paperId, a);
    LinkAllValid(d2, d.nextId, a.institutions);
    GrowsTrans(d, d2, LinkAll(d2, d.nextId, a.institutions));
  }

  /**
   * The author gets a new person under the next id, named after it, with
   * this paper as its only authored paper and one affiliation per
   * institution entry; the paper lists that person last.
   */
  lemma AddAuthorFacts(d: Db, paperId: Id, a: AuthorInput)
    requires paperId in d.papers && d.nextId !in d.people
    ensures var r := AddAuthor(d, paperId, a).0;
      var pid := AddAuthor(d, paperId, a).1;
      && pid == d.nextId && pid in r.people
      && r.people[pid].name == a.name && r.people[pid].authoredPapers == [paperId]
      && |r.people[pid].affiliations| == |a.institutions|
      && r.papers[paperId].authors == d.papers[paperId].authors + [pid]
  {
    var d2 := AuthorRecord(d, paperId, a);
    AuthorRecordShape(d, paperId, a);
    LinkAllFacts(d2, d.nextId, a.institutions);
    LinkAllKeeps(d2, d.nextId, a.institutions);
  }
  /** The author loop of one paper. */
  function AddAuthors(d: Db, paperId: Id, authors: seq<AuthorInput>): (r: Db)
    requires paperId in d.papers
    ensures r.papers.Keys == d.papers.Keys && r.projects == d.projects
  {
    if authors == [] then d
    else AddAuthor(AddAuthors(d, paperId, authors[..|authors| - 1]), paperId, authors[|authors| - 1]).0
  }

  /**
   * `ids` are people created for `authors`, one each and in order: every
   * one is at least `bound` (so none existed when the loop began), they
   * increase (so no two are the same), and each carries its author's name.
   */
  ghost predicate FreshAuthors(ids: seq<Id>, bound: nat, people: map<Id, Person>, authors: seq<AuthorInput>) {
    && |ids| == |authors|
    && (forall k :: 0 <= k < |ids| ==> ids[k] >= bound && ids[k] in people && people[ids[k]].name == authors[k].name)
    && (forall i, j :: 0 <= i < j < |ids| ==> ids[i] < ids[j])
  }

  lemma {:induction false} AddAuthorsValid(d: Db, paperId: Id, authors: seq<AuthorInput>)
    requires DbValid(d) && paperId in d.papers
    ensures DbValid(AddAuthors(d, paperId, authors)) && Grows(d, AddAuthors(d, paperId, authors))
    ensures forall q :: q in d.papers && q != paperId ==> AddAuthors(d, paperId, authors).papers[q] == d.papers[q]
  {
    if authors != [] {
      var prev := AddAuthors(d, paperId, authors[..|authors| - 1]);
      AddAuthorsValid(d, paperId, authors[..|authors| - 1]);
      AddAuthorValid(prev, paperId, authors[|authors| - 1]);
      GrowsTrans(d, prev, AddAuthors(d, paperId, authors));
    }
  }

  /** The affiliation loop renames nobody and never hands an id back. */
  lemma {:induction false} LinkAllKeeps(d: Db, pid: Id, names: seq<Option<string>>)
    requires pid in d.people
    ensures LinkAll(d, pid, names).nextId >= d.nextId
    ensures forall p :: p in d.people ==> LinkAll(d, pid, names).people[p].name == d.people[p].name
  {
    if names != [] {
      LinkAllKeeps(d, pid, names[..|names| - 1]);
    }
  }

  /**
   * r is d after one author entry for paperId: the paper gains the person
   * minted from the next id, named after the author, and nobody is renamed.
   */
  ghost predicate OneAuthorAppended(d: Db, r: Db, paperId: Id, a: AuthorInput) {
    && paperId in d.papers && paperId in r.papers
    && r.papers[paperId] == d.papers[paperId].(authors := d.papers[paperId].authors + [d.nextId])
    && d.nextId in r.people && r.people[d.nextId].name == a.name
    && r.nextId > d.nextId && Below(r.people, r.nextId)
    && (forall p :: p in d.people ==> p in r.people && r.people[p].name == d.people[p].name)
  }

  /**
   * r is d after the author loop over `authors`: the paper's author list
   * is the old one followed by one fresh person per author, the rest of
   * the paper is unchanged, and nobody is renamed.
   */
  ghost predicate AuthorsAppended(d: Db, r: Db, paperId: Id, authors: seq<AuthorInput>) {
    && paperId in d.papers && paperId in r.papers
    && var before := d.papers[paperId].authors;
    && |r.papers[paperId].authors| == |before| + |authors|
    && r.papers[paperId].authors[..|before|] == before
    && r.papers[paperId].(authors := before) == d.papers[paperId]
    && FreshAuthors(r.papers[paperId].authors[|before|..], d.nextId, r.people, authors)
    && r.nextId >= d.nextId && Below(r.people, r.nextId)
    && (forall p :: p in d.people ==> p in r.people && r.people[p].name == d.people[p].name)
  }

  lemma AddAuthorStep(d: Db, paperId: Id, a: AuthorInput)
    requires paperId in d.papers && Below(d.people, d.nextId)
    ensures OneAuthorAppended(d, AddAuthor(d, paperId, a).0, paperId, a)
  {
    var d2 := AuthorRecord(d, paperId, a);
    LinkAllKeeps(d2, d.nextId, a.institutions);
  }

  /** Authors are never merged with anyone: each gets a person of its own, none of whom existed before. */
  lemma NoAuthorsAppended(d: Db, paperId: Id)
    requires paperId in d.papers && Below(d.people, d.nextId)
    ensures AuthorsAppended(d, d, paperId, [])
  {
    var before := d.papers[paperId].authors;
    assert before[..|before|] == before && before[|before|..] == [];
  }

  lemma AddAuthorsFreshStep(d: Db, prev: Db, r: Db, paperId: Id, authors: seq<AuthorInput>)
    requires authors != [] && AuthorsAppended(d, prev, paperId, authors[..|authors| - 1])
    requires paperId in prev.papers && r == AddAuthor(prev, paperId, authors[|authors| - 1]).0
    ensures AuthorsAppended(d, r, paperId, authors)
  {
    var init, a := authors[..|authors| - 1], authors[|authors| - 1];
    AddAuthorStep(prev, paperId, a);
    AuthorsAppendedSnoc(d, prev, r, paperId, init, a);
    assert init + [a] == authors;
  }

  lemma {:induction false} AddAuthorsFresh(d: Db, paperId: Id, authors: seq<AuthorInput>)
    requires paperId in d.papers && Below(d.people, d.nextId)
    ensures AuthorsAppended(d, AddAuthors(d, paperId, authors), paperId, authors)
  {
    if authors == [] {
      NoAuthorsAppended(d, paperId);
    } else {
      var init, last := authors[..|authors| - 1], authors[|authors| - 1];
      var prev := AddAuthors(d, paperId, init);
      var r := AddAuthors(d, paperId, authors);
      assert r == AddAuthor(prev, paperId, last).0;
      AddAuthorsFresh(d, paperId, init);
      AddAuthorsFreshStep(d, prev, r, paperId, authors);
    }
  }

  lemma AuthorsAppendedSnoc(d: Db, prev: Db, r: Db, paperId: Id, init: seq<AuthorInput>, a: AuthorInput)
    requires AuthorsAppended(d, prev, paperId, init) && OneAuthorAppended(prev, r, paperId, a)
    ensures AuthorsAppended(d, r, paperId, init + [a])
  {
    var before := d.papers[paperId].authors;
    var all := prev.papers[paperId].authors;
    FreshAuthorsAppend(before, all, prev.nextId, d.nextId, prev.people, r.people, init, a);
  }

  /** One more author on a paper whose author list is `before` followed by fresh people. */
  lemma FreshAuthorsAppend(before: seq<Id>, all: seq<Id>, pid: Id, bound: nat, prev: map<Id, Person>, after: map<Id, Person>,
                           init: seq<AuthorInput>, a: AuthorInput)
    requires |all| == |before| + |init| && all[..|before|] == before
    requires FreshAuthors(all[|before|..], bound, prev, init)
    requires pid >= bound && Below(prev, pid) && pid in after && after[pid].name == a.name
    requires forall p :: p in prev ==> p in after && after[p].name == prev[p].name
    ensures |all + [pid]| == |before| + |init + [a]| && (all + [pid])[..|before|] == before
    ensures FreshAuthors((all + [pid])[|before|..], bound, after, init + [a])
  {
    assert (all + [pid])[..|before|] == all[..|before|];
    assert (all + [pid])[|before|..] == all[|before|..] + [pid];
    FreshAuthorsSnoc(all[|before|..], pid, bound, prev, after, init, a);
  }

  lemma FreshAuthorsSnoc(ids: seq<Id>, pid: Id, bound: nat, before: map<Id, Person>, after: map<Id, Person>,
                         authors: seq<AuthorInput>, a: AuthorInput)
    requires FreshAuthors(ids, bound, before, authors)
    requires pid >= bound && Below(before, pid) && pid in after && after[pid].name == a.name
    requires forall p :: p in before ==> p in after && after[p].name == before[p].name
    ensures FreshAuthors(ids + [pid], bound, after, authors + [a])
  {
  }

  /** The record of a first-degree citation: cited by the analysed paper, with the citation's concepts as domains. */
  function CitedPaper(c: CitationInput, paperId: Id): Paper {
    Paper(c.doi, c.title, c.concepts, [], [], [paperId], [], c.concepts)
  }

  /** The record of a second-degree citation: it cites the analysed paper. */
  function CitingPaper(c: CitationInput, paperId: Id): Paper {
    Paper(c.doi, c.title, c.concepts, [], [paperId], [], [], c.concepts)
  }

  /** The ids start, start + 1, ..., start + n - 1 that n successive fresh records receive. */
  function NewIds(start: nat, n: nat): (r: seq<Id>)
    ensures |r| == n && forall k :: 0 <= k < n ==> r[k] == start + k
  {
    if n == 0 then [] else NewIds(start, n - 1) + [start + n - 1]
  }

  /**
   * The first-degree citation loop: each citation becomes a new paper
   * whose `cited_by_papers` is the analysed paper, and is appended to the
   * analysed paper's own `cited_by_papers`.
   */
  function AddCited(d: Db, paperId: Id, cs: seq<CitationInput>): (r: Db)
    requires paperId in d.papers
    ensures paperId in r.papers && d.papers.Keys <= r.papers.Keys && r.people == d.people && r.projects == d.projects
    ensures r.institutions == d.institutions && r.personOrder == d.personOrder && r.institutionOrder == d.institutionOrder
  {
    if cs == [] then d
    else
      var prev := AddCited(d, paperId, cs[..|cs| - 1]);
      var c := cs[|cs| - 1];
      var cid := prev.nextId;
      var papers1 := prev.papers[cid := CitedPaper(c, paperId)];
      prev.(papers := papers1[paperId := papers1[paperId].(citedByPapers := papers1[paperId].citedByPapers + [cid])],
            nextId := cid + 1)
  }

  /** The second-degree citation loop: new papers whose `cites_papers` is the analysed paper, with no link back. */
  function AddSecondDegree(d: Db, paperId: Id, cs: seq<CitationInput>): (r: Db)
    ensures r.people == d.people && r.projects == d.projects
    ensures r.institutions == d.institutions && r.personOrder == d.personOrder && r.institutionOrder == d.institutionOrder
  {
    if cs == [] then d
    else
      var prev := AddSecondDegree(d, paperId, cs[..|cs| - 1]);
      var c := cs[|cs| - 1];
      prev.(papers := prev.papers[prev.nextId := CitingPaper(c, paperId)],
            nextId := prev.nextId + 1)
  }

  /** Citation papers have no authors, so every link stays two-way. */
  lemma {:induction false} AddCitedValid(d: Db, paperId: Id, cs: seq<CitationInput>)
    requires DbValid(d) && paperId in d.papers
    ensures DbValid(AddCited(d, paperId, cs)) && Grows(d, AddCited(d, paperId, cs))
  {
    if cs != [] {
      var prev := AddCited(d, paperId, cs[..|cs| - 1]);
      AddCitedValid(d, paperId, cs[..|cs| - 1]);
      var c := cs[|cs| - 1];
      var cid := prev.nextId;
      var mid := prev.(papers := prev.papers[cid := CitedPaper(c, paperId)], nextId := cid + 1);
      NewAuthorlessPaper(prev, CitedPaper(c, paperId));
      SamePaperAuthors(mid, paperId, mid.papers[paperId].(citedByPapers := mid.papers[paperId].citedByPapers + [cid]));
      GrowsTrans(d, prev, mid);
      GrowsTrans(d, mid, AddCited(d, paperId, cs));
    }
  }

  /** The analysed paper keeps its authors and gains one `cited_by_papers` entry per citation; no other existing paper changes. */
  lemma {:induction false} AddCitedFacts(d: Db, paperId: Id, cs: seq<CitationInput>)
    requires DbValid(d) && paperId in d.papers
    ensures var r := AddCited(d, paperId, cs);
      && r.papers[paperId].(citedByPapers := d.papers[paperId].citedByPapers) == d.papers[paperId]
      && r.nextId == d.nextId + |cs|
      && r.papers[paperId].citedByPapers == d.papers[paperId].citedByPapers + NewIds(d.nextId, |cs|)
      && (forall id :: d.nextId <= id < d.nextId + |cs| ==> id in r.papers && r.papers[id] == CitedPaper(cs[id - d.nextId], paperId))
      && (forall q :: q in d.papers && q != paperId ==> r.papers[q] == d.papers[q])
  {
    AddCitedContents(d, paperId, cs);
  }

  /** The new papers of the first-degree loop sit at the next ids, in citation order, and the analysed paper lists them. */
  lemma {:induction false} AddCitedContents(d: Db, paperId: Id, cs: seq<CitationInput>)
    requires paperId in d.papers && Below(d.papers, d.nextId)
    ensures var r := AddCited(d, paperId, cs);
      && r.papers[paperId].(citedByPapers := d.papers[paperId].citedByPapers) == d.papers[paperId]
      && r.nextId == d.nextId + |cs|
      && r.papers[paperId].citedByPapers == d.papers[paperId].citedByPapers + NewIds(d.nextId, |cs|)
      && (forall id :: d.nextId <= id < d.nextId + |cs| ==> id in r.papers && r.papers[id] == CitedPaper(cs[id - d.nextId], paperId))
      && (forall q :: q in d.papers && q != paperId ==> r.papers[q] == d.papers[q])
  {
    AddCitedAnalysed(d, paperId, cs);
    forall id | d.nextId <= id < d.nextId + |cs|
      ensures id in AddCited(d, paperId, cs).papers
      ensures AddCited(d, paperId, cs).papers[id] == CitedPaper(cs[id - d.nextId], paperId)
    {
      AddCitedAt(d, paperId, cs, id - d.nextId);
    }
  }

  /** The analysed paper gains the new ids in order; the other existing papers keep their records. */
  lemma {:induction false} AddCitedAnalysed(d: Db, paperId: Id, cs: seq<CitationInput>)
    requires paperId in d.papers && Below(d.papers, d.nextId)
    ensures var r := AddCited(d, paperId, cs);
      && r.papers[paperId].(citedByPapers := d.papers[paperId].citedByPapers) == d.papers[paperId]
      && r.nextId == d.nextId + |cs|
      && r.papers[paperId].citedByPapers == d.papers[paperId].citedByPapers + NewIds(d.nextId, |cs|)
      && (forall q :: q in d.papers && q != paperId ==> r.papers[q] == d.papers[q])
  {
    if cs != [] {
      var n := |cs| - 1;
      AddCitedAnalysed(d, paperId, cs[..n]);
      assert NewIds(d.nextId, n + 1) == NewIds(d.nextId, n) + [d.nextId + n];
    }
  }

  /** Each first-degree citation takes the next identifier. */
  lemma {:induction false} AddCitedNext(d: Db, paperId: Id, cs: seq<CitationInput>)
    requires paperId in d.papers
    ensures AddCited(d, paperId, cs).nextId == d.nextId + |cs|
  {
    if cs != [] {
      AddCitedNext(d, paperId, cs[..|cs| - 1]);
    }
  }

  /** Citation k of the first-degree loop becomes the paper under id nextId + k. */
  lemma {:induction false} AddCitedAt(d: Db, paperId: Id, cs: seq<CitationInput>, k: nat)
    requires paperId in d.papers && Below(d.papers, d.nextId) && k < |cs|
    ensures d.nextId + k in AddCited(d, paperId, cs).papers
    ensures AddCited(d, paperId, cs).papers[d.nextId + k] == CitedPaper(cs[k], paperId)
  {
    var n := |cs| - 1;
    AddCitedNext(d, paperId, cs[..n]);
    assert paperId < d.nextId;
    if k < n {
      AddCitedAt(d, paperId, cs[..n], k);
      assert cs[..n][k] == cs[k];
    }
  }

  lemma {:induction false} AddSecondDegreeValid(d: Db, paperId: Id, cs: seq<CitationInput>)
    requires DbValid(d)
    ensures var r := AddSecondDegree(d, paperId, cs);
      && DbValid(r) && Grows(d, r)
      && (forall q :: q in d.papers ==> r.papers[q] == d.papers[q])
      && |r.papers| == |d.papers| + |cs|
      && r.nextId == d.nextId + |cs|
      && (forall id :: d.nextId <= id < d.nextId + |cs| ==> id in r.papers && r.papers[id] == CitingPaper(cs[id - d.nextId], paperId))
  {
    AddSecondDegreeGrows(d, paperId, cs);
    AddSecondDegreeContents(d, paperId, cs);
  }

  lemma {:induction false} AddSecondDegreeGrows(d: Db, paperId: Id, cs: seq<CitationInput>)
    requires DbValid(d)
    ensures var r := AddSecondDegree(d, paperId, cs);
      && DbValid(r) && Grows(d, r)
      && (forall q :: q in d.papers ==> r.papers[q] == d.papers[q])
      && |r.papers| == |d.papers| + |cs|
  {
    if cs != [] {
      var prev := AddSecondDegree(d, paperId, cs[..|cs| - 1]);
      AddSecondDegreeGrows(d, paperId, cs[..|cs| - 1]);
      var c := cs[|cs| - 1];
      NewAuthorlessPaper(prev, CitingPaper(c, paperId));
      GrowsTrans(d, prev, AddSecondDegree(d, paperId, cs));
    }
  }

  /** The new papers of the second-degree loop sit at the next ids, in citation order, each citing the analysed paper. */
  lemma AddSecondDegreeContents(d: Db, paperId: Id, cs: seq<CitationInput>)
    ensures var r := AddSecondDegree(d, paperId, cs);
      && r.nextId == d.nextId + |cs|
      && (forall id :: d.nextId <= id < d.nextId + |cs| ==> id in r.papers && r.papers[id] == CitingPaper(cs[id - d.nextId], paperId))
  {
    AddSecondDegreeNext(d, paperId, cs);
    forall id | d.nextId <= id < d.nextId + |cs|
      ensures id in AddSecondDegree(d, paperId, cs).papers
      ensures AddSecondDegree(d, paperId, cs).papers[id] == CitingPaper(cs[id - d.nextId], paperId)
    {
      AddSecondDegreeAt(d, paperId, cs, id - d.nextId);
    }
  }

  lemma {:induction false} AddSecondDegreeNext(d: Db, paperId: Id, cs: seq<CitationInput>)
    ensures AddSecondDegree(d, paperId, cs).nextId == d.nextId + |cs|
  {
    if cs != [] {
      AddSecondDegreeNext(d, paperId, cs[..|cs| - 1]);
    }
  }

  /** Citation k of the second-degree loop becomes the paper under id nextId + k. */
  lemma {:induction false} AddSecondDegreeAt(d: Db, paperId: Id, cs: seq<CitationInput>, k: nat)
    requires k < |cs|
    ensures d.nextId + k in AddSecondDegree(d, paperId, cs).papers
    ensures AddSecondDegree(d, paperId, cs).papers[d.nextId + k] == CitingPaper(cs[k], paperId)
  {
    var n := |cs| - 1;
    AddSecondDegreeNext(d, paperId, cs[..n]);
    if k < n {
      AddSecondDegreeAt(d, paperId, cs[..n], k);
      assert cs[..n][k] == cs[k];
    }
  }

  /** A new paper without authors, under the next id, keeps the registry valid. */
  lemma NewAuthorlessPaper(d: Db, p: Paper)
    requires DbValid(d) && p.authors == []
    ensures var r := d.(papers := d.papers[d.nextId := p], nextId := d.nextId + 1);
      DbValid(r) && Grows(d, r) && forall q :: q in d.papers ==> r.papers[q] == d.papers[q]
  {
    assert d.nextId !in d.papers;
    AuthorlessPaperLinked(d.people, d.papers, d.nextId, p);
  }

  lemma AuthorlessPaperLinked(people: map<Id, Person>, papers: map<Id, Paper>, q: Id, p: Paper)
    requires AuthorshipLinked(people, papers) && q !in papers && p.authors == []
    ensures AuthorshipLinked(people, papers[q := p])
  {
  }

  /** Replacing a paper's record by one with the same authors keeps the registry valid. */
  lemma SamePaperAuthors(d: Db, q: Id, p: Paper)
    requires DbValid(d) && q in d.papers && p.authors == d.papers[q].authors
    ensures var r := d.(papers := d.papers[q := p]);
      DbValid(r) && Grows(d, r)
  {
    var r := d.(papers := d.papers[q := p]);
    assert AuthorshipLinked(r.people, r.papers);
  }
  /** Replacing a project's record by one with the same contributors keeps the registry valid. */
  lemma SameProjectContributors(d: Db, j: Id, p: Project)
    requires DbValid(d) && j in d.projects && p.contributors == d.projects[j].contributors
    ensures var r := d.(projects := d.projects[j := p]);
      DbValid(r) && Grows(d, r)
  {
    var r := d.(projects := d.projects[j := p]);
    assert ContributionsLinked(r.people, r.projects);
  }

  // -----------------------------------------------------------------------
  // The paper block

  /** The paper record and its link to the project. */
  function PaperRecord(d: Db, projectId: Id, pa: PaperAnalysis): (r: Db)
    requires projectId in d.projects
    ensures d.nextId in r.papers && r.people == d.people && r.nextId == d.nextId + 1
  {
    var paperId := d.nextId;
    d.(papers := d.papers[paperId := Paper(pa.doi, pa.title, pa.domains, [], [], [], [projectId], [])],
       projects := d.projects[projectId := d.projects[projectId].(associatedPapers := d.projects[projectId].associatedPapers + [paperId])],
       nextId := paperId + 1)
  }

  /**
   * The block run when a DOI and its paper were found: the paper, linked
   * to the project both ways, then its authors, its first-degree and its
   * second-degree citations.
   */
  function AddPaper(d: Db, projectId: Id, pa: PaperAnalysis): (r: (Db, Id))
    requires projectId in d.projects
  {
    var paperId := d.nextId;
    var d1 := PaperRecord(d, projectId, pa);
    var d2 := AddAuthors(d1, paperId, pa.authors);
    var d3 := AddCited(d2, paperId, pa.firstDegree);
    (AddSecondDegree(d3, paperId, pa.secondDegree), paperId)
  }

  lemma PaperRecordValid(d: Db, projectId: Id, pa: PaperAnalysis)
    requires DbValid(d) && projectId in d.projects
    ensures DbValid(PaperRecord(d, projectId, pa)) && Grows(d, PaperRecord(d, projectId, pa))
  {
    var paperId := d.nextId;
    var p := Paper(pa.doi, pa.title, pa.domains, [], [], [], [projectId], []);
    var mid := d.(papers := d.papers[paperId := p], nextId := paperId + 1);
    NewAuthorlessPaper(d, p);
    SameProjectContributors(mid, projectId, mid.projects[projectId].(associatedPapers := mid.projects[projectId].associatedPapers + [paperId]));
    GrowsTrans(d, mid, PaperRecord(d, projectId, pa));
  }

  lemma AddPaperValid(d: Db, projectId: Id, pa: PaperAnalysis)
    requires DbValid(d) && projectId in d.projects
    ensures DbValid(AddPaper(d, projectId, pa).0) && Grows(d, AddPaper(d, projectId, pa).0)
    ensures AddPaper(d, projectId, pa).0.projects.Keys == d.projects.Keys
  {
    var d1 := PaperRecord(d, projectId, pa);
    PaperRecordValid(d, projectId, pa);
    PaperContentsValid(d1, d.nextId, pa);
    GrowsTrans(d, d1, AddPaper(d, projectId, pa).0);
  }

  /** Authors, first- and second-degree citations of a paper already recorded. */
  lemma PaperContentsValid(d: Db, paperId: Id, pa: PaperAnalysis)
    requires DbValid(d) && paperId in d.papers
    ensures var r := AddSecondDegree(AddCited(AddAuthors(d, paperId, pa.authors), paperId, pa.firstDegree), paperId, pa.secondDegree);
      DbValid(r) && Grows(d, r)
  {
    var d3 := AddCited(AddAuthors(d, paperId, pa.authors), paperId, pa.firstDegree);
    AuthorsCitedValid(d, paperId, pa);
    AddSecondDegreeValid(d3, paperId, pa.secondDegree);
    GrowsTrans(d, d3, AddSecondDegree(d3, paperId, pa.secondDegree));
  }

  lemma AuthorsCitedValid(d: Db, paperId: Id, pa: PaperAnalysis)
    requires DbValid(d) && paperId in d.papers
    ensures var r := AddCited(AddAuthors(d, paperId, pa.authors), paperId, pa.firstDegree);
      DbValid(r) && Grows(d, r)
  {
    var d2 := AddAuthors(d, paperId, pa.authors);
    AddAuthorsValid(d, paperId, pa.authors);
    AddCitedValid(d2, paperId, pa.firstDegree);
    GrowsTrans(d, d2, AddCited(d2, paperId, pa.firstDegree));
  }

  /**
   * The new paper carries the DOI and the project, the project lists the
   * paper, and its authors are new people, one per entry of the author
   * list, none of whom existed before.
   */
  lemma AddPaperFacts(d: Db, projectId: Id, pa: PaperAnalysis)
    requires DbValid(d) && projectId in d.projects
    ensures var (r, paperId) := AddPaper(d, projectId, pa);
      && paperId == d.nextId && paperId !in d.papers && paperId in r.papers
      && r.papers[paperId].doi == pa.doi && r.papers[paperId].associatedProjects == [projectId]
      && r.projects[projectId].associatedPapers == d.projects[projectId].associatedPapers + [paperId]
      && FreshAuthors(r.papers[paperId].authors, d.nextId, r.people, pa.authors)
  {
    var paperId := d.nextId;
    var d1 := PaperRecord(d, projectId, pa);
    var d2 := AddAuthors(d1, paperId, pa.authors);
    var d3 := AddCited(d2, paperId, pa.firstDegree);
    PaperRecordValid(d, projectId, pa);
    AddAuthorsValid(d1, paperId, pa.authors);
    AddAuthorsFresh(d1, paperId, pa.authors);
    AddCitedValid(d2, paperId, pa.firstDegree);
    AddCitedFacts(d2, paperId, pa.firstDegree);
    AddSecondDegreeValid(d3, paperId, pa.secondDegree);
    assert d1.papers[paperId].authors == [];
    assert d2.papers[paperId].authors[0..] == d2.papers[paperId].authors;
    assert d3.papers[paperId].authors == d2.papers[paperId].authors;
  }

  // -----------------------------------------------------------------------
  // The contributor block

  /** A new person for a contributor, contributing to the project and listed by it. */
  function ContributorRecord(d: Db, projectId: Id, name: Option<string>, username: Option<string>): (r: Db)
    requires projectId in d.projects
    ensures d.nextId in r.people && r.projects.Keys == d.projects.Keys && r.papers == d.papers
  {
    var pid := d.nextId;
    d.(people := d.people[pid := NewPerson(name, None, username, [projectId])],
       personOrder := d.personOrder + [pid],
       projects := d.projects[projectId := d.projects[projectId].(contributors := d.projects[projectId].contributors + [pid])],
       nextId := pid + 1)
  }

  /**
   * One entry of `contributor_affiliations`.  A person already carrying
   * the username only gets the affiliation linked; otherwise a new person
   * is created, contributing to this project and listed by it, and then
   * linked.  An empty or missing affiliation links nothing.
   */
  function AddContributor(d: Db, projectId: Id, c: ContributorAffiliation): (r: Db)
    requires projectId in d.projects
    ensures r.projects.Keys == d.projects.Keys && r.papers == d.papers
  {
    match FirstWithUsername(d.personOrder, d.people, c.username)
    case Some(pid) =>
      if Truthy(c.affiliation) then Link(d, pid, c.affiliation).0 else d
    case None =>
      var d1 := ContributorRecord(d, projectId, if Truthy(c.realName) then c.realName else c.username, c.username);
      if Truthy(c.affiliation) then Link(d1, d.nextId, c.affiliation).0 else d1
  }

  lemma ContributorRecordContributions(d: Db, projectId: Id, name: Option<string>, username: Option<string>)
    requires projectId in d.projects && Below(d.people, d.nextId) && ContributionsLinked(d.people, d.projects)
    ensures var r := ContributorRecord(d, projectId, name, username);
      ContributionsLinked(r.people, r.projects)
  {
    assert d.nextId !in d.people;
  }

  lemma ContributorRecordOthers(d: Db, projectId: Id, name: Option<string>, username: Option<string>)
    requires projectId in d.projects && Below(d.people, d.nextId)
    requires AuthorshipLinked(d.people, d.papers) && AffiliationsLinked(d.people, d.institutions)
    ensures var r := ContributorRecord(d, projectId, name, username);
      AuthorshipLinked(r.people, r.papers) && AffiliationsLinked(r.people, r.institutions)
  {
    assert d.nextId !in d.people;
    NewUnlinkedPerson(d.people, d.papers, d.institutions, d.nextId, NewPerson(name, None, username, [projectId]));
  }

  /** A person with no affiliations and no papers, under a new key, leaves those links two-way. */
  lemma NewUnlinkedPerson(people: map<Id, Person>, papers: map<Id, Paper>, insts: map<Id, Institution>, pid: Id, p: Person)
    requires pid !in people && p.affiliations == [] && p.authoredPapers == []
    requires AuthorshipLinked(people, papers) && AffiliationsLinked(people, insts)
    ensures AuthorshipLinked(people[pid := p], papers) && AffiliationsLinked(people[pid := p], insts)
  {
  }

  lemma ContributorRecordValid(d: Db, projectId: Id, name: Option<string>, username: Option<string>)
    requires DbValid(d) && projectId in d.projects
    ensures DbValid(ContributorRecord(d, projectId, name, username)) && Grows(d, ContributorRecord(d, projectId, name, username))
  {
    assert d.nextId !in d.people;
    OrderedKeysSnoc(d.personOrder, d.people, d.nextId, NewPerson(name, None, username, [projectId]));
    ContributorRecordContributions(d, projectId, name, username);
    ContributorRecordOthers(d, projectId, name, username);
  }

  lemma AddContributorValid(d: Db, projectId: Id, c: ContributorAffiliation)
    requires DbValid(d) && projectId in d.projects
    ensures DbValid(AddContributor(d, projectId, c)) && Grows(d, AddContributor(d, projectId, c))
  {
    match FirstWithUsername(d.personOrder, d.people, c.username)
    case Some(pid) =>
      if Truthy(c.affiliation) {
        LinkValid(d, pid, c.affiliation);
        LinkGrows(d, pid, c.affiliation);
      }
    case None =>
      var d1 := ContributorRecord(d, projectId, if Truthy(c.realName) then c.realName else c.username, c.username);
      ContributorRecordValid(d, projectId, if Truthy(c.realName) then c.realName else c.username, c.username);
      if Truthy(c.affiliation) {
        LinkValid(d1, d.nextId, c.affiliation);
        LinkGrows(d1, d.nextId, c.affiliation);
        GrowsTrans(d, d1, AddContributor(d, projectId, c));
      }
  }

  /** The contributor loop. */
  function AddContributors(d: Db, projectId: Id, cs: seq<ContributorAffiliation>): (r: Db)
    requires projectId in d.projects
    ensures r.projects.Keys == d.projects.Keys && r.papers == d.papers
  {
    if cs == [] then d
    else AddContributor(AddContributors(d, projectId, cs[..|cs| - 1]), projectId, cs[|cs| - 1])
  }

  lemma {:induction false} AddContributorsValid(d: Db, projectId: Id, cs: seq<ContributorAffiliation>)
    requires DbValid(d) && projectId in d.projects
    ensures DbValid(AddContributors(d, projectId, cs)) && Grows(d, AddContributors(d, projectId, cs))
  {
    if cs != [] {
      var prev := AddContributors(d, projectId, cs[..|cs| - 1]);
      AddContributorsValid(d, projectId, cs[..|cs| - 1]);
      AddContributorValid(prev, projectId, cs[|cs| - 1]);
      GrowsTrans(d, prev, AddContributors(d, projectId, cs));
    }
  }

  /** The final recomputation of the project's contributors from the people's contributed projects. */
  function Recompute(d: Db, projectId: Id): (r: Db)
    requires projectId in d.projects
  {
    d.(projects := d.projects[projectId := d.projects[projectId].(contributors := ContributorsOf(d.personOrder, d.people, projectId))])
  }

  lemma RecomputeValid(d: Db, projectId: Id)
    requires DbValid(d) && projectId in d.projects
    ensures DbValid(Recompute(d, projectId)) && Grows(d, Recompute(d, projectId))
    ensures forall p :: p in Recompute(d, projectId).projects[projectId].contributors <==>
      p in d.people && projectId in d.people[p].contributedProjects
  {
    RecomputeLinked(d.people, d.personOrder, d.projects, projectId);
  }

  lemma RecomputeLinked(people: map<Id, Person>, order: seq<Id>, projects: map<Id, Project>, projectId: Id)
    requires OrderedKeys(order, people) && ContributionsLinked(people, projects) && projectId in projects
    ensures ContributionsLinked(people, projects[projectId := projects[projectId].(contributors := ContributorsOf(order, people, projectId))])
  {
  }

  // -----------------------------------------------------------------------
  // analyze_repository, as far as the registry is concerned

  /** Creates the project record under the next identifier. */
  function OpenProject(d: Db, fullName: string, queries: seq<string>): (r: Db)
  {
    d.(projects := d.projects[d.nextId := Project(fullName, [], [], queries)], nextId := d.nextId + 1)
  }

  /** The paper block, when a DOI and its paper were found. */
  function WithPaper(d: Db, projectId: Id, paper: Option<PaperAnalysis>): (r: Db)
    requires projectId in d.projects
  {
    if paper.Some? then AddPaper(d, projectId, paper.value).0 else d
  }

  /** The contributor block, when the analysis has contributor affiliations. */
  function WithContributors(d: Db, projectId: Id, contributors: Option<seq<ContributorAffiliation>>): (r: Db)
    requires projectId in d.projects
  {
    if contributors.Some? then AddContributors(d, projectId, contributors.value) else d
  }

  /**
   * A fresh project, the paper block when a DOI and its paper were found,
   * the contributor block when the analysis has contributor
   * affiliations, and the recomputation of the project's contributors.
   */
  function AnalyzeRepository(d: Db, fullName: string, queries: seq<string>,
                             paper: Option<PaperAnalysis>, contributors: Option<seq<ContributorAffiliation>>): (r: (Db, Id))
  {
    var projectId := d.nextId;
    var d1 := OpenProject(d, fullName, queries);
    var d2 := WithPaper(d1, projectId, paper);
    AddPaperKeys(d1, projectId, paper);
    var d3 := WithContributors(d2, projectId, contributors);
    (Recompute(d3, projectId), projectId)
  }

  lemma AddPaperKeys(d: Db, projectId: Id, paper: Option<PaperAnalysis>)
    requires projectId in d.projects
    ensures WithPaper(d, projectId, paper).projects.Keys == d.projects.Keys
  {
  }

  /** The new project is unknown beforehand, so nobody contributes to it yet. */
  lemma OpenProjectValid(d: Db, fullName: string, queries: seq<string>)
    requires DbValid(d)
    ensures var r := OpenProject(d, fullName, queries);
      && DbValid(r) && Grows(d, r) && d.nextId !in d.projects && d.nextId in r.projects
      && r.people == d.people
      && (forall p :: p in r.people ==> d.nextId !in r.people[p].contributedProjects)
  {
    assert d.nextId !in d.projects;
    NewProjectLinked(d.people, d.projects, d.nextId, Project(fullName, [], [], queries));
  }

  lemma NewProjectLinked(people: map<Id, Person>, projects: map<Id, Project>, j: Id, p: Project)
    requires ContributionsLinked(people, projects) && j !in projects && p.contributors == []
    ensures ContributionsLinked(people, projects[j := p])
    ensures forall q :: q in people ==> j !in people[q].contributedProjects
  {
  }

  lemma WithPaperValid(d: Db, projectId: Id, paper: Option<PaperAnalysis>)
    requires DbValid(d) && projectId in d.projects
    ensures var r := WithPaper(d, projectId, paper);
      && DbValid(r) && Grows(d, r)
      && r.projects[projectId].fullName == d.projects[projectId].fullName
      && r.projects[projectId].queries == d.projects[projectId].queries
  {
    if paper.Some? {
      AddPaperValid(d, projectId, paper.value);
      PaperRecordKeepsName(d, projectId, paper.value);
    }
  }

  lemma WithContributorsValid(d: Db, projectId: Id, contributors: Option<seq<ContributorAffiliation>>)
    requires DbValid(d) && projectId in d.projects
    ensures var r := WithContributors(d, projectId, contributors);
      && DbValid(r) && Grows(d, r) && r.papers == d.papers
      && r.projects[projectId].fullName == d.projects[projectId].fullName
      && r.projects[projectId].queries == d.projects[projectId].queries
  {
    if contributors.Some? {
      AddContributorsValid(d, projectId, contributors.value);
      ContributorsKeepName(d, projectId, contributors.value);
    }
  }

  /**
   * A username already known only gains an affiliation: nobody is
   * created and no project changes.  An unknown username yields a new
   * person, with that username, contributing to the project and listed
   * by it.
   */
  lemma AddContributorFacts(d: Db, projectId: Id, c: ContributorAffiliation)
    requires DbValid(d) && projectId in d.projects
    ensures var r := AddContributor(d, projectId, c);
      var known := FirstWithUsername(d.personOrder, d.people, c.username);
      && (known.Some? ==> r.people.Keys == d.people.Keys && r.projects == d.projects)
      && (known.None? ==>
            && d.nextId !in d.people && d.nextId in r.people
            && r.people[d.nextId].githubUsername == c.username
            && r.people[d.nextId].contributedProjects == [projectId]
            && r.projects[projectId].contributors == d.projects[projectId].contributors + [d.nextId])
  {
    var known := FirstWithUsername(d.personOrder, d.people, c.username);
    if known.None? {
      var d1 := ContributorRecord(d, projectId, if Truthy(c.realName) then c.realName else c.username, c.username);
      assert d.nextId !in d.people;
      if Truthy(c.affiliation) {
        LinkFacts(d1, d.nextId, c.affiliation);
      }
    }
  }

  lemma FreshAuthorsGrow(ids: seq<Id>, bound: nat, before: Db, after: Db, authors: seq<AuthorInput>)
    requires FreshAuthors(ids, bound, before.people, authors) && Grows(before, after)
    ensures FreshAuthors(ids, bound, after.people, authors)
  {
  }

  lemma AnalyzeRepositoryValid(d: Db, fullName: string, queries: seq<string>,
                               paper: Option<PaperAnalysis>, contributors: Option<seq<ContributorAffiliation>>)
    requires DbValid(d)
    ensures var (r, projectId) := AnalyzeRepository(d, fullName, queries, paper, contributors);
      && DbValid(r) && Grows(d, r)
      && projectId == d.nextId && projectId !in d.projects && projectId in r.projects
      && r.projects[projectId].fullName == fullName && r.projects[projectId].queries == queries
  {
    var projectId := d.nextId;
    var d1 := OpenProject(d, fullName, queries);
    var d2 := WithPaper(d1, projectId, paper);
    OpenProjectValid(d, fullName, queries);
    WithPaperValid(d1, projectId, paper);
    var d3 := WithContributors(d2, projectId, contributors);
    WithContributorsValid(d2, projectId, contributors);
    RecomputeValid(d3, projectId);
    GrowsTrans(d, d1, d2);
    GrowsTrans(d, d2, d3);
    GrowsTrans(d, d3, Recompute(d3, projectId));
  }

  lemma PaperRecordKeepsName(d: Db, projectId: Id, pa: PaperAnalysis)
    requires projectId in d.projects
    ensures AddPaper(d, projectId, pa).0.projects[projectId].fullName == d.projects[projectId].fullName
    ensures AddPaper(d, projectId, pa).0.projects[projectId].queries == d.projects[projectId].queries
  {
  }

  lemma {:induction false} ContributorsKeepName(d: Db, projectId: Id, cs: seq<ContributorAffiliation>)
    requires projectId in d.projects
    ensures AddContributors(d, projectId, cs).projects[projectId].fullName == d.projects[projectId].fullName
    ensures AddContributors(d, projectId, cs).projects[projectId].queries == d.projects[projectId].queries
  {
    if cs != [] {
      ContributorsKeepName(d, projectId, cs[..|cs| - 1]);
    }
  }

  /**
   * The project's contributors are exactly the people listing it among
   * their contributed projects, and nobody known before the call is
   * among them: a contributor matched by username is not added.
   */
  lemma KnownContributorsNotAdded(d: Db, fullName: string, queries: seq<string>,
                                  paper: Option<PaperAnalysis>, contributors: Option<seq<ContributorAffiliation>>)
    requires DbValid(d)
    ensures var (r, projectId) := AnalyzeRepository(d, fullName, queries, paper, contributors);
      && (forall p :: p in r.projects[projectId].contributors <==> p in r.people && projectId in r.people[p].contributedProjects)
      && (forall p :: p in d.people ==> p !in r.projects[projectId].contributors)
  {
    var projectId := d.nextId;
    var d1 := OpenProject(d, fullName, queries);
    var d2 := WithPaper(d1, projectId, paper);
    OpenProjectValid(d, fullName, queries);
    WithPaperValid(d1, projectId, paper);
    var d3 := WithContributors(d2, projectId, contributors);
    WithContributorsValid(d2, projectId, contributors);
    GrowsTrans(d1, d2, d3);
    RecomputeValid(d3, projectId);
  }

  /** With a paper, its authors are new people, one per author entry, whatever the contributor block does afterwards. */
  lemma AnalyzePaperAuthors(d: Db, fullName: string, queries: seq<string>,
                            pa: PaperAnalysis, contributors: Option<seq<ContributorAffiliation>>)
    requires DbValid(d)
    ensures var r := AnalyzeRepository(d, fullName, queries, Some(pa), contributors).0;
      var paperId := d.nextId + 1;
      && paperId in r.papers && r.papers[paperId].doi == pa.doi
      && FreshAuthors(r.papers[paperId].authors, d.nextId, r.people, pa.authors)
  {
    var d2 := WithPaper(OpenProject(d, fullName, queries), d.nextId, Some(pa));
    OpenWithPaper(d, fullName, queries, pa);
    PaperSurvives(d2, d.nextId, contributors, d.nextId + 1, d.nextId, pa);
  }

  /** The registry after the project and its paper block, before the contributor block. */
  lemma OpenWithPaper(d: Db, fullName: string, queries: seq<string>, pa: PaperAnalysis)
    requires DbValid(d)
    ensures var d2 := WithPaper(OpenProject(d, fullName, queries), d.nextId, Some(pa));
      && DbValid(d2) && d.nextId in d2.projects && d.nextId + 1 in d2.papers
      && d2.papers[d.nextId + 1].doi == pa.doi
      && FreshAuthors(d2.papers[d.nextId + 1].authors, d.nextId, d2.people, pa.authors)
  {
    var projectId := d.nextId;
    var d1 := OpenProject(d, fullName, queries);
    OpenProjectValid(d, fullName, queries);
    AddPaperValid(d1, projectId, pa);
    AddPaperFacts(d1, projectId, pa);
    var d2 := AddPaper(d1, projectId, pa).0;
    FreshAuthorsWeaken(d2.papers[d1.nextId].authors, d1.nextId, d.nextId, d2.people, pa.authors);
  }

  /** The contributor block and the recount leave a paper, and its fresh authors, as they were. */
  lemma PaperSurvives(d: Db, projectId: Id, contributors: Option<seq<ContributorAffiliation>>,
                      paperId: Id, bound: nat, pa: PaperAnalysis)
    requires DbValid(d) && projectId in d.projects && paperId in d.papers
    requires d.papers[paperId].doi == pa.doi
    requires FreshAuthors(d.papers[paperId].authors, bound, d.people, pa.authors)
    ensures var r := Recompute(WithContributors(d, projectId, contributors), projectId);
      && paperId in r.papers && r.papers[paperId] == d.papers[paperId]
      && FreshAuthors(r.papers[paperId].authors, bound, r.people, pa.authors)
  {
    var d3 := WithContributors(d, projectId, contributors);
    WithContributorsValid(d, projectId, contributors);
    RecomputeValid(d3, projectId);
    GrowsTrans(d, d3, Recompute(d3, projectId));
    FreshAuthorsGrow(d.papers[paperId].authors, bound, d, Recompute(d3, projectId), pa.authors);
  }

  lemma FreshAuthorsWeaken(ids: seq<Id>, bound: nat, lower: nat, people: map<Id, Person>, authors: seq<AuthorInput>)
    requires FreshAuthors(ids, bound, people, authors) && lower <= bound
    ensures FreshAuthors(ids, lower, people, authors)
  {
  }

  /** Collecting a project's contributors in insertion order, one person at a time. */
  lemma {:induction false} ContributorsOfSnoc(order: seq<Id>, x: Id, people: map<Id, Person>, project: Id)
    ensures ContributorsOf(order + [x], people, project) ==
      ContributorsOf(order, people, project) + (if x in people && project in people[x].contributedProjects then [x] else [])
  {
    if order != [] {
      assert (order + [x])[1..] == order[1..] + [x];
      ContributorsOfSnoc(order[1..], x, people, project);
    }
  }

  /** Each person appears at most once among the contributors collected. */
  lemma {:induction false} ContributorsOfDistinct(order: seq<Id>, people: map<Id, Person>, project: Id)
    requires Distinct(order)
    ensures Distinct(ContributorsOf(order, people, project))
  {
    if order != [] {
      assert Distinct(order[1..]) by {
        forall i, j | 0 <= i < j < |order[1..]| ensures order[1..][i] != order[1..][j] {
          assert order[1..][i] == order[i + 1] && order[1..][j] == order[j + 1];
        }
      }
      ContributorsOfDistinct(order[1..], people, project);
      assert order[0] !in order[1..] by {
        forall i | 0 <= i < |order[1..]| ensures order[1..][i] != order[0] {
          assert order[1..][i] == order[i + 1];
        }
      }
      var rest := ContributorsOf(order[1..], people, project);
      assert forall p :: p in rest ==> p in order[1..];
    }
  }

  // -----------------------------------------------------------------------
  // The dictionaries as analyze_repository updates them in place

  /**
   * The four dictionaries of one run, with their insertion orders and the
   * identifier source.  Each method updates them the way one block of
   * analyze_repository does, and is proved to leave exactly the state the
   * corresponding function above computes.
   */
  class Store {
    var people: map<Id, Person>
    var personOrder: seq<Id>
    var papers: map<Id, Paper>
    var projects: map<Id, Project>
    var institutions: map<Id, Institution>
    var institutionOrder: seq<Id>
    var nextId: nat

    function State(): (d: Db)
      reads this
    {
      Db(people, personOrder, papers, projects, institutions, institutionOrder, nextId)
    }

    ghost predicate Valid()
      reads this
    {
      DbValid(State())
    }

    constructor ()
      ensures State() == EmptyDb && Valid()
    {
      people, personOrder, papers, projects := map[], [], map[], map[];
      institutions, institutionOrder, nextId := map[], [], 0;
    }

    /** The `next(...)` scan over institutions for one with this name. */
    method FindInstitution(name: Option<string>) returns (found: Option<Id>)
      ensures found == FirstNamed(institutionOrder, institutions, name)
    {
      var i := 0;
      while i < |institutionOrder|
        invariant 0 <= i <= |institutionOrder|
        invariant FirstNamed(institutionOrder[i..], institutions, name) == FirstNamed(institutionOrder, institutions, name)
      {
        var k := institutionOrder[i];
        if k in institutions && institutions[k].name == name {
          return Some(k);
        }
        assert institutionOrder[i..][1..] == institutionOrder[i + 1..];
        i := i + 1;
      }
      return None;
    }

    /** The `next(...)` scan over people for one with this GitHub username. */
    method FindPersonByUsername(username: Option<string>) returns (found: Option<Id>)
      ensures found == FirstWithUsername(personOrder, people, username)
    {
      var i := 0;
      while i < |personOrder|
        invariant 0 <= i <= |personOrder|
        invariant FirstWithUsername(personOrder[i..], people, username) == FirstWithUsername(personOrder, people, username)
      {
        var k := personOrder[i];
        if k in people && people[k].githubUsername == username {
          return Some(k);
        }
        assert personOrder[i..][1..] == personOrder[i + 1..];
        i := i + 1;
      }
      return None;
    }

    /** Get or create the institution named `name` and link person pid to it both ways. */
    method LinkInstitution(pid: Id, name: Option<string>) returns (iid: Id)
      requires pid in people
      modifies this
      ensures State() == Link(old(State()), pid, name).0 && iid == Link(old(State()), pid, name).1
    {
      var found := FindInstitution(name);
      if found.Some? {
        iid := found.value;
        institutions := institutions[iid := institutions[iid].(affiliatedPeople := institutions[iid].affiliatedPeople + [pid])];
      } else {
        iid := nextId;
        institutions := institutions[iid := Institution(name, [pid])];
        institutionOrder := institutionOrder + [iid];
        nextId := nextId + 1;
      }
      people := people[pid := people[pid].(affiliations := people[pid].affiliations + [iid])];
    }

    /** The affiliation loop of one person. */
    method LinkInstitutions(pid: Id, names: seq<Option<string>>)
      requires pid in people
      modifies this
      ensures State() == LinkAll(old(State()), pid, names)
    {
      ghost var d := State();
      var k := 0;
      while k < |names|
        invariant 0 <= k <= |names| && pid in people
        invariant State() == LinkAll(d, pid, names[..k])
      {
        assert names[..k + 1][..k] == names[..k];
        var _ := LinkInstitution(pid, names[k]);
        k := k + 1;
      }
      assert names[..k] == names;
    }

    /** A fresh person id, its record when the id is new, and the two-way authorship link. */
    method RecordAuthor(paperId: Id, a: AuthorInput) returns (pid: Id)
      requires paperId in papers
      modifies this
      ensures State() == AuthorRecord(old(State()), paperId, a) && pid == old(nextId)
    {
      pid := nextId;
      nextId := nextId + 1;
      if pid !in people {
        people := people[pid := NewPerson(a.name, a.orcid, None, [])];
        personOrder := personOrder + [pid];
      }
      people := people[pid := people[pid].(authoredPapers := people[pid].authoredPapers + [paperId])];
      papers := papers[paperId := papers[paperId].(authors := papers[paperId].authors + [pid])];
    }

    /** One entry of the author loop, its affiliation loop included. */
    method AddAuthorEntry(paperId: Id, a: AuthorInput) returns (pid: Id)
      requires paperId in papers
      modifies this
      ensures State() == AddAuthor(old(State()), paperId, a).0 && pid == AddAuthor(old(State()), paperId, a).1
    {
      pid := RecordAuthor(paperId, a);
      LinkInstitutions(pid, a.institutions);
    }

    /** The first-degree citation loop. */
    method AddCitedPapers(paperId: Id, cs: seq<CitationInput>)
      requires paperId in papers
      modifies this
      ensures State() == AddCited(old(State()), paperId, cs)
    {
      ghost var d := State();
      var k := 0;
      while k < |cs|
        invariant 0 <= k <= |cs|
        invariant State() == AddCited(d, paperId, cs[..k])
      {
        assert cs[..k + 1][..k] == cs[..k];
        var c := cs[k];
        var cid := nextId;
        papers := papers[cid := CitedPaper(c, paperId)];
        papers := papers[paperId := papers[paperId].(citedByPapers := papers[paperId].citedByPapers + [cid])];
        nextId := cid + 1;
        k := k + 1;
      }
      assert cs[..k] == cs;
    }

    /** The second-degree citation loop. */
    method AddCitingPapers(paperId: Id, cs: seq<CitationInput>)
      modifies this
      ensures State() == AddSecondDegree(old(State()), paperId, cs)
    {
      ghost var d := State();
      var k := 0;
      while k < |cs|
        invariant 0 <= k <= |cs|
        invariant State() == AddSecondDegree(d, paperId, cs[..k])
      {
        assert cs[..k + 1][..k] == cs[..k];
        var c := cs[k];
        papers := papers[nextId := CitingPaper(c, paperId)];
        nextId := nextId + 1;
        k := k + 1;
      }
      assert cs[..k] == cs;
    }

    /** The paper block: the paper, its authors, its citations. */
    method AddPaperBlock(projectId: Id, pa: PaperAnalysis) returns (paperId: Id)
      requires projectId in projects
      modifies this
      ensures State() == AddPaper(old(State()), projectId, pa).0 && paperId == AddPaper(old(State()), projectId, pa).1
    {
      ghost var d := State();
      paperId := nextId;
      papers := papers[paperId := Paper(pa.doi, pa.title, pa.domains, [], [], [], [projectId], [])];
      projects := projects[projectId := projects[projectId].(associatedPapers := projects[projectId].associatedPapers + [paperId])];
      nextId := paperId + 1;
      assert State() == PaperRecord(d, projectId, pa);
      AddAuthorEntries(paperId, pa.authors);
      AddCitedPapers(paperId, pa.firstDegree);
      AddCitingPapers(paperId, pa.secondDegree);
    }

    /** The author loop of one paper. */
    method AddAuthorEntries(paperId: Id, authors: seq<AuthorInput>)
      requires paperId in papers
      modifies this
      ensures State() == AddAuthors(old(State()), paperId, authors)
    {
      ghost var d := State();
      var k := 0;
      while k < |authors|
        invariant 0 <= k <= |authors| && paperId in papers
        invariant State() == AddAuthors(d, paperId, authors[..k])
      {
        assert authors[..k + 1][..k] == authors[..k];
        var _ := AddAuthorEntry(paperId, authors[k]);
        k := k + 1;
      }
      assert authors[..k] == authors;
    }

    /** One entry of `contributor_affiliations`. */
    method AddContributorEntry(projectId: Id, c: ContributorAffiliation)
      requires projectId in projects
      modifies this
      ensures State() == AddContributor(old(State()), projectId, c)
    {
      var known := FindPersonByUsername(c.username);
      if known.Some? {
        if Truthy(c.affiliation) {
          var _ := LinkInstitution(known.value, c.affiliation);
        }
      } else {
        var pid := AddNewContributor(projectId, if Truthy(c.realName) then c.realName else c.username, c.username);
        if Truthy(c.affiliation) {
          var _ := LinkInstitution(pid, c.affiliation);
        }
      }
    }

    /** A new person for a contributor, listed by the project. */
    method AddNewContributor(projectId: Id, name: Option<string>, username: Option<string>) returns (pid: Id)
      requires projectId in projects
      modifies this
      ensures State() == ContributorRecord(old(State()), projectId, name, username) && pid == old(nextId)
    {
      pid := nextId;
      people := people[pid := NewPerson(name, None, username, [projectId])];
      personOrder := personOrder + [pid];
      projects := projects[projectId := projects[projectId].(contributors := projects[projectId].contributors + [pid])];
      nextId := pid + 1;
    }

    /** The contributor block. */
    method AddContributorBlock(projectId: Id, cs: seq<ContributorAffiliation>)
      requires projectId in projects
      modifies this
      ensures State() == AddContributors(old(State()), projectId, cs)
    {
      ghost var d := State();
      var k := 0;
      while k < |cs|
        invariant 0 <= k <= |cs| && projectId in projects
        invariant State() == AddContributors(d, projectId, cs[..k])
      {
        assert cs[..k + 1][..k] == cs[..k];
        AddContributorEntry(projectId, cs[k]);
        k := k + 1;
      }
      assert cs[..k] == cs;
    }

    /** The final comprehension: everyone, in insertion order, who lists the project. */
    method CollectContributors(projectId: Id) returns (list: seq<Id>)
      ensures list == ContributorsOf(personOrder, people, projectId)
      ensures Valid() ==> Distinct(list) && forall p :: p in list <==> p in people && projectId in people[p].contributedProjects
    {
      list := [];
      var i := 0;
      while i < |personOrder|
        invariant 0 <= i <= |personOrder|
        invariant list == ContributorsOf(personOrder[..i], people, projectId)
      {
        var p := personOrder[i];
        assert personOrder[..i + 1] == personOrder[..i] + [p];
        ContributorsOfSnoc(personOrder[..i], p, people, projectId);
        if p in people && projectId in people[p].contributedProjects {
          list := list + [p];
        }
        i := i + 1;
      }
      assert personOrder[..i] == personOrder;
      if Valid() {
        ContributorsOfDistinct(personOrder, people, projectId);
      }
    }

    /** The project's contributors are replaced by that comprehension. */
    method RecomputeContributors(projectId: Id)
      requires projectId in projects
      modifies this
      ensures State() == Recompute(old(State()), projectId)
    {
      var list := CollectContributors(projectId);
      projects := projects[projectId := projects[projectId].(contributors := list)];
    }

    /**
     * analyze_repository's registry updates for one repository: the new
     * project, the paper block when a paper was found, the contributor
     * block, and the recount of the project's contributors.
     */
    method Analyze(fullName: string, queries: seq<string>,
                   paper: Option<PaperAnalysis>, contributors: Option<seq<ContributorAffiliation>>)
      returns (projectId: Id)
      requires Valid()
      modifies this
      ensures State() == AnalyzeRepository(old(State()), fullName, queries, paper, contributors).0
      ensures projectId == AnalyzeRepository(old(State()), fullName, queries, paper, contributors).1
      ensures Valid() && Grows(old(State()), State())
    {
      ghost var d := State();
      projectId := nextId;
      projects := projects[projectId := Project(fullName, [], [], queries)];
      nextId := nextId + 1;
      assert State() == OpenProject(d, fullName, queries);
      if paper.Some? {
        var _ := AddPaperBlock(projectId, paper.value);
      }
      AddPaperKeys(OpenProject(d, fullName, queries), projectId, paper);
      if contributors.Some? {
        AddContributorBlock(projectId, contributors.value);
      }
      RecomputeContributors(projectId);
      AnalyzeRepositoryValid(d, fullName, queries, paper, contributors);
    }
  }
}
