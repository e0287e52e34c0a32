/**
 * The earlier crawler, python-scripts/ecosyst.ms-api.py, under its own
 * (sequential) semantics.
 *
 * For each seed project URL in turn it starts a fresh row list, emits the
 * seed's Project row, walks the project's mention pages, processes every
 * paper that mentions the project and rewrites the CSV file with the row
 * list.  The id sets live on across seeds.  The only decode error it
 * catches is that of a project a paper mentions; any other one ends the
 * run.
 *
 * Rows are dictionaries, as in the script: a `Row` maps column names to
 * cell values.  The API records and the page walk are those of
 * `EcosystemsApi`.
 */
module EcosystemsSeeds {
  import opened Common
  import opened EcosystemsApi

  datatype Value = Null | Str(text: string) | Strs(items: seq<string>)

  type Row = map<string, Value>

  /** The columns of the CSV header. */
  const Fieldnames: set<string> :=
    {"id", "type", "display_name", "orcid", "institutions", "title", "doi", "software_mentions", "authors", "homepage", "repository_url"}

  /** `csv.DictWriter` refuses a row holding a key that is not a field name. */
  predicate Writable(row: Row) {
    row.Keys <= Fieldnames
  }

  /** A JSON string or null. */
  function Nullable(o: Option<string>): Value {
    if o.Some? then Str(o.value) else Null
  }

  datatype Kind = Institution | Person | Paper | Project

  /** The `type` cell of a row of this kind. */
  function KindName(k: Kind): string {
    match k
    case Institution => "Institution"
    case Person => "Person"
    case Paper => "Paper"
    case Project => "Project"
  }

  predicate IsKind(row: Row, k: Kind) {
    "type" in row && row["type"] == Str(KindName(k))
  }

  /** The `id` cell of a row. */
  function IdOf(row: Row): string {
    if "id" in row && row["id"].Str? then row["id"].text else ""
  }

  function InstitutionRowOf(i: InstitutionRef): (r: Row)
    ensures Writable(r) && IsKind(r, Institution) && IdOf(r) == i.id
  {
    map["id" := Str(i.id), "type" := Str(KindName(Institution)), "display_name" := Str(i.displayName)]
  }

  /** The author object as the API returns it. */
  function AuthorDict(a: Author): Row {
    map["id" := Str(a.id), "display_name" := Str(a.displayName), "orcid" := Nullable(a.orcid)]
  }

  /**
   * `{'type': "Person"} | author | {'institutions': names}`: the merge
   * keeps every key of each part, later parts winning on shared keys, so
   * the author's own fields survive beside the type and the institutions.
   */
  function PersonRowOf(a: Author, institutions: seq<string>): (r: Row)
    ensures r.Keys == {"type", "id", "display_name", "orcid", "institutions"}
    ensures r["type"] == Str("Person") && r["id"] == Str(a.id) && r["display_name"] == Str(a.displayName)
    ensures r["orcid"] == Nullable(a.orcid) && r["institutions"] == Strs(institutions)
    ensures Writable(r) && IsKind(r, Person) && IdOf(r) == a.id
  {
    map["type" := Str(KindName(Person))] + AuthorDict(a) + map["institutions" := Strs(institutions)]
  }

  /** A Paper row; `software_mentions` is the empty string when mentions were not asked for. */
  function PaperRowOf(p: PaperRecord, mentions: Value): (r: Row)
    ensures r.Keys == {"id", "type", "title", "doi", "authors", "software_mentions"}
    ensures Writable(r) && IsKind(r, Paper) && IdOf(r) == p.openalexId
    ensures r["authors"] == Strs(AuthorNames(p)) && r["software_mentions"] == mentions
  {
    map["id" := Str(p.openalexId), "type" := Str(KindName(Paper)), "title" := Nullable(p.title), "doi" := Nullable(p.doi),
        "authors" := Strs(AuthorNames(p)), "software_mentions" := mentions]
  }

  /** A Project row; without a package, homepage and repository are empty strings. */
  function ProjectRowOf(p: ProjectRecord): (r: Row)
    ensures r.Keys == {"id", "type", "display_name", "homepage", "repository_url"}
    ensures Writable(r) && IsKind(r, Project) && IdOf(r) == p.cziId && r["display_name"] == Str(ProjectName(p))
    ensures p.package.None? ==> r["homepage"] == Str("") && r["repository_url"] == Str("")
  {
    var home := if p.package.Some? then Nullable(p.package.value.homepage) else Str("");
    var repo := if p.package.Some? then Nullable(p.package.value.repositoryUrl) else Str("");
    map["id" := Str(p.cziId), "type" := Str(KindName(Project)), "display_name" := Str(ProjectName(p)),
        "homepage" := home, "repository_url" := repo]
  }

  // -----------------------------------------------------------------------
  // The module-level state, as a value

  /** `rowList`, the rows of the CSV file, and the four id sets. */
  datatype Sweep = Sweep(
    rows: seq<Row>,
    output: seq<Row>,
    institutionIds: set<string>,
    personIds: set<string>,
    paperIds: set<string>,
    projectIds: set<string>)

  const Start := Sweep([], [], {}, {}, {}, {})

  function Guard(c: Sweep, k: Kind): set<string> {
    match k
    case Institution => c.institutionIds
    case Person => c.personIds
    case Paper => c.paperIds
    case Project => c.projectIds
  }

  function WithGuard(c: Sweep, k: Kind, s: set<string>): Sweep {
    match k
    case Institution => c.(institutionIds := s)
    case Person => c.(personIds := s)
    case Paper => c.(paperIds := s)
    case Project => c.(projectIds := s)
  }

  /** `if id not in the_set: the_set.add(id); rowList.append(row)`. */
  function Once(c: Sweep, k: Kind, row: Row): Sweep {
    if IdOf(row) in Guard(c, k) then c
    else WithGuard(c, k, Guard(c, k) + {IdOf(row)}).(rows := c.rows + [row])
  }

  // -----------------------------------------------------------------------
  // At most one row per id

  function IdsOf(rows: seq<Row>, k: Kind): set<string> {
    if rows == [] then {}
    else IdsOf(rows[..|rows| - 1], k) + (if IsKind(rows[|rows| - 1], k) then {IdOf(rows[|rows| - 1])} else {})
  }

  predicate Deduped(rows: seq<Row>, k: Kind) {
    rows == [] ||
    (Deduped(rows[..|rows| - 1], k) &&
     (IsKind(rows[|rows| - 1], k) ==> IdOf(rows[|rows| - 1]) !in IdsOf(rows[..|rows| - 1], k)))
  }

  lemma IdsOfSnoc(rows: seq<Row>, row: Row, k: Kind)
    ensures IdsOf(rows + [row], k) == IdsOf(rows, k) + (if IsKind(row, k) then {IdOf(row)} else {})
    ensures Deduped(rows + [row], k) <==> Deduped(rows, k) && (IsKind(row, k) ==> IdOf(row) !in IdsOf(rows, k))
  {
    assert (rows + [row])[..|rows|] == rows;
  }

  lemma {:induction false} IdsOfMember(rows: seq<Row>, k: Kind, id: string)
    ensures id in IdsOf(rows, k) <==> exists i :: 0 <= i < |rows| && IsKind(rows[i], k) && IdOf(rows[i]) == id
  {
    if rows != [] {
      var init := rows[..|rows| - 1];
      IdsOfMember(init, k, id);
      if id in IdsOf(init, k) {
        var i :| 0 <= i < |init| && IsKind(init[i], k) && IdOf(init[i]) == id;
        assert rows[i] == init[i];
      }
      if exists i :: 0 <= i < |rows| - 1 && IsKind(rows[i], k) && IdOf(rows[i]) == id {
        var i :| 0 <= i < |rows| - 1 && IsKind(rows[i], k) && IdOf(rows[i]) == id;
        assert init[i] == rows[i];
      }
    }
  }

  /** The kinds whose rows an id set keeps unique: all but projects, whose seed row is emitted unchecked. */
  predicate Tracked(k: Kind) {
    k != Project
  }

  /**
   * The invariant of one seed, relative to the state `s` it started from:
   * sets only grow, the file is untouched, each tracked kind's rows carry
   * distinct ids, all in its set and none in the set as it was at the
   * start, and every row fits the CSV header.
   */
  ghost predicate Fresh(s: Sweep, c: Sweep) {
    && (forall k :: Guard(s, k) <= Guard(c, k))
    && c.output == s.output
    && (forall k :: Tracked(k) ==> Deduped(c.rows, k) && IdsOf(c.rows, k) <= Guard(c, k) && IdsOf(c.rows, k) !! Guard(s, k))
    && (forall i :: 0 <= i < |c.rows| ==> Writable(c.rows[i]))
  }

  lemma OnceFresh(s: Sweep, c: Sweep, k: Kind, row: Row)
    requires Fresh(s, c) && IsKind(row, k) && Writable(row)
    ensures Fresh(s, Once(c, k, row)) && c.rows <= Once(c, k, row).rows
    ensures Guard(Once(c, k, row), k) == Guard(c, k) + {IdOf(row)}
    ensures forall j :: j != k ==> Guard(Once(c, k, row), j) == Guard(c, j)
  {
    var r := Once(c, k, row);
    if IdOf(row) !in Guard(c, k) {
      assert r.rows == c.rows + [row];
      forall j
        ensures IdsOf(r.rows, j) == IdsOf(c.rows, j) + (if IsKind(row, j) then {IdOf(row)} else {})
        ensures Deduped(r.rows, j) <==> Deduped(c.rows, j) && (IsKind(row, j) ==> IdOf(row) !in IdsOf(c.rows, j))
        ensures IsKind(row, j) ==> j == k
      {
        IdsOfSnoc(c.rows, row, j);
      }
    } else {
      assert c.rows[..|c.rows|] == c.rows;
    }
  }

  // -----------------------------------------------------------------------
  // processPaper

  /** The institution loop of one authorship. */
  function AfterInstitutions(c: Sweep, insts: seq<InstitutionRef>): Sweep {
    if insts == [] then c
    else Once(AfterInstitutions(c, insts[..|insts| - 1]), Institution, InstitutionRowOf(insts[|insts| - 1]))
  }

  /** One authorship: its institutions, then its author's Person row. */
  function AfterAuthorship(c: Sweep, a: Authorship): Sweep {
    Once(AfterInstitutions(c, a.institutions), Person, PersonRowOf(a.author, Mapped(InstitutionName, a.institutions)))
  }

  function AfterAuthorships(c: Sweep, authorships: seq<Authorship>): Sweep {
    if authorships == [] then c
    else AfterAuthorship(AfterAuthorships(c, authorships[..|authorships| - 1]), authorships[|authorships| - 1])
  }

  lemma {:induction false} AfterInstitutionsFresh(s: Sweep, c: Sweep, insts: seq<InstitutionRef>)
    requires Fresh(s, c)
    ensures var r := AfterInstitutions(c, insts);
      Fresh(s, r) && c.rows <= r.rows && r.personIds == c.personIds && r.paperIds == c.paperIds
      && r.projectIds == c.projectIds
  {
    if insts == [] {
      assert c.rows[..|c.rows|] == c.rows;
    } else {
      var prev := AfterInstitutions(c, insts[..|insts| - 1]);
      AfterInstitutionsFresh(s, c, insts[..|insts| - 1]);
      OnceFresh(s, prev, Institution, InstitutionRowOf(insts[|insts| - 1]));
      var r := AfterInstitutions(c, insts);
      assert r.rows[..|c.rows|] == r.rows[..|prev.rows|][..|c.rows|];
      assert Guard(r, Person) == Guard(prev, Person) && Guard(r, Paper) == Guard(prev, Paper);
      assert Guard(r, Project) == Guard(prev, Project);
    }
  }

  /** The author ids of the authorships. */
  function AuthorIds(authorships: seq<Authorship>): (r: set<string>)
    ensures forall k :: 0 <= k < |authorships| ==> authorships[k].author.id in r
  {
    if authorships == [] then {}
    else AuthorIds(authorships[..|authorships| - 1]) + {authorships[|authorships| - 1].author.id}
  }

  lemma {:induction false} AfterInstitutionsSets(c: Sweep, insts: seq<InstitutionRef>)
    ensures var r := AfterInstitutions(c, insts);
      r.personIds == c.personIds && r.paperIds == c.paperIds && r.projectIds == c.projectIds
  {
    if insts != [] {
      AfterInstitutionsSets(c, insts[..|insts| - 1]);
    }
  }

  /**
   * Every authorship yields its author's Person row unless the author is
   * already known: afterwards the person set has gained exactly the
   * authors' ids, and no other set but the institutions' has changed.
   */
  lemma {:induction false} AfterAuthorshipsSets(c: Sweep, authorships: seq<Authorship>)
    ensures var r := AfterAuthorships(c, authorships);
      r.personIds == c.personIds + AuthorIds(authorships) && r.paperIds == c.paperIds && r.projectIds == c.projectIds
  {
    if authorships != [] {
      var init := authorships[..|authorships| - 1];
      var a := authorships[|authorships| - 1];
      AfterAuthorshipsSets(c, init);
      AfterInstitutionsSets(AfterAuthorships(c, init), a.institutions);
    }
  }

  lemma AfterAuthorshipFresh(s: Sweep, c: Sweep, a: Authorship)
    requires Fresh(s, c)
    ensures Fresh(s, AfterAuthorship(c, a)) && c.rows <= AfterAuthorship(c, a).rows
  {
    var mid := AfterInstitutions(c, a.institutions);
    AfterInstitutionsFresh(s, c, a.institutions);
    OnceFresh(s, mid, Person, PersonRowOf(a.author, Mapped(InstitutionName, a.institutions)));
    PrefixTrans(c.rows, mid.rows, AfterAuthorship(c, a).rows);
  }

  lemma {:induction false} AfterAuthorshipsFresh(s: Sweep, c: Sweep, authorships: seq<Authorship>)
    requires Fresh(s, c)
    ensures Fresh(s, AfterAuthorships(c, authorships)) && c.rows <= AfterAuthorships(c, authorships).rows
  {
    if authorships == [] {
      assert c.rows[..|c.rows|] == c.rows;
    } else {
      var prev := AfterAuthorships(c, authorships[..|authorships| - 1]);
      AfterAuthorshipsFresh(s, c, authorships[..|authorships| - 1]);
      AfterAuthorshipFresh(s, prev, authorships[|authorships| - 1]);
      PrefixTrans(c.rows, prev.rows, AfterAuthorships(c, authorships).rows);
    }
  }

  /** The names a paper's mentions yield: projects that fail to decode are skipped. */
  function MentionNames(w: World, urls: seq<string>): seq<string> {
    if urls == [] then []
    else
      match w.project(urls[|urls| - 1])
      case Malformed => MentionNames(w, urls[..|urls| - 1])
      case Decoded(p) => MentionNames(w, urls[..|urls| - 1]) + [ProjectName(p)]
  }

  /** A name is gathered exactly when some mentioned project decodes to it. */
  lemma {:induction false} MentionNamesMeaning(w: World, urls: seq<string>, n: string)
    ensures |MentionNames(w, urls)| <= |urls|
    ensures n in MentionNames(w, urls) <==>
      exists i :: 0 <= i < |urls| && w.project(urls[i]).Decoded? && ProjectName(w.project(urls[i]).value) == n
  {
    if urls != [] {
      var init := urls[..|urls| - 1];
      MentionNamesMeaning(w, init, n);
      if exists i :: 0 <= i < |init| && w.project(init[i]).Decoded? && ProjectName(w.project(init[i]).value) == n {
        var i :| 0 <= i < |init| && w.project(init[i]).Decoded? && ProjectName(w.project(init[i]).value) == n;
        assert urls[i] == init[i];
      }
      if exists i :: 0 <= i < |urls| - 1 && w.project(urls[i]).Decoded? && ProjectName(w.project(urls[i]).value) == n {
        var i :| 0 <= i < |urls| - 1 && w.project(urls[i]).Decoded? && ProjectName(w.project(urls[i]).value) == n;
        assert init[i] == urls[i];
      }
    }
  }

  /** The project loop's rows: a Project row once per `czi_id`. */
  function AfterMentionRows(c: Sweep, w: World, urls: seq<string>): Sweep {
    if urls == [] then c
    else
      var prev := AfterMentionRows(c, w, urls[..|urls| - 1]);
      match w.project(urls[|urls| - 1])
      case Malformed => prev
      case Decoded(p) => Once(prev, Project, ProjectRowOf(p))
  }

  lemma {:induction false} AfterMentionRowsFresh(s: Sweep, c: Sweep, w: World, urls: seq<string>)
    requires Fresh(s, c)
    ensures var r := AfterMentionRows(c, w, urls);
      && Fresh(s, r) && c.rows <= r.rows
      && r.institutionIds == c.institutionIds && r.personIds == c.personIds && r.paperIds == c.paperIds
  {
    if urls == [] {
      assert c.rows[..|c.rows|] == c.rows;
    } else {
      var prev := AfterMentionRows(c, w, urls[..|urls| - 1]);
      AfterMentionRowsFresh(s, c, w, urls[..|urls| - 1]);
      var r := AfterMentionRows(c, w, urls);
      if w.project(urls[|urls| - 1]).Decoded? {
        OnceFresh(s, prev, Project, ProjectRowOf(w.project(urls[|urls| - 1]).value));
        assert Guard(r, Institution) == Guard(prev, Institution) && Guard(r, Person) == Guard(prev, Person);
        assert Guard(r, Paper) == Guard(prev, Paper);
      }
      assert r.rows[..|c.rows|] == r.rows[..|prev.rows|][..|c.rows|];
    }
  }

  /** processPaperMentions: None when the mentions list fails to decode, which ends the run. */
  function AfterMentions(c: Sweep, w: World, url: string): Option<(Sweep, Value)> {
    match w.paperMentions(url)
    case Malformed => None
    case Decoded(urls) => Some((AfterMentionRows(c, w, urls), Strs(MentionNames(w, urls))))
  }

  /** The mentions of a paper when they were asked for, else the empty string. */
  function Asked(c: Sweep, w: World, mentions: bool, p: PaperRecord): Option<(Sweep, Value)> {
    if mentions then AfterMentions(c, w, p.mentionsUrl) else Some((c, Str("")))
  }

  /** The Paper row, guarded by the paper set, then the authorship loop, which runs either way. */
  function PaperBlock(c: Sweep, p: PaperRecord, cited: Value): Sweep {
    var c2 := Once(c, Paper, PaperRowOf(p, cited));
    if p.openalexData.Some? then AfterAuthorships(c2, p.openalexData.value.authorships) else c2
  }

  /**
   * processPaper: the new state and false when an exception escapes.  The
   * mentions come first, the Paper row is guarded by the paper set, and
   * the authorship loop runs whether or not the paper was seen before.
   */
  function AfterPaper(c: Sweep, w: World, mentions: bool, url: string): (Sweep, bool) {
    match w.paper(url)
    case Malformed => (c, false)
    case Decoded(p) =>
      match Asked(c, w, mentions, p)
      case None => (c, false)
      case Some(asked) => (PaperBlock(asked.0, p, asked.1), true)
  }

  lemma AskedFresh(s: Sweep, c: Sweep, w: World, mentions: bool, p: PaperRecord)
    requires Fresh(s, c) && Asked(c, w, mentions, p).Some?
    ensures Fresh(s, Asked(c, w, mentions, p).value.0) && c.rows <= Asked(c, w, mentions, p).value.0.rows
  {
    if mentions {
      AfterMentionRowsFresh(s, c, w, w.paperMentions(p.mentionsUrl).value);
    } else {
      assert c.rows[..|c.rows|] == c.rows;
    }
  }

  lemma PaperBlockFresh(s: Sweep, c: Sweep, p: PaperRecord, cited: Value)
    requires Fresh(s, c)
    ensures Fresh(s, PaperBlock(c, p, cited)) && c.rows <= PaperBlock(c, p, cited).rows
  {
    var c2 := Once(c, Paper, PaperRowOf(p, cited));
    OnceFresh(s, c, Paper, PaperRowOf(p, cited));
    if p.openalexData.Some? {
      AfterAuthorshipsFresh(s, c2, p.openalexData.value.authorships);
      PrefixTrans(c.rows, c2.rows, PaperBlock(c, p, cited).rows);
    }
  }

  lemma AfterPaperFresh(s: Sweep, c: Sweep, w: World, mentions: bool, url: string)
    requires Fresh(s, c)
    ensures Fresh(s, AfterPaper(c, w, mentions, url).0) && c.rows <= AfterPaper(c, w, mentions, url).0.rows
  {
    if w.paper(url).Decoded? && Asked(c, w, mentions, w.paper(url).value).Some? {
      var p := w.paper(url).value;
      var asked := Asked(c, w, mentions, p).value;
      AskedFresh(s, c, w, mentions, p);
      PaperBlockFresh(s, asked.0, p, asked.1);
      PrefixTrans(c.rows, asked.0.rows, AfterPaper(c, w, mentions, url).0.rows);
    } else {
      assert c.rows[..|c.rows|] == c.rows;
    }
  }

  /** Every author of a decoded paper with OpenAlex data ends up in the person set, not only the last. */
  lemma EveryAuthorKnown(c: Sweep, w: World, mentions: bool, url: string, p: PaperRecord, data: OpenAlexData)
    requires w.paper(url) == Decoded(p) && p.openalexData == Some(data) && AfterPaper(c, w, mentions, url).1
    ensures forall k :: 0 <= k < |data.authorships| ==> data.authorships[k].author.id in AfterPaper(c, w, mentions, url).0.personIds
  {
    var asked := Asked(c, w, mentions, p).value;
    AfterAuthorshipsSets(Once(asked.0, Paper, PaperRowOf(p, asked.1)), data.authorships);
  }

  /** The papers of one seed, in order, until one raises. */
  function AfterPapers(c: Sweep, w: World, mentions: bool, urls: seq<string>): (Sweep, bool)
    decreases |urls|
  {
    if urls == [] then (c, true)
    else
      var step := AfterPaper(c, w, mentions, urls[0]);
      if !step.1 then (step.0, false) else AfterPapers(step.0, w, mentions, urls[1..])
  }

  /** One turn of the paper loop, from position k. */
  lemma AfterPapersStep(c: Sweep, w: World, mentions: bool, urls: seq<string>, k: nat, r: Sweep, ok: bool)
    requires k < |urls| && AfterPaper(c, w, mentions, urls[k]) == (r, ok)
    ensures AfterPapers(c, w, mentions, urls[k..]) == if ok then AfterPapers(r, w, mentions, urls[k + 1..]) else (r, false)
  {
    assert urls[k..][1..] == urls[k + 1..];
  }

  lemma {:induction false} AfterPapersFresh(s: Sweep, c: Sweep, w: World, mentions: bool, urls: seq<string>)
    requires Fresh(s, c)
    ensures Fresh(s, AfterPapers(c, w, mentions, urls).0) && c.rows <= AfterPapers(c, w, mentions, urls).0.rows
    decreases |urls|
  {
    if urls == [] {
      assert c.rows[..|c.rows|] == c.rows;
    } else {
      var c1 := AfterPaper(c, w, mentions, urls[0]).0;
      AfterPaperFresh(s, c, w, mentions, urls[0]);
      if AfterPaper(c, w, mentions, urls[0]).1 {
        AfterPapersFresh(s, c1, w, mentions, urls[1..]);
        var r := AfterPapers(c1, w, mentions, urls[1..]).0;
        assert r.rows[..|c.rows|] == r.rows[..|c1.rows|][..|c.rows|];
      }
    }
  }

  // -----------------------------------------------------------------------
  // The main loop

  /**
   * One seed: a fresh row list, the seed's Project row without a set
   * check, the mentions walk, every paper, then the file is rewritten
   * with the row list.  A decode error of the seed, of a mentions page or
   * of a paper ends the run.
   */
  function AfterSeed(c: Sweep, w: World, mentions: bool, u: string): (Sweep, bool) {
    var c0 := c.(rows := []);
    match w.project(u)
    case Malformed => (c0, false)
    case Decoded(p) =>
      var c1 := c0.(projectIds := c0.projectIds + {p.cziId}, rows := c0.rows + [ProjectRowOf(p)]);
      var first := w.mentionsPage(p.mentionsUrl, 1, PageSize);
      if first.body.Malformed? then (c1, false)
      else
        match PaperUrls(w, p.mentionsUrl, first.totalPages)
        case None => (c1, false)
        case Some(urls) => SeedRun(c1, w, mentions, urls)
  }

  /** The papers of a seed, then, when none raised, the file rewritten with the row list. */
  function SeedRun(c: Sweep, w: World, mentions: bool, urls: seq<string>): (Sweep, bool) {
    var run := AfterPapers(c, w, mentions, urls);
    if run.1 then (run.0.(output := run.0.rows), true) else run
  }

  lemma SeedRunFacts(s: Sweep, c: Sweep, w: World, mentions: bool, urls: seq<string>)
    requires Fresh(s, c) && |c.rows| > 0
    ensures var r := SeedRun(c, w, mentions, urls).0;
      && (forall k :: Guard(s, k) <= Guard(r, k))
      && (forall k :: Tracked(k) ==> Deduped(r.rows, k) && IdsOf(r.rows, k) !! Guard(s, k))
      && (forall i :: 0 <= i < |r.rows| ==> Writable(r.rows[i]))
      && (if SeedRun(c, w, mentions, urls).1 then r.output == r.rows else r.output == s.output)
      && |r.rows| > 0 && r.rows[0] == c.rows[0]
  {
    AfterPapersFresh(s, c, w, mentions, urls);
  }

  /** The seed's own Project row starts the seed's rows without touching the invariant. */
  lemma SeedRowFresh(c: Sweep, p: ProjectRecord)
    ensures var c0 := c.(rows := []);
      Fresh(c0, c0.(projectIds := c0.projectIds + {p.cziId}, rows := c0.rows + [ProjectRowOf(p)]))
  {
    var c0 := c.(rows := []);
    var c1 := c0.(projectIds := c0.projectIds + {p.cziId}, rows := c0.rows + [ProjectRowOf(p)]);
    assert c1.rows == [] + [ProjectRowOf(p)];
    forall k | Tracked(k)
      ensures Deduped(c1.rows, k) && IdsOf(c1.rows, k) == {}
    {
      IdsOfSnoc([], ProjectRowOf(p), k);
    }
  }

  /**
   * What one seed leaves: sets grown; rows whose tracked ids are distinct
   * and none of them known before the seed; every row fits the header;
   * the file unchanged on failure and, on success, exactly the seed's
   * rows, which begin with the seed's Project row.
   */
  lemma AfterSeedFacts(c: Sweep, w: World, mentions: bool, u: string)
    ensures var r := AfterSeed(c, w, mentions, u).0;
      && (forall k :: Guard(c, k) <= Guard(r, k))
      && (forall k :: Tracked(k) ==> Deduped(r.rows, k) && IdsOf(r.rows, k) !! Guard(c, k))
      && (forall i :: 0 <= i < |r.rows| ==> Writable(r.rows[i]))
      && (!AfterSeed(c, w, mentions, u).1 ==> r.output == c.output)
      && (AfterSeed(c, w, mentions, u).1 ==> r.output == r.rows && |r.rows| > 0 && r.rows[0] == ProjectRowOf(w.project(u).value))
  {
    var c0 := c.(rows := []);
    assert forall k :: Guard(c0, k) == Guard(c, k);
    if w.project(u).Decoded? {
      var p := w.project(u).value;
      var c1 := c0.(projectIds := c0.projectIds + {p.cziId}, rows := c0.rows + [ProjectRowOf(p)]);
      SeedRowFresh(c, p);
      var first := w.mentionsPage(p.mentionsUrl, 1, PageSize);
      if first.body.Decoded? && PaperUrls(w, p.mentionsUrl, first.totalPages).Some? {
        SeedRunFacts(c0, c1, w, mentions, PaperUrls(w, p.mentionsUrl, first.totalPages).value);
      }
    } else {
      assert Fresh(c0, c0) by {
        forall k | Tracked(k)
          ensures Deduped(c0.rows, k) && IdsOf(c0.rows, k) == {}
        {
        }
      }
    }
  }

  /**
   * Ids carried over between seeds: a person, paper or institution met
   * for an earlier seed has no row in a later seed's rows, so it is
   * missing from the file that seed writes.
   */
  lemma EarlierIdsMissing(c: Sweep, w: World, mentions: bool, u: string, k: Kind, id: string)
    requires Tracked(k) && id in Guard(c, k)
    ensures forall i :: 0 <= i < |AfterSeed(c, w, mentions, u).0.rows| && IsKind(AfterSeed(c, w, mentions, u).0.rows[i], k) ==>
      IdOf(AfterSeed(c, w, mentions, u).0.rows[i]) != id
  {
    AfterSeedFacts(c, w, mentions, u);
    IdsOfMember(AfterSeed(c, w, mentions, u).0.rows, k, id);
  }

  /** All seeds in order, until one raises. */
  function AfterSeeds(c: Sweep, w: World, mentions: bool, us: seq<string>): (Sweep, bool)
    decreases |us|
  {
    if us == [] then (c, true)
    else
      var step := AfterSeed(c, w, mentions, us[0]);
      if !step.1 then (step.0, false) else AfterSeeds(step.0, w, mentions, us[1..])
  }

  /** One turn of the main loop, from position k. */
  lemma AfterSeedsStep(c: Sweep, w: World, mentions: bool, us: seq<string>, k: nat, r: Sweep, ok: bool)
    requires k < |us| && AfterSeed(c, w, mentions, us[k]) == (r, ok)
    ensures AfterSeeds(c, w, mentions, us[k..]) == if ok then AfterSeeds(r, w, mentions, us[k + 1..]) else (r, false)
  {
    assert us[k..][1..] == us[k + 1..];
  }

  /** When every seed but the last completes, the run ends as the last seed does: its file replaces the others. */
  lemma {:induction false} LastSeedWins(c: Sweep, w: World, mentions: bool, us: seq<string>, u: string)
    requires AfterSeeds(c, w, mentions, us).1
    ensures AfterSeeds(c, w, mentions, us + [u]) == AfterSeed(AfterSeeds(c, w, mentions, us).0, w, mentions, u)
    decreases |us|
  {
    if us == [] {
      assert [u][1..] == [];
    } else {
      assert (us + [u])[0] == us[0] && (us + [u])[1..] == us[1..] + [u];
      LastSeedWins(AfterSeed(c, w, mentions, us[0]).0, w, mentions, us[1..], u);
    }
  }

  /** A completed run leaves in the file exactly the rows of its last seed, each fitting the header. */
  lemma {:induction false} AfterSeedsFile(c: Sweep, w: World, mentions: bool, us: seq<string>)
    requires us != [] && AfterSeeds(c, w, mentions, us).1
    ensures AfterSeeds(c, w, mentions, us).0.output == AfterSeeds(c, w, mentions, us).0.rows
    ensures forall i :: 0 <= i < |AfterSeeds(c, w, mentions, us).0.output| ==> Writable(AfterSeeds(c, w, mentions, us).0.output[i])
    decreases |us|
  {
    AfterSeedFacts(c, w, mentions, us[0]);
    if |us| > 1 {
      AfterSeedsFile(AfterSeed(c, w, mentions, us[0]).0, w, mentions, us[1..]);
    }
  }

  // -----------------------------------------------------------------------
  // The script's globals, updated in place

  /** `rowList`, the CSV file's rows and the id sets. */
  class Sweeper {
    var rows: seq<Row>
    var output: seq<Row>
    var institutionIds: set<string>
    var personIds: set<string>
    var paperIds: set<string>
    var projectIds: set<string>

    function State(): Sweep
      reads this
    {
      Sweep(rows, output, institutionIds, personIds, paperIds, projectIds)
    }

    constructor ()
      ensures State() == Start
    {
      rows, output := [], [];
      institutionIds, personIds, paperIds, projectIds := {}, {}, {}, {};
    }

    /** The guarded append shared by every loop. */
    method EmitOnce(k: Kind, row: Row)
      modifies this
      ensures State() == Once(old(State()), k, row)
    {
      var id := IdOf(row);
      match k
      case Institution =>
        if id !in institutionIds {
          institutionIds := institutionIds + {id};
          rows := rows + [row];
        }
      case Person =>
        if id !in personIds {
          personIds := personIds + {id};
          rows := rows + [row];
        }
      case Paper =>
        if id !in paperIds {
          paperIds := paperIds + {id};
          rows := rows + [row];
        }
      case Project =>
        if id !in projectIds {
          projectIds := projectIds + {id};
          rows := rows + [row];
        }
    }

    /** One authorship: its institutions, then the Person row. */
    method ProcessAuthorship(a: Authorship)
      modifies this
      ensures State() == AfterAuthorship(old(State()), a)
    {
      var insts := a.institutions;
      var names := [];
      var k := 0;
      while k < |insts|
        invariant 0 <= k <= |insts|
        invariant State() == AfterInstitutions(old(State()), insts[..k])
        invariant names == Mapped(InstitutionName, insts[..k])
      {
        assert insts[..k + 1][..k] == insts[..k];
        MappedStep(InstitutionName, insts, k);
        names := names + [insts[k].displayName];
        EmitOnce(Institution, InstitutionRowOf(insts[k]));
        k := k + 1;
      }
      assert insts[..k] == insts;
      EmitOnce(Person, PersonRowOf(a.author, names));
    }

    method ProcessAuthorships(authorships: seq<Authorship>)
      modifies this
      ensures State() == AfterAuthorships(old(State()), authorships)
    {
      var k := 0;
      while k < |authorships|
        invariant 0 <= k <= |authorships|
        invariant State() == AfterAuthorships(old(State()), authorships[..k])
      {
        assert authorships[..k + 1][..k] == authorships[..k];
        ProcessAuthorship(authorships[k]);
        k := k + 1;
      }
      assert authorships[..k] == authorships;
    }

    /** processPaperMentions; false when the mentions list fails to decode. */
    method ProcessPaperMentions(w: World, url: string) returns (ok: bool, cited: Value)
      modifies this
      ensures ok <==> AfterMentions(old(State()), w, url).Some?
      ensures ok ==> (State(), cited) == AfterMentions(old(State()), w, url).value
      ensures !ok ==> State() == old(State())
    {
      var reply := w.paperMentions(url);
      if reply.Malformed? {
        return false, Null;
      }
      var urls := reply.value;
      var names := [];
      var j := 0;
      while j < |urls|
        invariant 0 <= j <= |urls|
        invariant State() == AfterMentionRows(old(State()), w, urls[..j])
        invariant names == MentionNames(w, urls[..j])
      {
        assert urls[..j + 1][..j] == urls[..j];
        var project := w.project(urls[j]);
        if project.Decoded? {
          names := names + [ProjectName(project.value)];
          EmitOnce(Project, ProjectRowOf(project.value));
        }
        j := j + 1;
      }
      assert urls[..j] == urls;
      return true, Strs(names);
    }

    /** processPaper; false when an exception escapes. */
    method ProcessPaper(w: World, mentions: bool, url: string) returns (ok: bool)
      modifies this
      ensures (State(), ok) == AfterPaper(old(State()), w, mentions, url)
    {
      var reply := w.paper(url);
      if reply.Malformed? {
        return false;
      }
      var p := reply.value;
      var cited := Str("");
      if mentions {
        ok, cited := ProcessPaperMentions(w, p.mentionsUrl);
        if !ok {
          return;
        }
      }
      EmitOnce(Paper, PaperRowOf(p, cited));
      if p.openalexData.Some? {
        ProcessAuthorships(p.openalexData.value.authorships);
      }
      ok := true;
    }

    /** The papers of one seed, in order, until one raises. */
    method ProcessPapers(w: World, mentions: bool, urls: seq<string>) returns (ok: bool)
      modifies this
      ensures (State(), ok) == AfterPapers(old(State()), w, mentions, urls)
    {
      ghost var target := AfterPapers(State(), w, mentions, urls);
      ok := true;
      var k := 0;
      while k < |urls|
        invariant 0 <= k <= |urls|
        invariant AfterPapers(State(), w, mentions, urls[k..]) == target
      {
        ghost var before := State();
        ok := ProcessPaper(w, mentions, urls[k]);
        AfterPapersStep(before, w, mentions, urls, k, State(), ok);
        if !ok {
          return;
        }
        k := k + 1;
      }
    }

    /** The body of the main loop for one seed. */
    method ProcessSeed(w: World, mentions: bool, u: string) returns (ok: bool)
      modifies this
      ensures (State(), ok) == AfterSeed(old(State()), w, mentions, u)
    {
      rows := [];
      var reply := w.project(u);
      if reply.Malformed? {
        return false;
      }
      var p := reply.value;
      projectIds := projectIds + {p.cziId};
      rows := rows + [ProjectRowOf(p)];
      var first := w.mentionsPage(p.mentionsUrl, 1, PageSize);
      if first.body.Malformed? {
        return false;
      }
      var walked := FetchPaperUrls(w, p.mentionsUrl, first.totalPages);
      if walked.None? {
        return false;
      }
      ok := ProcessPapers(w, mentions, walked.value);
      if ok {
        output := rows;
      }
    }

    /** The main loop over the seeds. */
    method ProcessSeeds(w: World, mentions: bool, us: seq<string>) returns (ok: bool)
      modifies this
      ensures (State(), ok) == AfterSeeds(old(State()), w, mentions, us)
      ensures ok && us != [] ==> output == rows && forall i :: 0 <= i < |output| ==> Writable(output[i])
    {
      ghost var target := AfterSeeds(State(), w, mentions, us);
      if target.1 && us != [] {
        AfterSeedsFile(State(), w, mentions, us);
      }
      ok := true;
      var k := 0;
      while k < |us|
        invariant 0 <= k <= |us|
        invariant AfterSeeds(State(), w, mentions, us[k..]) == target
      {
        ghost var before := State();
        ok := ProcessSeed(w, mentions, us[k]);
        AfterSeedsStep(before, w, mentions, us, k, State(), ok);
        if !ok {
          return;
        }
        k := k + 1;
      }
    }
  }
}
