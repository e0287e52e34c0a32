/**
 * The crawler of scripts/ecosyst.ms-api.py, under sequential semantics.
 *
 * Starting from seed project URLs of the ecosyste.ms papers API, it walks
 * every paper that mentions a project and emits CSV rows for papers,
 * people, institutions, sustainable-development goals, concepts, MeSH
 * domains and co-mentioned projects.  Module-level id sets keep every kind
 * of row but the domains to one row per id, across all projects of a run.
 *
 * The API records and the page walk are those of `EcosystemsApi`.
 */
module EcosystemsCrawler {
  import opened Common
  import opened EcosystemsApi

  /** The page size of the count request of the scope check. */
  const ScopePageSize := 1

  /** Joins the multi-valued CSV cells. */
  const Separator := " | "

  // -----------------------------------------------------------------------
  // Rows

  datatype Label = InstitutionLabel | GoalLabel | ConceptLabel | DomainLabel | PaperLabel | PersonLabel | ProjectLabel

  datatype Row =
    | InstitutionRow(id: string, name: string)
    | GoalRow(id: string, name: string, sdgScore: real)
    | ConceptRow(id: string, name: string, wikidata: string, conceptLevel: int)
    | DomainRow(id: string, name: string, isMajorTopic: bool)
    | PaperRow(id: string, title: Option<string>, doi: Option<string>, authors: string, projectsCited: string,
               goals: string, concepts: string, domains: string)
    | PersonRow(id: string, name: string, orcid: Option<string>, affiliatedInstitutions: string)
    | ProjectRow(id: string, name: string, homepage: Option<string>, repositoryUrl: Option<string>)

  function LabelOf(row: Row): Label {
    match row
    case InstitutionRow(_, _) => InstitutionLabel
    case GoalRow(_, _, _) => GoalLabel
    case ConceptRow(_, _, _, _) => ConceptLabel
    case DomainRow(_, _, _) => DomainLabel
    case PaperRow(_, _, _, _, _, _, _, _) => PaperLabel
    case PersonRow(_, _, _, _) => PersonLabel
    case ProjectRow(_, _, _, _) => ProjectLabel
  }

  function InstitutionRowOf(i: InstitutionRef): Row { InstitutionRow(i.id, i.displayName) }
  function GoalRowOf(g: Goal): Row { GoalRow(g.id, g.displayName, g.score) }
  function GoalName(g: Goal): string { g.displayName }
  function ConceptRowOf(c: Concept): Row { ConceptRow(c.id, c.displayName, c.wikidata, c.level) }
  function ConceptName(c: Concept): string { c.displayName }
  function DomainRowOf(t: MeshTerm): Row { DomainRow(t.descriptorUi, t.descriptorName, t.isMajorTopic) }
  function DomainName(t: MeshTerm): string { t.descriptorName }

  /** The Person row of an authorship, its institutions joined. */
  function PersonRowOf(a: Authorship): Row {
    PersonRow(a.author.id, a.author.displayName, a.author.orcid, Join(Mapped(InstitutionName, a.institutions), Separator))
  }

  /** A Project row; without a package, homepage and repository are empty strings. */
  function ProjectRowOf(p: ProjectRecord): Row {
    if p.package.Some? then ProjectRow(p.cziId, ProjectName(p), p.package.value.homepage, p.package.value.repositoryUrl)
    else ProjectRow(p.cziId, ProjectName(p), Some(""), Some(""))
  }

  // -----------------------------------------------------------------------
  // The module-level state, as a value

  /**
   * `row_list`, the rows already appended to the CSV file, the seven id
   * sets and `project_url_set`.
   */
  datatype Crawl = Crawl(
    rows: seq<Row>,
    output: seq<Row>,
    institutionIds: set<string>,
    personIds: set<string>,
    paperIds: set<string>,
    projectIds: set<string>,
    goalIds: set<string>,
    conceptIds: set<string>,
    domainIds: set<string>,
    projectUrls: set<string>)

  const Start := Crawl([], [], {}, {}, {}, {}, {}, {}, {}, {})

  /** Everything emitted so far: the file, then the pending rows. */
  function All(c: Crawl): seq<Row> {
    c.output + c.rows
  }

  /** The id set that guards rows of this kind. */
  function Guard(c: Crawl, kind: Label): set<string> {
    match kind
    case InstitutionLabel => c.institutionIds
    case GoalLabel => c.goalIds
    case ConceptLabel => c.conceptIds
    case DomainLabel => c.domainIds
    case PaperLabel => c.paperIds
    case PersonLabel => c.personIds
    case ProjectLabel => c.projectIds
  }

  function WithGuard(c: Crawl, kind: Label, s: set<string>): Crawl {
    match kind
    case InstitutionLabel => c.(institutionIds := s)
    case GoalLabel => c.(goalIds := s)
    case ConceptLabel => c.(conceptIds := s)
    case DomainLabel => c.(domainIds := s)
    case PaperLabel => c.(paperIds := s)
    case PersonLabel => c.(personIds := s)
    case ProjectLabel => c.(projectIds := s)
  }

  lemma GuardWith(c: Crawl, kind: Label, s: set<string>)
    ensures forall l :: Guard(WithGuard(c, kind, s), l) == if l == kind then s else Guard(c, l)
    ensures WithGuard(c, kind, s).rows == c.rows && WithGuard(c, kind, s).output == c.output
    ensures WithGuard(c, kind, s).projectUrls == c.projectUrls
  {
  }

  /** `if id not in the_set: the_set.add(id); row_list.append(row)`. */
  function Once(c: Crawl, kind: Label, row: Row): Crawl {
    if row.id in Guard(c, kind) then c
    else WithGuard(c, kind, Guard(c, kind) + {row.id}).(rows := c.rows + [row])
  }

  // -----------------------------------------------------------------------
  // At most one row per id

  /** The ids of the rows with this kind. */
  function IdsOf(rows: seq<Row>, kind: Label): set<string> {
    if rows == [] then {}
    else IdsOf(rows[..|rows| - 1], kind) + (if LabelOf(rows[|rows| - 1]) == kind then {rows[|rows| - 1].id} else {})
  }

  /** No two rows with this kind share an id. */
  predicate Deduped(rows: seq<Row>, kind: Label) {
    rows == [] ||
    (Deduped(rows[..|rows| - 1], kind) &&
     (LabelOf(rows[|rows| - 1]) == kind ==> rows[|rows| - 1].id !in IdsOf(rows[..|rows| - 1], kind)))
  }

  lemma {:induction false} IdsOfMember(rows: seq<Row>, kind: Label, id: string)
    ensures id in IdsOf(rows, kind) <==> exists i :: 0 <= i < |rows| && LabelOf(rows[i]) == kind && rows[i].id == id
  {
    if rows != [] {
      var init := rows[..|rows| - 1];
      IdsOfMember(init, kind, id);
      if id in IdsOf(init, kind) {
        var i :| 0 <= i < |init| && LabelOf(init[i]) == kind && init[i].id == id;
        assert rows[i] == init[i];
      }
      if exists i :: 0 <= i < |rows| - 1 && LabelOf(rows[i]) == kind && rows[i].id == id {
        var i :| 0 <= i < |rows| - 1 && LabelOf(rows[i]) == kind && rows[i].id == id;
        assert init[i] == rows[i];
      }
    }
  }

  /** What `Deduped` means: distinct positions with this kind carry distinct ids. */
  lemma {:induction false} DedupedDistinct(rows: seq<Row>, kind: Label)
    requires Deduped(rows, kind)
    ensures forall i, j :: 0 <= i < j < |rows| && LabelOf(rows[i]) == kind && LabelOf(rows[j]) == kind ==> rows[i].id != rows[j].id
  {
    if rows != [] {
      var init := rows[..|rows| - 1];
      DedupedDistinct(init, kind);
      IdsOfMember(init, kind, rows[|rows| - 1].id);
      forall i, j | 0 <= i < j < |rows| && LabelOf(rows[i]) == kind && LabelOf(rows[j]) == kind
        ensures rows[i].id != rows[j].id
      {
        assert rows[i] == init[i];
        if j < |rows| - 1 {
          assert rows[j] == init[j];
        }
      }
    }
  }

  lemma IdsOfSnoc(rows: seq<Row>, row: Row, kind: Label)
    ensures IdsOf(rows + [row], kind) == IdsOf(rows, kind) + (if LabelOf(row) == kind then {row.id} else {})
    ensures Deduped(rows + [row], kind) <==> Deduped(rows, kind) && (LabelOf(row) == kind ==> row.id !in IdsOf(rows, kind))
  {
    assert (rows + [row])[..|rows|] == rows;
  }

  lemma {:induction false} PrefixIds(rows: seq<Row>, k: nat, kind: Label)
    requires k <= |rows|
    ensures IdsOf(rows[..k], kind) <= IdsOf(rows, kind)
    ensures Deduped(rows, kind) ==> Deduped(rows[..k], kind)
    decreases |rows|
  {
    if k < |rows| {
      var init := rows[..|rows| - 1];
      assert rows[..k] == init[..k];
      PrefixIds(init, k, kind);
    } else {
      assert rows[..k] == rows;
    }
  }

  /** The labels whose rows an id set keeps unique: all but domains and projects. */
  predicate Tracked(kind: Label) {
    kind != DomainLabel && kind != ProjectLabel
  }

  /**
   * The run's invariant: for each tracked kind, the rows emitted so far,
   * written or pending, carry distinct ids, all of them in the kind's set.
   */
  ghost predicate Consistent(c: Crawl) {
    forall l :: Tracked(l) ==> Deduped(All(c), l) && IdsOf(All(c), l) <= Guard(c, l)
  }

  lemma StartConsistent()
    ensures Consistent(Start)
  {
    assert All(Start) == [];
  }

  /** Sets only grow. */
  ghost predicate Grows(c: Crawl, r: Crawl) {
    && (forall l :: Guard(c, l) <= Guard(r, l))
    && c.projectUrls <= r.projectUrls
  }

  /** A step of process_paper: pending rows only gain rows at the end, the file is untouched, sets grow. */
  ghost predicate Extends(c: Crawl, r: Crawl) {
    Grows(c, r) && r.output == c.output && c.rows <= r.rows
  }

  lemma ExtendsTrans(a: Crawl, b: Crawl, c: Crawl)
    requires Extends(a, b) && Extends(b, c)
    ensures Extends(a, c)
  {
    assert c.rows[..|a.rows|] == c.rows[..|b.rows|][..|a.rows|];
  }

  /** A step that only emits rows of `kind`: other labels' sets and rows stay as they were. */
  ghost predicate Frame(c: Crawl, r: Crawl, kind: Label) {
    && Extends(c, r) && r.projectUrls == c.projectUrls
    && (forall l :: l != kind ==> Guard(r, l) == Guard(c, l) && IdsOf(All(r), l) == IdsOf(All(c), l))
  }

  lemma FrameTrans(a: Crawl, b: Crawl, c: Crawl, kind: Label)
    requires Frame(a, b, kind) && Frame(b, c, kind)
    ensures Frame(a, c, kind)
  {
    ExtendsTrans(a, b, c);
  }

  /** Appending one row keeps the invariant when a tracked row's id is new among the rows and already in its set. */
  lemma AppendRow(c: Crawl, row: Row, r: Crawl)
    requires Consistent(c)
    requires All(r) == All(c) + [row]
    requires forall l :: Guard(c, l) <= Guard(r, l)
    requires Tracked(LabelOf(row)) ==> row.id !in IdsOf(All(c), LabelOf(row)) && row.id in Guard(r, LabelOf(row))
    ensures Consistent(r)
    ensures forall l :: l != LabelOf(row) ==> IdsOf(All(r), l) == IdsOf(All(c), l)
  {
    forall l
      ensures IdsOf(All(r), l) == IdsOf(All(c), l) + (if LabelOf(row) == l then {row.id} else {})
      ensures Deduped(All(r), l) <==> Deduped(All(c), l) && (LabelOf(row) == l ==> row.id !in IdsOf(All(c), l))
    {
      IdsOfSnoc(All(c), row, l);
    }
  }

  /** Dropping pending rows, or moving them to the file, keeps the invariant. */
  lemma KeepPrefix(c: Crawl, r: Crawl)
    requires Consistent(c)
    requires |All(r)| <= |All(c)| && All(r) == All(c)[..|All(r)|]
    requires forall l :: Guard(c, l) <= Guard(r, l)
    ensures Consistent(r)
  {
    forall l | Tracked(l)
      ensures Deduped(All(r), l) && IdsOf(All(r), l) <= Guard(r, l)
    {
      PrefixIds(All(c), |All(r)|, l);
    }
  }

  lemma OnceFacts(c: Crawl, kind: Label, row: Row)
    requires Consistent(c) && LabelOf(row) == kind
    ensures Consistent(Once(c, kind, row)) && Frame(c, Once(c, kind, row), kind)
    ensures Guard(Once(c, kind, row), kind) == Guard(c, kind) + {row.id}
  {
    var r := Once(c, kind, row);
    GuardWith(c, kind, Guard(c, kind) + {row.id});
    if row.id !in Guard(c, kind) {
      assert All(r) == All(c) + [row];
      AppendRow(c, row, r);
    }
  }

  // -----------------------------------------------------------------------
  // The loops of process_paper

  /** A loop that emits each candidate row once per id. */
  function AfterEmit(c: Crawl, kind: Label, cands: seq<Row>): Crawl {
    if cands == [] then c else Once(AfterEmit(c, kind, cands[..|cands| - 1]), kind, cands[|cands| - 1])
  }

  lemma AfterEmitSnoc(c: Crawl, kind: Label, cands: seq<Row>, row: Row)
    ensures AfterEmit(c, kind, cands + [row]) == Once(AfterEmit(c, kind, cands), kind, row)
  {
    assert (cands + [row])[..|cands|] == cands;
  }

  lemma {:induction false} AfterEmitFacts(c: Crawl, kind: Label, cands: seq<Row>)
    requires Consistent(c) && forall k :: 0 <= k < |cands| ==> LabelOf(cands[k]) == kind
    ensures Consistent(AfterEmit(c, kind, cands)) && Frame(c, AfterEmit(c, kind, cands), kind)
    ensures forall k :: 0 <= k < |cands| ==> cands[k].id in Guard(AfterEmit(c, kind, cands), kind)
  {
    if cands != [] {
      var init := cands[..|cands| - 1];
      var prev := AfterEmit(c, kind, init);
      AfterEmitFacts(c, kind, init);
      OnceFacts(prev, kind, cands[|cands| - 1]);
      FrameTrans(c, prev, AfterEmit(c, kind, cands), kind);
      assert forall k :: 0 <= k < |init| ==> init[k] == cands[k];
    } else {
      assert c.rows[..|c.rows|] == c.rows;
    }
  }

  /** The authorship loop: each authorship's institutions, once per institution id. */
  function AfterAffiliations(c: Crawl, authorships: seq<Authorship>): Crawl {
    if authorships == [] then c
    else AfterEmit(AfterAffiliations(c, authorships[..|authorships| - 1]), InstitutionLabel,
                   Mapped(InstitutionRowOf, authorships[|authorships| - 1].institutions))
  }

  /** One turn of the authorship loop, from position k. */
  lemma AfterAffiliationsNext(c: Crawl, authorships: seq<Authorship>, k: nat)
    requires k < |authorships|
    ensures AfterAffiliations(c, authorships[..k + 1])
         == AfterEmit(AfterAffiliations(c, authorships[..k]), InstitutionLabel, Mapped(InstitutionRowOf, authorships[k].institutions))
  {
    assert authorships[..k + 1][..k] == authorships[..k];
  }

  lemma {:induction false} AfterAffiliationsFacts(c: Crawl, authorships: seq<Authorship>)
    requires Consistent(c)
    ensures Consistent(AfterAffiliations(c, authorships)) && Frame(c, AfterAffiliations(c, authorships), InstitutionLabel)
  {
    if authorships != [] {
      var prev := AfterAffiliations(c, authorships[..|authorships| - 1]);
      AfterAffiliationsFacts(c, authorships[..|authorships| - 1]);
      AfterEmitFacts(prev, InstitutionLabel, Mapped(InstitutionRowOf, authorships[|authorships| - 1].institutions));
      FrameTrans(c, prev, AfterAffiliations(c, authorships), InstitutionLabel);
    } else {
      assert c.rows[..|c.rows|] == c.rows;
    }
  }

  /** One MeSH term: the guard tests the concept set but the id joins the domain set. */
  function DomainStep(c: Crawl, t: MeshTerm): Crawl {
    if t.descriptorUi in c.conceptIds then c
    else c.(domainIds := c.domainIds + {t.descriptorUi}, rows := c.rows + [DomainRowOf(t)])
  }

  function AfterDomains(c: Crawl, terms: seq<MeshTerm>): Crawl {
    if terms == [] then c else DomainStep(AfterDomains(c, terms[..|terms| - 1]), terms[|terms| - 1])
  }

  /** The terms whose descriptor is not a concept id. */
  function NotConcepts(terms: seq<MeshTerm>, concepts: set<string>): (r: seq<MeshTerm>)
    ensures forall t :: t in r <==> t in terms && t.descriptorUi !in concepts
  {
    if terms == [] then []
    else NotConcepts(terms[..|terms| - 1], concepts)
         + (if terms[|terms| - 1].descriptorUi in concepts then [] else [terms[|terms| - 1]])
  }

  /**
   * The domain loop appends one row per term whose descriptor is not a
   * concept id, repeats included: the domain set is never consulted.
   */
  lemma {:induction false} AfterDomainsRows(c: Crawl, terms: seq<MeshTerm>)
    ensures AfterDomains(c, terms).rows == c.rows + Mapped(DomainRowOf, NotConcepts(terms, c.conceptIds))
    ensures AfterDomains(c, terms).conceptIds == c.conceptIds
  {
    if terms != [] {
      var init := terms[..|terms| - 1];
      var t := terms[|terms| - 1];
      AfterDomainsRows(c, init);
      if t.descriptorUi !in c.conceptIds {
        MappedSnoc(DomainRowOf, NotConcepts(init, c.conceptIds), t);
      } else {
        assert NotConcepts(terms, c.conceptIds) == NotConcepts(init, c.conceptIds) + [];
      }
    }
  }

  /** A descriptor listed twice, and not a concept id, gives two Domain rows with one id. */
  lemma DomainRepeated(c: Crawl, t: MeshTerm)
    requires t.descriptorUi !in c.conceptIds
    ensures AfterDomains(c, [t, t]).rows == c.rows + [DomainRowOf(t), DomainRowOf(t)]
  {
    assert [t, t][..1] == [t];
    assert [t][..0] == [];
    assert AfterDomains(c, [t][..0]) == c;
    assert AfterDomains(c, [t]) == DomainStep(c, t);
  }

  lemma {:induction false} AfterDomainsFacts(c: Crawl, terms: seq<MeshTerm>)
    requires Consistent(c)
    ensures Consistent(AfterDomains(c, terms)) && Frame(c, AfterDomains(c, terms), DomainLabel)
  {
    if terms != [] {
      var prev := AfterDomains(c, terms[..|terms| - 1]);
      AfterDomainsFacts(c, terms[..|terms| - 1]);
      var t := terms[|terms| - 1];
      var r := DomainStep(prev, t);
      if t.descriptorUi !in prev.conceptIds {
        assert All(r) == All(prev) + [DomainRowOf(t)];
        AppendRow(prev, DomainRowOf(t), r);
      }
      FrameTrans(c, prev, r, DomainLabel);
    } else {
      assert c.rows[..|c.rows|] == c.rows;
    }
  }

  // -----------------------------------------------------------------------
  // process_paper_mentions

  /** The names gathered by the project loop: a decode error empties the list gathered so far. */
  function MentionNames(w: World, urls: seq<string>): seq<string> {
    if urls == [] then []
    else
      match w.project(urls[|urls| - 1])
      case Malformed => []
      case Decoded(p) => MentionNames(w, urls[..|urls| - 1]) + [ProjectName(p)]
  }

  /** The project loop's rows: a Project row once per `czi_id`. */
  function AfterMentionRows(c: Crawl, w: World, urls: seq<string>): Crawl {
    if urls == [] then c
    else
      var prev := AfterMentionRows(c, w, urls[..|urls| - 1]);
      match w.project(urls[|urls| - 1])
      case Malformed => prev
      case Decoded(p) => Once(prev, ProjectLabel, ProjectRowOf(p))
  }

  /** process_paper_mentions: the new state and the returned names. */
  function AfterMentions(c: Crawl, w: World, url: string): (Crawl, seq<string>) {
    match w.paperMentions(url)
    case Malformed => (c, [])
    case Decoded(urls) =>
      (AfterMentionRows(c.(projectUrls := c.projectUrls + Elements(urls)), w, urls), MentionNames(w, urls))
  }

  /** A project that fails to decode discards the names gathered before it. */
  lemma {:induction false} MentionNamesReset(w: World, a: seq<string>, m: string, b: seq<string>)
    requires w.project(m).Malformed?
    ensures MentionNames(w, a + [m] + b) == MentionNames(w, b)
    decreases |b|
  {
    if b == [] {
      assert a + [m] + b == a + [m];
    } else {
      var init := b[..|b| - 1];
      assert (a + [m] + b)[..|a + [m] + b| - 1] == a + [m] + init;
      MentionNamesReset(w, a, m, init);
    }
  }

  /** When every project decodes, the names are the projects' names, one per mention, in order. */
  lemma {:induction false} MentionNamesAllDecoded(w: World, urls: seq<string>)
    requires forall k :: 0 <= k < |urls| ==> w.project(urls[k]).Decoded?
    ensures |MentionNames(w, urls)| == |urls|
    ensures forall k :: 0 <= k < |urls| ==> MentionNames(w, urls)[k] == ProjectName(w.project(urls[k]).value)
  {
    if urls != [] {
      var init := urls[..|urls| - 1];
      MentionNamesAllDecoded(w, init);
      assert forall k :: 0 <= k < |init| ==> init[k] == urls[k];
    }
  }

  /**
   * The project loop adds Project rows with distinct ids, none of them
   * seen before the call, and remembers each.
   */
  lemma {:induction false} AfterMentionRowsFacts(c: Crawl, w: World, urls: seq<string>)
    requires Consistent(c)
    ensures var r := AfterMentionRows(c, w, urls);
      && Consistent(r) && Frame(c, r, ProjectLabel)
      && Deduped(r.rows[|c.rows|..], ProjectLabel)
      && IdsOf(r.rows[|c.rows|..], ProjectLabel) !! c.projectIds
      && IdsOf(r.rows[|c.rows|..], ProjectLabel) <= r.projectIds
  {
    var r := AfterMentionRows(c, w, urls);
    if urls == [] {
      assert c.rows[..|c.rows|] == c.rows;
      assert c.rows[|c.rows|..] == [];
    } else {
      var prev := AfterMentionRows(c, w, urls[..|urls| - 1]);
      AfterMentionRowsFacts(c, w, urls[..|urls| - 1]);
      match w.project(urls[|urls| - 1])
      case Malformed =>
      case Decoded(p) =>
        var row := ProjectRowOf(p);
        OnceFacts(prev, ProjectLabel, row);
        FrameTrans(c, prev, r, ProjectLabel);
        if row.id !in prev.projectIds {
          assert r.rows == prev.rows + [row];
          assert r.rows[|c.rows|..] == prev.rows[|c.rows|..] + [row];
          IdsOfSnoc(prev.rows[|c.rows|..], row, ProjectLabel);
        }
    }
  }

  lemma AfterMentionsFacts(c: Crawl, w: World, url: string)
    requires Consistent(c)
    ensures Consistent(AfterMentions(c, w, url).0) && Extends(c, AfterMentions(c, w, url).0)
    ensures forall l :: l != ProjectLabel ==> Guard(AfterMentions(c, w, url).0, l) == Guard(c, l)
    ensures forall l :: l != ProjectLabel ==> IdsOf(All(AfterMentions(c, w, url).0), l) == IdsOf(All(c), l)
  {
    if w.paperMentions(url).Decoded? {
      var urls := w.paperMentions(url).value;
      var c1 := c.(projectUrls := c.projectUrls + Elements(urls));
      assert All(c1) == All(c);
      AfterMentionRowsFacts(c1, w, urls);
    } else {
      assert c.rows[..|c.rows|] == c.rows;
    }
  }

  // -----------------------------------------------------------------------
  // process_paper

  function PaperRowOf(p: PaperRecord, data: OpenAlexData, cited: seq<string>): Row {
    PaperRow(p.openalexId, p.title, p.doi, Join(AuthorNames(p), Separator), Join(cited, Separator),
             Join(Mapped(GoalName, data.goals), Separator), Join(Mapped(ConceptName, data.concepts), Separator),
             Join(Mapped(DomainName, data.mesh), Separator))
  }

  /**
   * What a new paper's OpenAlex data emits before its Paper row: the
   * institutions of every authorship, the goals, the concepts, then the
   * MeSH domains.
   */
  function Enriched(c: Crawl, data: OpenAlexData): Crawl {
    AfterDomains(
      AfterEmit(
        AfterEmit(AfterAffiliations(c, data.authorships), GoalLabel, Mapped(GoalRowOf, data.goals)),
        ConceptLabel, Mapped(ConceptRowOf, data.concepts)),
      data.mesh)
  }

  /**
   * The block for a paper not seen before, once its id is in the paper
   * set: the enrichment rows, the Paper row, then the Person row, which
   * only the loop variable left by the authorship loop, the last
   * authorship, can give.  With no authorship at all the loop variable is
   * unbound and the call fails after the Paper row.
   */
  function NewPaper(c: Crawl, p: PaperRecord, data: OpenAlexData, cited: seq<string>): (Crawl, bool) {
    var c6 := Enriched(c, data);
    var c7 := c6.(rows := c6.rows + [PaperRowOf(p, data, cited)]);
    if data.authorships == [] then (c7, false)
    else (Once(c7, PersonLabel, PersonRowOf(data.authorships[|data.authorships| - 1])), true)
  }

  /**
   * process_paper: the new state, and false when an exception other than
   * a decode error escapes (a new paper without OpenAlex data reaches the
   * Paper row with its goal list unbound).
   */
  function AfterPaper(c: Crawl, w: World, mentions: bool, url: string): (Crawl, bool) {
    match w.paper(url)
    case Malformed => (c, true)
    case Decoded(p) =>
      var (c1, cited) := if mentions then AfterMentions(c, w, p.mentionsUrl) else (c, []);
      if p.openalexId in c1.paperIds then (c1, true)
      else
        var c2 := c1.(paperIds := c1.paperIds + {p.openalexId});
        match p.openalexData
        case None => (c2, false)
        case Some(data) => NewPaper(c2, p, data, cited)
  }

  /** The enrichment keeps the invariant and leaves Paper and Person rows and sets alone. */
  lemma EnrichedFacts(c: Crawl, data: OpenAlexData)
    requires Consistent(c)
    ensures var r := Enriched(c, data);
      && Consistent(r) && Extends(c, r)
      && r.paperIds == c.paperIds && r.personIds == c.personIds
      && IdsOf(All(r), PaperLabel) == IdsOf(All(c), PaperLabel)
      && IdsOf(All(r), PersonLabel) == IdsOf(All(c), PersonLabel)
  {
    var c3 := AfterAffiliations(c, data.authorships);
    AfterAffiliationsFacts(c, data.authorships);
    var c4 := AfterEmit(c3, GoalLabel, Mapped(GoalRowOf, data.goals));
    AfterEmitFacts(c3, GoalLabel, Mapped(GoalRowOf, data.goals));
    var c5 := AfterEmit(c4, ConceptLabel, Mapped(ConceptRowOf, data.concepts));
    AfterEmitFacts(c4, ConceptLabel, Mapped(ConceptRowOf, data.concepts));
    AfterDomainsFacts(c5, data.mesh);
    var r := Enriched(c, data);
    assert Guard(c3, PaperLabel) == Guard(c, PaperLabel) && Guard(c3, PersonLabel) == Guard(c, PersonLabel);
    assert Guard(c4, PaperLabel) == Guard(c3, PaperLabel) && Guard(c4, PersonLabel) == Guard(c3, PersonLabel);
    assert Guard(c5, PaperLabel) == Guard(c4, PaperLabel) && Guard(c5, PersonLabel) == Guard(c4, PersonLabel);
    assert Guard(r, PaperLabel) == Guard(c5, PaperLabel) && Guard(r, PersonLabel) == Guard(c5, PersonLabel);
    ExtendsTrans(c, c3, c4);
    ExtendsTrans(c, c4, c5);
    ExtendsTrans(c, c5, Enriched(c, data));
  }

  /** The Paper row keeps the invariant when its id is in the paper set and not yet among the rows. */
  lemma PaperRowStep(c: Crawl, row: Row)
    requires Consistent(c) && row.PaperRow? && row.id in c.paperIds && row.id !in IdsOf(All(c), PaperLabel)
    ensures var r := c.(rows := c.rows + [row]);
      Consistent(r) && Extends(c, r) && IdsOf(All(r), PersonLabel) == IdsOf(All(c), PersonLabel)
  {
    var r := c.(rows := c.rows + [row]);
    assert All(r) == All(c) + [row];
    AppendRow(c, row, r);
    assert r.rows[..|c.rows|] == c.rows;
  }

  /** The Person row of an authorship adds at most its author's id, which the person set then holds. */
  lemma PersonStep(c: Crawl, a: Authorship)
    requires Consistent(c)
    ensures var r := Once(c, PersonLabel, PersonRowOf(a));
      && Consistent(r) && Extends(c, r)
      && IdsOf(All(r), PersonLabel) <= IdsOf(All(c), PersonLabel) + {a.author.id}
      && a.author.id in r.personIds
  {
    var person := PersonRowOf(a);
    OnceFacts(c, PersonLabel, person);
    if person.id !in c.personIds {
      IdsOfSnoc(All(c), person, PersonLabel);
      assert All(Once(c, PersonLabel, person)) == All(c) + [person];
    }
  }

  /** Up to the Paper row, a new paper keeps the invariant and adds no Person row. */
  lemma PaperBlockFacts(c1: Crawl, p: PaperRecord, data: OpenAlexData, cited: seq<string>)
    requires Consistent(c1) && p.openalexId !in c1.paperIds
    ensures var c6 := Enriched(c1.(paperIds := c1.paperIds + {p.openalexId}), data);
      var c7 := c6.(rows := c6.rows + [PaperRowOf(p, data, cited)]);
      && Consistent(c7) && Extends(c1, c7)
      && IdsOf(All(c7), PersonLabel) == IdsOf(All(c1), PersonLabel)
  {
    var c2 := c1.(paperIds := c1.paperIds + {p.openalexId});
    KeepPrefix(c1, c2);
    assert All(c2) == All(c1) && c1.rows[..|c1.rows|] == c1.rows;
    var c6 := Enriched(c2, data);
    EnrichedFacts(c2, data);
    ExtendsTrans(c1, c2, c6);
    assert Tracked(PaperLabel);
    assert IdsOf(All(c1), PaperLabel) <= c1.paperIds;
    var row := PaperRowOf(p, data, cited);
    assert row.id == p.openalexId && row.id in c6.paperIds;
    assert row.id !in IdsOf(All(c6), PaperLabel);
    PaperRowStep(c6, row);
    ExtendsTrans(c1, c6, c6.(rows := c6.rows + [row]));
  }

  lemma NewPaperFacts(c1: Crawl, p: PaperRecord, data: OpenAlexData, cited: seq<string>)
    requires Consistent(c1) && p.openalexId !in c1.paperIds
    ensures var c2 := c1.(paperIds := c1.paperIds + {p.openalexId});
      var r := NewPaper(c2, p, data, cited).0;
      && Consistent(r) && Extends(c1, r)
      && IdsOf(All(r), PersonLabel) <= IdsOf(All(c1), PersonLabel) + (if data.authorships == [] then {} else {data.authorships[|data.authorships| - 1].author.id})
      && (data.authorships != [] ==> data.authorships[|data.authorships| - 1].author.id in r.personIds)
  {
    var c2 := c1.(paperIds := c1.paperIds + {p.openalexId});
    var c6 := Enriched(c2, data);
    var c7 := c6.(rows := c6.rows + [PaperRowOf(p, data, cited)]);
    PaperBlockFacts(c1, p, data, cited);
    if data.authorships != [] {
      var last := data.authorships[|data.authorships| - 1];
      assert NewPaper(c2, p, data, cited).0 == Once(c7, PersonLabel, PersonRowOf(last));
      PersonStep(c7, last);
      ExtendsTrans(c1, c7, Once(c7, PersonLabel, PersonRowOf(last)));
    } else {
      assert NewPaper(c2, p, data, cited).0 == c7;
    }
  }

  /** Each paper keeps the invariant: at most one Paper, Person, Institution, goal and Concept row per id. */
  lemma AfterPaperFacts(c: Crawl, w: World, mentions: bool, url: string)
    requires Consistent(c)
    ensures Consistent(AfterPaper(c, w, mentions, url).0) && Extends(c, AfterPaper(c, w, mentions, url).0)
  {
    match w.paper(url)
    case Malformed =>
      assert c.rows[..|c.rows|] == c.rows;
    case Decoded(p) =>
      var c1 := if mentions then AfterMentions(c, w, p.mentionsUrl).0 else c;
      var cited := if mentions then AfterMentions(c, w, p.mentionsUrl).1 else [];
      if mentions {
        AfterMentionsFacts(c, w, p.mentionsUrl);
      } else {
        assert c.rows[..|c.rows|] == c.rows;
      }
      if p.openalexId !in c1.paperIds {
        var c2 := c1.(paperIds := c1.paperIds + {p.openalexId});
        if p.openalexData.Some? {
          NewPaperFacts(c1, p, p.openalexData.value, cited);
          ExtendsTrans(c, c1, NewPaper(c2, p, p.openalexData.value, cited).0);
        } else {
          KeepPrefix(c1, c2);
          assert c1.rows[..|c1.rows|] == c1.rows;
          ExtendsTrans(c, c1, c2);
        }
      }
  }

  /**
   * Only the last authorship of a new paper can yield a Person row: the
   * Person ids among the rows grow by at most that author's id, which
   * the person set then holds.
   */
  lemma LastAuthorOnly(c: Crawl, w: World, mentions: bool, url: string, p: PaperRecord, data: OpenAlexData)
    requires Consistent(c) && w.paper(url) == Decoded(p) && p.openalexData == Some(data) && data.authorships != []
    requires p.openalexId !in c.paperIds
    ensures var r := AfterPaper(c, w, mentions, url).0;
      var last := data.authorships[|data.authorships| - 1].author.id;
      IdsOf(All(r), PersonLabel) <= IdsOf(All(c), PersonLabel) + {last} && last in r.personIds
  {
    var c1 := if mentions then AfterMentions(c, w, p.mentionsUrl).0 else c;
    var cited := if mentions then AfterMentions(c, w, p.mentionsUrl).1 else [];
    if mentions {
      AfterMentionsFacts(c, w, p.mentionsUrl);
      AfterMentionsPaperIds(c, w, p.mentionsUrl);
    }
    NewPaperFacts(c1, p, data, cited);
  }

  /**
   * Mentions are processed before the paper's id is checked: a paper
   * already seen still records its mentioned project URLs and emits their
   * Project rows.
   */
  lemma SeenPaperStillMentions(c: Crawl, w: World, url: string, p: PaperRecord)
    requires w.paper(url) == Decoded(p) && p.openalexId in c.paperIds
    ensures AfterPaper(c, w, true, url) == (AfterMentions(c, w, p.mentionsUrl).0, true)
    ensures w.paperMentions(p.mentionsUrl).Decoded? ==>
      forall u :: u in w.paperMentions(p.mentionsUrl).value ==> u in AfterPaper(c, w, true, url).0.projectUrls
  {
    AfterMentionsPaperIds(c, w, p.mentionsUrl);
    if w.paperMentions(p.mentionsUrl).Decoded? {
      var urls := w.paperMentions(p.mentionsUrl).value;
      var c1 := c.(projectUrls := c.projectUrls + Elements(urls));
      AfterMentionRowsUrls(c1, w, urls);
    }
  }

  lemma AfterMentionsPaperIds(c: Crawl, w: World, url: string)
    ensures AfterMentions(c, w, url).0.paperIds == c.paperIds
  {
    if w.paperMentions(url).Decoded? {
      var urls := w.paperMentions(url).value;
      AfterMentionRowsUrls(c.(projectUrls := c.projectUrls + Elements(urls)), w, urls);
    }
  }

  lemma {:induction false} AfterMentionRowsUrls(c: Crawl, w: World, urls: seq<string>)
    ensures AfterMentionRows(c, w, urls).projectUrls == c.projectUrls
    ensures AfterMentionRows(c, w, urls).paperIds == c.paperIds
  {
    if urls != [] {
      AfterMentionRowsUrls(c, w, urls[..|urls| - 1]);
    }
  }

  // -----------------------------------------------------------------------
  // process_project

  /** The papers of one project, in order; an escaping exception ends the walk. */
  function AfterPapers(c: Crawl, w: World, mentions: bool, urls: seq<string>): (Crawl, bool)
    decreases |urls|
  {
    if urls == [] then (c, true)
    else
      var step := AfterPaper(c, w, mentions, urls[0]);
      if !step.1 then (step.0, false) else AfterPapers(step.0, w, mentions, urls[1..])
  }

  /** One turn of the paper loop, from position k. */
  lemma AfterPapersStep(c: Crawl, w: World, mentions: bool, urls: seq<string>, k: nat, r: Crawl, ok: bool)
    requires k < |urls| && AfterPaper(c, w, mentions, urls[k]) == (r, ok)
    ensures AfterPapers(c, w, mentions, urls[k..]) == if ok then AfterPapers(r, w, mentions, urls[k + 1..]) else (r, false)
  {
    assert urls[k..][1..] == urls[k + 1..];
  }

  lemma {:induction false} AfterPapersFacts(c: Crawl, w: World, mentions: bool, urls: seq<string>)
    requires Consistent(c)
    ensures Consistent(AfterPapers(c, w, mentions, urls).0) && Extends(c, AfterPapers(c, w, mentions, urls).0)
    decreases |urls|
  {
    if urls == [] {
      assert c.rows[..|c.rows|] == c.rows;
    } else {
      var c1 := AfterPaper(c, w, mentions, urls[0]).0;
      AfterPaperFacts(c, w, mentions, urls[0]);
      if AfterPaper(c, w, mentions, urls[0]).1 {
        AfterPapersFacts(c1, w, mentions, urls[1..]);
        ExtendsTrans(c, c1, AfterPapers(c1, w, mentions, urls[1..]).0);
      }
    }
  }

  /**
   * process_project: the seed Project row without a set check, the
   * mentions walk over pages 1..total-pages, every paper, then the rows
   * go to the file and `row_list` is cleared.  A decode error anywhere in
   * the walk clears `row_list` instead.
   */
  function AfterProject(c: Crawl, w: World, mentions: bool, u: string): (Crawl, bool) {
    match w.project(u)
    case Malformed => (c.(rows := []), true)
    case Decoded(p) =>
      var c1 := c.(projectIds := c.projectIds + {p.cziId}, rows := c.rows + [ProjectRowOf(p)]);
      var first := w.mentionsPage(p.mentionsUrl, 1, PageSize);
      if first.body.Malformed? then (c1.(rows := []), true)
      else
        match PaperUrls(w, p.mentionsUrl, first.totalPages)
        case None => (c1.(rows := []), true)
        case Some(urls) =>
          var (c2, ok) := AfterPapers(c1, w, mentions, urls);
          if ok then (c2.(output := c2.output + c2.rows, rows := []), true) else (c2, false)
  }

  lemma AfterProjectFacts(c: Crawl, w: World, mentions: bool, u: string)
    requires Consistent(c)
    ensures var (r, ok) := AfterProject(c, w, mentions, u);
      && Consistent(r) && Grows(c, r) && c.output <= r.output
      && (ok ==> r.rows == [])
  {
    var (r, ok) := AfterProject(c, w, mentions, u);
    match w.project(u)
    case Malformed =>
      KeepPrefix(c, r);
    case Decoded(p) =>
      var c1 := c.(projectIds := c.projectIds + {p.cziId}, rows := c.rows + [ProjectRowOf(p)]);
      assert All(c1) == All(c) + [ProjectRowOf(p)];
      AppendRow(c, ProjectRowOf(p), c1);
      var first := w.mentionsPage(p.mentionsUrl, 1, PageSize);
      if first.body.Malformed? || PaperUrls(w, p.mentionsUrl, first.totalPages).None? {
        KeepPrefix(c1, r);
      } else {
        var urls := PaperUrls(w, p.mentionsUrl, first.totalPages).value;
        var c2 := AfterPapers(c1, w, mentions, urls).0;
        AfterPapersFacts(c1, w, mentions, urls);
        if AfterPapers(c1, w, mentions, urls).1 {
          assert All(r) == All(c2);
          KeepPrefix(c2, r);
        }
      }
  }

  /**
   * The seed's Project row is emitted whether or not its `czi_id` is
   * already known: when the project completes, the file gains the pending
   * rows, then that row.
   */
  lemma SeedRowUnconditional(c: Crawl, w: World, mentions: bool, u: string, p: ProjectRecord)
    requires Consistent(c) && w.project(u) == Decoded(p)
    requires w.mentionsPage(p.mentionsUrl, 1, PageSize).body.Decoded?
    requires PaperUrls(w, p.mentionsUrl, w.mentionsPage(p.mentionsUrl, 1, PageSize).totalPages).Some?
    requires AfterProject(c, w, mentions, u).1
    ensures c.output + c.rows + [ProjectRowOf(p)] <= AfterProject(c, w, mentions, u).0.output
  {
    var c1 := c.(projectIds := c.projectIds + {p.cziId}, rows := c.rows + [ProjectRowOf(p)]);
    var urls := PaperUrls(w, p.mentionsUrl, w.mentionsPage(p.mentionsUrl, 1, PageSize).totalPages).value;
    assert All(c1) == All(c) + [ProjectRowOf(p)];
    AppendRow(c, ProjectRowOf(p), c1);
    AfterPapersFacts(c1, w, mentions, urls);
    var c2 := AfterPapers(c1, w, mentions, urls).0;
    assert c2.output + c2.rows == AfterProject(c, w, mentions, u).0.output;
    assert c2.rows[..|c1.rows|] == c1.rows;
    assert (c2.output + c2.rows)[..|c.output| + |c1.rows|] == c.output + c1.rows;
  }

  /** process_projects under sequential semantics: the projects in order, until one raises. */
  function AfterProjects(c: Crawl, w: World, mentions: bool, us: seq<string>): (Crawl, bool)
    decreases |us|
  {
    if us == [] then (c, true)
    else
      var step := AfterProject(c, w, mentions, us[0]);
      if !step.1 then (step.0, false) else AfterProjects(step.0, w, mentions, us[1..])
  }

  /** One turn of the project loop, from position k. */
  lemma AfterProjectsStep(c: Crawl, w: World, mentions: bool, us: seq<string>, k: nat, r: Crawl, ok: bool)
    requires k < |us| && AfterProject(c, w, mentions, us[k]) == (r, ok)
    ensures AfterProjects(c, w, mentions, us[k..]) == if ok then AfterProjects(r, w, mentions, us[k + 1..]) else (r, false)
  {
    assert us[k..][1..] == us[k + 1..];
  }

  /** A whole run keeps the invariant, and the file only grows. */
  lemma {:induction false} AfterProjectsFacts(c: Crawl, w: World, mentions: bool, us: seq<string>)
    requires Consistent(c)
    ensures Consistent(AfterProjects(c, w, mentions, us).0) && Grows(c, AfterProjects(c, w, mentions, us).0)
    ensures c.output <= AfterProjects(c, w, mentions, us).0.output
    ensures us != [] && AfterProjects(c, w, mentions, us).1 ==> AfterProjects(c, w, mentions, us).0.rows == []
    decreases |us|
  {
    if us != [] {
      var c1 := AfterProject(c, w, mentions, us[0]).0;
      AfterProjectFacts(c, w, mentions, us[0]);
      if AfterProject(c, w, mentions, us[0]).1 {
        AfterProjectsFacts(c1, w, mentions, us[1..]);
        var r := AfterProjects(c1, w, mentions, us[1..]).0;
        assert r.output[..|c.output|] == r.output[..|c1.output|][..|c.output|];
      }
    }
  }

  // -----------------------------------------------------------------------
  // check_scope

  /** The `total-count` header of a project's one-item mentions page; 0 stands in when the project fails to decode. */
  function MentionCount(w: World, u: string): nat {
    match w.project(u)
    case Malformed => 0
    case Decoded(p) => w.mentionsPage(p.mentionsUrl, 1, ScopePageSize).totalCount
  }

  /** The sum of the mention counts over a set of project URLs. */
  ghost function ScopeTotal(w: World, urls: set<string>): nat
    decreases urls
  {
    if urls == {} then 0
    else
      var u :| u in urls;
      MentionCount(w, u) + ScopeTotal(w, urls - {u})
  }

  /** The sum does not depend on the order the set is walked in. */
  lemma {:induction false} ScopeTotalRemove(w: World, urls: set<string>, u: string)
    requires u in urls
    ensures ScopeTotal(w, urls) == MentionCount(w, u) + ScopeTotal(w, urls - {u})
    decreases urls
  {
    var v :| v in urls && ScopeTotal(w, urls) == MentionCount(w, v) + ScopeTotal(w, urls - {v});
    if v != u {
      ScopeTotalRemove(w, urls - {v}, u);
      ScopeTotalRemove(w, urls - {u}, v);
      assert urls - {v} - {u} == urls - {u} - {v};
    }
  }

  /** check_scope: 0 when some project fails to decode, otherwise the sum of the counts. */
  ghost function ScopeEstimate(w: World, urls: set<string>): nat {
    if exists u :: u in urls && w.project(u).Malformed? then 0 else ScopeTotal(w, urls)
  }

  // -----------------------------------------------------------------------
  // The script's globals, updated in place

  /**
   * `row_list`, the CSV file's rows and the id sets, shared by every call.
   * The API and the answer to the mentions prompt are parameters.
   */
  class Crawler {
    var rows: seq<Row>
    var output: seq<Row>
    var institutionIds: set<string>
    var personIds: set<string>
    var paperIds: set<string>
    var projectIds: set<string>
    var goalIds: set<string>
    var conceptIds: set<string>
    var domainIds: set<string>
    var projectUrls: set<string>

    function State(): Crawl
      reads this
    {
      Crawl(rows, output, institutionIds, personIds, paperIds, projectIds, goalIds, conceptIds, domainIds, projectUrls)
    }

    ghost predicate Valid()
      reads this
    {
      Consistent(State())
    }

    constructor ()
      ensures State() == Start && Valid()
    {
      rows, output := [], [];
      institutionIds, personIds, paperIds, projectIds := {}, {}, {}, {};
      goalIds, conceptIds, domainIds, projectUrls := {}, {}, {}, {};
      StartConsistent();
    }

    /** The guarded append shared by every loop. */
    method EmitOnce(kind: Label, row: Row)
      modifies this
      ensures State() == Once(old(State()), kind, row)
    {
      match kind
      case InstitutionLabel =>
        if row.id !in institutionIds {
          institutionIds := institutionIds + {row.id};
          rows := rows + [row];
        }
      case GoalLabel =>
        if row.id !in goalIds {
          goalIds := goalIds + {row.id};
          rows := rows + [row];
        }
      case ConceptLabel =>
        if row.id !in conceptIds {
          conceptIds := conceptIds + {row.id};
          rows := rows + [row];
        }
      case DomainLabel =>
        if row.id !in domainIds {
          domainIds := domainIds + {row.id};
          rows := rows + [row];
        }
      case PaperLabel =>
        if row.id !in paperIds {
          paperIds := paperIds + {row.id};
          rows := rows + [row];
        }
      case PersonLabel =>
        if row.id !in personIds {
          personIds := personIds + {row.id};
          rows := rows + [row];
        }
      case ProjectLabel =>
        if row.id !in projectIds {
          projectIds := projectIds + {row.id};
          rows := rows + [row];
        }
    }

    /** The institution loop of one authorship; returns the institutions' names. */
    method EmitInstitutions(insts: seq<InstitutionRef>) returns (names: seq<string>)
      modifies this
      ensures State() == AfterEmit(old(State()), InstitutionLabel, Mapped(InstitutionRowOf, insts))
      ensures names == Mapped(InstitutionName, insts)
    {
      ghost var c := State();
      names := [];
      var k := 0;
      while k < |insts|
        invariant 0 <= k <= |insts|
        invariant State() == AfterEmit(c, InstitutionLabel, Mapped(InstitutionRowOf, insts[..k]))
        invariant names == Mapped(InstitutionName, insts[..k])
      {
        MappedStep(InstitutionRowOf, insts, k);
        MappedStep(InstitutionName, insts, k);
        AfterEmitSnoc(c, InstitutionLabel, Mapped(InstitutionRowOf, insts[..k]), InstitutionRowOf(insts[k]));
        names := names + [insts[k].displayName];
        EmitOnce(InstitutionLabel, InstitutionRowOf(insts[k]));
        k := k + 1;
      }
      assert insts[..k] == insts;
    }

    /** The authorship loop; returns the institution names of the last authorship. */
    method EmitAffiliations(authorships: seq<Authorship>) returns (lastNames: seq<string>)
      modifies this
      ensures State() == AfterAffiliations(old(State()), authorships)
      ensures authorships != [] ==> lastNames == Mapped(InstitutionName, authorships[|authorships| - 1].institutions)
    {
      ghost var c := State();
      lastNames := [];
      var k := 0;
      while k < |authorships|
        invariant 0 <= k <= |authorships|
        invariant State() == AfterAffiliations(c, authorships[..k])
        invariant k > 0 ==> lastNames == Mapped(InstitutionName, authorships[k - 1].institutions)
      {
        AfterAffiliationsNext(c, authorships, k);
        lastNames := EmitInstitutions(authorships[k].institutions);
        k := k + 1;
      }
      assert authorships[..k] == authorships;
    }

    /** The goal loop; returns the goals' names. */
    method EmitGoals(goals: seq<Goal>) returns (names: seq<string>)
      modifies this
      ensures State() == AfterEmit(old(State()), GoalLabel, Mapped(GoalRowOf, goals))
      ensures names == Mapped(GoalName, goals)
    {
      ghost var c := State();
      names := [];
      var k := 0;
      while k < |goals|
        invariant 0 <= k <= |goals|
        invariant State() == AfterEmit(c, GoalLabel, Mapped(GoalRowOf, goals[..k]))
        invariant names == Mapped(GoalName, goals[..k])
      {
        MappedStep(GoalRowOf, goals, k);
        MappedStep(GoalName, goals, k);
        AfterEmitSnoc(c, GoalLabel, Mapped(GoalRowOf, goals[..k]), GoalRowOf(goals[k]));
        names := names + [goals[k].displayName];
        EmitOnce(GoalLabel, GoalRowOf(goals[k]));
        k := k + 1;
      }
      assert goals[..k] == goals;
    }

    /** The concept loop; returns the concepts' names. */
    method EmitConcepts(concepts: seq<Concept>) returns (names: seq<string>)
      modifies this
      ensures State() == AfterEmit(old(State()), ConceptLabel, Mapped(ConceptRowOf, concepts))
      ensures names == Mapped(ConceptName, concepts)
    {
      ghost var c := State();
      names := [];
      var k := 0;
      while k < |concepts|
        invariant 0 <= k <= |concepts|
        invariant State() == AfterEmit(c, ConceptLabel, Mapped(ConceptRowOf, concepts[..k]))
        invariant names == Mapped(ConceptName, concepts[..k])
      {
        MappedStep(ConceptRowOf, concepts, k);
        MappedStep(ConceptName, concepts, k);
        AfterEmitSnoc(c, ConceptLabel, Mapped(ConceptRowOf, concepts[..k]), ConceptRowOf(concepts[k]));
        names := names + [concepts[k].displayName];
        EmitOnce(ConceptLabel, ConceptRowOf(concepts[k]));
        k := k + 1;
      }
      assert concepts[..k] == concepts;
    }

    /** The MeSH loop, guarded by the concept set; returns the descriptors' names. */
    method EmitDomains(terms: seq<MeshTerm>) returns (names: seq<string>)
      modifies this
      ensures State() == AfterDomains(old(State()), terms)
      ensures names == Mapped(DomainName, terms)
    {
      ghost var c := State();
      names := [];
      var k := 0;
      while k < |terms|
        invariant 0 <= k <= |terms|
        invariant State() == AfterDomains(c, terms[..k])
        invariant names == Mapped(DomainName, terms[..k])
      {
        MappedStep(DomainName, terms, k);
        assert terms[..k + 1][..k] == terms[..k];
        var t := terms[k];
        names := names + [t.descriptorName];
        if t.descriptorUi !in conceptIds {
          domainIds := domainIds + {t.descriptorUi};
          rows := rows + [DomainRowOf(t)];
        }
        k := k + 1;
      }
      assert terms[..k] == terms;
    }

    /** The first loop of process_paper_mentions: every mentioned project URL joins `project_url_set`. */
    method RecordProjectUrls(urls: seq<string>)
      modifies this
      ensures State() == old(State()).(projectUrls := old(projectUrls) + Elements(urls))
    {
      var k := 0;
      while k < |urls|
        invariant 0 <= k <= |urls|
        invariant State() == old(State()).(projectUrls := old(projectUrls) + Elements(urls[..k]))
      {
        ElementsStep(urls, k);
        projectUrls := projectUrls + {urls[k]};
        k := k + 1;
      }
      assert urls[..k] == urls;
    }

    /** The project loop of process_paper_mentions; returns the names gathered. */
    method EmitMentionedProjects(w: World, urls: seq<string>) returns (names: seq<string>)
      modifies this
      ensures State() == AfterMentionRows(old(State()), w, urls)
      ensures names == MentionNames(w, urls)
    {
      names := [];
      var j := 0;
      while j < |urls|
        invariant 0 <= j <= |urls|
        invariant State() == AfterMentionRows(old(State()), w, urls[..j])
        invariant names == MentionNames(w, urls[..j])
      {
        assert urls[..j + 1][..j] == urls[..j];
        var reply := w.project(urls[j]);
        if reply.Malformed? {
          names := [];
        } else {
          names := names + [ProjectName(reply.value)];
          EmitOnce(ProjectLabel, ProjectRowOf(reply.value));
        }
        j := j + 1;
      }
      assert urls[..j] == urls;
    }

    /** process_paper_mentions. */
    method ProcessPaperMentions(w: World, url: string) returns (names: seq<string>)
      modifies this
      ensures (State(), names) == AfterMentions(old(State()), w, url)
    {
      names := [];
      var reply := w.paperMentions(url);
      if reply.Decoded? {
        RecordProjectUrls(reply.value);
        names := EmitMentionedProjects(w, reply.value);
      }
    }

    /** The author names of a paper, in authorship order. */
    method CollectAuthorNames(p: PaperRecord) returns (names: seq<string>)
      ensures names == AuthorNames(p)
    {
      names := [];
      if p.openalexData.Some? {
        var authorships := p.openalexData.value.authorships;
        var k := 0;
        while k < |authorships|
          invariant 0 <= k <= |authorships|
          invariant names == Mapped(AuthorName, authorships[..k])
        {
          MappedStep(AuthorName, authorships, k);
          names := names + [authorships[k].author.displayName];
          k := k + 1;
        }
        assert authorships[..k] == authorships;
      }
    }

    /** The institution, goal, concept and domain loops of a new paper; returns the names the Paper and Person rows join. */
    method Enrich(data: OpenAlexData) returns (lastNames: seq<string>, goals: seq<string>, concepts: seq<string>, domains: seq<string>)
      modifies this
      ensures State() == Enriched(old(State()), data)
      ensures data.authorships != [] ==> lastNames == Mapped(InstitutionName, data.authorships[|data.authorships| - 1].institutions)
      ensures goals == Mapped(GoalName, data.goals) && concepts == Mapped(ConceptName, data.concepts)
      ensures domains == Mapped(DomainName, data.mesh)
    {
      lastNames := EmitAffiliations(data.authorships);
      goals := EmitGoals(data.goals);
      concepts := EmitConcepts(data.concepts);
      domains := EmitDomains(data.mesh);
    }

    /** The block of a paper whose id was just added to the paper set. */
    method AddNewPaper(p: PaperRecord, data: OpenAlexData, authorNames: seq<string>, cited: seq<string>) returns (ok: bool)
      requires authorNames == AuthorNames(p)
      modifies this
      ensures (State(), ok) == NewPaper(old(State()), p, data, cited)
    {
      var lastNames, goals, concepts, domains := Enrich(data);
      rows := rows + [PaperRow(p.openalexId, p.title, p.doi, Join(authorNames, Separator), Join(cited, Separator),
                               Join(goals, Separator), Join(concepts, Separator), Join(domains, Separator))];
      if data.authorships == [] {
        return false;
      }
      var last := data.authorships[|data.authorships| - 1];
      EmitOnce(PersonLabel, PersonRow(last.author.id, last.author.displayName, last.author.orcid, Join(lastNames, Separator)));
      ok := true;
    }

    /** process_paper; false when an exception other than a decode error escapes. */
    method ProcessPaper(w: World, mentions: bool, url: string) returns (ok: bool)
      requires Valid()
      modifies this
      ensures (State(), ok) == AfterPaper(old(State()), w, mentions, url)
      ensures Valid() && Extends(old(State()), State())
    {
      AfterPaperFacts(State(), w, mentions, url);
      ok := true;
      var reply := w.paper(url);
      if reply.Malformed? {
        return;
      }
      var p := reply.value;
      var authorNames := CollectAuthorNames(p);
      var cited := [];
      if mentions {
        cited := ProcessPaperMentions(w, p.mentionsUrl);
      }
      if p.openalexId in paperIds {
        return;
      }
      paperIds := paperIds + {p.openalexId};
      if p.openalexData.None? {
        return false;
      }
      ok := AddNewPaper(p, p.openalexData.value, authorNames, cited);
    }

    /** The papers of one project, in order, until one raises. */
    method ProcessPapers(w: World, mentions: bool, urls: seq<string>) returns (ok: bool)
      requires Valid()
      modifies this
      ensures (State(), ok) == AfterPapers(old(State()), w, mentions, urls)
      ensures Valid() && Extends(old(State()), State())
    {
      AfterPapersFacts(State(), w, mentions, urls);
      ghost var target := AfterPapers(State(), w, mentions, urls);
      ok := true;
      var k := 0;
      while k < |urls|
        invariant 0 <= k <= |urls|
        invariant AfterPapers(State(), w, mentions, urls[k..]) == target
        invariant Valid()
      {
        ghost var before := State();
        ok := ProcessPaper(w, mentions, urls[k]);
        AfterPapersStep(before, w, mentions, urls, k, State(), ok);
        if !ok {
          return;
        }
        k := k + 1;
      }
    }

    /** process_project. */
    method ProcessProject(w: World, mentions: bool, u: string) returns (ok: bool)
      requires Valid()
      modifies this
      ensures (State(), ok) == AfterProject(old(State()), w, mentions, u)
      ensures Valid() && Grows(old(State()), State()) && old(output) <= output
      ensures ok ==> rows == []
    {
      AfterProjectFacts(State(), w, mentions, u);
      ok := true;
      match w.project(u)
      case Malformed =>
        rows := [];
      case Decoded(p) =>
        ghost var c := State();
        projectIds := projectIds + {p.cziId};
        rows := rows + [ProjectRowOf(p)];
        assert All(State()) == All(c) + [ProjectRowOf(p)];
        AppendRow(c, ProjectRowOf(p), State());
        var first := w.mentionsPage(p.mentionsUrl, 1, PageSize);
        if first.body.Malformed? {
          rows := [];
          return;
        }
        var walked := FetchPaperUrls(w, p.mentionsUrl, first.totalPages);
        if walked.None? {
          rows := [];
          return;
        }
        var urls := walked.value;
        ok := ProcessPapers(w, mentions, urls);
        if ok {
          output := output + rows;
          rows := [];
        }
    }

    /** process_projects under sequential semantics. */
    method ProcessProjects(w: World, mentions: bool, us: seq<string>) returns (ok: bool)
      requires Valid()
      modifies this
      ensures (State(), ok) == AfterProjects(old(State()), w, mentions, us)
      ensures Valid() && Grows(old(State()), State()) && old(output) <= output
    {
      ghost var c := State();
      ghost var target := AfterProjects(State(), w, mentions, us);
      AfterProjectsFacts(c, w, mentions, us);
      ok := true;
      var k := 0;
      while k < |us|
        invariant 0 <= k <= |us|
        invariant AfterProjects(State(), w, mentions, us[k..]) == target
        invariant Valid()
      {
        ghost var before := State();
        ok := ProcessProject(w, mentions, us[k]);
        AfterProjectsStep(before, w, mentions, us, k, State(), ok);
        if !ok {
          return;
        }
        k := k + 1;
      }
    }

    /** check_scope, walking `project_url_set` in whatever order the set yields. */
    method CheckScope(w: World) returns (estimate: nat)
      ensures estimate == ScopeEstimate(w, projectUrls)
    {
      var remaining := projectUrls;
      var total := 0;
      while remaining != {}
        invariant remaining <= projectUrls
        invariant total + ScopeTotal(w, remaining) == ScopeTotal(w, projectUrls)
        invariant forall u :: u in projectUrls && u !in remaining ==> w.project(u).Decoded?
        decreases remaining
      {
        var u :| u in remaining;
        ScopeTotalRemove(w, remaining, u);
        match w.project(u)
        case Malformed =>
          return 0;
        case Decoded(p) =>
          total := total + w.mentionsPage(p.mentionsUrl, 1, ScopePageSize).totalCount;
          remaining := remaining - {u};
      }
      estimate := total;
    }
  }
}
