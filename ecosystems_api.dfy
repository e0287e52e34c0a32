/**
 * The records of the ecosyste.ms papers API that both crawler scripts
 * read, and the walk over a project's pages of mentions.
 *
 * The API is an input: a `World` answers every request, and `Malformed`
 * stands for a body that fails to decode as JSON.  Each record carries the
 * fields the scripts read.
 */
module EcosystemsApi {
  import opened Common

  datatype Reply<T> = Malformed | Decoded(value: T)

  datatype Author = Author(id: string, displayName: string, orcid: Option<string>)
  datatype InstitutionRef = InstitutionRef(id: string, displayName: string)
  datatype Authorship = Authorship(author: Author, institutions: seq<InstitutionRef>)
  datatype Goal = Goal(id: string, displayName: string, score: real)
  datatype Concept = Concept(id: string, displayName: string, wikidata: string, level: int)
  datatype MeshTerm = MeshTerm(descriptorUi: string, descriptorName: string, isMajorTopic: bool)
  datatype OpenAlexData = OpenAlexData(authorships: seq<Authorship>, goals: seq<Goal>, concepts: seq<Concept>, mesh: seq<MeshTerm>)

  /** A paper of the papers API; `openalexData` is null for papers OpenAlex does not know. */
  datatype PaperRecord = PaperRecord(openalexId: string, title: Option<string>, doi: Option<string>, mentionsUrl: string, openalexData: Option<OpenAlexData>)

  datatype Package = Package(homepage: Option<string>, repositoryUrl: Option<string>)
  datatype ProjectRecord = ProjectRecord(cziId: string, ecosystem: string, name: string, package: Option<Package>, mentionsUrl: string)

  /** A page of a project's mentions: the `paper_url` of each, and the `total-pages` and `total-count` headers. */
  datatype MentionsReply = MentionsReply(body: Reply<seq<string>>, totalPages: nat, totalCount: nat)

  /**
   * The API: a paper, the `project_url` of each mention of a paper, a
   * project, and a page of a project's mentions by mentions URL, page
   * number and page size.
   */
  datatype World = World(
    paper: string -> Reply<PaperRecord>,
    paperMentions: string -> Reply<seq<string>>,
    project: string -> Reply<ProjectRecord>,
    mentionsPage: (string, nat, nat) -> MentionsReply)

  /** The page size of the mentions walk: `per_page=1000`. */
  const PageSize := 1000

  function InstitutionName(i: InstitutionRef): string { i.displayName }
  function AuthorName(a: Authorship): string { a.author.displayName }

  /** `ecosystem:name`. */
  function ProjectName(p: ProjectRecord): string { p.ecosystem + ":" + p.name }

  /** The display names of a paper's authors, in authorship order; none without OpenAlex data. */
  function AuthorNames(p: PaperRecord): seq<string> {
    if p.openalexData.Some? then Mapped(AuthorName, p.openalexData.value.authorships) else []
  }

  /** The `paper_url`s of pages 1..pages of a project's mentions, in page order; None when a page fails to decode. */
  function PaperUrls(w: World, mentionsUrl: string, pages: nat): Option<seq<string>> {
    if pages == 0 then Some([])
    else
      match PaperUrls(w, mentionsUrl, pages - 1)
      case None => None
      case Some(prefix) =>
        match w.mentionsPage(mentionsUrl, pages, PageSize).body
        case Malformed => None
        case Decoded(urls) => Some(prefix + urls)
  }

  /** The walk succeeds exactly when every page decodes, and then gathers exactly the pages' URLs. */
  lemma {:induction false} PaperUrlsMeaning(w: World, m: string, n: nat)
    ensures PaperUrls(w, m, n).Some? <==> forall k :: 1 <= k <= n ==> w.mentionsPage(m, k, PageSize).body.Decoded?
    ensures PaperUrls(w, m, n).Some? ==> forall u :: u in PaperUrls(w, m, n).value <==>
      exists k :: 1 <= k <= n && w.mentionsPage(m, k, PageSize).body.Decoded? && u in w.mentionsPage(m, k, PageSize).body.value
  {
    if n > 0 {
      PaperUrlsMeaning(w, m, n - 1);
    }
  }

  /** Once a page fails to decode, the walk stays failed. */
  lemma {:induction false} PaperUrlsStaysNone(w: World, m: string, k: nat, n: nat)
    requires 1 <= k <= n && w.mentionsPage(m, k, PageSize).body.Malformed?
    ensures PaperUrls(w, m, n) == None
    decreases n
  {
    if n > k {
      PaperUrlsStaysNone(w, m, k, n - 1);
    }
  }

  /** The page loop of both scripts: pages 1..pages, in order, stopping at a page that fails to decode. */
  method FetchPaperUrls(w: World, mentionsUrl: string, pages: nat) returns (urls: Option<seq<string>>)
    ensures urls == PaperUrls(w, mentionsUrl, pages)
  {
    var gathered := [];
    var page := 1;
    while page <= pages
      invariant 1 <= page <= pages + 1
      invariant PaperUrls(w, mentionsUrl, page - 1) == Some(gathered)
    {
      var reply := w.mentionsPage(mentionsUrl, page, PageSize);
      if reply.body.Malformed? {
        PaperUrlsStaysNone(w, mentionsUrl, page, pages);
        return None;
      }
      gathered := gathered + reply.body.value;
      page := page + 1;
    }
    urls := Some(gathered);
  }
}
