/**
 * Finding the paper behind a repository in repo_cite: the DOI search in the
 * README, CITATION.cff files and description (extract_doi_from_repo), the
 * OpenAlex lookup guarded by the DOI prefix check
 * (get_paper_details_from_openalex), and the cursor walk over each author's
 * other works (get_other_papers_by_authors).
 *
 * A DOI is recognised the way `re.search(r'(10\.\d{4,9}/[-._;()/:A-Z0-9]+)',
 * text, re.I)` finds one: the leftmost position where "10." is followed by
 * four to nine digits, a `/`, and the longest run of suffix characters.
 * The prefix rule is that of section 2.2 of the DOI Handbook ("10." and a
 * registrant code).
 */
module Doi {
  import opened Common

  // -----------------------------------------------------------------------
  // The DOI scanner

  predicate IsDigit(c: char) {
    '0' <= c <= '9'
  }

  /** `[-._;()/:A-Z0-9]` under re.I, for ASCII letters. */
  predicate IsSuffixChar(c: char) {
    c == '-' || c == '.' || c == '_' || c == ';' || c == '(' || c == ')' || c == '/' || c == ':'
    || ('A' <= c <= 'Z') || ('a' <= c <= 'z') || IsDigit(c)
  }

  /** The length of the run of digits starting at i. */
  function DigitRun(s: string, i: nat): (n: nat)
    requires i <= |s|
    ensures i + n <= |s|
    ensures forall j :: i <= j < i + n ==> IsDigit(s[j])
    ensures i + n < |s| ==> !IsDigit(s[i + n])
    decreases |s| - i
  {
    if i < |s| && IsDigit(s[i]) then 1 + DigitRun(s, i + 1) else 0
  }

  /** The length of the run of suffix characters starting at i. */
  function SuffixRun(s: string, i: nat): (n: nat)
    requires i <= |s|
    ensures i + n <= |s|
    ensures forall j :: i <= j < i + n ==> IsSuffixChar(s[j])
    ensures i + n < |s| ==> !IsSuffixChar(s[i + n])
    decreases |s| - i
  {
    if i < |s| && IsSuffixChar(s[i]) then 1 + SuffixRun(s, i + 1) else 0
  }

  /**
   * Where a match starting at i ends, if one starts there.  Backtracking
   * over `\d{4,9}` cannot help: the character after a shorter run of
   * digits is a digit, not `/`, so the whole run of digits must be 4 to 9
   * long and be followed by `/`.
   */
  function MatchAt(s: string, i: nat): Option<nat>
    requires i <= |s|
  {
    if i + 3 <= |s| && s[i..i + 3] == "10." then
      var d := DigitRun(s, i + 3);
      var slash := i + 3 + d;
      if 4 <= d <= 9 && slash < |s| && s[slash] == '/' then
        var e := SuffixRun(s, slash + 1);
        if e >= 1 then Some(slash + 1 + e) else None
      else None
    else None
  }

  /** A DOI whose registrant code has n digits. */
  predicate ShapedWith(d: string, n: nat) {
    && 4 <= n <= 9 && |d| >= 3 + n + 2
    && d[..3] == "10."
    && (forall j :: 3 <= j < 3 + n ==> IsDigit(d[j]))
    && d[3 + n] == '/'
    && (forall j :: 3 + n + 1 <= j < |d| ==> IsSuffixChar(d[j]))
  }

  /** What a matched DOI looks like: "10.", 4 to 9 digits, `/`, one or more suffix characters. */
  predicate DoiShaped(d: string) {
    exists n :: 4 <= n <= 9 && ShapedWith(d, n)
  }

  lemma MatchShaped(s: string, i: nat)
    requires i <= |s| && MatchAt(s, i).Some?
    ensures i < MatchAt(s, i).value <= |s|
    ensures DoiShaped(s[i..MatchAt(s, i).value])
  {
    var d := DigitRun(s, i + 3);
    var t := s[i..MatchAt(s, i).value];
    assert t[..3] == s[i..i + 3];
    assert forall j :: 3 <= j < 3 + d ==> t[j] == s[i + j];
    assert t[3 + d] == s[i + 3 + d];
    assert forall j :: 3 + d + 1 <= j < |t| ==> t[j] == s[i + j];
    assert ShapedWith(t, d);
  }

  /** The start of the leftmost match at or after i. */
  function SearchFrom(s: string, i: nat): (r: Option<nat>)
    requires i <= |s|
    ensures r.Some? ==> i <= r.value <= |s| && MatchAt(s, r.value).Some?
    ensures r.Some? ==> forall j :: i <= j < r.value ==> MatchAt(s, j).None?
    ensures r.None? ==> forall j :: i <= j <= |s| ==> MatchAt(s, j).None?
    decreases |s| - i
  {
    if MatchAt(s, i).Some? then Some(i)
    else if i == |s| then None
    else SearchFrom(s, i + 1)
  }

  /** `re.search(...)` and `group(1)`: the leftmost DOI in the text. */
  function FindDoi(s: string): (r: Option<string>)
    ensures r.Some? ==> DoiShaped(r.value)
  {
    match SearchFrom(s, 0)
    case None => None
    case Some(i) =>
      MatchShaped(s, i);
      Some(s[i..MatchAt(s, i).value])
  }

  /** No DOI is found exactly when no position starts a match; otherwise the one found starts at the leftmost match. */
  lemma FindDoiLeftmost(s: string)
    ensures FindDoi(s).None? <==> forall j :: 0 <= j <= |s| ==> MatchAt(s, j).None?
    ensures FindDoi(s).Some? ==> exists i :: (0 <= i <= |s| && MatchAt(s, i).Some? && FindDoi(s).value == s[i..MatchAt(s, i).value]
      && forall j :: 0 <= j < i ==> MatchAt(s, j).None?)
  {
    var r := SearchFrom(s, 0);
    if r.Some? {
      var i := r.value;
      assert MatchAt(s, i).Some? && FindDoi(s).value == s[i..MatchAt(s, i).value];
    }
  }

  // -----------------------------------------------------------------------
  // extract_doi_from_repo

  /** An entry of the repository's top-level listing, with the decoded text of its fetch (None when it failed). */
  datatype RepoFile = RepoFile(name: string, content: Option<string>)

  /** `a.lower() == b.lower()`, compared character by character. */
  predicate EqualIgnoringCase(a: string, b: string)
    decreases |a|
  {
    |a| == |b| && (a == [] || (LowerChar(a[0]) == LowerChar(b[0]) && EqualIgnoringCase(a[1..], b[1..])))
  }

  lemma {:induction false} EqualIgnoringCaseLower(a: string, b: string)
    ensures EqualIgnoringCase(a, b) <==> Lower(a) == Lower(b)
    decreases |a|
  {
    if |a| == |b| && a != [] {
      EqualIgnoringCaseLower(a[1..], b[1..]);
      if Lower(a) == Lower(b) {
        assert Lower(a[1..]) == Lower(a)[1..];
        assert Lower(b[1..]) == Lower(b)[1..];
      }
    }
  }

  const CitationFileName: string := "citation.cff"

  /** `name.lower() == 'citation.cff'` */
  predicate IsCitationFile(f: RepoFile) {
    EqualIgnoringCase(f.name, CitationFileName)
  }

  lemma IsCitationFileLower(f: RepoFile)
    ensures IsCitationFile(f) <==> Lower(f.name) == CitationFileName
  {
    EqualIgnoringCaseLower(f.name, CitationFileName);
    CitationFileNameLower();
  }

  lemma CitationFileNameLower()
    ensures Lower(CitationFileName) == CitationFileName
  {
    assert NoUpper(CitationFileName);
    NoUpperLower(CitationFileName);
  }

  /** The texts searched, in order: the README, each citation.cff file, the description. */
  function Sources(readme: Option<string>, files: seq<RepoFile>, description: Option<string>): seq<string> {
    (if readme.Some? then [readme.value] else []) + CitationTexts(files)
      + (if description.Some? then [description.value] else [])
  }

  function CitationTexts(files: seq<RepoFile>): seq<string> {
    if files == [] then [] else CitationText(files[0]) + CitationTexts(files[1..])
  }

  /** The text a listing entry contributes: its content when it is a citation.cff that was fetched. */
  function CitationText(f: RepoFile): seq<string> {
    if IsCitationFile(f) && f.content.Some? then [f.content.value] else []
  }

  /** The DOI of the first text that holds one. */
  function FirstDoi(texts: seq<string>): (r: Option<string>)
    ensures r.Some? ==> DoiShaped(r.value)
  {
    if texts == [] then None
    else if FindDoi(texts[0]).Some? then FindDoi(texts[0])
    else FirstDoi(texts[1..])
  }

  /** The index of the first text holding a DOI, |texts| when none does. */
  function FirstHolder(texts: seq<string>): (k: nat)
    ensures k <= |texts|
    ensures forall j :: 0 <= j < k ==> FindDoi(texts[j]).None?
    ensures k < |texts| ==> FindDoi(texts[k]).Some?
  {
    if texts == [] then 0
    else if FindDoi(texts[0]).Some? then 0
    else
      var k := FirstHolder(texts[1..]);
      assert forall j :: 1 <= j < |texts| ==> texts[j] == texts[1..][j - 1];
      k + 1
  }

  /** The DOI found is that of the first text holding one; None exactly when no text holds one. */
  lemma {:induction false} FirstDoiSpec(texts: seq<string>)
    ensures FirstDoi(texts) == if FirstHolder(texts) < |texts| then FindDoi(texts[FirstHolder(texts)]) else None
  {
    if texts != [] && FindDoi(texts[0]).None? {
      FirstDoiSpec(texts[1..]);
    }
  }

  lemma FirstDoiAppend(a: seq<string>, b: seq<string>)
    ensures FirstDoi(a + b) == if FirstDoi(a).Some? then FirstDoi(a) else FirstDoi(b)
    decreases |a|
  {
    if a != [] {
      assert (a + b)[1..] == a[1..] + b;
      FirstDoiAppend(a[1..], b);
    } else {
      assert a + b == b;
    }
  }

  /**
   * extract_doi_from_repo: the README first, then every file whose name is
   * citation.cff in any capitalisation, in listing order, then the
   * description; the first DOI found wins.  A fetch that fails or a
   * missing description contributes nothing.
   */
  method ExtractDoi(readme: Option<string>, files: seq<RepoFile>, description: Option<string>) returns (doi: Option<string>)
    ensures doi == FirstDoi(Sources(readme, files, description))
  {
    SourcesOrder(readme, files, description);
    if readme.Some? {
      var found := FindDoi(readme.value);
      if found.Some? {
        return found;
      }
    }
    for i := 0 to |files|
      invariant FirstDoi(CitationTexts(files[i..])) == FirstDoi(CitationTexts(files))
    {
      var f := files[i];
      CitationStep(files, i);
      if IsCitationFile(f) && f.content.Some? {
        var found := FindDoi(f.content.value);
        if found.Some? {
          return found;
        }
      }
    }
    assert files[|files|..] == [];
    if description.Some? {
      doi := FindDoi(description.value);
    } else {
      doi := None;
    }
  }

  /** The three places are searched one after the other. */
  lemma SourcesOrder(readme: Option<string>, files: seq<RepoFile>, description: Option<string>)
    ensures FirstDoi(Sources(readme, files, description)) ==
      if readme.Some? && FindDoi(readme.value).Some? then FindDoi(readme.value)
      else if FirstDoi(CitationTexts(files)).Some? then FirstDoi(CitationTexts(files))
      else if description.Some? then FindDoi(description.value)
      else None
  {
    var first: seq<string> := if readme.Some? then [readme.value] else [];
    var last: seq<string> := if description.Some? then [description.value] else [];
    assert Sources(readme, files, description) == first + CitationTexts(files) + last;
    FirstDoiAppend(first + CitationTexts(files), last);
    FirstDoiAppend(first, CitationTexts(files));
    if readme.Some? {
      FirstDoiSingle(readme.value);
    }
    if description.Some? {
      FirstDoiSingle(description.value);
    }
  }

  /** The listing is searched entry by entry, a citation.cff with a DOI ending the search. */
  lemma CitationStep(files: seq<RepoFile>, i: nat)
    requires i < |files|
    ensures FirstDoi(CitationTexts(files[i..])) ==
      if IsCitationFile(files[i]) && files[i].content.Some? && FindDoi(files[i].content.value).Some?
      then FindDoi(files[i].content.value)
      else FirstDoi(CitationTexts(files[i + 1..]))
  {
    assert files[i..][0] == files[i] && files[i..][1..] == files[i + 1..];
    var rest := CitationTexts(files[i + 1..]);
    if IsCitationFile(files[i]) && files[i].content.Some? {
      var t := files[i].content.value;
      assert ([t] + rest)[0] == t && ([t] + rest)[1..] == rest;
    } else {
      assert [] + rest == rest;
    }
  }

  lemma FirstDoiSingle(t: string)
    ensures FirstDoi([t]) == FindDoi(t)
  {
    assert [t][1..] == [];
  }

  /** A DOI in the README is the answer, whatever the other texts hold. */
  lemma ReadmeFirst(readme: string, files: seq<RepoFile>, description: Option<string>)
    requires FindDoi(readme).Some?
    ensures FirstDoi(Sources(Some(readme), files, description)) == FindDoi(readme)
  {
  }

  // -----------------------------------------------------------------------
  // get_paper_details_from_openalex

  const OpenAlexApiUrl: string := "https://api.openalex.org"

  datatype Concept = Concept(displayName: string, level: Option<int>)

  /** The OpenAlex work record, as far as it is read here. */
  datatype PaperData = PaperData(concepts: seq<Concept>)

  /** The record returned, with its added `domains` list. */
  datatype PaperDetails = PaperDetails(data: PaperData, domains: seq<string>)

  /** `[c['display_name'] for c in concepts if c.get('level') == 0]` */
  function Domains(concepts: seq<Concept>): (r: seq<string>)
    ensures |r| <= |concepts|
    ensures forall d :: d in r <==> exists i :: 0 <= i < |concepts| && concepts[i].level == Some(0) && concepts[i].displayName == d
  {
    if concepts == [] then []
    else
      var c := concepts[|concepts| - 1];
      var init := concepts[..|concepts| - 1];
      var r := Domains(init) + (if c.level == Some(0) then [c.displayName] else []);
      assert forall i :: 0 <= i < |init| ==> concepts[i] == init[i];
      r
  }

  /** The comprehension keeps the concepts' order: the domains of a concatenation are the concatenated domains. */
  lemma {:induction false} DomainsAppend(a: seq<Concept>, b: seq<Concept>)
    ensures Domains(a + b) == Domains(a) + Domains(b)
    decreases |b|
  {
    if b == [] {
      assert a + b == a;
    } else {
      var n := |b| - 1;
      DomainsAppend(a, b[..n]);
      assert (a + b)[..|a + b| - 1] == a + b[..n];
      assert (a + b)[|a + b| - 1] == b[n];
    }
  }

  /**
   * get_paper_details_from_openalex: the DOI is lowercased and, unless it
   * starts with "10.", no request is made and the answer is None.
   * Otherwise `response` is the outcome of the one request (None when it
   * raised), and the answer carries the level-0 concept names as domains.
   * `requested` is the URL requested, if any.
   */
  function GetPaperDetails(doi: string, response: Option<PaperData>): (r: (Option<string>, Option<PaperDetails>))
    ensures r.0.None? <==> !StartsWith(Lower(doi), "10.")
    ensures r.0.Some? ==> r.0.value == OpenAlexApiUrl + "/works/doi:" + Lower(doi)
    ensures r.1.Some? <==> StartsWith(Lower(doi), "10.") && response.Some?
    ensures r.1.Some? ==> r.1.value.data == response.value && r.1.value.domains == Domains(response.value.concepts)
  {
    var formatted := Lower(doi);
    if !StartsWith(formatted, "10.") then (None, None)
    else
      var url := OpenAlexApiUrl + "/works/doi:" + formatted;
      match response
      case None => (Some(url), None)
      case Some(data) => (Some(url), Some(PaperDetails(data, Domains(data.concepts))))
  }

  // -----------------------------------------------------------------------
  // get_other_papers_by_authors

  datatype Work = Work(title: Option<string>, year: Option<int>, doi: Option<string>, concepts: seq<string>)

  /** One response of the works endpoint: a failure, or results with `meta.next_cursor` (None when absent, null or empty). */
  datatype WorksReply = WorksFailed | WorksPage(results: seq<Work>, nextCursor: Option<string>)

  /** The record stored for another paper. */
  datatype PaperInfo = PaperInfo(title: Option<string>, year: Option<int>, doi: string, concepts: seq<string>)

  datatype AuthorInfo = AuthorInfo(name: Option<string>, authorId: Option<string>, otherPapers: seq<PaperInfo>)

  /** The works of one page other than the analysed paper, compared by lowercased DOI. */
  function Kept(works: seq<Work>, doi: string): (r: seq<PaperInfo>)
    ensures |r| <= |works|
  {
    if works == [] then []
    else
      var w := works[|works| - 1];
      var paperDoi := OrEmpty(w.doi);
      Kept(works[..|works| - 1], doi)
        + (if !EqualIgnoringCase(paperDoi, doi) then [PaperInfo(w.title, w.year, paperDoi, w.concepts)] else [])
  }

  lemma KeptSnoc(works: seq<Work>, j: nat, doi: string)
    requires j < |works|
    ensures Kept(works[..j + 1], doi) == Kept(works[..j], doi)
      + (if !EqualIgnoringCase(OrEmpty(works[j].doi), doi)
         then [PaperInfo(works[j].title, works[j].year, OrEmpty(works[j].doi), works[j].concepts)] else [])
  {
    assert works[..j + 1][..j] == works[..j];
  }

  /**
   * The papers gathered from request k on: the k-th request is answered
   * by replies[k]; a failure, or a request beyond the list, ends the walk,
   * and so does a page without a next cursor, after its results are kept.
   */
  function CursorWalk(replies: seq<WorksReply>, doi: string, k: nat): seq<PaperInfo>
    decreases |replies| - k
  {
    if k >= |replies| then []
    else match replies[k]
      case WorksFailed => []
      case WorksPage(results, next) =>
        Kept(results, doi) + (if Truthy(next) then CursorWalk(replies, doi, k + 1) else [])
  }

  /** None of the papers has the analysed DOI, compared case-insensitively. */
  predicate Excludes(papers: seq<PaperInfo>, doi: string) {
    forall i :: 0 <= i < |papers| ==> !EqualIgnoringCase(papers[i].doi, doi)
  }

  lemma {:induction false} KeptExcludes(works: seq<Work>, doi: string)
    ensures Excludes(Kept(works, doi), doi)
  {
    if works != [] {
      KeptExcludes(works[..|works| - 1], doi);
    }
  }

  /** Every page's results are filtered, so the walk never gathers the analysed paper. */
  lemma {:induction false} CursorWalkExcludes(replies: seq<WorksReply>, doi: string, k: nat)
    ensures Excludes(CursorWalk(replies, doi, k), doi)
    decreases |replies| - k
  {
    if k < |replies| && replies[k].WorksPage? {
      KeptExcludes(replies[k].results, doi);
      if Truthy(replies[k].nextCursor) {
        CursorWalkExcludes(replies, doi, k + 1);
      }
    }
  }

  /** The `while True` loop for one author. */
  method OtherPapersOf(replies: seq<WorksReply>, doi: string) returns (papers: seq<PaperInfo>)
    ensures papers == CursorWalk(replies, doi, 0)
  {
    ghost var target := CursorWalk(replies, doi, 0);
    papers := [];
    var k := 0;
    while k < |replies|
      invariant papers + CursorWalk(replies, doi, k) == target
      decreases |replies| - k
    {
      CursorWalkStep(replies, doi, k, papers, target);
      if replies[k].WorksFailed? {
        return;
      }
      var kept := KeepOthers(replies[k].results, doi);
      papers := papers + kept;
      if !Truthy(replies[k].nextCursor) {
        return;
      }
      k := k + 1;
    }
    assert papers + [] == papers;
  }

  /** One turn of the cursor loop: a failure ends the walk, a page adds its kept works. */
  lemma CursorWalkStep(replies: seq<WorksReply>, doi: string, k: nat, papers: seq<PaperInfo>, target: seq<PaperInfo>)
    requires k < |replies| && papers + CursorWalk(replies, doi, k) == target
    ensures replies[k].WorksFailed? ==> papers == target
    ensures replies[k].WorksPage? && !Truthy(replies[k].nextCursor) ==> papers + Kept(replies[k].results, doi) == target
    ensures replies[k].WorksPage? && Truthy(replies[k].nextCursor) ==>
      (papers + Kept(replies[k].results, doi)) + CursorWalk(replies, doi, k + 1) == target
  {
    if replies[k].WorksFailed? {
      assert papers + [] == papers;
    } else {
      CursorWalkPage(replies, doi, k);
      var rest := if Truthy(replies[k].nextCursor) then CursorWalk(replies, doi, k + 1) else [];
      assert papers + (Kept(replies[k].results, doi) + rest) == (papers + Kept(replies[k].results, doi)) + rest;
      if !Truthy(replies[k].nextCursor) {
        assert Kept(replies[k].results, doi) + [] == Kept(replies[k].results, doi);
      }
    }
  }

  /** The results loop of one page. */
  method KeepOthers(results: seq<Work>, doi: string) returns (kept: seq<PaperInfo>)
    ensures kept == Kept(results, doi)
  {
    kept := [];
    for j := 0 to |results|
      invariant kept == Kept(results[..j], doi)
    {
      KeptSnoc(results, j, doi);
      var w := results[j];
      var paperDoi := OrEmpty(w.doi);
      if !EqualIgnoringCase(paperDoi, doi) {
        kept := kept + [PaperInfo(w.title, w.year, paperDoi, w.concepts)];
      }
    }
    assert results[..|results|] == results;
  }

  lemma CursorWalkPage(replies: seq<WorksReply>, doi: string, k: nat)
    requires k < |replies| && replies[k].WorksPage?
    ensures CursorWalk(replies, doi, k) == Kept(replies[k].results, doi)
      + (if Truthy(replies[k].nextCursor) then CursorWalk(replies, doi, k + 1) else [])
  {
  }

  /** An author as get_other_papers_by_authors leaves it. */
  function WithOtherPapers(author: AuthorInfo, doi: string, replies: string -> seq<WorksReply>): AuthorInfo {
    if Truthy(author.authorId) then author.(otherPapers := CursorWalk(replies(author.authorId.value), doi, 0))
    else author
  }

  /**
   * get_other_papers_by_authors: every author with an id gets the papers of
   * its own cursor walk (`replies(id)`), other authors are left as they are.
   */
  method GetOtherPapersByAuthors(authors: seq<AuthorInfo>, doi: string, replies: string -> seq<WorksReply>)
    returns (updated: seq<AuthorInfo>)
    ensures |updated| == |authors|
    ensures forall i :: 0 <= i < |authors| ==> updated[i] == WithOtherPapers(authors[i], doi, replies)
  {
    updated := [];
    for i := 0 to |authors|
      invariant |updated| == i
      invariant forall j :: 0 <= j < i ==> updated[j] == WithOtherPapers(authors[j], doi, replies)
    {
      var author := authors[i];
      if Truthy(author.authorId) {
        var papers := OtherPapersOf(replies(author.authorId.value), doi);
        author := author.(otherPapers := papers);
      }
      updated := updated + [author];
    }
  }

  /**
   * After the update no stored paper of the author has the analysed DOI,
   * compared case-insensitively, provided none had it before; the papers
   * of an author without an id are left untouched.
   */
  lemma OtherPapersExcludeDoi(author: AuthorInfo, doi: string, replies: string -> seq<WorksReply>)
    requires forall p :: p in author.otherPapers ==> Lower(p.doi) != Lower(doi)
    ensures forall p :: p in WithOtherPapers(author, doi, replies).otherPapers ==> Lower(p.doi) != Lower(doi)
    ensures !Truthy(author.authorId) ==> WithOtherPapers(author, doi, replies).otherPapers == author.otherPapers
  {
    var papers := WithOtherPapers(author, doi, replies).otherPapers;
    if Truthy(author.authorId) {
      CursorWalkExcludes(replies(author.authorId.value), doi, 0);
      forall p | p in papers
        ensures Lower(p.doi) != Lower(doi)
      {
        EqualIgnoringCaseLower(p.doi, doi);
      }
    }
  }
}
