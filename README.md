# Verified model of the moss harvesting scripts

This project is a Dafny model of the harvesting scripts of the moss repository. These scripts collect research-software metadata from GitHub, OpenAlex and the ecosyste.ms papers API. The model covers the parts whose behaviour can be stated exactly:

- **The GitHub client.** The retry loop of `github_api_request`, the `Link` header parser `get_next_link`, and the page walkers (`get_contributors`, `get_repository_issues`, `get_issue_comments`, `get_release_downloads`, `get_total_downloads`).
- **The multi-query repository search.** `search_repositories_with_queries` merges results by repository id.
- **Scoring and classification in repofinder.**
  - Keyword search and counting.
  - Hierarchical keyword tallies.
  - The project-type vote.
  - University-identifier points.
  - Contributor and owner affiliation points.
  - The set of active committers.
  - `convert_sets_to_lists`.
- **Paper discovery and contributor analysis in repo_cite.**
  - The DOI search (`extract_doi_from_repo`) and the OpenAlex lookup with its DOI prefix check.
  - The cursor walk over an author's other works.
  - Role percentiles, author/contributor connections, the affiliation taken from a profile, and the activity score.
  - `parse_repository_input`.
- **The entity registry of repo_cite's `analyze_repository`.** It is modelled as a class `Registry.Store` that holds four dictionaries: people, papers, projects and institutions. It does get-or-create of institutions by name and of contributors by GitHub username, and keeps two-way links.
- **The two ecosyste.ms crawlers.** `EcosystemsCrawler.Crawler` models `scripts/ecosyst.ms-api.py`, and `EcosystemsSeeds.Sweeper` models the older `python-scripts/ecosyst.ms-api.py`. Both are classes whose fields are the scripts' module-level row list, CSV output and per-kind id sets.

The network is an input throughout:

- The GitHub client gets a function from attempt number to outcome.
- A page walker gets the finite list of replies it would receive.
- The ecosyste.ms crawlers get a `World` that answers every URL.
- Decode failures are values (`Malformed`, `WorksFailed`).

Imperative code is imperative here too. Loops are methods with invariants. Every method is proved equal to a specification function. The properties the scripts rely on are proved as lemmas about those functions: dedup invariants, two-way links, search order, tie rules and counts.

Python's string operations are modelled in `Common`: `lower` on ASCII letters, `strip` with Python's whitespace set, `split`, `count`, `startswith` and `in`.

`hex/biz_logic/scripts/jring_o/repo_cite/repo_cite.py` and `src/backend/biz_logic/scripts/jring_o/repo_cite/repo_cite.py` are the same file. In repofinder and repo_cite, `github_api_request`, `get_next_link` and `search_repositories_with_queries` differ only in formatting and logger names. One model serves each of these.

Where a descriptive summary of the program disagrees with its code, the model follows the code:

- **Role percentile.** `classify_contributor_roles` uses `(idx + 1) / n` with `idx` 0-based. Position `idx` is Core iff `idx < n / 10` (integer division) and Occasional iff `idx < n / 2`.
- **Rate-limit branch.** In `github_api_request`, a 403 is raised by `raise_for_status()` before the status branches, so the rate-limit wait is never reached.
- **Dictionary order.** The registry's `next(...)` lookups depend on dictionary insertion order, which the model keeps explicitly (`personOrder`, `institutionOrder`).

## Model

| member | source | states |
|---|---|---|
| GitHubClient.HandlerOf | src/backend/biz_logic/scripts/jring_o/repo_finder/repofinder.py:56-90 | An attempt is handled as success exactly on status 200. It goes to the exception branch exactly on a connection failure or a status from 400 to 599, because `raise_for_status()` runs inside the `try`. Only the remaining statuses reach the `else` branch. Neither rate-limit outcome can occur. |
| GitHubClient.Request | src/backend/biz_logic/scripts/jring_o/repo_finder/repofinder.py:44-91 | Between 1 and `MAX_RETRIES` = 3 requests are made. The call succeeds iff one of the three attempts answers 200; it then stops at the first such attempt and returns its payload. When it raises, all three attempts were made and the error is the one the third attempt yields: the re-raised timeout or request error, an HTTP error, or the generic "failed after 3 attempts" exception. |
| LinkHeader.FirstNextFinds | src/backend/biz_logic/scripts/jring_o/repo_finder/repofinder.py:106-116 | The entry search returns None iff no comma-separated entry has `rel="next"` as its stripped second segment. Otherwise it returns the bracket-stripped URL of the first entry that has it. |
| LinkHeader.NextLinkAbsent | src/backend/biz_logic/scripts/jring_o/repo_finder/repofinder.py:103-105 | A missing or empty `Link` header gives None. A present header gives None iff none of its entries announces the next page. |
| LinkHeader.NextLinkFirst | hex/biz_logic/scripts/jring_o/repo_cite/repo_cite.py:99-116 | When a next link is found, it is the URL of the first entry, in header order, whose second segment is `rel="next"`. |
| LinkHeader.PieceParses | src/backend/biz_logic/scripts/jring_o/repo_finder/repofinder.py:108-114 | A rendered entry `<url>; rel="r"` is a next entry iff `r` is `next`. Its parsed URL is `url`, brackets removed. |
| LinkHeader.NextLinkOfRendered | src/backend/biz_logic/scripts/jring_o/repo_finder/repofinder.py:93-116 | Round trip: parsing a header rendered from well-formed links gives the URL of the first link whose rel is `next`, and None when there is none. |
| Pagination.LinkWalkSpec | src/backend/biz_logic/scripts/jring_o/repo_finder/repofinder.py:293-311 | The pages gathered by a Link-following walk come in request order, and each was accepted. Every page but the last announced a next link. The walk stopped at a rejected or failed reply, or after a page without a next link. |
| Pagination.FollowLinks | src/backend/biz_logic/scripts/jring_o/repo_finder/repofinder.py:293-311 | The `while url:` loop returns the concatenation of the pages of the Link walk. |
| Pagination.GetContributors | src/backend/biz_logic/scripts/jring_o/repo_finder/repofinder.py:283-314 | The contributors are the concatenation of the Link walk's pages. An empty page ends the walk, so no gathered page is empty. |
| Pagination.IssuesOnly | src/backend/biz_logic/scripts/jring_o/repo_finder/repofinder.py:667-673 | Keeps exactly the issues that are not pull requests, without adding any. |
| Pagination.GetRepositoryIssues | src/backend/biz_logic/scripts/jring_o/repo_finder/repofinder.py:644-678 | The issues are the non-pull-request items of the Link walk's pages; no pull request is returned. |
| Pagination.TotalDownloadsAppend | src/backend/biz_logic/scripts/jring_o/repo_finder/repofinder.py:876-885 | The download total is additive over concatenated release lists. |
| Pagination.SumDownloads | src/backend/biz_logic/scripts/jring_o/repo_finder/repofinder.py:881-883 | The per-release loop returns the sum of its assets' download counts. |
| Pagination.GetReleaseDownloads | src/backend/biz_logic/scripts/jring_o/repo_finder/repofinder.py:855-890 | The total is the sum of download counts over every asset of every release the walk fetched. |
| Pagination.PageWalkGathers | src/backend/biz_logic/scripts/jring_o/repo_finder/repofinder.py:690-708 | Page number `q` of a page-number walk contributes the body of page `q`, in increasing page order. |
| Pagination.PageWalkContinues | src/backend/biz_logic/scripts/jring_o/repo_finder/repofinder.py:700-706 | Every page the walk passed was full, i.e. satisfied the continuation rule. |
| Pagination.PageWalkStops | src/backend/biz_logic/scripts/jring_o/repo_finder/repofinder.py:696-708 | The walk stops after the first page that is not full, or at the first page that fails. |
| Pagination.PageWalkSpec | src/backend/biz_logic/scripts/jring_o/repo_finder/repofinder.py:680-712 | Combines the three facts above: the pages in order, the continuation rule on every page but the last, and the reason the walk stopped. |
| Pagination.WalkPages | src/backend/biz_logic/scripts/jring_o/repo_finder/repofinder.py:686-712 | The `page += 1` loop returns the concatenation of the page walk. The number of requests is the number of pages gathered, or one more when the walk ended on a failed or empty page. |
| Pagination.GetIssueComments | src/backend/biz_logic/scripts/jring_o/repo_finder/repofinder.py:680-712 | The comments are pages 1..k concatenated, where every page before k holds at least 100 items. Either page k is short or page k + 1 failed. The request count is k or k + 1. |
| Pagination.TallyDownloads | hex/biz_logic/scripts/jring_o/repo_cite/repo_cite.py:725-749 | `total_downloads` is the sum of download counts over every asset of every fetched release. |
| Pagination.RecentCountIsPerAsset | hex/biz_logic/scripts/jring_o/repo_cite/repo_cite.py:738-744 | `recent_releases_count` is at least the number of recent releases that have assets. It equals that number iff no recent release has more than one asset: the count is per asset, not per release. |
| Pagination.TallyRelease | hex/biz_logic/scripts/jring_o/repo_cite/repo_cite.py:729-744 | One turn of the release loop adds that release's contribution to the three totals. |
| Pagination.GetTotalDownloads | hex/biz_logic/scripts/jring_o/repo_cite/repo_cite.py:716-750 | The three totals are those of the releases gathered by the page walk that follows the `Link` next relation. |
| RepoSearch.Tag | src/backend/biz_logic/scripts/jring_o/repo_finder/repofinder.py:141-151 | Each item of a page is paired with the query term that fetched it, in order. |
| RepoSearch.MergeSnoc | src/backend/biz_logic/scripts/jring_o/repo_finder/repofinder.py:143-151 | Merging one more hit adds its query to an existing entry, or creates the entry `{repo_data, {query}}`. |
| RepoSearch.MergeKeys | src/backend/biz_logic/scripts/jring_o/repo_finder/repofinder.py:143-151 | The merged dictionary has an entry for an id iff some hit carries that id. |
| RepoSearch.MergeQueries | src/backend/biz_logic/scripts/jring_o/repo_finder/repofinder.py:145-150 | An entry's `queries` set holds exactly the terms of the hits with that id. |
| RepoSearch.MergeFirstSeen | src/backend/biz_logic/scripts/jring_o/repo_finder/repofinder.py:145-151 | An entry's `repo_data` is the record of the first hit with that id; later hits never overwrite it. |
| RepoSearch.HitsMembers | src/backend/biz_logic/scripts/jring_o/repo_finder/repofinder.py:130-157 | A term-id pair appears among the hits iff the term is one of the queries and its own walk fetched a record with that id. |
| RepoSearch.SearchSpec | hex/biz_logic/scripts/jring_o/repo_cite/repo_cite.py:118-155 | One entry per repository id fetched by any query. Its `queries` set is exactly the queries whose walks fetched it. Its record carries that id. A failed or empty response ends only that query's walk. |
| RepoSearch.AddHits | src/backend/biz_logic/scripts/jring_o/repo_finder/repofinder.py:143-151 | The in-place loop over one page leaves the dictionary equal to the merge of every hit so far. |
| RepoSearch.SearchRepositories | src/backend/biz_logic/scripts/jring_o/repo_finder/repofinder.py:118-157 | The dictionary built in place is the merge of all hits of all query walks. |
| Keywords.ContainsKeywords | src/backend/biz_logic/scripts/jring_o/repo_finder/repofinder.py:205-221 | True iff some keyword occurs in the lowercased text as a whole word (`\b…\b`). |
| Keywords.MatchedKeywordsMembers | src/backend/biz_logic/scripts/jring_o/repo_finder/repofinder.py:234-239 | A keyword is listed as matched iff it is one of the keywords and occurs as a whole word. |
| Keywords.CountPositiveIffContains | src/backend/biz_logic/scripts/jring_o/repo_finder/repofinder.py:205-240 | The match count is positive iff `contains_keywords` holds, because both use the same per-keyword test. |
| Keywords.CountKeywordMatches | src/backend/biz_logic/scripts/jring_o/repo_finder/repofinder.py:223-240 | `count == len(matched)`, and `matched` lists, in keyword order, the keywords found in the lowercased text. |
| Keywords.Tokens | src/backend/biz_logic/scripts/jring_o/repo_finder/repofinder.py:262 | `\b\w+\b` tokenisation: every token is a non-empty run of word characters. |
| Keywords.WordRun | src/backend/biz_logic/scripts/jring_o/repo_finder/repofinder.py:262 | A token is the longest run of word characters at its position. |
| Keywords.ScoresCount | src/backend/biz_logic/scripts/jring_o/repo_finder/repofinder.py:264-279 | Each level's score for a name counts the keyword entries with that name at that level whose keywords meet the repository's words. A name appears iff that count is positive. |
| Keywords.MatchedWordsSpec | src/backend/biz_logic/scripts/jring_o/repo_finder/repofinder.py:264-279 | A word is reported as matched iff it is one of the repository's words and a keyword of some entry. |
| Keywords.TalliesStep | src/backend/biz_logic/scripts/jring_o/repo_finder/repofinder.py:266-279 | One entry either bumps all four levels by one, when its keywords meet the words, or changes nothing. |
| Keywords.MatchRepositoryKeywords | src/backend/biz_logic/scripts/jring_o/repo_finder/repofinder.py:242-281 | The score dictionaries and matched set built in place are those of the tally over all entries. |
| Keywords.ProjectType | src/backend/biz_logic/scripts/jring_o/repo_finder/repofinder.py:619-642 | `'Other'` iff all three scores are 0. |
| Keywords.ProjectTypeWinner | src/backend/biz_logic/scripts/jring_o/repo_finder/repofinder.py:625-634 | A unique maximum yields that category's name. |
| Keywords.ProjectTypeTieClassResearch | src/backend/biz_logic/scripts/jring_o/repo_finder/repofinder.py:635-640 | A tie between Class Project and Research Project above Syllabus yields `Tie: Class Project, Research Project`. |
| Keywords.ProjectTypeTieClassSyllabus | src/backend/biz_logic/scripts/jring_o/repo_finder/repofinder.py:635-640 | A tie between Class Project and Syllabus yields `Tie: Class Project, Syllabus`. |
| Keywords.ProjectTypeTieResearchSyllabus | src/backend/biz_logic/scripts/jring_o/repo_finder/repofinder.py:635-640 | A tie between Research Project and Syllabus yields `Tie: Research Project, Syllabus`. |
| Keywords.ProjectTypeTieAll | src/backend/biz_logic/scripts/jring_o/repo_finder/repofinder.py:635-640 | A three-way tie names all three, in the fixed order Class Project, Research Project, Syllabus. |
| Keywords.DetermineProjectType | src/backend/biz_logic/scripts/jring_o/repo_finder/repofinder.py:589-642 | The three match lists are the keyword matches of the space-joined name, description, topics, README and file names, each walked in the listed keyword order. The type is the vote over their sizes, which any other order of the keyword sets leaves unchanged (Keywords.ProjectTypeOrderFree). |
| Affiliation.ContainsIdentifier | src/backend/biz_logic/scripts/jring_o/repo_finder/repofinder.py:1136-1151 | True iff some lowercased identifier is a substring of the lowercased text. |
| Affiliation.IdentifierMatchesSpec | src/backend/biz_logic/scripts/jring_o/repo_finder/repofinder.py:1165-1173 | `matches` holds exactly the keys of `points_per_occurrence` that occur in the lowercased text, each with its non-overlapping occurrence count. |
| Affiliation.CountIdentifierOccurrences | src/backend/biz_logic/scripts/jring_o/repo_finder/repofinder.py:1153-1173 | The loop returns the points (sum over keys of count × points) and the matches of the specification. The `identifiers` argument is not used. |
| Affiliation.UniformPoints | src/backend/biz_logic/scripts/jring_o/repo_finder/repofinder.py:1236-1241 | With one points value for every identifier, the points are that value times the total occurrence count. |
| Affiliation.UniformMatches | src/backend/biz_logic/scripts/jring_o/repo_finder/repofinder.py:1236-1241 | With uniform points, an identifier is matched iff it occurs in the text. |
| Affiliation.OwnerMatchCounts | src/backend/biz_logic/scripts/jring_o/repo_finder/repofinder.py:1253-1256 | With uniform weights, each matched identifier maps to the number of its non-overlapping occurrences in the lowercased text. |
| Affiliation.AnalyzeOwnerForAffiliation | src/backend/biz_logic/scripts/jring_o/repo_finder/repofinder.py:1223-1257 | A non-organisation owner scores 0 with no matches. An organisation scores the uniform points on its name, description, blog, email and location, and matches exactly the identifiers found there, each with its occurrence count (the `matches` dictionary). |
| Affiliation.RepoPointsTotal | src/backend/biz_logic/scripts/jring_o/repo_finder/repofinder.py:1205-1214 | The other-repositories points are 5 times the total number of associated repositories. |
| Affiliation.EmailMatchedMembers | src/backend/biz_logic/scripts/jring_o/repo_finder/repofinder.py:1186-1193 | A username is listed under email matches iff some contributor with that username has an email containing the university's email domain, compared in lower case. |
| Affiliation.AnalyzeContributorsForAffiliation | src/backend/biz_logic/scripts/jring_o/repo_finder/repofinder.py:1175-1221 | 15 points per email match, 10 per profile match and 5 per associated repository. The total is the sum of the three categories' points. |
| Affiliation.GetActiveContributors | src/backend/biz_logic/scripts/jring_o/repo_finder/repofinder.py:994-1009 | The set holds exactly the author logins present on some commit. |
| Affiliation.ConvertSetsToLists | src/backend/biz_logic/scripts/jring_o/repo_finder/repofinder.py:1816-1833 | Sets become lists of their members; dictionaries keep their keys in order; atoms are unchanged. |
| Affiliation.ConvertRemovesSets | src/backend/biz_logic/scripts/jring_o/repo_finder/repofinder.py:1816-1833 | The result holds no set at any depth. |
| Affiliation.ConvertFixesSetFree | src/backend/biz_logic/scripts/jring_o/repo_finder/repofinder.py:1816-1833 | A value without sets is returned unchanged. |
| Affiliation.ConvertIdempotent | src/backend/biz_logic/scripts/jring_o/repo_finder/repofinder.py:1816-1833 | Converting twice is the same as converting once. |
| ContributorAnalysis.RoleBands | src/backend/biz_logic/scripts/jring_o/repo_cite/repo_cite.py:523-530 | Position `idx` of `n` (0-based) is Core iff `idx < n/10`, Occasional iff `n/10 <= idx < n/2`, and One-time otherwise. |
| ContributorAnalysis.RoleCounts | src/backend/biz_logic/scripts/jring_o/repo_cite/repo_cite.py:523-530 | There are exactly ⌊n/10⌋ Core and ⌊n/2⌋ − ⌊n/10⌋ Occasional positions, and n − ⌊n/2⌋ One-time ones. With fewer than 10 contributors nobody is Core. |
| ContributorAnalysis.CountRoleTotal | src/backend/biz_logic/scripts/jring_o/repo_cite/repo_cite.py:523-530 | Every position gets exactly one role. |
| ContributorAnalysis.InsertDescPermutes | src/backend/biz_logic/scripts/jring_o/repo_cite/repo_cite.py:518 | Inserting into the sorted list adds exactly the new element. |
| ContributorAnalysis.SortDescSpec | src/backend/biz_logic/scripts/jring_o/repo_cite/repo_cite.py:518 | `sorted(..., key=commits, reverse=True)`: the result is in non-increasing commit order, is a permutation of the input, and is stable (equal counts keep their input order). |
| ContributorAnalysis.RolesSpec | src/backend/biz_logic/scripts/jring_o/repo_cite/repo_cite.py:520-534 | A login has a role iff it occurs in the sorted list. Its entry is the commits and role of its last occurrence, so a later duplicate overwrites an earlier one. |
| ContributorAnalysis.ClassifyContributorRoles | src/backend/biz_logic/scripts/jring_o/repo_cite/repo_cite.py:508-535 | The dictionary built in place is the role map of the stably sorted (login, commits) list. An empty input gives `{}`. |
| ContributorAnalysis.ContributorLinksMembers | src/backend/biz_logic/scripts/jring_o/repo_cite/repo_cite.py:468-471 | A contributor connection for a login exists iff some contributor with that login has its lowercased login or name among the lowercased author names. |
| ContributorAnalysis.ConnectContributors | src/backend/biz_logic/scripts/jring_o/repo_cite/repo_cite.py:468-471 | The contributor loop appends exactly the contributor connections. |
| ContributorAnalysis.ConnectParticipants | src/backend/biz_logic/scripts/jring_o/repo_cite/repo_cite.py:472-475 | The participant loop appends the participant connections after those already present. |
| ContributorAnalysis.AnalyzeConnections | src/backend/biz_logic/scripts/jring_o/repo_cite/repo_cite.py:458-476 | Contributor connections, then participant connections. There are at most \|contributors\| + \|participants\| of them, and no contributor connection follows a participant one. |
| ContributorAnalysis.Affiliation | src/backend/biz_logic/scripts/jring_o/repo_cite/repo_cite.py:488-505 | The stripped company when that is non-empty. Otherwise the text after the last `@` of a non-empty email. Otherwise `''` for a blank company and None when there is none. A failed fetch gives None. |
| ContributorAnalysis.AnalyzeContributorAffiliations | src/backend/biz_logic/scripts/jring_o/repo_cite/repo_cite.py:478-506 | One entry per contributor, in order, pairing its username with the affiliation derived from its profile. |
| ContributorAnalysis.ActivityScore | hex/biz_logic/scripts/jring_o/repo_cite/repo_cite.py:821-833 | commits + prs_opened + prs_merged + ½ × (issues_opened + issues_closed + discussion), missing keys counting 0, in exact rationals. |
| ContributorAnalysis.ActivityScoreMonotone | hex/biz_logic/scripts/jring_o/repo_cite/repo_cite.py:821-833 | The score never decreases when any count grows. |
| RepoInput.RemoveUnsafe | src/backend/biz_logic/scripts/jring_o/repo_cite/repo_cite.py:1578 | urlparse's removal of tab, CR and LF: none of them remains. |
| RepoInput.ParseNonUrl | src/backend/biz_logic/scripts/jring_o/repo_cite/repo_cite.py:1576-1592 | Input that is not an http(s) URL is stripped. It fails with "Invalid repository format" iff it has no `/`; otherwise it splits at the first `/` only, so the repository name may contain `/`. |
| RepoInput.ParseUrl | src/backend/biz_logic/scripts/jring_o/repo_cite/repo_cite.py:1577-1586 | An http(s) URL never fails with the format error. Its owner and repository name are path segments without `/`. |
| RepoInput.RepoUrlPath | src/backend/biz_logic/scripts/jring_o/repo_cite/repo_cite.py:1578-1579 | The path urlparse gives for `scheme://host/owner/repo…` starts with `/owner/repo`, query and fragment removed. |
| RepoInput.ParseRepoUrl | src/backend/biz_logic/scripts/jring_o/repo_cite/repo_cite.py:1571-1586 | `http(s)://host/owner/repo[/…][?…][#…]` parses to `(owner, repo)`. |
| RepoInput.SlashAfterOwner | src/backend/biz_logic/scripts/jring_o/repo_cite/repo_cite.py:1588-1592 | The split of `owner/repo` at its first `/` is `(owner, repo)` when the owner holds no `/`. |
| RepoInput.ParseOwnerSlashRepo | src/backend/biz_logic/scripts/jring_o/repo_cite/repo_cite.py:1588-1592 | `owner/repo` parses to `(owner, repo)` whenever the input does not start with `http://` or `https://`. |
| Doi.MatchShaped | hex/biz_logic/scripts/jring_o/repo_cite/repo_cite.py:166 | A match has the regex's shape: `10.`, 4 to 9 digits, `/`, one or more suffix characters. |
| Doi.FindDoiLeftmost | hex/biz_logic/scripts/jring_o/repo_cite/repo_cite.py:166-168 | `re.search` returns None iff no position starts a match; otherwise the match starts at the leftmost such position. |
| Doi.IsCitationFileLower | hex/biz_logic/scripts/jring_o/repo_cite/repo_cite.py:179 | A listing entry is a citation file iff its lowercased name is `citation.cff`. |
| Doi.FirstDoiSpec | hex/biz_logic/scripts/jring_o/repo_cite/repo_cite.py:160-207 | The DOI returned is that of the first text holding one, and None iff no text holds one. |
| Doi.ExtractDoi | hex/biz_logic/scripts/jring_o/repo_cite/repo_cite.py:156-207 | The search returns the first DOI of the README, then each `citation.cff` file in listing order, then the description. A failed fetch contributes nothing. |
| Doi.SourcesOrder | hex/biz_logic/scripts/jring_o/repo_cite/repo_cite.py:160-205 | The README is searched first, then the citation files, then the description. |
| Doi.CitationStep | hex/biz_logic/scripts/jring_o/repo_cite/repo_cite.py:178-191 | Listing entries are tried in order; a citation file with a DOI ends the search. |
| Doi.ReadmeFirst | hex/biz_logic/scripts/jring_o/repo_cite/repo_cite.py:166-170 | A DOI in the README is the answer, whatever the other sources hold. |
| Doi.Domains | hex/biz_logic/scripts/jring_o/repo_cite/repo_cite.py:224-225 | The domains are the display names of the concepts with level 0, in the concepts' order (see Doi.DomainsAppend). |
| Doi.GetPaperDetails | hex/biz_logic/scripts/jring_o/repo_cite/repo_cite.py:209-230 | The DOI is lowercased. No request is made, and the result is None, unless it starts with `10.`. Otherwise the URL is `…/works/doi:<doi>` and, when the request succeeds, the record carries its level-0 domains. |
| Doi.KeptExcludes | hex/biz_logic/scripts/jring_o/repo_cite/repo_cite.py:275-285 | No kept paper has the analysed DOI, compared case-insensitively. |
| Doi.CursorWalkExcludes | hex/biz_logic/scripts/jring_o/repo_cite/repo_cite.py:269-292 | No paper gathered by an author's cursor walk has the analysed DOI. |
| Doi.OtherPapersOf | hex/biz_logic/scripts/jring_o/repo_cite/repo_cite.py:268-292 | The `while True` loop returns the papers of the cursor walk. It stops at a failed request or at a page without a next cursor. |
| Doi.KeepOthers | hex/biz_logic/scripts/jring_o/repo_cite/repo_cite.py:275-285 | The results loop keeps each work whose DOI differs from the analysed one, in order. |
| Doi.GetOtherPapersByAuthors | hex/biz_logic/scripts/jring_o/repo_cite/repo_cite.py:253-295 | Every author is updated in place; an author with an id gets its own walk's papers. |
| Doi.OtherPapersExcludeDoi | hex/biz_logic/scripts/jring_o/repo_cite/repo_cite.py:257-295 | After the update no stored other paper has the analysed DOI. An author without an id keeps its `other_papers`. |
| Registry.FirstNamed | src/backend/biz_logic/scripts/jring_o/repo_cite/repo_cite.py:1360 | The institution found has the name asked for; None means no institution has it. |
| Registry.FirstNamedUnique | src/backend/biz_logic/scripts/jring_o/repo_cite/repo_cite.py:1360 | With distinct names, the institution found is the only one with that name. |
| Registry.FirstWithUsername | src/backend/biz_logic/scripts/jring_o/repo_cite/repo_cite.py:1419 | The person found has the username asked for; None means nobody has it. |
| Registry.ContributorsOf | src/backend/biz_logic/scripts/jring_o/repo_cite/repo_cite.py:1522 | The recomputed contributors are exactly the people whose `contributed_projects` hold the project. |
| Registry.LinkValid | src/backend/biz_logic/scripts/jring_o/repo_cite/repo_cite.py:1358-1373 | Linking a person to an institution by name keeps the registry valid: institution names distinct, keys fresh, and every affiliation, authorship and contribution link two-way. |
| Registry.LinkFacts | src/backend/biz_logic/scripts/jring_o/repo_cite/repo_cite.py:1360-1373 | The institution linked carries the name asked for. The person gains exactly that affiliation; no other person changes. |
| Registry.LinkNames | src/backend/biz_logic/scripts/jring_o/repo_cite/repo_cite.py:1360-1371 | Get-or-create by name never creates a second institution with an existing name. |
| Registry.LinkAllValid | src/backend/biz_logic/scripts/jring_o/repo_cite/repo_cite.py:1358-1373 | The affiliation loop keeps the registry valid and never removes anything. |
| Registry.LinkAllFacts | src/backend/biz_logic/scripts/jring_o/repo_cite/repo_cite.py:1358-1373 | The affiliation loop adds one affiliation per institution name to that person and touches nobody else. |
| Registry.AddAuthorValid | src/backend/biz_logic/scripts/jring_o/repo_cite/repo_cite.py:1336-1373 | One author entry keeps the registry valid and leaves the other papers alone. |
| Registry.AddAuthorFacts | src/backend/biz_logic/scripts/jring_o/repo_cite/repo_cite.py:1337-1373 | Both branches mint a fresh person, named after the author, whose only authored paper is this one, with one affiliation per institution entry. The paper lists that person last. |
| Registry.AddAuthorsValid | src/backend/biz_logic/scripts/jring_o/repo_cite/repo_cite.py:1336-1373 | The author loop keeps the registry valid and changes no other paper. |
| Registry.AddAuthorsFresh | src/backend/biz_logic/scripts/jring_o/repo_cite/repo_cite.py:1336-1355 | Authors are never deduplicated: the paper's authors become the old list followed by one new person per author entry, in order and all distinct. |
| Registry.AddCitedValid | src/backend/biz_logic/scripts/jring_o/repo_cite/repo_cite.py:1376-1389 | First-degree citations keep the registry valid. |
| Registry.AddCitedFacts | src/backend/biz_logic/scripts/jring_o/repo_cite/repo_cite.py:1376-1389 | The analysed paper gains the new ids, in order, as `cited_by_papers` entries and nothing else. The paper under each new id is built from its citation: DOI, title, concepts, and `cites_papers` naming the analysed paper. No other existing paper changes. |
| Registry.AddSecondDegreeValid | src/backend/biz_logic/scripts/jring_o/repo_cite/repo_cite.py:1394-1406 | Second-degree citations keep the registry valid and add one new paper each, under consecutive new ids. Each new paper is built from its citation, with `cited_by_papers` naming the analysed paper. No existing paper changes, the analysed one included. |
| Registry.AddPaperValid | src/backend/biz_logic/scripts/jring_o/repo_cite/repo_cite.py:1320-1406 | The paper block keeps the registry valid. |
| Registry.AddPaperFacts | src/backend/biz_logic/scripts/jring_o/repo_cite/repo_cite.py:1320-1373 | The new paper has a fresh id, the analysis's DOI and the project as its associated project. The project lists it. Its authors are fresh people, one per author entry. |
| Registry.AddContributorValid | src/backend/biz_logic/scripts/jring_o/repo_cite/repo_cite.py:1415-1467 | One contributor entry keeps the registry valid. |
| Registry.AddContributorFacts | src/backend/biz_logic/scripts/jring_o/repo_cite/repo_cite.py:1416-1451 | A contributor whose username is already known adds nobody and leaves the project unchanged. An unknown one becomes a new person with that username, contributing to the project and listed by it. |
| Registry.AddContributorsValid | src/backend/biz_logic/scripts/jring_o/repo_cite/repo_cite.py:1414-1467 | The contributor loop keeps the registry valid. |
| Registry.RecomputeValid | src/backend/biz_logic/scripts/jring_o/repo_cite/repo_cite.py:1522 | The final recomputation keeps the registry valid. The project's contributors are then exactly the people whose `contributed_projects` name it. |
| Registry.OpenProjectValid | src/backend/biz_logic/scripts/jring_o/repo_cite/repo_cite.py:1272-1317 | The project record gets a fresh id that nobody contributes to yet. |
| Registry.AnalyzeRepositoryValid | src/backend/biz_logic/scripts/jring_o/repo_cite/repo_cite.py:1271-1522 | Analysing a repository keeps the registry valid and grows it. The project gets a fresh id with its name and queries. |
| Registry.KnownContributorsNotAdded | src/backend/biz_logic/scripts/jring_o/repo_cite/repo_cite.py:1419-1437 | After the recount, the project's contributors are exactly the people contributing to it. Nobody who existed before the call is among them, even if their username is a contributor's. |
| Registry.AnalyzePaperAuthors | src/backend/biz_logic/scripts/jring_o/repo_cite/repo_cite.py:1320-1355 | With a paper, its authors are new people, one per author entry, whatever the contributor block does. |
| Registry.ContributorsOfDistinct | src/backend/biz_logic/scripts/jring_o/repo_cite/repo_cite.py:1522 | Each person appears at most once among the recomputed contributors. |
| Registry.Store.FindInstitution | src/backend/biz_logic/scripts/jring_o/repo_cite/repo_cite.py:1360 | The generator search over `institutions.values()` returns the first institution, in insertion order, with that name. |
| Registry.Store.FindPersonByUsername | src/backend/biz_logic/scripts/jring_o/repo_cite/repo_cite.py:1419 | The search over `people.values()` returns the first person with that username. |
| Registry.Store.LinkInstitution | src/backend/biz_logic/scripts/jring_o/repo_cite/repo_cite.py:1360-1373 | Updates the dictionaries in place to the state of the linking function. |
| Registry.Store.LinkInstitutions | src/backend/biz_logic/scripts/jring_o/repo_cite/repo_cite.py:1358-1373 | The affiliation loop, in place. |
| Registry.Store.RecordAuthor | src/backend/biz_logic/scripts/jring_o/repo_cite/repo_cite.py:1338-1355 | The person record and authorship links, in place. |
| Registry.Store.AddAuthorEntry | src/backend/biz_logic/scripts/jring_o/repo_cite/repo_cite.py:1336-1373 | One author entry, in place. |
| Registry.Store.AddAuthorEntries | src/backend/biz_logic/scripts/jring_o/repo_cite/repo_cite.py:1336-1373 | The author loop, in place. |
| Registry.Store.AddCitedPapers | src/backend/biz_logic/scripts/jring_o/repo_cite/repo_cite.py:1376-1389 | The first-degree citation loop, in place. |
| Registry.Store.AddCitingPapers | src/backend/biz_logic/scripts/jring_o/repo_cite/repo_cite.py:1394-1406 | The second-degree citation loop, in place. |
| Registry.Store.AddPaperBlock | src/backend/biz_logic/scripts/jring_o/repo_cite/repo_cite.py:1320-1406 | The paper block, in place. |
| Registry.Store.AddNewContributor | src/backend/biz_logic/scripts/jring_o/repo_cite/repo_cite.py:1440-1451 | A new person for an unknown contributor, in place. |
| Registry.Store.AddContributorEntry | src/backend/biz_logic/scripts/jring_o/repo_cite/repo_cite.py:1415-1467 | One contributor entry, in place. |
| Registry.Store.AddContributorBlock | src/backend/biz_logic/scripts/jring_o/repo_cite/repo_cite.py:1414-1467 | The contributor loop, in place. |
| Registry.Store.CollectContributors | src/backend/biz_logic/scripts/jring_o/repo_cite/repo_cite.py:1522 | The comprehension returns, in insertion order and without repeats, the people contributing to the project. |
| Registry.Store.RecomputeContributors | src/backend/biz_logic/scripts/jring_o/repo_cite/repo_cite.py:1522 | The recount, in place. |
| Registry.Store.Analyze | src/backend/biz_logic/scripts/jring_o/repo_cite/repo_cite.py:1271-1522 | The registry part of `analyze_repository`, in place. It keeps the registry valid and only grows it. |
| EcosystemsApi.PaperUrlsMeaning | scripts/ecosyst.ms-api.py:244-258 | The paper URLs are gathered from pages 1..total-pages inclusive, in page order. The result is present iff every page decodes, and then it holds exactly those pages' URLs. |
| EcosystemsApi.FetchPaperUrls | python-scripts/ecosyst.ms-api.py:132-142 | The `while pageNum <= totalPages` loop returns the paper URLs of pages 1..totalPages, in page order. |
| EcosystemsCrawler.DedupedDistinct | scripts/ecosyst.ms-api.py:66-67 | No two rows of a guarded kind (all but Domain and Project) carry the same id. |
| EcosystemsCrawler.OnceFacts | scripts/ecosyst.ms-api.py:74-82 | A guarded append adds the id to its set and keeps the invariant: every guarded kind (all but Domain and Project) has at most one row per id, with every id in its set. |
| EcosystemsCrawler.AfterEmitFacts | scripts/ecosyst.ms-api.py:84-109 | The SDG and concept loops keep the invariant and leave every id in its set. |
| EcosystemsCrawler.AfterAffiliationsNext | scripts/ecosyst.ms-api.py:70-82 | One turn of the authorship loop emits that authorship's institutions after those of the earlier authorships. |
| EcosystemsCrawler.AfterAffiliationsFacts | scripts/ecosyst.ms-api.py:70-82 | The institution loop over every authorship keeps the invariant and touches only Institution rows. |
| EcosystemsCrawler.NotConcepts | scripts/ecosyst.ms-api.py:113 | The domain guard lets through exactly the descriptors whose id is not a concept id. |
| EcosystemsCrawler.AfterDomainsRows | scripts/ecosyst.ms-api.py:111-122 | The domain loop appends a Domain row for every descriptor not in `concept_set`, however often it was seen. |
| EcosystemsCrawler.DomainRepeated | scripts/ecosyst.ms-api.py:113-122 | A descriptor seen twice yields two Domain rows: the guard tests `concept_set` but inserts into `domain_set`. |
| EcosystemsCrawler.AfterDomainsFacts | scripts/ecosyst.ms-api.py:111-122 | The domain loop still keeps the invariant for every other kind. |
| EcosystemsCrawler.MentionNamesReset | scripts/ecosyst.ms-api.py:191-192 | A project that fails to decode discards the names gathered before it. |
| EcosystemsCrawler.MentionNamesAllDecoded | scripts/ecosyst.ms-api.py:166-171 | When every project decodes, the names are `ecosystem:name` of each mention, in order. |
| EcosystemsCrawler.AfterMentionRowsFacts | scripts/ecosyst.ms-api.py:180-190 | Project rows from mentions are appended once per `czi_id`, and never for an id already known. |
| EcosystemsCrawler.AfterMentionsFacts | scripts/ecosyst.ms-api.py:155-196 | Processing a paper's mentions keeps the invariant and changes no other kind. |
| EcosystemsCrawler.EnrichedFacts | scripts/ecosyst.ms-api.py:69-122 | A new paper's OpenAlex data emits no Paper or Person row. |
| EcosystemsCrawler.PaperBlockFacts | scripts/ecosyst.ms-api.py:66-135 | Up to the Paper row, a new paper keeps the invariant, only appends pending rows and adds no Person row. Its Paper row is the only one with its id. |
| EcosystemsCrawler.NewPaperFacts | scripts/ecosyst.ms-api.py:124-150 | A new paper adds at most one Person row: that of the last authorship's author, whose id then is in `people_set`. |
| EcosystemsCrawler.AfterPaperFacts | scripts/ecosyst.ms-api.py:51-152 | `process_paper` keeps the invariant, appends rows only at the end and never writes the file. |
| EcosystemsCrawler.LastAuthorOnly | scripts/ecosyst.ms-api.py:137-150 | Only the last authorship of a newly seen paper can yield a Person row. |
| EcosystemsCrawler.SeenPaperStillMentions | scripts/ecosyst.ms-api.py:61-66 | For a paper already seen, the mentions are still processed: every mentioned project URL joins `project_url_set`. |
| EcosystemsCrawler.AfterPapersFacts | scripts/ecosyst.ms-api.py:260-274 | The paper loop keeps the invariant. |
| EcosystemsCrawler.AfterProjectFacts | scripts/ecosyst.ms-api.py:208-283 | `process_project` keeps the invariant and only appends to the file. `row_list` is empty afterwards when it returns, after a success or a decode error. |
| EcosystemsCrawler.SeedRowUnconditional | scripts/ecosyst.ms-api.py:220-229 | The seed's Project row reaches the file whether or not its `czi_id` was already known. |
| EcosystemsCrawler.AfterProjectsFacts | scripts/ecosyst.ms-api.py:199-205 | A whole run keeps the invariant, the file only grows, and `row_list` ends empty. |
| EcosystemsCrawler.ScopeTotalRemove | scripts/ecosyst.ms-api.py:293-301 | The estimate is the sum of the `total-count` of each co-mentioned project, one term per project URL. |
| EcosystemsCrawler.Crawler.EmitOnce | scripts/ecosyst.ms-api.py:74-82 | A set-guarded append, in place. |
| EcosystemsCrawler.Crawler.EmitInstitutions | scripts/ecosyst.ms-api.py:72-82 | The institution loop of one authorship, in place; returns the institution names. |
| EcosystemsCrawler.Crawler.EmitAffiliations | scripts/ecosyst.ms-api.py:70-82 | The institution loops of all authorships; returns the last authorship's institution names. |
| EcosystemsCrawler.Crawler.EmitGoals | scripts/ecosyst.ms-api.py:84-95 | The SDG loop, in place; returns the goal names. |
| EcosystemsCrawler.Crawler.EmitConcepts | scripts/ecosyst.ms-api.py:97-109 | The concept loop, in place; returns the concept names. |
| EcosystemsCrawler.Crawler.EmitDomains | scripts/ecosyst.ms-api.py:111-122 | The domain loop, in place; returns the descriptor names. |
| EcosystemsCrawler.Crawler.RecordProjectUrls | scripts/ecosyst.ms-api.py:161-163 | Every mentioned project URL is added to `project_url_set`. |
| EcosystemsCrawler.Crawler.EmitMentionedProjects | scripts/ecosyst.ms-api.py:166-192 | The project loop of `process_paper_mentions`, in place. |
| EcosystemsCrawler.Crawler.ProcessPaperMentions | scripts/ecosyst.ms-api.py:155-196 | `process_paper_mentions`, in place. |
| EcosystemsCrawler.Crawler.CollectAuthorNames | scripts/ecosyst.ms-api.py:56-59 | The authors' display names, in authorship order. |
| EcosystemsCrawler.Crawler.Enrich | scripts/ecosyst.ms-api.py:69-122 | The OpenAlex block of a new paper, in place. |
| EcosystemsCrawler.Crawler.AddNewPaper | scripts/ecosyst.ms-api.py:66-150 | The block for a paper not seen before, in place. |
| EcosystemsCrawler.Crawler.ProcessPaper | scripts/ecosyst.ms-api.py:51-152 | `process_paper`, in place. It keeps the run's invariant, leaves the file alone and only appends pending rows. |
| EcosystemsCrawler.Crawler.ProcessPapers | scripts/ecosyst.ms-api.py:260-274 | The paper loop, in place. It keeps the run's invariant, leaves the file alone and only appends pending rows. |
| EcosystemsCrawler.Crawler.ProcessProject | scripts/ecosyst.ms-api.py:208-283 | `process_project`, in place. It keeps the run's invariant, grows the sets, only appends to the file, and leaves no pending rows when it returns normally. |
| EcosystemsCrawler.Crawler.ProcessProjects | scripts/ecosyst.ms-api.py:199-205 | The projects in order. The invariant holds throughout and the file only grows. |
| EcosystemsCrawler.Crawler.CheckScope | scripts/ecosyst.ms-api.py:286-306 | The sum of the co-mentioned projects' mention counts, or 0 when a project fails to decode. |
| EcosystemsSeeds.InstitutionRowOf | python-scripts/ecosyst.ms-api.py:53 | An Institution row fits the CSV header and carries the institution id. |
| EcosystemsSeeds.PersonRowOf | python-scripts/ecosyst.ms-api.py:59 | `{'type': 'Person'} \| author \| {'institutions': …}`: the author's keys and the institutions, type `Person`. |
| EcosystemsSeeds.PaperRowOf | python-scripts/ecosyst.ms-api.py:40 | The Paper row's columns and its authors and mentions cells. |
| EcosystemsSeeds.ProjectRowOf | python-scripts/ecosyst.ms-api.py:116-117 | A Project row with `ecosystem:name`; homepage and repository are `''` without a package. |
| EcosystemsSeeds.OnceFresh | python-scripts/ecosyst.ms-api.py:51-53 | A set-guarded append keeps the row list free of repeated Institution, Person and Paper ids and of Institution, Person or Paper ids known at the start of the seed. |
| EcosystemsSeeds.AfterInstitutionsFresh | python-scripts/ecosyst.ms-api.py:49-53 | The institution loop appends Institution rows once per id. |
| EcosystemsSeeds.AfterAuthorshipsSets | python-scripts/ecosyst.ms-api.py:44-59 | After the authorship loop every author's id is in `peopleSet`: every new author yields a Person row, not only the last. |
| EcosystemsSeeds.AfterAuthorshipsFresh | python-scripts/ecosyst.ms-api.py:44-59 | The authorship loop keeps the row list free of repeated ids. |
| EcosystemsSeeds.MentionNamesMeaning | python-scripts/ecosyst.ms-api.py:74-95 | A name is returned iff some mentioned project decodes with that `ecosystem:name`. A decode error skips that project without clearing the names gathered. |
| EcosystemsSeeds.AfterMentionRowsFresh | python-scripts/ecosyst.ms-api.py:75-91 | Project rows from mentions are appended once per `czi_id`. |
| EcosystemsSeeds.AfterPaperFresh | python-scripts/ecosyst.ms-api.py:21-61 | `processPaper` keeps the row list free of repeated ids. |
| EcosystemsSeeds.EveryAuthorKnown | python-scripts/ecosyst.ms-api.py:42-59 | The authorship loop runs even for a paper already seen; afterwards every author id is in `peopleSet`. |
| EcosystemsSeeds.AfterPapersFresh | python-scripts/ecosyst.ms-api.py:144-149 | The paper loop keeps the row list free of repeated ids. |
| EcosystemsSeeds.SeedRunFacts | python-scripts/ecosyst.ms-api.py:144-159 | After the papers, the file is rewritten with the row list, whose first row is the seed's Project row. |
| EcosystemsSeeds.AfterSeedFacts | python-scripts/ecosyst.ms-api.py:99-159 | One seed's rows carry no Institution, Person or Paper id known before the seed, and the seed's Project row comes first. |
| EcosystemsSeeds.EarlierIdsMissing | python-scripts/ecosyst.ms-api.py:14-18 | The sets persist across seeds, so an entity already emitted for an earlier seed gets no row in a later seed's list. |
| EcosystemsSeeds.LastSeedWins | python-scripts/ecosyst.ms-api.py:152-159 | A run over several seeds ends with the last seed's processing. |
| EcosystemsSeeds.AfterSeedsFile | python-scripts/ecosyst.ms-api.py:152-159 | The file holds only the last seed's rows, each fitting the CSV header. |
| EcosystemsSeeds.Sweeper.EmitOnce | python-scripts/ecosyst.ms-api.py:51-53 | A set-guarded append, in place. |
| EcosystemsSeeds.Sweeper.ProcessAuthorship | python-scripts/ecosyst.ms-api.py:47-59 | One authorship, in place. |
| EcosystemsSeeds.Sweeper.ProcessAuthorships | python-scripts/ecosyst.ms-api.py:42-59 | The authorship loop, in place. |
| EcosystemsSeeds.Sweeper.ProcessPaperMentions | python-scripts/ecosyst.ms-api.py:64-95 | `processPaperMentions`, in place. An undecodable mentions list changes nothing and reports failure. |
| EcosystemsSeeds.Sweeper.ProcessPaper | python-scripts/ecosyst.ms-api.py:21-61 | `processPaper`, in place. |
| EcosystemsSeeds.Sweeper.ProcessPapers | python-scripts/ecosyst.ms-api.py:144-149 | The paper loop, in place. |
| EcosystemsSeeds.Sweeper.ProcessSeed | python-scripts/ecosyst.ms-api.py:99-159 | One seed of the main loop, in place. |
| EcosystemsSeeds.Sweeper.ProcessSeeds | python-scripts/ecosyst.ms-api.py:99-161 | The main loop. After a successful run the file is the last row list and every row fits the header. |
| Common.CountPositiveIffContains | src/backend/biz_logic/scripts/jring_o/repo_finder/repofinder.py:1167-1169 | Python's non-overlapping `str.count` is positive iff the substring occurs. |
| Common.SplitRejoins | src/backend/biz_logic/scripts/jring_o/repo_finder/repofinder.py:106-108 | `str.split` loses nothing: joining the pieces with the separator gives back the string. |
| Common.SplitPiecesClean | src/backend/biz_logic/scripts/jring_o/repo_finder/repofinder.py:106-108 | No piece of `str.split` contains the separator. |
| Common.Lower | src/backend/biz_logic/scripts/jring_o/repo_finder/repofinder.py:216 | `str.lower` keeps the length and maps each character through the ASCII lower-casing. |
| Common.StripLeft | src/backend/biz_logic/scripts/jring_o/repo_finder/repofinder.py:111-112 | The left half of `str.strip()`: drops only leading whitespace, and the result does not start with whitespace. |
| Common.StripRight | src/backend/biz_logic/scripts/jring_o/repo_finder/repofinder.py:111-112 | The right half of `str.strip()`: drops only trailing whitespace, and the result does not end with whitespace. |
| Common.SplitJoin | src/backend/biz_logic/scripts/jring_o/repo_finder/repofinder.py:106-108 | `str.split(c)` is lossless: the pieces rejoined with `c` give the string back, and no piece contains `c`. |
| Common.SplitNoSeparator | src/backend/biz_logic/scripts/jring_o/repo_finder/repofinder.py:108-110 | A string without the separator splits into itself alone, which is why a `Link` entry without `;` is skipped. |
| Common.IndexOf | src/backend/biz_logic/scripts/jring_o/repo_cite/repo_cite.py:1591 | The first occurrence of a character, or the length when it does not occur. This is where `split('/', 1)` cuts. |
| Common.AfterLast | src/backend/biz_logic/scripts/jring_o/repo_cite/repo_cite.py:494 | The position after the last occurrence of a character, or 0 when it does not occur. |
| Common.LastPieceOfSplit | src/backend/biz_logic/scripts/jring_o/repo_cite/repo_cite.py:494 | `s.split(c)[-1]` is the text after the last `c`, or the whole string when there is none. |
| LinkHeader.RelParses | src/backend/biz_logic/scripts/jring_o/repo_finder/repofinder.py:112-113 | A rendered ` rel="r"` segment strips to `rel="next"` iff `r` is `next`. |
| LinkHeader.UrlParses | src/backend/biz_logic/scripts/jring_o/repo_finder/repofinder.py:111-114 | A rendered `<url>` segment strips and unbrackets back to `url`. |
| LinkHeader.UnbracketRight | src/backend/biz_logic/scripts/jring_o/repo_finder/repofinder.py:114 | `rstrip('>')` removes exactly the one `>` appended to a URL that does not end in `>`. |
| LinkHeader.Unbracket | src/backend/biz_logic/scripts/jring_o/repo_finder/repofinder.py:114 | `lstrip('<').rstrip('>')` removes exactly the brackets around a URL that does not itself start with `<` or end with `>`. |
| LinkHeader.SplitRender | src/backend/biz_logic/scripts/jring_o/repo_finder/repofinder.py:106 | Splitting a rendered header at commas gives one piece per link, in order. |
| Pagination.LinkWalkNext | src/backend/biz_logic/scripts/jring_o/repo_finder/repofinder.py:293-311 | One step of the Link loop: a rejected reply ends the walk. An accepted one adds its page, and the walk continues only when the reply announced a next link. |
| Pagination.PageWalkNext | src/backend/biz_logic/scripts/jring_o/repo_finder/repofinder.py:690-708 | One step of the page-number loop: a rejected page ends the walk. An accepted one adds its body, and the walk moves to page `p + 1` only when the continuation rule holds. |
| RepoSearch.TagSnoc | src/backend/biz_logic/scripts/jring_o/repo_finder/repofinder.py:143 | Tagging one more item of a page appends its (term, item) pair. |
| RepoSearch.PairedTag | src/backend/biz_logic/scripts/jring_o/repo_finder/repofinder.py:141-151 | A page tagged with term `t` pairs `term` with `id` iff `term` is `t` and the page holds a record with that id. |
| Affiliation.OwnerCount | src/backend/biz_logic/scripts/jring_o/repo_finder/repofinder.py:1236-1241 | The owner's points are `OwnerPoints` (the uniform weight) times the total occurrence count of the identifiers in the lowercased owner text. |
| Affiliation.SumPointsSnoc | src/backend/biz_logic/scripts/jring_o/repo_finder/repofinder.py:1205-1214 | Each associated-repository entry adds its own points to the category total. |
| Affiliation.HasEmailMatchSnoc | src/backend/biz_logic/scripts/jring_o/repo_finder/repofinder.py:1194-1198 | A username has an email match after one more contributor iff it had one before, or that contributor has the username and a matching email. |
| ContributorAnalysis.CountRolePrefix | src/backend/biz_logic/scripts/jring_o/repo_cite/repo_cite.py:523-530 | Among the first `k` positions, min(k, ⌊n/10⌋) are Core and min(k, ⌊n/2⌋) − min(k, ⌊n/10⌋) are Occasional. |
| ContributorAnalysis.InsertDesc | src/backend/biz_logic/scripts/jring_o/repo_cite/repo_cite.py:518 | Insertion into a sorted list grows it by exactly one element. |
| ContributorAnalysis.SortDesc | src/backend/biz_logic/scripts/jring_o/repo_cite/repo_cite.py:518 | The sort keeps the length. |
| ContributorAnalysis.SortDescSorted | src/backend/biz_logic/scripts/jring_o/repo_cite/repo_cite.py:518 | The sorted list has commit counts in non-increasing order. |
| ContributorAnalysis.SortDescPermutes | src/backend/biz_logic/scripts/jring_o/repo_cite/repo_cite.py:518 | The sorted list is a permutation of the input. |
| ContributorAnalysis.SortDescStable | src/backend/biz_logic/scripts/jring_o/repo_cite/repo_cite.py:518 | For every commit count, the entries with that count keep their input order. |
| ContributorAnalysis.ContributorLinks | src/backend/biz_logic/scripts/jring_o/repo_cite/repo_cite.py:465-471 | No more connections than contributors, each with the contributor role. |
| ContributorAnalysis.ParticipantLinks | src/backend/biz_logic/scripts/jring_o/repo_cite/repo_cite.py:472-475 | No more connections than participants, each with the participant role. |
| Doi.SearchFrom | hex/biz_logic/scripts/jring_o/repo_cite/repo_cite.py:166 | The scan finds the leftmost position at or after `i` where the DOI pattern matches, and None only when no such position exists. |
| Doi.FindDoi | hex/biz_logic/scripts/jring_o/repo_cite/repo_cite.py:166-168 | Whatever `re.search(...).group(1)` returns has the DOI shape. |
| Doi.FirstDoi | hex/biz_logic/scripts/jring_o/repo_cite/repo_cite.py:160-205 | The DOI taken from the sources has the DOI shape. |
| Doi.FirstHolder | hex/biz_logic/scripts/jring_o/repo_cite/repo_cite.py:160-205 | The first source holding a DOI: every earlier source holds none. |
| Doi.FirstDoiAppend | hex/biz_logic/scripts/jring_o/repo_cite/repo_cite.py:160-205 | Sources searched later matter only when no earlier one holds a DOI. |
| Doi.EqualIgnoringCaseLower | hex/biz_logic/scripts/jring_o/repo_cite/repo_cite.py:278 | `a.lower() != b.lower()` is exactly case-insensitive inequality. |
| Doi.Kept | hex/biz_logic/scripts/jring_o/repo_cite/repo_cite.py:275-285 | Filtering one page keeps at most its works. |
| Doi.KeptSnoc | hex/biz_logic/scripts/jring_o/repo_cite/repo_cite.py:277-285 | Each work is kept, with its title, year, DOI and concepts, iff its DOI differs from the analysed one ignoring case. |
| Doi.CursorWalkStep | hex/biz_logic/scripts/jring_o/repo_cite/repo_cite.py:268-292 | One turn of the cursor loop keeps the walk's invariant: a failed request leaves the gathered papers final, a page without a next cursor completes them with its kept works, and any other page hands the rest to the next request. |
| Doi.CursorWalkPage | hex/biz_logic/scripts/jring_o/repo_cite/repo_cite.py:268-289 | A page contributes its kept works. The walk continues only when the page's `next_cursor` is truthy. |
| RepoInput.RemoveUnsafeNone | src/backend/biz_logic/scripts/jring_o/repo_cite/repo_cite.py:1578 | A URL without tabs or line breaks is left unchanged by urlparse's cleaning. |
| RepoInput.RemoveUnsafeKeepsScheme | src/backend/biz_logic/scripts/jring_o/repo_cite/repo_cite.py:1577-1578 | Cleaning keeps an http(s) URL an http(s) URL, with the same scheme. |
| RepoInput.SlashInputSplits | src/backend/biz_logic/scripts/jring_o/repo_cite/repo_cite.py:1588-1592 | Non-URL input fails with the format error iff it has no `/`; otherwise owner + `/` + name is the input and the owner holds no `/`. |
| RepoInput.RepoUrlIsUrl | src/backend/biz_logic/scripts/jring_o/repo_cite/repo_cite.py:1577 | A rendered `http(s)://host/owner/repo…` URL takes the URL branch. |
| RepoInput.RepoUrlSafe | src/backend/biz_logic/scripts/jring_o/repo_cite/repo_cite.py:1578 | A rendered URL made of plain parts holds no tab or line break. |
| RepoInput.PathOfParts | src/backend/biz_logic/scripts/jring_o/repo_cite/repo_cite.py:1578-1580 | urlparse's path of `scheme://host/tail` is the tail with fragment, query and parameters removed. |
| Registry.Link | src/backend/biz_logic/scripts/jring_o/repo_cite/repo_cite.py:1360-1373 | Linking an institution changes only people and institutions; the people keys and their order stay the same. |
| Registry.LinkAffiliations | src/backend/biz_logic/scripts/jring_o/repo_cite/repo_cite.py:1360-1373 | Linking keeps every affiliation two-way: the institution lists the person and the person the institution. |
| Registry.LinkOrdered | src/backend/biz_logic/scripts/jring_o/repo_cite/repo_cite.py:1360-1371 | Linking keeps the institution order in step with the dictionary, and every id below the id counter. |
| Registry.LinkGrows | src/backend/biz_logic/scripts/jring_o/repo_cite/repo_cite.py:1360-1373 | Linking never removes or re-keys anything. |
| Registry.LinkAll | src/backend/biz_logic/scripts/jring_o/repo_cite/repo_cite.py:1358-1373 | The affiliation loop changes only people and institutions. |
| Registry.AuthorRecord | src/backend/biz_logic/scripts/jring_o/repo_cite/repo_cite.py:1338-1355 | An author record is added under the next fresh id. Papers keep their keys and projects are unchanged. |
| Registry.AddAuthor | src/backend/biz_logic/scripts/jring_o/repo_cite/repo_cite.py:1336-1373 | One author entry keeps the paper keys and leaves projects unchanged. |
| Registry.AddAuthors | src/backend/biz_logic/scripts/jring_o/repo_cite/repo_cite.py:1336-1373 | The author loop keeps the paper keys and leaves projects unchanged. |
| Registry.AddCited | src/backend/biz_logic/scripts/jring_o/repo_cite/repo_cite.py:1376-1389 | First-degree citations change only papers: people, projects and institutions are untouched. |
| Registry.AddSecondDegree | src/backend/biz_logic/scripts/jring_o/repo_cite/repo_cite.py:1394-1406 | Second-degree citations change only papers. |
| Registry.PaperRecord | src/backend/biz_logic/scripts/jring_o/repo_cite/repo_cite.py:1320-1333 | The paper record is added under the next fresh id and the counter moves on; people are untouched. |
| Registry.ContributorRecord | src/backend/biz_logic/scripts/jring_o/repo_cite/repo_cite.py:1440-1451 | A new contributor record is added under the next fresh id. Projects keep their keys and papers are unchanged. |
| Registry.AddContributor | src/backend/biz_logic/scripts/jring_o/repo_cite/repo_cite.py:1415-1467 | One contributor entry keeps the project keys and leaves papers unchanged. |
| Registry.AddContributors | src/backend/biz_logic/scripts/jring_o/repo_cite/repo_cite.py:1414-1467 | The contributor loop keeps the project keys and leaves papers unchanged. |
| Registry.PaperContentsValid | src/backend/biz_logic/scripts/jring_o/repo_cite/repo_cite.py:1336-1406 | Authors, then first- and second-degree citations, keep the registry valid and only grow it. |
| Registry.WithPaperValid | src/backend/biz_logic/scripts/jring_o/repo_cite/repo_cite.py:1319-1406 | The optional paper block keeps the registry valid, grows it and keeps the project's name and queries. |
| Registry.WithContributorsValid | src/backend/biz_logic/scripts/jring_o/repo_cite/repo_cite.py:1414-1467 | The optional contributor block keeps the registry valid, grows it, leaves papers unchanged and keeps the project's name and queries. |
| Registry.RecomputeLinked | src/backend/biz_logic/scripts/jring_o/repo_cite/repo_cite.py:1522 | After the recount every contribution link is two-way. |
| Registry.NewProjectLinked | src/backend/biz_logic/scripts/jring_o/repo_cite/repo_cite.py:1272-1317 | A new project without contributors keeps contributions two-way, and nobody contributes to it yet. |
| Registry.AuthorlessPaperLinked | src/backend/biz_logic/scripts/jring_o/repo_cite/repo_cite.py:1320-1333 | A new paper without authors keeps authorship two-way. |
| EcosystemsApi.PaperUrlsStaysNone | scripts/ecosyst.ms-api.py:250-258 | Once a page fails to decode, the walk yields no URLs at all. |
| EcosystemsCrawler.StartConsistent | scripts/ecosyst.ms-api.py:19-28 | The empty sets and row list satisfy the dedup invariant. |
| EcosystemsCrawler.PaperRowStep | scripts/ecosyst.ms-api.py:124-136 | Appending the Paper row of a paper whose id is new keeps the invariant and adds no Person row. |
| EcosystemsCrawler.PersonStep | scripts/ecosyst.ms-api.py:137-150 | The Person step keeps the invariant, adds at most its author's id, and leaves that id in `people_set`. |
| EcosystemsCrawler.AfterMentionRowsUrls | scripts/ecosyst.ms-api.py:166-192 | The project loop of the mentions leaves `project_url_set` and `paper_set` unchanged. |
| EcosystemsCrawler.AfterMentionsPaperIds | scripts/ecosyst.ms-api.py:155-196 | Processing mentions leaves `paper_set` unchanged. |
| EcosystemsSeeds.AuthorIds | python-scripts/ecosyst.ms-api.py:42-59 | Every authorship's author id is among the collected ids. |
| EcosystemsSeeds.AfterInstitutionsSets | python-scripts/ecosyst.ms-api.py:49-53 | The institution loop leaves the people, paper and project sets unchanged. |
| EcosystemsSeeds.PaperBlockFresh | python-scripts/ecosyst.ms-api.py:38-40 | The Paper row block keeps the row list free of repeated and previously known Institution, Person and Paper ids, and only appends. |
| EcosystemsSeeds.SeedRowFresh | python-scripts/ecosyst.ms-api.py:100-117 | The seed's Project row starts a fresh row list without breaking the invariant. |
| EcosystemsSeeds.AskedFresh | python-scripts/ecosyst.ms-api.py:21-36 | The mention-query part of `processPaper` keeps the row list free of repeated ids and only appends. |
| Keywords.MatchedKeywordsCount | src/backend/biz_logic/scripts/jring_o/repo_finder/repofinder.py:234-239 | A keyword occurring as a whole word is matched as many times as it is listed; any other keyword is never matched. |
| Keywords.MatchedKeywordsReorder | src/backend/biz_logic/scripts/jring_o/repo_finder/repofinder.py:234-239 | The keyword lists are set literals with no defined order. Any order of the same keywords matches the same keywords, the same number of times. |
| Keywords.ProjectTypeOrderFree | src/backend/biz_logic/scripts/jring_o/repo_finder/repofinder.py:604-642 | The project type is the same whatever order the three keyword sets are walked in. |
| Keywords.MatchedKeywords | src/backend/biz_logic/scripts/jring_o/repo_finder/repofinder.py:234-239 | Definition: the keywords occurring as whole words, in walk order. Its properties are in the MatchedKeywordsMembers, MatchedKeywordsCount and MatchedKeywordsReorder rows. |
| Doi.DomainsAppend | hex/biz_logic/scripts/jring_o/repo_cite/repo_cite.py:224-225 | The domains of a concatenation of concept lists are the concatenated domains, so the comprehension keeps the concepts' order. |
| ContributorAnalysis.ParticipantLinksMembers | src/backend/biz_logic/scripts/jring_o/repo_cite/repo_cite.py:472-475 | A participant yields a connection iff it is one of the participants and its lowercased name is an author's. |
| Registry.AddCitedContents | src/backend/biz_logic/scripts/jring_o/repo_cite/repo_cite.py:1376-1389 | The content half of AddCitedFacts: the analysed paper's new `cited_by_papers` entries and each new paper, built from its citation. |
| Registry.AddCitedAnalysed | src/backend/biz_logic/scripts/jring_o/repo_cite/repo_cite.py:1376-1389 | The analysed paper's `cited_by_papers` grows by the new ids in order, and its other fields stay. |
| Registry.AddCitedNext | src/backend/biz_logic/scripts/jring_o/repo_cite/repo_cite.py:1376-1389 | Each first-degree citation takes the next free id: the counter grows by the number of citations. |
| Registry.AddCitedAt | src/backend/biz_logic/scripts/jring_o/repo_cite/repo_cite.py:1376-1389 | The k-th first-degree citation becomes the paper under id `next_id + k`. |
| Registry.AddSecondDegreeGrows | src/backend/biz_logic/scripts/jring_o/repo_cite/repo_cite.py:1394-1406 | Second-degree citations keep the registry valid, grow it by one paper per citation and change no existing paper. |
| Registry.AddSecondDegreeContents | src/backend/biz_logic/scripts/jring_o/repo_cite/repo_cite.py:1394-1406 | Each second-degree citation becomes a paper under consecutive new ids, with `cited_by_papers` naming the analysed paper. |
| Registry.AddSecondDegreeNext | src/backend/biz_logic/scripts/jring_o/repo_cite/repo_cite.py:1394-1406 | The next free id grows by one per second-degree citation. |
| Registry.AddSecondDegreeAt | src/backend/biz_logic/scripts/jring_o/repo_cite/repo_cite.py:1394-1406 | The k-th second-degree citation becomes the paper under id `next_id + k`. |
| RepoInput.ParseRepositoryInput | src/backend/biz_logic/scripts/jring_o/repo_cite/repo_cite.py:1571-1592 | Definition: http(s) input goes to the URL branch, anything else to the `owner/repo` branch. Its properties are in the RepoInput.ParseUrl, ParseNonUrl, ParseRepoUrl and ParseOwnerSlashRepo rows. |
| RepoInput.ParseUrlInput | src/backend/biz_logic/scripts/jring_o/repo_cite/repo_cite.py:1577-1586 | Definition: the first two path segments, the "Invalid IPv6 URL" error for an unmatched bracket, and the format error for fewer than two segments. Properties: RepoInput.ParseUrl and ParseRepoUrl. |
| RepoInput.ParseSlashInput | src/backend/biz_logic/scripts/jring_o/repo_cite/repo_cite.py:1588-1592 | Definition: split at the first `/`, with the format error when there is none. Properties: RepoInput.ParseNonUrl and SlashInputSplits. |
| LinkHeader.NextLink | src/backend/biz_logic/scripts/jring_o/repo_finder/repofinder.py:93-116 | Definition of `get_next_link`. Its properties are in the NextLinkAbsent, NextLinkFirst and NextLinkOfRendered rows. |
| RepoSearch.Merge | src/backend/biz_logic/scripts/jring_o/repo_finder/repofinder.py:143-151 | Definition: the `repos` dictionary after a run of hits. Its properties are in the MergeSnoc, MergeKeys, MergeQueries and MergeFirstSeen rows. |
| ContributorAnalysis.RoleAt | src/backend/biz_logic/scripts/jring_o/repo_cite/repo_cite.py:523-530 | Definition: the percentile thresholds 0.10 and 0.50 in exact arithmetic. Properties: ContributorAnalysis.RoleBands and RoleCounts. |
| ContributorAnalysis.Roles | src/backend/biz_logic/scripts/jring_o/repo_cite/repo_cite.py:520-534 | Definition: the role dictionary after the positions in order. Properties: ContributorAnalysis.RolesSpec and ClassifyContributorRoles. |
| Doi.Sources | hex/biz_logic/scripts/jring_o/repo_cite/repo_cite.py:160-205 | Definition: the texts searched for a DOI. Properties: Doi.SourcesOrder. |
| Doi.CursorWalk | hex/biz_logic/scripts/jring_o/repo_cite/repo_cite.py:268-292 | Definition: the cursor walk over one author's works. Properties: Doi.CursorWalkPage, CursorWalkExcludes and OtherPapersOf. |
| Doi.WithOtherPapers | hex/biz_logic/scripts/jring_o/repo_cite/repo_cite.py:257-295 | Definition: an author with its other papers attached. Properties: Doi.OtherPapersOf and OtherPapersExcludeDoi. |
| Pagination.LinkWalk | src/backend/biz_logic/scripts/jring_o/repo_finder/repofinder.py:293-311 | Definition of the Link-following walk. Properties: Pagination.LinkWalkNext and LinkWalkSpec. |
| Pagination.PageWalk | src/backend/biz_logic/scripts/jring_o/repo_finder/repofinder.py:686-712 | Definition of the page-number walk. Properties: Pagination.PageWalkNext, PageWalkGathers, PageWalkContinues, PageWalkStops and PageWalkSpec. |
| Pagination.Tally | hex/biz_logic/scripts/jring_o/repo_cite/repo_cite.py:725-749 | Definition of the release counters. Properties: Pagination.TallyRelease and TallyDownloads. |
| Registry.AnalyzeRepository | src/backend/biz_logic/scripts/jring_o/repo_cite/repo_cite.py:1271-1522 | Definition: `analyze_repository` on the registry. Properties: Registry.AnalyzeRepositoryValid and AnalyzePaperAuthors. |
| Registry.OpenProject | src/backend/biz_logic/scripts/jring_o/repo_cite/repo_cite.py:1272-1317 | Definition: the project record under the next id. Properties: Registry.OpenProjectValid. |
| Registry.WithPaper | src/backend/biz_logic/scripts/jring_o/repo_cite/repo_cite.py:1319-1406 | Definition: the optional paper block. Properties: Registry.WithPaperValid. |
| Registry.WithContributors | src/backend/biz_logic/scripts/jring_o/repo_cite/repo_cite.py:1414-1467 | Definition: the optional contributor block. Properties: Registry.WithContributorsValid. |
| Registry.Recompute | src/backend/biz_logic/scripts/jring_o/repo_cite/repo_cite.py:1522 | Definition: the final recount of the project's contributors. Properties: Registry.RecomputeValid and RecomputeLinked. |
| EcosystemsCrawler.AfterPaper | scripts/ecosyst.ms-api.py:51-152 | Definition of `process_paper`. Properties: EcosystemsCrawler.AfterPaperFacts, LastAuthorOnly and SeenPaperStillMentions. |
| EcosystemsCrawler.NewPaper | scripts/ecosyst.ms-api.py:66-150 | Definition: the block for a paper not seen before. Properties: EcosystemsCrawler.NewPaperFacts. |
| EcosystemsCrawler.AfterMentions | scripts/ecosyst.ms-api.py:155-196 | Definition of `process_paper_mentions`. Properties: EcosystemsCrawler.AfterMentionsFacts and AfterMentionsPaperIds. |
| EcosystemsCrawler.MentionNames | scripts/ecosyst.ms-api.py:166-192 | Definition: the names the project loop gathers. Properties: EcosystemsCrawler.MentionNamesReset and MentionNamesAllDecoded. |
| EcosystemsCrawler.AfterProject | scripts/ecosyst.ms-api.py:208-283 | Definition of `process_project`. Properties: EcosystemsCrawler.AfterProjectFacts and SeedRowUnconditional. |
| EcosystemsCrawler.AfterProjects | scripts/ecosyst.ms-api.py:199-205 | Definition of `process_projects`. Properties: EcosystemsCrawler.AfterProjectsFacts. |
| EcosystemsCrawler.ScopeEstimate | scripts/ecosyst.ms-api.py:286-306 | Definition of the `check_scope` sum. Properties: EcosystemsCrawler.ScopeTotalRemove and Crawler.CheckScope. |
| EcosystemsSeeds.AfterPaper | python-scripts/ecosyst.ms-api.py:21-61 | Definition of `processPaper`. Properties: EcosystemsSeeds.AfterPaperFresh and EveryAuthorKnown. |
| EcosystemsSeeds.MentionNames | python-scripts/ecosyst.ms-api.py:64-95 | Definition: the names a paper's mentions yield. Properties: EcosystemsSeeds.MentionNamesMeaning. |
| EcosystemsSeeds.AfterSeed | python-scripts/ecosyst.ms-api.py:99-159 | Definition: one seed. Properties: EcosystemsSeeds.AfterSeedFacts and SeedRunFacts. |
| EcosystemsSeeds.AfterSeeds | python-scripts/ecosyst.ms-api.py:99-161 | Definition: all seeds in order. Properties: EcosystemsSeeds.LastSeedWins and AfterSeedsFile. |

## Left out

- Real HTTP is not modelled: `requests.get`, timeouts, `time.sleep`, the rate-limit reset arithmetic and request parameters. Responses are inputs. A Link walk that runs past the list of replies ends there; on a Link cycle, the program itself would keep requesting forever.
- GitHubClient.Request: the payload is opaque. JSON decoding and the response headers beyond `Link` are not modelled.
- Thread pools in `scripts/ecosyst.ms-api.py` run under sequential semantics: races on the shared sets are not modelled. If a paper raises, the pool would still finish the papers already submitted; the model stops at the raising paper.
- The prompt-driven second round of `scripts/ecosyst.ms-api.py` (lines 318-326) is not modelled. It is another `process_projects` call over a copy of `project_url_set`, and a set has no defined order.
- EcosystemsCrawler.Crawler.CheckScope: the floating-point average it prints is left out. The co-mentioned URLs are a set, and the sum does not depend on their order.
- Printing, logging, `input()` prompts and the CSV/JSON writers' formatting are left out.
  - The ecosyste.ms crawlers' CSV file is modelled as the sequence of rows written to it.
  - Column order and cell rendering are not modelled.
  - A Person row of the older crawler keeps only the author fields `id`, `display_name` and `orcid`.
- Missing keys are not modelled: a `KeyError` on a record without an expected field cannot happen, because records carry every field read. Where the code uses `.get` with a default, the model uses an `Option` with that default.
- Character handling:
  - Regular expressions and case folding cover ASCII letters only.
  - `\w` and `\b` use ASCII word characters.
  - The DOI pattern is matched by a scanner equivalent to the regex on ASCII text.
  - base64 decoding of file contents is not modelled: the decoded text is the input.
- Floating point is replaced by exact rationals: the activity score and the role percentiles (`(idx + 1) / n <= 0.1` as `10 * (idx + 1) <= n`).
- Recency windows based on `datetime` are not modelled. Release recency is a given predicate, as are the weighted repofinder activity score, the confidence score, language percentages and averages.
- `uuid4` identifiers are replaced by a counter, which supplies the only property used: every new key differs from every key in use.
- Left out of `analyze_repository`:
  - project metrics;
  - the discarded `repo_data` dictionary and its `associated_papers` search, which is never stored;
  - the `lead_institution` choice of repofinder;
  - the write-out to JSON.
- RepoSearch.SearchSpec: a repository record without an id (`repo.get('id')` returning None) is not modelled; ids are integers.
- Doi.OtherPapersOf: the cursor value itself is not modelled; each request is answered by the next reply in the list.
- Keywords.DetermineProjectType: the program walks set literals, whose iteration order Python leaves to string hashing. The model walks the keywords in the order written, so the match lists are the program's only up to order. Their sizes and the verdict do not depend on the order (Keywords.MatchedKeywordsReorder, Keywords.ProjectTypeOrderFree).
- RepoInput.ParseRepositoryInput: `urlparse`'s checks of a bracketed host (it must be a valid IPv6 or IPvFuture literal, so `https://[x]/o/r` raises `ValueError`) and its NFKC normalisation check of non-ASCII netlocs are not modelled. The model raises only for an unmatched bracket, and parses such URLs by their path.
- Affiliation.Uniform: the program's identifiers are the keys of a dictionary (repofinder.py:1252, 2003), so they are distinct. The model accepts any list. A repeated identifier adds its occurrences once per listing to the points, and appears once in `matches`. For a distinct list the two agree.
