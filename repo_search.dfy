/**
 * search_repositories_with_queries: one Link-following search walk per
 * query term, merged into a dictionary keyed by repository id whose entry
 * keeps the first record seen and the set of terms that found it.
 *
 * The replies each term's walk receives are an input (`replies(term)`).  A
 * response counts as data when it is not null (`if data:` on a non-empty
 * dictionary); its `items` list may be empty.
 */
module RepoSearch {
  import opened Common
  import opened Pagination

  /** A search hit: `repo.get('id')` and the record it came with. */
  datatype Repo = Repo(id: int, fullName: string)

  /** `{'repo_data': repo, 'queries': set([...])}` */
  datatype Entry = Entry(repoData: Repo, queries: set<string>)

  type Hit = (string, Repo)

  /** The repositories the walk for one term gathers, in order. */
  function Fetched(replies: string -> seq<Reply<Repo>>, term: string): seq<Repo> {
    Flatten(LinkWalk(replies(term), NotNone))
  }

  function Tag(term: string, repos: seq<Repo>): (r: seq<Hit>)
    ensures |r| == |repos|
    ensures forall i :: 0 <= i < |r| ==> r[i] == (term, repos[i])
  {
    seq(|repos|, i requires 0 <= i < |repos| => (term, repos[i]))
  }

  lemma TagSnoc(term: string, repos: seq<Repo>, j: nat)
    requires j < |repos|
    ensures Tag(term, repos[..j + 1]) == Tag(term, repos[..j]) + [(term, repos[j])]
  {
  }

  /** Every (term, repository) pair in the order the loops meet them. */
  function Hits(terms: seq<string>, replies: string -> seq<Reply<Repo>>): seq<Hit> {
    if terms == [] then []
    else Hits(terms[..|terms| - 1], replies) + Tag(terms[|terms| - 1], Fetched(replies, terms[|terms| - 1]))
  }

  /** The dictionary update for one hit. */
  function Absorb(repos: map<int, Entry>, hit: Hit): map<int, Entry> {
    var (term, repo) := hit;
    if repo.id in repos then repos[repo.id := Entry(repos[repo.id].repoData, repos[repo.id].queries + {term})]
    else repos[repo.id := Entry(repo, {term})]
  }

  /** The dictionary after a run of hits, starting from `{}`. */
  function Merge(hits: seq<Hit>): map<int, Entry> {
    if hits == [] then map[] else Absorb(Merge(hits[..|hits| - 1]), hits[|hits| - 1])
  }

  lemma MergeSnoc(hits: seq<Hit>, hit: Hit)
    ensures Merge(hits + [hit]) == Absorb(Merge(hits), hit)
  {
    assert (hits + [hit])[..|hits|] == hits;
  }

  predicate HasId(hits: seq<Hit>, id: int) {
    exists i :: 0 <= i < |hits| && hits[i].1.id == id
  }

  /** The keys of the dictionary are exactly the ids of the hits. */
  lemma {:induction false} MergeKeys(hits: seq<Hit>, id: int)
    ensures id in Merge(hits) <==> HasId(hits, id)
  {
    if hits != [] {
      var init := hits[..|hits| - 1];
      MergeKeys(init, id);
      if HasId(init, id) {
        var i :| 0 <= i < |init| && init[i].1.id == id;
        assert hits[i] == init[i];
      }
      if HasId(hits, id) && hits[|hits| - 1].1.id != id {
        var i :| 0 <= i < |hits| && hits[i].1.id == id;
        assert init[i] == hits[i];
      }
    }
  }

  /** An entry's query set holds exactly the terms paired with its id. */
  lemma {:induction false} MergeQueries(hits: seq<Hit>, id: int, term: string)
    requires id in Merge(hits)
    ensures term in Merge(hits)[id].queries <==> Paired(hits, term, id)
  {
    var init := hits[..|hits| - 1];
    var last := hits[|hits| - 1];
    if id in Merge(init) {
      MergeQueries(init, id, term);
    } else {
      MergeKeys(init, id);
    }
    assert hits == init + [last];
    PairedAppend(init, [last], term, id);
    if Paired(init, term, id) {
      var i :| 0 <= i < |init| && init[i].1.id == id && init[i].0 == term;
      assert HasId(init, id);
    }
  }

  /** An entry keeps the record of the first hit with its id. */
  lemma {:induction false} MergeFirstSeen(hits: seq<Hit>, id: int)
    requires id in Merge(hits)
    ensures exists i :: (0 <= i < |hits| && hits[i].1.id == id && Merge(hits)[id].repoData == hits[i].1
      && forall j :: 0 <= j < i ==> hits[j].1.id != id)
  {
    var init := hits[..|hits| - 1];
    if id in Merge(init) {
      MergeFirstSeen(init, id);
      var i :| 0 <= i < |init| && init[i].1.id == id && Merge(init)[id].repoData == init[i].1
        && forall j :: 0 <= j < i ==> init[j].1.id != id;
      assert hits[i] == init[i];
      forall j | 0 <= j < i ensures hits[j].1.id != id {
        assert hits[j] == init[j];
      }
    } else {
      MergeKeys(init, id);
      forall j | 0 <= j < |hits| - 1 ensures hits[j].1.id != id {
        assert hits[j] == init[j];
      }
    }
  }

  /** Some hit pairs `term` with a repository of id `id`. */
  predicate Paired(hits: seq<Hit>, term: string, id: int) {
    exists i :: 0 <= i < |hits| && hits[i].1.id == id && hits[i].0 == term
  }

  /** The walk for `term` fetched a repository of id `id`. */
  predicate FetchedId(replies: string -> seq<Reply<Repo>>, term: string, id: int) {
    exists r :: r in Fetched(replies, term) && r.id == id
  }

  lemma PairedAppend(a: seq<Hit>, b: seq<Hit>, term: string, id: int)
    ensures Paired(a + b, term, id) <==> Paired(a, term, id) || Paired(b, term, id)
  {
    if Paired(a + b, term, id) {
      var i :| 0 <= i < |a + b| && (a + b)[i].1.id == id && (a + b)[i].0 == term;
      if i >= |a| {
        assert b[i - |a|] == (a + b)[i];
      }
    }
    if Paired(b, term, id) {
      var i :| 0 <= i < |b| && b[i].1.id == id && b[i].0 == term;
      assert (a + b)[|a| + i] == b[i];
    }
    if Paired(a, term, id) {
      var i :| 0 <= i < |a| && a[i].1.id == id && a[i].0 == term;
      assert (a + b)[i] == a[i];
    }
  }

  lemma PairedTag(t: string, repos: seq<Repo>, term: string, id: int)
    ensures Paired(Tag(t, repos), term, id) <==> term == t && exists r :: r in repos && r.id == id
  {
    var tagged := Tag(t, repos);
    if Paired(tagged, term, id) {
      var i :| 0 <= i < |tagged| && tagged[i].1.id == id && tagged[i].0 == term;
      assert repos[i] in repos;
    }
    if term == t && exists r :: r in repos && r.id == id {
      var r :| r in repos && r.id == id;
      var k :| 0 <= k < |repos| && repos[k] == r;
      assert tagged[k] == (t, r);
    }
  }

  /** A pair occurs among the hits exactly when its term is a query term whose walk fetched it. */
  lemma {:induction false} HitsMembers(terms: seq<string>, replies: string -> seq<Reply<Repo>>, term: string, id: int)
    ensures Paired(Hits(terms, replies), term, id) <==> term in terms && FetchedId(replies, term, id)
  {
    if terms != [] {
      var init := terms[..|terms| - 1];
      var t := terms[|terms| - 1];
      HitsMembers(init, replies, term, id);
      PairedAppend(Hits(init, replies), Tag(t, Fetched(replies, t)), term, id);
      PairedTag(t, Fetched(replies, t), term, id);
      assert terms == init + [t];
    }
  }

  /**
   * What the search returns: one entry per repository id any walk fetched;
   * its query set is exactly the terms whose walk fetched that id; its
   * record is the first one met with that id.
   */
  lemma SearchSpec(terms: seq<string>, replies: string -> seq<Reply<Repo>>, id: int)
    ensures var repos := Merge(Hits(terms, replies));
      && (id in repos <==> exists t :: t in terms && FetchedId(replies, t, id))
      && (id in repos ==> forall t :: t in repos[id].queries <==> t in terms && FetchedId(replies, t, id))
      && (id in repos ==> repos[id].repoData.id == id)
  {
    var h := Hits(terms, replies);
    var repos := Merge(h);
    MergeKeys(h, id);
    if HasId(h, id) {
      var i :| 0 <= i < |h| && h[i].1.id == id;
      assert Paired(h, h[i].0, id);
      HitsMembers(terms, replies, h[i].0, id);
    }
    if exists t :: t in terms && FetchedId(replies, t, id) {
      var t :| t in terms && FetchedId(replies, t, id);
      HitsMembers(terms, replies, t, id);
      var i :| 0 <= i < |h| && h[i].1.id == id && h[i].0 == t;
      assert HasId(h, id);
    }
    if id in repos {
      forall t ensures t in repos[id].queries <==> t in terms && FetchedId(replies, t, id) {
        MergeQueries(h, id, t);
        HitsMembers(terms, replies, t, id);
      }
      MergeFirstSeen(h, id);
    }
  }

  /** The `for repo in items:` loop: the dictionary absorbs one page run of hits in place. */
  method AddHits(repos: map<int, Entry>, ghost done: seq<Hit>, term: string, items: seq<Repo>)
    returns (updated: map<int, Entry>)
    requires repos == Merge(done)
    ensures updated == Merge(done + Tag(term, items))
  {
    updated := repos;
    assert done + Tag(term, items[..0]) == done;
    for j := 0 to |items|
      invariant updated == Merge(done + Tag(term, items[..j]))
    {
      var repo := items[j];
      ghost var sofar := done + Tag(term, items[..j]);
      TagSnoc(term, items, j);
      assert done + Tag(term, items[..j + 1]) == sofar + [(term, repo)];
      MergeSnoc(sofar, (term, repo));
      if repo.id in updated {
        updated := updated[repo.id := Entry(updated[repo.id].repoData, updated[repo.id].queries + {term})];
      } else {
        updated := updated[repo.id := Entry(repo, {term})];
      }
    }
    assert items[..|items|] == items;
  }

  /**
   * search_repositories_with_queries: for each term in order, walk its
   * pages (an error or a null response ends only that term's walk) and
   * merge every hit into the dictionary.
   */
  method SearchRepositories(terms: seq<string>, replies: string -> seq<Reply<Repo>>)
    returns (repos: map<int, Entry>)
    ensures repos == Merge(Hits(terms, replies))
  {
    repos := map[];
    for i := 0 to |terms|
      invariant repos == Merge(Hits(terms[..i], replies))
    {
      var term := terms[i];
      var items := FollowLinks(replies(term), NotNone);
      assert terms[..i + 1][..i] == terms[..i];
      repos := AddHits(repos, Hits(terms[..i], replies), term, items);
    }
    assert terms[..|terms|] == terms;
  }
}
