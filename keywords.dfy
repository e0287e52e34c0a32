/**
 * Keyword matching in repofinder: whole-word search of keywords in
 * lowercased text (contains_keywords, count_keyword_matches), the
 * hierarchical keyword tallies (match_repository_keywords) and the project
 * type vote (determine_project_type).
 *
 * `re.search(r'\b' + re.escape(k) + r'\b', text)` is modelled exactly for
 * word characters taken as ASCII letters, digits and `_`: the keyword occurs
 * literally at a position where both ends sit on a word boundary.
 */
module Keywords {
  import opened Common

  predicate IsWordChar(c: char) {
    ('a' <= c <= 'z') || ('A' <= c <= 'Z') || ('0' <= c <= '9') || c == '_'
  }

  /** Whether the character at index i is a word character; outside the text it is not. */
  predicate WordAt(s: string, i: int) {
    0 <= i < |s| && IsWordChar(s[i])
  }

  /** `\b` at position p: a word character on exactly one side. */
  predicate Boundary(s: string, p: int) {
    WordAt(s, p - 1) != WordAt(s, p)
  }

  /** `re.search(r'\b' + re.escape(k) + r'\b', s)` finds a match. */
  predicate WordIn(s: string, k: string) {
    exists i :: 0 <= i <= |s| - |k| && OccursAt(s, k, i) && Boundary(s, i) && Boundary(s, i + |k|)
  }

  // -----------------------------------------------------------------------
  // contains_keywords and count_keyword_matches

  /** contains_keywords: some keyword occurs as a whole word in the lowercased text. */
  method ContainsKeywords(text: string, keywords: seq<string>) returns (found: bool)
    ensures found <==> exists i :: 0 <= i < |keywords| && WordIn(Lower(text), keywords[i])
  {
    var lowered := Lower(text);
    for i := 0 to |keywords|
      invariant forall j :: 0 <= j < i ==> !WordIn(lowered, keywords[j])
    {
      if WordIn(lowered, keywords[i]) {
        return true;
      }
    }
    return false;
  }

  /** The keywords that occur as whole words in `lowered`, in iteration order. */
  function MatchedKeywords(lowered: string, keywords: seq<string>): seq<string> {
    if keywords == [] then []
    else
      var init := MatchedKeywords(lowered, keywords[..|keywords| - 1]);
      var k := keywords[|keywords| - 1];
      if WordIn(lowered, k) then init + [k] else init
  }

  /** A keyword is matched exactly when it is one of the keywords and occurs as a whole word. */
  lemma {:induction false} MatchedKeywordsMembers(lowered: string, keywords: seq<string>, k: string)
    ensures k in MatchedKeywords(lowered, keywords) <==> k in keywords && WordIn(lowered, k)
  {
    if keywords != [] {
      var init := keywords[..|keywords| - 1];
      MatchedKeywordsMembers(lowered, init, k);
      assert keywords == init + [keywords[|keywords| - 1]];
    }
  }

  /** Each keyword is matched as often as it is listed when it occurs as a whole word, and never otherwise. */
  lemma {:induction false} MatchedKeywordsCount(lowered: string, keywords: seq<string>, k: string)
    ensures multiset(MatchedKeywords(lowered, keywords))[k] == if WordIn(lowered, k) then multiset(keywords)[k] else 0
  {
    if keywords != [] {
      var init := keywords[..|keywords| - 1];
      MatchedKeywordsCount(lowered, init, k);
      assert keywords == init + [keywords[|keywords| - 1]];
    }
  }

  /**
   * The keyword lists are set literals, iterated in no fixed order: any
   * order of the same keywords matches the same keywords, as many of them.
   */
  lemma MatchedKeywordsReorder(lowered: string, keywords: seq<string>, reordered: seq<string>)
    requires multiset(keywords) == multiset(reordered)
    ensures multiset(MatchedKeywords(lowered, keywords)) == multiset(MatchedKeywords(lowered, reordered))
    ensures |MatchedKeywords(lowered, keywords)| == |MatchedKeywords(lowered, reordered)|
  {
    forall k
      ensures multiset(MatchedKeywords(lowered, keywords))[k] == multiset(MatchedKeywords(lowered, reordered))[k]
    {
      MatchedKeywordsCount(lowered, keywords, k);
      MatchedKeywordsCount(lowered, reordered, k);
    }
    assert multiset(MatchedKeywords(lowered, keywords)) == multiset(MatchedKeywords(lowered, reordered));
    assert |multiset(MatchedKeywords(lowered, keywords))| == |MatchedKeywords(lowered, keywords)|;
    assert |multiset(MatchedKeywords(lowered, reordered))| == |MatchedKeywords(lowered, reordered)|;
  }

  /** The match count is positive exactly when some keyword occurs, as contains_keywords answers. */
  lemma CountPositiveIffContains(lowered: string, keywords: seq<string>)
    ensures |MatchedKeywords(lowered, keywords)| > 0 <==> exists i :: 0 <= i < |keywords| && WordIn(lowered, keywords[i])
  {
    var m := MatchedKeywords(lowered, keywords);
    if |m| > 0 {
      MatchedKeywordsMembers(lowered, keywords, m[0]);
      var i :| 0 <= i < |keywords| && keywords[i] == m[0];
    }
    if exists i :: 0 <= i < |keywords| && WordIn(lowered, keywords[i]) {
      var i :| 0 <= i < |keywords| && WordIn(lowered, keywords[i]);
      MatchedKeywordsMembers(lowered, keywords, keywords[i]);
    }
  }

  /** count_keyword_matches: the matched keywords in iteration order, and their number. */
  method CountKeywordMatches(text: string, keywords: seq<string>) returns (count: nat, matched: seq<string>)
    ensures matched == MatchedKeywords(Lower(text), keywords)
    ensures count == |matched|
    ensures forall k :: k in matched ==> k in keywords
  {
    var lowered := Lower(text);
    matched := [];
    for i := 0 to |keywords|
      invariant matched == MatchedKeywords(lowered, keywords[..i])
    {
      assert keywords[..i + 1][..i] == keywords[..i];
      if WordIn(lowered, keywords[i]) {
        matched := matched + [keywords[i]];
      }
    }
    assert keywords[..|keywords|] == keywords;
    count := |matched|;
    forall k | k in matched ensures k in keywords {
      MatchedKeywordsMembers(lowered, keywords, k);
    }
  }

  // -----------------------------------------------------------------------
  // match_repository_keywords

  /** `re.findall(r'\b\w+\b', s)`: the maximal runs of word characters, in order. */
  function Tokens(s: string): (r: seq<string>)
    ensures forall i :: 0 <= i < |r| ==> r[i] != [] && forall j :: 0 <= j < |r[i]| ==> IsWordChar(r[i][j])
    decreases |s|
  {
    if s == [] then []
    else if !IsWordChar(s[0]) then Tokens(s[1..])
    else
      var n := WordRun(s);
      [s[..n]] + Tokens(s[n..])
  }

  /** The length of the run of word characters at the start of s. */
  function WordRun(s: string): (n: nat)
    ensures n <= |s|
    ensures forall j :: 0 <= j < n ==> IsWordChar(s[j])
    ensures n < |s| ==> !IsWordChar(s[n])
  {
    if s == [] || !IsWordChar(s[0]) then 0 else 1 + WordRun(s[1..])
  }

  function SetOf(s: seq<string>): set<string> {
    set i | 0 <= i < |s| :: s[i]
  }

  function LowerAll(s: seq<string>): (r: seq<string>)
    ensures |r| == |s| && forall i :: 0 <= i < |s| ==> r[i] == Lower(s[i])
  {
    seq(|s|, i requires 0 <= i < |s| => Lower(s[i]))
  }

  /** One row of the hierarchical keyword dataset. */
  datatype Entry = Entry(domain: string, field: string, subfield: string, topic: string, keywords: seq<string>)

  datatype Level = Domain | Field | Subfield | Topic

  function NameAt(e: Entry, level: Level): string {
    match level
    case Domain => e.domain
    case Field => e.field
    case Subfield => e.subfield
    case Topic => e.topic
  }

  /** `repo_words.intersection(keywords)` for one entry. */
  function Overlap(words: set<string>, e: Entry): set<string> {
    words * SetOf(LowerAll(e.keywords))
  }

  /** The score dictionary of one level after the given entries. */
  function Scores(entries: seq<Entry>, words: set<string>, level: Level): map<string, nat> {
    if entries == [] then map[]
    else
      var m := Scores(entries[..|entries| - 1], words, level);
      var e := entries[|entries| - 1];
      if Overlap(words, e) == {} then m
      else
        var name := NameAt(e, level);
        m[name := (if name in m then m[name] else 0) + 1]
  }

  /** The number of entries that matched and carry `name` at `level`. */
  function MatchingWithName(entries: seq<Entry>, words: set<string>, level: Level, name: string): nat {
    if entries == [] then 0
    else
      var e := entries[|entries| - 1];
      MatchingWithName(entries[..|entries| - 1], words, level, name)
        + (if Overlap(words, e) != {} && NameAt(e, level) == name then 1 else 0)
  }

  /**
   * A level's dictionary has a key for each name carried by a matching
   * entry, and its count is the number of matching entries with that name.
   */
  lemma {:induction false} ScoresCount(entries: seq<Entry>, words: set<string>, level: Level, name: string)
    ensures name in Scores(entries, words, level) <==> MatchingWithName(entries, words, level, name) > 0
    ensures name in Scores(entries, words, level) ==>
      Scores(entries, words, level)[name] == MatchingWithName(entries, words, level, name)
  {
    if entries != [] {
      ScoresCount(entries[..|entries| - 1], words, level, name);
    }
  }

  /** The union of the matches of the given entries. */
  function MatchedWords(entries: seq<Entry>, words: set<string>): set<string> {
    if entries == [] then {}
    else MatchedWords(entries[..|entries| - 1], words) + Overlap(words, entries[|entries| - 1])
  }

  /** The matched keywords are the repository words that are a (lowercased) keyword of some entry. */
  lemma {:induction false} MatchedWordsSpec(entries: seq<Entry>, words: set<string>, w: string)
    ensures w in MatchedWords(entries, words) <==>
      w in words && exists i :: 0 <= i < |entries| && w in SetOf(LowerAll(entries[i].keywords))
  {
    if entries != [] {
      var init := entries[..|entries| - 1];
      MatchedWordsSpec(init, words, w);
      if exists i :: 0 <= i < |init| && w in SetOf(LowerAll(init[i].keywords)) {
        var i :| 0 <= i < |init| && w in SetOf(LowerAll(init[i].keywords));
        assert entries[i] == init[i];
      }
      if exists i :: 0 <= i < |entries| && w in SetOf(LowerAll(entries[i].keywords)) {
        var i :| 0 <= i < |entries| && w in SetOf(LowerAll(entries[i].keywords));
        if i < |init| {
          assert entries[i] == init[i];
        }
      }
    }
  }

  datatype Tallies = Tallies(domains: map<string, nat>, fields: map<string, nat>,
                             subfields: map<string, nat>, topics: map<string, nat>)

  /** The four score dictionaries after the given entries. */
  function TalliesOf(entries: seq<Entry>, words: set<string>): Tallies {
    Tallies(Scores(entries, words, Domain), Scores(entries, words, Field),
            Scores(entries, words, Subfield), Scores(entries, words, Topic))
  }

  function Bump(m: map<string, nat>, name: string): map<string, nat> {
    m[name := (if name in m then m[name] else 0) + 1]
  }

  /** One entry's effect on the four dictionaries and the matched set. */
  lemma TalliesStep(entries: seq<Entry>, words: set<string>, i: nat)
    requires i < |entries|
    ensures var e := entries[i];
      var before := TalliesOf(entries[..i], words);
      && TalliesOf(entries[..i + 1], words) ==
        (if Overlap(words, e) == {} then before
         else Tallies(Bump(before.domains, e.domain), Bump(before.fields, e.field),
                      Bump(before.subfields, e.subfield), Bump(before.topics, e.topic)))
      && MatchedWords(entries[..i + 1], words) == MatchedWords(entries[..i], words) + Overlap(words, e)
  {
    assert entries[..i + 1][..i] == entries[..i];
  }

  /**
   * match_repository_keywords: each entry whose lowercased keywords meet
   * the repository's words adds one to its domain, field, subfield and
   * topic, and its common words join the matched set.
   */
  method MatchRepositoryKeywords(repoText: string, entries: seq<Entry>) returns (scores: Tallies, matched: set<string>)
    ensures scores == TalliesOf(entries, SetOf(Tokens(Lower(repoText))))
    ensures matched == MatchedWords(entries, SetOf(Tokens(Lower(repoText))))
  {
    var words := SetOf(Tokens(Lower(repoText)));
    scores := Tallies(map[], map[], map[], map[]);
    matched := {};
    for i := 0 to |entries|
      invariant scores == TalliesOf(entries[..i], words)
      invariant matched == MatchedWords(entries[..i], words)
    {
      TalliesStep(entries, words, i);
      var e := entries[i];
      var common := words * SetOf(LowerAll(e.keywords));
      if common != {} {
        matched := matched + common;
        scores := Tallies(Bump(scores.domains, e.domain), Bump(scores.fields, e.field),
                          Bump(scores.subfields, e.subfield), Bump(scores.topics, e.topic));
      }
    }
    assert entries[..|entries|] == entries;
  }

  // -----------------------------------------------------------------------
  // determine_project_type

  const ClassProjectKeywords: seq<string> := ["assignment", "homework", "hw", "coursework"]
  const ResearchKeywords: seq<string> :=
    ["research", "thesis", "dissertation", "paper", "publication", "study", "experiment", "analysis", "used in"]
  const SyllabusKeywords: seq<string> :=
    ["syllabus", "curriculum", "outline", "schedule", "taught", "students", "course", "class",
     "lecture", "tutorial", "exam", "quiz"]

  const ClassProject: string := "Class Project"
  const ResearchProject: string := "Research Project"
  const Syllabus: string := "Syllabus"

  function Max3(a: int, b: int, c: int): int {
    if a >= b && a >= c then a else if b >= c then b else c
  }

  /** The categories whose score equals the maximum, in dictionary order. */
  function TopCategories(classScore: nat, researchScore: nat, syllabusScore: nat): seq<string> {
    var m := Max3(classScore, researchScore, syllabusScore);
    (if classScore == m then [ClassProject] else [])
      + (if researchScore == m then [ResearchProject] else [])
      + (if syllabusScore == m then [Syllabus] else [])
  }

  /**
   * The decision of determine_project_type from the three scores: "Other"
   * when every score is 0, the category with the unique highest score, and
   * otherwise "Tie: " and the tied categories in the order Class Project,
   * Research Project, Syllabus.
   */
  function ProjectType(classScore: nat, researchScore: nat, syllabusScore: nat): (r: string)
    ensures r == "Other" <==> classScore == 0 && researchScore == 0 && syllabusScore == 0
  {
    var top := TopCategories(classScore, researchScore, syllabusScore);
    if Max3(classScore, researchScore, syllabusScore) == 0 then "Other"
    else if |top| == 1 then top[0]
    else "Tie: " + Join(top, ", ")
  }

  /** A unique highest score names its category. */
  lemma ProjectTypeWinner(classScore: nat, researchScore: nat, syllabusScore: nat)
    ensures classScore > researchScore && classScore > syllabusScore ==>
      ProjectType(classScore, researchScore, syllabusScore) == ClassProject
    ensures researchScore > classScore && researchScore > syllabusScore ==>
      ProjectType(classScore, researchScore, syllabusScore) == ResearchProject
    ensures syllabusScore > classScore && syllabusScore > researchScore ==>
      ProjectType(classScore, researchScore, syllabusScore) == Syllabus
  {
  }

  /** Class Project and Research Project share the highest score. */
  lemma ProjectTypeTieClassResearch(classScore: nat, researchScore: nat, syllabusScore: nat)
    requires 0 < classScore == researchScore && researchScore > syllabusScore
    ensures ProjectType(classScore, researchScore, syllabusScore) == "Tie: " + ClassProject + ", " + ResearchProject
  {
    var top := TopCategories(classScore, researchScore, syllabusScore);
    assert top == [ClassProject, ResearchProject];
    assert Join(top[1..], ", ") == ResearchProject;
  }

  /** Class Project and Syllabus share the highest score. */
  lemma ProjectTypeTieClassSyllabus(classScore: nat, researchScore: nat, syllabusScore: nat)
    requires 0 < classScore == syllabusScore && syllabusScore > researchScore
    ensures ProjectType(classScore, researchScore, syllabusScore) == "Tie: " + ClassProject + ", " + Syllabus
  {
    var top := TopCategories(classScore, researchScore, syllabusScore);
    assert top == [ClassProject, Syllabus];
    assert Join(top[1..], ", ") == Syllabus;
  }

  /** Research Project and Syllabus share the highest score. */
  lemma ProjectTypeTieResearchSyllabus(classScore: nat, researchScore: nat, syllabusScore: nat)
    requires 0 < researchScore == syllabusScore && syllabusScore > classScore
    ensures ProjectType(classScore, researchScore, syllabusScore) == "Tie: " + ResearchProject + ", " + Syllabus
  {
    var top := TopCategories(classScore, researchScore, syllabusScore);
    assert top == [ResearchProject, Syllabus];
    assert Join(top[1..], ", ") == Syllabus;
  }

  lemma JoinThree(x: string, y: string, z: string, sep: string)
    ensures Join([x, y, z], sep) == x + sep + y + sep + z
  {
    assert [x, y, z][1..] == [y, z];
    assert [y, z][1..] == [z];
    assert Join([z], sep) == z;
    assert Join([y, z], sep) == y + sep + z;
  }

  /** All three categories share the highest score. */
  lemma ProjectTypeTieAll(score: nat)
    requires 0 < score
    ensures ProjectType(score, score, score) == "Tie: " + ClassProject + ", " + ResearchProject + ", " + Syllabus
  {
    var top := TopCategories(score, score, score);
    assert top == [ClassProject, ResearchProject, Syllabus];
    JoinThree(ClassProject, ResearchProject, Syllabus, ", ");
  }

  /** The verdict is the same whatever order the three keyword sets are walked in. */
  lemma ProjectTypeOrderFree(lowered: string, classOrder: seq<string>, researchOrder: seq<string>, syllabusOrder: seq<string>)
    requires multiset(classOrder) == multiset(ClassProjectKeywords)
    requires multiset(researchOrder) == multiset(ResearchKeywords)
    requires multiset(syllabusOrder) == multiset(SyllabusKeywords)
    ensures ProjectType(|MatchedKeywords(lowered, classOrder)|, |MatchedKeywords(lowered, researchOrder)|,
                        |MatchedKeywords(lowered, syllabusOrder)|)
         == ProjectType(|MatchedKeywords(lowered, ClassProjectKeywords)|, |MatchedKeywords(lowered, ResearchKeywords)|,
                        |MatchedKeywords(lowered, SyllabusKeywords)|)
  {
    MatchedKeywordsReorder(lowered, classOrder, ClassProjectKeywords);
    MatchedKeywordsReorder(lowered, researchOrder, ResearchKeywords);
    MatchedKeywordsReorder(lowered, syllabusOrder, SyllabusKeywords);
  }

  /**
   * determine_project_type: the three keyword counts over the combined
   * name, description, topics, README and file names.
   */
  method DetermineProjectType(repoName: string, description: string, topics: seq<string>,
                              readme: string, files: seq<string>)
    returns (projectType: string, classMatches: seq<string>, researchMatches: seq<string>, syllabusMatches: seq<string>)
    ensures var text := Join([repoName, description, Join(topics, " "), readme], " ") + " " + Join(files, " ");
      && classMatches == MatchedKeywords(Lower(text), ClassProjectKeywords)
      && researchMatches == MatchedKeywords(Lower(text), ResearchKeywords)
      && syllabusMatches == MatchedKeywords(Lower(text), SyllabusKeywords)
      && projectType == ProjectType(|classMatches|, |researchMatches|, |syllabusMatches|)
  {
    var text := Join([repoName, description, Join(topics, " "), readme], " ") + " " + Join(files, " ");
    var classScore, researchScore, syllabusScore;
    classScore, classMatches := CountKeywordMatches(text, ClassProjectKeywords);
    researchScore, researchMatches := CountKeywordMatches(text, ResearchKeywords);
    syllabusScore, syllabusMatches := CountKeywordMatches(text, SyllabusKeywords);
    projectType := ProjectType(classScore, researchScore, syllabusScore);
  }
}
