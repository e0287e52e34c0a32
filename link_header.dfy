/**
 * The HTTP `Link` header parser the GitHub page walkers use to find the
 * next page (get_next_link): a simplified reading of section 3 of RFC 8288
 * in which entries are separated by `,`, segments of an entry by `;`, and
 * only the second segment is compared with `rel="next"`.
 */
module LinkHeader {
  import opened Common

  const NextRel: string := "rel=\"next\""

  /** An entry announces the next page when its second segment, stripped, is rel="next". */
  predicate IsNextEntry(entry: string) {
    var parts := Split(entry, ';');
    |parts| >= 2 && Strip(parts[1]) == NextRel
  }

  /** The target of an entry: its first segment, stripped, without leading `<` and trailing `>`. */
  function EntryUrl(entry: string): string {
    RStripChar(LStripChar(Strip(Split(entry, ';')[0]), '<'), '>')
  }

  function FirstNext(entries: seq<string>): Option<string> {
    if entries == [] then None
    else if IsNextEntry(entries[0]) then Some(EntryUrl(entries[0]))
    else FirstNext(entries[1..])
  }

  /**
   * get_next_link: `header` is the value of the response's Link header,
   * None when the response has none.
   */
  function NextLink(header: Option<string>): Option<string> {
    if !Truthy(header) then None else FirstNext(Split(header.value, ','))
  }

  /** No entry announces the next page. */
  predicate NoNextEntry(entries: seq<string>) {
    forall i :: 0 <= i < |entries| ==> !IsNextEntry(entries[i])
  }

  /** FirstNext is the search for the first qualifying entry. */
  lemma {:induction false} FirstNextFinds(entries: seq<string>)
    ensures FirstNext(entries).None? <==> NoNextEntry(entries)
    ensures FirstNext(entries).Some? ==>
      exists i :: 0 <= i < |entries| && IsNextEntry(entries[i])
        && (forall j :: 0 <= j < i ==> !IsNextEntry(entries[j]))
        && FirstNext(entries).value == EntryUrl(entries[i])
  {
    if entries != [] && !IsNextEntry(entries[0]) {
      FirstNextFinds(entries[1..]);
      if FirstNext(entries).Some? {
        var i :| 0 <= i < |entries[1..]| && IsNextEntry(entries[1..][i])
          && (forall j :: 0 <= j < i ==> !IsNextEntry(entries[1..][j]))
          && FirstNext(entries[1..]).value == EntryUrl(entries[1..][i]);
        assert IsNextEntry(entries[i + 1]);
        forall j | 0 <= j < i + 1 ensures !IsNextEntry(entries[j]) {
          if j > 0 { assert entries[j] == entries[1..][j - 1]; }
        }
      }
      if NoNextEntry(entries[1..]) {
        forall i | 0 <= i < |entries| ensures !IsNextEntry(entries[i]) {
          if i > 0 { assert entries[i] == entries[1..][i - 1]; }
        }
      }
    } else if entries != [] {
      assert IsNextEntry(entries[0]);
    }
  }

  /**
   * get_next_link answers nothing for a missing or empty header, and
   * otherwise nothing exactly when no comma-separated entry has rel="next"
   * as its second segment; entries with fewer than two segments never
   * qualify.
   */
  lemma NextLinkAbsent(header: Option<string>)
    ensures !Truthy(header) ==> NextLink(header) == None
    ensures Truthy(header) ==>
      (NextLink(header).None? <==> NoNextEntry(Split(header.value, ',')))
  {
    if Truthy(header) {
      FirstNextFinds(Split(header.value, ','));
    }
  }

  /** When get_next_link answers, it is the target of the first qualifying entry. */
  lemma NextLinkFirst(header: Option<string>, entries: seq<string>)
    requires Truthy(header) && entries == Split(header.value, ',') && NextLink(header).Some?
    ensures exists i ::
              && 0 <= i < |entries| && IsNextEntry(entries[i])
              && (forall j :: 0 <= j < i ==> !IsNextEntry(entries[j]))
              && NextLink(header).value == EntryUrl(entries[i])
  {
    FirstNextFinds(entries);
  }

  // -----------------------------------------------------------------------
  // Round trip: a header written the way GitHub writes it parses back to
  // the first entry whose relation is "next".

  datatype Link = Link(url: string, rel: string)

  /** A link GitHub can write: no separators inside, no stray angle brackets at the ends. */
  predicate WellFormed(l: Link) {
    && ',' !in l.url && ';' !in l.url && ',' !in l.rel && ';' !in l.rel
    && (l.url != [] ==> l.url[0] != '<' && l.url[|l.url| - 1] != '>')
  }

  function RenderEntry(l: Link): string {
    "<" + l.url + ">; rel=\"" + l.rel + "\""
  }

  /** `<u1>; rel="r1", <u2>; rel="r2", ...` */
  function Render(links: seq<Link>): string {
    if links == [] then ""
    else if |links| == 1 then RenderEntry(links[0])
    else RenderEntry(links[0]) + ", " + Render(links[1..])
  }

  /** The URL of the first link whose relation is "next". */
  function FirstNextUrl(links: seq<Link>): Option<string> {
    if links == [] then None
    else if links[0].rel == "next" then Some(links[0].url)
    else FirstNextUrl(links[1..])
  }

  /** The entries `Render` writes, as `,` splits them: all but the first keep the space after the comma. */
  predicate RenderedPieces(ps: seq<string>, links: seq<Link>) {
    && |ps| == |links|
    && forall i :: 0 <= i < |ps| ==> ps[i] == (if i == 0 then "" else " ") + RenderEntry(links[i])
  }

  lemma {:induction false} SplitRender(p: string, links: seq<Link>)
    requires links != [] && ',' !in p
    requires forall i :: 0 <= i < |links| ==> WellFormed(links[i])
    ensures var r := Split(p + Render(links), ',');
      && |r| == |links| && r[0] == p + RenderEntry(links[0])
      && forall i :: 1 <= i < |r| ==> r[i] == " " + RenderEntry(links[i])
    decreases |links|
  {
    var e := RenderEntry(links[0]);
    assert ',' !in e by {
      assert e == "<" + links[0].url + ">; rel=\"" + links[0].rel + "\"";
    }
    if |links| == 1 {
      SplitNoSeparator(p + e, ',');
    } else {
      var rest := links[1..];
      assert p + Render(links) == (p + e) + [','] + (" " + Render(rest));
      SplitAround(p + e, ',', " " + Render(rest));
      assert forall i :: 0 <= i < |rest| ==> rest[i] == links[i + 1];
      SplitRender(" ", rest);
      var r := Split(p + Render(links), ',');
      var t := Split(" " + Render(rest), ',');
      assert r == [p + e] + t;
      forall i | 1 <= i < |r| ensures r[i] == " " + RenderEntry(links[i]) {
        assert r[i] == t[i - 1];
      }
    }
  }

  lemma SplitEntry(q: string, l: Link)
    requires q == "" || q == " "
    requires WellFormed(l)
    ensures Split(q + RenderEntry(l), ';') == [q + "<" + l.url + ">", " rel=\"" + l.rel + "\""]
  {
    var head := q + "<" + l.url + ">";
    var relPart := " rel=\"" + l.rel + "\"";
    assert q + RenderEntry(l) == head + [';'] + relPart;
    assert ';' !in head;
    assert ';' !in relPart;
    SplitAround(head, ';', relPart);
    SplitNoSeparator(relPart, ';');
  }

  lemma RelParses(rel: string)
    ensures Strip(" rel=\"" + rel + "\"") == NextRel <==> rel == "next"
  {
    var relBody := "rel=\"" + rel + "\"";
    assert (" rel=\"" + rel + "\"")[1..] == relBody;
    StripLeftNoSpace(relBody);
    assert StripLeft(" rel=\"" + rel + "\"") == relBody;
    StripRightNoSpace(relBody);
    if relBody == NextRel {
      assert relBody[5..|relBody| - 1] == rel;
      assert NextRel[5..|NextRel| - 1] == "next";
    }
  }

  lemma UrlParses(q: string, url: string)
    requires q == "" || q == " "
    requires url != [] ==> url[0] != '<' && url[|url| - 1] != '>'
    ensures RStripChar(LStripChar(Strip(q + "<" + url + ">"), '<'), '>') == url
  {
    var bracketed := "<" + url + ">";
    assert q + "<" + url + ">" == q + bracketed;
    StripPadded(q, bracketed);
    Unbracket(url);
  }

  lemma StripPadded(q: string, b: string)
    requires q == "" || q == " "
    requires b != [] && !IsSpace(b[0]) && !IsSpace(b[|b| - 1])
    ensures Strip(q + b) == b
  {
    if q == " " {
      assert (q + b)[1..] == b;
      StripLeftOne(q + b);
    } else {
      assert q + b == b;
      StripLeftNoSpace(b);
    }
    StripRightNoSpace(b);
  }

  lemma Unbracket(url: string)
    requires url != [] ==> url[0] != '<' && url[|url| - 1] != '>'
    ensures RStripChar(LStripChar("<" + url + ">", '<'), '>') == url
  {
    var tail := url + ">";
    var b := "<" + tail;
    assert "<" + url + ">" == b;
    assert b[1..] == tail && b[1] == tail[0];
    LStripOne(b, '<');
    assert LStripChar(b, '<') == tail;
    UnbracketRight(url, tail);
  }

  lemma UnbracketRight(url: string, tail: string)
    requires url != [] ==> url[|url| - 1] != '>'
    requires tail == url + ">"
    ensures RStripChar(tail, '>') == url
  {
    if url != [] {
      assert tail[|tail| - 2] == url[|url| - 1];
    }
    RStripOne(tail, '>');
    assert tail[..|tail| - 1] == url;
  }

  lemma PieceParses(q: string, l: Link)
    requires q == "" || q == " "
    requires WellFormed(l)
    ensures IsNextEntry(q + RenderEntry(l)) <==> l.rel == "next"
    ensures EntryUrl(q + RenderEntry(l)) == l.url
  {
    SplitEntry(q, l);
    RelParses(l.rel);
    UrlParses(q, l.url);
  }

  lemma FirstNextStep(ps: seq<string>, k: nat)
    requires k < |ps|
    ensures FirstNext(ps[k..]) == if IsNextEntry(ps[k]) then Some(EntryUrl(ps[k])) else FirstNext(ps[k + 1..])
  {
    assert ps[k..][0] == ps[k];
    assert ps[k..][1..] == ps[k + 1..];
  }

  lemma FirstNextUrlStep(links: seq<Link>, k: nat)
    requires k < |links|
    ensures FirstNextUrl(links[k..]) == if links[k].rel == "next" then Some(links[k].url) else FirstNextUrl(links[k + 1..])
  {
    assert links[k..][0] == links[k];
    assert links[k..][1..] == links[k + 1..];
  }

  /** Entry by entry, the parsed pieces say what the links say. */
  predicate Agree(ps: seq<string>, links: seq<Link>) {
    && |ps| == |links|
    && forall i :: 0 <= i < |ps| ==> (IsNextEntry(ps[i]) <==> links[i].rel == "next") && EntryUrl(ps[i]) == links[i].url
  }

  lemma RenderedAgree(ps: seq<string>, links: seq<Link>)
    requires RenderedPieces(ps, links)
    requires forall i :: 0 <= i < |links| ==> WellFormed(links[i])
    ensures Agree(ps, links)
  {
    forall i | 0 <= i < |ps|
      ensures (IsNextEntry(ps[i]) <==> links[i].rel == "next") && EntryUrl(ps[i]) == links[i].url
    {
      PieceParses(if i == 0 then "" else " ", links[i]);
    }
  }

  lemma {:induction false} FirstNextOfPieces(ps: seq<string>, links: seq<Link>, k: nat)
    requires k <= |links| && Agree(ps, links)
    ensures FirstNext(ps[k..]) == FirstNextUrl(links[k..])
    decreases |links| - k
  {
    if k < |links| {
      FirstNextStep(ps, k);
      FirstNextUrlStep(links, k);
      FirstNextOfPieces(ps, links, k + 1);
    } else {
      assert ps[k..] == [] && links[k..] == [];
    }
  }

  /** Parsing a rendered header finds the first link whose relation is "next". */
  lemma NextLinkOfRendered(links: seq<Link>)
    requires forall i :: 0 <= i < |links| ==> WellFormed(links[i])
    ensures NextLink(Some(Render(links))) == FirstNextUrl(links)
  {
    if links != [] {
      var text := Render(links);
      var ps := Split(text, ',');
      assert RenderedPieces(ps, links) by {
        SplitRender("", links);
        assert "" + text == text;
      }
      RenderedAgree(ps, links);
      FirstNextOfPieces(ps, links, 0);
      assert ps[0..] == ps;
      assert links[0..] == links;
      assert text != "" by {
        assert ps[0] == RenderEntry(links[0]);
      }
    }
  }
}
