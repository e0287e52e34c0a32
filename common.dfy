/**
 * Values and string operations shared by the harvesting scripts: an Option
 * type, Python's str.lower / str.strip / str.split / str.count /
 * str.startswith / `in`, and small sequence helpers.
 *
 * Strings are sequences of characters.  Case folding covers ASCII letters
 * only; whitespace is Python's str.isspace set.
 */
module Common {

  datatype Option<T> = None | Some(value: T)

  /** A Python value that is "truthy" when it is a non-empty string. */
  predicate Truthy(s: Option<string>) {
    s.Some? && s.value != ""
  }

  /** `x or ''` for an optional string. */
  function OrEmpty(s: Option<string>): string {
    if s.Some? then s.value else ""
  }

  // ---------------------------------------------------------------------
  // Case

  function LowerChar(c: char): char {
    if 'A' <= c <= 'Z' then (c as int + 32) as char else c
  }

  /** str.lower() on ASCII letters. */
  function Lower(s: string): (r: string)
    ensures |r| == |s|
    ensures forall i :: 0 <= i < |s| ==> r[i] == LowerChar(s[i])
  {
    if s == [] then [] else [LowerChar(s[0])] + Lower(s[1..])
  }

  /** No ASCII capital letter in s. */
  predicate NoUpper(s: string) {
    s == [] || (!('A' <= s[0] <= 'Z') && NoUpper(s[1..]))
  }

  lemma {:induction false} NoUpperLower(s: string)
    requires NoUpper(s)
    ensures Lower(s) == s
  {
    if s != [] {
      NoUpperLower(s[1..]);
      assert [s[0]] + s[1..] == s;
    }
  }

  // ---------------------------------------------------------------------
  // Whitespace and stripping

  /** Python's str.isspace() for a single character. */
  predicate IsSpace(c: char) {
    c == ' ' || ('\t' <= c <= '\r') || ('\U{1c}' <= c <= '\U{1f}')
    || c == '\U{85}' || c == '\U{a0}' || c == '\U{1680}'
    || ('\U{2000}' <= c <= '\U{200a}') || c == '\U{2028}' || c == '\U{2029}'
    || c == '\U{202f}' || c == '\U{205f}' || c == '\U{3000}'
  }

  function StripLeft(s: string): (r: string)
    ensures |r| <= |s| && r == s[|s| - |r|..]
    ensures r != [] ==> !IsSpace(r[0])
    ensures forall i :: 0 <= i < |s| - |r| ==> IsSpace(s[i])
  {
    if s != [] && IsSpace(s[0]) then StripLeft(s[1..]) else s
  }

  function StripRight(s: string): (r: string)
    ensures |r| <= |s| && r == s[..|r|]
    ensures r != [] ==> !IsSpace(r[|r| - 1])
    ensures forall i :: |r| <= i < |s| ==> IsSpace(s[i])
  {
    if s != [] && IsSpace(s[|s| - 1]) then StripRight(s[..|s| - 1]) else s
  }

  /** str.strip() with no argument. */
  function Strip(s: string): string {
    StripRight(StripLeft(s))
  }

  /** str.lstrip(c) for a single character c. */
  function LStripChar(s: string, c: char): (r: string)
    ensures |r| <= |s| && r == s[|s| - |r|..]
    ensures r != [] ==> r[0] != c
    ensures forall i :: 0 <= i < |s| - |r| ==> s[i] == c
  {
    if s != [] && s[0] == c then LStripChar(s[1..], c) else s
  }

  /** str.rstrip(c) for a single character c. */
  function RStripChar(s: string, c: char): (r: string)
    ensures |r| <= |s| && r == s[..|r|]
    ensures r != [] ==> r[|r| - 1] != c
    ensures forall i :: |r| <= i < |s| ==> s[i] == c
  {
    if s != [] && s[|s| - 1] == c then RStripChar(s[..|s| - 1], c) else s
  }

  /** str.strip(c) for a single character c. */
  function StripChar(s: string, c: char): string {
    RStripChar(LStripChar(s, c), c)
  }

  lemma LStripOne(s: string, c: char)
    requires s != [] && s[0] == c && (|s| == 1 || s[1] != c)
    ensures LStripChar(s, c) == s[1..]
  {
    assert LStripChar(s, c) == LStripChar(s[1..], c);
  }

  lemma RStripOne(s: string, c: char)
    requires s != [] && s[|s| - 1] == c && (|s| == 1 || s[|s| - 2] != c)
    ensures RStripChar(s, c) == s[..|s| - 1]
  {
    assert RStripChar(s, c) == RStripChar(s[..|s| - 1], c);
  }

  lemma StripLeftOne(s: string)
    requires s != [] && IsSpace(s[0]) && (|s| == 1 || !IsSpace(s[1]))
    ensures StripLeft(s) == s[1..]
  {
    assert StripLeft(s) == StripLeft(s[1..]);
  }

  lemma StripLeftNoSpace(s: string)
    requires s == [] || !IsSpace(s[0])
    ensures StripLeft(s) == s
  {
  }

  lemma StripRightNoSpace(s: string)
    requires s == [] || !IsSpace(s[|s| - 1])
    ensures StripRight(s) == s
  {
  }

  // ---------------------------------------------------------------------
  // Searching

  predicate OccursAt(s: string, sub: string, i: int) {
    0 <= i && i + |sub| <= |s| && s[i..i + |sub|] == sub
  }

  /** Python's `sub in s`. */
  predicate Contains(s: string, sub: string) {
    exists i :: 0 <= i <= |s| - |sub| && OccursAt(s, sub, i)
  }

  predicate StartsWith(s: string, prefix: string) {
    |prefix| <= |s| && s[..|prefix|] == prefix
  }

  /**
   * str.count(sub): the number of non-overlapping occurrences found left to
   * right; Python answers len(s) + 1 for the empty substring.
   */
  function CountOccurrences(s: string, sub: string): nat
    decreases |s|
  {
    if sub == "" then |s| + 1
    else if |s| < |sub| then 0
    else if s[..|sub|] == sub then 1 + CountOccurrences(s[|sub|..], sub)
    else CountOccurrences(s[1..], sub)
  }

  /** str.count answers a positive number exactly when the substring occurs. */
  lemma {:induction false} CountPositiveIffContains(s: string, sub: string)
    ensures CountOccurrences(s, sub) > 0 <==> Contains(s, sub)
    decreases |s|
  {
    if sub == "" {
      assert OccursAt(s, sub, 0);
    } else if |s| < |sub| {
    } else if s[..|sub|] == sub {
      assert OccursAt(s, sub, 0);
    } else {
      CountPositiveIffContains(s[1..], sub);
      ContainsPastFirst(s, sub);
    }
  }

  lemma ContainsPastFirst(s: string, sub: string)
    requires |sub| <= |s| && s[..|sub|] != sub
    ensures Contains(s, sub) <==> Contains(s[1..], sub)
  {
    if Contains(s[1..], sub) {
      var i :| 0 <= i <= |s[1..]| - |sub| && OccursAt(s[1..], sub, i);
      assert s[1..][i..i + |sub|] == s[i + 1..i + 1 + |sub|];
      assert OccursAt(s, sub, i + 1);
    }
    if Contains(s, sub) {
      var i :| 0 <= i <= |s| - |sub| && OccursAt(s, sub, i);
      assert i != 0;
      assert s[1..][i - 1..i - 1 + |sub|] == s[i..i + |sub|];
      assert OccursAt(s[1..], sub, i - 1);
    }
  }

  // ---------------------------------------------------------------------
  // Splitting and joining

  /** str.split(c) for a single-character separator. */
  function Split(s: string, c: char): (r: seq<string>)
    ensures |r| >= 1
  {
    if s == [] then [""]
    else
      var rest := Split(s[1..], c);
      if s[0] == c then [""] + rest else [[s[0]] + rest[0]] + rest[1..]
  }

  /** sep.join(parts). */
  function Join(parts: seq<string>, sep: string): string {
    if parts == [] then ""
    else if |parts| == 1 then parts[0]
    else parts[0] + sep + Join(parts[1..], sep)
  }

  lemma {:induction false} SplitNoSeparator(s: string, c: char)
    requires c !in s
    ensures Split(s, c) == [s]
  {
    if s != [] {
      SplitNoSeparator(s[1..], c);
      assert [s[0]] + s[1..] == s;
    }
  }

  lemma {:induction false} SplitAround(a: string, c: char, b: string)
    requires c !in a
    ensures Split(a + [c] + b, c) == [a] + Split(b, c)
  {
    if a == [] {
      assert (a + [c] + b)[1..] == b;
    } else {
      assert (a + [c] + b)[1..] == a[1..] + [c] + b;
      SplitAround(a[1..], c, b);
      assert [a[0]] + a[1..] == a;
    }
  }

  /** The pieces of a split contain no separator and rejoin to the input. */
  lemma SplitJoin(s: string, c: char)
    ensures Join(Split(s, c), [c]) == s
    ensures forall i :: 0 <= i < |Split(s, c)| ==> c !in Split(s, c)[i]
  {
    SplitRejoins(s, c);
    SplitPiecesClean(s, c);
  }

  lemma {:induction false} SplitRejoins(s: string, c: char)
    ensures Join(Split(s, c), [c]) == s
  {
    if s != [] {
      SplitRejoins(s[1..], c);
      var rest := Split(s[1..], c);
      if s[0] == c {
        assert Split(s, c) == [""] + rest;
        assert Join([""] + rest, [c]) == "" + [c] + Join(rest, [c]);
      } else {
        var r := Split(s, c);
        assert r == [[s[0]] + rest[0]] + rest[1..];
        if |rest| == 1 {
          assert Join(r, [c]) == [s[0]] + rest[0];
        } else {
          assert Join(rest, [c]) == rest[0] + [c] + Join(rest[1..], [c]);
          assert Join(r, [c]) == ([s[0]] + rest[0]) + [c] + Join(rest[1..], [c]);
        }
        assert [s[0]] + s[1..] == s;
      }
    }
  }

  lemma {:induction false} SplitPiecesClean(s: string, c: char)
    ensures forall i :: 0 <= i < |Split(s, c)| ==> c !in Split(s, c)[i]
  {
    if s != [] {
      SplitPiecesClean(s[1..], c);
      var rest := Split(s[1..], c);
      var r := Split(s, c);
      if s[0] == c {
        assert r == [""] + rest;
        forall i | 0 <= i < |r| ensures c !in r[i] {
          if i > 0 { assert r[i] == rest[i - 1]; }
        }
      } else {
        assert r == [[s[0]] + rest[0]] + rest[1..];
        forall i | 0 <= i < |r| ensures c !in r[i] {
          if i > 0 { assert r[i] == rest[i]; }
          else { assert c !in rest[0]; }
        }
      }
    }
  }

  /** A separator in the input makes at least two pieces. */
  lemma {:induction false} SplitSeveral(s: string, c: char)
    requires c in s
    ensures |Split(s, c)| >= 2
  {
    if s[0] != c {
      assert c in s[1..];
      SplitSeveral(s[1..], c);
    }
  }

  /**
   * Index of the first occurrence of c, or |s| when c does not occur.
   */
  function IndexOf(s: string, c: char): (i: nat)
    ensures i <= |s|
    ensures i < |s| ==> s[i] == c
    ensures c !in s[..i]
    ensures i == |s| <==> c !in s
  {
    if s == [] then 0
    else if s[0] == c then 0
    else
      var j := IndexOf(s[1..], c);
      assert s[..j + 1] == [s[0]] + s[1..][..j];
      j + 1
  }

  /**
   * Index just past the last occurrence of c, or 0 when c does not occur;
   * `s.split(c)[-1]` is s[AfterLast(s, c)..].
   */
  function AfterLast(s: string, c: char): (i: nat)
    ensures i <= |s|
    ensures i > 0 ==> s[i - 1] == c
    ensures c !in s[i..]
    ensures i == 0 <==> c !in s
  {
    if s == [] then 0
    else if s[|s| - 1] == c then |s|
    else
      var j := AfterLast(s[..|s| - 1], c);
      assert s[j..] == s[..|s| - 1][j..] + [s[|s| - 1]];
      j
  }

  /** The last piece of a split is the text after the last separator. */
  lemma {:induction false} LastPieceOfSplit(s: string, c: char)
    ensures Split(s, c)[|Split(s, c)| - 1] == s[AfterLast(s, c)..]
    decreases |s|
  {
    if s != [] {
      LastPieceOfSplit(s[1..], c);
      var rest := Split(s[1..], c);
      var k := AfterLast(s[1..], c);
      if c in s[1..] {
        assert AfterLast(s, c) == k + 1 by { AfterLastShift(s, c); }
        assert s[k + 1..] == s[1..][k..];
        SplitSeveral(s[1..], c);
        assert Split(s, c)[|Split(s, c)| - 1] == rest[|rest| - 1];
      } else {
        SplitNoSeparator(s[1..], c);
        assert AfterLast(s, c) == (if s[0] == c then 1 else 0) by { AfterLastShift(s, c); }
        assert [s[0]] + s[1..] == s;
      }
    }
  }

  lemma {:induction false} AfterLastShift(s: string, c: char)
    requires s != []
    ensures c in s[1..] ==> AfterLast(s, c) == AfterLast(s[1..], c) + 1
    ensures c !in s[1..] ==> AfterLast(s, c) == (if s[0] == c then 1 else 0)
    decreases |s|
  {
    if s[|s| - 1] == c {
      if |s| == 1 {
        assert s[1..] == [];
      } else {
        assert s[1..][|s[1..]| - 1] == c;
      }
    } else if |s| == 1 {
    } else {
      var t := s[..|s| - 1];
      AfterLastShift(t, c);
      assert t[1..] == s[1..][..|s[1..]| - 1];
      assert c in s[1..] <==> c in t[1..];
    }
  }

  // ---------------------------------------------------------------------
  // Sequences

  predicate Distinct<T(==)>(s: seq<T>) {
    forall i, j :: 0 <= i < j < |s| ==> s[i] != s[j]
  }

  /** The concatenation of a sequence of sequences (list.extend, page after page). */
  function Flatten<T>(pages: seq<seq<T>>): seq<T> {
    if pages == [] then [] else Flatten(pages[..|pages| - 1]) + pages[|pages| - 1]
  }

  lemma FlattenSnoc<T>(pages: seq<seq<T>>, page: seq<T>)
    ensures Flatten(pages + [page]) == Flatten(pages) + page
  {
    assert (pages + [page])[..|pages|] == pages;
  }

  /** Some element of s satisfies p. */
  predicate SomeSatisfies<T>(s: seq<T>, p: T -> bool) {
    exists i :: 0 <= i < |s| && p(s[i])
  }

  lemma SomeSatisfiesSnoc<T>(s: seq<T>, p: T -> bool)
    requires s != []
    ensures SomeSatisfies(s, p) <==> SomeSatisfies(s[..|s| - 1], p) || p(s[|s| - 1])
  {
    var init := s[..|s| - 1];
    if SomeSatisfies(init, p) {
      var i :| 0 <= i < |init| && p(init[i]);
      assert s[i] == init[i];
    }
    if SomeSatisfies(s, p) {
      var i :| 0 <= i < |s| && p(s[i]);
      if i < |init| {
        assert s[i] == init[i];
      }
    }
  }

  /** `[f(x) for x in s]`. */
  function Mapped<A, B>(f: A -> B, s: seq<A>): (r: seq<B>)
    ensures |r| == |s| && forall i :: 0 <= i < |s| ==> r[i] == f(s[i])
  {
    if s == [] then [] else Mapped(f, s[..|s| - 1]) + [f(s[|s| - 1])]
  }

  lemma MappedSnoc<A, B>(f: A -> B, s: seq<A>, x: A)
    ensures Mapped(f, s + [x]) == Mapped(f, s) + [f(x)]
  {
    assert (s + [x])[..|s|] == s;
  }

  /** One more element of a loop that maps as it goes. */
  lemma MappedStep<A, B>(f: A -> B, s: seq<A>, k: nat)
    requires k < |s|
    ensures Mapped(f, s[..k + 1]) == Mapped(f, s[..k]) + [f(s[k])]
  {
    assert s[..k + 1] == s[..k] + [s[k]];
    MappedSnoc(f, s[..k], s[k]);
  }

  /** `set(s)`. */
  function Elements<T(!new)>(s: seq<T>): (r: set<T>)
    ensures forall x :: x in r <==> x in s
  { if s == [] then {} else Elements(s[..|s| - 1]) + {s[|s| - 1]} }

  lemma ElementsStep<T(!new)>(s: seq<T>, k: nat)
    requires k < |s|
    ensures Elements(s[..k + 1]) == Elements(s[..k]) + {s[k]}
  { assert s[..k + 1][..k] == s[..k]; }

  lemma PrefixTrans<T>(a: seq<T>, b: seq<T>, c: seq<T>)
    requires a <= b && b <= c
    ensures a <= c
  { assert c[..|a|] == c[..|b|][..|a|]; }
}
