/** The home page's search box: the experiences whose title, location or description
    contains the query, ignoring case. */
module Home {
  import opened JsString
  import opened Catalog

  /** The filter's test for one experience. */
  predicate Matches(e: Experience, query: string) {
    var q := Lower(query);
    Includes(Lower(e.title), q) || Includes(Lower(e.location), q) || Includes(Lower(e.description), q)
  }

  /** `experiences.filter(...)`. */
  function Filter(es: seq<Experience>, query: string): (r: seq<Experience>)
    ensures |r| <= |es|
    ensures forall i :: 0 <= i < |r| ==> r[i] in es && Matches(r[i], query)
    decreases |es|
  {
    if es == [] then []
    else (if Matches(es[0], query) then [es[0]] else []) + Filter(es[1..], query)
  }

  /** `r` is `es` with some elements dropped and the rest in their original order. */
  predicate SubsequenceOf<T(==)>(r: seq<T>, es: seq<T>)
    decreases |es|
  {
    if r == [] then true
    else if es == [] then false
    else (r[0] == es[0] && SubsequenceOf(r[1..], es[1..])) || SubsequenceOf(r, es[1..])
  }

  /** The result keeps the list's order. */
  lemma {:induction false} FilterIsSubsequence(es: seq<Experience>, query: string)
    ensures SubsequenceOf(Filter(es, query), es)
    decreases |es|
  {
    if es != [] {
      FilterIsSubsequence(es[1..], query);
      var r := Filter(es, query);
      if Matches(es[0], query) {
        assert r[0] == es[0] && r[1..] == Filter(es[1..], query);
      } else {
        assert r == Filter(es[1..], query);
        if r != [] {
          assert SubsequenceOf(r, es[1..]);
        }
      }
    }
  }

  /** An experience is listed exactly when it is in the list and matches. */
  lemma {:induction false} FilterMembers(es: seq<Experience>, query: string, e: Experience)
    ensures e in Filter(es, query) <==> e in es && Matches(e, query)
    decreases |es|
  {
    if es != [] {
      FilterMembers(es[1..], query, e);
      assert e in es <==> e == es[0] || e in es[1..];
    }
  }

  /** Lower-casing the query changes nothing a second time. */
  lemma LowerIdempotent(s: string)
    ensures Lower(Lower(s)) == Lower(s)
  {
  }

  /** An empty search box lists every experience. */
  lemma {:induction false} FilterEmptyQuery(es: seq<Experience>)
    ensures Filter(es, "") == es
    decreases |es|
  {
    if es != [] {
      assert Lower("") == "";
      IncludesEmpty(Lower(es[0].title));
      FilterEmptyQuery(es[1..]);
    }
  }

  /** Filtering the result again with the same query changes nothing. */
  lemma {:induction false} FilterIdempotent(es: seq<Experience>, query: string)
    ensures Filter(Filter(es, query), query) == Filter(es, query)
    decreases |es|
  {
    if es != [] {
      FilterIdempotent(es[1..], query);
      if Matches(es[0], query) {
        var r := Filter(es, query);
        assert r == [es[0]] + Filter(es[1..], query);
        assert r[0] == es[0] && r[1..] == Filter(es[1..], query);
        assert Filter(r, query) == [r[0]] + Filter(r[1..], query);
        assert Filter(r, query) == [es[0]] + Filter(es[1..], query);
      } else {
        assert Filter(es, query) == Filter(es[1..], query);
      }
    }
  }

  /** Two queries with the same lower case give the same result. */
  lemma {:induction false} FilterSameLower(es: seq<Experience>, q1: string, q2: string)
    requires Lower(q1) == Lower(q2)
    ensures Filter(es, q1) == Filter(es, q2)
    decreases |es|
  {
    if es != [] {
      FilterSameLower(es[1..], q1, q2);
    }
  }

  /** The search ignores the case of an ASCII query: its upper case or lower case
      gives the same result as the query itself. */
  lemma FilterCaseInsensitive(es: seq<Experience>, query: string)
    requires forall i :: 0 <= i < |query| ==> IsAscii(query[i])
    ensures Filter(es, Upper(query)) == Filter(es, query)
    ensures Filter(es, Lower(query)) == Filter(es, query)
  {
    LowerOfUpper(query);
    FilterSameLower(es, Upper(query), query);
    LowerIdempotent(query);
    FilterSameLower(es, Lower(query), query);
  }

  /** Without the ASCII restriction the upper-cased query can match differently:
      sharp s (U+00DF) upper-cases to `SS`, which lower-cases to `ss`. */
  lemma SharpSBreaksCaseInsensitivity()
    ensures var e := Experience("1", "Strasse", "", 0.0, "", "", "", 0.0, 0);
      var q := "\U{00DF}";
      Filter([e], Upper(q)) == [e] && Filter([e], q) == []
  {
    var e := Experience("1", "Strasse", "", 0.0, "", "", "", 0.0, 0);
    var q := "\U{00DF}";
    assert Upper(q) == "SS";
    assert Lower(Upper(q)) == "ss";
    assert Lower(e.title)[4] == 's' && Lower(e.title)[5] == 's';
    assert Lower(e.title)[4..6] == "ss";
    assert OccursAt(Lower(e.title), "ss", 4);
    IncludesIff(Lower(e.title), "ss");
    assert Lower(q) == ['\U{00DF}'];
    NotIncludesChar(Lower(e.title), '\U{00DF}');
    NotIncludesChar(Lower(e.location), '\U{00DF}');
    NotIncludesChar(Lower(e.description), '\U{00DF}');
  }

  /** A text without the character does not include it. */
  lemma {:induction false} NotIncludesChar(s: string, c: char)
    requires forall i :: 0 <= i < |s| ==> s[i] != c
    ensures !Includes(s, [c])
    decreases |s|
  {
    if s != [] {
      assert s[..1] == [s[0]];
      NotIncludesChar(s[1..], c);
    }
  }

  /** Without that restriction the upper-cased query can match more: dotless i
      (U+0131) upper-cases to `I`, which lower-cases to `i`. */
  lemma DotlessIBreaksCaseInsensitivity()
    ensures var e := Experience("1", "Kayaking trip", "", 0.0, "", "", "", 0.0, 0);
      var q := "\U{0131}";
      Filter([e], Upper(q)) == [e] && Filter([e], q) == []
  {
    var e := Experience("1", "Kayaking trip", "", 0.0, "", "", "", 0.0, 0);
    var q := "\U{0131}";
    assert Lower(Upper(q)) == "i";
    assert OccursAt(Lower(e.title), "i", 5);
    IncludesIff(Lower(e.title), "i");
    assert Lower(q) == ['\U{0131}'];
    NotIncludesChar(Lower(e.title), '\U{0131}');
    NotIncludesChar(Lower(e.location), '\U{0131}');
    NotIncludesChar(Lower(e.description), '\U{0131}');
  }
}
