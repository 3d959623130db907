/** The JavaScript string built-ins the pages call: `trim`, `toUpperCase`,
    `toLowerCase` and `includes`. Case mapping covers every mapping of the Unicode
    tables whose result is made of ASCII letters, including the length-changing upper
    case of sharp s and of the Latin ligatures; every other character is kept as it is. */
module JsString {

  /** The WhiteSpace and LineTerminator code points of ECMAScript, which `trim` strips. */
  predicate IsWhitespace(c: char) {
    || c == '\t' || c == '\n' || c == '\U{000B}' || c == '\U{000C}' || c == '\r'
    || c == ' ' || c == '\U{00A0}' || c == '\U{1680}' || ('\U{2000}' <= c <= '\U{200A}')
    || c == '\U{2028}' || c == '\U{2029}' || c == '\U{202F}' || c == '\U{205F}'
    || c == '\U{3000}' || c == '\U{FEFF}'
  }

  predicate AllWhitespace(s: string) {
    forall i :: 0 <= i < |s| ==> IsWhitespace(s[i])
  }

  /** Number of whitespace characters `s` starts with. */
  function LeadingWhitespace(s: string): (n: nat)
    ensures n <= |s|
    ensures AllWhitespace(s[..n])
    ensures n < |s| ==> !IsWhitespace(s[n])
  {
    if s == [] || !IsWhitespace(s[0]) then 0
    else
      var m := LeadingWhitespace(s[1..]);
      assert s[1..][..m] == s[1..m + 1];
      1 + m
  }

  /** Number of whitespace characters `s` ends with. */
  function TrailingWhitespace(s: string): (n: nat)
    ensures n <= |s|
    ensures AllWhitespace(s[|s| - n..])
    ensures n < |s| ==> !IsWhitespace(s[|s| - n - 1])
  {
    if s == [] || !IsWhitespace(s[|s| - 1]) then 0
    else
      var m := TrailingWhitespace(s[..|s| - 1]);
      assert s[..|s| - 1][|s| - 1 - m..] == s[|s| - 1 - m..|s| - 1];
      1 + m
  }

  /** `String.prototype.trim`. */
  function Trim(s: string): (r: string)
    ensures r == [] || (!IsWhitespace(r[0]) && !IsWhitespace(r[|r| - 1]))
    ensures exists i :: 0 <= i <= |s| - |r| && s[i..i + |r|] == r
                     && AllWhitespace(s[..i]) && AllWhitespace(s[i + |r|..])
  {
    var i := LeadingWhitespace(s);
    var t := s[i..];
    var j := TrailingWhitespace(t);
    var r := s[i..|s| - j];
    assert t[|t| - j..] == s[|s| - j..];
    assert |r| == |t| - j;
    assert r != [] ==> r[0] == t[0] && r[|r| - 1] == t[|t| - j - 1];
    assert AllWhitespace(s[..i]) && AllWhitespace(s[i + |r|..]);
    r
  }

  lemma {:induction false} LeadingWhitespacePadded(w: string, c: string)
    requires AllWhitespace(w)
    requires c == [] || !IsWhitespace(c[0])
    ensures LeadingWhitespace(w + c) == |w|
    decreases |w|
  {
    if w == [] {
      assert w + c == c;
    } else {
      assert (w + c)[1..] == w[1..] + c;
      LeadingWhitespacePadded(w[1..], c);
    }
  }

  lemma {:induction false} TrailingWhitespacePadded(c: string, w: string)
    requires AllWhitespace(w)
    requires c == [] || !IsWhitespace(c[|c| - 1])
    ensures TrailingWhitespace(c + w) == |w|
    decreases |w|
  {
    if w == [] {
      assert c + w == c;
    } else {
      assert (c + w)[..|c + w| - 1] == c + w[..|w| - 1];
      TrailingWhitespacePadded(c, w[..|w| - 1]);
    }
  }

  /** `trim` recovers a text that has no surrounding whitespace of its own from any
      whitespace padding around it. */
  lemma TrimPadded(w1: string, c: string, w2: string)
    requires AllWhitespace(w1) && AllWhitespace(w2)
    requires c != [] && !IsWhitespace(c[0]) && !IsWhitespace(c[|c| - 1])
    ensures Trim(w1 + c + w2) == c
  {
    var s := w1 + c + w2;
    assert s == w1 + (c + w2);
    LeadingWhitespacePadded(w1, c + w2);
    assert s[|w1|..] == c + w2;
    TrailingWhitespacePadded(c, w2);
  }

  /** The characters whose upper case is more than one letter: sharp s (U+00DF) and
      the Latin ligatures U+FB00 to U+FB06. */
  predicate Expands(c: char) {
    c == '\U{00DF}' || ('\U{FB00}' <= c <= '\U{FB06}')
  }

  /** `toUpperCase` on one character: ASCII letters, the two non-ASCII letters whose
      upper case is one ASCII letter (dotless i and long s), and the characters above,
      whose upper case is two or three ASCII letters. */
  function UpperChar(c: char): (r: string)
    ensures |r| >= 1
    ensures |r| == 1 <==> !Expands(c)
  {
    if 'a' <= c <= 'z' then [(c as int - 32) as char]
    else if c == '\U{0131}' then "I"
    else if c == '\U{017F}' then "S"
    else if c == '\U{00DF}' then "SS"
    else if c == '\U{FB00}' then "FF"
    else if c == '\U{FB01}' then "FI"
    else if c == '\U{FB02}' then "FL"
    else if c == '\U{FB03}' then "FFI"
    else if c == '\U{FB04}' then "FFL"
    else if c == '\U{FB05}' || c == '\U{FB06}' then "ST"
    else [c]
  }

  /** `toLowerCase` on one character: ASCII letters, and the Kelvin sign, whose lower
      case is ASCII. */
  function LowerChar(c: char): char {
    if 'A' <= c <= 'Z' then (c as int + 32) as char
    else if c == '\U{212A}' then 'k'
    else c
  }

  predicate NoneExpands(s: string) {
    forall i :: 0 <= i < |s| ==> !Expands(s[i])
  }

  /** `toUpperCase`: each character's upper case, in order. The text keeps its length
      exactly when no character expands, and then each position holds the upper case
      of the character there. */
  function Upper(s: string): (r: string)
    ensures |r| >= |s|
    ensures |r| == |s| <==> NoneExpands(s)
    ensures NoneExpands(s) ==> forall i :: 0 <= i < |s| ==> [r[i]] == UpperChar(s[i])
    decreases |s|
  {
    if s == [] then []
    else
      var rest := Upper(s[1..]);
      assert NoneExpands(s) <==> !Expands(s[0]) && NoneExpands(s[1..]) by {
        assert forall i :: 0 < i < |s| ==> s[i] == s[1..][i - 1];
      }
      UpperChar(s[0]) + rest
  }

  /** Upper-casing a concatenation upper-cases each part. */
  lemma {:induction false} UpperAppend(a: string, b: string)
    ensures Upper(a + b) == Upper(a) + Upper(b)
    decreases |a|
  {
    if a == [] {
      assert a + b == b;
    } else {
      assert (a + b)[0] == a[0] && (a + b)[1..] == a[1..] + b;
      UpperAppend(a[1..], b);
      calc {
        Upper(a + b);
        UpperChar(a[0]) + Upper(a[1..] + b);
        UpperChar(a[0]) + (Upper(a[1..]) + Upper(b));
        (UpperChar(a[0]) + Upper(a[1..])) + Upper(b);
        Upper(a) + Upper(b);
      }
    }
  }

  function Lower(s: string): (r: string)
    ensures |r| == |s|
    ensures forall i :: 0 <= i < |s| ==> r[i] == LowerChar(s[i])
  {
    seq(|s|, i requires 0 <= i < |s| => LowerChar(s[i]))
  }

  /** Two adjacent letters that begin the upper case of an expanding character. */
  predicate ExpansionPair(a: char, b: char) {
    (a == 'S' && (b == 'S' || b == 'T')) || (a == 'F' && (b == 'F' || b == 'I' || b == 'L'))
  }

  /** `t` has no two adjacent letters an expanding character could have produced. */
  predicate ExpansionFree(t: string) {
    forall i :: 0 <= i < |t| - 1 ==> !ExpansionPair(t[i], t[i + 1])
  }

  lemma ExpandedStartsWithPair(c: char)
    ensures Expands(c) ==> |UpperChar(c)| >= 2 && ExpansionPair(UpperChar(c)[0], UpperChar(c)[1])
  {
  }

  /** An upper case free of those letter pairs came from a text in which no character
      expands, so it has the text's length. */
  lemma {:induction false} UpperExpansionFree(s: string)
    requires ExpansionFree(Upper(s))
    ensures NoneExpands(s) && |Upper(s)| == |s|
    decreases |s|
  {
    if s != [] {
      var t := Upper(s);
      var u := UpperChar(s[0]);
      assert t == u + Upper(s[1..]);
      ExpandedStartsWithPair(s[0]);
      assert |t| >= 2 ==> !ExpansionPair(t[0], t[1]);
      assert t[..|u|] == u;
      assert !Expands(s[0]);
      assert ExpansionFree(Upper(s[1..])) by {
        forall i | 0 <= i < |Upper(s[1..])| - 1
          ensures !ExpansionPair(Upper(s[1..])[i], Upper(s[1..])[i + 1])
        {
          assert Upper(s[1..])[i] == t[i + 1] && Upper(s[1..])[i + 1] == t[i + 2];
        }
      }
      UpperExpansionFree(s[1..]);
      assert forall i :: 0 < i < |s| ==> s[i] == s[1..][i - 1];
    }
  }

  predicate IsAscii(c: char) {
    c as int < 0x80
  }

  /** An ASCII character's upper case is one character with the same lower case. */
  lemma LowerOfUpperChar(c: char)
    requires IsAscii(c)
    ensures |UpperChar(c)| == 1 && LowerChar(UpperChar(c)[0]) == LowerChar(c)
  {
  }

  /** On ASCII text, lower-casing forgets a prior upper-casing. */
  lemma LowerOfUpper(q: string)
    requires forall i :: 0 <= i < |q| ==> IsAscii(q[i])
    ensures Lower(Upper(q)) == Lower(q)
  {
    assert NoneExpands(q) by {
      forall i | 0 <= i < |q|
        ensures !Expands(q[i])
      {
        assert IsAscii(q[i]);
      }
    }
    var u := Upper(q);
    assert |u| == |q|;
    forall i | 0 <= i < |q|
      ensures LowerChar(u[i]) == LowerChar(q[i])
    {
      assert [u[i]] == UpperChar(q[i]);
      LowerOfUpperChar(q[i]);
    }
  }

  predicate StartsWith(s: string, p: string) {
    |p| <= |s| && s[..|p|] == p
  }

  /** `s.includes(p)`. */
  predicate Includes(s: string, p: string)
    decreases |s|
  {
    StartsWith(s, p) || (s != [] && Includes(s[1..], p))
  }

  /** `p` occurs in `s` starting at index `i`. */
  predicate OccursAt(s: string, p: string, i: int) {
    0 <= i <= |s| - |p| && s[i..i + |p|] == p
  }

  /** `includes` holds exactly when `p` occurs in `s` at some position. */
  lemma {:induction false} IncludesIff(s: string, p: string)
    ensures Includes(s, p) <==> exists i :: OccursAt(s, p, i)
    decreases |s|
  {
    if s == [] {
      if Includes(s, p) {
        assert OccursAt(s, p, 0);
      }
      if exists i :: OccursAt(s, p, i) {
        var i :| OccursAt(s, p, i);
        assert StartsWith(s, p);
      }
    } else {
      IncludesIff(s[1..], p);
      if StartsWith(s, p) {
        assert OccursAt(s, p, 0);
      }
      if Includes(s[1..], p) {
        var i :| OccursAt(s[1..], p, i);
        assert s[i + 1..i + 1 + |p|] == s[1..][i..i + |p|];
        assert OccursAt(s, p, i + 1);
      }
      if exists i :: OccursAt(s, p, i) {
        var i :| OccursAt(s, p, i);
        if i > 0 {
          assert s[1..][i - 1..i - 1 + |p|] == s[i..i + |p|];
          assert OccursAt(s[1..], p, i - 1);
        } else {
          assert StartsWith(s, p);
        }
      }
    }
  }

  /** Every string includes the empty string. */
  lemma IncludesEmpty(s: string)
    ensures Includes(s, "")
  {
    assert s[..0] == "";
  }
}
