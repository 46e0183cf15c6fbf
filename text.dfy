/**
 The string operations `hunter.py` relies on: Python's substring test
 (`sub in s`) and the `sanitized` helper (`replace("\n", "")` then `strip()`).
 Strings are sequences of code points, as Python's `str`.
 */
module Text {

  type String = seq<char>

  // ---------------------------------------------------------------------------
  // Substring test: Python's `sub in s`
  // ---------------------------------------------------------------------------

  /** `sub in s`: `sub` occurs somewhere in `s`. The empty string occurs in every string. */
  predicate Contains(s: String, sub: String)
    ensures sub <= s ==> Contains(s, sub)
    ensures Contains(s, sub) ==> |sub| <= |s|
    decreases |s|
  {
    sub <= s || (s != [] && Contains(s[1..], sub))
  }

  /** `sub` occurs in `s` starting at position `i`. */
  ghost predicate OccursAt(s: String, sub: String, i: int)
  {
    0 <= i && i + |sub| <= |s| && s[i..i + |sub|] == sub
  }

  /** An occurrence at a known position makes the recursive test succeed. */
  lemma {:induction false} OccursAtContains(s: String, sub: String, i: int)
    requires OccursAt(s, sub, i)
    ensures Contains(s, sub)
    decreases i
  {
    if i == 0 {
      assert s[..|sub|] == sub;
    } else {
      assert s[1..][i - 1..i - 1 + |sub|] == s[i..i + |sub|];
      OccursAtContains(s[1..], sub, i - 1);
    }
  }

  /** The recursive test agrees with the positional definition of "occurs in". */
  lemma {:induction false} ContainsIffOccurs(s: String, sub: String)
    ensures Contains(s, sub) <==> exists i :: OccursAt(s, sub, i)
    decreases |s|
  {
    if exists i :: OccursAt(s, sub, i) {
      var i :| OccursAt(s, sub, i);
      OccursAtContains(s, sub, i);
    }
    if Contains(s, sub) {
      if sub <= s {
        assert OccursAt(s, sub, 0);
      } else {
        ContainsIffOccurs(s[1..], sub);
        var i :| OccursAt(s[1..], sub, i);
        assert s[1..][i..i + |sub|] == s[i + 1..i + 1 + |sub|];
        assert OccursAt(s, sub, i + 1);
      }
    }
  }

  /** A non-empty string whose first character does not occur in `s` does not occur in `s`. */
  lemma {:induction false} MissingCharNotContained(s: String, sub: String)
    requires sub != [] && sub[0] !in s
    ensures !Contains(s, sub)
    decreases |s|
  {
    if s != [] {
      assert s[0] != sub[0];
      assert sub[0] !in s[1..];
      MissingCharNotContained(s[1..], sub);
    }
  }

  // ---------------------------------------------------------------------------
  // Whitespace and `strip()`
  // ---------------------------------------------------------------------------

  /**
   The characters `str.strip()` removes, restricted to ASCII: tab, line feed,
   vertical tab, form feed, carriage return, the four separators 0x1C-0x1F
   and space (the ASCII characters for which Python's `str.isspace()` holds).
   */
  predicate IsWhitespace(c: char)
  {
    c == ' ' || c == '\t' || c == '\n' || c == '\r' || c == '\U{B}' || c == '\U{C}'
    || ('\U{1C}' <= c <= '\U{1F}')
  }

  /** The length of the longest whitespace prefix of `s`: what `lstrip()` cuts. */
  function LeadingWhitespace(s: String): (n: nat)
    ensures n <= |s|
    ensures forall k :: 0 <= k < n ==> IsWhitespace(s[k])
    ensures n < |s| ==> !IsWhitespace(s[n])
    decreases |s|
  {
    if s != [] && IsWhitespace(s[0]) then 1 + LeadingWhitespace(s[1..]) else 0
  }

  /** The length of `s` without its longest whitespace suffix: what `rstrip()` keeps. */
  function TrimmedLength(s: String): (n: nat)
    ensures n <= |s|
    ensures forall k :: n <= k < |s| ==> IsWhitespace(s[k])
    ensures n > 0 ==> !IsWhitespace(s[n - 1])
    decreases |s|
  {
    if s != [] && IsWhitespace(s[|s| - 1]) then TrimmedLength(s[..|s| - 1]) else |s|
  }

  /** `r` is `s[i..j]`, and everything of `s` outside that slice is whitespace. */
  ghost predicate Cut(s: String, r: String, i: int, j: int)
  {
    && 0 <= i <= j <= |s| && r == s[i..j]
    && (forall k :: 0 <= k < i ==> IsWhitespace(s[k]))
    && (forall k :: j <= k < |s| ==> IsWhitespace(s[k]))
  }

  /** Cutting the leading whitespace, then the trailing whitespace of what is left, cuts
      only whitespace. */
  lemma TrimmedSliceIsCut(s: String, i: nat, j: nat)
    requires i == LeadingWhitespace(s) && j == i + TrimmedLength(s[i..])
    ensures Cut(s, s[i..j], i, j)
  {
    forall k | j <= k < |s| ensures IsWhitespace(s[k]) {
      assert s[k] == s[i..][k - i];
    }
  }

  /** `strip()`: a slice of `s` with only whitespace cut on either side, and neither end
      of it whitespace. */
  function Strip(s: String): (r: String)
    ensures exists i, j :: Cut(s, r, i, j)
    ensures r != [] ==> !IsWhitespace(r[0]) && !IsWhitespace(r[|r| - 1])
  {
    var i := LeadingWhitespace(s);
    var j := i + TrimmedLength(s[i..]);
    TrimmedSliceIsCut(s, i, j);
    s[i..j]
  }

  // ---------------------------------------------------------------------------
  // `replace("\n", "")`
  // ---------------------------------------------------------------------------

  /** `s.replace("\n", "")`: every line feed deleted, every other character kept in order. */
  function RemoveNewlines(s: String): (r: String)
    ensures '\n' !in r && |r| <= |s|
    ensures forall c :: c != '\n' ==> multiset(r)[c] == multiset(s)[c]
    ensures |s| == 1 ==> r == (if s[0] == '\n' then [] else s)
    decreases |s|
  {
    if s == [] then []
    else
      assert s == [s[0]] + s[1..];
      (if s[0] == '\n' then [] else [s[0]]) + RemoveNewlines(s[1..])
  }

  /** Line feeds are deleted piece by piece: the other characters keep their order. */
  lemma {:induction false} RemoveNewlinesAppend(a: String, b: String)
    ensures RemoveNewlines(a + b) == RemoveNewlines(a) + RemoveNewlines(b)
    decreases |a|
  {
    if a == [] {
      assert a + b == b;
    } else {
      assert (a + b)[0] == a[0];
      assert (a + b)[1..] == a[1..] + b;
      RemoveNewlinesAppend(a[1..], b);
    }
  }

  /** Deleting line feeds from a string that has none leaves it unchanged. */
  lemma {:induction false} RemoveNewlinesNoop(s: String)
    requires '\n' !in s
    ensures RemoveNewlines(s) == s
    decreases |s|
  {
    if s != [] {
      assert '\n' !in s[1..];
      RemoveNewlinesNoop(s[1..]);
      assert s == [s[0]] + s[1..];
    }
  }

  // ---------------------------------------------------------------------------
  // `sanitized`
  // ---------------------------------------------------------------------------

  /** `sanitized(command)`: line feeds deleted, then surrounding whitespace stripped. */
  function Sanitized(s: String): (r: String)
    ensures exists i, j :: Cut(RemoveNewlines(s), r, i, j)
    ensures '\n' !in r
    ensures r != [] ==> !IsWhitespace(r[0]) && !IsWhitespace(r[|r| - 1])
    ensures |r| <= |s|
  {
    Strip(RemoveNewlines(s))
  }

  /** A string with no line feed and no whitespace at either end is its own sanitized form. */
  lemma SanitizedFixpoint(s: String)
    requires '\n' !in s
    requires s != [] ==> !IsWhitespace(s[0]) && !IsWhitespace(s[|s| - 1])
    ensures Sanitized(s) == s
  {
    RemoveNewlinesNoop(s);
    assert LeadingWhitespace(s) == 0;
    assert TrimmedLength(s) == |s|;
  }

  /** Sanitizing is idempotent. */
  lemma SanitizedIdempotent(s: String)
    ensures Sanitized(Sanitized(s)) == Sanitized(s)
  {
    SanitizedFixpoint(Sanitized(s));
  }
}
