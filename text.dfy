/**
 * Character-level helpers shared by the price parser and the extraction
 * helpers: Python's notion of whitespace, `str.strip()`, counting and
 * removing one character.
 */
module Text {

  /** The characters for which Python's `str.isspace()` is true. */
  predicate IsSpace(c: char) {
    c in SpaceChars
  }

  const SpaceChars: set<char> := {
    '\t', '\n', '\U{0B}', '\U{0C}', '\r', '\U{1C}', '\U{1D}', '\U{1E}', '\U{1F}', ' ',
    '\U{85}', '\U{A0}', '\U{1680}',
    '\U{2000}', '\U{2001}', '\U{2002}', '\U{2003}', '\U{2004}', '\U{2005}',
    '\U{2006}', '\U{2007}', '\U{2008}', '\U{2009}', '\U{200A}',
    '\U{2028}', '\U{2029}', '\U{202F}', '\U{205F}', '\U{3000}'
  }

  predicate AllSpace(s: string) {
    forall k :: 0 <= k < |s| ==> IsSpace(s[k])
  }

  /** Length of the longest all-whitespace prefix of `s`. */
  function LeadLen(s: string): (n: nat)
    ensures n <= |s|
    ensures AllSpace(s[..n])
    ensures n < |s| ==> !IsSpace(s[n])
  {
    if s == [] || !IsSpace(s[0]) then 0
    else
      var m := LeadLen(s[1..]);
      assert s[..m + 1] == [s[0]] + s[1..][..m];
      m + 1
  }

  /** Length of the longest all-whitespace suffix of `s`. */
  function TrailLen(s: string): (n: nat)
    ensures n <= |s|
    ensures AllSpace(s[|s| - n..])
    ensures n < |s| ==> !IsSpace(s[|s| - n - 1])
  {
    if s == [] || !IsSpace(s[|s| - 1]) then 0
    else
      var init := s[..|s| - 1];
      var m := TrailLen(init);
      SpaceSuffix(s, m);
      m + 1
  }

  lemma SpaceSuffix(s: string, m: nat)
    requires m < |s| && IsSpace(s[|s| - 1]) && AllSpace(s[..|s| - 1][|s| - 1 - m..])
    ensures AllSpace(s[|s| - (m + 1)..])
  {
    var t := s[|s| - (m + 1)..];
    forall k | 0 <= k < |t| ensures IsSpace(t[k]) {
      if k < m { assert t[k] == s[..|s| - 1][|s| - 1 - m..][k]; }
    }
  }

  /** The leading whitespace ends before the trailing whitespace begins, unless all is whitespace. */
  lemma LeadBeforeTrail(s: string)
    requires LeadLen(s) < |s|
    ensures LeadLen(s) < |s| - TrailLen(s)
  {
  }

  /** Python's `str.strip()`: `s` without its leading and trailing whitespace. */
  function Strip(s: string): (r: string)
    ensures |r| <= |s|
  {
    var i := LeadLen(s);
    if i == |s| then []
    else
      LeadBeforeTrail(s);
      s[i..|s| - TrailLen(s)]
  }

  /**
   * The stripped text is the infix of `s` that starts after the leading
   * whitespace, everything after it is whitespace, and it neither starts
   * nor ends with whitespace.
   */
  lemma StripSpec(s: string)
    ensures LeadLen(s) + |Strip(s)| <= |s|
    ensures Strip(s) == s[LeadLen(s)..LeadLen(s) + |Strip(s)|]
    ensures AllSpace(s[LeadLen(s) + |Strip(s)|..])
    ensures Strip(s) != [] ==> !IsSpace(Strip(s)[0]) && !IsSpace(Strip(s)[|Strip(s)| - 1])
  {
    var i := LeadLen(s);
    if i < |s| {
      LeadBeforeTrail(s);
      var e := |s| - TrailLen(s);
      var r := Strip(s);
      assert r == s[i..e];
      assert i + |r| == e;
      assert !IsSpace(r[0]) by {
        assert r[0] == s[i];
      }
      assert !IsSpace(r[|r| - 1]) by {
        assert r[|r| - 1] == s[e - 1];
      }
    }
  }

  /** Stripping leaves nothing exactly when the text is all whitespace. */
  lemma StripEmpty(s: string)
    ensures Strip(s) == [] <==> AllSpace(s)
  {
    var i, r := LeadLen(s), Strip(s);
    if r == [] {
      forall k | 0 <= k < |s| ensures IsSpace(s[k]) {
        assert s[k] == s[..i][k];
      }
    } else {
      StripSpec(s);
      assert s[i] == r[0];
    }
  }

  /** Text that neither starts nor ends with whitespace is left as it is. */
  lemma StripBare(s: string)
    requires s != [] && !IsSpace(s[0]) && !IsSpace(s[|s| - 1])
    ensures Strip(s) == s
  {
    assert LeadLen(s) == 0;
    assert TrailLen(s) == 0;
  }

  /** Stripping twice is stripping once. */
  lemma StripIdempotent(s: string)
    ensures Strip(Strip(s)) == Strip(s)
  {
    var r := Strip(s);
    if r != [] {
      StripSpec(s);
      StripBare(r);
    }
  }

  /** Number of occurrences of `c` in `s`. */
  function Count(s: string, c: char): (n: nat)
    ensures n <= |s|
  {
    if s == [] then 0 else (if s[0] == c then 1 else 0) + Count(s[1..], c)
  }

  /** A character is absent exactly when it occurs zero times. */
  lemma {:induction false} CountAbsent(s: string, c: char)
    ensures Count(s, c) == 0 <==> c !in s
  {
    if s != [] {
      CountAbsent(s[1..], c);
      assert c in s <==> s[0] == c || c in s[1..];
    }
  }

  lemma {:induction false} CountConcat(a: string, b: string, c: char)
    ensures Count(a + b, c) == Count(a, c) + Count(b, c)
  {
    if a == [] {
      assert a + b == b;
    } else {
      assert (a + b)[1..] == a[1..] + b;
      CountConcat(a[1..], b, c);
    }
  }

  /**
   * `s` with every `c` removed, as Python's `s.replace(c, '')`: no `c`
   * remains and every other character keeps its number of occurrences.
   */
  function Without(s: string, c: char): (r: string)
    ensures |r| <= |s|
    ensures Count(r, c) == 0
  {
    if s == [] then []
    else if s[0] == c then Without(s[1..], c)
    else [s[0]] + Without(s[1..], c)
  }

  lemma {:induction false} WithoutConcat(a: string, b: string, c: char)
    ensures Without(a + b, c) == Without(a, c) + Without(b, c)
  {
    if a == [] {
      assert a + b == b;
    } else {
      assert (a + b)[1..] == a[1..] + b;
      WithoutConcat(a[1..], b, c);
    }
  }

  /** Counting across one occurrence of `c` placed between two texts. */
  lemma CountAround(x: string, y: string, c: char)
    ensures Count(x + [c] + y, c) == Count(x, c) + 1 + Count(y, c)
  {
    var xc := x + [c];
    CountConcat(xc, y, c);
    CountConcat(x, [c], c);
    assert Count([c], c) == 1 by {
      assert [c][1..] == [];
    }
  }

  /** Counting on both sides of position `i`. */
  lemma CountAt(s: string, i: nat, c: char)
    requires i < |s|
    ensures Count(s, c) == Count(s[..i], c) + (if s[i] == c then 1 else 0) + Count(s[i + 1..], c)
  {
    assert s == s[..i] + ([s[i]] + s[i + 1..]);
    CountConcat(s[..i], [s[i]] + s[i + 1..], c);
    assert ([s[i]] + s[i + 1..])[1..] == s[i + 1..];
  }

  /** Removing `c` around one occurrence of it. */
  lemma WithoutAround(x: string, y: string, c: char)
    ensures Without(x + [c] + y, c) == Without(x, c) + Without(y, c)
  {
    var xc := x + [c];
    assert Without(xc, c) == Without(x, c) by {
      WithoutConcat(x, [c], c);
      assert Without([c], c) == [] by {
        assert [c][1..] == [];
      }
    }
    WithoutConcat(xc, y, c);
  }

  lemma {:induction false} WithoutAbsent(s: string, c: char)
    requires Count(s, c) == 0
    ensures Without(s, c) == s
  {
    if s != [] {
      WithoutAbsent(s[1..], c);
    }
  }
}
