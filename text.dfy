/** The two string helpers the extraction relies on: Rust's `str::contains`
    with a string pattern and `str::trim`. */
module Text {

  /** `pattern` occurs as a contiguous run of `s`; the empty pattern occurs in
      every string, as with `str::contains("")`. */
  predicate Contains(s: string, pattern: string)
    ensures Contains(s, pattern) ==> |pattern| <= |s|
    ensures |pattern| == 0 ==> Contains(s, pattern)
    decreases |s|
  {
    pattern <= s || (|s| > 0 && Contains(s[1..], pattern))
  }

  /** `pattern` starts at index `i` of `s`. */
  ghost predicate OccursAt(s: string, pattern: string, i: int)
  {
    0 <= i <= |s| - |pattern| && s[i..i + |pattern|] == pattern
  }

  /** Contains is substring occurrence at some index. */
  lemma {:induction false} ContainsAt(s: string, pattern: string)
    ensures Contains(s, pattern) <==> exists i :: OccursAt(s, pattern, i)
    decreases |s|
  {
    if pattern <= s {
      assert OccursAt(s, pattern, 0);
    } else if |s| > 0 {
      ContainsAt(s[1..], pattern);
      if Contains(s[1..], pattern) {
        var i :| OccursAt(s[1..], pattern, i);
        assert s[1..][i..i + |pattern|] == s[i + 1..i + 1 + |pattern|];
        assert OccursAt(s, pattern, i + 1);
      } else {
        forall i | 0 < i <= |s| - |pattern|
          ensures !OccursAt(s, pattern, i)
        {
          assert s[1..][i - 1..i - 1 + |pattern|] == s[i..i + |pattern|];
          assert !OccursAt(s[1..], pattern, i - 1);
        }
        assert !OccursAt(s, pattern, 0);
      }
    } else {
      assert !OccursAt(s, pattern, 0);
    }
  }

  /** Characters with the Unicode White_Space property: the class `\s` of
      Rust's regex crate and the characters `str::trim` removes. */
  predicate IsWhiteSpace(c: char)
  {
    ('\t' <= c <= '\r') || c == ' ' || c == '\U{85}' || c == '\U{A0}' ||
    c == '\U{1680}' || ('\U{2000}' <= c <= '\U{200A}') || c == '\U{2028}' ||
    c == '\U{2029}' || c == '\U{202F}' || c == '\U{205F}' || c == '\U{3000}'
  }

  /** `s` without its leading white space. */
  function TrimStart(s: string): string
  {
    if |s| > 0 && IsWhiteSpace(s[0]) then TrimStart(s[1..]) else s
  }

  /** `s` without its trailing white space. */
  function TrimEnd(s: string): string
  {
    if |s| > 0 && IsWhiteSpace(s[|s| - 1]) then TrimEnd(s[..|s| - 1]) else s
  }

  /** `str::trim`: `s` without white space at either end. The result is no
      longer than `s` and neither starts nor ends with white space
      (`TrimSpec` adds that it is the slice of `s` between white space). */
  function Trim(s: string): (r: string)
    ensures |r| <= |s|
    ensures r == [] || (!IsWhiteSpace(r[0]) && !IsWhiteSpace(r[|r| - 1]))
  {
    TrimStartSpec(s);
    TrimEndSpec(TrimStart(s));
    TrimEnd(TrimStart(s))
  }

  lemma {:induction false} TrimStartSpec(s: string)
    ensures var r := TrimStart(s);
            |r| <= |s| && r == s[|s| - |r|..] &&
            (forall k :: 0 <= k < |s| - |r| ==> IsWhiteSpace(s[k])) &&
            (r == [] || !IsWhiteSpace(r[0]))
    decreases |s|
  {
    if |s| > 0 && IsWhiteSpace(s[0]) {
      TrimStartSpec(s[1..]);
    }
  }

  lemma {:induction false} TrimEndSpec(s: string)
    ensures var r := TrimEnd(s);
            |r| <= |s| && r == s[..|r|] &&
            (forall k :: |r| <= k < |s| ==> IsWhiteSpace(s[k])) &&
            (r == [] || !IsWhiteSpace(r[|r| - 1]))
    decreases |s|
  {
    if |s| > 0 && IsWhiteSpace(s[|s| - 1]) {
      TrimEndSpec(s[..|s| - 1]);
    }
  }

  /** `r` is the slice of `s` starting at `a`, and everything of `s` before
      and after it is white space. */
  ghost predicate SliceBetweenWhite(s: string, r: string, a: int)
  {
    0 <= a <= |s| - |r| && r == s[a..a + |r|] &&
    (forall k :: 0 <= k < a ==> IsWhiteSpace(s[k])) &&
    (forall k :: a + |r| <= k < |s| ==> IsWhiteSpace(s[k]))
  }

  /** What `str::trim` returns: a slice of `s` such that everything cut away is
      white space and the slice neither starts nor ends with white space. */
  lemma TrimSpec(s: string)
    ensures exists a :: SliceBetweenWhite(s, Trim(s), a)
  {
    var t := TrimStart(s);
    TrimStartSpec(s);
    TrimEndSpec(t);
    var r := TrimEnd(t);
    var a := |s| - |t|;
    assert s[a..][..|r|] == s[a..a + |r|];
    forall k | a + |r| <= k < |s| ensures IsWhiteSpace(s[k]) {
      assert s[k] == t[k - a];
    }
    assert 0 <= a <= |s| - |r|;
    assert r == s[a..a + |r|];
    assert forall k :: 0 <= k < a ==> IsWhiteSpace(s[k]);
    assert r == Trim(s);
    assert SliceBetweenWhite(s, r, a);
  }

  /** Trimming twice is trimming once. */
  lemma TrimIdempotent(s: string)
    ensures Trim(Trim(s)) == Trim(s)
  {
    var r := Trim(s);
    TrimSpec(s);
    var t := TrimStart(r);
    if r != [] {
      assert t == r;
      assert TrimEnd(r) == r;
    }
  }
}
