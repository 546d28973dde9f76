/** The capture pattern of `extract_values` (src/main.rs:153),
        ([1\-4\s]*[A-Za-z]+[\(A-Z)]*)\s+=\s+([-]?\d+[\.]?\d*)
    with the semantics of Rust's regex crate: `captures_iter` reports the
    leftmost-first match, resumes the search where that match ended, and `\s`
    and `\d` are the Unicode classes.

    From a given start position the pattern has at most one way to match its
    label group: the leading class `[1\-4\s]` shares no character with the
    letters, so it must take its whole run; the label must be followed by white
    space, which neither `[A-Za-z]` nor `[\(A-Z)]` contains, so the label ends
    where the greedy letter run and the greedy tail run end; the separator
    classes cannot take `=` or a digit. Only the number group has choices, and
    leftmost-first with greedy quantifiers takes the longest one. `MatchAt`
    computes that match directly; `IsMatch` is the pattern written as
    constraints on the boundaries of its pieces; the contract of
    `MatchBoundsAt` and the lemma `MatchAtComplete` connect the two. */
module Pattern {
  import opened Wrappers
  import opened Text

  /** `[1\-4\s]`: characters that may precede the letters of a label. */
  predicate IsLabelLead(c: char)
  {
    c == '1' || c == '-' || c == '4' || IsWhiteSpace(c)
  }

  /** `[A-Za-z]` */
  predicate IsAsciiLetter(c: char)
  {
    ('A' <= c <= 'Z') || ('a' <= c <= 'z')
  }

  /** `[\(A-Z)]`: the tail of a label, such as the unit in `TEMP(K)`. */
  predicate IsLabelTail(c: char)
  {
    c == '(' || c == ')' || ('A' <= c <= 'Z')
  }

  /** `\d`: decimal digits. Rust's regex crate takes every character of the
      Unicode category Nd; the ASCII digits and a few other scripts' digit
      blocks are listed here. */
  predicate IsDigit(c: char)
  {
    ('0' <= c <= '9') ||
    ('\U{660}' <= c <= '\U{669}') ||    // Arabic-Indic
    ('\U{6F0}' <= c <= '\U{6F9}') ||    // Extended Arabic-Indic
    ('\U{966}' <= c <= '\U{96F}') ||    // Devanagari
    ('\U{E50}' <= c <= '\U{E59}') ||    // Thai
    ('\U{FF10}' <= c <= '\U{FF19}')     // Fullwidth
  }

  /** Every character of `s[i..j]` is in class `P`. */
  ghost predicate All(s: string, i: int, j: int, P: char -> bool)
    requires 0 <= i <= j <= |s|
  {
    forall k :: i <= k < j ==> P(s[k])
  }

  /** End of the run of class-`P` characters that starts at `i`. */
  function SkipWhile(s: string, i: nat, P: char -> bool): (r: nat)
    requires i <= |s|
    ensures i <= r <= |s|
    ensures forall k :: i <= k < r ==> P(s[k])
    ensures r < |s| ==> !P(s[r])
    decreases |s| - i
  {
    if i < |s| && P(s[i]) then SkipWhile(s, i + 1, P) else i
  }

  /** A run of class-`P` characters followed by a character outside `P` (or
      the end of `s`) is exactly what `SkipWhile` skips. */
  lemma SkipWhileStopsAt(s: string, i: nat, j: nat, P: char -> bool)
    requires i <= j <= |s| && All(s, i, j, P) && (j == |s| || !P(s[j]))
    ensures SkipWhile(s, i, P) == j
  {
  }

  /** One match found by `captures_iter`: group 1 (the label), group 2 (the
      number text), the index where the match starts and the index just past
      it. */
  datatype Capture = Capture(name: string, number: string, matchStart: nat, matchEnd: nat)

  /** The pattern matches `s[i..k]` with its pieces bounded as follows:
      `[1\-4\s]*` on `[i, j)`, `[A-Za-z]+` on `[j, m)`, `[\(A-Z)]*` on `[m, e)`,
      `\s+` on `[e, w)`, `=` at `w`, `\s+` on `[w + 1, n0)`, `[-]?` on
      `[n0, n1)`, `\d+` on `[n1, n2)`, `[\.]?` on `[n2, n3)` and `\d*` on
      `[n3, k)`. Group 1 is `s[i..e]`, group 2 is `s[n0..k]`. */
  ghost predicate IsMatch(s: string, i: nat, j: nat, m: nat, e: nat, w: nat,
                          n0: nat, n1: nat, n2: nat, n3: nat, k: nat)
  {
    i <= j < m <= e < w && w + 1 < n0 <= n1 < n2 <= n3 <= k <= |s| &&
    All(s, i, j, IsLabelLead) && All(s, j, m, IsAsciiLetter) && All(s, m, e, IsLabelTail) &&
    All(s, e, w, IsWhiteSpace) && s[w] == '=' && All(s, w + 1, n0, IsWhiteSpace) &&
    (n1 == n0 || (n1 == n0 + 1 && s[n0] == '-')) && All(s, n1, n2, IsDigit) &&
    (n3 == n2 || (n3 == n2 + 1 && s[n2] == '.')) && All(s, n3, k, IsDigit)
  }

  /** Boundaries of the pieces of one match, named as in `IsMatch`. */
  datatype Bounds = Bounds(j: nat, m: nat, e: nat, w: nat, n0: nat, n1: nat, n2: nat, n3: nat, k: nat)

  /** Group 1 anchored at `i`: the end `j` of `[1\-4\s]*`, the end `m` of
      `[A-Za-z]+` and the end `e` of `[\(A-Z)]*`, provided white space follows,
      as the next piece of the pattern needs. */
  function LabelAt(s: string, i: nat): (r: Option<(nat, nat, nat)>)
    requires i <= |s|
    ensures r.Some? ==> var (j, m, e) := r.value;
                        i <= j < m <= e < |s| && IsWhiteSpace(s[e]) &&
                        All(s, i, j, IsLabelLead) && All(s, j, m, IsAsciiLetter) &&
                        All(s, m, e, IsLabelTail)
  {
    var j := SkipWhile(s, i, IsLabelLead);
    if j == |s| || !IsAsciiLetter(s[j]) then None else
    var m := SkipWhile(s, j, IsAsciiLetter);
    var e := SkipWhile(s, m, IsLabelTail);
    if e == |s| || !IsWhiteSpace(s[e]) then None else
    Some((j, m, e))
  }

  /** `\s+=\s+` starting at `e`: the index `w` of `=` and the end `n0` of
      the white space after it. */
  function SeparatorAt(s: string, e: nat): (r: Option<(nat, nat)>)
    requires e <= |s|
    ensures r.Some? ==> var (w, n0) := r.value;
                        e < w && w + 1 < n0 <= |s| && All(s, e, w, IsWhiteSpace) &&
                        s[w] == '=' && All(s, w + 1, n0, IsWhiteSpace) &&
                        (n0 == |s| || !IsWhiteSpace(s[n0]))
  {
    var w := SkipWhile(s, e, IsWhiteSpace);
    if w == e || w == |s| || s[w] != '=' then None else
    if w + 1 == |s| || !IsWhiteSpace(s[w + 1]) then None else
    Some((w, SkipWhile(s, w + 1, IsWhiteSpace)))
  }

  /** Group 2 starting at `n0`, each piece taken greedily: the ends `n1` of
      `[-]?`, `n2` of `\d+`, `n3` of `[\.]?` and `k` of `\d*`. */
  function NumberAt(s: string, n0: nat): (r: Option<(nat, nat, nat, nat)>)
    requires n0 <= |s|
    ensures r.Some? ==> var (n1, n2, n3, k) := r.value;
                        n0 <= n1 < n2 <= n3 <= k <= |s| &&
                        (n1 == n0 || (n1 == n0 + 1 && s[n0] == '-')) && All(s, n1, n2, IsDigit) &&
                        (n3 == n2 || (n3 == n2 + 1 && s[n2] == '.')) && All(s, n3, k, IsDigit)
  {
    var n1 := if n0 < |s| && s[n0] == '-' then n0 + 1 else n0;
    if n1 == |s| || !IsDigit(s[n1]) then None else
    var n2 := SkipWhile(s, n1, IsDigit);
    var n3 := if n2 < |s| && s[n2] == '.' then n2 + 1 else n2;
    Some((n1, n2, n3, SkipWhile(s, n3, IsDigit)))
  }

  /** The boundaries of the match the regex engine reports for a search
      anchored at `i`, if the pattern matches there. */
  function MatchBoundsAt(s: string, i: nat): (r: Option<Bounds>)
    requires i <= |s|
    ensures r.Some? ==> var b := r.value;
                        IsMatch(s, i, b.j, b.m, b.e, b.w, b.n0, b.n1, b.n2, b.n3, b.k)
  {
    match LabelAt(s, i)
    case None => None
    case Some((j, m, e)) =>
      match SeparatorAt(s, e)
      case None => None
      case Some((w, n0)) =>
        match NumberAt(s, n0)
        case None => None
        case Some((n1, n2, n3, k)) => Some(Bounds(j, m, e, w, n0, n1, n2, n3, k))
  }

  /** The match the regex engine reports for a search anchored at `i`, if any:
      group 1 is `s[i..e]`, group 2 is `s[n0..k]`. Every match it reports is a
      match of the pattern (`MatchBoundsAt`'s contract). */
  function MatchAt(s: string, i: nat): (r: Option<Capture>)
    ensures r.Some? ==> r.value.matchStart == i < r.value.matchEnd <= |s| && IsNumberText(r.value.number)
  {
    if |s| < i then None
    else match MatchBoundsAt(s, i)
    case None => None
    case Some(b) =>
      NumberSliceWellFormed(s, i, b);
      Some(Capture(s[i..b.e], s[b.n0..b.k], i, b.k))
  }

  /** The label pieces of any match anchored at `i` end where `LabelAt` says. */
  lemma LabelAtComplete(s: string, i: nat, j: nat, m: nat, e: nat)
    requires i <= j < m <= e < |s| && IsWhiteSpace(s[e])
    requires All(s, i, j, IsLabelLead) && All(s, j, m, IsAsciiLetter) && All(s, m, e, IsLabelTail)
    ensures LabelAt(s, i).Some? && LabelAt(s, i).value.2 == e
  {
    assert IsAsciiLetter(s[j]);
    SkipWhileStopsAt(s, i, j, IsLabelLead);
    var m' := SkipWhile(s, j, IsAsciiLetter);
    assert !IsAsciiLetter(s[e]);
    assert m <= m' <= e;
    assert All(s, m', e, IsLabelTail);
    SkipWhileStopsAt(s, m', e, IsLabelTail);
  }

  /** The separator of any match starting at `e` ends where `SeparatorAt` says. */
  lemma SeparatorAtComplete(s: string, e: nat, w: nat, n0: nat)
    requires e < w && w + 1 < n0 < |s| && All(s, e, w, IsWhiteSpace) &&
             s[w] == '=' && All(s, w + 1, n0, IsWhiteSpace) && !IsWhiteSpace(s[n0])
    ensures SeparatorAt(s, e) == Some((w, n0))
  {
    SkipWhileStopsAt(s, e, w, IsWhiteSpace);
    SkipWhileStopsAt(s, w + 1, n0, IsWhiteSpace);
  }

  /** Any number group starting at `n0` is at most as long as the greedy one. */
  lemma NumberAtLongest(s: string, n0: nat, n1: nat, n2: nat, n3: nat, k: nat)
    requires n0 <= n1 < n2 <= n3 <= k <= |s|
    requires (n1 == n0 || (n1 == n0 + 1 && s[n0] == '-')) && All(s, n1, n2, IsDigit)
    requires (n3 == n2 || (n3 == n2 + 1 && s[n2] == '.')) && All(s, n3, k, IsDigit)
    ensures NumberAt(s, n0).Some? && k <= NumberAt(s, n0).value.3
  {
    assert IsDigit(s[n1]);
    var n2' := SkipWhile(s, n1, IsDigit);
    assert n2 <= n2';
    var n3' := if n2' < |s| && s[n2'] == '.' then n2' + 1 else n2';
    if n2' == n2 && n3 == n2 + 1 {
      assert n3' == n3;
    } else if n2' == n2 {
      assert k == n2;
    } else {
      assert n3 == n2;
    }
  }

  /** Whenever the pattern matches at `i`, `MatchAt` finds a match there with
      the same label and the same start of the number, and its number is the
      longest one: leftmost-first with greedy quantifiers. */
  lemma MatchAtComplete(s: string, i: nat, j: nat, m: nat, e: nat, w: nat,
                        n0: nat, n1: nat, n2: nat, n3: nat, k: nat)
    requires IsMatch(s, i, j, m, e, w, n0, n1, n2, n3, k)
    ensures MatchAt(s, i).Some?
    ensures var c := MatchAt(s, i).value;
            c.name == s[i..e] && k <= c.matchEnd && c.number == s[n0..c.matchEnd]
  {
    assert IsWhiteSpace(s[e]);
    LabelAtComplete(s, i, j, m, e);
    assert s[n0] == '-' || IsDigit(s[n0]);
    SeparatorAtComplete(s, e, w, n0);
    NumberAtLongest(s, n0, n1, n2, n3, k);
  }

  /** `find` searches `s` anchored at a position: a match it reports at `q`
      starts at `q` and ends after it, inside `s`. `MatchAt` is one such
      search (`MatchAtAnchored`). */
  ghost predicate Anchored(find: (string, nat) -> Option<Capture>, s: string)
  {
    forall q: nat :: find(s, q).Some? ==> find(s, q).value.matchStart == q < find(s, q).value.matchEnd <= |s|
  }

  lemma MatchAtAnchored(s: string)
    ensures Anchored(MatchAt, s)
  {
    forall q: nat | MatchAt(s, q).Some?
      ensures MatchAt(s, q).value.matchStart == q < MatchAt(s, q).value.matchEnd <= |s|
    {
    }
  }

  /** The captures `captures_iter` reports on `s` from position `p` on, with
      the anchored search `find`: try each position in turn, report the first
      match found and resume the search at its end. Every capture is the match
      `find` reports at its own start. */
  function CapturesFrom(find: (string, nat) -> Option<Capture>, s: string, p: nat): (r: seq<Capture>)
    requires p <= |s| && Anchored(find, s)
    ensures forall c :: c in r ==>
              p <= c.matchStart < c.matchEnd <= |s| && find(s, c.matchStart) == Some(c)
    decreases |s| - p
  {
    if p == |s| then []
    else match find(s, p)
      case Some(c) => [c] + CapturesFrom(find, s, c.matchEnd)
      case None => CapturesFrom(find, s, p + 1)
  }

  /** Without a match at `p`, the search goes on at `p + 1`. */
  lemma CapturesFromNoMatch(find: (string, nat) -> Option<Capture>, s: string, p: nat)
    requires p < |s| && Anchored(find, s) && find(s, p).None?
    ensures CapturesFrom(find, s, p) == CapturesFrom(find, s, p + 1)
  {
  }

  /** A match at `p` is reported, and the search goes on at its end. */
  lemma CapturesFromMatch(find: (string, nat) -> Option<Capture>, s: string, p: nat)
    requires p < |s| && Anchored(find, s) && find(s, p).Some?
    ensures CapturesFrom(find, s, p) ==
              [find(s, p).value] + CapturesFrom(find, s, find(s, p).value.matchEnd)
  {
  }

  /** Each capture of `r` ends after the one before it. */
  ghost predicate Ascending(r: seq<Capture>)
  {
    forall a, b :: 0 <= a < b < |r| ==> r[a].matchEnd < r[b].matchEnd
  }

  /** A capture ending before every capture of an ascending sequence can be
      put in front of it. */
  lemma AscendingCons(c: Capture, rest: seq<Capture>)
    requires Ascending(rest) && forall x :: x in rest ==> c.matchEnd < x.matchEnd
    ensures Ascending([c] + rest)
  {
    var r := [c] + rest;
    forall a, b | 0 <= a < b < |r| ensures r[a].matchEnd < r[b].matchEnd {
      assert r[b] == rest[b - 1];
      if a > 0 { assert r[a] == rest[a - 1]; } else { assert rest[b - 1] in rest; }
    }
  }

  /** The captures come in order, each ending after the previous one. */
  lemma {:induction false} CapturesFromAscending(find: (string, nat) -> Option<Capture>, s: string, p: nat)
    requires p <= |s| && Anchored(find, s)
    ensures Ascending(CapturesFrom(find, s, p))
    decreases |s| - p
  {
    if p < |s| {
      if find(s, p).Some? {
        var c := find(s, p).value;
        CapturesFromMatch(find, s, p);
        CapturesFromAscending(find, s, c.matchEnd);
        AscendingCons(c, CapturesFrom(find, s, c.matchEnd));
      } else {
        CapturesFromNoMatch(find, s, p);
        CapturesFromAscending(find, s, p + 1);
      }
    } else {
      assert CapturesFrom(find, s, p) == [];
    }
  }

  /** Where the search for the capture after the first `a` ones starts: at
      `p`, or at the end of the previous capture. */
  function SearchFrom(find: (string, nat) -> Option<Capture>, s: string, p: nat, a: nat): (q: nat)
    requires p <= |s| && Anchored(find, s) && a <= |CapturesFrom(find, s, p)|
    ensures p <= q <= |s|
  {
    if a == 0 then p else CapturesFrom(find, s, p)[a - 1].matchEnd
  }

  /** `find` reports no match at any position of `[x, y)`. */
  ghost predicate NoMatchBetween(find: (string, nat) -> Option<Capture>, s: string, x: nat, y: nat)
  {
    forall q: nat :: x <= q < y ==> find(s, q).None?
  }

  /** `c` is the match at the leftmost position at or after `from` at which
      `find` reports one. */
  ghost predicate LeftmostFrom(find: (string, nat) -> Option<Capture>, s: string, from: nat, c: Capture)
  {
    from <= c.matchStart && find(s, c.matchStart) == Some(c) && NoMatchBetween(find, s, from, c.matchStart)
  }

  /** `captures_iter` skips no match: capture `a` is the leftmost match from
      where the search resumes, and after the last capture there is no match
      left. */
  lemma {:induction false} CapturesFromLeftmost(find: (string, nat) -> Option<Capture>, s: string, p: nat, a: nat)
    requires p <= |s| && Anchored(find, s) && a <= |CapturesFrom(find, s, p)|
    ensures a < |CapturesFrom(find, s, p)| ==>
              LeftmostFrom(find, s, SearchFrom(find, s, p, a), CapturesFrom(find, s, p)[a])
    ensures a == |CapturesFrom(find, s, p)| ==>
              NoMatchBetween(find, s, SearchFrom(find, s, p, a), |s|)
    decreases |s| - p
  {
    if p < |s| {
      if find(s, p).Some? {
        var c := find(s, p).value;
        CapturesFromMatch(find, s, p);
        if a == 0 {
          assert CapturesFrom(find, s, p)[0] == c && a < |CapturesFrom(find, s, p)|;
        } else {
          CapturesFromLeftmost(find, s, c.matchEnd, a - 1);
          LeftmostAfterFirst(find, s, p, c, a);
        }
      } else {
        CapturesFromNoMatch(find, s, p);
        CapturesFromLeftmost(find, s, p + 1, a);
        if a == 0 {
          NoMatchExtend(find, s, p, CapturesFrom(find, s, p));
        } else {
          assert SearchFrom(find, s, p + 1, a) == SearchFrom(find, s, p, a);
        }
      }
    } else {
      assert CapturesFrom(find, s, p) == [] && SearchFrom(find, s, p, a) == |s|;
    }
  }

  /** After a match `c` at `p`, the search for capture `a` from `p` is the
      search for capture `a - 1` from the end of `c`. */
  lemma LeftmostAfterFirst(find: (string, nat) -> Option<Capture>, s: string, p: nat, c: Capture, a: nat)
    requires p <= |s| && Anchored(find, s) && p < c.matchEnd <= |s|
    requires CapturesFrom(find, s, p) == [c] + CapturesFrom(find, s, c.matchEnd)
    requires 0 < a <= |CapturesFrom(find, s, p)|
    requires a - 1 < |CapturesFrom(find, s, c.matchEnd)| ==>
               LeftmostFrom(find, s, SearchFrom(find, s, c.matchEnd, a - 1), CapturesFrom(find, s, c.matchEnd)[a - 1])
    requires a - 1 == |CapturesFrom(find, s, c.matchEnd)| ==>
               NoMatchBetween(find, s, SearchFrom(find, s, c.matchEnd, a - 1), |s|)
    ensures a < |CapturesFrom(find, s, p)| ==>
              LeftmostFrom(find, s, SearchFrom(find, s, p, a), CapturesFrom(find, s, p)[a])
    ensures a == |CapturesFrom(find, s, p)| ==>
              NoMatchBetween(find, s, SearchFrom(find, s, p, a), |s|)
  {
    var r := CapturesFrom(find, s, p);
    var rest := CapturesFrom(find, s, c.matchEnd);
    assert SearchFrom(find, s, c.matchEnd, a - 1) == SearchFrom(find, s, p, a) by {
      if a - 1 > 0 { assert r[a - 1] == rest[a - 2]; }
    }
    if a < |r| {
      assert r[a] == rest[a - 1];
    }
  }

  /** Without a match at `p`, the first match from `p` is the first match
      from `p + 1`. */
  lemma NoMatchExtend(find: (string, nat) -> Option<Capture>, s: string, p: nat, r: seq<Capture>)
    requires find(s, p).None?
    requires 0 < |r| ==> LeftmostFrom(find, s, p + 1, r[0])
    requires 0 == |r| ==> NoMatchBetween(find, s, p + 1, |s|)
    ensures 0 < |r| ==> LeftmostFrom(find, s, p, r[0])
    ensures 0 == |r| ==> NoMatchBetween(find, s, p, |s|)
  {
  }

  /** `re.captures_iter(line)`: the matches of the pattern in `line`, left
      to right, each ending after the previous one, with a well-formed number
      group. */
  function Captures(line: string): (r: seq<Capture>)
    ensures forall c :: c in r ==> c.matchEnd <= |line| && IsNumberText(c.number)
    ensures Ascending(r)
  {
    MatchAtAnchored(line);
    CapturesFromAscending(MatchAt, line, 0);
    CapturesFrom(MatchAt, line, 0)
  }

  /** No match of the pattern is skipped: capture `a` of a line is the match
      at the leftmost position, from where the search resumes, at which the
      pattern matches, and after the last capture the pattern matches
      nowhere. */
  lemma CapturesLeftmost(line: string, a: nat)
    requires a <= |Captures(line)|
    ensures Anchored(MatchAt, line) && Captures(line) == CapturesFrom(MatchAt, line, 0)
    ensures a < |Captures(line)| ==>
              LeftmostFrom(MatchAt, line, SearchFrom(MatchAt, line, 0, a), Captures(line)[a])
    ensures a == |Captures(line)| ==> NoMatchBetween(MatchAt, line, SearchFrom(MatchAt, line, 0, a), |line|)
  {
    MatchAtAnchored(line);
    CapturesFromLeftmost(MatchAt, line, 0, a);
  }

  /** Text group 2 can capture: `[-]?\d+[\.]?\d*`. */
  ghost predicate IsNumberText(t: string)
  {
    exists n1: nat, n2: nat, n3: nat :: IsMatchOfNumber(t, n1, n2, n3)
  }

  /** `t` split as `[-]?` on `[0, n1)`, `\d+` on `[n1, n2)`, `[\.]?` on
      `[n2, n3)`, `\d*` on `[n3, |t|)`. */
  ghost predicate IsMatchOfNumber(t: string, n1: nat, n2: nat, n3: nat)
  {
    n1 < n2 <= n3 <= |t| &&
    (n1 == 0 || (n1 == 1 && t[0] == '-')) && All(t, n1, n2, IsDigit) &&
    (n3 == n2 || (n3 == n2 + 1 && t[n2] == '.')) && All(t, n3, |t|, IsDigit)
  }

  /** The text between the `n0` and `k` boundaries of a match has the shape
      of group 2. */
  lemma NumberSliceWellFormed(s: string, i: nat, b: Bounds)
    requires IsMatch(s, i, b.j, b.m, b.e, b.w, b.n0, b.n1, b.n2, b.n3, b.k)
    ensures IsNumberText(s[b.n0..b.k])
  {
    var t := s[b.n0..b.k];
    assert All(t, b.n1 - b.n0, b.n2 - b.n0, IsDigit) by {
      forall x | b.n1 - b.n0 <= x < b.n2 - b.n0 ensures IsDigit(t[x]) {
        assert t[x] == s[b.n0 + x];
      }
    }
    assert All(t, b.n3 - b.n0, |t|, IsDigit) by {
      forall x | b.n3 - b.n0 <= x < |t| ensures IsDigit(t[x]) {
        assert t[x] == s[b.n0 + x];
      }
    }
    assert IsMatchOfNumber(t, b.n1 - b.n0, b.n2 - b.n0, b.n3 - b.n0);
  }
}
