/** `str::parse::<f64>` as `extract_values` applies it to group 2 of the
    pattern (src/main.rs:162). The value is the exact decimal the text
    denotes; the rounding to the nearest binary64 is not modelled. Rust's
    parser accepts only ASCII digits, while the pattern's `\d` accepts any
    Unicode decimal digit: that difference is how a captured number fails to
    parse. */
module Numbers {
  import opened Wrappers
  import opened Pattern

  predicate IsAsciiDigit(c: char)
  {
    '0' <= c <= '9'
  }

  predicate AllAsciiDigits(ds: string)
  {
    forall k :: 0 <= k < |ds| ==> IsAsciiDigit(ds[k])
  }

  /** Value of a string of ASCII digits, most significant first. */
  function DigitsValue(ds: string): nat
    requires AllAsciiDigits(ds)
  {
    if ds == [] then 0
    else 10 * DigitsValue(ds[..|ds| - 1]) + (ds[|ds| - 1] as int - '0' as int)
  }

  function Pow10(n: nat): (r: nat)
    ensures r > 0
  {
    if n == 0 then 1 else 10 * Pow10(n - 1)
  }

  /** Index of the first `.` in `t`, or `|t|` when there is none. */
  function DotIndex(t: string): (r: nat)
    ensures r <= |t|
  {
    if t == [] || t[0] == '.' then 0 else 1 + DotIndex(t[1..])
  }

  /** `DotIndex` is the position `d` such that no `.` comes before `d` and a
      `.` is at `d` unless `d` is the end. */
  lemma {:induction false} DotIndexAt(t: string, d: nat)
    requires d <= |t| && (d == |t| || t[d] == '.')
    requires forall k :: 0 <= k < d ==> t[k] != '.'
    ensures DotIndex(t) == d
  {
    if t != [] && t[0] != '.' {
      assert d > 0;
      DotIndexAt(t[1..], d - 1);
    }
  }

  /** The sign, the digits before the first `.` and the digits after it. */
  function SplitDecimal(t: string): (bool, string, string)
  {
    var neg := |t| > 0 && t[0] == '-';
    var body := if neg then t[1..] else t;
    var d := DotIndex(body);
    (neg, body[..d], if d < |body| then body[d + 1..] else "")
  }

  /** Exact value of the decimal with sign `neg`, digits `whole` before the
      point and digits `fraction` after it. */
  function DecimalValue(neg: bool, whole: string, fraction: string): real
    requires AllAsciiDigits(whole) && AllAsciiDigits(fraction)
  {
    var v := DigitsValue(whole) as real + DigitsValue(fraction) as real / Pow10(|fraction|) as real;
    if neg then -v else v
  }

  /** Decimal text `-?D+(.D*)?` with ASCII digits D, read as its exact value.
      Among the texts group 2 of the pattern can capture, `None` is exactly
      where Rust reports a `ParseFloatError` (`CapturedNumberParses`); other
      float syntax is not modelled. A text that parses is not empty and holds
      nothing but ASCII digits, decimal points and a leading `-`. */
  function ParseDecimal(t: string): (r: Option<real>)
    ensures r.Some? ==>
              |t| > 0 && forall k :: 0 <= k < |t| ==> IsAsciiDigit(t[k]) || t[k] == '.' || (k == 0 && t[k] == '-')
  {
    var (neg, whole, fraction) := SplitDecimal(t);
    if whole == "" || !AllAsciiDigits(whole) || !AllAsciiDigits(fraction) then None
    else
      ParsedTextAlphabet(t);
      Some(DecimalValue(neg, whole, fraction))
  }

  /** `DotIndex` stops at a `.` unless it reaches the end. */
  lemma {:induction false} DotIndexIsDot(t: string)
    ensures DotIndex(t) < |t| ==> t[DotIndex(t)] == '.'
  {
    if t != [] && t[0] != '.' {
      DotIndexIsDot(t[1..]);
    }
  }

  /** A text whose parts are ASCII digit strings, with a non-empty whole
      part, is made of ASCII digits, the point and a leading `-`. */
  lemma ParsedTextAlphabet(t: string)
    requires SplitDecimal(t).1 != "" && AllAsciiDigits(SplitDecimal(t).1) && AllAsciiDigits(SplitDecimal(t).2)
    ensures |t| > 0 && forall k :: 0 <= k < |t| ==> IsAsciiDigit(t[k]) || t[k] == '.' || (k == 0 && t[k] == '-')
  {
    var (neg, whole, fraction) := SplitDecimal(t);
    var body := if neg then t[1..] else t;
    var d := DotIndex(body);
    var o := if neg then 1 else 0;
    DotIndexIsDot(body);
    forall k | o <= k < |t| ensures IsAsciiDigit(t[k]) || t[k] == '.' {
      var j := k - o;
      assert body[j] == t[k];
      if j < d {
        assert whole[j] == body[j];
      } else if j > d {
        assert fraction[j - d - 1] == body[j];
      }
    }
  }

  /** Every digit of `t` that the pattern's `\d` accepts is an ASCII digit. */
  ghost predicate DigitsAreAscii(t: string)
  {
    forall k :: 0 <= k < |t| && IsDigit(t[k]) ==> IsAsciiDigit(t[k])
  }

  /** How a number text splits around its optional decimal point. */
  lemma SplitNumberText(t: string, n1: nat, n2: nat, n3: nat)
    requires IsMatchOfNumber(t, n1, n2, n3)
    ensures SplitDecimal(t) == (n1 == 1, if n3 == n2 + 1 then t[n1..n2] else t[n1..],
                                if n3 == n2 + 1 then t[n3..] else "")
  {
    var body := t[n1..];
    assert body == if |t| > 0 && t[0] == '-' then t[1..] else t by {
      if n1 == 0 { assert IsDigit(t[0]); }
    }
    if n3 == n2 + 1 {
      forall k | 0 <= k < n2 - n1 ensures body[k] != '.' {
        assert body[k] == t[n1 + k] && IsDigit(t[n1 + k]);
      }
      DotIndexAt(body, n2 - n1);
      assert body[..n2 - n1] == t[n1..n2];
      assert body[n2 - n1 + 1..] == t[n3..];
    } else {
      forall k | 0 <= k < |body| ensures body[k] != '.' {
        assert body[k] == t[n1 + k] && IsDigit(t[n1 + k]);
      }
      DotIndexAt(body, |body|);
      assert body[..|body|] == t[n1..];
    }
  }

  /** A number text the pattern captured parses exactly when its digits are
      ASCII digits; otherwise `extract_values` fails on it. */
  lemma CapturedNumberParses(t: string)
    requires IsNumberText(t)
    ensures ParseDecimal(t).Some? <==> DigitsAreAscii(t)
  {
    var n1: nat, n2: nat, n3: nat :| IsMatchOfNumber(t, n1, n2, n3);
    SplitNumberText(t, n1, n2, n3);
    if DigitsAreAscii(t) {
      AsciiNumberParses(t, n1, n2, n3);
    } else {
      var k :| 0 <= k < |t| && IsDigit(t[k]) && !IsAsciiDigit(t[k]);
      NonAsciiDigitFails(t, n1, n2, n3, k);
    }
  }

  /** With ASCII digits only, both parts of a number text are digit strings
      and the whole part is not empty. */
  lemma AsciiNumberParses(t: string, n1: nat, n2: nat, n3: nat)
    requires IsMatchOfNumber(t, n1, n2, n3) && DigitsAreAscii(t)
    ensures ParseDecimal(t).Some?
  {
    SplitNumberText(t, n1, n2, n3);
    var (_, whole, fraction) := SplitDecimal(t);
    forall k | 0 <= k < |whole| ensures IsAsciiDigit(whole[k]) {
      assert whole[k] == t[n1 + k];
    }
    forall k | 0 <= k < |fraction| ensures IsAsciiDigit(fraction[k]) {
      assert fraction[k] == t[n3 + k];
    }
  }

  /** A digit outside ASCII lands in the whole part or in the fraction, and
      either way the text does not parse. */
  lemma NonAsciiDigitFails(t: string, n1: nat, n2: nat, n3: nat, k: nat)
    requires IsMatchOfNumber(t, n1, n2, n3)
    requires k < |t| && IsDigit(t[k]) && !IsAsciiDigit(t[k])
    ensures ParseDecimal(t).None?
  {
    SplitNumberText(t, n1, n2, n3);
    var (_, whole, fraction) := SplitDecimal(t);
    assert k != n2 || n3 == n2;
    if k < (if n3 == n2 + 1 then n2 else |t|) {
      assert whole[k - n1] == t[k];
    } else {
      assert fraction[k - n3] == t[k];
    }
  }

  /** A text of ASCII digits alone reads as the integer it denotes. */
  lemma ParseDecimalWhole(t: string)
    requires t != [] && AllAsciiDigits(t)
    ensures ParseDecimal(t) == Some(DigitsValue(t) as real)
  {
    assert IsAsciiDigit(t[0]);
    forall k | 0 <= k < |t| ensures t[k] != '.' {
      assert IsAsciiDigit(t[k]);
    }
    DotIndexAt(t, |t|);
    assert t[..|t|] == t;
    assert SplitDecimal(t) == (false, t, "");
    DecimalValueWhole(t);
  }

  /** Without fraction digits the value is the whole part's. */
  lemma DecimalValueWhole(whole: string)
    requires AllAsciiDigits(whole)
    ensures DecimalValue(false, whole, "") == DigitsValue(whole) as real
  {
    assert DigitsValue("") == 0 && Pow10(0) == 1;
  }

  /** A leading `-` negates the value and does not change whether the text
      parses. */
  lemma ParseDecimalNegative(t: string)
    requires t != [] && t[0] != '-'
    ensures ParseDecimal("-" + t) ==
              if ParseDecimal(t).Some? then Some(-ParseDecimal(t).value) else None
  {
    assert ("-" + t)[1..] == t;
  }
}
