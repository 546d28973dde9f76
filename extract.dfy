/** Key/value accumulation of `extract_values` (src/main.rs:149-167): every
    capture of the pattern on a line that holds neither `KE` nor `err` adds its
    parsed number to the series of its trimmed label; the first number that
    does not parse aborts the call. The source's `BTreeMap` is a Dafny `map`:
    which key holds which series is modelled, the order of the keys is not. */
module Extract {
  import opened Wrappers
  import opened Text
  import opened Pattern
  import opened Numbers
  import opened Region

  /** The error `extract_values` propagates with `?`: the text of the captured
      number that did not parse. */
  datatype Error = ValueFormat(text: string)

  /** Field name to the values seen for it, in the order they were seen. */
  type Data = map<string, seq<real>>

  /** The noise filter: a line in which `KE` or `err` occurs contributes
      nothing. */
  predicate Excluded(line: string)
    ensures Excluded(line) <==> exists i :: OccursAt(line, "KE", i) || OccursAt(line, "err", i)
  {
    ContainsAt(line, "KE");
    ContainsAt(line, "err");
    Contains(line, "KE") || Contains(line, "err")
  }

  /** The two library routines the loop calls: the compiled pattern's
      `captures_iter`, giving a line's captures in order, and
      `str::parse::<f64>`. `extract_values` uses `Pattern.Captures` and
      `Numbers.ParseDecimal` (see `Source`); the facts proved in this module
      hold for any pattern and any parser. */
  datatype Engine = Engine(captures: string -> seq<Capture>, parse: string -> Option<real>)

  /** The pattern of src/main.rs:153 and Rust's float parser. */
  const Source := Engine(Captures, ParseDecimal)

  /** The captures of one line that are not skipped. */
  function LineCaptures(en: Engine, line: string): seq<Capture>
  {
    if Excluded(line) then [] else en.captures(line)
  }

  /** The captures `extract_values` acts on, in line order and, within a
      line, left to right. */
  function KeptCaptures(en: Engine, lines: seq<string>): seq<Capture>
  {
    if lines == [] then []
    else KeptCaptures(en, lines[..|lines| - 1]) + LineCaptures(en, lines[|lines| - 1])
  }

  /** The series of `key` in `data`; empty when `key` is absent. */
  function SeriesOf(data: Data, key: string): seq<real>
  {
    if key in data then data[key] else []
  }

  /** `data.entry(key).or_insert(Vec::new()).push(v)`: `key` gets an entry
      if it had none, `v` is appended to its series, and every other series
      is left as it was. */
  function Push(data: Data, key: string, v: real): (r: Data)
    ensures r.Keys == data.Keys + {key}
    ensures forall k :: SeriesOf(r, k) == SeriesOf(data, k) + (if k == key then [v] else [])
  {
    data[key := SeriesOf(data, key) + [v]]
  }

  /** One turn of the inner loop on a kept capture: it fails, with the
      number's text, exactly when the number does not parse; otherwise the
      parsed value is appended to the series of the trimmed label. */
  function Step(en: Engine, data: Data, c: Capture): (r: Result<Data, Error>)
    ensures r.Err? <==> en.parse(c.number).None?
    ensures r.Err? ==> r.error == ValueFormat(c.number)
    ensures r.Ok? ==> r.value.Keys == data.Keys + {Trim(c.name)}
    ensures r.Ok? ==>
              forall k :: SeriesOf(r.value, k) ==
                SeriesOf(data, k) + (if k == Trim(c.name) then [en.parse(c.number).value] else [])
  {
    match en.parse(c.number)
    case None => Err(ValueFormat(c.number))
    case Some(v) => Ok(Push(data, Trim(c.name), v))
  }

  /** The captures `caps` applied in order to `data`, stopping at the first
      failure. */
  function Accumulate(en: Engine, data: Data, caps: seq<Capture>): Result<Data, Error>
  {
    if caps == [] then Ok(data)
    else match Accumulate(en, data, caps[..|caps| - 1])
      case Err(e) => Err(e)
      case Ok(d) => Step(en, d, caps[|caps| - 1])
  }

  /** What `extract_values` returns for `lines` with the matcher and parser
      of `en`. */
  function Extracted(en: Engine, lines: seq<string>): Result<Data, Error>
  {
    Accumulate(en, map[], KeptCaptures(en, lines))
  }

  lemma {:induction false} KeptCapturesAppend(en: Engine, a: seq<string>, b: seq<string>)
    ensures KeptCaptures(en, a + b) == KeptCaptures(en, a) + KeptCaptures(en, b)
    decreases |b|
  {
    if b != [] {
      var b' := b[..|b| - 1];
      assert (a + b)[..|a + b| - 1] == a + b';
      KeptCapturesAppend(en, a, b');
    } else {
      assert a + b == a;
    }
  }

  /** Accumulating `x + y` is accumulating `x`, then `y` from where `x` left
      off; a failure in `x` is the failure of the whole. */
  lemma {:induction false} AccumulateAppend(en: Engine, data: Data, x: seq<Capture>, y: seq<Capture>)
    ensures Accumulate(en, data, x).Err? ==> Accumulate(en, data, x + y) == Accumulate(en, data, x)
    ensures Accumulate(en, data, x).Ok? ==>
              Accumulate(en, data, x + y) == Accumulate(en, Accumulate(en, data, x).value, y)
    decreases |y|
  {
    if y == [] {
      assert x + y == x;
    } else {
      var y' := y[..|y| - 1];
      assert (x + y)[..|x + y| - 1] == x + y';
      AccumulateAppend(en, data, x, y');
    }
  }

  /** Every captured number parses. */
  ghost predicate AllParse(en: Engine, caps: seq<Capture>)
  {
    forall i :: 0 <= i < |caps| ==> en.parse(caps[i].number).Some?
  }

  /** The trimmed labels of `caps`. */
  ghost function KeysOf(caps: seq<Capture>): set<string>
  {
    set c | c in caps :: Trim(c.name)
  }

  /** The values of the captures whose trimmed label is `key`, in order. */
  ghost function ValuesFor(en: Engine, caps: seq<Capture>, key: string): seq<real>
    requires AllParse(en, caps)
  {
    if caps == [] then []
    else
      var c := caps[|caps| - 1];
      ValuesFor(en, caps[..|caps| - 1], key) +
      (if Trim(c.name) == key then [en.parse(c.number).value] else [])
  }

  /** Values of earlier captures come before values of later ones. */
  lemma {:induction false} ValuesForAppend(en: Engine, x: seq<Capture>, y: seq<Capture>, key: string)
    requires AllParse(en, x) && AllParse(en, y)
    ensures AllParse(en, x + y)
    ensures ValuesFor(en, x + y, key) == ValuesFor(en, x, key) + ValuesFor(en, y, key)
    decreases |y|
  {
    assert AllParse(en, x + y) by {
      forall i | 0 <= i < |x + y| ensures en.parse((x + y)[i].number).Some? {
        if i >= |x| { assert (x + y)[i] == y[i - |x|]; }
      }
    }
    if y == [] {
      assert x + y == x;
    } else {
      var y' := y[..|y| - 1];
      assert (x + y)[..|x + y| - 1] == x + y';
      assert AllParse(en, y');
      ValuesForAppend(en, x, y', key);
    }
  }

  /** A key has values exactly when some capture carries it. */
  lemma {:induction false} ValuesForNonEmpty(en: Engine, caps: seq<Capture>, key: string)
    requires AllParse(en, caps)
    ensures |ValuesFor(en, caps, key)| > 0 <==> key in KeysOf(caps)
    decreases |caps|
  {
    if caps != [] {
      var init := caps[..|caps| - 1];
      assert AllParse(en, init);
      ValuesForNonEmpty(en, init, key);
      KeysOfLast(caps);
    }
  }

  /** The keys of `caps` are those of all but its last capture, plus the
      last capture's. */
  lemma KeysOfLast(caps: seq<Capture>)
    requires caps != []
    ensures KeysOf(caps) == KeysOf(caps[..|caps| - 1]) + {Trim(caps[|caps| - 1].name)}
  {
    assert caps == caps[..|caps| - 1] + [caps[|caps| - 1]];
  }

  /** When every number parses, accumulation succeeds and the series of
      `key` is the one it started with followed by that key's values in
      capture order. */
  lemma {:induction false} AccumulateContents(en: Engine, data: Data, caps: seq<Capture>, key: string)
    requires AllParse(en, caps)
    ensures Accumulate(en, data, caps).Ok?
    ensures SeriesOf(Accumulate(en, data, caps).value, key) == SeriesOf(data, key) + ValuesFor(en, caps, key)
    decreases |caps|
  {
    if caps != [] {
      var init := caps[..|caps| - 1];
      var c := caps[|caps| - 1];
      ValuesForLast(en, caps, key);
      AccumulateContents(en, data, init, key);
      AccumulateLast(en, data, caps);
    }
  }

  /** When every number parses, the keys after accumulation are the keys it
      started with plus the trimmed labels of the captures. */
  lemma {:induction false} AccumulateKeys(en: Engine, data: Data, caps: seq<Capture>)
    requires AllParse(en, caps)
    ensures Accumulate(en, data, caps).Ok?
    ensures Accumulate(en, data, caps).value.Keys == data.Keys + KeysOf(caps)
    decreases |caps|
  {
    if caps != [] {
      var init := caps[..|caps| - 1];
      var c := caps[|caps| - 1];
      ValuesForLast(en, caps, c.name);
      AccumulateKeys(en, data, init);
      AccumulateLast(en, data, caps);
      KeysOfLast(caps);
    }
  }

  /** The values for `key` are those of all captures but the last, followed
      by the last one's value if it carries `key`. */
  lemma ValuesForLast(en: Engine, caps: seq<Capture>, key: string)
    requires caps != [] && AllParse(en, caps)
    ensures AllParse(en, caps[..|caps| - 1])
    ensures ValuesFor(en, caps, key) ==
            ValuesFor(en, caps[..|caps| - 1], key) +
            (if Trim(caps[|caps| - 1].name) == key then [en.parse(caps[|caps| - 1].number).value] else [])
  {
  }

  /** One more capture whose number parses pushes its value. */
  lemma AccumulateLast(en: Engine, data: Data, caps: seq<Capture>)
    requires caps != [] && Accumulate(en, data, caps[..|caps| - 1]).Ok?
    requires en.parse(caps[|caps| - 1].number).Some?
    ensures Accumulate(en, data, caps) ==
            Ok(Push(Accumulate(en, data, caps[..|caps| - 1]).value, Trim(caps[|caps| - 1].name),
                    en.parse(caps[|caps| - 1].number).value))
  {
  }

  /** Accumulation fails exactly when some number does not parse, and the
      error names the first such number. */
  lemma {:induction false} AccumulateFails(en: Engine, data: Data, caps: seq<Capture>)
    ensures Accumulate(en, data, caps).Err? <==> !AllParse(en, caps)
    ensures Accumulate(en, data, caps).Err? ==>
              exists i :: 0 <= i < |caps| && en.parse(caps[i].number).None? &&
                          AllParse(en, caps[..i]) &&
                          Accumulate(en, data, caps).error == ValueFormat(caps[i].number)
    decreases |caps|
  {
    if caps != [] {
      var init := caps[..|caps| - 1];
      var c := caps[|caps| - 1];
      AccumulateFails(en, data, init);
      if Accumulate(en, data, init).Err? {
        var i :| 0 <= i < |init| && en.parse(init[i].number).None? &&
                 AllParse(en, init[..i]) && Accumulate(en, data, init).error == ValueFormat(init[i].number);
        assert init[..i] == caps[..i];
        assert caps[i] == init[i];
      } else {
        assert AllParse(en, init);
        if en.parse(c.number).None? {
          assert caps[..|caps| - 1] == init;
        } else {
          assert AllParse(en, caps) by {
            forall i | 0 <= i < |caps| ensures en.parse(caps[i].number).Some? {
              if i < |init| { assert caps[i] == init[i]; }
            }
          }
        }
      }
    }
  }

  /** Number of values held across all keys. */
  ghost function TotalValues(d: Data): nat
    decreases |d|
  {
    if d == map[] then 0
    else
      var k :| k in d;
      |d[k]| + TotalValues(d - {k})
  }

  /** The total does not depend on which key is taken first. */
  lemma {:induction false} TotalValuesRemove(d: Data, k: string)
    requires k in d
    ensures TotalValues(d) == |d[k]| + TotalValues(d - {k})
    decreases |d|
  {
    var k' :| k' in d && TotalValues(d) == |d[k']| + TotalValues(d - {k'});
    if k' != k {
      TotalValuesRemove(d - {k'}, k);
      TotalValuesRemove(d - {k}, k');
      assert (d - {k'}) - {k} == (d - {k}) - {k'};
    }
  }

  /** Appending one value to one key adds one to the total. */
  lemma TotalValuesPush(d: Data, key: string, v: real)
    ensures TotalValues(Push(d, key, v)) == TotalValues(d) + 1
  {
    var d' := Push(d, key, v);
    TotalValuesRemove(d', key);
    assert d' - {key} == d - {key};
    if key in d {
      TotalValuesRemove(d, key);
    } else {
      assert d - {key} == d;
    }
  }

  /** Successful accumulation adds one value per capture. */
  lemma {:induction false} AccumulateTotal(en: Engine, data: Data, caps: seq<Capture>)
    requires Accumulate(en, data, caps).Ok?
    ensures TotalValues(Accumulate(en, data, caps).value) == TotalValues(data) + |caps|
    decreases |caps|
  {
    if caps != [] {
      var init := caps[..|caps| - 1];
      var c := caps[|caps| - 1];
      AccumulateTotal(en, data, init);
      var d := Accumulate(en, data, init).value;
      TotalValuesPush(d, Trim(c.name), en.parse(c.number).value);
    }
  }

  /** A line holding `KE` or `err` contributes nothing, whatever its captures. */
  lemma ExcludedLineIgnored(en: Engine, before: seq<string>, line: string, after: seq<string>)
    requires Excluded(line)
    ensures Extracted(en, before + [line] + after) == Extracted(en, before + after)
  {
    KeptCapturesAppend(en, before + [line], after);
    KeptCapturesAppend(en, before, [line]);
    KeptCapturesAppend(en, before, after);
    assert [line][..0] == [];
    assert KeptCaptures(en, [line]) == [];
    assert KeptCaptures(en, before + [line]) == KeptCaptures(en, before);
  }

  /** On success, every key is the trimmed label of a kept capture and every
      such label is a key; each key's series is non-empty and lists that key's
      values in line order, left to right within a line; and the series hold
      one value per kept capture in all. */
  lemma ExtractedSeries(en: Engine, lines: seq<string>)
    requires Extracted(en, lines).Ok?
    ensures AllParse(en, KeptCaptures(en, lines))
    ensures Extracted(en, lines).value.Keys == KeysOf(KeptCaptures(en, lines))
    ensures forall k :: k in Extracted(en, lines).value ==>
              |Extracted(en, lines).value[k]| > 0 &&
              Extracted(en, lines).value[k] == ValuesFor(en, KeptCaptures(en, lines), k)
    ensures TotalValues(Extracted(en, lines).value) == |KeptCaptures(en, lines)|
  {
    var caps := KeptCaptures(en, lines);
    AccumulateFails(en, map[], caps);
    AccumulateKeys(en, map[], caps);
    AccumulateTotal(en, map[], caps);
    assert TotalValues(map[]) == 0;
    var d := Extracted(en, lines).value;
    forall k | k in d ensures |d[k]| > 0 && d[k] == ValuesFor(en, caps, k) {
      AccumulateContents(en, map[], caps, k);
      assert SeriesOf(d, k) == d[k];
      ValuesForNonEmpty(en, caps, k);
    }
  }

  /** Values from earlier lines come before values from later lines. */
  lemma ExtractedLineOrder(en: Engine, a: seq<string>, b: seq<string>, key: string)
    requires AllParse(en, KeptCaptures(en, a)) && AllParse(en, KeptCaptures(en, b))
    ensures AllParse(en, KeptCaptures(en, a + b))
    ensures ValuesFor(en, KeptCaptures(en, a + b), key) ==
              ValuesFor(en, KeptCaptures(en, a), key) + ValuesFor(en, KeptCaptures(en, b), key)
  {
    KeptCapturesAppend(en, a, b);
    ValuesForAppend(en, KeptCaptures(en, a), KeptCaptures(en, b), key);
  }

  /** Extraction fails exactly when a kept capture's number does not parse. */
  lemma ExtractedFails(en: Engine, lines: seq<string>)
    ensures Extracted(en, lines).Err? <==>
              exists c :: c in KeptCaptures(en, lines) && en.parse(c.number).None?
  {
    AccumulateFails(en, map[], KeptCaptures(en, lines));
  }

  /** Every number `extract_values` keeps has the shape of group 2. */
  lemma {:induction false} KeptNumbersWellFormed(lines: seq<string>)
    ensures forall c :: c in KeptCaptures(Source, lines) ==> IsNumberText(c.number)
    decreases |lines|
  {
    if lines != [] {
      KeptNumbersWellFormed(lines[..|lines| - 1]);
    }
  }

  /** With its own pattern and Rust's parser, `extract_values` fails exactly
      when some kept number holds a digit that the pattern's `\d` accepts but
      is not an ASCII digit. */
  lemma SourceFails(lines: seq<string>)
    ensures Extracted(Source, lines).Err? <==>
              exists c :: c in KeptCaptures(Source, lines) && !DigitsAreAscii(c.number)
  {
    KeptNumbersWellFormed(lines);
    ExtractedFails(Source, lines);
    forall c | c in KeptCaptures(Source, lines)
      ensures ParseDecimal(c.number).Some? <==> DigitsAreAscii(c.number)
    {
      CapturedNumberParses(c.number);
    }
  }

  /** One more capture of line `i` accumulated after the earlier lines and
      the first `j` captures of that line. */
  lemma AccumulateOneMore(en: Engine, done: seq<Capture>, caps: seq<Capture>, j: nat)
    requires j < |caps|
    ensures Accumulate(en, map[], done + caps[..j]).Err? ==>
              Accumulate(en, map[], done + caps[..j + 1]) == Accumulate(en, map[], done + caps[..j])
    ensures Accumulate(en, map[], done + caps[..j]).Ok? ==>
              Accumulate(en, map[], done + caps[..j + 1]) ==
              Step(en, Accumulate(en, map[], done + caps[..j]).value, caps[j])
  {
    assert caps[..j + 1] == caps[..j] + [caps[j]];
    assert (done + caps[..j + 1])[..|done + caps[..j + 1]| - 1] == done + caps[..j];
  }

  /** A failure on capture `j` of line `i` is the result of the whole call. */
  lemma FailureIsFinal(en: Engine, lines: seq<string>, i: nat, j: nat)
    requires i < |lines| && !Excluded(lines[i]) && j < |en.captures(lines[i])|
    requires Accumulate(en, map[], KeptCaptures(en, lines[..i]) + en.captures(lines[i])[..j + 1]).Err?
    ensures Extracted(en, lines) == Accumulate(en, map[], KeptCaptures(en, lines[..i]) + en.captures(lines[i])[..j + 1])
  {
    var caps := en.captures(lines[i]);
    var done := KeptCaptures(en, lines[..i]);
    var later := KeptCaptures(en, lines[i + 1..]);
    KeptAround(en, lines, i);
    SplitAfter(done, caps, later, j + 1);
    AccumulateAppend(en, map[], done + caps[..j + 1], caps[j + 1..] + later);
  }

  lemma SplitAfter(done: seq<Capture>, caps: seq<Capture>, later: seq<Capture>, n: nat)
    requires n <= |caps|
    ensures (done + caps) + later == (done + caps[..n]) + (caps[n..] + later)
  {
    assert caps == caps[..n] + caps[n..];
  }

  /** The captures kept from the first `i + 1` lines. */
  lemma KeptThroughLine(en: Engine, lines: seq<string>, i: nat)
    requires i < |lines|
    ensures KeptCaptures(en, lines[..i + 1]) == KeptCaptures(en, lines[..i]) + LineCaptures(en, lines[i])
  {
    assert lines[..i + 1][..i] == lines[..i];
  }

  /** The captures kept from all lines: those before line `i`, those of line
      `i` and those after it. */
  lemma KeptAround(en: Engine, lines: seq<string>, i: nat)
    requires i < |lines|
    ensures KeptCaptures(en, lines) ==
            (KeptCaptures(en, lines[..i]) + LineCaptures(en, lines[i])) + KeptCaptures(en, lines[i + 1..])
  {
    assert lines == lines[..i + 1] + lines[i + 1..];
    KeptCapturesAppend(en, lines[..i + 1], lines[i + 1..]);
    KeptThroughLine(en, lines, i);
  }

  /** `extract_values` run with the matcher and parser of `en`: the exclusion check
      and the push sit inside the loop over a line's captures, as in the
      source; a number that does not parse returns the error at once. */
  method ExtractValuesWith(en: Engine, lines: seq<string>) returns (r: Result<Data, Error>)
    ensures r == Extracted(en, lines)
  {
    var data: Data := map[];
    for i := 0 to |lines|
      invariant Accumulate(en, map[], KeptCaptures(en, lines[..i])) == Ok(data)
    {
      var line := lines[i];
      var caps := en.captures(line);
      ghost var done := KeptCaptures(en, lines[..i]);
      ghost var skip := Excluded(line);
      assert done + [] == done;
      for j := 0 to |caps|
        invariant Accumulate(en, map[], done + (if skip then [] else caps[..j])) == Ok(data)
      {
        if Excluded(line) {
          continue;
        }
        var t := Trim(caps[j].name);
        var v := en.parse(caps[j].number);
        AccumulateOneMore(en, done, caps, j);
        if v.None? {
          FailureIsFinal(en, lines, i, j);
          return Err(ValueFormat(caps[j].number));
        }
        data := Push(data, t, v.value);
      }
      KeptThroughLine(en, lines, i);
      assert caps[..|caps|] == caps;
    }
    assert lines[..|lines|] == lines;
    r := Ok(data);
  }

  /** `extract_values` with its own pattern (src/main.rs:153). */
  method ExtractValues(lines: seq<string>) returns (r: Result<Data, Error>)
    ensures r == Extracted(Source, lines)
  {
    r := ExtractValuesWith(Source, lines);
  }

  /** One report as `extract_all_values` reads it (src/main.rs:31-32): the
      lines from the first `RESULTS` line up to the first `A V E R A G E`
      line, then the values in them. */
  method ExtractReport(lines: seq<string>) returns (r: Result<Data, Error>)
    ensures r == Extracted(Source, KeptLines(lines, StartMarker, EndMarker))
  {
    var kept := ReadLinesUntilPattern(lines, StartMarker, EndMarker);
    r := ExtractValues(kept);
  }
}
