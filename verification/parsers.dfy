/** The line-oriented readers of tool output: `icetime_parse` (achieved clock
    frequency), the parsing half of `icebox_stat` (resource counts) and
    `VPR.vpr_version` (version string). */
module Parsers {
  import opened Wrappers
  import opened Errors
  import opened Text

  // ---------------------------------------------------------------------------
  // icetime_parse: re.match(r'Total path delay: .*s \((.*) (.*)\)', l)

  const DelayPrefix := "Total path delay: "

  /** One way the pattern `Total path delay: .*s \((.*) (.*)\)` can match at the
      start of `l`: `s (` at `a`, the space between the two groups at `q`, and the
      closing parenthesis at `k`. */
  predicate DelayWitness(l: string, a: int, q: int, k: int) {
    && StartsWith(l, DelayPrefix)
    && |DelayPrefix| <= a
    && OccursAt(l, "s (", a)
    && a + 3 <= q < k
    && OccursAt(l, " ", q)
    && OccursAt(l, ")", k)
  }

  /** The two groups of a matching timing line: the frequency text and its unit. */
  datatype FreqToken = FreqToken(value: string, unit: string)

  /** The groups `re.match` reports, found from the right: the last `)`, the
      last space before it, and the last `s (` that leaves room for the first
      group before that space. */
  function MatchDelayLine(l: string): (r: Option<FreqToken>)
    ensures !StartsWith(l, DelayPrefix) ==> r.None?
    ensures r.Some? ==> ' ' !in r.value.unit
  {
    if !StartsWith(l, DelayPrefix) then None
    else match LastOccurrence(l, ")", 0, |l|)
      case None => None
      case Some(k) =>
        match LastOccurrence(l, " ", 0, k)
        case None => None
        case Some(q) =>
          match LastOccurrence(l, "s (", |DelayPrefix|, q)
          case None => None
          case Some(a) =>
            assert ' ' !in l[q + 1..k] by {
              forall m | q + 1 <= m < k
                ensures l[m] != ' '
              {
                OccursAtChar(l, ' ', m);
              }
            }
            Some(FreqToken(l[a + 3..q], l[q + 1..k]))
  }

  /** Python iterates over a file's lines with their `\n`; the model's lines
      lack it. The match does not depend on it: `re.match` need not reach the
      end of the line, and no group or `.*` can take in the terminator. */
  lemma MatchDelayLineNewline(l: string)
    ensures MatchDelayLine(l + "\n") == MatchDelayLine(l)
  {
    var l' := l + "\n";
    StartsWithNewline(l, DelayPrefix);
    if StartsWith(l, DelayPrefix) {
      LastOccurrenceNewline(l, ")", 0, |l| + 1);
      match LastOccurrence(l, ")", 0, |l|)
      case None =>
        NoCloseNoMatch(l);
        NoCloseNoMatch(l');
      case Some(k) =>
        assert l'[..k] == l[..k];
        MatchUpToClose(l, l', k);
    }
  }

  lemma NoCloseNoMatch(l: string)
    requires LastOccurrence(l, ")", 0, |l|).None?
    ensures MatchDelayLine(l).None?
  {
  }

  /** The match depends only on the line up to its last `)`. */
  lemma MatchUpToClose(l: string, l': string, k: nat)
    requires StartsWith(l, DelayPrefix) && StartsWith(l', DelayPrefix)
    requires k < |l| && k < |l'| && l[..k] == l'[..k]
    requires LastOccurrence(l, ")", 0, |l|) == Some(k)
    requires LastOccurrence(l', ")", 0, |l'|) == Some(k)
    ensures MatchDelayLine(l) == MatchDelayLine(l')
  {
    LastOccurrencePrefix(l, l', " ", 0, k);
    match LastOccurrence(l, " ", 0, k)
    case None =>
      NoSpaceNoMatch(l, k);
      NoSpaceNoMatch(l', k);
    case Some(q) =>
      LastOccurrencePrefix(l, l', "s (", |DelayPrefix|, q);
      match LastOccurrence(l, "s (", |DelayPrefix|, q)
      case None =>
        NoOpenNoMatch(l, k, q);
        NoOpenNoMatch(l', k, q);
      case Some(a) =>
        MatchFromSearches(l, a, q, k);
        MatchFromSearches(l', a, q, k);
        SliceOfPrefix(l, l', k, a + 3, q);
        SliceOfPrefix(l, l', k, q + 1, k);
  }

  lemma NoSpaceNoMatch(l: string, k: nat)
    requires k <= |l| && LastOccurrence(l, ")", 0, |l|) == Some(k)
    requires LastOccurrence(l, " ", 0, k).None?
    ensures MatchDelayLine(l).None?
  {
  }

  lemma NoOpenNoMatch(l: string, k: nat, q: nat)
    requires q <= k <= |l| && LastOccurrence(l, ")", 0, |l|) == Some(k)
    requires LastOccurrence(l, " ", 0, k) == Some(q)
    requires LastOccurrence(l, "s (", |DelayPrefix|, q).None?
    ensures MatchDelayLine(l).None?
  {
  }

  lemma SliceOfPrefix(l: string, l': string, k: nat, i: nat, j: nat)
    requires i <= j <= k <= |l| && k <= |l'| && l[..k] == l'[..k]
    ensures l[i..j] == l'[i..j]
  {
    assert l[i..j] == l[..k][i..j] && l'[i..j] == l'[..k][i..j];
  }

  /** `MatchDelayLine` is the regular-expression match: it fails exactly when the
      pattern cannot match, and since every `.*` is greedy, the engine keeps the
      way of matching whose positions lie furthest right, which is the witness
      greatest in every position. */
  lemma MatchDelayLineGreedy(l: string)
    ensures MatchDelayLine(l).None? <==> forall a, q, k :: !DelayWitness(l, a, q, k)
    ensures MatchDelayLine(l).Some? ==>
      exists a, q, k ::
        && DelayWitness(l, a, q, k)
        && MatchDelayLine(l).value == FreqToken(l[a + 3..q], l[q + 1..k])
        && forall a', q', k' :: DelayWitness(l, a', q', k') ==> a' <= a && q' <= q && k' <= k
  {
    if StartsWith(l, DelayPrefix) {
      match LastOccurrence(l, ")", 0, |l|)
      case None =>
      case Some(k) =>
        match LastOccurrence(l, " ", 0, k)
        case None =>
        case Some(q) =>
          match LastOccurrence(l, "s (", |DelayPrefix|, q)
          case None =>
          case Some(a) =>
            assert DelayWitness(l, a, q, k);
    }
  }

  /** The timing-report line `icetime` writes for the critical path. */
  function DelayLine(delay: string, freq: string, unit: string): string
  {
    DelayPrefix + delay + " ns (" + freq + " " + unit + ")"
  }

  /** In a rendered timing line, the witness made of the line's own `s (`, the
      space before the unit and the final `)` is the greatest one. */
  lemma DelayLineGreatestWitness(delay: string, freq: string, unit: string, a': int, q': int, k': int)
    requires ' ' !in freq && ' ' !in unit
    requires DelayWitness(DelayLine(delay, freq, unit), a', q', k')
    ensures var p := |DelayPrefix| + |delay|;
            a' <= p + 2 && q' <= p + 5 + |freq|
  {
    var l := DelayLine(delay, freq, unit);
    var p := |DelayPrefix| + |delay|;
    var q := p + 5 + |freq|;
    assert l == (DelayPrefix + delay + " ns (" + freq + " ") + unit + ")";
    OccursAtChar(l, ' ', q');
    OccursAtChar(l, ')', k');
    assert l[a'..a' + 3][1] == l[a' + 1];
    OccursAtChar(l, ' ', a' + 1);
  }

  /** A witness greatest in every position is the one `MatchDelayLine` reports. */
  lemma GreatestWitnessIsMatch(l: string, a: int, q: int, k: int)
    requires DelayWitness(l, a, q, k)
    requires forall a', q', k' :: DelayWitness(l, a', q', k') ==> a' <= a && q' <= q && k' <= k
    ensures MatchDelayLine(l) == Some(FreqToken(l[a + 3..q], l[q + 1..k]))
  {
    GreatestWitnessFound(l, a, q, k);
    MatchFromSearches(l, a, q, k);
  }

  /** `MatchDelayLine` reads its groups off the three searches. */
  lemma MatchFromSearches(l: string, a: nat, q: nat, k: nat)
    requires StartsWith(l, DelayPrefix) && a + 3 <= q < k <= |l|
    requires LastOccurrence(l, ")", 0, |l|) == Some(k)
    requires LastOccurrence(l, " ", 0, k) == Some(q)
    requires LastOccurrence(l, "s (", |DelayPrefix|, q) == Some(a)
    ensures MatchDelayLine(l) == Some(FreqToken(l[a + 3..q], l[q + 1..k]))
  {
    var r := MatchDelayLine(l);
    assert r.Some? && r.value == FreqToken(l[a + 3..q], l[q + 1..k]);
  }

  /** The three searches of `MatchDelayLine` stop at the greatest witness. */
  lemma GreatestWitnessFound(l: string, a: int, q: int, k: int)
    requires DelayWitness(l, a, q, k)
    requires forall a', q', k' :: DelayWitness(l, a', q', k') ==> a' <= a && q' <= q && k' <= k
    ensures 0 <= a && 0 <= q && 0 <= k <= |l|
    ensures LastOccurrence(l, ")", 0, |l|) == Some(k)
    ensures LastOccurrence(l, " ", 0, k) == Some(q)
    ensures LastOccurrence(l, "s (", |DelayPrefix|, q) == Some(a)
  {
    var lastClose := LastOccurrence(l, ")", 0, |l|);
    assert lastClose.Some? && lastClose.value >= k;
    var k0 := lastClose.value;
    assert DelayWitness(l, a, q, k0);
    assert k0 == k;
    var lastSpace := LastOccurrence(l, " ", 0, k);
    assert lastSpace.Some? && lastSpace.value >= q;
    var q0 := lastSpace.value;
    assert DelayWitness(l, a, q0, k);
    assert q0 == q;
    var lastOpen := LastOccurrence(l, "s (", |DelayPrefix|, q);
    assert lastOpen.Some? && lastOpen.value >= a;
    var a0 := lastOpen.value;
    assert DelayWitness(l, a0, q, k);
    assert a0 == a;
  }

  /** A rendered timing line reads back as its frequency and unit, whatever the
      delay text, as long as neither the frequency nor the unit holds a space. */
  lemma MatchDelayLineRendered(delay: string, freq: string, unit: string)
    requires ' ' !in freq && ' ' !in unit
    ensures MatchDelayLine(DelayLine(delay, freq, unit)) == Some(FreqToken(freq, unit))
  {
    var l := DelayLine(delay, freq, unit);
    var p := |DelayPrefix| + |delay|;
    var a, q, k := p + 2, p + 5 + |freq|, |l| - 1;
    assert l[..|DelayPrefix|] == DelayPrefix;
    assert l[a..a + 3] == "s (";
    assert l[q..q + 1] == " ";
    assert l[k..k + 1] == ")";
    assert DelayWitness(l, a, q, k);
    assert l[a + 3..q] == freq;
    assert l[q + 1..k] == unit;
    forall a', q', k' | DelayWitness(l, a', q', k')
      ensures a' <= a && q' <= q && k' <= k
    {
      DelayLineGreatestWitness(delay, freq, unit, a', q', k');
    }
    GreatestWitnessIsMatch(l, a, q, k);
  }

  /** Every match result that matched has the unit `MHz`. */
  predicate AllMHz(ms: seq<Option<FreqToken>>) {
    forall i :: 0 <= i < |ms| && ms[i].Some? ==> ms[i].value.unit == "MHz"
  }

  /** No line matched. */
  predicate NoMatch(ms: seq<Option<FreqToken>>) {
    forall i :: 0 <= i < |ms| ==> ms[i].None?
  }

  /** `ms[i]` is the first match whose unit is not `MHz`. */
  predicate FirstBadAt(ms: seq<Option<FreqToken>>, i: int) {
    && 0 <= i < |ms| && ms[i].Some? && ms[i].value.unit != "MHz"
    && forall j :: 0 <= j < i && ms[j].Some? ==> ms[j].value.unit == "MHz"
  }

  /** `ms[i]` is the last match, with frequency text `v` in `MHz`. */
  predicate LastMatchAt(ms: seq<Option<FreqToken>>, i: int, v: string) {
    && 0 <= i < |ms| && ms[i] == Some(FreqToken(v, "MHz"))
    && forall j :: i < j < |ms| ==> ms[j].None?
  }

  /** The loop of `icetime_parse` over the match results of the report's lines:
      `Success(None)` when no line matched (the dictionary gets no `max_freq`),
      `Success(Some(freq))` with the frequency text of the last match, or the
      failed `assert` on the first match whose unit is not `MHz`. */
  function SelectFrequency(ms: seq<Option<FreqToken>>): (r: Result<Option<string>, Error>)
    ensures r.Success? <==> AllMHz(ms)
    ensures r.Failure? ==>
      exists i :: FirstBadAt(ms, i) && r.error == FrequencyUnitNotMHz(ms[i].value.unit)
    ensures r.Success? ==> (r.value.None? <==> NoMatch(ms))
    ensures r.Success? && r.value.Some? ==> exists i :: LastMatchAt(ms, i, r.value.value)
  {
    if ms == [] then Success(None)
    else
      var n := |ms| - 1;
      var earlier := SelectFrequency(ms[..n]);
      assert forall i :: 0 <= i < n ==> ms[..n][i] == ms[i];
      if earlier.Failure? then
        var i :| FirstBadAt(ms[..n], i) && earlier.error == FrequencyUnitNotMHz(ms[..n][i].value.unit);
        assert FirstBadAt(ms, i);
        earlier
      else match ms[n]
        case None =>
          assert earlier.value.Some? ==> exists i :: LastMatchAt(ms, i, earlier.value.value) by {
            if earlier.value.Some? {
              var i :| LastMatchAt(ms[..n], i, earlier.value.value);
              assert LastMatchAt(ms, i, earlier.value.value);
            }
          }
          earlier
        case Some(m) =>
          if m.unit != "MHz" then
            assert FirstBadAt(ms, n);
            Failure(FrequencyUnitNotMHz(m.unit))
          else
            assert LastMatchAt(ms, n, m.value);
            Success(Some(m.value))
  }

  /** `icetime_parse(f)`: every line of the report is matched against the
      timing pattern and the matches are folded as `SelectFrequency` says. */
  function IcetimeParse(lines: seq<string>): Result<Option<string>, Error>
  {
    SelectFrequency(seq(|lines|, i requires 0 <= i < |lines| => MatchDelayLine(lines[i])))
  }

  /** What `icetime_parse` returns, in terms of the report's lines: success
      exactly when every timing line is in `MHz`; otherwise the unit of the
      first that is not; no frequency exactly when no line is a timing line;
      and otherwise the frequency of the last timing line. */
  lemma IcetimeParseResult(lines: seq<string>)
    ensures var r := IcetimeParse(lines);
      r.Success? <==>
        forall i :: 0 <= i < |lines| && MatchDelayLine(lines[i]).Some? ==>
          MatchDelayLine(lines[i]).value.unit == "MHz"
    ensures var r := IcetimeParse(lines);
      r.Failure? ==>
        exists i :: && 0 <= i < |lines| && MatchDelayLine(lines[i]).Some?
                    && r.error == FrequencyUnitNotMHz(MatchDelayLine(lines[i]).value.unit)
                    && MatchDelayLine(lines[i]).value.unit != "MHz"
                    && forall j :: 0 <= j < i && MatchDelayLine(lines[j]).Some? ==>
                         MatchDelayLine(lines[j]).value.unit == "MHz"
    ensures var r := IcetimeParse(lines);
      r.Success? ==>
        (r.value.None? <==> forall i :: 0 <= i < |lines| ==> MatchDelayLine(lines[i]).None?)
    ensures var r := IcetimeParse(lines);
      r.Success? && r.value.Some? ==>
        exists i :: && 0 <= i < |lines|
                    && MatchDelayLine(lines[i]) == Some(FreqToken(r.value.value, "MHz"))
                    && forall j :: i < j < |lines| ==> MatchDelayLine(lines[j]).None?
  {
    var ms := seq(|lines|, i requires 0 <= i < |lines| => MatchDelayLine(lines[i]));
    assert forall i :: 0 <= i < |lines| ==> ms[i] == MatchDelayLine(lines[i]);
  }


  /** `max_freq()`: indexing the parse result with `'max_freq'`, a `KeyError`
      when no line matched. */
  function MaxFreq(lines: seq<string>): (r: Result<string, Error>)
    ensures r.Success? <==> IcetimeParse(lines).Success? && IcetimeParse(lines).value.Some?
    ensures r.Success? ==> r.value == IcetimeParse(lines).value.value
    ensures IcetimeParse(lines) == Success(None) ==> r == Failure(MaxFreqMissing)
    ensures IcetimeParse(lines).Failure? ==> r == Failure(IcetimeParse(lines).error)
  {
    var parsed :- IcetimeParse(lines);
    if parsed.None? then Failure(MaxFreqMissing) else Success(parsed.value)
  }

  /** Without any match, nothing is selected. */
  lemma SelectFrequencyNone(ms: seq<Option<FreqToken>>)
    requires forall i :: 0 <= i < |ms| ==> ms[i].None?
    ensures SelectFrequency(ms) == Success(None)
  {
    var r := SelectFrequency(ms);
    assert r.Success?;
  }

  /** Lines without a match ahead of the report do not change the selection. */
  lemma {:induction false} SelectFrequencySkipsNone(pre: seq<Option<FreqToken>>, ms: seq<Option<FreqToken>>)
    requires forall i :: 0 <= i < |pre| ==> pre[i].None?
    ensures SelectFrequency(pre + ms) == SelectFrequency(ms)
    decreases |ms|
  {
    if ms == [] {
      assert pre + ms == pre;
      SelectFrequencyNone(pre);
    } else {
      var n := |ms| - 1;
      SelectFrequencySkipsNone(pre, ms[..n]);
      var all := pre + ms;
      assert all[..|all| - 1] == pre + ms[..n];
      assert all[|all| - 1] == ms[n];
      SelectFrequencyLast(all);
      SelectFrequencyLast(ms);
    }
  }

  /** One step of `SelectFrequency`: the selection of all but the last match
      result, updated with the last one. */
  lemma SelectFrequencyLast(ms: seq<Option<FreqToken>>)
    requires ms != []
    ensures var n := |ms| - 1;
      SelectFrequency(ms) ==
        match SelectFrequency(ms[..n])
        case Failure(e) => Failure(e)
        case Success(earlier) =>
          match ms[n]
          case None => Success(earlier)
          case Some(m) => if m.unit != "MHz" then Failure(FrequencyUnitNotMHz(m.unit)) else Success(Some(m.value))
  {
  }

  /** `icetime_parse` ignores lines ahead of the report that do not start with
      `Total path delay: `, such as the header `cmd` writes in verbose mode. */
  lemma IcetimeParseSkips(pre: seq<string>, lines: seq<string>)
    requires forall i :: 0 <= i < |pre| ==> !StartsWith(pre[i], DelayPrefix)
    ensures IcetimeParse(pre + lines) == IcetimeParse(lines)
  {
    var all := pre + lines;
    var mp := seq(|pre|, i requires 0 <= i < |pre| => MatchDelayLine(pre[i]));
    var ml := seq(|lines|, i requires 0 <= i < |lines| => MatchDelayLine(lines[i]));
    assert seq(|all|, i requires 0 <= i < |all| => MatchDelayLine(all[i])) == mp + ml;
    SelectFrequencySkipsNone(mp, ml);
  }

  /** The timing line quoted in the program's own comment yields `124.28`, and
      lines that do not start with `Total path delay: ` are skipped. */
  lemma IcetimeParseExample()
    ensures IcetimeParse(["Total number of logic levels: 2",
                          "Total path delay: 8.05 ns (124.28 MHz)",
                          ""]) == Success(Some("124.28"))
  {
    var levels, delay := ExampleReportLines();
    IcetimeParseOneMatch(levels, delay, "", "124.28");
  }

  /** The two non-empty lines of the example report, with what the timing
      pattern makes of them. */
  lemma ExampleReportLines() returns (levels: string, delay: string)
    ensures levels == "Total number of logic levels: 2" && MatchDelayLine(levels).None?
    ensures delay == "Total path delay: 8.05 ns (124.28 MHz)"
    ensures MatchDelayLine(delay) == Some(FreqToken("124.28", "MHz"))
  {
    levels := "Total number of logic levels: 2";
    assert !StartsWith(levels, DelayPrefix) by { assert levels[6] != DelayPrefix[6]; }
    delay := DelayLine("8.05", "124.28", "MHz");
    assert delay == "Total path delay: 8.05 ns (124.28 MHz)";
    MatchDelayLineRendered("8.05", "124.28", "MHz");
  }

  /** A report whose only timing line is the middle one of three yields that
      line's frequency. */
  lemma IcetimeParseOneMatch(a: string, b: string, c: string, v: string)
    requires MatchDelayLine(a).None? && MatchDelayLine(c).None?
    requires MatchDelayLine(b) == Some(FreqToken(v, "MHz"))
    ensures IcetimeParse([a, b, c]) == Success(Some(v))
  {
    var lines := [a, b, c];
    var ms := seq(|lines|, i requires 0 <= i < |lines| => MatchDelayLine(lines[i]));
    var none: Option<FreqToken> := None;
    var m := Some(FreqToken(v, "MHz"));
    assert ms == [none, m, none];
    assert ms[..2] == [none, m] && [none, m][..1] == [none];
    SelectFrequencyNone([none]);
    SelectFrequencyLast([none, m]);
    SelectFrequencyLast(ms);
  }

  // ---------------------------------------------------------------------------
  // icebox_stat: re.match(r'(.*)s: *([0-9]*)', l), then int(group 2)

  /** One line of the `icebox_stat` report, `<Name>s:   <count>`. The greedy
      `(.*)` stops at the last `s:`, ` *` skips the spaces after it and
      `([0-9]*)` takes the digits that follow. A line without `s:` does not
      match (`m.group` on `None`), and empty digits make `int('')` fail. */
  function ParseStatLine(l: string): (r: Result<(string, nat), Error>)
    ensures r.Failure? ==> r.error in {StatLineUnmatched(l), StatCountMissing(l)}
  {
    match LastOccurrence(l, "s:", 0, |l|)
    case None => Failure(StatLineUnmatched(l))
    case Some(i) =>
      var ds := StatDigits(l, i);
      if ds == [] then Failure(StatCountMissing(l))
      else Success((l[..i], DigitsValue(ds)))
  }

  /** What `ParseStatLine` returns, in terms of the line: no match exactly when
      the line has no `s:`; a missing count exactly when no digit follows the
      spaces after the last `s:`; and otherwise the text before the last `s:`
      with the value of those digits. */
  lemma ParseStatLineResult(l: string)
    ensures ParseStatLine(l) == Failure(StatLineUnmatched(l)) <==> forall j :: !OccursAt(l, "s:", j)
    ensures ParseStatLine(l) == Failure(StatCountMissing(l)) <==>
      exists i: nat :: LastMarkerAt(l, i) && StatDigits(l, i) == []
    ensures var r := ParseStatLine(l);
      r.Success? ==>
        && StartsWith(l, r.value.0 + "s:")
        && LastMarkerAt(l, |r.value.0|)
        && StatDigits(l, |r.value.0|) != []
        && r.value.1 == DigitsValue(StatDigits(l, |r.value.0|))
  {
    match LastOccurrence(l, "s:", 0, |l|)
    case None =>
    case Some(i) =>
      assert LastMarkerAt(l, i);
      assert forall i' :: LastMarkerAt(l, i') ==> i' == i;
      if StatDigits(l, i) != [] {
        assert l[..i + 2] == l[..i] + "s:";
      }
  }

  /** The `\n` Python's lines keep does not change the parse: the last `s:`
      cannot take it in, and it ends both the spaces and the digits. */
  lemma ParseStatLineNewline(l: string)
    ensures ParseStatLine(l + "\n").Success? <==> ParseStatLine(l).Success?
    ensures ParseStatLine(l).Success? ==> ParseStatLine(l + "\n").value == ParseStatLine(l).value
    ensures ParseStatLine(l + "\n") == Failure(StatLineUnmatched(l + "\n")) <==>
      ParseStatLine(l) == Failure(StatLineUnmatched(l))
  {
    var l' := l + "\n";
    LastOccurrenceNewline(l, "s:", 0, |l| + 1);
    match LastOccurrence(l, "s:", 0, |l|)
    case None =>
    case Some(i) =>
      StatDigitsNewline(l, i);
      assert l'[..i] == l[..i];
  }

  lemma StatDigitsNewline(l: string, i: nat)
    requires i + 2 <= |l|
    ensures StatDigits(l + "\n", i) == StatDigits(l, i)
  {
    var tail := l[i + 2..];
    assert (l + "\n")[i + 2..] == tail + "\n";
    RunsStopAtNewline(tail);
    var count := tail[SpaceRun(tail)..];
    assert (tail + "\n")[SpaceRun(tail)..] == count + "\n";
    RunsStopAtNewline(count);
    assert (count + "\n")[..DigitRun(count)] == count[..DigitRun(count)];
  }

  /** The `s:` that the greedy `(.*)s:` settles on: the last one in the line. */
  ghost predicate LastMarkerAt(l: string, i: int) {
    OccursAt(l, "s:", i) && forall j :: i < j ==> !OccursAt(l, "s:", j)
  }

  /** What `([0-9]*)` captures when the marker sits at `i`: after ` *` has
      taken every space that follows the marker, the longest run of digits. */
  function StatDigits(l: string, i: nat): (ds: string)
    requires i + 2 <= |l|
    ensures AllDigits(ds)
  {
    var tail := l[i + 2..];
    var count := tail[SpaceRun(tail)..];
    count[..DigitRun(count)]
  }

  /** Conversely to `ParseStatLineRendered`, every line that parses is laid
      out as a report line: its name, `s:`, spaces, the digits of its count,
      and a rest that does not continue the digits. */
  lemma ParseStatLineShape(l: string, name: string, count: nat) returns (pad: nat, digits: string, rest: string)
    requires ParseStatLine(l) == Success((name, count))
    ensures l == StatLine(name, pad, digits) + rest
    ensures digits != [] && AllDigits(digits) && DigitsValue(digits) == count
    ensures rest == [] || !IsDigit(rest[0])
  {
    ParseStatLineResult(l);
    var r := ParseStatLine(l);
    assert r.value.0 == name && r.value.1 == count;
    assert StartsWith(l, name + "s:");
    pad, digits, rest := StatLineFromMarker(l, name);
  }

  /** A line that starts with `name` and the marker is the report line of
      `name` and the digits after the marker, followed by text that does not
      start with a digit. */
  lemma StatLineFromMarker(l: string, name: string) returns (pad: nat, digits: string, rest: string)
    requires StartsWith(l, name + "s:")
    ensures digits == StatDigits(l, |name|) && AllDigits(digits)
    ensures l == StatLine(name, pad, digits) + rest
    ensures rest == [] || !IsDigit(rest[0])
  {
    var i := |name|;
    assert l[..i] == name && l[i..i + 2] == "s:" by {
      assert l[..i] == l[..i + 2][..i] && l[i..i + 2] == l[..i + 2][i..];
    }
    digits := StatDigits(l, i);
    pad, rest := StatLineAt(l, i);
  }

  /** The line split at the marker `i` as a report line around `StatDigits`. */
  lemma StatLineAt(l: string, i: nat) returns (pad: nat, rest: string)
    requires i + 2 <= |l| && l[i..i + 2] == "s:"
    ensures l == StatLine(l[..i], pad, StatDigits(l, i)) + rest
    ensures rest == [] || !IsDigit(rest[0])
  {
    var name, tail := l[..i], l[i + 2..];
    var digits;
    pad, digits, rest := SpacedDigits(tail);
    assert digits == StatDigits(l, i);
    assert l == name + l[i..i + 2] + tail;
    StatLineRegroup(name, tail, pad, digits, rest);
  }

  /** A name, the marker and a tail laid out as spaces, digits and the rest
      form a report line followed by that rest. */
  lemma StatLineRegroup(name: string, tail: string, pad: nat, digits: string, rest: string)
    requires tail == Spaces(pad) + digits + rest
    ensures name + "s:" + tail == StatLine(name, pad, digits) + rest
  {
    assert tail == Spaces(pad) + (digits + rest);
  }

  /** Any text is its leading spaces, then its leading digits, then the rest. */
  lemma SpacedDigits(tail: string) returns (pad: nat, digits: string, rest: string)
    ensures pad == SpaceRun(tail) && digits == tail[pad..][..DigitRun(tail[pad..])]
    ensures tail == Spaces(pad) + digits + rest
    ensures rest == [] || !IsDigit(rest[0])
  {
    pad := SpaceRun(tail);
    var count := tail[pad..];
    var k := DigitRun(count);
    digits, rest := count[..k], count[k..];
    SpacesPrefix(tail, pad);
    SplitThree(tail, pad, k);
  }

  /** Cutting a text after its leading spaces and again `k` characters later. */
  lemma SplitThree(s: string, pad: nat, k: nat)
    requires pad + k <= |s| && s[..pad] == Spaces(pad)
    ensures s == Spaces(pad) + s[pad..][..k] + s[pad..][k..]
  {
    assert s == s[..pad] + s[pad..];
    assert s[pad..] == s[pad..][..k] + s[pad..][k..];
  }

  lemma SpacesPrefix(s: string, n: nat)
    requires n <= |s| && forall i :: 0 <= i < n ==> s[i] == ' '
    ensures s[..n] == Spaces(n)
  {
  }


  /** A report line as `icebox_stat` lays it out: the plural name, a colon,
      padding and the count. */
  function StatLine(name: string, pad: nat, digits: string): string
  {
    name + "s:" + Spaces(pad) + digits
  }

  /** A line laid out as `icebox_stat` writes it reads back as its name and
      count: any name (even one containing `s:`), any number of spaces, a
      non-empty run of digits (leading zeros allowed), and trailing text that
      neither starts with a digit nor contains `s:`. */
  lemma {:induction false} ParseStatLineRendered(name: string, pad: nat, digits: string, rest: string)
    requires digits != [] && AllDigits(digits)
    requires rest == [] || !IsDigit(rest[0])
    requires forall j :: !OccursAt(rest, "s:", j)
    ensures ParseStatLine(StatLine(name, pad, digits) + rest) == Success((name, DigitsValue(digits)))
  {
    var l := StatLine(name, pad, digits) + rest;
    var count := RenderedStatLine(name, pad, digits, rest);
    ParseStatLineAt(l, |name|, count);
  }

  /** What the parser finds in a rendered report line: the last marker right
      after the name, and the digits at the head of the count text. */
  lemma RenderedStatLine(name: string, pad: nat, digits: string, rest: string) returns (count: string)
    requires digits != [] && AllDigits(digits)
    requires rest == [] || !IsDigit(rest[0])
    requires forall j :: !OccursAt(rest, "s:", j)
    ensures var l := StatLine(name, pad, digits) + rest;
      LastOccurrence(l, "s:", 0, |l|) == Some(|name|) && l[..|name|] == name
    ensures var tail := (StatLine(name, pad, digits) + rest)[|name| + 2..];
      count == tail[SpaceRun(tail)..]
    ensures DigitRun(count) == |digits| && count[..|digits|] == digits
  {
    var l := StatLine(name, pad, digits) + rest;
    var head, tail := name + "s:", Spaces(pad) + digits + rest;
    assert l == head + tail;
    assert l[|head|..] == tail && l[..|name|] == head[..|name|] == name;
    LastStatMarker(name, pad, digits, rest);
    count := CountAfterSpaces(pad, digits, rest);
  }

  lemma ParseStatLineAt(l: string, i: nat, count: string)
    requires LastOccurrence(l, "s:", 0, |l|) == Some(i)
    requires var tail := l[i + 2..]; count == tail[SpaceRun(tail)..]
    requires DigitRun(count) > 0
    ensures ParseStatLine(l) == Success((l[..i], DigitsValue(count[..DigitRun(count)])))
  {
  }

  lemma LastStatMarker(name: string, pad: nat, digits: string, rest: string)
    requires AllDigits(digits)
    requires forall j :: !OccursAt(rest, "s:", j)
    ensures var l := name + "s:" + Spaces(pad) + digits + rest;
            LastOccurrence(l, "s:", 0, |l|) == Some(|name|)
  {
    var l := name + "s:" + Spaces(pad) + digits + rest;
    var i := |name|;
    assert OccursAt(l, "s:", i) by { assert l[i..i + 2] == "s:"; }
    NoStatMarkerAfterName(name, pad, digits, rest);
    var found := LastOccurrence(l, "s:", 0, |l|);
    assert found.Some? && found.value >= i;
  }

  /** After the spaces of a rendered line come exactly its digits. */
  lemma CountAfterSpaces(pad: nat, digits: string, rest: string) returns (count: string)
    requires digits != [] && AllDigits(digits)
    requires rest == [] || !IsDigit(rest[0])
    ensures var tail := Spaces(pad) + digits + rest;
            && count == tail[SpaceRun(tail)..]
            && DigitRun(count) == |digits|
            && count[..|digits|] == digits
  {
    var tail := Spaces(pad) + digits + rest;
    assert tail[pad] == digits[0];
    SpaceRunExact(tail, pad);
    count := tail[pad..];
    assert count == digits + rest;
    assert count[..|digits|] == digits;
    DigitRunExact(count, |digits|);
  }

  /** In a rendered line the only `s:` at or after the name's end is the one
      that ends the name. */
  lemma NoStatMarkerAfterName(name: string, pad: nat, digits: string, rest: string)
    requires AllDigits(digits)
    requires forall j :: !OccursAt(rest, "s:", j)
    ensures var l := name + "s:" + Spaces(pad) + digits + rest;
            forall j :: |name| < j ==> !OccursAt(l, "s:", j)
  {
    var head := name + "s:" + Spaces(pad) + digits;
    var l := head + rest;
    var i := |name|;
    assert forall j :: i + 1 <= j < |head| ==> head[j] != 's' by {
      assert head[i + 1] == ':';
      assert forall j :: i + 2 <= j < i + 2 + pad ==> head[j] == ' ';
      assert forall j :: i + 2 + pad <= j < |head| ==> head[j] == digits[j - (i + 2 + pad)];
    }
    forall j | i < j
      ensures !OccursAt(l, "s:", j)
    {
      if j + 2 <= |l| {
        if j < |head| {
          assert l[j..j + 2][0] == l[j] == head[j];
        } else {
          assert l[j..j + 2] == rest[j - |head|..j - |head| + 2];
          assert !OccursAt(rest, "s:", j - |head|);
        }
      }
    }
  }

  lemma {:induction false} SpaceRunExact(s: string, n: nat)
    requires n <= |s|
    requires forall k :: 0 <= k < n ==> s[k] == ' '
    requires n == |s| || s[n] != ' '
    ensures SpaceRun(s) == n
    decreases n
  {
    if n > 0 {
      assert s[0] == ' ';
      SpaceRunExact(s[1..], n - 1);
    }
  }

  lemma {:induction false} DigitRunExact(s: string, n: nat)
    requires n <= |s|
    requires AllDigits(s[..n])
    requires n == |s| || !IsDigit(s[n])
    ensures DigitRun(s) == n
    decreases n
  {
    if n > 0 {
      assert s[..n][0] == s[0];
      assert s[1..][..n - 1] == s[..n][1..];
      DigitRunExact(s[1..], n - 1);
    }
  }

  /** `ps[i]` is the last successfully parsed line naming `k`. */
  predicate LastNaming(ps: seq<Result<(string, nat), Error>>, i: int, k: string) {
    && 0 <= i < |ps| && ps[i].Success? && ps[i].value.0 == k
    && forall j :: i < j < |ps| && ps[j].Success? ==> ps[j].value.0 != k
  }

  /** The loop of `icebox_stat` over the parse results of the report's lines:
      the first failing line aborts, and otherwise each line assigns
      `ret[name] = count`, so the dictionary holds every name that occurs. */
  function FoldStats(ps: seq<Result<(string, nat), Error>>): (r: Result<map<string, nat>, Error>)
    ensures r.Success? <==> forall i :: 0 <= i < |ps| ==> ps[i].Success?
    ensures r.Failure? ==>
      exists i :: && 0 <= i < |ps| && ps[i].Failure?
                  && r.error == ps[i].error
                  && forall j :: 0 <= j < i ==> ps[j].Success?
    ensures r.Success? ==> forall i :: 0 <= i < |ps| ==> ps[i].value.0 in r.value
  {
    if ps == [] then Success(map[])
    else
      var n := |ps| - 1;
      var init := ps[..n];
      var earlier := FoldStats(init);
      assert forall i :: 0 <= i < n ==> init[i] == ps[i];
      if earlier.Failure? then earlier
      else if ps[n].Failure? then Failure(ps[n].error)
      else Success(earlier.value[ps[n].value.0 := ps[n].value.1])
  }

  /** Every name in the folded dictionary carries the count of the last line
      naming it: a later line overwrites an earlier one. */
  lemma {:induction false} FoldStatsLastWins(ps: seq<Result<(string, nat), Error>>, k: string)
    requires FoldStats(ps).Success? && k in FoldStats(ps).value
    ensures exists i :: LastNaming(ps, i, k) && ps[i].value.1 == FoldStats(ps).value[k]
  {
    var n := |ps| - 1;
    var init := ps[..n];
    assert forall i :: 0 <= i < n ==> init[i] == ps[i];
    if ps[n].value.0 == k {
      assert LastNaming(ps, n, k);
    } else {
      FoldStatsLastWins(init, k);
      var i :| LastNaming(init, i, k) && init[i].value.1 == FoldStats(init).value[k];
      assert LastNaming(ps, i, k);
    }
  }

  /** One more report line: fold the earlier lines, then assign the new one. */
  lemma FoldStatsSnoc(ps: seq<Result<(string, nat), Error>>, name: string, count: nat)
    requires FoldStats(ps).Success?
    ensures FoldStats(ps + [Success((name, count))]) == Success(FoldStats(ps).value[name := count])
  {
    assert (ps + [Success((name, count))])[..|ps|] == ps;
  }

  /** Each line of a report run through `ParseStatLine`. */
  function StatResults(lines: seq<string>): (ps: seq<Result<(string, nat), Error>>)
    ensures |ps| == |lines|
    ensures forall i :: 0 <= i < |lines| ==> ps[i] == ParseStatLine(lines[i])
  {
    seq(|lines|, i requires 0 <= i < |lines| => ParseStatLine(lines[i]))
  }

  lemma StatResultsSnoc(lines: seq<string>)
    requires lines != []
    ensures var n := |lines| - 1;
            StatResults(lines) == StatResults(lines[..n]) + [ParseStatLine(lines[n])]
  {
    var n := |lines| - 1;
    var ps, qs := StatResults(lines), StatResults(lines[..n]) + [ParseStatLine(lines[n])];
    forall i | 0 <= i < |lines|
      ensures ps[i] == qs[i]
    {
      if i < n {
        assert lines[..n][i] == lines[i];
      }
    }
  }

  /** The parsing half of `icebox_stat`: every line must parse, and the
      resulting dictionary must hold `LUT` (`assert 'LUT' in ret`). */
  function IceboxStatParse(lines: seq<string>): (r: Result<map<string, nat>, Error>)
    ensures r.Success? ==> "LUT" in r.value
    ensures r.Success? <==>
      var ps := StatResults(lines);
      && (forall i :: 0 <= i < |ps| ==> ps[i].Success?)
      && exists i :: 0 <= i < |ps| && ps[i].value.0 == "LUT"
    ensures r.Success? ==> r.value == FoldStats(StatResults(lines)).value
  {
    var ps := StatResults(lines);
    var counts :- FoldStats(ps);
    if "LUT" !in counts then
      Failure(LutMissing)
    else
      assert exists i :: 0 <= i < |ps| && ps[i].value.0 == "LUT" by {
        FoldStatsLastWins(ps, "LUT");
      }
      Success(counts)
  }

  /** The report in the program's own comment. */
  const StatExample: seq<string> :=
    ["DFFs:     22", "LUTs:     24", "CARRYs:   20", "BRAMs:     0", "IOBs:      4", "PLLs:      0", "GLBs:      1"]

  const ExampleNames: seq<string> := ["DFF", "LUT", "CARRY", "BRAM", "IOB", "PLL", "GLB"]
  const ExamplePads: seq<nat> := [5, 5, 3, 5, 6, 6, 6]
  const ExampleCounts: seq<nat> := [22, 24, 20, 0, 4, 0, 1]

  lemma StatExampleLayout(i: nat)
    requires i < 7
    ensures |StatExample| == 7
    ensures StatExample[i] == StatLine(ExampleNames[i], ExamplePads[i], Decimal(ExampleCounts[i]))
  {
  }

  /** The dictionary `icebox_stat` builds from `(name, count)` pairs
      assigned in order: a later pair overwrites an earlier one. */
  function AssignAll(names: seq<string>, counts: seq<nat>): map<string, nat>
    requires |names| == |counts|
  {
    if names == [] then map[]
    else
      var n := |names| - 1;
      AssignAll(names[..n], counts[..n])[names[n] := counts[n]]
  }

  /** A report of rendered lines `<name>s: <count>` parses to the dictionary
      that assigns the counts in line order, provided `LUT` is among the names. */
  lemma {:induction false} FoldRendered(lines: seq<string>, names: seq<string>, pads: seq<nat>, counts: seq<nat>)
    requires |lines| == |names| == |pads| == |counts|
    requires forall i :: 0 <= i < |lines| ==> lines[i] == StatLine(names[i], pads[i], Decimal(counts[i]))
    ensures FoldStats(StatResults(lines)) == Success(AssignAll(names, counts))
  {
    if lines != [] {
      var n := |lines| - 1;
      FoldRendered(lines[..n], names[..n], pads[..n], counts[..n]);
      StatResultsSnoc(lines);
      RenderedLineParses(names[n], pads[n], counts[n]);
      FoldStatsSnoc(StatResults(lines[..n]), names[n], counts[n]);
    }
  }

  lemma RenderedLineParses(name: string, pad: nat, count: nat)
    ensures ParseStatLine(StatLine(name, pad, Decimal(count))) == Success((name, count))
  {
    var l := StatLine(name, pad, Decimal(count));
    assert l + "" == l;
    ParseStatLineRendered(name, pad, Decimal(count), "");
  }

  /** `icebox_stat` on a report of rendered lines naming `LUT`. */
  lemma IceboxStatParseRendered(lines: seq<string>, names: seq<string>, pads: seq<nat>, counts: seq<nat>)
    requires |lines| == |names| == |pads| == |counts|
    requires forall i :: 0 <= i < |lines| ==> lines[i] == StatLine(names[i], pads[i], Decimal(counts[i]))
    requires "LUT" in names
    ensures IceboxStatParse(lines) == Success(AssignAll(names, counts))
  {
    FoldRendered(lines, names, pads, counts);
    var i :| 0 <= i < |names| && names[i] == "LUT";
    RenderedLineParses(names[i], pads[i], counts[i]);
    assert StatResults(lines)[i].value.0 == "LUT";
  }

  /** The report in the program's comment parses to
      `{DFF: 22, LUT: 24, CARRY: 20, BRAM: 0, IOB: 4, PLL: 0, GLB: 1}`. */
  lemma IceboxStatParseExample()
    ensures IceboxStatParse(StatExample) ==
      Success(map["DFF" := 22, "LUT" := 24, "CARRY" := 20, "BRAM" := 0, "IOB" := 4, "PLL" := 0, "GLB" := 1])
  {
    forall i | 0 <= i < 7
      ensures StatExample[i] == StatLine(ExampleNames[i], ExamplePads[i], Decimal(ExampleCounts[i]))
    {
      StatExampleLayout(i);
    }
    assert ExampleNames[1] == "LUT";
    IceboxStatParseRendered(StatExample, ExampleNames, ExamplePads, ExampleCounts);
    ExampleAssigned();
  }

  lemma ExampleAssigned()
    ensures AssignAll(ExampleNames, ExampleCounts) ==
      map["DFF" := 22, "LUT" := 24, "CARRY" := 20, "BRAM" := 0, "IOB" := 4, "PLL" := 0, "GLB" := 1]
  {
    var ns, cs := ExampleNames, ExampleCounts;
    assert AssignAll(ns[..0], cs[..0]) == map[];
    assert ns[..1][..0] == ns[..0] && cs[..1][..0] == cs[..0];
    assert AssignAll(ns[..1], cs[..1]) == map["DFF" := 22];
    assert ns[..2][..1] == ns[..1] && cs[..2][..1] == cs[..1];
    assert AssignAll(ns[..2], cs[..2]) == map["DFF" := 22, "LUT" := 24];
    assert ns[..3][..2] == ns[..2] && cs[..3][..2] == cs[..2];
    assert AssignAll(ns[..3], cs[..3]) == map["DFF" := 22, "LUT" := 24, "CARRY" := 20];
    assert ns[..4][..3] == ns[..3] && cs[..4][..3] == cs[..3];
    assert AssignAll(ns[..4], cs[..4]) == map["DFF" := 22, "LUT" := 24, "CARRY" := 20, "BRAM" := 0];
    assert ns[..5][..4] == ns[..4] && cs[..5][..4] == cs[..4];
    assert AssignAll(ns[..5], cs[..5]) == map["DFF" := 22, "LUT" := 24, "CARRY" := 20, "BRAM" := 0, "IOB" := 4];
    assert ns[..6][..5] == ns[..5] && cs[..6][..5] == cs[..5];
    assert AssignAll(ns[..6], cs[..6]) == map["DFF" := 22, "LUT" := 24, "CARRY" := 20, "BRAM" := 0, "IOB" := 4, "PLL" := 0];
    assert ns[..6] == ns[..|ns| - 1] && cs[..6] == cs[..|cs| - 1];
  }

  // ---------------------------------------------------------------------------
  // vpr_version: the last `Version:` and `Revision:` lines of `vpr --version`

  /** `ls[i]` is the last line of `ls` that begins with `p`. */
  predicate LastWith(ls: seq<string>, p: string, i: int) {
    && 0 <= i < |ls| && StartsWith(ls[i], p)
    && forall j :: i < j < |ls| ==> !StartsWith(ls[j], p)
  }

  /** Some line of `ls` begins with `p`. */
  predicate AnyWith(ls: seq<string>, p: string) {
    exists i :: 0 <= i < |ls| && StartsWith(ls[i], p)
  }

  /** The loop `if l.find(p) == 0: found = l` over `ls`: after it, `found`
      holds the last line beginning with `p`, or `None` if there is none. */
  function LastWithPrefix(ls: seq<string>, p: string): (r: Option<string>)
    ensures r.None? <==> !AnyWith(ls, p)
    ensures r.Some? ==> exists i :: LastWith(ls, p, i) && ls[i] == r.value
  {
    if ls == [] then None
    else
      var n := |ls| - 1;
      if StartsWith(ls[n], p) then
        assert LastWith(ls, p, n);
        Some(ls[n])
      else
        var earlier := LastWithPrefix(ls[..n], p);
        assert forall i :: 0 <= i < n ==> ls[..n][i] == ls[i];
        if earlier.Some? then
          var i :| LastWith(ls[..n], p, i) && ls[..n][i] == earlier.value;
          assert LastWith(ls, p, i);
          earlier
        else
          earlier
  }

  /** The lines `vpr_version` looks at: the whole output stripped, split at
      newlines, and each piece stripped again. */
  function VersionLines(out: string): (ls: seq<string>)
    ensures |ls| >= 1
    ensures forall i :: 0 <= i < |ls| ==> IsStripped(ls[i])
  {
    StripEach(Split(Strip(out), '\n'))
  }

  const VersionTag := "Version:"
  const RevisionTag := "Revision:"

  /** `vpr_version`: the last stripped line beginning with `Version:`, a comma
      and a space, and the last one beginning with `Revision:`. A missing
      `Version:` line is reported first. */
  function VprVersion(out: string): (r: Result<string, Error>)
    ensures r == Failure(VersionLineMissing) <==> !AnyWith(VersionLines(out), VersionTag)
    ensures r == Failure(RevisionLineMissing) <==>
      AnyWith(VersionLines(out), VersionTag) && !AnyWith(VersionLines(out), RevisionTag)
    ensures r.Failure? ==> r.error in {VersionLineMissing, RevisionLineMissing}
    ensures r.Success? ==>
      var ls := VersionLines(out);
      exists i, j :: LastWith(ls, VersionTag, i) && LastWith(ls, RevisionTag, j) && r.value == ls[i] + ", " + ls[j]
  {
    var ls := VersionLines(out);
    var version := LastWithPrefix(ls, VersionTag);
    var revision := LastWithPrefix(ls, RevisionTag);
    if version.None? then Failure(VersionLineMissing)
    else if revision.None? then Failure(RevisionLineMissing)
    else Success(version.value + ", " + revision.value)
  }

  /** Output laid out as lines that are already stripped, with whitespace after
      the last one, reads back as exactly those lines. */
  lemma VersionLinesOfJoined(ls: seq<string>, tail: string)
    requires |ls| >= 1
    requires forall i :: 0 <= i < |ls| ==> '\n' !in ls[i] && IsStripped(ls[i])
    requires ls[0] != [] && ls[|ls| - 1] != []
    requires forall i :: 0 <= i < |tail| ==> IsSpace(tail[i])
    ensures VersionLines(JoinWith(ls, "\n") + tail) == ls
  {
    JoinedPieces(ls, tail);
    StripEachStripped(ls);
  }

  lemma JoinedPieces(ls: seq<string>, tail: string)
    requires |ls| >= 1
    requires forall i :: 0 <= i < |ls| ==> '\n' !in ls[i] && IsStripped(ls[i])
    requires ls[0] != [] && ls[|ls| - 1] != []
    requires forall i :: 0 <= i < |tail| ==> IsSpace(tail[i])
    ensures Split(Strip(JoinWith(ls, "\n") + tail), '\n') == ls
  {
    var j := JoinWith(ls, "\n");
    JoinedStripped(ls);
    StripTrailing(j, tail);
    assert "\n" == ['\n'];
    SplitJoin(ls, '\n');
  }

  /** Lines joined by newlines, the first and last of them non-empty and
      stripped, form a stripped text. */
  lemma JoinedStripped(ls: seq<string>)
    requires |ls| >= 1
    requires IsStripped(ls[0]) && IsStripped(ls[|ls| - 1])
    requires ls[0] != [] && ls[|ls| - 1] != []
    ensures IsStripped(JoinWith(ls, "\n"))
  {
    var j := JoinWith(ls, "\n");
    JoinWithEnds(ls, "\n");
    var first, last := ls[0], ls[|ls| - 1];
    assert j[0] == first[0] && !IsSpace(first[0]) by {
      assert j[..|first|][0] == j[0];
    }
    assert j[|j| - 1] == last[|last| - 1] && !IsSpace(last[|last| - 1]) by {
      assert j[|j| - |last|..][|last| - 1] == j[|j| - 1];
    }
  }

  /** Every line stripped. */
  function StripEach(ls: seq<string>): (r: seq<string>)
    ensures |r| == |ls|
    ensures forall i :: 0 <= i < |ls| ==> r[i] == Strip(ls[i])
  {
    seq(|ls|, i requires 0 <= i < |ls| => Strip(ls[i]))
  }

  lemma StripEachStripped(ls: seq<string>)
    requires forall i :: 0 <= i < |ls| ==> IsStripped(ls[i])
    ensures StripEach(ls) == ls
  {
    forall i | 0 <= i < |ls|
      ensures Strip(ls[i]) == ls[i]
    {
      assert ls[i] + [] == ls[i];
      StripTrailing(ls[i], []);
    }
  }

  /** Only one line is the last to begin with `p`. */
  lemma LastWithUnique(ls: seq<string>, p: string, i: int, j: int)
    requires LastWith(ls, p, i) && LastWith(ls, p, j)
    ensures i == j
  {
  }

  /** `vpr_version` of an output laid out as stripped lines: the last `Version:`
      line and the last `Revision:` line, joined. */
  lemma VprVersionOfLines(ls: seq<string>, tail: string, i: nat, j: nat)
    requires |ls| >= 1
    requires forall k :: 0 <= k < |ls| ==> '\n' !in ls[k] && IsStripped(ls[k])
    requires ls[0] != [] && ls[|ls| - 1] != []
    requires forall k :: 0 <= k < |tail| ==> IsSpace(tail[k])
    requires LastWith(ls, VersionTag, i) && LastWith(ls, RevisionTag, j)
    ensures VprVersion(JoinWith(ls, "\n") + tail) == Success(ls[i] + ", " + ls[j])
  {
    var out := JoinWith(ls, "\n") + tail;
    VersionLinesOfJoined(ls, tail);
    var r := VprVersion(out);
    assert r.Success? by {
      assert AnyWith(ls, VersionTag) && AnyWith(ls, RevisionTag);
    }
    var i', j' :| LastWith(ls, VersionTag, i') && LastWith(ls, RevisionTag, j')
                  && r.value == ls[i'] + ", " + ls[j'];
    LastWithUnique(ls, VersionTag, i, i');
    LastWithUnique(ls, RevisionTag, j, j');
  }

  /** The banner in the program's comment. The long lines are written as a few
      shorter literals joined by `+`: the text is the same, and the verifier
      proves the facts about each line (`CleanConcat`) piece by piece instead
      of character by character over one long literal. */
  const VprBanner: seq<string> := [
    "VPR FPGA" + " Placement and Routing.",
    VersionTag + " 8.0.0-dev+vpr-7.0.5-6027-g94a747729",
    RevisionTag + " vpr-7.0.5-6027-g94a747729",
    "Compiled:" + " 2018-06-21T16:45:11" + " (release build)",
    "Compiler:" + " GNU 6.3.0 on" + " Linux-4.9.0-5-amd64 x86_64",
    "University" + " of Toronto",
    "vtr-users" + "@googlegroups.com",
    "This is free" + " open source code" + " under MIT license."
  ]

  /** Two pieces without a newline, the first not starting and the second not
      ending with whitespace, make a line `vpr_version` keeps as it is. */
  lemma CleanConcat(a: string, b: string)
    requires '\n' !in a && '\n' !in b
    requires a != [] && !IsSpace(a[0]) && b != [] && !IsSpace(b[|b| - 1])
    ensures '\n' !in a + b && IsStripped(a + b)
  {
    assert (a + b)[0] == a[0] && (a + b)[|a + b| - 1] == b[|b| - 1];
  }

  /** Every line of the banner is kept as it is by `vpr_version`'s stripping. */
  lemma BannerLinesStripped(k: nat)
    requires k < |VprBanner|
    ensures '\n' !in VprBanner[k] && IsStripped(VprBanner[k])
  {
    if k < 4 { BannerHeadStripped(k); } else { BannerTailStripped(k); }
  }

  lemma BannerHeadStripped(k: nat)
    requires k < 4
    ensures '\n' !in VprBanner[k] && IsStripped(VprBanner[k])
  {
    if k == 0 { CleanConcat("VPR FPGA", " Placement and Routing."); }
    else if k == 1 { CleanConcat(VersionTag, " 8.0.0-dev+vpr-7.0.5-6027-g94a747729"); }
    else if k == 2 { CleanConcat(RevisionTag, " vpr-7.0.5-6027-g94a747729"); }
    else {
      CleanConcat("Compiled:", " 2018-06-21T16:45:11");
      CleanConcat("Compiled:" + " 2018-06-21T16:45:11", " (release build)");
    }
  }

  lemma BannerTailStripped(k: nat)
    requires 4 <= k < 8
    ensures '\n' !in VprBanner[k] && IsStripped(VprBanner[k])
  {
    if k == 4 {
      CleanConcat("Compiler:", " GNU 6.3.0 on");
      CleanConcat("Compiler:" + " GNU 6.3.0 on", " Linux-4.9.0-5-amd64 x86_64");
    }
    else if k == 5 { CleanConcat("University", " of Toronto"); }
    else if k == 6 { CleanConcat("vtr-users", "@googlegroups.com"); }
    else {
      CleanConcat("This is free", " open source code");
      CleanConcat("This is free" + " open source code", " under MIT license.");
    }
  }

  /** The `Version:` line of the banner is its second line. */
  lemma BannerVersionLine()
    ensures LastWith(VprBanner, VersionTag, 1)
  {
    var ls := VprBanner;
    assert ls[1][..|VersionTag|] == VersionTag;
    assert ls[2][0] == 'R';
    assert ls[3][0] == 'C';
    assert ls[4][0] == 'C';
    assert ls[5][0] == 'U';
    assert ls[6][0] == 'v';
    assert ls[7][0] == 'T';
  }

  /** The `Revision:` line of the banner is its third line. */
  lemma BannerRevisionLine()
    ensures LastWith(VprBanner, RevisionTag, 2)
  {
    var ls := VprBanner;
    assert ls[2][..|RevisionTag|] == RevisionTag;
    assert ls[3][0] == 'C';
    assert ls[4][0] == 'C';
    assert ls[5][0] == 'U';
    assert ls[6][0] == 'v';
    assert ls[7][0] == 'T';
  }

  lemma NewlineIsSpace()
    ensures forall k :: 0 <= k < |"\n"| ==> IsSpace("\n"[k])
  {
    assert "\n"[0] == '\n';
  }

  /** The banner, newline-terminated, gives
      `Version: 8.0.0-dev+vpr-7.0.5-6027-g94a747729, Revision: vpr-7.0.5-6027-g94a747729`. */
  lemma VprVersionExample()
    ensures VprVersion(JoinWith(VprBanner, "\n") + "\n") ==
      Success((VersionTag + " 8.0.0-dev+vpr-7.0.5-6027-g94a747729") + ", " + (RevisionTag + " vpr-7.0.5-6027-g94a747729"))
  {
    forall k | 0 <= k < |VprBanner|
      ensures '\n' !in VprBanner[k] && IsStripped(VprBanner[k])
    {
      BannerLinesStripped(k);
    }
    BannerVersionLine();
    BannerRevisionLine();
    NewlineIsSpace();
    VprVersionOfLines(VprBanner, "\n", 1, 2);
    assert VprBanner[1] == VersionTag + " 8.0.0-dev+vpr-7.0.5-6027-g94a747729";
    assert VprBanner[2] == RevisionTag + " vpr-7.0.5-6027-g94a747729";
  }
}
