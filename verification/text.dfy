/** The handful of Python string operations the benchmark driver relies on:
    `str.strip()`, `str.startswith` (written `find(p) == 0` in the program),
    `str.split('\n')`, `str.join`, `str.replace`, iteration over the lines of a
    text file, and the pieces of the two regular expressions it matches. */
module Text {
  import opened Wrappers

  /** Python's `str.isspace` for one character: the characters `str.strip()` removes. */
  predicate IsSpace(c: char) {
    var n := c as int;
    || 9 <= n <= 13
    || 28 <= n <= 32
    || n == 0x85 || n == 0xA0 || n == 0x1680
    || 0x2000 <= n <= 0x200A
    || n == 0x2028 || n == 0x2029 || n == 0x202F || n == 0x205F || n == 0x3000
  }

  /** The regular-expression class `[0-9]`. */
  predicate IsDigit(c: char) {
    '0' <= c <= '9'
  }

  predicate AllDigits(s: string) {
    forall i :: 0 <= i < |s| ==> IsDigit(s[i])
  }

  predicate StartsWith(s: string, prefix: string) {
    |prefix| <= |s| && s[..|prefix|] == prefix
  }

  /** A line terminator appended to `s` does not change whether `s` starts
      with a prefix that holds no `\n`. */
  lemma StartsWithNewline(s: string, prefix: string)
    requires '\n' !in prefix
    ensures StartsWith(s + "\n", prefix) <==> StartsWith(s, prefix)
  {
    var s' := s + "\n";
    if |prefix| <= |s| {
      assert s'[..|prefix|] == s[..|prefix|];
    } else if |prefix| == |s| + 1 {
      assert s'[|s|] == '\n';
      assert s'[..|prefix|][|s|] == s'[|s|];
    }
  }

  /** `pat` occurs in `s` starting at index `i`. */
  predicate OccursAt(s: string, pat: string, i: int) {
    0 <= i && i + |pat| <= |s| && s[i..i + |pat|] == pat
  }

  predicate Contains(s: string, pat: string) {
    exists i :: 0 <= i <= |s| && OccursAt(s, pat, i)
  }

  /** `n` spaces, the text the regular expression ` *` consumes. */
  function Spaces(n: nat): (s: string)
    ensures |s| == n && forall i :: 0 <= i < n ==> s[i] == ' '
  {
    seq(n, _ => ' ')
  }

  // ---------------------------------------------------------------------------
  // str.strip()

  function TrimLeft(s: string): (r: string)
    ensures |r| <= |s| && r == s[|s| - |r|..]
    ensures forall i :: 0 <= i < |s| - |r| ==> IsSpace(s[i])
    ensures r == [] || !IsSpace(r[0])
  {
    if s != [] && IsSpace(s[0]) then
      var r := TrimLeft(s[1..]);
      assert s[1..][|s| - 1 - |r|..] == s[|s| - |r|..];
      assert forall i :: 1 <= i < |s| - |r| ==> s[i] == s[1..][i - 1];
      r
    else s
  }

  function TrimRight(s: string): (r: string)
    ensures |r| <= |s| && r == s[..|r|]
    ensures forall i :: |r| <= i < |s| ==> IsSpace(s[i])
    ensures r == [] || !IsSpace(r[|r| - 1])
  {
    if s != [] && IsSpace(s[|s| - 1]) then TrimRight(s[..|s| - 1]) else s
  }

  /** `s` neither begins nor ends with whitespace. */
  predicate IsStripped(s: string) {
    s == [] || (!IsSpace(s[0]) && !IsSpace(s[|s| - 1]))
  }

  /** `r` sits in `s` at index `lo` with only whitespace around it. */
  ghost predicate StripsAt(s: string, r: string, lo: int) {
    && 0 <= lo <= |s| - |r|
    && s[lo..lo + |r|] == r
    && (forall i :: 0 <= i < lo ==> IsSpace(s[i]))
    && (forall i :: lo + |r| <= i < |s| ==> IsSpace(s[i]))
  }

  /** `r` is `s` with a run of whitespace removed from each end, and `r` itself
      neither begins nor ends with whitespace. */
  ghost predicate IsStripOf(s: string, r: string) {
    && IsStripped(r)
    && exists lo :: StripsAt(s, r, lo)
  }

  /** Python's `str.strip()` with no argument. */
  function Strip(s: string): (r: string)
    ensures IsStripOf(s, r)
  {
    var left := TrimLeft(s);
    var r := TrimRight(left);
    var lo := |s| - |left|;
    assert s[lo..lo + |r|] == r;
    assert StripsAt(s, r, lo);
    assert r != [] ==> !IsSpace(r[0]) by {
      if r != [] {
        assert r[0] == left[0];
      }
    }
    r
  }

  /** Stripping is determined by its specification: whatever is stripped from, the
      whitespace-free core comes back. */
  lemma StripUnique(s: string, r: string)
    requires IsStripOf(s, r)
    ensures Strip(s) == r
  {
    var r' := Strip(s);
    var lo :| StripsAt(s, r, lo);
    var lo' :| StripsAt(s, r', lo');
    if r != [] && r' != [] {
      assert s[lo] == r[0] && s[lo'] == r'[0];
      assert lo == lo';
      var e, e' := lo + |r| - 1, lo' + |r'| - 1;
      assert s[e] == r[|r| - 1] && s[e'] == r'[|r'| - 1];
      assert e == e';
    }
  }

  /** A string that neither begins nor ends with whitespace strips to itself,
      and so does one followed by whitespace only. */
  lemma StripTrailing(s: string, tail: string)
    requires IsStripped(s)
    requires forall i :: 0 <= i < |tail| ==> IsSpace(tail[i])
    ensures Strip(s + tail) == s
  {
    var t := s + tail;
    assert t[0..0 + |s|] == s;
    assert forall i :: |s| <= i < |t| ==> IsSpace(t[i]) by {
      forall i | |s| <= i < |t| ensures IsSpace(t[i]) {
        assert t[i] == tail[i - |s|];
      }
    }
    assert StripsAt(t, s, 0);
    StripUnique(t, s);
  }

  lemma StripIdempotent(s: string)
    ensures Strip(Strip(s)) == Strip(s)
  {
    var r := Strip(s);
    assert r + [] == r;
    StripTrailing(r, []);
  }

  // ---------------------------------------------------------------------------
  // str.join and str.split

  /** Python's `sep.join(parts)`. */
  function JoinWith(parts: seq<string>, sep: string): string
  {
    if |parts| == 0 then []
    else if |parts| == 1 then parts[0]
    else parts[0] + sep + JoinWith(parts[1..], sep)
  }

  /** A joined string begins with the first part and ends with the last. */
  lemma {:induction false} JoinWithEnds(parts: seq<string>, sep: string)
    requires |parts| >= 1
    ensures var j := JoinWith(parts, sep);
            && |parts[0]| <= |j| && j[..|parts[0]|] == parts[0]
            && |parts[|parts| - 1]| <= |j| && j[|j| - |parts[|parts| - 1]|..] == parts[|parts| - 1]
  {
    if |parts| > 1 {
      JoinWithEnds(parts[1..], sep);
      var rest := JoinWith(parts[1..], sep);
      assert JoinWith(parts, sep) == parts[0] + sep + rest;
      assert parts[1..][|parts[1..]| - 1] == parts[|parts| - 1];
    }
  }

  /** Python's `s.split(sep)` for a one-character separator: the pieces between
      consecutive separators, empty pieces included, and never no piece at all. */
  function Split(s: string, sep: char): (r: seq<string>)
    ensures |r| >= 1
    ensures forall i :: 0 <= i < |r| ==> sep !in r[i]
    ensures JoinWith(r, [sep]) == s
  {
    if s == [] then [[]]
    else
      var rest := Split(s[1..], sep);
      if s[0] == sep then
        [[]] + rest
      else
        var r := [[s[0]] + rest[0]] + rest[1..];
        JoinWithHeadChar(s[0], rest[0], rest[1..], [sep]);
        assert [rest[0]] + rest[1..] == rest;
        r
  }

  /** `Split` undoes `JoinWith` when no piece contains the separator. */
  lemma {:induction false} SplitJoin(parts: seq<string>, sep: char)
    requires |parts| >= 1
    requires forall i :: 0 <= i < |parts| ==> sep !in parts[i]
    ensures Split(JoinWith(parts, [sep]), sep) == parts
    decreases |parts|, |parts[0]|
  {
    var head := parts[0];
    if head == [] {
      if |parts| > 1 {
        SplitJoin(parts[1..], sep);
        assert JoinWith(parts, [sep]) == [sep] + JoinWith(parts[1..], [sep]);
      }
    } else {
      var shorter := [head[1..]] + parts[1..];
      forall i | 0 <= i < |shorter|
        ensures sep !in shorter[i]
      {
        if i == 0 {
          assert forall k :: 0 <= k < |head[1..]| ==> head[1..][k] == head[k + 1];
        } else {
          assert shorter[i] == parts[i];
        }
      }
      SplitJoin(shorter, sep);
      assert [head[0]] + head[1..] == head;
      assert [head] + parts[1..] == parts;
      JoinWithHeadChar(head[0], head[1..], parts[1..], [sep]);
      var joined := JoinWith(parts, [sep]);
      assert joined[1..] == JoinWith(shorter, [sep]);
      assert joined[0] != sep by { assert head[0] in parts[0]; }
      assert shorter[1..] == parts[1..];
    }
  }

  /** Moving the first character of the first part out of a join. */
  lemma JoinWithHeadChar(c: char, part: string, rest: seq<string>, sep: string)
    ensures JoinWith([[c] + part] + rest, sep) == [c] + JoinWith([part] + rest, sep)
  {
    var a, b := [[c] + part] + rest, [part] + rest;
    assert a[0] == [c] + part && b[0] == part && a[1..] == rest && b[1..] == rest;
    if rest != [] {
      assert JoinWith(a, sep) == ([c] + part) + sep + JoinWith(rest, sep);
      assert JoinWith(b, sep) == part + sep + JoinWith(rest, sep);
    }
  }

  /** The empty piece after a final newline is not a line. */
  function DropLast(parts: seq<string>): seq<string>
    requires parts != []
  {
    if parts[|parts| - 1] == [] then parts[..|parts| - 1] else parts
  }

  /** The lines a Python text file yields when iterated, without their line
      terminators: the pieces between newlines, minus the empty piece after a
      final newline. */
  function Lines(text: string): (ls: seq<string>)
    ensures forall i :: 0 <= i < |ls| ==> '\n' !in ls[i]
  {
    DropLast(Split(text, '\n'))
  }

  /** Splitting at a separator that ends the first piece. */
  lemma {:induction false} SplitAfter(first: string, rest: string, sep: char)
    requires sep !in first
    ensures Split(first + [sep] + rest, sep) == [first] + Split(rest, sep)
    decreases |first|
  {
    var s := first + [sep] + rest;
    if first == [] {
      assert s == [sep] + rest;
    } else {
      SplitAfter(first[1..], rest, sep);
      assert s[1..] == first[1..] + [sep] + rest;
      assert [first[0]] + first[1..] == first;
    }
  }

  /** A line ended by a newline is read back first, followed by the lines
      of the rest of the file. */
  lemma LinesAfter(first: string, rest: string)
    requires '\n' !in first
    ensures Lines(first + "\n" + rest) == [first] + Lines(rest)
  {
    assert first + "\n" + rest == first + ['\n'] + rest;
    SplitAfter(first, rest, '\n');
    LinesOfSplit(first + "\n" + rest, [first] + Split(rest, '\n'));
    LinesOfSplit(rest, Split(rest, '\n'));
    DropLastCons(first, Split(rest, '\n'));
  }

  lemma LinesOfSplit(text: string, parts: seq<string>)
    requires Split(text, '\n') == parts
    ensures parts != [] && Lines(text) == DropLast(parts)
  {
  }

  lemma DropLastCons(first: string, tail: seq<string>)
    requires tail != []
    ensures DropLast([first] + tail) == [first] + DropLast(tail)
  {
    var parts := [first] + tail;
    assert parts[|parts| - 1] == tail[|tail| - 1];
    if tail[|tail| - 1] == [] {
      assert parts[..|parts| - 1] == [first] + tail[..|tail| - 1];
    }
  }

  /** The text of a file holding the given lines, each ended by a newline. */
  function Unlines(ls: seq<string>): string
  {
    if ls == [] then [] else ls[0] + "\n" + Unlines(ls[1..])
  }

  lemma {:induction false} UnlinesAsJoin(ls: seq<string>)
    ensures Unlines(ls) == JoinWith(ls + [[]], "\n")
  {
    if ls != [] {
      UnlinesAsJoin(ls[1..]);
      assert (ls + [[]])[1..] == ls[1..] + [[]];
    }
  }

  /** Reading back a file written line by line yields the same lines. */
  lemma LinesUnlines(ls: seq<string>)
    requires forall i :: 0 <= i < |ls| ==> '\n' !in ls[i]
    ensures Lines(Unlines(ls)) == ls
  {
    UnlinesAsJoin(ls);
    SplitJoin(ls + [[]], '\n');
    assert (ls + [[]])[..|ls|] == ls;
  }

  // ---------------------------------------------------------------------------
  // str.replace

  /** Python's `s.replace(target, repl)`: every non-overlapping occurrence of `target`,
      found scanning left to right, becomes `repl`; an empty `target` matches before
      every character and at the end. */
  function ReplaceAll(s: string, target: string, repl: string): (r: string)
    ensures target == repl ==> r == s
    ensures target != [] && |repl| == |target| ==> |r| == |s|
    decreases |s|
  {
    if target == [] then
      if s == [] then repl else repl + [s[0]] + ReplaceAll(s[1..], target, repl)
    else if s == [] then []
    else if StartsWith(s, target) then
      assert s[..|target|] + s[|target|..] == s;
      repl + ReplaceAll(s[|target|..], target, repl)
    else [s[0]] + ReplaceAll(s[1..], target, repl)
  }

  /** A string that does not contain a non-empty `target` is left unchanged. */
  lemma {:induction false} ReplaceAbsent(s: string, target: string, repl: string)
    requires target != [] && !Contains(s, target)
    ensures ReplaceAll(s, target, repl) == s
    decreases |s|
  {
    if s != [] {
      assert !OccursAt(s, target, 0);
      assert !Contains(s[1..], target) by {
        forall i | OccursAt(s[1..], target, i)
          ensures false
        {
          assert s[1..][i..i + |target|] == s[i + 1..i + 1 + |target|];
          assert OccursAt(s, target, i + 1);
        }
      }
      ReplaceAbsent(s[1..], target, repl);
    }
  }

  /** An occurrence in the tail `s[1..]` is an occurrence in `s` one place later. */
  lemma OccursInTail(s: string, pat: string, j: nat)
    requires s != []
    ensures OccursAt(s[1..], pat, j) <==> OccursAt(s, pat, j + 1)
  {
    if 0 <= j && j + |pat| <= |s| - 1 {
      assert s[1..][j..j + |pat|] == s[j + 1..j + 1 + |pat|];
    }
  }

  /** `replace` scans left to right: everything before the first occurrence of a
      non-empty `target` is kept, that occurrence becomes `repl`, and the scan
      resumes after it. With `ReplaceAbsent` this determines the whole result. */
  lemma {:induction false} ReplaceFirst(s: string, target: string, repl: string, i: nat)
    requires target != [] && OccursAt(s, target, i)
    requires forall j :: 0 <= j < i ==> !OccursAt(s, target, j)
    ensures ReplaceAll(s, target, repl) == s[..i] + repl + ReplaceAll(s[i + |target|..], target, repl)
    decreases i, 1
  {
    if i == 0 {
      ReplaceAtStart(s, target, repl);
      assert s[..i] == [];
    } else {
      ReplaceSkipsHead(s, target, repl, i);
    }
  }

  lemma ReplaceAtStart(s: string, target: string, repl: string)
    requires target != [] && OccursAt(s, target, 0)
    ensures ReplaceAll(s, target, repl) == repl + ReplaceAll(s[|target|..], target, repl)
  {
    assert s != [] && StartsWith(s, target);
  }

  lemma {:induction false} ReplaceSkipsHead(s: string, target: string, repl: string, i: nat)
    requires target != [] && 0 < i && OccursAt(s, target, i)
    requires forall j :: 0 <= j < i ==> !OccursAt(s, target, j)
    ensures ReplaceAll(s, target, repl) == s[..i] + repl + ReplaceAll(s[i + |target|..], target, repl)
    decreases i, 0
  {
    var tail := s[1..];
    ReplaceNotAtStart(s, target, repl);
    FirstInTail(s, target, i);
    ReplaceFirst(tail, target, repl, i - 1);
    assert tail[i - 1 + |target|..] == s[i + |target|..];
    PrependHead(s, i, repl, ReplaceAll(s[i + |target|..], target, repl), ReplaceAll(tail, target, repl));
  }

  lemma ReplaceNotAtStart(s: string, target: string, repl: string)
    requires target != [] && s != [] && !OccursAt(s, target, 0)
    ensures ReplaceAll(s, target, repl) == [s[0]] + ReplaceAll(s[1..], target, repl)
  {
    assert !StartsWith(s, target);
  }

  /** The first occurrence, at `i > 0`, is the first occurrence in the tail at `i - 1`. */
  lemma FirstInTail(s: string, target: string, i: nat)
    requires 0 < i && OccursAt(s, target, i)
    requires forall j :: 0 <= j < i ==> !OccursAt(s, target, j)
    ensures OccursAt(s[1..], target, i - 1)
    ensures forall j :: 0 <= j < i - 1 ==> !OccursAt(s[1..], target, j)
  {
    OccursInTail(s, target, i - 1);
    forall j | 0 <= j < i - 1
      ensures !OccursAt(s[1..], target, j)
    {
      OccursInTail(s, target, j);
    }
  }

  lemma PrependHead(s: string, i: nat, repl: string, rest: string, rt: string)
    requires 0 < i <= |s| && rt == s[1..][..i - 1] + repl + rest
    ensures [s[0]] + rt == s[..i] + repl + rest
  {
    assert [s[0]] + s[1..][..i - 1] == s[..i];
  }

  // ---------------------------------------------------------------------------
  // Searching from the right, as greedy regular-expression groups do

  /** The last index `i` with `lo <= i` and `i + |pat| <= hi` at which `pat` occurs. */
  function LastOccurrence(s: string, pat: string, lo: nat, hi: nat): (r: Option<nat>)
    requires hi <= |s|
    ensures r.Some? ==> lo <= r.value && r.value + |pat| <= hi && OccursAt(s, pat, r.value)
    ensures r.Some? ==> forall j :: r.value < j && j + |pat| <= hi ==> !OccursAt(s, pat, j)
    ensures r.None? ==> forall j :: lo <= j && j + |pat| <= hi ==> !OccursAt(s, pat, j)
    decreases hi
  {
    if hi < lo + |pat| then None
    else if OccursAt(s, pat, hi - |pat|) then Some(hi - |pat|)
    else
      assert pat != [] by { assert s[hi..hi] == []; }
      LastOccurrence(s, pat, lo, hi - 1)
  }

  lemma OccursAtChar(s: string, c: char, i: int)
    ensures OccursAt(s, [c], i) <==> 0 <= i < |s| && s[i] == c
  {
    if 0 <= i < |s| && s[i] == c {
      assert s[i..i + 1] == [c];
    }
  }

  /** Searching a line with its terminator finds what searching the line finds,
      for a pattern without `\n`: no occurrence can take in the terminator. */
  lemma LastOccurrenceNewline(l: string, pat: string, lo: nat, hi: nat)
    requires hi <= |l| + 1 && pat != [] && '\n' !in pat
    ensures LastOccurrence(l + "\n", pat, lo, hi) == LastOccurrence(l, pat, lo, if hi <= |l| then hi else |l|)
  {
    if hi <= |l| {
      LastOccurrenceBefore(l, "\n", pat, lo, hi);
    } else if lo + |pat| <= hi {
      TerminatorNotMatched(l, pat, lo);
      LastOccurrenceBefore(l, "\n", pat, lo, |l|);
    }
  }

  /** Below `hi`, what follows `s` does not matter to the search. */
  lemma {:induction false} LastOccurrenceBefore(s: string, x: string, pat: string, lo: nat, hi: nat)
    requires hi <= |s|
    ensures LastOccurrence(s + x, pat, lo, hi) == LastOccurrence(s, pat, lo, hi)
    decreases hi
  {
    if lo + |pat| <= hi {
      assert (s + x)[hi - |pat|..hi] == s[hi - |pat|..hi];
      if !OccursAt(s, pat, hi - |pat|) {
        LastOccurrenceBefore(s, x, pat, lo, hi - 1);
      }
    }
  }

  /** Below `hi`, two strings that agree up to `hi` give the same search. */
  lemma {:induction false} LastOccurrencePrefix(s: string, s': string, pat: string, lo: nat, hi: nat)
    requires hi <= |s| && hi <= |s'| && s[..hi] == s'[..hi]
    ensures LastOccurrence(s, pat, lo, hi) == LastOccurrence(s', pat, lo, hi)
    decreases hi
  {
    if lo + |pat| <= hi {
      assert s[hi - |pat|..hi] == s[..hi][hi - |pat|..] == s'[hi - |pat|..hi];
      if !OccursAt(s, pat, hi - |pat|) {
        assert s[..hi - 1] == s'[..hi - 1] by {
          assert s[..hi - 1] == s[..hi][..hi - 1];
          assert s'[..hi - 1] == s'[..hi][..hi - 1];
        }
        LastOccurrencePrefix(s, s', pat, lo, hi - 1);
      }
    }
  }

  /** The occurrence that would end at the terminator is not one. */
  lemma TerminatorNotMatched(l: string, pat: string, lo: nat)
    requires pat != [] && '\n' !in pat && lo + |pat| <= |l| + 1
    ensures LastOccurrence(l + "\n", pat, lo, |l| + 1) == LastOccurrence(l + "\n", pat, lo, |l|)
  {
    var l' := l + "\n";
    assert !OccursAt(l', pat, |l| + 1 - |pat|) by {
      assert l'[|l| + 1 - |pat|..|l| + 1][|pat| - 1] == '\n';
    }
  }

  // ---------------------------------------------------------------------------
  // Runs of spaces and digits, and decimal numerals

  /** How many spaces begin `s`: the extent of the regular expression ` *`. */
  function SpaceRun(s: string): (n: nat)
    ensures n <= |s|
    ensures forall i :: 0 <= i < n ==> s[i] == ' '
    ensures n == |s| || s[n] != ' '
  {
    if s != [] && s[0] == ' ' then 1 + SpaceRun(s[1..]) else 0
  }

  /** How many digits begin `s`: the extent of the regular expression `[0-9]*`. */
  function DigitRun(s: string): (n: nat)
    ensures n <= |s|
    ensures AllDigits(s[..n])
    ensures n == |s| || !IsDigit(s[n])
  {
    if s != [] && IsDigit(s[0]) then
      var n := 1 + DigitRun(s[1..]);
      assert s[..n] == [s[0]] + s[1..][..n - 1];
      n
    else 0
  }

  /** A line terminator ends both runs: neither ` *` nor `[0-9]*` takes `\n`. */
  lemma RunsStopAtNewline(s: string)
    ensures SpaceRun(s + "\n") == SpaceRun(s)
    ensures DigitRun(s + "\n") == DigitRun(s)
  {
    var s' := s + "\n";
    assert forall i :: 0 <= i < |s| ==> s'[i] == s[i];
    assert s'[|s|] == '\n';
  }

  function DigitValue(c: char): nat
    requires IsDigit(c)
  {
    c as int - '0' as int
  }

  /** Python's `int(ds)` for a string of decimal digits (leading zeros allowed). */
  function DigitsValue(ds: string): nat
    requires AllDigits(ds)
  {
    if ds == [] then 0
    else DigitsValue(ds[..|ds| - 1]) * 10 + DigitValue(ds[|ds| - 1])
  }

  function DigitChar(d: nat): (c: char)
    requires d < 10
    ensures IsDigit(c) && DigitValue(c) == d
  {
    ('0' as int + d) as char
  }

  /** The decimal numeral of `n`, without leading zeros. */
  function Decimal(n: nat): (s: string)
    ensures s != [] && AllDigits(s)
    ensures DigitsValue(s) == n
  {
    if n < 10 then
      var s := [DigitChar(n)];
      assert s[..0] == [];
      s
    else
      var s := Decimal(n / 10) + [DigitChar(n % 10)];
      assert s[..|s| - 1] == Decimal(n / 10);
      s
  }
}
