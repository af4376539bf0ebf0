/** Hand-written scanners for the fixed regular expressions of
    `extract_customer_info`, with Python's `re.findall` on top: matches are sought
    left to right, a match resumes the scan at its end, and a pattern with a capture
    group yields the group's text.

    Every pattern here is deterministic: each quantifier is greedy, and shortening any
    of its runs would leave a character of the wrong class in front of what comes next,
    so backtracking can never produce a different match. Each scanner therefore takes
    maximal runs. */
module Patterns {
  import opened Wrappers
  import opened Text

  /** A match: where it ends, and the text `findall` reports for it. */
  datatype Match = Match(end: nat, group: string)

  datatype Pattern =
    | Mobile07        // 07\d{8}
    | Intl2547        // \+2547\d{8}
    | Local0          // 0\d{9}
    | KshTitle        // Ksh\s*(\d+(?:,\d+)*)
    | KshLower        // ksh\s*(\d+(?:,\d+)*)
    | Dollar          // \$\s*(\d+(?:,\d+)*(?:\.\d+)?)
    | Shillings       // (\d+(?:,\d+)*)\s*(?:ksh|shillings)
    | SlashDate       // \d{1,2}/\d{1,2}/\d{4}
    | DashDate        // \d{1,2}-\d{1,2}-\d{4}
    | MonthNameDate   // \d{1,2}\s+(?:Jan|Feb|...|Dec)[a-z]*\s+\d{4}

  const Months: set<string> := {"Jan", "Feb", "Mar", "Apr", "May", "Jun", "Jul", "Aug", "Sep", "Oct", "Nov", "Dec"}

  datatype CharClass = Digit | Space | LowerLetter

  predicate InClass(cls: CharClass, c: char)
  {
    match cls
    case Digit => IsDigit(c)
    case Space => IsSpace(c)
    case LowerLetter => IsLowerLetter(c)
  }

  predicate AllIn(cls: CharClass, s: string) { forall k :: 0 <= k < |s| ==> InClass(cls, s[k]) }

  /** The end of the longest run of `cls` characters starting at `i`. */
  function RunEnd(s: string, i: nat, cls: CharClass): (j: nat)
    requires i <= |s|
    ensures i <= j <= |s|
    decreases |s| - i
  {
    if i < |s| && InClass(cls, s[i]) then RunEnd(s, i + 1, cls) else i
  }

  /** `RunEnd` ends a run: everything before it is of class `cls`, and the character
      at it, if any, is not. */
  lemma {:induction false} RunEndIsRun(s: string, i: nat, cls: CharClass)
    requires i <= |s|
    ensures forall k :: i <= k < RunEnd(s, i, cls) ==> InClass(cls, s[k])
    ensures RunEnd(s, i, cls) == |s| || !InClass(cls, s[RunEnd(s, i, cls)])
    decreases |s| - i
  {
    if i < |s| && InClass(cls, s[i]) {
      RunEndIsRun(s, i + 1, cls);
    }
  }

  /** Every stretch that starts the run `RunEnd` finds is of class `cls`. */
  lemma RunEndWithin(s: string, i: nat, cls: CharClass, e: nat)
    requires i <= |s| && i <= e <= RunEnd(s, i, cls)
    ensures AllIn(cls, s[i..e])
  {
    RunEndIsRun(s, i, cls);
  }

  /** A stretch of class `cls` from `i` lies within the run `RunEnd` finds. */
  lemma RunEndCovers(s: string, i: nat, cls: CharClass, e: nat)
    requires i <= e <= |s|
    ensures AllIn(cls, s[i..e]) ==> e <= RunEnd(s, i, cls)
  {
    RunEndIsRun(s, i, cls);
    var j := RunEnd(s, i, cls);
    if j < e {
      assert s[i..e][j - i] == s[j];
    }
  }

  function Min(a: int, b: int): int { if a <= b then a else b }

  // ---------------------------------------------------------------- languages

  /** Text of the form `prefix` followed by exactly `count` digits. */
  predicate PrefixedDigits(x: string, prefix: string, count: nat)
  {
    |x| == |prefix| + count && x[..|prefix|] == prefix && AllDigits(x[|prefix|..])
  }

  /** The language of `\d+(?:,\d+)*`: digits in comma-separated groups. */
  predicate IsGrouped(x: string)
  {
    && |x| > 0 && IsDigit(x[0]) && IsDigit(x[|x| - 1])
    && (forall k :: 0 <= k < |x| ==> IsDigit(x[k]) || x[k] == ',')
    && (forall k :: 0 <= k < |x| - 1 && x[k] == ',' ==> IsDigit(x[k + 1]))
  }

  /** The language of `\d+(?:,\d+)*(?:\.\d+)?`: a grouped number, optionally with a
      fractional part. */
  ghost predicate IsAmount(x: string)
  {
    IsGrouped(x) || exists p :: FractionAt(x, p)
  }

  /** `x` splits as a grouped number, a point at `p`, and at least one digit. */
  predicate FractionAt(x: string, p: int)
  {
    0 < p < |x| - 1 && x[p] == '.' && IsGrouped(x[..p]) && AllDigits(x[p + 1..])
  }

  /** `x` splits as 1-2 digits, `sep` at `p`, 1-2 digits, `sep` at `q`, 4 digits. */
  predicate NumericDateAt(x: string, sep: char, p: int, q: int)
  {
    && 1 <= p <= 2 && p + 2 <= q <= p + 3 && q + 5 == |x|
    && x[p] == sep && x[q] == sep
    && AllDigits(x[..p]) && AllDigits(x[p + 1..q]) && AllDigits(x[q + 1..])
  }

  /** The language of `\d{1,2}S\d{1,2}S\d{4}` for the separator `S`. */
  ghost predicate IsNumericDate(x: string, sep: char)
  {
    exists p, q :: NumericDateAt(x, sep, p, q)
  }

  /** `x` splits as 1-2 digits (up to `p`), white space (up to `w`), a month
      abbreviation, lower-case letters (up to `l`), white space, and 4 digits. */
  predicate MonthDateAt(x: string, p: int, w: int, l: int)
  {
    && 1 <= p <= 2 && p < w && w + 3 <= l < |x| - 4
    && AllDigits(x[..p]) && AllIn(Space, x[p..w]) && x[w..w + 3] in Months
    && AllIn(LowerLetter, x[w + 3..l]) && AllIn(Space, x[l..|x| - 4])
    && AllDigits(x[|x| - 4..])
  }

  /** The language of `\d{1,2}\s+(?:Jan|...|Dec)[a-z]*\s+\d{4}`. */
  ghost predicate IsMonthDate(x: string)
  {
    exists p, w, l :: MonthDateAt(x, p, w, l)
  }

  /** What `findall` may report for each pattern. */
  ghost predicate InLanguage(p: Pattern, x: string)
  {
    match p
    case Mobile07 => PrefixedDigits(x, "07", 8)
    case Intl2547 => PrefixedDigits(x, "+2547", 8)
    case Local0 => PrefixedDigits(x, "0", 9)
    case KshTitle => IsGrouped(x)
    case KshLower => IsGrouped(x)
    case Dollar => IsAmount(x)
    case Shillings => IsGrouped(x)
    case SlashDate => IsNumericDate(x, '/')
    case DashDate => IsNumericDate(x, '-')
    case MonthNameDate => IsMonthDate(x)
  }

  // ---------------------------------------------------------------- number runs

  /** The grouped number cannot go on at `j`: the text ends, or the next character is
      neither a digit nor a comma followed by a digit. */
  predicate GroupedStops(s: string, j: nat)
  {
    j == |s| || (j < |s| && !IsDigit(s[j]) && !(s[j] == ',' && j + 1 < |s| && IsDigit(s[j + 1])))
  }

  /** The end of the greedy match of `\d+(?:,\d+)*` at `i`. */
  function GroupedEnd(s: string, i: nat): (j: nat)
    requires i < |s| && IsDigit(s[i])
    ensures i < j <= |s| && IsGrouped(s[i..j])
    ensures GroupedStops(s, j)
    decreases |s| - i
  {
    var d := RunEnd(s, i, Digit);
    RunEndIsRun(s, i, Digit);
    if d + 1 < |s| && s[d] == ',' && IsDigit(s[d + 1]) then
      var j := GroupedEnd(s, d + 1);
      GroupedJoin(s, i, d, j);
      j
    else
      assert forall k :: 0 <= k < d - i ==> s[i..d][k] == s[i + k];
      d
  }

  /** Digits, a comma and a grouped number make a grouped number. */
  lemma GroupedJoin(s: string, i: nat, d: nat, j: nat)
    requires i < d < j <= |s| && s[d] == ','
    requires forall k :: i <= k < d ==> IsDigit(s[k])
    requires IsGrouped(s[d + 1..j])
    ensures IsGrouped(s[i..j])
  {
    var x, y := s[i..j], s[d + 1..j];
    assert forall k :: d - i < k < |x| ==> x[k] == y[k - (d - i) - 1];
    assert x[d - i] == ',';
    assert x[|x| - 1] == y[|y| - 1];
    assert y[0] == s[d + 1];
  }

  /** The end of the greedy match of `\d+(?:,\d+)*(?:\.\d+)?` at `i`. */
  function AmountEnd(s: string, i: nat): (j: nat)
    requires i < |s| && IsDigit(s[i])
    ensures i < j <= |s| && IsAmount(s[i..j])
  {
    var g := GroupedEnd(s, i);
    if g + 1 < |s| && s[g] == '.' && IsDigit(s[g + 1]) then
      var j := RunEnd(s, g + 1, Digit);
      RunEndIsRun(s, g + 1, Digit);
      assert s[i..j][..g - i] == s[i..g];
      assert s[i..j][g - i + 1..] == s[g + 1..j];
      assert FractionAt(s[i..j], g - i);
      j
    else
      g
  }

  /** A run that is all of class `cls` and stops at a character outside it (or at the
      end) is the run `RunEnd` finds. */
  lemma RunEndAt(s: string, i: nat, cls: CharClass, e: nat)
    requires i <= e <= |s|
    requires forall k :: i <= k < e ==> InClass(cls, s[k])
    requires e == |s| || !InClass(cls, s[e])
    ensures RunEnd(s, i, cls) == e
    decreases e - i
  {
    if i < e {
      RunEndAt(s, i + 1, cls, e);
    }
  }

  /** `s[j..e]` is a grouped number and no longer text from `j` is one. */
  ghost predicate LongestGrouped(s: string, j: nat, e: nat)
  {
    j < e <= |s| && IsGrouped(s[j..e]) && forall k :: e < k <= |s| ==> !IsGrouped(s[j..k])
  }

  /** `s[j..e]` is an amount and no longer text from `j` is one. */
  ghost predicate LongestAmount(s: string, j: nat, e: nat)
  {
    j < e <= |s| && IsAmount(s[j..e]) && forall k :: e < k <= |s| ==> !IsAmount(s[j..k])
  }

  /** `GroupedEnd` is the greedy match: the longest grouped number at `i`. */
  lemma GroupedEndLongest(s: string, i: nat)
    requires i < |s| && IsDigit(s[i])
    ensures LongestGrouped(s, i, GroupedEnd(s, i))
  {
    var g := GroupedEnd(s, i);
    NotGroupedBeyond(s, i, g);
  }

  /** A grouped number followed by neither a digit nor a comma and a digit cannot be
      extended. */
  lemma NotGroupedBeyond(s: string, i: nat, g: nat)
    requires i < g <= |s| && IsGrouped(s[i..g]) && GroupedStops(s, g)
    ensures LongestGrouped(s, i, g)
  {
    forall k | g < k <= |s| ensures !IsGrouped(s[i..k]) {
      NotGroupedPast(s, i, g, k);
    }
  }

  /** Each character of a grouped number is a digit, or a comma followed by a digit. */
  lemma GroupedAt(x: string, m: nat)
    requires IsGrouped(x) && m < |x|
    ensures IsDigit(x[m]) || (x[m] == ',' && m + 1 < |x| && IsDigit(x[m + 1]))
  {
  }

  lemma NotGroupedPast(s: string, i: nat, g: nat, k: nat)
    requires i < g < k <= |s| && GroupedStops(s, g)
    ensures !IsGrouped(s[i..k])
  {
    var x := s[i..k];
    if IsGrouped(x) {
      GroupedAt(x, g - i);
    }
  }

  /** A grouped number, a point and digits never reach past the greedy amount. */
  lemma FractionWithinAmount(s: string, i: nat, k: nat, d: nat)
    requires i < |s| && IsDigit(s[i])
    requires k <= |s| && i < d < k - 1
    requires s[d] == '.' && IsGrouped(s[i..d])
    requires forall m :: d < m < k ==> IsDigit(s[m])
    ensures k <= AmountEnd(s, i)
  {
    var g := GroupedEnd(s, i);
    if d < g {
      GroupedAt(s[i..g], d - i);
    } else if d > g {
      NotGroupedPast(s, i, g, d);
    } else {
      RunEndIsRun(s, d + 1, Digit);
    }
  }

  /** No text from `i` longer than the greedy amount is an amount. */
  lemma NoAmountPast(s: string, i: nat, k: nat)
    requires i < |s| && IsDigit(s[i])
    requires AmountEnd(s, i) < k <= |s|
    ensures !IsAmount(s[i..k])
  {
    var g := GroupedEnd(s, i);
    var x := s[i..k];
    if IsGrouped(x) {
      NotGroupedPast(s, i, g, k);
    } else if IsAmount(x) {
      var p :| FractionAt(x, p);
      assert x[..p] == s[i..i + p];
      forall m | i + p < m < k ensures IsDigit(s[m]) {
        assert x[p + 1..][m - i - p - 1] == s[m];
      }
      FractionWithinAmount(s, i, k, i + p);
    }
  }

  /** `AmountEnd` is the greedy match: the longest amount at `i`. */
  lemma AmountEndLongest(s: string, i: nat)
    requires i < |s| && IsDigit(s[i])
    ensures LongestAmount(s, i, AmountEnd(s, i))
  {
    forall k | AmountEnd(s, i) < k <= |s| ensures !IsAmount(s[i..k]) {
      NoAmountPast(s, i, k);
    }
  }

  // ---------------------------------------------------------------- matchers

  lemma SliceOfSlice(s: string, i: nat, e: nat, a: nat, b: nat)
    requires i <= e <= |s| && a <= b <= e - i
    ensures s[i..e][a..b] == s[i + a..i + b]
  {
    assert forall k :: 0 <= k < b - a ==> s[i..e][a..b][k] == s[i + a + k];
  }

  lemma NumericDateWitness(s: string, i: nat, a: nat, b: nat, sep: char)
    requires i < a && a + 1 < b && b + 5 <= |s| && a <= i + 2 && b <= a + 3
    requires s[a] == sep && s[b] == sep
    requires AllDigits(s[i..a]) && AllDigits(s[a + 1..b]) && AllDigits(s[b + 1..b + 5])
    ensures IsNumericDate(s[i..b + 5], sep)
  {
    var x := s[i..b + 5];
    SliceOfSlice(s, i, b + 5, 0, a - i);
    SliceOfSlice(s, i, b + 5, a - i + 1, b - i);
    SliceOfSlice(s, i, b + 5, b - i + 1, b - i + 5);
    assert x[b - i + 1..] == x[b - i + 1..b - i + 5];
    assert NumericDateAt(x, sep, a - i, b - i);
  }

  lemma MonthDateWitness(s: string, i: nat, a: nat, w: nat, l: nat, w2: nat)
    requires i < a <= i + 2 && a < w && w + 3 <= l < w2 && w2 + 4 <= |s|
    requires AllDigits(s[i..a]) && AllIn(Space, s[a..w]) && s[w..w + 3] in Months
    requires AllIn(LowerLetter, s[w + 3..l]) && AllIn(Space, s[l..w2]) && AllDigits(s[w2..w2 + 4])
    ensures IsMonthDate(s[i..w2 + 4])
  {
    var x := s[i..w2 + 4];
    SliceOfSlice(s, i, w2 + 4, 0, a - i);
    SliceOfSlice(s, i, w2 + 4, a - i, w - i);
    SliceOfSlice(s, i, w2 + 4, w - i, w - i + 3);
    SliceOfSlice(s, i, w2 + 4, w - i + 3, l - i);
    SliceOfSlice(s, i, w2 + 4, l - i, w2 - i);
    SliceOfSlice(s, i, w2 + 4, w2 - i, w2 - i + 4);
    assert x[|x| - 4..] == x[w2 - i..w2 - i + 4];
    assert MonthDateAt(x, a - i, w - i, l - i);
  }

  /** A fixed prefix followed by exactly `count` digits, as in `07\d{8}`. */
  function MatchPrefixedDigits(s: string, i: nat, prefix: string, count: nat): (r: Option<Match>)
    requires i <= |s|
    ensures r.Some? <==> i + |prefix| + count <= |s| && PrefixedDigits(s[i..i + |prefix| + count], prefix, count)
    ensures r.Some? ==> r.value.end == i + |prefix| + count && r.value.group == s[i..r.value.end]
  {
    var e := i + |prefix| + count;
    if e <= |s| then
      SliceOfSlice(s, i, e, 0, |prefix|);
      SliceOfSlice(s, i, e, |prefix|, e - i);
      RunEndCovers(s, i + |prefix|, Digit, e);
      if s[i..i + |prefix|] == prefix && RunEnd(s, i + |prefix|, Digit) >= e then
        RunEndWithin(s, i + |prefix|, Digit, e);
        Some(Match(e, s[i..e]))
      else
        None
    else
      None
  }

  /** A currency marker, optional white space, then the number as the group:
      `Ksh\s*(...)`, `ksh\s*(...)` and, with a fractional part, `\$\s*(...)`. */
  function MatchMarkerThenNumber(s: string, i: nat, marker: string, fraction: bool): (r: Option<Match>)
    requires i <= |s|
    ensures r.Some? ==> i + |marker| <= |s| && s[i..i + |marker|] == marker
    ensures r.Some? ==> i < r.value.end <= |s|
    ensures r.Some? ==> if fraction then IsAmount(r.value.group) else IsGrouped(r.value.group)
  {
    if i + |marker| <= |s| && s[i..i + |marker|] == marker then
      var j := RunEnd(s, i + |marker|, Space);
      if j < |s| && IsDigit(s[j]) then
        var e := if fraction then AmountEnd(s, j) else GroupedEnd(s, j);
        Some(Match(e, s[j..e]))
      else
        None
    else
      None
  }

  /** `(\d+(?:,\d+)*)\s*(?:ksh|shillings)`: the number is the group. */
  function MatchNumberThenShillings(s: string, i: nat): (r: Option<Match>)
    requires i <= |s|
    ensures r.Some? ==> i < r.value.end <= |s| && IsGrouped(r.value.group)
    ensures r.Some? ==> (3 <= r.value.end && OccursAt(s, "ksh", r.value.end - 3))
                        || (9 <= r.value.end && OccursAt(s, "shillings", r.value.end - 9))
  {
    if i < |s| && IsDigit(s[i]) then
      var g := GroupedEnd(s, i);
      var w := RunEnd(s, g, Space);
      if w + 3 <= |s| && s[w..w + 3] == "ksh" then Some(Match(w + 3, s[i..g]))
      else if w + 9 <= |s| && s[w..w + 9] == "shillings" then Some(Match(w + 9, s[i..g]))
      else None
    else
      None
  }

  /** The greedy `\d{1,2}` at `i`: up to two digits. */
  function ShortNumberEnd(s: string, i: nat): (j: nat)
    requires i < |s| && IsDigit(s[i])
    ensures i < j <= i + 2 && j <= |s| && AllDigits(s[i..j])
    ensures j == i + 2 || j == |s| || !IsDigit(s[j])
  {
    var j := Min(RunEnd(s, i, Digit), i + 2);
    RunEndWithin(s, i, Digit, j);
    j
  }

  /** `\d{1,2}S\d{1,2}S\d{4}` for the separator `S`. */
  function MatchNumericDate(s: string, i: nat, sep: char): (r: Option<Match>)
    requires i <= |s|
    ensures r.Some? ==> r.value.end <= |s| && i < r.value.end && r.value.group == s[i..r.value.end]
    ensures r.Some? ==> IsNumericDate(r.value.group, sep)
  {
    if i < |s| && IsDigit(s[i]) then
      var a := ShortNumberEnd(s, i);
      if a + 1 < |s| && s[a] == sep && IsDigit(s[a + 1]) then
        var b := ShortNumberEnd(s, a + 1);
        if b < |s| && s[b] == sep && RunEnd(s, b + 1, Digit) >= b + 5 then
          RunEndWithin(s, b + 1, Digit, b + 5);
          NumericDateWitness(s, i, a, b, sep);
          Some(Match(b + 5, s[i..b + 5]))
        else
          None
      else
        None
    else
      None
  }

  /** `\d{1,2}\s+(?:Jan|...|Dec)[a-z]*\s+\d{4}`. That what it reports is such a
      date is `MatchMonthDateSound`. */
  function MatchMonthDate(s: string, i: nat): (r: Option<Match>)
    requires i <= |s|
    ensures r.Some? ==> r.value.end <= |s| && i + 8 < r.value.end && r.value.group == s[i..r.value.end]
  {
    if i < |s| && IsDigit(s[i]) then
      var a := ShortNumberEnd(s, i);
      var w := RunEnd(s, a, Space);
      if w > a && w + 3 <= |s| && s[w..w + 3] in Months then
        var l := RunEnd(s, w + 3, LowerLetter);
        var w2 := RunEnd(s, l, Space);
        if w2 > l && RunEnd(s, w2, Digit) >= w2 + 4 then Some(Match(w2 + 4, s[i..w2 + 4])) else None
      else
        None
    else
      None
  }

  // ---------------------------------------------------------------- completeness

  /** The text at `i` fits `marker\s*(number)`: the marker, white space up to `j`, and
      a grouped number (an amount when `fraction`) from `j` to `e`. */
  ghost predicate MarkedNumberFits(s: string, i: nat, marker: string, fraction: bool, j: nat, e: nat)
  {
    && i + |marker| <= j < e <= |s| && s[i..i + |marker|] == marker && AllIn(Space, s[i + |marker|..j])
    && (if fraction then IsAmount(s[j..e]) else IsGrouped(s[j..e]))
  }

  lemma AmountStartsWithDigit(x: string)
    requires IsAmount(x)
    ensures |x| > 0 && IsDigit(x[0])
  {
    if !IsGrouped(x) {
      var p :| FractionAt(x, p);
      assert x[..p][0] == x[0];
    }
  }

  lemma MatchMarkerThenNumberSound(s: string, i: nat, marker: string, fraction: bool)
    requires i <= |s| && MatchMarkerThenNumber(s, i, marker, fraction).Some?
    ensures var r := MatchMarkerThenNumber(s, i, marker, fraction);
            var j := RunEnd(s, i + |marker|, Space);
            && MarkedNumberFits(s, i, marker, fraction, j, r.value.end)
            && r.value.group == s[j..r.value.end]
            && (if fraction then LongestAmount(s, j, r.value.end) else LongestGrouped(s, j, r.value.end))
  {
    var j := RunEnd(s, i + |marker|, Space);
    RunEndWithin(s, i + |marker|, Space, j);
    if fraction { AmountEndLongest(s, j); } else { GroupedEndLongest(s, j); }
  }

  lemma MatchMarkerThenNumberComplete(s: string, i: nat, marker: string, fraction: bool, j: nat, e: nat)
    requires MarkedNumberFits(s, i, marker, fraction, j, e)
    ensures MatchMarkerThenNumber(s, i, marker, fraction).Some?
  {
    if fraction { AmountStartsWithDigit(s[j..e]); }
    assert s[j..e][0] == s[j];
    assert forall k :: i + |marker| <= k < j ==> s[i + |marker|..j][k - i - |marker|] == s[k];
    RunEndAt(s, i + |marker|, Space, j);
  }

  /** `MatchMarkerThenNumber` finds a match exactly when the text at `i` fits the
      pattern, and reports the longest number after the marker and its white space. */
  lemma MatchMarkerThenNumberSpec(s: string, i: nat, marker: string, fraction: bool)
    requires i <= |s|
    ensures MatchMarkerThenNumber(s, i, marker, fraction).Some? <==>
              exists j: nat, e: nat :: MarkedNumberFits(s, i, marker, fraction, j, e)
    ensures var r := MatchMarkerThenNumber(s, i, marker, fraction);
            r.Some? ==>
              var j := RunEnd(s, i + |marker|, Space);
              && r.value.group == s[j..r.value.end]
              && (if fraction then LongestAmount(s, j, r.value.end) else LongestGrouped(s, j, r.value.end))
  {
    if MatchMarkerThenNumber(s, i, marker, fraction).Some? {
      MatchMarkerThenNumberSound(s, i, marker, fraction);
    }
    if exists j: nat, e: nat :: MarkedNumberFits(s, i, marker, fraction, j, e) {
      var j: nat, e: nat :| MarkedNumberFits(s, i, marker, fraction, j, e);
      MatchMarkerThenNumberComplete(s, i, marker, fraction, j, e);
    }
  }

  /** The text at `i` fits `(number)\s*(?:ksh|shillings)`: a grouped number up to `g`,
      white space up to `w`, then "ksh" or "shillings". */
  ghost predicate ShillingsFits(s: string, i: nat, g: nat, w: nat)
  {
    && i < g <= w <= |s| && IsGrouped(s[i..g]) && AllIn(Space, s[g..w])
    && (OccursAt(s, "ksh", w) || OccursAt(s, "shillings", w))
  }

  /** A grouped number followed by neither a digit nor a comma is the greedy one. */
  lemma GroupedEndAt(s: string, i: nat, g: nat)
    requires i < g <= |s| && IsGrouped(s[i..g])
    requires g == |s| || (!IsDigit(s[g]) && s[g] != ',')
    ensures IsDigit(s[i]) && GroupedEnd(s, i) == g
  {
    assert s[i..g][0] == s[i];
    var G := GroupedEnd(s, i);
    if g > G {
      NotGroupedPast(s, i, G, g);
    } else if g < G {
      GroupedAt(s[i..G], g - i);
    }
  }

  /** In a fitting split the number is the greedy one and the white space the maximal
      run after it. */
  lemma ShillingsSplitIsGreedy(s: string, i: nat, g: nat, w: nat)
    requires ShillingsFits(s, i, g, w)
    ensures IsDigit(s[i]) && g == GroupedEnd(s, i) && w == RunEnd(s, g, Space)
  {
    assert !IsSpace(s[w]) && !IsDigit(s[w]) && s[w] != ',' by {
      if OccursAt(s, "ksh", w) { assert s[w..w + 3][0] == s[w]; }
      else { assert s[w..w + 9][0] == s[w]; }
    }
    if g < w {
      assert s[g..w][0] == s[g];
    }
    GroupedEndAt(s, i, g);
    assert forall k :: g <= k < w ==> s[g..w][k - g] == s[k];
    RunEndAt(s, g, Space, w);
  }

  /** The match ends right after the word at `w`: "ksh" when it is there, and
      otherwise "shillings". */
  predicate ShillingsEnd(s: string, w: nat, end: nat)
  {
    || (OccursAt(s, "ksh", w) && end == w + 3)
    || (!OccursAt(s, "ksh", w) && OccursAt(s, "shillings", w) && end == w + 9)
  }

  lemma MatchNumberThenShillingsSound(s: string, i: nat)
    requires i <= |s| && MatchNumberThenShillings(s, i).Some?
    ensures ShillingsFits(s, i, GroupedEnd(s, i), RunEnd(s, GroupedEnd(s, i), Space))
    ensures LongestGrouped(s, i, GroupedEnd(s, i))
    ensures MatchNumberThenShillings(s, i).value.group == s[i..GroupedEnd(s, i)]
    ensures ShillingsEnd(s, RunEnd(s, GroupedEnd(s, i), Space), MatchNumberThenShillings(s, i).value.end)
  {
    var g := GroupedEnd(s, i);
    var w := RunEnd(s, g, Space);
    RunEndIsRun(s, g, Space);
    GroupedEndLongest(s, i);
    assert forall k :: g <= k < w ==> s[g..w][k - g] == s[k];
  }

  lemma MatchNumberThenShillingsComplete(s: string, i: nat, g: nat, w: nat)
    requires ShillingsFits(s, i, g, w)
    ensures MatchNumberThenShillings(s, i).Some?
  {
    ShillingsSplitIsGreedy(s, i, g, w);
  }

  /** `MatchNumberThenShillings` finds a match exactly when the text at `i` fits the
      pattern, and reports the longest number there. */
  lemma MatchNumberThenShillingsSpec(s: string, i: nat)
    requires i <= |s|
    ensures MatchNumberThenShillings(s, i).Some? <==> exists g: nat, w: nat :: ShillingsFits(s, i, g, w)
    ensures var r := MatchNumberThenShillings(s, i);
            r.Some? ==> var g := i + |r.value.group|; g <= |s| && r.value.group == s[i..g] && LongestGrouped(s, i, g)
    ensures var r := MatchNumberThenShillings(s, i);
            r.Some? ==> var g := i + |r.value.group|; g <= |s| && ShillingsEnd(s, RunEnd(s, g, Space), r.value.end)
  {
    if MatchNumberThenShillings(s, i).Some? {
      MatchNumberThenShillingsSound(s, i);
    }
    if exists g: nat, w: nat :: ShillingsFits(s, i, g, w) {
      var g: nat, w: nat :| ShillingsFits(s, i, g, w);
      MatchNumberThenShillingsComplete(s, i, g, w);
    }
  }

  /** What a numeric date at `s[i..e]` says about the characters of `s`. */
  lemma NumericDateChars(s: string, i: nat, e: nat, sep: char, p: int, q: int)
    requires i <= e <= |s| && NumericDateAt(s[i..e], sep, p, q)
    ensures forall m :: i <= m < i + p ==> IsDigit(s[m])
    ensures s[i + p] == sep && s[i + q] == sep
    ensures forall m :: i + p < m < i + q ==> IsDigit(s[m])
    ensures e == i + q + 5 && forall m :: i + q < m < e ==> IsDigit(s[m])
  {
    var x := s[i..e];
    assert forall m :: i <= m < i + p ==> x[..p][m - i] == s[m];
    assert forall m :: i + p < m < i + q ==> x[p + 1..q][m - i - p - 1] == s[m];
    assert forall m :: i + q < m < e ==> x[q + 1..][m - i - q - 1] == s[m];
  }

  /** The numeric-date scanner's runs from `i` end at `a` and `b`, each at `sep`, and
      four digits follow up to `e`. */
  predicate ScannedNumericDate(s: string, i: nat, sep: char, a: nat, b: nat, e: nat)
  {
    && i < a && a + 1 < b && b + 5 == e <= |s|
    && IsDigit(s[i]) && ShortNumberEnd(s, i) == a && s[a] == sep
    && IsDigit(s[a + 1]) && ShortNumberEnd(s, a + 1) == b && s[b] == sep
    && RunEnd(s, b + 1, Digit) >= e
  }

  /** The runs the numeric-date scanner takes end where the date's parts end. */
  lemma NumericDateRuns(s: string, i: nat, e: nat, sep: char, p: int, q: int)
    requires sep == '/' || sep == '-'
    requires i < e <= |s| && NumericDateAt(s[i..e], sep, p, q)
    ensures 1 <= p < q
    ensures ScannedNumericDate(s, i, sep, i + p, i + q, e)
  {
    NumericDateChars(s, i, e, sep, p, q);
    RunEndAt(s, i, Digit, i + p);
    assert ShortNumberEnd(s, i) == i + p;
    RunEndAt(s, i + p + 1, Digit, i + q);
    assert ShortNumberEnd(s, i + p + 1) == i + q;
    RunEndIsRun(s, i + q + 1, Digit);
  }

  /** Where the scanner's runs end determines what `MatchNumericDate` reports. */
  lemma MatchNumericDateFrom(s: string, i: nat, sep: char, a: nat, b: nat, e: nat)
    requires ScannedNumericDate(s, i, sep, a, b, e)
    ensures MatchNumericDate(s, i, sep) == Some(Match(e, s[i..e]))
  {
  }

  /** A numeric date at `i` is the match `MatchNumericDate` reports there; so there is
      at most one, and the scanner finds it. */
  lemma MatchNumericDateComplete(s: string, i: nat, sep: char, e: nat)
    requires sep == '/' || sep == '-'
    requires i < e <= |s| && IsNumericDate(s[i..e], sep)
    ensures MatchNumericDate(s, i, sep) == Some(Match(e, s[i..e]))
  {
    var p, q :| NumericDateAt(s[i..e], sep, p, q);
    NumericDateRuns(s, i, e, sep, p, q);
    MatchNumericDateFrom(s, i, sep, i + p, i + q, e);
  }

  /** `MatchNumericDate` finds a match exactly when a numeric date starts at `i`, and
      that date is the only one starting there. */
  lemma MatchNumericDateSpec(s: string, i: nat, sep: char)
    requires i <= |s| && (sep == '/' || sep == '-')
    ensures MatchNumericDate(s, i, sep).Some? <==> exists e :: i < e <= |s| && IsNumericDate(s[i..e], sep)
    ensures forall e :: i < e <= |s| && IsNumericDate(s[i..e], sep) ==> MatchNumericDate(s, i, sep) == Some(Match(e, s[i..e]))
  {
    forall e | i < e <= |s| && IsNumericDate(s[i..e], sep)
      ensures MatchNumericDate(s, i, sep) == Some(Match(e, s[i..e]))
    {
      MatchNumericDateComplete(s, i, sep, e);
    }
  }

  /** What a month-name date at `s[i..e]` says about the characters of `s`. */
  lemma MonthDateChars(s: string, i: nat, e: nat, p: int, w: int, l: int)
    requires i <= e <= |s| && MonthDateAt(s[i..e], p, w, l)
    ensures forall m :: i <= m < i + p ==> IsDigit(s[m])
    ensures forall m :: i + p <= m < i + w ==> IsSpace(s[m])
    ensures s[i + w..i + w + 3] in Months
    ensures forall m :: i + w + 3 <= m < i + l ==> IsLowerLetter(s[m])
    ensures forall m :: i + l <= m < e - 4 ==> IsSpace(s[m])
    ensures forall m :: e - 4 <= m < e ==> IsDigit(s[m])
  {
    var x := s[i..e];
    assert AllDigits(x[..p]) && AllIn(Space, x[p..w]) && AllIn(LowerLetter, x[w + 3..l]);
    assert AllIn(Space, x[l..|x| - 4]) && AllDigits(x[|x| - 4..]);
    forall m | i <= m < i + p ensures IsDigit(s[m]) {
      assert IsDigit(x[..p][m - i]) && x[..p][m - i] == s[m];
    }
    forall m | i + p <= m < i + w ensures IsSpace(s[m]) {
      assert InClass(Space, x[p..w][m - i - p]) && x[p..w][m - i - p] == s[m];
    }
    SliceOfSlice(s, i, e, w, w + 3);
    forall m | i + w + 3 <= m < i + l ensures IsLowerLetter(s[m]) {
      assert InClass(LowerLetter, x[w + 3..l][m - i - w - 3]) && x[w + 3..l][m - i - w - 3] == s[m];
    }
    forall m | i + l <= m < e - 4 ensures IsSpace(s[m]) {
      assert InClass(Space, x[l..|x| - 4][m - i - l]) && x[l..|x| - 4][m - i - l] == s[m];
    }
    forall m | e - 4 <= m < e ensures IsDigit(s[m]) {
      assert IsDigit(x[|x| - 4..][m - e + 4]) && x[|x| - 4..][m - e + 4] == s[m];
    }
  }

  /** The month-date scanner's runs from `i` end at `a` (the day), `w` (the white
      space), `l` (the month name's letters) and `e - 4` (the white space), and four
      digits follow. */
  predicate ScannedMonthDate(s: string, i: nat, a: nat, w: nat, l: nat, e: nat)
  {
    && i < a <= i + 2 && a < w && w + 3 <= l && l + 4 < e <= |s|
    && IsDigit(s[i]) && ShortNumberEnd(s, i) == a
    && RunEnd(s, a, Space) == w && s[w..w + 3] in Months
    && RunEnd(s, w + 3, LowerLetter) == l && RunEnd(s, l, Space) == e - 4
    && RunEnd(s, e - 4, Digit) >= e
  }

  /** The runs the month-date scanner takes end where the date's parts end. */
  lemma MonthDateRuns(s: string, i: nat, e: nat, p: int, w: int, l: int)
    requires i < e <= |s| && MonthDateAt(s[i..e], p, w, l)
    ensures 1 <= p <= 2 && 1 <= w && 0 <= l
    ensures ScannedMonthDate(s, i, i + p, i + w, i + l, e)
  {
    MonthDateChars(s, i, e, p, w, l);
    RunEndAt(s, i, Digit, i + p);
    assert ShortNumberEnd(s, i) == i + p;
    assert !IsSpace(s[i + w]) by {
      assert s[i + w] == s[i + w..i + w + 3][0];
    }
    RunEndAt(s, i + p, Space, i + w);
    RunEndAt(s, i + w + 3, LowerLetter, i + l);
    RunEndAt(s, i + l, Space, e - 4);
    RunEndIsRun(s, e - 4, Digit);
  }

  /** A month-name date is read by the scanner's runs. */
  lemma MonthDateScan(s: string, i: nat, e: nat) returns (a: nat, w: nat, l: nat)
    requires i < e <= |s| && IsMonthDate(s[i..e])
    ensures ScannedMonthDate(s, i, a, w, l, e)
  {
    var p', w', l' :| MonthDateAt(s[i..e], p', w', l');
    MonthDateRuns(s, i, e, p', w', l');
    a, w, l := i + p', i + w', i + l';
  }

  /** Where the scanner's runs end determines what `MatchMonthDate` reports. */
  lemma MatchMonthDateFrom(s: string, i: nat, a: nat, w: nat, l: nat, e: nat)
    requires ScannedMonthDate(s, i, a, w, l, e)
    ensures MatchMonthDate(s, i) == Some(Match(e, s[i..e]))
  {
  }

  /** Text the scanner's runs read is a month-name date. */
  lemma ScannedIsMonthDate(s: string, i: nat, a: nat, w: nat, l: nat, e: nat)
    requires ScannedMonthDate(s, i, a, w, l, e)
    ensures IsMonthDate(s[i..e])
  {
    RunEndWithin(s, a, Space, w);
    RunEndWithin(s, w + 3, LowerLetter, l);
    RunEndWithin(s, l, Space, e - 4);
    RunEndWithin(s, e - 4, Digit, e);
    MonthDateWitness(s, i, a, w, l, e - 4);
  }

  /** What `MatchMonthDate` reports is a month-name date. */
  lemma MatchMonthDateSound(s: string, i: nat)
    requires i <= |s|
    ensures MatchMonthDate(s, i).Some? ==> IsMonthDate(MatchMonthDate(s, i).value.group)
  {
    if MatchMonthDate(s, i).Some? {
      var a := ShortNumberEnd(s, i);
      var w := RunEnd(s, a, Space);
      var l := RunEnd(s, w + 3, LowerLetter);
      var e := RunEnd(s, l, Space) + 4;
      assert ScannedMonthDate(s, i, a, w, l, e);
      ScannedIsMonthDate(s, i, a, w, l, e);
      MatchMonthDateFrom(s, i, a, w, l, e);
    }
  }

  /** A month-name date at `i` is the match `MatchMonthDate` reports there; so there
      is at most one, and the scanner finds it. */
  lemma MatchMonthDateComplete(s: string, i: nat, e: nat)
    requires i < e <= |s| && IsMonthDate(s[i..e])
    ensures MatchMonthDate(s, i) == Some(Match(e, s[i..e]))
  {
    var a, w, l := MonthDateScan(s, i, e);
    MatchMonthDateFrom(s, i, a, w, l, e);
  }

  /** `MatchMonthDate` finds a match exactly when a month-name date starts at `i`, and
      that date is the only one starting there. */
  lemma MatchMonthDateSpec(s: string, i: nat)
    requires i <= |s|
    ensures MatchMonthDate(s, i).Some? <==> exists e :: i < e <= |s| && IsMonthDate(s[i..e])
    ensures forall e :: i < e <= |s| && IsMonthDate(s[i..e]) ==> MatchMonthDate(s, i) == Some(Match(e, s[i..e]))
  {
    MatchMonthDateSound(s, i);
    forall e | i < e <= |s| && IsMonthDate(s[i..e])
      ensures MatchMonthDate(s, i) == Some(Match(e, s[i..e]))
    {
      MatchMonthDateComplete(s, i, e);
    }
  }

  /** The match of `p` starting exactly at `i`, if any. */
  function MatchAt(p: Pattern, s: string, i: nat): (r: Option<Match>)
    requires i <= |s|
    ensures r.Some? ==> i < r.value.end <= |s| && InLanguage(p, r.value.group)
  {
    match p
    case Mobile07 => MatchPrefixedDigits(s, i, "07", 8)
    case Intl2547 => MatchPrefixedDigits(s, i, "+2547", 8)
    case Local0 => MatchPrefixedDigits(s, i, "0", 9)
    case KshTitle => MatchMarkerThenNumber(s, i, "Ksh", false)
    case KshLower => MatchMarkerThenNumber(s, i, "ksh", false)
    case Dollar => MatchMarkerThenNumber(s, i, "$", true)
    case Shillings => MatchNumberThenShillings(s, i)
    case SlashDate => MatchNumericDate(s, i, '/')
    case DashDate => MatchNumericDate(s, i, '-')
    case MonthNameDate => MatchMonthDateSound(s, i); MatchMonthDate(s, i)
  }

  /** The text at `i` fits pattern `p`: some way of reading the characters from `i`
      on satisfies the regular expression. */
  ghost predicate Fits(p: Pattern, s: string, i: nat)
  {
    match p
    case Mobile07 => i + 10 <= |s| && PrefixedDigits(s[i..i + 10], "07", 8)
    case Intl2547 => i + 13 <= |s| && PrefixedDigits(s[i..i + 13], "+2547", 8)
    case Local0 => i + 10 <= |s| && PrefixedDigits(s[i..i + 10], "0", 9)
    case KshTitle => exists j: nat, e: nat :: MarkedNumberFits(s, i, "Ksh", false, j, e)
    case KshLower => exists j: nat, e: nat :: MarkedNumberFits(s, i, "ksh", false, j, e)
    case Dollar => exists j: nat, e: nat :: MarkedNumberFits(s, i, "$", true, j, e)
    case Shillings => exists g: nat, w: nat :: ShillingsFits(s, i, g, w)
    case SlashDate => exists e :: i < e <= |s| && IsNumericDate(s[i..e], '/')
    case DashDate => exists e :: i < e <= |s| && IsNumericDate(s[i..e], '-')
    case MonthNameDate => exists e :: i < e <= |s| && IsMonthDate(s[i..e])
  }

  /** The scanner for `p` finds a match at `i` exactly when the text there fits `p`. */
  lemma MatchAtSpec(p: Pattern, s: string, i: nat)
    requires i <= |s|
    ensures MatchAt(p, s, i).Some? <==> Fits(p, s, i)
  {
    match p
    case Mobile07 =>
    case Intl2547 =>
    case Local0 =>
    case KshTitle => MatchMarkerThenNumberSpec(s, i, "Ksh", false);
    case KshLower => MatchMarkerThenNumberSpec(s, i, "ksh", false);
    case Dollar => MatchMarkerThenNumberSpec(s, i, "$", true);
    case Shillings => MatchNumberThenShillingsSpec(s, i);
    case SlashDate => MatchNumericDateSpec(s, i, '/');
    case DashDate => MatchNumericDateSpec(s, i, '-');
    case MonthNameDate => MatchMonthDateSpec(s, i);
  }

  // ---------------------------------------------------------------- findall

  /** `re.findall` from index `i` on: try to match at `i`; on a match report it and
      resume at its end, otherwise move one character on. */
  function FindAllFrom(p: Pattern, s: string, i: nat): seq<string>
    requires i <= |s|
    decreases |s| - i
  {
    if i == |s| then []
    else
      match MatchAt(p, s, i)
      case Some(m) => [m.group] + FindAllFrom(p, s, m.end)
      case None => FindAllFrom(p, s, i + 1)
  }

  /** `re.findall(pattern, s)`. */
  function FindAll(p: Pattern, s: string): seq<string>
  {
    FindAllFrom(p, s, 0)
  }

  /** Everything `findall` reports from index `i` on is in the pattern's language. */
  lemma {:induction false} FindAllFromSound(p: Pattern, s: string, i: nat)
    requires i <= |s|
    ensures forall x :: x in FindAllFrom(p, s, i) ==> InLanguage(p, x)
    decreases |s| - i
  {
    if i < |s| {
      match MatchAt(p, s, i)
      case Some(m) => FindAllFromSound(p, s, m.end);
      case None => FindAllFromSound(p, s, i + 1);
    }
  }

  /** `findall` reports nothing from index `i` on exactly when the pattern matches at
      no index from `i` on. */
  lemma {:induction false} FindAllFromEmpty(p: Pattern, s: string, i: nat)
    requires i <= |s|
    ensures FindAllFrom(p, s, i) == [] <==> forall k :: i <= k < |s| ==> MatchAt(p, s, k).None?
    decreases |s| - i
  {
    if i < |s| && MatchAt(p, s, i).None? {
      FindAllFromEmpty(p, s, i + 1);
    }
  }

  lemma FindAllSound(p: Pattern, s: string)
    ensures forall x :: x in FindAll(p, s) ==> InLanguage(p, x)
  {
    FindAllFromSound(p, s, 0);
  }

  lemma FindAllEmpty(p: Pattern, s: string)
    ensures FindAll(p, s) == [] <==> forall k :: 0 <= k < |s| ==> MatchAt(p, s, k).None?
  {
    FindAllFromEmpty(p, s, 0);
  }

  /** The `Ksh` pattern is case-sensitive and is run on `message.lower()`, so it
      never reports anything. */
  lemma TitleKshNeverMatchesLowered(message: string)
    ensures FindAll(KshTitle, Lower(message)) == []
  {
    var s := Lower(message);
    forall k | 0 <= k < |s| ensures MatchAt(KshTitle, s, k).None? {
      if MatchAt(KshTitle, s, k).Some? {
        assert OccursAt(s, "Ksh", k);
        assert IsUpper("Ksh"[0]);
        UpperWordNeverInLowered(message, "Ksh");
      }
    }
    FindAllEmpty(KshTitle, s);
  }

  /** No pattern reports anything on the empty text. */
  lemma FindAllOfEmpty(p: Pattern)
    ensures FindAll(p, []) == []
  {
  }

  /** `findall` reports the leftmost match first: when `k` is the first index from
      `i` on where the pattern matches, the report is that match followed by what the
      scan finds after it. */
  lemma {:induction false} FindAllFromLeftmost(p: Pattern, s: string, i: nat, k: nat)
    requires i <= k < |s| && MatchAt(p, s, k).Some?
    requires forall m :: i <= m < k ==> MatchAt(p, s, m).None?
    ensures FindAllFrom(p, s, i) == [MatchAt(p, s, k).value.group] + FindAllFrom(p, s, MatchAt(p, s, k).value.end)
    decreases k - i
  {
    if i < k {
      FindAllFromLeftmost(p, s, i + 1, k);
    }
  }

  /** `findall` reports nothing exactly when the text fits the pattern nowhere. */
  lemma FindAllEmptyIffNoFit(p: Pattern, s: string)
    ensures FindAll(p, s) == [] <==> forall k :: 0 <= k < |s| ==> !Fits(p, s, k)
  {
    FindAllEmpty(p, s);
    forall k | 0 <= k < |s| ensures MatchAt(p, s, k).Some? <==> Fits(p, s, k) {
      MatchAtSpec(p, s, k);
    }
  }

  /** The first thing `findall` reports comes from the leftmost place the text fits. */
  lemma FindAllFirstFit(p: Pattern, s: string, k: nat)
    requires k < |s| && Fits(p, s, k)
    requires forall m :: 0 <= m < k ==> !Fits(p, s, m)
    ensures MatchAt(p, s, k).Some?
    ensures FindAll(p, s) == [MatchAt(p, s, k).value.group] + FindAllFrom(p, s, MatchAt(p, s, k).value.end)
  {
    MatchAtSpec(p, s, k);
    forall m | 0 <= m < k ensures MatchAt(p, s, m).None? {
      MatchAtSpec(p, s, m);
    }
    FindAllFromLeftmost(p, s, 0, k);
  }
}
