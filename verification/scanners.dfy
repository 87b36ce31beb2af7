/**
 * Hand-written scanners for the three role-header patterns of
 * `parse_linkedin_text`:
 *
 *   CurrentRole (line 125)  ###\s+(.+?)\s+at\s+(?:\[([^\]]+)\](?:<[^>]*>|\([^)]*\))|([^\n(]+))\s*\(Current\)
 *   AnyRole     (line 134)  the same without the trailing \s*\(Current\)
 *   OrgRole     (lines 162-163)
 *               ###\s+(.+?)\s+at\s+(?:\[)?Blockchain at Berkeley(?:\])?(?:<[^>]*>|\([^)]*\))?
 *               [\s\S]*?(\w+\s+\d{4})\s*-\s*((?:\w+\s+\d{4})|Present)
 *
 * Each scanner tries the alternatives in the order Python's backtracking
 * matcher does: greedy runs that can give back characters are tried longest
 * first and then shorter, lazy runs shortest first and then longer, optional
 * parts present first and then absent. A greedy run is taken at its maximal
 * length without retrying shorter ones only where the next item of the
 * pattern can never match inside the run (the comment at each such place
 * says why).
 */
module Scanners {
  import opened Wrappers
  import opened Seqs
  import opened Text

  datatype Pattern = CurrentRole | AnyRole | OrgRole

  /** What follows ` at `: a company name, or the two dates of an organisation role. */
  datatype Detail =
    | Company(name: string)
    | Tenure(start: string, finish: string)

  /** The part of a match after ` at `, and where it ends. */
  datatype Tail = Tail(detail: Detail, end: nat)

  /** One match: where it starts and ends, the title group, and the rest of the groups. */
  datatype Hit = Hit(start: nat, title: string, detail: Detail, end: nat)

  const Marker: string := "(Current)"
  const OrgName: string := "Blockchain at Berkeley"

  // ---------------------------------------------------------------------------
  // Shapes the scanners guarantee

  /** `s[i..e]` is `<[^>]*>` or `\([^)]*\)`. */
  predicate IsLink(s: string, i: nat, e: nat) {
    && i + 2 <= e <= |s|
    && (|| (s[i] == '<' && s[e - 1] == '>' && forall m :: i < m < e - 1 ==> s[m] != '>')
        || (s[i] == '(' && s[e - 1] == ')' && forall m :: i < m < e - 1 ==> s[m] != ')'))
  }

  /** `t` is `\w+\s+\d{4}`: a word, whitespace, then four digits. */
  predicate IsMonthYear(t: string) {
    exists w, v | 0 < w < v :: v + 4 == |t| && MonthYearSplit(t, w, v)
  }

  predicate MonthYearSplit(t: string, w: nat, v: nat) {
    && 0 < w < v && v + 4 == |t|
    && (forall m :: 0 <= m < w ==> IsWordChar(t[m]))
    && (forall m :: w <= m < v ==> IsSpace(t[m]))
    && (forall m :: v <= m < |t| ==> IsDigit(t[m]))
  }

  /** What a well-formed tail of pattern `pat` looks like. */
  predicate TailShape(pat: Pattern, s: string, t: Tail) {
    && t.end <= |s|
    && (t.detail.Tenure? <==> pat == OrgRole)
    && (t.detail.Company? ==> t.detail.name != "")
    && (t.detail.Tenure? ==> IsMonthYear(t.detail.start)
                             && (IsMonthYear(t.detail.finish) || t.detail.finish == "Present"))
    && (pat == CurrentRole ==> t.end >= |Marker| && OccursAt(s, t.end - |Marker|, Marker))
  }

  // ---------------------------------------------------------------------------
  // Pieces after ` at ` in the company patterns

  /**
   * `<[^>]*>|\([^)]*\)` at `i`. The runs are taken whole: the closing
   * character is excluded from the run, so a shorter run cannot be followed
   * by it.
   */
  function LinkEnd(s: string, i: nat): (r: Option<nat>)
    requires i <= |s|
    ensures r.Some? ==> IsLink(s, i, r.value)
    ensures r.None? ==> forall e :: !IsLink(s, i, e)
    ensures forall e: nat :: IsLink(s, i, e) ==> r == Some(e)
  {
    if i < |s| && s[i] == '<' then
      var j := RunEnd(s, i + 1, NotCloseAngle);
      if j < |s| then Some(j + 1) else None
    else if i < |s| && s[i] == '(' then
      var j := RunEnd(s, i + 1, NotCloseParen);
      if j < |s| then Some(j + 1) else None
    else None
  }

  /** `s[i..]` opens with `[`, the text up to the `]` at `c` holds no other `]`, and a link ends at `e`. */
  predicate BracketedAt(s: string, i: nat, c: nat, e: nat) {
    && i + 1 < c < |s| && s[i] == '[' && s[c] == ']'
    && (forall m :: i < m < c ==> s[m] != ']')
    && IsLink(s, c + 1, e)
  }

  /** `\[([^\]]+)\]` followed by a link, at `i`; the company is the bracketed text. */
  function Bracketed(s: string, i: nat): (r: Option<Tail>)
    requires i <= |s|
    ensures r.Some? ==> i < r.value.end <= |s| && r.value.detail.Company? && r.value.detail.name != ""
    ensures r.Some? ==> s[i] == '[' && ']' !in r.value.detail.name
    ensures r.Some? ==> var c := i + 1 + |r.value.detail.name|;
                        BracketedAt(s, i, c, r.value.end) && r.value.detail.name == s[i + 1..c]
    ensures forall c: nat, e: nat :: BracketedAt(s, i, c, e) ==> r == Some(Tail(Company(s[i + 1..c]), e))
  {
    if i < |s| && s[i] == '[' then
      var c := RunEnd(s, i + 1, NotCloseBracket);
      if i + 1 < c < |s| then
        match LinkEnd(s, c + 1)
        case Some(e) => Some(Tail(Company(s[i + 1..c]), e))
        case None => None
      else None
    else None
  }

  /** `s[i..e]` is a longest non-empty run free of newlines and '('. */
  predicate PlainRunAt(s: string, i: nat, e: nat) {
    && i < e <= |s|
    && (forall m :: i <= m < e ==> s[m] != '\n' && s[m] != '(')
    && (e == |s| || s[e] == '\n' || s[e] == '(')
  }

  /**
   * `[^\n(]+` at `i`, taken whole. After it comes either the end of the
   * pattern or `\s*\(Current\)`; a shorter run followed by `\s*` reaches the
   * same position (when the characters it gives back are all whitespace) or
   * stops on a character that is not '(', so it never succeeds where the
   * whole run failed.
   */
  function Plain(s: string, i: nat): (r: Option<Tail>)
    requires i <= |s|
    ensures r.Some? ==> i < r.value.end <= |s| && r.value.detail == Company(s[i..r.value.end])
    ensures r.Some? ==> '\n' !in r.value.detail.name && '(' !in r.value.detail.name
    ensures r.None? <==> i == |s| || s[i] == '\n' || s[i] == '('
    ensures r.Some? ==> PlainRunAt(s, i, r.value.end)
    ensures forall e: nat :: PlainRunAt(s, i, e) ==> r == Some(Tail(Company(s[i..e]), e))
  {
    var e := RunEnd(s, i, NotNewlineOrParen);
    if e > i then Some(Tail(Company(s[i..e]), e)) else None
  }

  /** `\s*\(Current\)` at `i`: where it ends. A shorter `\s*` stops on whitespace, never on '('. */
  function MarkerEnd(s: string, i: nat): (r: Option<nat>)
    requires i <= |s|
    ensures r.Some? ==> i + |Marker| <= r.value <= |s| && OccursAt(s, r.value - |Marker|, Marker)
    ensures r.Some? ==> forall m :: i <= m < r.value - |Marker| ==> IsSpace(s[m])
    ensures forall f: nat :: MarkerAfterSpace(s, i, f) ==> r == Some(f + |Marker|)
  {
    var f := RunEnd(s, i, Space);
    MarkerAfterRun(s, i);
    if OccursAt(s, f, Marker) then Some(f + |Marker|) else None
  }

  /** Only whitespace from `i` up to `f`, and the marker at `f`. */
  predicate MarkerAfterSpace(s: string, i: nat, f: nat) {
    i <= f && OccursAt(s, f, Marker) && (forall m :: i <= m < f ==> IsSpace(s[m]))
  }

  /** The marker opens with '(', so it can only sit where the whitespace run ends. */
  lemma MarkerAfterRun(s: string, i: nat)
    requires i <= |s|
    ensures forall f: nat :: MarkerAfterSpace(s, i, f) ==> f == RunEnd(s, i, Space)
  {
    forall f: nat | MarkerAfterSpace(s, i, f) ensures f == RunEnd(s, i, Space) {
      assert s[f] == s[f..f + |Marker|][0] == '(';
      RunEndIs(s, i, Space, f);
    }
  }

  /** A company alternative, followed by the `(Current)` marker when `marked`. */
  function WithMarker(marked: bool, s: string, t: Option<Tail>): (r: Option<Tail>)
    requires t.Some? ==> t.value.end <= |s|
    ensures r.Some? ==> t.Some? && r.value.detail == t.value.detail && t.value.end <= r.value.end <= |s|
    ensures r.Some? && marked ==> OccursAt(s, r.value.end - |Marker|, Marker) && r.value.end >= |Marker|
    ensures !marked ==> r == t
  {
    if !marked || t.None? then t
    else
      match MarkerEnd(s, t.value.end)
      case Some(e) => Some(t.value.(end := e))
      case None => None
  }

  /** `(?:\[…\]link|[^\n(]+)`, then `\s*\(Current\)` when `marked`: the bracketed form first. */
  function CompanyAt(marked: bool, s: string, h: nat): (r: Option<Tail>)
    requires h <= |s|
    ensures r.Some? ==> TailShape(if marked then CurrentRole else AnyRole, s, r.value) && h < r.value.end
    ensures forall c: nat, e: nat :: BracketedAt(s, h, c, e) && (marked ==> MarkerEnd(s, e).Some?) ==>
              r == Some(Tail(Company(s[h + 1..c]), if marked then MarkerEnd(s, e).value else e))
    ensures forall e: nat :: PlainRunAt(s, h, e) && (marked ==> MarkerEnd(s, e).Some?) && NoBracketedMatch(marked, s, h) ==>
              r == Some(Tail(Company(s[h..e]), if marked then MarkerEnd(s, e).value else e))
    ensures r.None? <==> NoBracketedMatch(marked, s, h) && NoPlainMatch(marked, s, h)
  {
    BracketedOutcome(marked, s, h);
    PlainOutcome(marked, s, h);
    var a := WithMarker(marked, s, Bracketed(s, h));
    if a.Some? then a else WithMarker(marked, s, Plain(s, h))
  }

  /** The bracketed alternative, with the marker when wanted: what it gives, and when it fails. */
  lemma BracketedOutcome(marked: bool, s: string, h: nat)
    requires h <= |s|
    ensures var a := WithMarker(marked, s, Bracketed(s, h));
            && (a.None? <==> NoBracketedMatch(marked, s, h))
            && forall c: nat, e: nat :: BracketedAt(s, h, c, e) && (marked ==> MarkerEnd(s, e).Some?) ==>
                 a == Some(Tail(Company(s[h + 1..c]), if marked then MarkerEnd(s, e).value else e))
  {
  }

  /** The plain alternative, with the marker when wanted: what it gives, and when it fails. */
  lemma PlainOutcome(marked: bool, s: string, h: nat)
    requires h <= |s|
    ensures var a := WithMarker(marked, s, Plain(s, h));
            && (a.None? <==> NoPlainMatch(marked, s, h))
            && forall e: nat :: PlainRunAt(s, h, e) && (marked ==> MarkerEnd(s, e).Some?) ==>
                 a == Some(Tail(Company(s[h..e]), if marked then MarkerEnd(s, e).value else e))
  {
  }

  /** No bracketed company at `h` leads to a match: there is none, or the marker is wanted and does not follow. */
  ghost predicate NoBracketedMatch(marked: bool, s: string, h: nat) {
    forall c: nat, e: nat :: BracketedAt(s, h, c, e) ==> marked && MarkerEnd(s, e).None?
  }

  /** No plain company at `h` leads to a match: there is none, or the marker is wanted and does not follow. */
  ghost predicate NoPlainMatch(marked: bool, s: string, h: nat) {
    forall e: nat :: PlainRunAt(s, h, e) ==> marked && MarkerEnd(s, e).None?
  }

  // ---------------------------------------------------------------------------
  // Pieces after ` at ` in the organisation pattern

  /**
   * `\w+\s+\d{4}` at `j`: where it ends. Both runs are taken whole: a shorter
   * `\w+` leaves a word character where `\s` is needed, a shorter `\s+` leaves
   * whitespace where a digit is needed.
   */
  function MonthYearEnd(s: string, j: nat): (r: Option<nat>)
    requires j <= |s|
    ensures r.Some? ==> j < r.value <= |s| && IsMonthYear(s[j..r.value])
    ensures forall e: nat :: j <= e <= |s| && IsMonthYear(s[j..e]) ==> r == Some(e)
  {
    MonthYearRuns(s, j);
    var w := RunEnd(s, j, WordChar);
    if w > j then
      var v := RunEnd(s, w, Space);
      if v > w && v + 4 <= |s| && forall m :: v <= m < v + 4 ==> IsDigit(s[m]) then
        var t := s[j..v + 4];
        assert MonthYearSplit(t, w - j, v - j);
        Some(v + 4)
      else None
    else None
  }

  /** A month and year at `j` is read off by the maximal word run and the maximal whitespace run after it. */
  lemma MonthYearRuns(s: string, j: nat)
    requires j <= |s|
    ensures forall e: nat :: j <= e <= |s| && IsMonthYear(s[j..e]) ==>
              var w := RunEnd(s, j, WordChar);
              var v := RunEnd(s, w, Space);
              && w > j && v > w && e == v + 4
              && forall m :: v <= m < v + 4 ==> IsDigit(s[m])
  {
    forall e: nat | j <= e <= |s| && IsMonthYear(s[j..e])
      ensures var w := RunEnd(s, j, WordChar);
              var v := RunEnd(s, w, Space);
              && w > j && v > w && e == v + 4
              && forall m :: v <= m < v + 4 ==> IsDigit(s[m])
    {
      var t := s[j..e];
      var w, v :| 0 < w < v && v + 4 == |t| && MonthYearSplit(t, w, v);
      MonthYearSplitRuns(s, j, e, w, v);
    }
  }

  /** One split of a month and year at `j`: its word and whitespace runs are the maximal ones. */
  lemma MonthYearSplitRuns(s: string, j: nat, e: nat, w: nat, v: nat)
    requires j <= e <= |s| && MonthYearSplit(s[j..e], w, v)
    ensures RunEnd(s, j, WordChar) == j + w
    ensures RunEnd(s, j + w, Space) == j + v
    ensures e == j + v + 4 && forall m :: j + v <= m < j + v + 4 ==> IsDigit(s[m])
  {
    var t := s[j..e];
    assert forall m :: j <= m < e ==> s[m] == t[m - j];
    assert !IsWordChar(s[j + w]) by { assert IsSpace(t[w]); }
    RunEndIs(s, j, WordChar, j + w);
    assert !IsSpace(s[j + v]) by { assert IsDigit(t[v]); }
    RunEndIs(s, j + w, Space, j + v);
  }

  /**
   * `(\w+\s+\d{4})\s*-\s*((?:\w+\s+\d{4})|Present)` at `j`. The `\s*` runs are
   * taken whole: giving back whitespace leaves whitespace where '-', a word
   * character or 'P' is needed.
   */
  function TenureAt(s: string, j: nat): (r: Option<Tail>)
    ensures r.Some? ==> TailShape(OrgRole, s, r.value) && j < r.value.end
  {
    if j > |s| then None
    else
    match MonthYearEnd(s, j)
    case None => None
    case Some(a) => DashThenFinish(s, s[j..a], a)
  }

  /** `\s*-\s*` at `a`, then the finish; `start` is the month and year before it. */
  function DashThenFinish(s: string, start: string, a: nat): (r: Option<Tail>)
    requires a <= |s| && IsMonthYear(start)
    ensures r.Some? ==> TailShape(OrgRole, s, r.value) && a < r.value.end && r.value.detail.start == start
  {
    DashAt(s, start, RunEnd(s, a, Space))
  }

  /** `-\s*` and the finish of the dates, when the dash is at `d`. */
  function DashAt(s: string, start: string, d: nat): (r: Option<Tail>)
    requires d <= |s| && IsMonthYear(start)
    ensures r.Some? ==> TailShape(OrgRole, s, r.value) && d < r.value.end && r.value.detail.start == start
  {
    if d < |s| && s[d] == '-' then FinishFrom(s, start, RunEnd(s, d + 1, Space)) else None
  }

  /** `(?:\w+\s+\d{4})|Present` at `m`: a month and year first, then the word. */
  function FinishFrom(s: string, start: string, m: nat): (r: Option<Tail>)
    requires m <= |s| && IsMonthYear(start)
    ensures r.Some? ==> TailShape(OrgRole, s, r.value) && m < r.value.end && r.value.detail.start == start
  {
    match MonthYearEnd(s, m)
    case Some(b) => Some(Tail(Tenure(start, s[m..b]), b))
    case None => if OccursAt(s, m, "Present") then Some(Tail(Tenure(start, "Present"), m + 7)) else None
  }

  /**
   * From `j`: a month and year up to `a`, whitespace up to a '-' at `d`,
   * whitespace after it up to `m`, where the finish starts.
   */
  ghost predicate DatesFrom(s: string, j: nat, a: nat, d: nat, m: nat) {
    && j <= a <= d < m <= |s|
    && IsMonthYear(s[j..a])
    && (forall x :: a <= x < d ==> IsSpace(s[x]))
    && s[d] == '-'
    && (forall x :: d < x < m ==> IsSpace(s[x]))
  }

  /** No month and year starts at `m`. */
  ghost predicate NoMonthYearAt(s: string, m: nat) {
    forall b: nat :: m <= b <= |s| ==> !IsMonthYear(s[m..b])
  }

  /** The tenure `t` has the start `s[j..a]` and a finish at `m`: a month and year, or "Present" where no month and year starts. */
  ghost predicate FinishAt(s: string, j: nat, a: nat, m: nat, t: Tail) {
    && j <= a <= |s| && t.detail.Tenure? && t.detail.start == s[j..a]
    && (|| (m <= t.end <= |s| && IsMonthYear(s[m..t.end]) && t.detail.finish == s[m..t.end])
        || (t.detail.finish == "Present" && OccursAt(s, m, "Present") && t.end == m + 7 && NoMonthYearAt(s, m)))
  }

  /** A tenure found at `j` is laid out as `DatesFrom` says, with the start and finish read from that layout. */
  lemma TenureAtReads(s: string, j: nat)
    ensures TenureAt(s, j).Some? ==>
              exists a: nat, d: nat, m: nat :: DatesFrom(s, j, a, d, m) && FinishAt(s, j, a, m, TenureAt(s, j).value)
  {
    var r := TenureAt(s, j);
    if r.Some? {
      var a := MonthYearEnd(s, j).value;
      var start, d := s[j..a], RunEnd(s, a, Space);
      assert r == DashAt(s, start, d);
      assert d < |s| && s[d] == '-';
      var m := RunEnd(s, d + 1, Space);
      DashStep(s, start, a, d, m);
      RunsGiveDates(s, j, a, d, m);
      FinishReads(s, j, a, m);
    }
  }

  /** The runs `TenureAt` takes are laid out as `DatesFrom` says. */
  lemma RunsGiveDates(s: string, j: nat, a: nat, d: nat, m: nat)
    requires j <= |s| && MonthYearEnd(s, j) == Some(a) && RunEnd(s, a, Space) == d && d < |s| && s[d] == '-'
    requires RunEnd(s, d + 1, Space) == m
    ensures DatesFrom(s, j, a, d, m)
  {
    assert IsMonthYear(s[j..a]);
    assert forall x :: a <= x < d ==> IsSpace(s[x]);
    assert forall x :: d < x < m ==> IsSpace(s[x]);
  }

  /** What `FinishFrom` finds at `m` is a finish as `FinishAt` says. */
  lemma FinishReads(s: string, j: nat, a: nat, m: nat)
    requires j <= a <= |s| && m <= |s| && IsMonthYear(s[j..a]) && FinishFrom(s, s[j..a], m).Some?
    ensures FinishAt(s, j, a, m, FinishFrom(s, s[j..a], m).value)
  {
    var r := FinishFrom(s, s[j..a], m);
    if MonthYearEnd(s, m).None? {
      assert NoMonthYearAt(s, m);
    }
  }

  /** Dates laid out as `DatesFrom` says, with a month and year as the finish, are found at `j`. */
  lemma TenureAtFindsDates(s: string, j: nat, a: nat, d: nat, m: nat, b: nat)
    requires DatesFrom(s, j, a, d, m) && m <= b <= |s| && IsMonthYear(s[m..b])
    ensures TenureAt(s, j) == Some(Tail(Tenure(s[j..a], s[m..b]), b))
  {
    FinishIsMonthYear(s, m, b);
    DatesRunsAt(s, j, a, d, m);
    TenureAtSteps(s, j, a, d, m, b);
  }

  /** `TenureAt` step by step, once its runs are known and a month and year follows. */
  lemma TenureAtSteps(s: string, j: nat, a: nat, d: nat, m: nat, b: nat)
    requires j <= |s| && MonthYearEnd(s, j) == Some(a) && d < |s| && s[d] == '-'
    requires RunEnd(s, a, Space) == d && RunEnd(s, d + 1, Space) == m && MonthYearEnd(s, m) == Some(b)
    ensures TenureAt(s, j) == Some(Tail(Tenure(s[j..a], s[m..b]), b))
  {
    var start := s[j..a];
    assert FinishFrom(s, start, m) == Some(Tail(Tenure(start, s[m..b]), b));
    DashStep(s, start, a, d, m);
  }

  lemma DashStep(s: string, start: string, a: nat, d: nat, m: nat)
    requires a <= |s| && IsMonthYear(start) && RunEnd(s, a, Space) == d && d < |s| && s[d] == '-'
    requires RunEnd(s, d + 1, Space) == m
    ensures DashThenFinish(s, start, a) == FinishFrom(s, start, m)
  {
    assert DashThenFinish(s, start, a) == DashAt(s, start, d);
    assert DashAt(s, start, d) == FinishFrom(s, start, m);
  }

  /** Dates laid out as `DatesFrom` says, with "Present" where no month and year starts, are found at `j`. */
  lemma TenureAtFindsPresent(s: string, j: nat, a: nat, d: nat, m: nat)
    requires DatesFrom(s, j, a, d, m) && OccursAt(s, m, "Present") && NoMonthYearAt(s, m)
    ensures TenureAt(s, j) == Some(Tail(Tenure(s[j..a], "Present"), m + 7))
  {
    assert s[m] == s[m..m + 7][0];
    DatesRunsAt(s, j, a, d, m);
    NoMonthYearFound(s, m);
    TenureAtPresentSteps(s, j, a, d, m);
  }

  /** Where no month and year starts, the scanner finds none. */
  lemma NoMonthYearFound(s: string, m: nat)
    requires m <= |s| && NoMonthYearAt(s, m)
    ensures MonthYearEnd(s, m).None?
  {
  }

  /** `TenureAt` step by step, once its runs are known and "Present" follows. */
  lemma TenureAtPresentSteps(s: string, j: nat, a: nat, d: nat, m: nat)
    requires j <= |s| && MonthYearEnd(s, j) == Some(a) && d < |s| && s[d] == '-'
    requires RunEnd(s, a, Space) == d && RunEnd(s, d + 1, Space) == m && MonthYearEnd(s, m).None?
    requires OccursAt(s, m, "Present")
    ensures TenureAt(s, j) == Some(Tail(Tenure(s[j..a], "Present"), m + 7))
  {
    var start := s[j..a];
    assert FinishFrom(s, start, m) == Some(Tail(Tenure(start, "Present"), m + 7));
    DashStep(s, start, a, d, m);
  }

  /** The scanner's runs end where the layout says, given that the finish starts on a character that is not whitespace. */
  lemma DatesRunsAt(s: string, j: nat, a: nat, d: nat, m: nat)
    requires DatesFrom(s, j, a, d, m) && m < |s| && !IsSpace(s[m])
    ensures MonthYearEnd(s, j) == Some(a) && RunEnd(s, a, Space) == d && RunEnd(s, d + 1, Space) == m
  {
    RunEndIs(s, a, Space, d);
    RunEndIs(s, d + 1, Space, m);
  }

  /** A month and year at `m` starts on a word character, and the scanner finds exactly it. */
  lemma FinishIsMonthYear(s: string, m: nat, b: nat)
    requires m <= b <= |s| && IsMonthYear(s[m..b])
    ensures m < |s| && !IsSpace(s[m]) && MonthYearEnd(s, m) == Some(b)
  {
    var t := s[m..b];
    var w, v :| 0 < w < v && v + 4 == |t| && MonthYearSplit(t, w, v);
    assert IsWordChar(t[0]);
  }

  /** `[\s\S]*?` then the dates: tried at `j`, then one character further each time. */
  function TenureFrom(s: string, j: nat): (r: Option<Tail>)
    requires j <= |s|
    ensures r.Some? ==> TailShape(OrgRole, s, r.value) && j < r.value.end
    ensures r.Some? ==> exists k :: j <= k <= |s| && TenureAt(s, k) == r
                                    && forall m :: j <= m < k ==> TenureAt(s, m).None?
    ensures r.None? <==> forall k :: j <= k <= |s| ==> TenureAt(s, k).None?
  {
    var attempt := k => TenureAt(s, k);
    FirstSomeIsFirst(attempt, j, |s|);
    assert forall k :: attempt(k) == TenureAt(s, k);
    FirstSome(attempt, j, |s|)
  }

  /** A tenure found from `e` is also found by the lazy gap from any `n` before it. */
  lemma TenureFromEarlier(s: string, n: nat, e: nat)
    requires n <= e <= |s| && TenureFrom(s, e).Some?
    ensures TenureFrom(s, n).Some?
  {
  }

  /**
   * `(?:<[^>]*>|\([^)]*\))?` then the dates: with the link first, then
   * without. Whether a tenure is found does not depend on the link; which one
   * does.
   */
  function AfterCloseBracket(s: string, n: nat): (r: Option<Tail>)
    requires n <= |s|
    ensures r.Some? ==> TailShape(OrgRole, s, r.value) && n < r.value.end
    ensures r.Some? ==> exists k :: n <= k <= |s| && TenureAt(s, k) == r
    ensures r.Some? <==> TenureFrom(s, n).Some?
    ensures forall e: nat :: IsLink(s, n, e) && TenureFrom(s, e).Some? ==> r == TenureFrom(s, e)
    ensures (forall e: nat :: IsLink(s, n, e) ==> TenureFrom(s, e).None?) ==> r == TenureFrom(s, n)
  {
    var linked := match LinkEnd(s, n)
                  case Some(e) => TenureFrom(s, e)
                  case None => None;
    if linked.Some? then
      TenureFromEarlier(s, n, LinkEnd(s, n).value);
      linked
    else TenureFrom(s, n)
  }

  /**
   * `(?:\])?` then the rest: with the bracket first, then without. Again
   * whether a tenure is found does not depend on the bracket.
   */
  function AfterOrgName(s: string, n: nat): (r: Option<Tail>)
    requires n <= |s|
    ensures r.Some? ==> TailShape(OrgRole, s, r.value) && n < r.value.end
    ensures r.Some? ==> exists k :: n <= k <= |s| && TenureAt(s, k) == r
    ensures r.Some? <==> TenureFrom(s, n).Some?
    ensures n < |s| && s[n] == ']' && TenureFrom(s, n + 1).Some? ==> r == AfterCloseBracket(s, n + 1)
    ensures !(n < |s| && s[n] == ']' && TenureFrom(s, n + 1).Some?) ==> r == AfterCloseBracket(s, n)
  {
    var closed := if n < |s| && s[n] == ']' then AfterCloseBracket(s, n + 1) else None;
    if closed.Some? then
      TenureFromEarlier(s, n, n + 1);
      closed
    else AfterCloseBracket(s, n)
  }

  /** `Blockchain at Berkeley` at `n`, then the rest. */
  function OrgNameAt(s: string, n: nat): (r: Option<Tail>)
    requires n <= |s|
    ensures r.Some? ==> TailShape(OrgRole, s, r.value) && n < r.value.end
    ensures r.Some? ==> exists k :: n + |OrgName| <= k <= |s| && TenureAt(s, k) == r
    ensures r.Some? <==> OccursAt(s, n, OrgName) && TenureFrom(s, n + |OrgName|).Some?
  {
    if OccursAt(s, n, OrgName) then AfterOrgName(s, n + |OrgName|) else None
  }

  /**
   * `(?:\[)?Blockchain at Berkeley…`: with the opening bracket first, then
   * without. The name starts with 'B', so at most one of the two can apply.
   */
  function OrgAt(s: string, h: nat): (r: Option<Tail>)
    requires h <= |s|
    ensures r.Some? ==> TailShape(OrgRole, s, r.value) && h < r.value.end
    ensures r.Some? ==> Contains(s, OrgName)
    ensures h < |s| && s[h] == '[' ==> r == OrgNameAt(s, h + 1)
    ensures !(h < |s| && s[h] == '[') ==> r == OrgNameAt(s, h)
    ensures r.Some? <==> || (h < |s| && s[h] == '[' && OccursAt(s, h + 1, OrgName) && TenureFrom(s, h + 1 + |OrgName|).Some?)
                         || (OccursAt(s, h, OrgName) && TenureFrom(s, h + |OrgName|).Some?)
  {
    if h < |s| && s[h] == '[' then
      NotNameAt(s, h);
      var r := OrgNameAt(s, h + 1);
      if r.Some? then
        OccursInContains(s, h + 1, OrgName);
        r
      else None
    else
      var r := OrgNameAt(s, h);
      if r.Some? then
        OccursInContains(s, h, OrgName);
        r
      else None
  }

  /** Where the text has some other character than 'B', the name does not start. */
  lemma NotNameAt(s: string, h: nat)
    requires h < |s| && s[h] != 'B'
    ensures !OccursAt(s, h, OrgName)
  {
    if h + |OrgName| <= |s| {
      assert s[h..h + |OrgName|][0] == s[h];
    }
  }

  // ---------------------------------------------------------------------------
  // The header: ###\s+(.+?)\s+at\s+

  /** The part of pattern `pat` after ` at ` and its `\s+`. */
  function TailAt(pat: Pattern, s: string, h: nat): (r: Option<Tail>)
    requires h <= |s|
    ensures r.Some? ==> TailShape(pat, s, r.value) && h < r.value.end
  {
    match pat
    case CurrentRole => CompanyAt(true, s, h)
    case AnyRole => CompanyAt(false, s, h)
    case OrgRole => OrgAt(s, h)
  }

  /**
   * The `\s+` after `at` (which starts at `g`) ending at `h`, then the tail;
   * on failure the run gives back one character and the tail is tried again.
   */
  function TailFrom(pat: Pattern, s: string, g: nat, h: nat): (r: Option<Tail>)
    requires g + 3 <= h <= |s|
    ensures r.Some? ==> TailShape(pat, s, r.value) && g + 3 < r.value.end
  {
    LastSomeIsLast(TailAttempts(pat, s), g + 3, h);
    TailsFromAttempts(pat, s, g + 3, h, LastSome(TailAttempts(pat, s), g + 3, h));
    LastSome(TailAttempts(pat, s), g + 3, h)
  }

  /**
   * The run after `at` is tried longest first: the tail found is the one after
   * the longest run for which one matches, and none is found exactly when
   * none matches after any run of one or more characters.
   */
  lemma TailFromLongestFirst(pat: Pattern, s: string, g: nat, h: nat)
    requires g + 3 <= h <= |s|
    ensures var r := TailFrom(pat, s, g, h);
            && (r.Some? ==> exists x :: g + 3 <= x <= h && TailAt(pat, s, x) == r
                                        && forall y :: x < y <= h ==> TailAt(pat, s, y).None?)
            && (r.None? <==> forall x :: g + 3 <= x <= h ==> TailAt(pat, s, x).None?)
  {
    LastSomeIsLast(TailAttempts(pat, s), g + 3, h);
    TailsFromAttempts(pat, s, g + 3, h, LastSome(TailAttempts(pat, s), g + 3, h));
  }

  /** What `LastSome` says of the attempts, said of the tails. */
  lemma TailsFromAttempts(pat: Pattern, s: string, lo: nat, hi: nat, r: Option<Tail>)
    requires hi <= |s|
    requires r.Some? ==> exists x :: lo <= x <= hi && TailAttempts(pat, s)(x) == r
                                    && forall y :: x < y <= hi ==> TailAttempts(pat, s)(y).None?
    requires r.None? <==> forall x :: lo <= x <= hi ==> TailAttempts(pat, s)(x).None?
    ensures r.Some? ==> exists x :: lo <= x <= hi && TailAt(pat, s, x) == r
                                    && forall y :: x < y <= hi ==> TailAt(pat, s, y).None?
    ensures r.None? <==> forall x :: lo <= x <= hi ==> TailAt(pat, s, x).None?
  {
    if r.Some? {
      var x :| lo <= x <= hi && TailAttempts(pat, s)(x) == r
               && forall y :: x < y <= hi ==> TailAttempts(pat, s)(y).None?;
      TailAttemptsFail(pat, s, x + 1, hi);
      assert TailAt(pat, s, x) == r;
    } else {
      TailAttemptsFail(pat, s, lo, hi);
    }
  }

  /** Failed attempts are failed tails. */
  lemma TailAttemptsFail(pat: Pattern, s: string, i: nat, n: nat)
    requires n <= |s| && forall m :: i <= m <= n ==> TailAttempts(pat, s)(m).None?
    ensures forall y :: i <= y <= n ==> TailAt(pat, s, y).None?
  {
    forall y | i <= y <= n
      ensures TailAt(pat, s, y).None?
    {
      assert TailAttempts(pat, s)(y).None?;
    }
  }

  /** The tail tried at every end of the run, as one function of the end: `TailAt` within the text. */
  function TailAttempts(pat: Pattern, s: string): nat -> Option<Tail> {
    (x: nat) => if x <= |s| then TailAt(pat, s, x) else None
  }

  /**
   * `\s+at\s+` at `q`, then the tail. The first `\s+` is taken whole: a
   * shorter run leaves whitespace where 'a' is needed.
   */
  function AfterTitle(pat: Pattern, s: string, q: nat): (r: Option<Tail>)
    requires q <= |s|
    ensures r.Some? ==> TailShape(pat, s, r.value) && q + 4 < r.value.end
  {
    var g := RunEnd(s, q, Space);
    if g > q then AtThenTail(pat, s, g) else None
  }

  /** `at\s+` at `g`, then the tail. */
  function AtThenTail(pat: Pattern, s: string, g: nat): (r: Option<Tail>)
    requires g <= |s|
    ensures r.Some? ==> TailShape(pat, s, r.value) && g + 3 < r.value.end
  {
    if OccursAt(s, g, "at") then
      var h := RunEnd(s, g + 2, Space);
      if h > g + 2 then TailFrom(pat, s, g, h) else None
    else None
  }

  /** The title `s[k..q]` of a match at `p`, followed by ` at ` and the tail. */
  function TitleAttempt(pat: Pattern, s: string, p: nat, k: nat, q: nat): (r: Option<Hit>)
    ensures r.Some? ==> k < q <= |s| && r.value.start == p && r.value.title == s[k..q]
    ensures r.Some? ==> q + 4 < r.value.end && TailShape(pat, s, Tail(r.value.detail, r.value.end))
    ensures r.Some? <==> k < q <= |s| && AfterTitle(pat, s, q).Some?
    ensures r.Some? ==> AfterTitle(pat, s, q) == Some(Tail(r.value.detail, r.value.end))
  {
    if k < q <= |s| then
      match AfterTitle(pat, s, q)
      case Some(t) => Some(Hit(p, s[k..q], t.detail, t.end))
      case None => None
    else None
  }

  /** The attempts for every title end, as one function of the end. */
  function TitleAttempts(pat: Pattern, s: string, p: nat, k: nat): nat -> Option<Hit> {
    (q: nat) => TitleAttempt(pat, s, p, k, q)
  }

  /**
   * The lazy title `.+?` of a match at `p`, starting at `k`: one character
   * first, then longer, but never across a newline (`.` does not match one).
   */
  function TitleFrom(pat: Pattern, s: string, p: nat, k: nat): (r: Option<Hit>)
    requires k <= |s|
    ensures r.Some? ==> r.value.start == p && r.value.title != [] && '\n' !in r.value.title
    ensures r.Some? ==> k + |r.value.title| + 4 < r.value.end && TailShape(pat, s, Tail(r.value.detail, r.value.end))
  {
    TitleFromShape(pat, s, p, k);
    FirstSome(TitleAttempts(pat, s, p, k), k + 1, IndexOf(s, '\n', k))
  }

  /**
   * The title is lazy: it is the shortest one, ending before the next
   * newline, after which ` at ` and the tail match, and none is found exactly
   * when no such end exists.
   */
  lemma TitleFromShortestFirst(pat: Pattern, s: string, p: nat, k: nat)
    requires k <= |s|
    ensures var r := TitleFrom(pat, s, p, k);
            && (r.Some? ==> exists q :: k < q <= IndexOf(s, '\n', k) && TitleAttempt(pat, s, p, k, q) == r
                                        && forall x :: k < x < q ==> TitleAttempt(pat, s, p, k, x).None?)
            && (r.None? <==> forall q :: k < q <= IndexOf(s, '\n', k) ==> TitleAttempt(pat, s, p, k, q).None?)
  {
    FirstSomeIsFirst(TitleAttempts(pat, s, p, k), k + 1, IndexOf(s, '\n', k));
    assert forall q :: TitleAttempts(pat, s, p, k)(q) == TitleAttempt(pat, s, p, k, q);
  }

  /** Whichever attempt succeeds first, its title is non-empty and stops before any newline. */
  lemma TitleFromShape(pat: Pattern, s: string, p: nat, k: nat)
    requires k <= |s|
    ensures var r := FirstSome(TitleAttempts(pat, s, p, k), k + 1, IndexOf(s, '\n', k));
            r.Some? ==>
              && r.value.start == p && r.value.title != [] && '\n' !in r.value.title
              && k + |r.value.title| + 4 < r.value.end && TailShape(pat, s, Tail(r.value.detail, r.value.end))
  {
    var n := IndexOf(s, '\n', k);
    var attempts := TitleAttempts(pat, s, p, k);
    FirstSomeIsFirst(attempts, k + 1, n);
    var r := FirstSome(attempts, k + 1, n);
    if r.Some? {
      var q :| k + 1 <= q <= n && attempts(q) == r;
      assert TitleAttempt(pat, s, p, k, q) == r;
      NoNewlineBefore(s, k, q);
    }
  }

  /** Up to the first newline from `k`, the text holds no newline. */
  lemma NoNewlineBefore(s: string, k: nat, q: nat)
    requires k <= |s| && k <= q <= IndexOf(s, '\n', k)
    ensures '\n' !in s[k..q]
  {
    assert forall m :: 0 <= m < q - k ==> s[k..q][m] == s[k + m];
  }

  /** The `\s+` after `###` ending at `k`, then the title; on failure the run gives back one character. */
  function AfterHashes(pat: Pattern, s: string, p: nat, k: nat): (r: Option<Hit>)
    requires p + 4 <= k <= |s|
    ensures r.Some? ==> r.value.start == p && r.value.title != [] && '\n' !in r.value.title
    ensures r.Some? ==> p + 8 < r.value.end && TailShape(pat, s, Tail(r.value.detail, r.value.end))
  {
    LastSomeIsLast(HashAttempts(pat, s, p), p + 4, k);
    TitlesFromAttempts(pat, s, p, p + 4, k, LastSome(HashAttempts(pat, s, p), p + 4, k));
    LastSome(HashAttempts(pat, s, p), p + 4, k)
  }

  /**
   * The run after `###` is tried longest first: the title found is the one
   * after the longest run from which one matches, and none is found exactly
   * when none matches after any run of one or more characters.
   */
  lemma AfterHashesLongestFirst(pat: Pattern, s: string, p: nat, k: nat)
    requires p + 4 <= k <= |s|
    ensures var r := AfterHashes(pat, s, p, k);
            && (r.Some? ==> exists x :: p + 4 <= x <= k && TitleFrom(pat, s, p, x) == r
                                        && forall y :: x < y <= k ==> TitleFrom(pat, s, p, y).None?)
            && (r.None? <==> forall x :: p + 4 <= x <= k ==> TitleFrom(pat, s, p, x).None?)
  {
    LastSomeIsLast(HashAttempts(pat, s, p), p + 4, k);
    TitlesFromAttempts(pat, s, p, p + 4, k, LastSome(HashAttempts(pat, s, p), p + 4, k));
  }

  /** What `LastSome` says of the attempts, said of the titles. */
  lemma TitlesFromAttempts(pat: Pattern, s: string, p: nat, lo: nat, hi: nat, r: Option<Hit>)
    requires hi <= |s|
    requires r.Some? ==> exists x :: lo <= x <= hi && HashAttempts(pat, s, p)(x) == r
                                    && forall y :: x < y <= hi ==> HashAttempts(pat, s, p)(y).None?
    requires r.None? <==> forall x :: lo <= x <= hi ==> HashAttempts(pat, s, p)(x).None?
    ensures r.Some? ==> exists x :: lo <= x <= hi && TitleFrom(pat, s, p, x) == r
                                    && forall y :: x < y <= hi ==> TitleFrom(pat, s, p, y).None?
    ensures r.None? <==> forall x :: lo <= x <= hi ==> TitleFrom(pat, s, p, x).None?
  {
    if r.Some? {
      var x :| lo <= x <= hi && HashAttempts(pat, s, p)(x) == r
               && forall y :: x < y <= hi ==> HashAttempts(pat, s, p)(y).None?;
      HashAttemptsFail(pat, s, p, x + 1, hi);
      assert TitleFrom(pat, s, p, x) == r;
    } else {
      HashAttemptsFail(pat, s, p, lo, hi);
    }
  }

  /** Failed attempts are failed titles. */
  lemma HashAttemptsFail(pat: Pattern, s: string, p: nat, i: nat, n: nat)
    requires n <= |s| && forall m :: i <= m <= n ==> HashAttempts(pat, s, p)(m).None?
    ensures forall y :: i <= y <= n ==> TitleFrom(pat, s, p, y).None?
  {
    forall y | i <= y <= n
      ensures TitleFrom(pat, s, p, y).None?
    {
      assert HashAttempts(pat, s, p)(y).None?;
    }
  }

  /** The title tried after every end of the run, as one function of the end. */
  function HashAttempts(pat: Pattern, s: string, p: nat): nat -> Option<Hit> {
    (x: nat) => if x <= |s| then TitleFrom(pat, s, p, x) else None
  }

  /** The pattern anchored at `p`. */
  function MatchAt(pat: Pattern, s: string, p: nat): (r: Option<Hit>)
    ensures r.Some? ==> HitShape(pat, s, r.value) && r.value.start == p
  {
    if p <= |s| && OccursAt(s, p, "###") then
      var k := RunEnd(s, p + 3, Space);
      if k > p + 3 then AfterHashes(pat, s, p, k) else None
    else None
  }

  /**
   * A header laid out at `p`: `###`, whitespace up to the title at `k`, the
   * title up to `q` with no newline in it, whitespace up to `at` at `g`,
   * whitespace up to `h`, and a tail of `pat` matching at `h`.
   */
  ghost predicate HeaderAt(pat: Pattern, s: string, p: nat, k: nat, q: nat, g: nat, h: nat) {
    && p + 3 < k < q < g && g + 2 < h <= |s|
    && OccursAt(s, p, "###")
    && (forall m :: p + 3 <= m < k ==> IsSpace(s[m]))
    && (forall m :: k <= m < q ==> s[m] != '\n')
    && (forall m :: q <= m < g ==> IsSpace(s[m]))
    && OccursAt(s, g, "at")
    && (forall m :: g + 2 <= m < h ==> IsSpace(s[m]))
    && TailAt(pat, s, h).Some?
  }

  /** Wherever a header is laid out, the pattern matches there (perhaps with other groups, as backtracking decides). */
  lemma MatchAtFinds(pat: Pattern, s: string, p: nat, k: nat, q: nat, g: nat, h: nat)
    requires HeaderAt(pat, s, p, k, q, g, h)
    ensures MatchAt(pat, s, p).Some?
  {
    var run := RunEnd(s, p + 3, Space);
    RunEndAtLeast(s, p + 3, Space, k);
    TitleFinds(pat, s, p, k, q, g, h);
    AfterHashesLongestFirst(pat, s, p, run);
  }

  /** The title from `k` is found: at the latest it ends at `q`. */
  lemma TitleFinds(pat: Pattern, s: string, p: nat, k: nat, q: nat, g: nat, h: nat)
    requires HeaderAt(pat, s, p, k, q, g, h)
    ensures TitleFrom(pat, s, p, k).Some?
  {
    AtFinds(pat, s, q, g, h);
    assert q <= IndexOf(s, '\n', k);
    assert TitleAttempt(pat, s, p, k, q).Some?;
    TitleFromShortestFirst(pat, s, p, k);
  }

  /** Whitespace from `q` to `at` at `g`, whitespace to `h` and a tail there: ` at ` and a tail are found at `q`. */
  lemma AtFinds(pat: Pattern, s: string, q: nat, g: nat, h: nat)
    requires q < g && g + 2 < h <= |s| && OccursAt(s, g, "at")
    requires forall m :: q <= m < g ==> IsSpace(s[m])
    requires forall m :: g + 2 <= m < h ==> IsSpace(s[m])
    requires TailAt(pat, s, h).Some?
    ensures AfterTitle(pat, s, q).Some?
  {
    assert s[g] == 'a' by { assert s[g] == s[g..g + 2][0]; }
    RunEndIs(s, q, Space, g);
    var run := RunEnd(s, g + 2, Space);
    RunEndAtLeast(s, g + 2, Space, h);
    TailFromFinds(pat, s, g, h, run);
    AfterTitleIs(pat, s, q, g, run);
  }

  /** `AfterTitle` once its two runs are known. */
  lemma AfterTitleIs(pat: Pattern, s: string, q: nat, g: nat, run: nat)
    requires q < g && g + 2 < run <= |s| && OccursAt(s, g, "at")
    requires RunEnd(s, q, Space) == g && RunEnd(s, g + 2, Space) == run
    ensures AfterTitle(pat, s, q) == TailFrom(pat, s, g, run)
  {
    assert AfterTitle(pat, s, q) == AtThenTail(pat, s, g);
  }

  /** A tail after some run up to `h` is found when the run up to `run` is given back. */
  lemma TailFromFinds(pat: Pattern, s: string, g: nat, h: nat, run: nat)
    requires g + 3 <= h <= run <= |s| && TailAt(pat, s, h).Some?
    ensures TailFrom(pat, s, g, run).Some?
  {
    TailFromLongestFirst(pat, s, g, run);
  }

  /** What every match of `pat` in `s` looks like. */
  predicate HitShape(pat: Pattern, s: string, h: Hit) {
    && OccursAt(s, h.start, "###")
    && h.start + 8 < h.end <= |s|
    && h.title != [] && '\n' !in h.title
    && TailShape(pat, s, Tail(h.detail, h.end))
  }

  /**
   * `re.search` from position `i`: the pattern is tried at `i`, then one
   * character further each time, so the match found is the leftmost one, and
   * there is none exactly when the pattern matches nowhere from `i` on.
   */
  function Search(pat: Pattern, s: string, i: nat): (r: Option<Hit>)
    requires i <= |s|
    ensures r.Some? ==> i <= r.value.start && HitShape(pat, s, r.value)
    ensures r.Some? ==> MatchAt(pat, s, r.value.start) == r
    ensures r.Some? ==> forall p :: i <= p < r.value.start ==> MatchAt(pat, s, p).None?
    ensures r.None? <==> forall p :: i <= p <= |s| ==> MatchAt(pat, s, p).None?
  {
    var attempt := p => MatchAt(pat, s, p);
    FirstSomeIsFirst(attempt, i, |s|);
    assert forall p :: attempt(p) == MatchAt(pat, s, p);
    FirstSome(attempt, i, |s|)
  }

  /** `re.findall` from position `i`: each search resumes where the previous match ended. */
  function FindAll(pat: Pattern, s: string, i: nat): (r: seq<Hit>)
    requires i <= |s|
    ensures forall k :: 0 <= k < |r| ==> HitShape(pat, s, r[k]) && i <= r[k].start
    ensures forall k :: 0 < k < |r| ==> r[k - 1].end <= r[k].start
    ensures r == [] <==> Search(pat, s, i).None?
    ensures r != [] ==> r[0] == Search(pat, s, i).value
    decreases |s| - i
  {
    match Search(pat, s, i)
    case None => []
    case Some(h) =>
      var rest := FindAll(pat, s, h.end);
      HitsInOrder(pat, s, i, h, rest, [h] + rest);
      [h] + rest
  }

  /** A match in front of later, non-overlapping matches keeps them in order. */
  lemma HitsInOrder(pat: Pattern, s: string, i: nat, h: Hit, rest: seq<Hit>, r: seq<Hit>)
    requires r == [h] + rest
    requires HitShape(pat, s, h) && i <= h.start
    requires forall k :: 0 <= k < |rest| ==> HitShape(pat, s, rest[k]) && h.end <= rest[k].start
    requires forall k :: 0 < k < |rest| ==> rest[k - 1].end <= rest[k].start
    ensures forall k :: 0 <= k < |r| ==> HitShape(pat, s, r[k]) && i <= r[k].start
    ensures forall k :: 0 < k < |r| ==> r[k - 1].end <= r[k].start
    ensures forall k :: 0 <= k < |r| ==> r[k].end <= |s|
  {
    forall k | 0 < k < |r|
      ensures r[k - 1].end <= r[k].start
    {
      if k > 1 {
        assert r[k - 1] == rest[k - 2] && r[k] == rest[k - 1];
      }
    }
  }

  /** Every match after the first is what the search finds when it resumes at the end of the match before. */
  lemma {:induction false} FindAllResumes(pat: Pattern, s: string, i: nat)
    requires i <= |s|
    ensures Resumes(pat, s, FindAll(pat, s, i))
    decreases |s| - i
  {
    var r := FindAll(pat, s, i);
    assert r == [] <==> Search(pat, s, i).None?;
    if r != [] {
      var h := Search(pat, s, i).value;
      FindAllResumes(pat, s, h.end);
      assert r == [h] + FindAll(pat, s, h.end);
      assert r[1..] == FindAll(pat, s, h.end);
    }
  }

  /**
   * Each match in `r` is what the search finds when it resumes at the end of
   * the match before it, and resuming after the last one finds nothing.
   */
  ghost predicate Resumes(pat: Pattern, s: string, r: seq<Hit>)
    decreases |r|
  {
    r != [] ==>
      && r[0].end <= |s|
      && (if |r| == 1 then Search(pat, s, r[0].end).None? else Search(pat, s, r[0].end) == Some(r[1]))
      && Resumes(pat, s, r[1..])
  }

  /** `Resumes`, position by position. */
  lemma {:induction false} ResumesAt(pat: Pattern, s: string, r: seq<Hit>)
    requires Resumes(pat, s, r)
    ensures forall k :: 0 <= k < |r| ==> r[k].end <= |s|
    ensures forall k :: 0 < k < |r| ==> Search(pat, s, r[k - 1].end) == Some(r[k])
    ensures r != [] ==> Search(pat, s, r[|r| - 1].end).None?
    decreases |r|
  {
    if r != [] {
      ResumesAt(pat, s, r[1..]);
      forall k | 0 < k < |r|
        ensures Search(pat, s, r[k - 1].end) == Some(r[k])
      {
        if k > 1 {
          assert r[k - 1] == r[1..][k - 2] && r[k] == r[1..][k - 1];
        }
      }
    }
  }
}
