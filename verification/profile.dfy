/**
 * `parse_linkedin_text`: the seven profile fields derived from the text of a
 * profile page.
 */
module Profile {
  import opened Wrappers
  import opened Seqs
  import opened Text
  import opened Scanners

  /** The fields the parser fills; every one is "" when nothing was found. */
  datatype ProfileInfo = ProfileInfo(
    currentTitle: string,
    currentCompany: string,
    headline: string,
    location: string,
    education: string,
    orgRole: string,
    orgYears: string)

  const EmptyProfile: ProfileInfo := ProfileInfo("", "", "", "", "", "", "")

  // ---------------------------------------------------------------------------
  // Lines and headline (lines 114-117)

  /** Every part stripped, keeping those that are not blank, in order. */
  function NonBlankStripped(parts: seq<string>): (r: seq<string>)
    ensures |r| <= |parts|
    ensures forall k :: 0 <= k < |r| ==> r[k] != "" && IsStripped(r[k])
    decreases |parts|
  {
    if parts == [] then []
    else
      var rest := NonBlankStripped(parts[1..]);
      if Strip(parts[0]) != "" then [Strip(parts[0])] + rest else rest
  }

  /** Stripping and dropping lines adds no character: one absent from every part is absent from every kept line. */
  lemma {:induction false} NonBlankKeepsOut(parts: seq<string>, c: char)
    requires forall j :: 0 <= j < |parts| ==> c !in parts[j]
    ensures forall k :: 0 <= k < |NonBlankStripped(parts)| ==> c !in NonBlankStripped(parts)[k]
    decreases |parts|
  {
    if parts != [] {
      var rest := parts[1..];
      assert forall j :: 0 <= j < |rest| ==> c !in rest[j] by {
        forall j | 0 <= j < |rest| ensures c !in rest[j] {
          assert rest[j] == parts[j + 1];
        }
      }
      NonBlankKeepsOut(rest, c);
      StripKeepsCharacters(parts[0]);
    }
  }

  /** The non-blank lines of a profile text, each stripped. */
  function Lines(text: string): (r: seq<string>)
    ensures forall k :: 0 <= k < |r| ==> r[k] != "" && IsStripped(r[k]) && '\n' !in r[k]
  {
    var parts := SplitOn(Strip(text), '\n');
    NonBlankKeepsOut(parts, '\n');
    NonBlankStripped(parts)
  }

  /** The first part contributes its strip when that is not blank, then the rest follows. */
  lemma NonBlankHead(parts: seq<string>)
    requires parts != []
    ensures NonBlankStripped(parts) ==
              (if Strip(parts[0]) != "" then [Strip(parts[0])] else []) + NonBlankStripped(parts[1..])
  {
  }

  /** A single part is kept, stripped, exactly when it is not blank. */
  lemma NonBlankStrippedOne(x: string)
    ensures NonBlankStripped([x]) == if Strip(x) != "" then [Strip(x)] else []
  {
    NonBlankHead([x]);
    assert [x][1..] == [];
  }

  /** The parts of a concatenation are kept in order, each as often as it occurs. */
  lemma {:induction false} NonBlankStrippedConcat(a: seq<string>, b: seq<string>)
    ensures NonBlankStripped(a + b) == NonBlankStripped(a) + NonBlankStripped(b)
    decreases |a|
  {
    if a == [] {
      assert a + b == b;
    } else {
      var head := if Strip(a[0]) != "" then [Strip(a[0])] else [];
      var tail, rest := NonBlankStripped(a[1..]), NonBlankStripped(b);
      calc {
        NonBlankStripped(a + b);
        { assert (a + b)[1..] == a[1..] + b; NonBlankHead(a + b); }
        head + NonBlankStripped(a[1..] + b);
        { NonBlankStrippedConcat(a[1..], b); }
        head + (tail + rest);
        (head + tail) + rest;
        { NonBlankHead(a); }
        NonBlankStripped(a) + rest;
      }
    }
  }

  /** Whitespace in front of a text changes none of its stripped non-blank lines. */
  lemma LeadingSpaceLines(c: char, s: string)
    requires IsSpace(c)
    ensures NonBlankStripped(SplitOn([c] + s, '\n')) == NonBlankStripped(SplitOn(s, '\n'))
  {
    var p := SplitOn(s, '\n');
    if c == '\n' {
      SplitAtEnds(s, '\n');
      NonBlankHead([""] + p);
      assert ([""] + p)[1..] == p;
    } else {
      SplitPrependChar(c, s, '\n');
      StripLeftPadding([c], p[0]);
      NonBlankHead([[c] + p[0]] + p[1..]);
      NonBlankHead(p);
      assert ([[c] + p[0]] + p[1..])[1..] == p[1..];
    }
  }

  /** Whitespace after a text changes none of its stripped non-blank lines. */
  lemma TrailingSpaceLines(s: string, c: char)
    requires IsSpace(c)
    ensures NonBlankStripped(SplitOn(s + [c], '\n')) == NonBlankStripped(SplitOn(s, '\n'))
  {
    var p := SplitOn(s, '\n');
    if c == '\n' {
      SplitAtEnds(s, '\n');
      NonBlankStrippedConcat(p, [""]);
      NonBlankStrippedOne("");
    } else {
      SplitAppendChar(s, c, '\n');
      LastPartPadded(p, c);
    }
  }

  /** Whitespace added to the last part changes none of the stripped non-blank parts. */
  lemma LastPartPadded(p: seq<string>, c: char)
    requires p != [] && IsSpace(c)
    ensures NonBlankStripped(p[..|p| - 1] + [p[|p| - 1] + [c]]) == NonBlankStripped(p)
  {
    var front, last := p[..|p| - 1], p[|p| - 1];
    StripRightPadding(last, [c]);
    NonBlankStrippedConcat(front, [last + [c]]);
    NonBlankStrippedOne(last + [c]);
    NonBlankStrippedConcat(front, [last]);
    NonBlankStrippedOne(last);
    FrontLast(p);
  }

  /** Whitespace in front of a text changes none of its stripped non-blank lines. */
  lemma {:induction false} LeadingPadLines(w: string, s: string)
    requires forall k :: 0 <= k < |w| ==> IsSpace(w[k])
    ensures NonBlankStripped(SplitOn(w + s, '\n')) == NonBlankStripped(SplitOn(s, '\n'))
    decreases |w|
  {
    if w != [] {
      LeadingPadLines(w[1..], s);
      ConsConcat(w, s);
      LeadingSpaceLines(w[0], w[1..] + s);
    } else {
      assert w + s == s;
    }
  }

  /** Whitespace after a text changes none of its stripped non-blank lines. */
  lemma {:induction false} TrailingPadLines(s: string, w: string)
    requires forall k :: 0 <= k < |w| ==> IsSpace(w[k])
    ensures NonBlankStripped(SplitOn(s + w, '\n')) == NonBlankStripped(SplitOn(s, '\n'))
    decreases |w|
  {
    if w != [] {
      var front := w[..|w| - 1];
      TrailingPadLines(s, front);
      SnocConcat(s, w);
      TrailingSpaceLines(s + front, w[|w| - 1]);
    } else {
      assert s + w == s;
    }
  }

  /** Stripping the whole text first changes none of its lines. */
  lemma LinesOfUnstripped(text: string)
    ensures Lines(text) == NonBlankStripped(SplitOn(text, '\n'))
  {
    var w1, w2 := StripPadding(text);
    var m := Strip(text);
    TrailingPadLines(m, w2);
    LeadingPadLines(w1, m + w2);
  }

  /**
   * Line by line: a single line gives its strip when that is not blank and
   * nothing otherwise, and the lines of two texts joined by a newline are the
   * lines of the first followed by those of the second.
   */
  lemma LinesByPart(a: string, b: string, x: string)
    ensures '\n' !in x ==> Lines(x) == if Strip(x) != "" then [Strip(x)] else []
    ensures Lines(a + "\n" + b) == Lines(a) + Lines(b)
  {
    LinesOfUnstripped(x);
    LinesOfUnstripped(a);
    LinesOfUnstripped(b);
    LinesOfUnstripped(a + "\n" + b);
    if '\n' !in x {
      SplitWithoutSep(x, '\n');
      NonBlankStrippedOne(x);
    }
    SplitConcat(a, b, '\n');
    NonBlankStrippedConcat(SplitOn(a, '\n'), SplitOn(b, '\n'));
  }

  /** The line after the name, or "" when the text has fewer than two non-blank lines. */
  function Headline(lines: seq<string>): (r: string)
    ensures |lines| > 1 ==> r == lines[1]
    ensures |lines| <= 1 ==> r == ""
  {
    if |lines| > 1 then lines[1] else ""
  }

  /** Stripped, non-blank, newline-free lines: what a tidy profile page is made of. */
  predicate IsTidyLine(l: string) {
    l != "" && IsStripped(l) && '\n' !in l
  }

  lemma {:induction false} JoinEnds(ls: seq<string>)
    requires |ls| >= 1 && forall k :: 0 <= k < |ls| ==> ls[k] != ""
    ensures JoinWith(ls, "\n") != []
    ensures JoinWith(ls, "\n")[0] == ls[0][0]
    ensures JoinWith(ls, "\n")[|JoinWith(ls, "\n")| - 1] == ls[|ls| - 1][|ls[|ls| - 1]| - 1]
    decreases |ls|
  {
    if |ls| > 1 {
      JoinEnds(ls[1..]);
    }
  }

  /** Splitting tidy lines joined by newlines into lines gives them back. */
  lemma LinesOfJoin(ls: seq<string>)
    requires |ls| >= 1 && forall k :: 0 <= k < |ls| ==> IsTidyLine(ls[k])
    ensures Lines(JoinWith(ls, "\n")) == ls
  {
    var text := JoinWith(ls, "\n");
    JoinEnds(ls);
    StripOfStripped(text);
    SplitJoin(ls, '\n');
    forall k | 0 <= k < |ls| ensures ls[k] != "" && Strip(ls[k]) == ls[k] {
      StripOfStripped(ls[k]);
    }
    NonBlankOfTidy(ls);
  }

  /** Lines that are already stripped and non-blank all survive, unchanged. */
  lemma {:induction false} NonBlankOfTidy(ls: seq<string>)
    requires forall k :: 0 <= k < |ls| ==> ls[k] != "" && Strip(ls[k]) == ls[k]
    ensures NonBlankStripped(ls) == ls
    decreases |ls|
  {
    if ls != [] {
      var rest := ls[1..];
      assert forall k :: 0 <= k < |rest| ==> rest[k] != "" && Strip(rest[k]) == rest[k] by {
        forall k | 0 <= k < |rest| ensures rest[k] != "" && Strip(rest[k]) == rest[k] {
          assert rest[k] == ls[k + 1];
        }
      }
      NonBlankOfTidy(rest);
    }
  }

  /** On a page made of tidy lines the headline is the second of them. */
  lemma HeadlineIsSecondLine(ls: seq<string>)
    requires |ls| >= 2 && forall k :: 0 <= k < |ls| ==> IsTidyLine(ls[k])
    ensures Headline(Lines(JoinWith(ls, "\n"))) == ls[1]
  {
    LinesOfJoin(ls);
  }

  // ---------------------------------------------------------------------------
  // Current title and company (lines 120-141)

  /**
   * The header used for the current role: a `(Current)`-marked one anywhere,
   * otherwise the first header from `## Experience` on (positions in the
   * fallback are relative to that heading).
   */
  function CurrentRoleHit(text: string): (r: Option<Hit>)
    ensures r.Some? ==> Contains(text, Marker) || Contains(text, "## Experience")
    ensures r.Some? ==> r.value.detail.Company?
    ensures (exists p :: 0 <= p <= |text| && MatchAt(CurrentRole, text, p).Some?) ==>
              && r.Some? && MatchAt(CurrentRole, text, r.value.start) == r
              && forall p :: 0 <= p < r.value.start ==> MatchAt(CurrentRole, text, p).None?
    ensures (forall p :: 0 <= p <= |text| ==> MatchAt(CurrentRole, text, p).None?) ==>
              match Find(text, "## Experience")
              case None => r.None?
              case Some(i) =>
                var rest := text[i..];
                && (r.None? <==> forall p :: 0 <= p <= |rest| ==> MatchAt(AnyRole, rest, p).None?)
                && (r.Some? ==> MatchAt(AnyRole, rest, r.value.start) == r
                                && forall p :: 0 <= p < r.value.start ==> MatchAt(AnyRole, rest, p).None?)
  {
    var marked := Search(CurrentRole, text, 0);
    LeftmostMatch(CurrentRole, text);
    if marked.Some? then
      OccursInContains(text, marked.value.end - |Marker|, Marker);
      marked
    else
      match Find(text, "## Experience")
      case Some(i) =>
        LeftmostMatch(AnyRole, text[i..]);
        Search(AnyRole, text[i..], 0)
      case None => None
  }

  /** A search from the start finds the leftmost match, and fails exactly when nothing matches. */
  lemma LeftmostMatch(pat: Pattern, s: string)
    ensures var r := Search(pat, s, 0);
            && (r.None? <==> forall p :: 0 <= p <= |s| ==> MatchAt(pat, s, p).None?)
            && (r.Some? ==> MatchAt(pat, s, r.value.start) == r
                            && forall p :: 0 <= p < r.value.start ==> MatchAt(pat, s, p).None?)
  {
  }

  /** For a stripped company, a final "(Current)" is removed together with the whitespace before it. */
  function DropCurrentMarker(c: string): (r: string)
    requires IsStripped(c)
    ensures EndsWith(c, Marker) ==>
              && |r| + |Marker| <= |c| && c[..|r|] == r
              && (forall m :: |r| <= m < |c| - |Marker| ==> IsSpace(c[m]))
              && IsStripped(r)
    ensures !EndsWith(c, Marker) ==> r == c
  {
    if EndsWith(c, Marker) then
      var t := c[..|c| - |Marker|];
      var n := RunStart(t, |t|, Space);
      assert c[..n] == t[..n];
      t[..n]
    else c
  }

  /** The `(Current)` marker removed from a company name, and the name stripped (line 141). */
  function CleanCompany(name: string): (r: string)
    ensures IsStripped(r)
    ensures !EndsWith(Strip(name), Marker) ==> r == Strip(name)
    ensures EndsWith(Strip(name), Marker) ==>
              var c := Strip(name);
              && |r| + |Marker| <= |c| && c[..|r|] == r
              && forall m :: |r| <= m < |c| - |Marker| ==> IsSpace(c[m])
  {
    var c := Strip(name);
    var d := DropCurrentMarker(c);
    StripOfStripped(d);
    Strip(d)
  }

  /** Title and company of the current role, "" when no header matched. */
  function CurrentRoleOf(text: string): (r: (string, string))
    ensures IsStripped(r.0) && IsStripped(r.1) && '\n' !in r.0
    ensures !Contains(text, Marker) && !Contains(text, "## Experience") ==> r == ("", "")
    ensures match CurrentRoleHit(text)
            case Some(h) => r == (Strip(h.title), CleanCompany(h.detail.name))
            case None => r == ("", "")
  {
    match CurrentRoleHit(text)
    case Some(h) =>
      StripKeepsCharacters(h.title);
      (Strip(h.title), CleanCompany(h.detail.name))
    case None => ("", "")
  }

  // ---------------------------------------------------------------------------
  // Location (lines 144-153)

  /** The line mentions "connections" or "followers", in any letter case. */
  predicate MentionsAudience(line: string) {
    Contains(Lower(line), "connections") || Contains(Lower(line), "followers")
  }

  /** The test ignores letter case, and the words in lower case are always found. */
  lemma MentionsAudienceIgnoresCase(line: string)
    ensures MentionsAudience(line) <==> MentionsAudience(Lower(line))
    ensures Contains(line, "connections") || Contains(line, "followers") ==> MentionsAudience(line)
  {
    LowerIdempotent(line);
    LowerKeepsLowerWord(line, "connections");
    LowerKeepsLowerWord(line, "followers");
  }

  /** The line ends, up to trailing whitespace, with two capital letters in parentheses. */
  predicate HasRegionCode(line: string) {
    var t := TrimRight(line);
    |t| >= 4 && t[|t| - 4] == '(' && IsUpper(t[|t| - 3]) && IsUpper(t[|t| - 2]) && t[|t| - 1] == ')'
  }

  /** Trailing whitespace makes no difference to the test. */
  lemma RegionCodeIgnoresTrailingSpace(line: string)
    ensures HasRegionCode(line) <==> HasRegionCode(TrimRight(line))
  {
    TrimRightIdempotent(line);
  }

  /** The line without its final region code and the whitespace around that code. */
  function DropRegionCode(line: string): (r: string)
    requires HasRegionCode(line)
    ensures StartsWith(line, r)
    ensures var t := TrimRight(line);
            |r| + 4 <= |t| && (forall m :: |r| <= m < |t| - 4 ==> IsSpace(t[m]))
            && t[|t| - 4..] == ['(', t[|t| - 3], t[|t| - 2], ')']
    ensures r == [] || !IsSpace(r[|r| - 1])
  {
    var t := TrimRight(line);
    var u := t[..|t| - 4];
    var n := RunStart(u, |u|, Space);
    assert line[..n] == u[..n];
    u[..n]
  }

  /**
   * A "City, Region" line: a capital, a small letter, then on the same line a
   * comma followed, after optional whitespace, by a capital.
   */
  predicate CityLike(line: string) {
    && |line| >= 2 && IsUpper(line[0]) && IsLower(line[1])
    && exists c | 2 <= c < |line| :: CommaBeforeCapital(line, c)
  }

  /** A comma at `c`, no newline between the second character and it, and a capital as the first non-space after it. */
  predicate CommaBeforeCapital(line: string, c: nat) {
    && 2 <= c < |line| && line[c] == ','
    && (forall m :: 2 <= m < c ==> line[m] != '\n')
    && var f := RunEnd(line, c + 1, Space);
       f < |line| && IsUpper(line[f])
  }

  /** The test reads a line from its start: text after a "City, Region" line does not change it. */
  lemma CityLikeExtends(line: string, more: string)
    requires CityLike(line)
    ensures CityLike(line + more)
  {
    var c :| 2 <= c < |line| && CommaBeforeCapital(line, c);
    var s := line + more;
    var f := RunEnd(line, c + 1, Space);
    RunEndIs(s, c + 1, Space, f);
    assert CommaBeforeCapital(s, c);
  }

  /** What a window line contributes: `None` to go on scanning, `Some(loc)` to stop with `loc`. */
  function LocationRule(line: string): (r: Option<string>)
    ensures MentionsAudience(line) ==> r == Some("")
    ensures r.Some? && !MentionsAudience(line) ==>
              || (HasRegionCode(line) && r.value == Strip(DropRegionCode(line)))
              || (!HasRegionCode(line) && CityLike(line) && !Contains(line, "at ") && !Contains(line, "##")
                  && r.value == Strip(line))
    ensures r.None? <==> !MentionsAudience(line) && !HasRegionCode(line)
                         && !(CityLike(line) && !Contains(line, "at ") && !Contains(line, "##"))
  {
    if MentionsAudience(line) then Some("")
    else if HasRegionCode(line) then Some(Strip(DropRegionCode(line)))
    else if CityLike(line) && !Contains(line, "at ") && !Contains(line, "##") then Some(Strip(line))
    else None
  }

  /** The rule applied to `lines[k]`, for `k` in the window `lines[2:6]`. */
  function WindowRule(lines: seq<string>): nat -> Option<string> {
    (k: nat) => if k < |lines| then LocationRule(lines[k]) else None
  }

  /**
   * The loop `for line in lines[2:6]`: the first line whose rule stops the
   * scan decides the location, and "" when none does.
   */
  function LocationOf(lines: seq<string>): (r: string)
    ensures r != "" ==> exists k :: 2 <= k < |lines| && k < 6 && LocationRule(lines[k]) == Some(r)
                                    && forall m :: 2 <= m < k ==> LocationRule(lines[m]).None?
    ensures forall k :: 2 <= k < |lines| && k < 6 && LocationRule(lines[k]).Some?
                        && (forall m :: 2 <= m < k ==> LocationRule(lines[m]).None?) ==>
              r == LocationRule(lines[k]).value
    ensures (forall k :: 2 <= k < |lines| && k < 6 ==> LocationRule(lines[k]).None?) ==> r == ""
  {
    var rule := WindowRule(lines);
    var found := FirstSome(rule, 2, 5);
    FirstSomeIsFirst(rule, 2, 5);
    assert forall k: nat :: k < |lines| ==> rule(k) == LocationRule(lines[k]);
    match found
    case Some(loc) => loc
    case None => ""
  }

  /**
   * A non-empty location comes from one of the 3rd to 6th lines, with no
   * earlier line of the window mentioning connections or followers; it is
   * that line with its final "(XX)" code removed, or a "City, Region" line
   * holding neither "at " nor "##".
   */
  lemma LocationSource(lines: seq<string>)
    ensures var r := LocationOf(lines);
            r != "" ==>
              exists k :: 2 <= k < |lines| && k < 6
                          && !MentionsAudience(lines[k])
                          && (forall m :: 2 <= m < k ==> !MentionsAudience(lines[m]))
                          && (|| (HasRegionCode(lines[k]) && r == Strip(DropRegionCode(lines[k])))
                              || (!HasRegionCode(lines[k]) && CityLike(lines[k])
                                  && !Contains(lines[k], "at ") && !Contains(lines[k], "##")
                                  && r == Strip(lines[k])))
  {
    var r := LocationOf(lines);
    if r != "" {
      var k :| 2 <= k < |lines| && k < 6 && LocationRule(lines[k]) == Some(r)
               && forall m :: 2 <= m < k ==> LocationRule(lines[m]).None?;
      assert !MentionsAudience(lines[k]);
    }
  }

  // ---------------------------------------------------------------------------
  // Education (line 155)

  function Education(text: string): (r: string)
    ensures r == "UC Berkeley" <==> Contains(Lower(text), "berkeley")
    ensures r == "" <==> !Contains(Lower(text), "berkeley")
  {
    if Contains(Lower(text), "berkeley") then "UC Berkeley" else ""
  }

  // ---------------------------------------------------------------------------
  // Organisation role and years (lines 159-173)

  /** The stripped title of every hit, in order. */
  function StrippedTitles(hits: seq<Hit>): (r: seq<string>)
    ensures |r| == |hits|
    ensures forall k :: 0 <= k < |r| ==> r[k] == Strip(hits[k].title)
  {
    seq(|hits|, k requires 0 <= k < |hits| => Strip(hits[k].title))
  }

  /** The stripped titles of the hits, joined with " / ". */
  function OrgRoleOf(hits: seq<Hit>): (r: string)
    ensures hits == [] ==> r == ""
    ensures |hits| == 1 ==> r == Strip(hits[0].title)
  {
    JoinWith(StrippedTitles(hits), " / ")
  }

  /** One more hit adds " / " and its stripped title at the end of the role. */
  lemma OrgRoleOfAppend(hits: seq<Hit>, h: Hit)
    requires hits != []
    ensures OrgRoleOf(hits + [h]) == OrgRoleOf(hits) + " / " + Strip(h.title)
  {
    assert StrippedTitles(hits + [h]) == StrippedTitles(hits) + [Strip(h.title)];
    JoinAppend(StrippedTitles(hits), [Strip(h.title)], " / ");
  }

  /** The start date of the last hit, " - ", and the end date of the first hit; "" without hits. */
  function OrgYearsOf(hits: seq<Hit>): (r: string)
    requires forall k :: 0 <= k < |hits| ==> hits[k].detail.Tenure?
    ensures hits == [] ==> r == ""
    ensures |hits| == 1 ==> r == hits[0].detail.start + " - " + hits[0].detail.finish
    ensures hits != [] ==> StartsWith(r, hits[|hits| - 1].detail.start) && EndsWith(r, hits[0].detail.finish)
    ensures hits != [] ==> var a := hits[|hits| - 1].detail.start;
                           |r| == |a| + 3 + |hits[0].detail.finish| && r[|a|..|a| + 3] == " - "
  {
    if hits == [] then "" else hits[|hits| - 1].detail.start + " - " + hits[0].detail.finish
  }

  // ---------------------------------------------------------------------------
  // The whole parser

  /** `parse_linkedin_text` */
  function ParseProfile(text: string): (r: ProfileInfo)
    ensures text == "" ==> r == EmptyProfile
    ensures text != "" ==> r.headline == Headline(Lines(text)) && r.location == LocationOf(Lines(text))
    ensures r.education == "UC Berkeley" <==> Contains(Lower(text), "berkeley")
    ensures r.education == "" <==> !Contains(Lower(text), "berkeley")
    ensures !Contains(text, Marker) && !Contains(text, "## Experience") ==>
              r.currentTitle == "" && r.currentCompany == ""
    ensures match CurrentRoleHit(text)
            case Some(h) => r.currentTitle == Strip(h.title) && r.currentCompany == CleanCompany(h.detail.name)
            case None => r.currentTitle == "" && r.currentCompany == ""
    ensures FindAll(OrgRole, text, 0) == [] ==> r.orgRole == "" && r.orgYears == ""
    ensures FindAll(OrgRole, text, 0) != [] ==>
              var hits := FindAll(OrgRole, text, 0);
              && r.orgRole == JoinWith(StrippedTitles(hits), " / ")
              && r.orgYears == hits[|hits| - 1].detail.start + " - " + hits[0].detail.finish
              && IsMonthYear(hits[|hits| - 1].detail.start)
  {
    if text == "" then EmptyProfile
    else
      var lines := Lines(text);
      var (title, company) := CurrentRoleOf(text);
      var hits := FindAll(OrgRole, text, 0);
      ProfileInfo(title, company, Headline(lines), LocationOf(lines), Education(text),
                  OrgRoleOf(hits), OrgYearsOf(hits))
  }
}
