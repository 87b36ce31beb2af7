/**
 * The scanners do find what they are meant to find. A header
 * `### T at C` with a one- or two-word title, a plain or a linked
 * `[C](U)` company, the `(Current)` marker, or the organisation line with
 * its two dates, is matched with exactly the expected groups, at the start
 * of the text or anywhere a header begins; two organisation headers on
 * successive lines are both found, in order, by the successive searches.
 */
module ScannerExamples {
  import opened Wrappers
  import opened Seqs
  import opened Text
  import opened Scanners

  /** `"### " + title + " at " + rest` */
  function Header(title: string, rest: string): string {
    "### " + title + " at " + rest
  }

  /** What follows ` at ` in a header. */
  lemma HeaderRest(title: string, rest: string)
    ensures 8 + |title| <= |Header(title, rest)| && Header(title, rest)[8 + |title|..] == rest
  {
    assert Header(title, rest) == ("### " + title + " at ") + rest;
  }

  /** Where the pieces of a header sit. */
  lemma HeaderLayout(title: string, rest: string)
    ensures var s := Header(title, rest);
            var q := 4 + |title|;
            && |s| == q + 4 + |rest|
            && s[0] == '#' && s[1] == '#' && s[2] == '#' && s[3] == ' '
            && s[4..q] == title
            && (forall m :: 4 <= m < q ==> s[m] == title[m - 4])
            && s[q] == ' ' && s[q + 1] == 'a' && s[q + 2] == 't' && s[q + 3] == ' '
            && s[q + 4..] == rest
            && (forall m :: q + 4 <= m < |s| ==> s[m] == rest[m - q - 4])
  {
    var s := Header(title, rest);
    assert s == "### " + title + " at " + rest;
  }

  /** Where the next character is not whitespace, ` at ` cannot start. */
  lemma NoTailInWord(pat: Pattern, s: string, q: nat)
    requires q < |s| && !IsSpace(s[q])
    ensures AfterTitle(pat, s, q).None?
  {
    RunEndIs(s, q, Space, q);
  }

  /** The lazy title starting at `k` cannot stop inside a word, so it stops at the first `q` after it where ` at ` and the tail follow. */
  lemma TitleStopsAfterWord(pat: Pattern, s: string, p: nat, k: nat, q: nat, t: Tail)
    requires k < q <= |s|
    requires forall m :: k <= m < q ==> !IsSpace(s[m])
    requires AfterTitle(pat, s, q) == Some(t)
    ensures TitleFrom(pat, s, p, k) == Some(Hit(p, s[k..q], t.detail, t.end))
  {
    var n := IndexOf(s, '\n', k);
    WordBeforeNewline(s, k, q);
    var attempts := TitleAttempts(pat, s, p, k);
    NoTitleEndInWord(pat, s, p, k, q);
    assert forall m :: k + 1 <= m < q ==> attempts(m).None?;
    FirstSomeSkips(attempts, k + 1, q, n);
    TitleEndsAt(pat, s, p, k, q, t);
    assert attempts(q) == Some(Hit(p, s[k..q], t.detail, t.end));
  }

  /** The title ending at `q`, when the tail follows it there. */
  lemma TitleEndsAt(pat: Pattern, s: string, p: nat, k: nat, q: nat, t: Tail)
    requires k < q <= |s| && AfterTitle(pat, s, q) == Some(t)
    ensures TitleAttempt(pat, s, p, k, q) == Some(Hit(p, s[k..q], t.detail, t.end))
  {
  }

  /** Inside a word no title can end: ` at ` needs whitespace first. */
  lemma NoTitleEndInWord(pat: Pattern, s: string, p: nat, k: nat, q: nat)
    requires q <= |s|
    requires forall m :: k <= m < q ==> !IsSpace(s[m])
    ensures forall m :: k + 1 <= m < q ==> TitleAttempt(pat, s, p, k, m).None?
  {
    forall m | k + 1 <= m < q
      ensures TitleAttempt(pat, s, p, k, m).None?
    {
      NoTailInWord(pat, s, m);
    }
  }

  /** A word (no whitespace, so no newline) ends before the next newline. */
  lemma WordBeforeNewline(s: string, k: nat, q: nat)
    requires k < q <= |s|
    requires forall m :: k <= m < q ==> !IsSpace(s[m])
    ensures q <= IndexOf(s, '\n', k)
  {
  }

  /** ` at ` with single spaces at `q`, then the tail: the longest runs succeed at once. */
  lemma AtThenTail(pat: Pattern, s: string, q: nat, t: Tail)
    requires q + 4 < |s|
    requires s[q] == ' ' && s[q + 1] == 'a' && s[q + 2] == 't' && s[q + 3] == ' ' && !IsSpace(s[q + 4])
    requires TailAt(pat, s, q + 4) == Some(t)
    ensures AfterTitle(pat, s, q) == Some(t)
  {
    AtWithSingleSpaces(pat, s, q);
    TailFromFirst(pat, s, q + 1, q + 4);
  }

  /** ` at ` with single spaces at `q`: the tail is tried after the second space first. */
  lemma AtWithSingleSpaces(pat: Pattern, s: string, q: nat)
    requires q + 4 < |s|
    requires s[q] == ' ' && s[q + 1] == 'a' && s[q + 2] == 't' && s[q + 3] == ' ' && !IsSpace(s[q + 4])
    ensures AfterTitle(pat, s, q) == TailFrom(pat, s, q + 1, q + 4)
  {
    AtRuns(s, q);
  }

  /** The runs and the word of ` at ` with single spaces. */
  lemma AtRuns(s: string, q: nat)
    requires q + 4 < |s|
    requires s[q] == ' ' && s[q + 1] == 'a' && s[q + 2] == 't' && s[q + 3] == ' ' && !IsSpace(s[q + 4])
    ensures RunEnd(s, q, Space) == q + 1 && OccursAt(s, q + 1, "at") && RunEnd(s, q + 3, Space) == q + 4
  {
    RunEndIs(s, q, Space, q + 1);
    RunEndIs(s, q + 3, Space, q + 4);
    OccursAtTwo(s, q + 1, "at");
  }

  /** A tail found at the end of the longest run is the one taken. */
  lemma TailFromFirst(pat: Pattern, s: string, g: nat, h: nat)
    requires g + 3 <= h <= |s| && TailAt(pat, s, h).Some?
    ensures TailFrom(pat, s, g, h) == TailAt(pat, s, h)
  {
  }

  /** A two-character word read off its characters. */
  lemma OccursAtTwo(s: string, i: nat, w: string)
    requires |w| == 2 && i + 2 <= |s| && s[i] == w[0] && s[i + 1] == w[1]
    ensures OccursAt(s, i, w)
  {
    assert s[i..i + 2] == w;
  }

  /** After a one-word title, ` at ` with single spaces, and then the tail. */
  lemma HeaderTail(pat: Pattern, title: string, rest: string, t: Tail)
    requires rest != [] && !IsSpace(rest[0])
    requires TailAt(pat, Header(title, rest), 8 + |title|) == Some(t)
    ensures |Header(title, rest)| == 8 + |title| + |rest|
    ensures AfterTitle(pat, Header(title, rest), 4 + |title|) == Some(t)
  {
    var s := Header(title, rest);
    var q := 4 + |title|;
    HeaderLayout(title, rest);
    assert s[q + 4] == rest[0];
    AtThenTail(pat, s, q, t);
  }

  /** A header whose title is one word and whose tail matches right after ` at `. */
  lemma HeaderMatches(pat: Pattern, title: string, rest: string, t: Tail)
    requires IsToken(title)
    requires rest != [] && !IsSpace(rest[0])
    requires TailAt(pat, Header(title, rest), 8 + |title|) == Some(t)
    ensures MatchAt(pat, Header(title, rest), 0) == Some(Hit(0, title, t.detail, t.end))
  {
    var s := Header(title, rest);
    assert s[0..|s|] == s;
    HeaderPieces(s, 0, |s|, title, rest);
    HeaderMatchesAt(pat, s, 0, 8 + |title|, title, t);
  }

  // ---------------------------------------------------------------------------
  // Two-word titles

  /** Where whitespace is followed by something other than `at`, ` at ` cannot start. */
  lemma NoTailBeforeOtherWord(pat: Pattern, s: string, m: nat)
    requires m + 1 < |s| && IsSpace(s[m]) && !IsSpace(s[m + 1]) && !OccursAt(s, m + 1, "at")
    ensures AfterTitle(pat, s, m).None?
  {
    RunEndIs(s, m, Space, m + 1);
  }

  /** Between `lo` and `hi` no character is whitespace, so no title can end there. */
  lemma NoTitleEndBetween(pat: Pattern, s: string, p: nat, k: nat, lo: nat, hi: nat)
    requires hi <= |s|
    requires forall x :: lo <= x < hi ==> !IsSpace(s[x])
    ensures forall x :: lo <= x < hi ==> TitleAttempt(pat, s, p, k, x).None?
  {
    forall x | lo <= x < hi
      ensures TitleAttempt(pat, s, p, k, x).None?
    {
      NoTailInWord(pat, s, x);
    }
  }

  /**
   * A title of two words: the lazy title cannot stop inside either word, nor
   * at the space between them when the second word does not begin with
   * `at`, so it stops after the second word where ` at ` and the tail follow.
   */
  lemma TitleStopsAfterTwoWords(pat: Pattern, s: string, p: nat, k: nat, m: nat, q: nat, t: Tail)
    requires TwoWords(s, k, m, q)
    requires AfterTitle(pat, s, q) == Some(t)
    ensures TitleFrom(pat, s, p, k) == Some(Hit(p, s[k..q], t.detail, t.end))
  {
    var n := IndexOf(s, '\n', k);
    assert q <= n by {
      assert forall x :: k <= x < q ==> s[x] != '\n';
    }
    var attempts := TitleAttempts(pat, s, p, k);
    NoTitleEndInWord(pat, s, p, k, m);
    NoTailBeforeOtherWord(pat, s, m);
    NoTitleEndBetween(pat, s, p, k, m + 1, q);
    forall x | k + 1 <= x < q
      ensures TitleAttempt(pat, s, p, k, x).None?
    {
      if x == m {
        assert AfterTitle(pat, s, m).None?;
      }
    }
    AttemptsFail(pat, s, p, k, q);
    FirstSomeSkips(attempts, k + 1, q, n);
    TitleEndsAt(pat, s, p, k, q, t);
    assert attempts(q) == Some(Hit(p, s[k..q], t.detail, t.end));
  }

  /**
   * `s[k..q]` is two words separated by the single space at `m`, and the
   * second word does not begin with `at`.
   */
  ghost predicate TwoWords(s: string, k: nat, m: nat, q: nat) {
    && k < m && m + 1 < q <= |s|
    && Unspaced(s, k, m)
    && s[m] == ' '
    && Unspaced(s, m + 1, q)
    && !OccursAt(s, m + 1, "at")
  }

  /** No whitespace in `s[k..m]`. */
  ghost predicate Unspaced(s: string, k: nat, m: nat) {
    m <= |s| && forall x :: k <= x < m ==> !IsSpace(s[x])
  }

  /** Failed title ends, as attempts. */
  lemma AttemptsFail(pat: Pattern, s: string, p: nat, k: nat, q: nat)
    requires forall x :: k + 1 <= x < q ==> TitleAttempt(pat, s, p, k, x).None?
    ensures forall x :: k + 1 <= x < q ==> TitleAttempts(pat, s, p, k)(x).None?
  {
  }

  /** The second word does not begin with `at`. */
  predicate NotAtWord(w: string) {
    !(|w| >= 2 && w[0] == 'a' && w[1] == 't')
  }

  /** A header whose title is two words and whose tail matches right after ` at `. */
  lemma TwoWordHeaderMatches(pat: Pattern, title: string, rest: string, m: nat, t: Tail)
    requires TwoWords(title, 0, m, |title|)
    requires rest != [] && !IsSpace(rest[0])
    requires TailAt(pat, Header(title, rest), 8 + |title|) == Some(t)
    ensures MatchAt(pat, Header(title, rest), 0) == Some(Hit(0, title, t.detail, t.end))
  {
    HeaderTail(pat, title, rest, t);
    TwoWordMatch(pat, title, rest, m, t);
  }

  /**
   * `w1 + " " + w2` is two words split at `|w1|`, so a header with that
   * title matches by `TwoWordHeaderMatches`.
   */
  lemma TwoWordsOf(w1: string, w2: string)
    requires IsToken(w1) && IsToken(w2) && NotAtWord(w2)
    ensures TwoWords(w1 + " " + w2, 0, |w1|, |w1 + " " + w2|)
  {
    var title := w1 + " " + w2;
    var m := |w1|;
    TwoWordLayout(w1, w2);
    NotAtAt(title, m + 1);
  }

  /** `at` does not start at `i` when the next two characters are not `a`, `t`. */
  lemma NotAtAt(s: string, i: nat)
    requires i < |s|
    requires !(i + 1 < |s| && s[i] == 'a' && s[i + 1] == 't')
    ensures !OccursAt(s, i, "at")
  {
    if i + 2 <= |s| {
      var u := s[i..i + 2];
      assert u[0] == s[i] && u[1] == s[i + 1];
      assert u != "at" by {
        assert "at"[0] == 'a' && "at"[1] == 't';
      }
    }
  }

  /** A header whose title is two words matches with that title. */
  lemma TwoWordMatch(pat: Pattern, title: string, rest: string, m: nat, t: Tail)
    requires TwoWords(title, 0, m, |title|)
    requires |Header(title, rest)| == 8 + |title| + |rest|
    requires AfterTitle(pat, Header(title, rest), 4 + |title|) == Some(t)
    ensures MatchAt(pat, Header(title, rest), 0) == Some(Hit(0, title, t.detail, t.end))
  {
    var s := Header(title, rest);
    TwoWordStart(title, rest);
    HeaderTitle(title, rest);
    TwoWordTitle(pat, s, title, m, t);
    assert AfterHashes(pat, s, 0, 4) == Some(Hit(0, title, t.detail, t.end));
  }

  /** The title sits at 4 and is followed by a space. */
  lemma HeaderTitle(title: string, rest: string)
    ensures 4 + |title| < |Header(title, rest)|
    ensures Header(title, rest)[4..4 + |title|] == title
    ensures Header(title, rest)[4 + |title|] == ' '
  {
    HeaderLayout(title, rest);
  }

  /**
   * The lazy title is the two words `title` at 4 when a space follows them
   * and the tail follows that.
   */
  lemma TwoWordTitle(pat: Pattern, s: string, title: string, m: nat, t: Tail)
    requires TwoWords(title, 0, m, |title|)
    requires 4 + |title| < |s| && s[4..4 + |title|] == title && s[4 + |title|] == ' '
    requires AfterTitle(pat, s, 4 + |title|) == Some(t)
    ensures TitleFrom(pat, s, 0, 4) == Some(Hit(0, title, t.detail, t.end))
  {
    TwoWordsShift(s, title, m);
    TwoWordTitleIs(pat, s, 4 + m, 4 + |title|, title, t);
  }

  /** The two-word title after `### `, named `w`. */
  lemma TwoWordTitleIs(pat: Pattern, s: string, m: nat, q: nat, w: string, t: Tail)
    requires TwoWords(s, 4, m, q) && s[4..q] == w
    requires AfterTitle(pat, s, q) == Some(t)
    ensures TitleFrom(pat, s, 0, 4) == Some(Hit(0, w, t.detail, t.end))
  {
    TitleStopsAfterTwoWords(pat, s, 0, 4, m, q, t);
  }

  /** Two words at the start of `title` are two words of `s`, four characters on. */
  lemma TwoWordsShift(s: string, title: string, m: nat)
    requires TwoWords(title, 0, m, |title|)
    requires 4 + |title| < |s| && s[4..4 + |title|] == title && s[4 + |title|] == ' '
    ensures TwoWords(s, 4, 4 + m, 4 + |title|)
  {
    var q := 4 + |title|;
    assert forall x :: 4 <= x < q ==> s[x] == title[x - 4] by {
      forall x | 4 <= x < q
        ensures s[x] == title[x - 4]
      {
        assert s[4..q][x - 4] == s[x];
      }
    }
    if m + 3 <= |title| {
      assert s[4 + m + 1..4 + m + 3] == title[m + 1..m + 3];
    } else {
      NotAtAt(s, 4 + m + 1);
    }
  }

  /** Where the words sit in `w1 + " " + w2`. */
  lemma TwoWordLayout(w1: string, w2: string)
    ensures var title := w1 + " " + w2;
            && |title| == |w1| + 1 + |w2|
            && (forall x :: 0 <= x < |w1| ==> title[x] == w1[x])
            && title[|w1|] == ' '
            && (forall x :: |w1| < x < |title| ==> title[x] == w2[x - |w1| - 1])
  {
  }

  /** `###` at the start, then a single space before a title that begins with a word. */
  lemma TwoWordStart(title: string, rest: string)
    requires title != [] && !IsSpace(title[0])
    ensures OccursAt(Header(title, rest), 0, "###")
    ensures RunEnd(Header(title, rest), 3, Space) == 4
  {
    var s := Header(title, rest);
    HeaderLayout(title, rest);
    assert s[0..3] == "###";
    RunEndIs(s, 3, Space, 4);
  }

  // ---------------------------------------------------------------------------
  // Company tails

  /** A plain company name: no '[' in front, no newline or '(' inside. */
  predicate IsPlainCompany(c: string) {
    c != [] && !IsSpace(c[0]) && c[0] != '[' && '\n' !in c && '(' !in c
  }

  /** `[^\n(]+` takes a plain company name whole. */
  lemma PlainTakesCompany(s: string, h: nat, c: string)
    requires IsPlainCompany(c)
    requires h + |c| <= |s| && s[h..h + |c|] == c
    requires h + |c| == |s| || s[h + |c|] == '('
    ensures Plain(s, h) == Some(Tail(Company(c), h + |c|))
    ensures Bracketed(s, h).None?
  {
    assert forall m :: h <= m < h + |c| ==> s[m] == c[m - h];
    RunEndIs(s, h, NotNewlineOrParen, h + |c|);
  }

  /** `### T at C` is matched by the fallback pattern with company `C`. */
  lemma PlainRoleMatches(title: string, company: string)
    requires IsToken(title) && IsPlainCompany(company)
    ensures var s := Header(title, company);
            MatchAt(AnyRole, s, 0) == Some(Hit(0, title, Company(company), |s|))
  {
    var s := Header(title, company);
    var h := 8 + |title|;
    HeaderLayout(title, company);
    PlainTakesCompany(s, h, company);
    HeaderMatches(AnyRole, title, company, Tail(Company(company), |s|));
  }

  /** `C (Current)` */
  function MarkedCompany(company: string): string {
    company + " " + Marker
  }

  /** `### T at C (Current)` is matched by the `(Current)` pattern; the group holds `C` and the space before the marker. */
  lemma CurrentRoleMatches(title: string, company: string)
    requires IsToken(title) && IsPlainCompany(company)
    ensures var s := Header(title, MarkedCompany(company));
            MatchAt(CurrentRole, s, 0) == Some(Hit(0, title, Company(company + " "), |s|))
  {
    var rest := MarkedCompany(company);
    var s := Header(title, rest);
    MarkedLayout(title, company);
    CurrentTailAt(s, 8 + |title|, company + " ");
    assert rest[0] == company[0];
    HeaderMatches(CurrentRole, title, rest, Tail(Company(company + " "), |s|));
  }

  /** Where the company and its marker sit in `### T at C (Current)`. */
  lemma MarkedLayout(title: string, company: string)
    ensures |Header(title, MarkedCompany(company))| == 8 + |title| + |company| + 1 + |Marker|
    ensures Header(title, MarkedCompany(company))[8 + |title|..8 + |title| + |company| + 1] == company + " "
    ensures Header(title, MarkedCompany(company))[8 + |title| + |company| + 1..] == Marker
  {
    var rest := MarkedCompany(company);
    var s := Header(title, rest);
    HeaderLayout(title, rest);
    assert rest == (company + " ") + Marker;
    assert s[8 + |title|..] == rest;
  }

  /** A plain name `c` (its trailing space included) followed by the marker up to the end. */
  lemma CurrentTailAt(s: string, h: nat, c: string)
    requires IsPlainCompany(c)
    requires h + |c| + |Marker| == |s| && s[h..h + |c|] == c && s[h + |c|..] == Marker
    ensures TailAt(CurrentRole, s, h) == Some(Tail(Company(c), |s|))
  {
    assert s[h + |c|] == Marker[0];
    PlainTakesCompany(s, h, c);
    MarkerAtEnd(s, h + |c|);
  }

  /** The marker with nothing after it. */
  lemma MarkerAtEnd(s: string, i: nat)
    requires i <= |s| && s[i..] == Marker
    ensures MarkerEnd(s, i) == Some(|s|)
  {
    assert s[i] == Marker[0];
    RunEndIs(s, i, Space, i);
  }

  /** `[C](U) (Current)`: a linked company name and the marker. */
  function LinkedCompany(c: string, url: string): string {
    "[" + c + "](" + url + ") " + Marker
  }

  /** Where the name, the link and the marker sit in `[C](U) (Current)`. */
  lemma LinkedLayout(c: string, url: string)
    ensures var r, b := LinkedCompany(c, url), 1 + |c|;
            var e := b + 3 + |url|;
            && |r| == e + 1 + |Marker|
            && r[0] == '[' && r[1..b] == c && r[b] == ']' && r[b + 1] == '('
            && r[b + 2..e - 1] == url && r[e - 1] == ')' && r[e] == ' '
            && r[e + 1..] == Marker
  {
    var r := LinkedCompany(c, url);
    var b := 1 + |c|;
    assert r == "[" + c + "](" + url + ") " + Marker;
    assert r[1..b] == c;
    assert r[b + 2..b + 2 + |url|] == url;
    assert r[b + 4 + |url|..] == Marker;
  }

  /** `[C](U) (Current)` closes with one space and the marker. */
  lemma LinkedEnd(c: string, url: string)
    ensures var r, e := LinkedCompany(c, url), 4 + |c| + |url|;
            e < |r| && r[e] == ' ' && r[e + 1..] == Marker
  {
    LinkedLayout(c, url);
  }

  /**
   * `[C](U) (Current)` up to the end is the `(Current)` pattern's tail with
   * company `C`: the bracketed alternative is taken, without the link.
   */
  lemma LinkedCurrentTailAt(s: string, h: nat, c: string, url: string)
    requires c != [] && ']' !in c && ')' !in url
    requires h <= |s| && s[h..] == LinkedCompany(c, url)
    ensures TailAt(CurrentRole, s, h) == Some(Tail(Company(c), |s|))
  {
    var b := h + 1 + |c|;
    var e := b + 3 + |url|;
    LinkedBracketed(s, h, c, url);
    LinkedMarker(s, h, e, c, url);
    assert BracketedAt(s, h, b, e) && MarkerEnd(s, e) == Some(|s|);
  }

  /** `[C](U)` at `h` is the bracketed alternative with name `C`. */
  lemma LinkedBracketed(s: string, h: nat, c: string, url: string)
    requires c != [] && ']' !in c && ')' !in url
    requires h <= |s| && s[h..] == LinkedCompany(c, url)
    ensures var b := h + 1 + |c|;
            BracketedAt(s, h, b, b + 3 + |url|) && s[h + 1..b] == c
  {
    var r := LinkedCompany(c, url);
    var b := h + 1 + |c|;
    var e := b + 3 + |url|;
    LinkedLayout(c, url);
    assert forall m :: h <= m < |s| ==> s[m] == r[m - h];
    assert forall m :: h < m < b ==> s[m] == c[m - h - 1] by {
      forall m | h < m < b
        ensures s[m] == c[m - h - 1]
      {
        assert r[1..1 + |c|][m - h - 1] == r[m - h];
      }
    }
    assert forall m :: b + 1 < m < e - 1 ==> s[m] == url[m - b - 2] by {
      forall m | b + 1 < m < e - 1
        ensures s[m] == url[m - b - 2]
      {
        assert r[2 + |c| + 1..e - h - 1][m - b - 2] == r[m - h];
      }
    }
    assert IsLink(s, b + 1, e);
  }

  /** After `[C](U)`, one space and the marker end the text. */
  lemma LinkedMarker(s: string, h: nat, e: nat, c: string, url: string)
    requires h <= |s| && s[h..] == LinkedCompany(c, url) && e == h + 4 + |c| + |url|
    ensures e <= |s| && MarkerEnd(s, e) == Some(|s|)
  {
    LinkedEnd(c, url);
    SuffixAt(s, h, LinkedCompany(c, url), 4 + |c| + |url|, e);
    SpaceThenMarker(s, e);
  }

  /** Where `s[h..]` is `r`, position `k` of `r` is position `h + k` of `s`. */
  lemma SuffixAt(s: string, h: nat, r: string, k: nat, e: nat)
    requires h <= |s| && s[h..] == r && k < |r| && e == h + k
    ensures e < |s| && s[e] == r[k] && s[e + 1..] == r[k + 1..]
  {
    assert s[e + 1..] == s[h..][k + 1..];
  }

  /** One space and then the marker, ending the text. */
  lemma SpaceThenMarker(s: string, e: nat)
    requires e < |s| && s[e] == ' ' && s[e + 1..] == Marker
    ensures MarkerEnd(s, e) == Some(|s|)
  {
    assert MarkerAfterSpace(s, e, e + 1);
  }

  /** `### T at [C](U) (Current)` with a two-word title `T` is matched with title `T` and company `C`. */
  lemma LinkedCurrentRoleMatches(title: string, m: nat, c: string, url: string)
    requires TwoWords(title, 0, m, |title|)
    requires c != [] && ']' !in c && ')' !in url
    ensures var s := Header(title, LinkedCompany(c, url));
            MatchAt(CurrentRole, s, 0) == Some(Hit(0, title, Company(c), |s|))
  {
    var rest := LinkedCompany(c, url);
    LinkedHeaderTail(title, c, url);
    TwoWordHeaderMatches(CurrentRole, title, rest, m, Tail(Company(c), |Header(title, rest)|));
  }

  /** The linked company after ` at ` is the `(Current)` pattern's tail. */
  lemma LinkedHeaderTail(title: string, c: string, url: string)
    requires c != [] && ']' !in c && ')' !in url
    ensures var rest := LinkedCompany(c, url);
            && rest != [] && !IsSpace(rest[0])
            && TailAt(CurrentRole, Header(title, rest), 8 + |title|) == Some(Tail(Company(c), |Header(title, rest)|))
  {
    var rest := LinkedCompany(c, url);
    HeaderRest(title, rest);
    LinkedLayout(c, url);
    LinkedCurrentTailAt(Header(title, rest), 8 + |title|, c, url);
  }

  /** `### Software Engineer at [Acme Corp](url) (Current)`: the title is both words, the company is the bracketed name. */
  lemma SoftwareEngineerAtAcme()
    ensures var s := Header("Software Engineer", LinkedCompany("Acme Corp", "url"));
            MatchAt(CurrentRole, s, 0) == Some(Hit(0, "Software Engineer", Company("Acme Corp"), |s|))
  {
    TwoWordsOf("Software", "Engineer");
    assert "Software" + " " + "Engineer" == "Software Engineer";
    LinkedCurrentRoleMatches("Software Engineer", 8, "Acme Corp", "url");
  }

  // ---------------------------------------------------------------------------
  // Organisation tails

  /** A month and year as the pattern wants them: a word, one space, four digits. */
  predicate IsDateParts(w: string, y: string) {
    |w| > 0 && (forall m :: 0 <= m < |w| ==> IsWordChar(w[m]))
    && |y| == 4 && (forall m :: 0 <= m < 4 ==> IsDigit(y[m]))
  }

  /** `\w+\s+\d{4}` takes `w + " " + y` whole. */
  lemma DateMatches(s: string, u: nat, w: string, y: string, e: nat)
    requires IsDateParts(w, y)
    requires e == u + |w| + 5 <= |s| && s[u..e] == w + " " + y
    ensures MonthYearEnd(s, u) == Some(e)
  {
    var d := w + " " + y;
    assert forall m :: u <= m < u + |w| + 5 ==> s[m] == d[m - u];
    RunEndIs(s, u, WordChar, u + |w|);
    RunEndIs(s, u + |w|, Space, u + |w| + 1);
  }

  /** `W1 Y1 - W2 Y2` */
  function Dates(w1: string, y1: string, w2: string, y2: string): string {
    w1 + " " + y1 + " - " + w2 + " " + y2
  }

  /** Where the two dates sit in `s[u..z]`. */
  lemma DatesLayout(s: string, u: nat, w1: string, y1: string, w2: string, y2: string, a: nat)
    requires u + |Dates(w1, y1, w2, y2)| <= |s| && s[u..u + |Dates(w1, y1, w2, y2)|] == Dates(w1, y1, w2, y2)
    requires a == u + |w1| + 1 + |y1|
    ensures a + 3 + |w2| + 1 + |y2| == u + |Dates(w1, y1, w2, y2)|
    ensures s[u..a] == w1 + " " + y1
    ensures s[a] == ' ' && s[a + 1] == '-' && s[a + 2] == ' '
    ensures s[a + 3..u + |Dates(w1, y1, w2, y2)|] == w2 + " " + y2
  {
    var d1 := w1 + " " + y1;
    var d2 := w2 + " " + y2;
    var z := u + |Dates(w1, y1, w2, y2)|;
    assert Dates(w1, y1, w2, y2) == d1 + " - " + d2;
    assert s[u..z][..|d1|] == d1;
    assert s[u..z][|d1| + 3..] == d2;
  }

  /** A start date, ` - `, and a finish date make a tenure. */
  lemma TenureOfDates(s: string, u: nat, a: nat, b: nat)
    requires u <= |s| && a + 3 <= |s|
    requires MonthYearEnd(s, u) == Some(a) && MonthYearEnd(s, a + 3) == Some(b)
    requires s[a] == ' ' && s[a + 1] == '-' && s[a + 2] == ' '
    ensures TenureAt(s, u) == Some(Tail(Tenure(s[u..a], s[a + 3..b]), b))
  {
    RunEndIs(s, a, Space, a + 1);
    RunEndIs(s, a + 2, Space, a + 3);
  }

  /** The dates are matched whole, as start and finish. */
  lemma DatesMatch(s: string, u: nat, w1: string, y1: string, w2: string, y2: string)
    requires IsDateParts(w1, y1) && IsDateParts(w2, y2)
    requires u + |Dates(w1, y1, w2, y2)| <= |s| && s[u..u + |Dates(w1, y1, w2, y2)|] == Dates(w1, y1, w2, y2)
    ensures TenureAt(s, u) == Some(Tail(Tenure(w1 + " " + y1, w2 + " " + y2), u + |Dates(w1, y1, w2, y2)|))
  {
    var a := u + |w1| + 5;
    var z := u + |Dates(w1, y1, w2, y2)|;
    DatesLayout(s, u, w1, y1, w2, y2, a);
    assert s[u..a] == w1 + " " + y1 && s[a + 3..z] == w2 + " " + y2;
    BothDates(s, u, a, z, w1, y1, w2, y2);
    TenureOfDates(s, u, a, z);
  }

  /** Each date of the layout is matched whole. */
  lemma BothDates(s: string, u: nat, a: nat, z: nat, w1: string, y1: string, w2: string, y2: string)
    requires IsDateParts(w1, y1) && IsDateParts(w2, y2)
    requires a == u + |w1| + 1 + |y1| && a + 3 + |w2| + 1 + |y2| == z <= |s|
    requires s[u..a] == w1 + " " + y1 && s[a + 3..z] == w2 + " " + y2
    ensures MonthYearEnd(s, u) == Some(a) && MonthYearEnd(s, a + 3) == Some(z)
  {
    DateMatches(s, u, w1, y1, a);
    DateMatches(s, a + 3, w2, y2, z);
  }

  /** `Blockchain at Berkeley` + newline + dates */
  function OrgTail(w1: string, y1: string, w2: string, y2: string): string {
    OrgName + "\n" + Dates(w1, y1, w2, y2)
  }

  /** At a newline no date starts, so the lazy gap moves past it. */
  lemma TenureAfterNewline(s: string, n: nat, t: Tail)
    requires n < |s| && s[n] == '\n'
    requires TenureAt(s, n + 1) == Some(t)
    ensures TenureFrom(s, n) == Some(t)
  {
    NoTenureAtNewline(s, n);
    var attempt := (k: nat) => TenureAt(s, k);
    assert attempt(n).None? && attempt(n + 1) == Some(t);
    assert FirstSome(attempt, n, |s|) == FirstSome(attempt, n + 1, |s|);
  }

  /** No date starts at a newline. */
  lemma NoTenureAtNewline(s: string, n: nat)
    requires n < |s| && s[n] == '\n'
    ensures TenureAt(s, n).None?
  {
    RunEndIs(s, n, WordChar, n);
  }

  /** The organisation name without brackets, then a newline: the tail is the tenure after the newline. */
  lemma OrgNameThenNewline(s: string, h: nat, t: Tail)
    requires h + |OrgName| < |s| && OccursAt(s, h, OrgName) && s[h + |OrgName|] == '\n'
    requires TenureFrom(s, h + |OrgName|) == Some(t)
    ensures TailAt(OrgRole, s, h) == Some(t)
  {
    var n := h + |OrgName|;
    assert s[h] == 'B' by { assert s[h..n][0] == OrgName[0]; }
    assert LinkEnd(s, n).None?;
    assert AfterCloseBracket(s, n) == Some(t);
    assert AfterOrgName(s, n) == Some(t);
    assert OrgNameAt(s, h) == Some(t);
    assert OrgAt(s, h) == Some(t);
  }

  /** Where the name, the newline and the dates sit in `s[h..z]`. */
  lemma OrgTailLayout(s: string, h: nat, d: string)
    requires h + |OrgName| + 1 + |d| <= |s| && s[h..h + |OrgName| + 1 + |d|] == OrgName + "\n" + d
    ensures OccursAt(s, h, OrgName)
    ensures s[h + |OrgName|] == '\n'
    ensures s[h + |OrgName| + 1..h + |OrgName| + 1 + |d|] == d
  {
    var z := h + |OrgName| + 1 + |d|;
    assert s[h..z][..|OrgName|] == OrgName;
    assert s[h..z][|OrgName| + 1..] == d;
    assert s[h..z][|OrgName|] == '\n';
  }

  /** After the organisation name and a newline, the lazy gap skips the newline and the dates follow. */
  lemma OrgTailMatches(s: string, h: nat, z: nat, w1: string, y1: string, w2: string, y2: string)
    requires IsDateParts(w1, y1) && IsDateParts(w2, y2)
    requires z == h + |OrgTail(w1, y1, w2, y2)| <= |s| && s[h..z] == OrgTail(w1, y1, w2, y2)
    ensures TailAt(OrgRole, s, h) == Some(Tail(Tenure(w1 + " " + y1, w2 + " " + y2), z))
  {
    var n := h + |OrgName|;
    var t := Tail(Tenure(w1 + " " + y1, w2 + " " + y2), z);
    assert OrgTail(w1, y1, w2, y2) == OrgName + "\n" + Dates(w1, y1, w2, y2);
    OrgTailLayout(s, h, Dates(w1, y1, w2, y2));
    DatesMatch(s, n + 1, w1, y1, w2, y2);
    TenureAfterNewline(s, n, t);
    OrgNameThenNewline(s, h, t);
  }

  /** `### T at Blockchain at Berkeley`, a newline, and `W1 Y1 - W2 Y2` is one organisation match. */
  lemma OrgRoleMatches(title: string, w1: string, y1: string, w2: string, y2: string)
    requires IsToken(title) && IsDateParts(w1, y1) && IsDateParts(w2, y2)
    ensures var s := Header(title, OrgTail(w1, y1, w2, y2));
            FindAll(OrgRole, s, 0) == [Hit(0, title, Tenure(w1 + " " + y1, w2 + " " + y2), |s|)]
  {
    var rest := OrgTail(w1, y1, w2, y2);
    var s := Header(title, rest);
    var h := 8 + |title|;
    var t := Tail(Tenure(w1 + " " + y1, w2 + " " + y2), |s|);
    HeaderRest(title, rest);
    assert |s| == h + |rest| && s[h..|s|] == rest;
    OrgTailMatches(s, h, |s|, w1, y1, w2, y2);
    assert rest[0] == 'B';
    HeaderMatches(OrgRole, title, rest, t);
    var hit := Hit(0, title, t.detail, t.end);
    assert Search(OrgRole, s, 0) == Some(hit);
    assert Search(OrgRole, s, |s|).None? by {
      assert !OccursAt(s, |s|, "###");
    }
  }

  // ---------------------------------------------------------------------------
  // Headers anywhere in the text

  /** `### T at ` laid out at `p` in `s`. */
  predicate HeaderIn(s: string, p: nat, title: string) {
    p + 8 + |title| <= |s| && s[p..p + 8 + |title|] == Header(title, "")
  }

  /** Where the pieces of a header laid out at `p` sit. */
  lemma HeaderInLayout(s: string, p: nat, title: string)
    requires HeaderIn(s, p, title)
    ensures var q := p + 4 + |title|;
            && OccursAt(s, p, "###") && s[p + 3] == ' '
            && (forall m :: p + 4 <= m < q ==> s[m] == title[m - p - 4])
            && s[p + 4..q] == title
            && s[q] == ' ' && s[q + 1] == 'a' && s[q + 2] == 't' && s[q + 3] == ' '
  {
    var e := Header(title, "");
    var q := p + 4 + |title|;
    HeaderLayout(title, "");
    assert forall m :: p <= m < p + 8 + |title| ==> s[m] == e[m - p] by {
      forall m | p <= m < p + 8 + |title|
        ensures s[m] == e[m - p]
      {
        assert s[p..p + 8 + |title|][m - p] == s[m];
      }
    }
    assert s[p..p + 3] == "###";
    assert s[p + 4..q] == e[4..4 + |title|];
  }

  /** A one-word title at `p`: the run after `###` is the single space, and the title is found after it. */
  lemma HeaderStartAt(s: string, p: nat, title: string)
    requires IsToken(title) && HeaderIn(s, p, title)
    ensures OccursAt(s, p, "###") && RunEnd(s, p + 3, Space) == p + 4
    ensures forall m :: p + 4 <= m < p + 4 + |title| ==> !IsSpace(s[m])
    ensures s[p + 4..p + 4 + |title|] == title
  {
    HeaderInLayout(s, p, title);
    RunEndIs(s, p + 3, Space, p + 4);
  }

  /** ` at ` after the title of a header laid out at `p`. */
  lemma HeaderAtWord(s: string, p: nat, title: string)
    requires HeaderIn(s, p, title)
    ensures var q := p + 4 + |title|;
            s[q] == ' ' && s[q + 1] == 'a' && s[q + 2] == 't' && s[q + 3] == ' '
  {
    HeaderInLayout(s, p, title);
  }

  /** Only the run of one space after `###` can be tried. */
  lemma AfterOneSpace(pat: Pattern, s: string, p: nat)
    requires p + 4 <= |s|
    ensures AfterHashes(pat, s, p, p + 4) == TitleFrom(pat, s, p, p + 4)
  {
    assert HashAttempts(pat, s, p)(p + 4) == TitleFrom(pat, s, p, p + 4);
  }

  /** ` at ` with single spaces at `q`, the tail after it at `h`. */
  lemma AtThenTailAt(pat: Pattern, s: string, q: nat, h: nat, t: Tail)
    requires h == q + 4 < |s|
    requires s[q] == ' ' && s[q + 1] == 'a' && s[q + 2] == 't' && s[q + 3] == ' ' && !IsSpace(s[h])
    requires TailAt(pat, s, h) == Some(t)
    ensures AfterTitle(pat, s, q) == Some(t)
  {
    AtThenTail(pat, s, q, t);
  }

  /** A header with a one-word title laid out at `p`, its tail matching at `h`, is matched at `p`. */
  lemma HeaderMatchesAt(pat: Pattern, s: string, p: nat, h: nat, title: string, t: Tail)
    requires IsToken(title) && HeaderIn(s, p, title)
    requires h == p + 8 + |title| < |s| && !IsSpace(s[h])
    requires TailAt(pat, s, h) == Some(t)
    ensures MatchAt(pat, s, p) == Some(Hit(p, title, t.detail, t.end))
  {
    var q := p + 4 + |title|;
    HeaderStartAt(s, p, title);
    HeaderTailAt(pat, s, p, q, h, title, t);
    HeaderTitleAt(pat, s, p, q, title, t);
    AfterOneSpace(pat, s, p);
  }

  /** After the title of a header laid out at `p`, ` at ` and the tail at `h` follow. */
  lemma HeaderTailAt(pat: Pattern, s: string, p: nat, q: nat, h: nat, title: string, t: Tail)
    requires HeaderIn(s, p, title) && q == p + 4 + |title|
    requires h == q + 4 < |s| && !IsSpace(s[h])
    requires TailAt(pat, s, h) == Some(t)
    ensures AfterTitle(pat, s, q) == Some(t)
  {
    HeaderAtWord(s, p, title);
    AtThenTailAt(pat, s, q, h, t);
  }

  /** The lazy title after `### ` at `p` is the one word before ` at ` when ` at ` and a tail follow it. */
  lemma HeaderTitleAt(pat: Pattern, s: string, p: nat, q: nat, title: string, t: Tail)
    requires IsToken(title) && HeaderIn(s, p, title) && q == p + 4 + |title|
    requires AfterTitle(pat, s, q) == Some(t)
    ensures TitleFrom(pat, s, p, p + 4) == Some(Hit(p, title, t.detail, t.end))
  {
    HeaderStartAt(s, p, title);
    TitleStopsAfterWord(pat, s, p, p + 4, q, t);
    assert Hit(p, s[p + 4..q], t.detail, t.end) == Hit(p, title, t.detail, t.end);
  }

  // ---------------------------------------------------------------------------
  // Two organisation headers

  /** `### T at Blockchain at Berkeley`, a newline, then `W1 Y1 - W2 Y2`. */
  function OrgHeader(title: string, w1: string, y1: string, w2: string, y2: string): string {
    Header(title, OrgTail(w1, y1, w2, y2))
  }

  /** An organisation header laid out at `p` and ending at `z` is matched there, ending at `z`. */
  lemma OrgHeaderAt(s: string, p: nat, z: nat, title: string, w1: string, y1: string, w2: string, y2: string)
    requires IsToken(title) && IsDateParts(w1, y1) && IsDateParts(w2, y2)
    requires z == p + |OrgHeader(title, w1, y1, w2, y2)| <= |s| && s[p..z] == OrgHeader(title, w1, y1, w2, y2)
    ensures MatchAt(OrgRole, s, p) == Some(Hit(p, title, Tenure(w1 + " " + y1, w2 + " " + y2), z))
  {
    var rest := OrgTail(w1, y1, w2, y2);
    var h := p + 8 + |title|;
    HeaderPieces(s, p, z, title, rest);
    assert rest[0] == 'B';
    OrgTailMatches(s, h, z, w1, y1, w2, y2);
    HeaderMatchesAt(OrgRole, s, p, h, title, Tail(Tenure(w1 + " " + y1, w2 + " " + y2), z));
  }

  /** A header laid out at `p` up to `z`: the header part, and the rest after ` at `. */
  lemma HeaderPieces(s: string, p: nat, z: nat, title: string, rest: string)
    requires z == p + |Header(title, rest)| <= |s| && s[p..z] == Header(title, rest)
    ensures HeaderIn(s, p, title)
    ensures p + 8 + |title| <= z && s[p + 8 + |title|..z] == rest
    ensures rest != [] ==> s[p + 8 + |title|] == rest[0]
  {
    var e := Header(title, rest);
    var h := p + 8 + |title|;
    assert e == Header(title, "") + rest;
    assert s[p..h] == e[..8 + |title|];
    assert s[h..z] == e[8 + |title|..];
  }

  /**
   * Two organisation headers separated by a newline: `re.findall` finds
   * both, the second from where the first ends, each with its title and
   * its dates.
   */
  lemma TwoOrgHeaders(s: string, n: nat, title1: string, title2: string,
                      a1: string, b1: string, c1: string, d1: string,
                      a2: string, b2: string, c2: string, d2: string)
    requires IsToken(title1) && IsDateParts(a1, b1) && IsDateParts(c1, d1)
    requires IsToken(title2) && IsDateParts(a2, b2) && IsDateParts(c2, d2)
    requires n < |s| && s[0..n] == OrgHeader(title1, a1, b1, c1, d1) && s[n] == '\n'
    requires s[n + 1..|s|] == OrgHeader(title2, a2, b2, c2, d2)
    ensures FindAll(OrgRole, s, 0)
            == [Hit(0, title1, Tenure(a1 + " " + b1, c1 + " " + d1), n),
                Hit(n + 1, title2, Tenure(a2 + " " + b2, c2 + " " + d2), |s|)]
  {
    var hit1 := Hit(0, title1, Tenure(a1 + " " + b1, c1 + " " + d1), n);
    var hit2 := Hit(n + 1, title2, Tenure(a2 + " " + b2, c2 + " " + d2), |s|);
    TwoOrgMatches(s, n, title1, title2, a1, b1, c1, d1, a2, b2, c2, d2);
    FindAllTwo(OrgRole, s, n, hit1, hit2);
  }

  /** Each of the two organisation headers is matched where it starts. */
  lemma TwoOrgMatches(s: string, n: nat, title1: string, title2: string,
                      a1: string, b1: string, c1: string, d1: string,
                      a2: string, b2: string, c2: string, d2: string)
    requires IsToken(title1) && IsDateParts(a1, b1) && IsDateParts(c1, d1)
    requires IsToken(title2) && IsDateParts(a2, b2) && IsDateParts(c2, d2)
    requires n < |s| && s[0..n] == OrgHeader(title1, a1, b1, c1, d1)
    requires s[n + 1..|s|] == OrgHeader(title2, a2, b2, c2, d2)
    ensures MatchAt(OrgRole, s, 0) == Some(Hit(0, title1, Tenure(a1 + " " + b1, c1 + " " + d1), n))
    ensures MatchAt(OrgRole, s, n + 1) == Some(Hit(n + 1, title2, Tenure(a2 + " " + b2, c2 + " " + d2), |s|))
  {
    OrgHeaderUpTo(s, 0, n, title1, a1, b1, c1, d1);
    OrgHeaderUpTo(s, n + 1, |s|, title2, a2, b2, c2, d2);
  }

  /** An organisation header occupying `s[p..z]` is matched at `p`. */
  lemma OrgHeaderUpTo(s: string, p: nat, z: nat, title: string, w1: string, y1: string, w2: string, y2: string)
    requires IsToken(title) && IsDateParts(w1, y1) && IsDateParts(w2, y2)
    requires p <= z <= |s| && s[p..z] == OrgHeader(title, w1, y1, w2, y2)
    ensures MatchAt(OrgRole, s, p) == Some(Hit(p, title, Tenure(w1 + " " + y1, w2 + " " + y2), z))
  {
    OrgHeaderAt(s, p, z, title, w1, y1, w2, y2);
  }

  /**
   * A match at the start ending at a newline, and a match right after the
   * newline running to the end: `re.findall` returns exactly those two.
   */
  lemma FindAllTwo(pat: Pattern, s: string, n: nat, hit1: Hit, hit2: Hit)
    requires n < |s| && s[n] == '\n'
    requires MatchAt(pat, s, 0) == Some(hit1) && hit1.end == n
    requires MatchAt(pat, s, n + 1) == Some(hit2) && hit2.end == |s|
    ensures FindAll(pat, s, 0) == [hit1, hit2]
  {
    SearchFindsAt(pat, s, 0, hit1);
    SecondAfterNewline(pat, s, n, hit2);
    FindAllLast(pat, s, n, hit2);
    FindAllStep(pat, s, 0, hit1);
  }

  /** The search from a newline finds the match right after it. */
  lemma SecondAfterNewline(pat: Pattern, s: string, n: nat, h: Hit)
    requires n < |s| && s[n] == '\n' && MatchAt(pat, s, n + 1) == Some(h)
    ensures Search(pat, s, n) == Some(h)
  {
    NoHeaderAtNewline(pat, s, n);
    SearchFindsAt(pat, s, n + 1, h);
    SearchSkipsOne(pat, s, n);
  }

  /** A search that finds `h` puts `h` in front of the matches after it. */
  lemma FindAllStep(pat: Pattern, s: string, i: nat, h: Hit)
    requires i <= |s| && Search(pat, s, i) == Some(h)
    ensures FindAll(pat, s, i) == [h] + FindAll(pat, s, h.end)
  {
  }

  /** A match that runs to the end of the text is the last one. */
  lemma FindAllLast(pat: Pattern, s: string, i: nat, h: Hit)
    requires i <= |s| && Search(pat, s, i) == Some(h) && h.end == |s|
    ensures FindAll(pat, s, i) == [h]
  {
    NoHeaderAtEnd(pat, s);
    FindAllStep(pat, s, i, h);
    assert FindAll(pat, s, |s|) == [];
  }

  /** Two terms with the organisation, the later one listed first: both are found, in text order. */
  lemma PresidentThenMember()
    ensures var x, y := OrgHeader("President", "Jan", "2021", "Dec", "2022"), OrgHeader("Member", "Sep", "2019", "May", "2021");
            var s := x + "\n" + y;
            FindAll(OrgRole, s, 0)
            == [Hit(0, "President", Tenure("Jan 2021", "Dec 2022"), |x|),
                Hit(|x| + 1, "Member", Tenure("Sep 2019", "May 2021"), |s|)]
  {
    var x, y := OrgHeader("President", "Jan", "2021", "Dec", "2022"), OrgHeader("Member", "Sep", "2019", "May", "2021");
    ExampleParts();
    TwoOrgLayout(x, y);
    TwoOrgHeaders(x + "\n" + y, |x|, "President", "Member", "Jan", "2021", "Dec", "2022", "Sep", "2019", "May", "2021");
  }

  /** The titles and dates of the example above are well formed, and the dates read as written. */
  lemma ExampleParts()
    ensures IsToken("President") && IsToken("Member")
    ensures IsDateParts("Jan", "2021") && IsDateParts("Dec", "2022")
    ensures IsDateParts("Sep", "2019") && IsDateParts("May", "2021")
    ensures "Jan" + " " + "2021" == "Jan 2021" && "Dec" + " " + "2022" == "Dec 2022"
    ensures "Sep" + " " + "2019" == "Sep 2019" && "May" + " " + "2021" == "May 2021"
  {
  }

  /** Where the two headers and the newline between them sit. */
  lemma TwoOrgLayout(x: string, y: string)
    ensures var s := x + "\n" + y;
            && s[0..|x|] == x && s[|x|] == '\n' && s[|x| + 1..|s|] == y
            && |s| == |x| + 1 + |y|
  {
    var s := x + "\n" + y;
    assert s[0..|x|] == x;
    assert s[|x| + 1..] == y;
  }

  /** A match at `i` is what the search from `i` finds. */
  lemma SearchFindsAt(pat: Pattern, s: string, i: nat, h: Hit)
    requires i <= |s| && MatchAt(pat, s, i) == Some(h)
    ensures Search(pat, s, i) == Some(h)
  {
  }

  /** No header starts at a newline. */
  lemma NoHeaderAtNewline(pat: Pattern, s: string, n: nat)
    requires n < |s| && s[n] == '\n'
    ensures MatchAt(pat, s, n).None?
  {
    if n + 3 <= |s| {
      var u := s[n..n + 3];
      assert u[0] == '\n';
      assert u != "###" by {
        assert "###"[0] == '#';
      }
    }
  }

  /** Where no match starts at `n`, the search from `n` is the search from `n + 1`. */
  lemma SearchSkipsOne(pat: Pattern, s: string, n: nat)
    requires n < |s| && MatchAt(pat, s, n).None?
    ensures Search(pat, s, n) == Search(pat, s, n + 1)
  {
  }

  /** No header starts at the end of the text. */
  lemma NoHeaderAtEnd(pat: Pattern, s: string)
    ensures Search(pat, s, |s|).None?
  {
    assert !OccursAt(s, |s|, "###");
  }
}
