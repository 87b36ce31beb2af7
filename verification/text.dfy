/**
 * Character classes and the handful of Python string operations the enrichment
 * script relies on: `strip`, `lower`, `in`, `find`, `split("\n")`, `split()`,
 * `join`. Whitespace is Python's `str.isspace` set (which is also what `\s`
 * matches in a `str` pattern); letters, digits, `\w` and case mapping are ASCII.
 */
module Text {
  import opened Wrappers
  import opened Seqs

  /** Python's `str.isspace` (and regex `\s`) for one character. */
  predicate IsSpace(c: char) {
    var n := c as int;
    (9 <= n <= 13) || (28 <= n <= 32) || n == 0x85 || n == 0xA0 || n == 0x1680
    || (0x2000 <= n <= 0x200A) || n == 0x2028 || n == 0x2029 || n == 0x202F
    || n == 0x205F || n == 0x3000
  }

  predicate IsUpper(c: char) { 'A' <= c <= 'Z' }
  predicate IsLower(c: char) { 'a' <= c <= 'z' }
  predicate IsLetter(c: char) { IsUpper(c) || IsLower(c) }
  predicate IsDigit(c: char) { '0' <= c <= '9' }

  /** Regex `\w`, restricted to ASCII. */
  predicate IsWordChar(c: char) { IsLetter(c) || IsDigit(c) || c == '_' }

  /** The character classes the profile patterns use. */
  datatype CharClass =
    | Space              // \s
    | NonSpace           // what str.split() keeps inside a token
    | Digit              // 0-9, for rstrip("0123456789")
    | WordChar           // \w
    | NotNewlineOrParen  // [^\n(]
    | NotCloseBracket    // [^\]]
    | NotCloseAngle      // [^>]
    | NotCloseParen      // [^)]

  predicate InClass(k: CharClass, c: char) {
    match k
    case Space => IsSpace(c)
    case NonSpace => !IsSpace(c)
    case Digit => IsDigit(c)
    case WordChar => IsWordChar(c)
    case NotNewlineOrParen => c != '\n' && c != '('
    case NotCloseBracket => c != ']'
    case NotCloseAngle => c != '>'
    case NotCloseParen => c != ')'
  }

  /** End of the longest run of class-`k` characters that starts at `i`. */
  function RunEnd(s: string, i: nat, k: CharClass): (j: nat)
    requires i <= |s|
    ensures i <= j <= |s|
    ensures forall m :: i <= m < j ==> InClass(k, s[m])
    ensures j == |s| || !InClass(k, s[j])
    decreases |s| - i
  {
    if i < |s| && InClass(k, s[i]) then RunEnd(s, i + 1, k) else i
  }

  /** Start of the longest run of class-`k` characters that ends at `j`. */
  function RunStart(s: string, j: nat, k: CharClass): (i: nat)
    requires j <= |s|
    ensures i <= j
    ensures forall m :: i <= m < j ==> InClass(k, s[m])
    ensures i == 0 || !InClass(k, s[i - 1])
    decreases j
  {
    if j > 0 && InClass(k, s[j - 1]) then RunStart(s, j - 1, k) else j
  }

  /** The run end is the only position that closes a run: it is pinned down by its contract. */
  lemma RunEndIs(s: string, i: nat, k: CharClass, j: nat)
    requires i <= j <= |s|
    requires forall m :: i <= m < j ==> InClass(k, s[m])
    requires j == |s| || !InClass(k, s[j])
    ensures RunEnd(s, i, k) == j
  {
  }

  /** A run of class-`k` characters from `i` to `j` is part of the longest run from `i`. */
  lemma RunEndAtLeast(s: string, i: nat, k: CharClass, j: nat)
    requires i <= j <= |s|
    requires forall m :: i <= m < j ==> InClass(k, s[m])
    ensures j <= RunEnd(s, i, k)
  {
  }

  lemma RunStartIs(s: string, j: nat, k: CharClass, i: nat)
    requires i <= j <= |s|
    requires forall m :: i <= m < j ==> InClass(k, s[m])
    requires i == 0 || !InClass(k, s[i - 1])
    ensures RunStart(s, j, k) == i
  {
  }

  // ---------------------------------------------------------------------------
  // strip, lower, capitalize

  /** Python `s.lstrip()`. */
  function TrimLeft(s: string): string {
    s[RunEnd(s, 0, Space)..]
  }

  /** Python `s.rstrip()`. */
  function TrimRight(s: string): string {
    s[..RunStart(s, |s|, Space)]
  }

  /** Trimming the right end twice trims nothing more. */
  lemma TrimRightIdempotent(s: string)
    ensures TrimRight(TrimRight(s)) == TrimRight(s)
  {
    var n := RunStart(s, |s|, Space);
    var t := s[..n];
    RunStartIs(t, n, Space, n);
    assert t[..n] == t;
  }

  /** Neither end of `s` is whitespace. */
  predicate IsStripped(s: string) {
    s == [] || (!IsSpace(s[0]) && !IsSpace(s[|s| - 1]))
  }

  /** Python `s.strip()`: the slice of `s` between its leading and trailing whitespace. */
  function Strip(s: string): (r: string)
    ensures |r| <= |s|
    ensures IsStripped(r)
  {
    var a := RunEnd(s, 0, Space);
    var t := s[a..];
    var b := RunStart(t, |t|, Space);
    assert forall m :: a + b <= m < |s| ==> s[m] == t[m - a];
    assert t[..b] == s[a..a + b];
    t[..b]
  }

  /** A string with no surrounding whitespace is its own strip. */
  lemma StripOfStripped(s: string)
    requires IsStripped(s)
    ensures Strip(s) == s
  {
    if s != [] {
      RunEndIs(s, 0, Space, 0);
      RunStartIs(s, |s|, Space, |s|);
    }
  }

  /** What the strip removes: whitespace before and whitespace after. */
  lemma StripPadding(s: string) returns (before: string, after: string)
    ensures s == before + (Strip(s) + after)
    ensures forall k :: 0 <= k < |before| ==> IsSpace(before[k])
    ensures forall k :: 0 <= k < |after| ==> IsSpace(after[k])
  {
    var a := RunEnd(s, 0, Space);
    var t := s[a..];
    var b := RunStart(t, |t|, Space);
    before, after := s[..a], t[b..];
    assert Strip(s) == t[..b];
    Halves(s, a);
    Halves(t, b);
    assert forall k :: 0 <= k < |before| ==> IsSpace(before[k]) by {
      forall k | 0 <= k < |before| ensures IsSpace(before[k]) {
        assert before[k] == s[k] && InClass(Space, s[k]);
      }
    }
    assert forall k :: 0 <= k < |after| ==> IsSpace(after[k]) by {
      forall k | 0 <= k < |after| ensures IsSpace(after[k]) {
        assert after[k] == t[b + k] && InClass(Space, t[b + k]);
      }
    }
  }

  /** Stripping only removes characters. */
  lemma StripKeepsCharacters(s: string)
    ensures forall c :: c in Strip(s) ==> c in s
  {
    var a := RunEnd(s, 0, Space);
    var t := s[a..];
    var b := RunStart(t, |t|, Space);
    assert Strip(s) == s[a..a + b];
  }

  /** Leading whitespace does not change the strip. */
  lemma StripLeftPadding(w: string, s: string)
    requires forall m :: 0 <= m < |w| ==> IsSpace(w[m])
    ensures Strip(w + s) == Strip(s)
  {
    var a := RunEnd(s, 0, Space);
    RunEndIs(w + s, 0, Space, |w| + a);
    assert (w + s)[|w| + a..] == s[a..];
  }

  /** Trailing whitespace does not change the strip. */
  lemma StripRightPadding(s: string, w: string)
    requires forall m :: 0 <= m < |w| ==> IsSpace(w[m])
    ensures Strip(s + w) == Strip(s)
  {
    var a := RunEnd(s, 0, Space);
    if a == |s| {
      RunEndIs(s + w, 0, Space, |s + w|);
    } else {
      RunEndIs(s + w, 0, Space, a);
      var u := s[a..];
      var b := RunStart(u, |u|, Space);
      var uw := (s + w)[a..];
      assert uw == u + w;
      RunStartIs(uw, |uw|, Space, b);
      assert uw[..b] == u[..b];
    }
  }

  function LowerChar(c: char): char {
    if IsUpper(c) then (c as int + 32) as char else c
  }

  function UpperChar(c: char): char {
    if IsLower(c) then (c as int - 32) as char else c
  }

  /** Python `s.lower()` for ASCII letters; every other character is kept. */
  function Lower(s: string): (r: string)
    ensures |r| == |s|
  {
    seq(|s|, i requires 0 <= i < |s| => LowerChar(s[i]))
  }

  lemma LowerIdempotent(s: string)
    ensures Lower(Lower(s)) == Lower(s)
  {
  }

  /** A lower-case word that occurs in `s` occurs, at the same place, in `Lower(s)`. */
  lemma LowerKeepsLowerWord(s: string, w: string)
    requires Lower(w) == w
    ensures Contains(s, w) ==> Contains(Lower(s), w)
  {
    if Contains(s, w) {
      var i :| 0 <= i <= |s| - |w| && OccursAt(s, i, w);
      forall m | 0 <= m < |w|
        ensures Lower(s)[i + m] == w[m]
      {
        assert s[i + m] == s[i..i + |w|][m] == w[m];
        assert Lower(w)[m] == LowerChar(w[m]);
      }
      assert Lower(s)[i..i + |w|] == w;
      assert OccursAt(Lower(s), i, w);
    }
  }

  /** Python `s.capitalize()` for ASCII: first character upper-case, the rest lower-case. */
  function Capitalize(s: string): (r: string)
    ensures |r| == |s|
  {
    if s == [] then [] else [UpperChar(s[0])] + Lower(s[1..])
  }

  /** Python `s.isalpha()`, with ASCII letters as the alphabet: non-empty and letters only. */
  predicate IsAlpha(s: string) {
    |s| > 0 && forall i :: 0 <= i < |s| ==> IsLetter(s[i])
  }

  /** A capitalised word: upper-case initial followed by lower-case ASCII letters. */
  predicate IsCapitalizedWord(w: string) {
    |w| > 0 && IsUpper(w[0]) && forall i :: 1 <= i < |w| ==> IsLower(w[i])
  }

  /** Capitalising an all-letter string gives a capitalised word that lower-cases back to the input's lower case. */
  lemma CapitalizeAlpha(s: string)
    requires IsAlpha(s)
    ensures IsCapitalizedWord(Capitalize(s))
    ensures Lower(Capitalize(s)) == Lower(s)
  {
    var r := Capitalize(s);
    assert r[0] == UpperChar(s[0]);
    assert forall i :: 1 <= i < |s| ==> r[i] == LowerChar(s[i]);
  }

  // ---------------------------------------------------------------------------
  // substring search

  /** `sub` occurs in `s` starting at index `i`. */
  predicate OccursAt(s: string, i: int, sub: string) {
    0 <= i && i + |sub| <= |s| && s[i..i + |sub|] == sub
  }

  /** Python `sub in s`. */
  predicate Contains(s: string, sub: string) {
    exists i | 0 <= i <= |s| - |sub| :: OccursAt(s, i, sub)
  }

  predicate StartsWith(s: string, prefix: string) {
    OccursAt(s, 0, prefix)
  }

  predicate EndsWith(s: string, suffix: string) {
    OccursAt(s, |s| - |suffix|, suffix)
  }

  /** `a + b` starts with `a` and ends with `b`. */
  lemma ConcatEnds(a: string, b: string)
    ensures StartsWith(a + b, a) && EndsWith(a + b, b)
  {
    assert (a + b)[..|a|] == a;
    assert (a + b)[|a|..] == b;
  }

  /** The first occurrence of `sub` at or after `i`, if any. */
  function FindFrom(s: string, sub: string, i: nat): (r: Option<nat>)
    requires i <= |s|
    ensures r.Some? ==> i <= r.value <= |s| && OccursAt(s, r.value, sub)
    ensures r.Some? ==> forall j :: i <= j < r.value ==> !OccursAt(s, j, sub)
    ensures r.None? ==> forall j :: i <= j <= |s| ==> !OccursAt(s, j, sub)
    decreases |s| - i
  {
    if OccursAt(s, i, sub) then Some(i)
    else if i < |s| then FindFrom(s, sub, i + 1)
    else None
  }

  /** Python `s.find(sub)`, with `None` for -1: the first occurrence, and none exactly when `sub` is absent. */
  function Find(s: string, sub: string): (r: Option<nat>)
    ensures r.None? <==> !Contains(s, sub)
    ensures r.Some? ==> OccursAt(s, r.value, sub) && forall j :: 0 <= j < r.value ==> !OccursAt(s, j, sub)
  {
    FindFrom(s, sub, 0)
  }

  lemma OccursInContains(s: string, i: int, sub: string)
    requires OccursAt(s, i, sub)
    ensures Contains(s, sub)
  {
  }

  // ---------------------------------------------------------------------------
  // split and join

  /** Python `sep.join(parts)`. */
  function JoinWith(parts: seq<string>, sep: string): string
    decreases |parts|
  {
    if |parts| == 0 then ""
    else if |parts| == 1 then parts[0]
    else parts[0] + sep + JoinWith(parts[1..], sep)
  }

  /** Python `s.split(sep)` for a one-character separator: the pieces between separators. */
  function SplitOn(s: string, sep: char): (r: seq<string>)
    ensures |r| >= 1
    ensures forall k :: 0 <= k < |r| ==> sep !in r[k]
    decreases |s|
  {
    var i := IndexOf(s, sep, 0);
    if i < |s| then [s[..i]] + SplitOn(s[i + 1..], sep) else [s]
  }

  /** The first index at or after `from` that holds `c`, or `|s|` when there is none. */
  function IndexOf(s: string, c: char, from: nat): (i: nat)
    requires from <= |s|
    ensures from <= i <= |s|
    ensures forall m :: from <= m < i ==> s[m] != c
    ensures i < |s| ==> s[i] == c
    decreases |s| - from
  {
    if from == |s| || s[from] == c then from else IndexOf(s, c, from + 1)
  }

  /** The first separator splits a string uniquely. */
  lemma SplitAtFirst(s: string, sep: char, i: nat)
    requires i < |s| && s[i] == sep && sep !in s[..i]
    ensures SplitOn(s, sep) == [s[..i]] + SplitOn(s[i + 1..], sep)
  {
    assert forall m :: 0 <= m < i ==> s[m] != sep by {
      forall m | 0 <= m < i ensures s[m] != sep {
        assert s[..i][m] == s[m];
      }
    }
    assert IndexOf(s, sep, 0) == i;
  }

  /** Joining the pieces of a split with the separator gives back the original string. */
  lemma {:induction false} JoinSplit(s: string, sep: char)
    ensures JoinWith(SplitOn(s, sep), [sep]) == s
    decreases |s|
  {
    var i := IndexOf(s, sep, 0);
    if i < |s| {
      assert sep !in s[..i];
      JoinSplit(s[i + 1..], sep);
      assert s == s[..i] + [sep] + s[i + 1..];
    }
  }

  /** Splitting a join of separator-free pieces gives back the pieces. */
  lemma {:induction false} SplitJoin(parts: seq<string>, sep: char)
    requires |parts| >= 1
    requires forall k :: 0 <= k < |parts| ==> sep !in parts[k]
    ensures SplitOn(JoinWith(parts, [sep]), sep) == parts
    decreases |parts|
  {
    if |parts| == 1 {
      assert sep !in parts[0];
    } else {
      JoinFirst(parts, sep);
      SplitJoin(parts[1..], sep);
    }
  }

  /** Joined parts split once at the separator after the first part. */
  lemma JoinFirst(parts: seq<string>, sep: char)
    requires |parts| >= 2 && sep !in parts[0]
    ensures SplitOn(JoinWith(parts, [sep]), sep) == [parts[0]] + SplitOn(JoinWith(parts[1..], [sep]), sep)
  {
    var s := JoinWith(parts, [sep]);
    var i := |parts[0]|;
    assert s == parts[0] + [sep] + JoinWith(parts[1..], [sep]);
    assert s[..i] == parts[0];
    assert s[i + 1..] == JoinWith(parts[1..], [sep]);
    SplitAtFirst(s, sep, i);
  }

  lemma {:induction false} JoinAppend(xs: seq<string>, ys: seq<string>, sep: string)
    requires |xs| >= 1 && |ys| >= 1
    ensures JoinWith(xs + ys, sep) == JoinWith(xs, sep) + sep + JoinWith(ys, sep)
    decreases |xs|
  {
    if |xs| == 1 {
      assert (xs + ys)[1..] == ys;
    } else {
      assert (xs + ys)[1..] == xs[1..] + ys;
      JoinAppend(xs[1..], ys, sep);
    }
  }

  /** Splitting at a separator distributes over the pieces on either side of it. */
  lemma SplitConcat(a: string, b: string, sep: char)
    ensures SplitOn(a + [sep] + b, sep) == SplitOn(a, sep) + SplitOn(b, sep)
  {
    var xs, ys := SplitOn(a, sep), SplitOn(b, sep);
    JoinSplit(a, sep);
    JoinSplit(b, sep);
    JoinAppend(xs, ys, [sep]);
    SplitJoin(xs + ys, sep);
  }

  /** A string without the separator is a single piece. */
  lemma SplitWithoutSep(s: string, sep: char)
    requires sep !in s
    ensures SplitOn(s, sep) == [s]
  {
  }

  /** A character other than the separator put in front joins the first piece. */
  lemma SplitPrependChar(c: char, s: string, sep: char)
    requires c != sep
    ensures var p := SplitOn(s, sep);
            SplitOn([c] + s, sep) == [[c] + p[0]] + p[1..]
  {
    var i := IndexOf(s, sep, 0);
    if i < |s| {
      assert sep !in s[..i];
      SplitAtFirst(s, sep, i);
      var t := [c] + s;
      assert t[..i + 1] == [c] + s[..i];
      assert t[i + 2..] == s[i + 1..];
      SplitAtFirst(t, sep, i + 1);
    } else {
      SplitWithoutSep(s, sep);
      SplitWithoutSep([c] + s, sep);
    }
  }

  /** A character other than the separator put at the end joins the last piece. */
  lemma {:induction false} SplitAppendChar(s: string, c: char, sep: char)
    requires c != sep
    ensures var p := SplitOn(s, sep);
            SplitOn(s + [c], sep) == p[..|p| - 1] + [p[|p| - 1] + [c]]
    decreases |s|
  {
    var i := IndexOf(s, sep, 0);
    if i < |s| {
      SplitAppendChar(s[i + 1..], c, sep);
      SplitAppendStep(s, c, sep, i);
    } else {
      SplitWithoutSep(s, sep);
      SplitWithoutSep(s + [c], sep);
      assert SplitOn(s, sep)[..0] == [];
    }
  }

  /** The step of `SplitAppendChar` past the first separator, at `i`. */
  lemma SplitAppendStep(s: string, c: char, sep: char, i: nat)
    requires c != sep && i < |s| && s[i] == sep && sep !in s[..i]
    requires var q := SplitOn(s[i + 1..], sep);
             SplitOn(s[i + 1..] + [c], sep) == q[..|q| - 1] + [q[|q| - 1] + [c]]
    ensures var p := SplitOn(s, sep);
            SplitOn(s + [c], sep) == p[..|p| - 1] + [p[|p| - 1] + [c]]
  {
    var t, rest := s + [c], s[i + 1..];
    assert t[..i] == s[..i];
    assert t[i + 1..] == rest + [c];
    SplitAtFirst(s, sep, i);
    SplitAtFirst(t, sep, i);
    var p, q := SplitOn(s, sep), SplitOn(rest, sep);
    var front, last := q[..|q| - 1], q[|q| - 1] + [c];
    assert p == [s[..i]] + q;
    assert p[..|p| - 1] == [s[..i]] + front;
    assert p[|p| - 1] + [c] == last;
    calc {
      SplitOn(t, sep);
      [s[..i]] + SplitOn(rest + [c], sep);
      [s[..i]] + (front + [last]);
      ([s[..i]] + front) + [last];
    }
  }

  /** A separator at either end adds an empty piece there. */
  lemma SplitAtEnds(s: string, sep: char)
    ensures SplitOn([sep] + s, sep) == [""] + SplitOn(s, sep)
    ensures SplitOn(s + [sep], sep) == SplitOn(s, sep) + [""]
  {
    assert ([sep] + s)[1..] == s;
    SplitAtFirst([sep] + s, sep, 0);
    SplitConcat(s, "", sep);
    assert s + [sep] + "" == s + [sep];
  }

  /** Python `s.split()`: the maximal runs of non-whitespace characters. */
  function Words(s: string): (r: seq<string>)
    ensures forall k :: 0 <= k < |r| ==> IsToken(r[k])
    decreases |s|
  {
    if s == [] then []
    else if IsSpace(s[0]) then Words(s[1..])
    else
      var b := RunEnd(s, 0, NonSpace);
      [s[..b]] + Words(s[b..])
  }

  /** A non-empty string with no whitespace: what `str.split()` produces. */
  predicate IsToken(w: string) {
    |w| > 0 && forall i :: 0 <= i < |w| ==> !IsSpace(w[i])
  }

  /** Splitting tokens joined by single spaces gives back the tokens. */
  lemma {:induction false} WordsOfJoin(tokens: seq<string>)
    requires forall k :: 0 <= k < |tokens| ==> IsToken(tokens[k])
    ensures Words(JoinWith(tokens, " ")) == tokens
    decreases |tokens|
  {
    if |tokens| == 0 {
    } else {
      var s := JoinWith(tokens, " ");
      var t := tokens[0];
      assert s[..|t|] == t;
      RunEndIs(s, 0, NonSpace, |t|);
      if |tokens| == 1 {
        assert s[|t|..] == [];
      } else {
        assert s[|t|..] == " " + JoinWith(tokens[1..], " ");
        assert (" " + JoinWith(tokens[1..], " "))[1..] == JoinWith(tokens[1..], " ");
        WordsOfJoin(tokens[1..]);
      }
    }
  }
}
