/**
 * Name handling: rebuilding a full name from a single-word display name
 * (`guess_fullname`) and deciding whether a search result is about a person
 * (`name_matches`).
 */
module Names {
  import opened Wrappers
  import opened Seqs
  import opened Text

  /** One roster row: its `fullname`, `email` and `username` columns (a missing column reads as ""). */
  datatype Person = Person(fullname: string, email: string, username: string)

  /** `r` is `name`, one space, then a capitalised surname of at least two letters. */
  predicate ExtendsWithSurname(name: string, r: string) {
    |r| >= |name| + 3 && r[..|name|] == name && r[|name|] == ' '
    && IsCapitalizedWord(r[|name| + 1..])
  }

  /** The local part of an email address: what precedes the first '@' ("" for an empty address). */
  function EmailPrefix(email: string): (r: string)
    ensures '@' !in r
    ensures StartsWith(email, r)
    ensures r == email || (|r| < |email| && email[|r|] == '@')
  {
    if email != "" then
      var pieces := SplitOn(email, '@');
      JoinSplit(email, '@');
      assert |pieces| > 1 ==> email == pieces[0] + "@" + JoinWith(pieces[1..], "@");
      pieces[0]
    else ""
  }

  /** Python `s.rstrip("0123456789")`: the trailing digits are cut off, and nothing else. */
  function TrimDigits(s: string): (r: string)
    ensures |r| <= |s| && s[..|r|] == r
    ensures forall m :: |r| <= m < |s| ==> IsDigit(s[m])
    ensures r == [] || !IsDigit(r[|r| - 1])
  {
    s[..RunStart(s, |s|, Digit)]
  }

  /** A string that `Lower` leaves unchanged. */
  predicate IsLowerCased(s: string) {
    Lower(s) == s
  }

  lemma SliceOfLowerIsLower(s: string, i: nat, j: nat)
    requires i <= j <= |s|
    ensures IsLowerCased(Lower(s)[i..j])
  {
    var t := Lower(s)[i..j];
    assert forall m :: 0 <= m < |t| ==> Lower(t)[m] == t[m];
  }

  /**
   * One pass of the loop over surname sources: lower-case the source, drop its
   * trailing digits, and if what is left is the first name followed by two or
   * more letters, those letters (capitalised) are the surname.
   */
  function SurnameFrom(source: string, firstLower: string): (r: Option<string>)
    ensures r.Some? ==> |r.value| >= 2 && IsCapitalizedWord(r.value)
    ensures r.Some? ==> TrimDigits(Lower(source)) == firstLower + Lower(r.value)
    ensures r.Some? <==> var t := TrimDigits(Lower(source));
                         StartsWith(t, firstLower) && |t| >= |firstLower| + 2 && IsAlpha(t[|firstLower|..])
  {
    var sourceLower := TrimDigits(Lower(source));
    if StartsWith(sourceLower, firstLower) && |sourceLower| > |firstLower| then
      var rest := sourceLower[|firstLower|..];
      if IsAlpha(rest) && |rest| > 1 then
        CapitalizeAlpha(rest);
        SliceOfLowerIsLower(source, |firstLower|, |sourceLower|);
        assert rest == Lower(source)[|firstLower|..|sourceLower|];
        assert sourceLower == firstLower + rest;
        Some(Capitalize(rest))
      else None
    else None
  }

  /** The loop over the sources in order: the first surname any of them yields. */
  function FirstSurname(sources: seq<string>, firstLower: string): (r: Option<string>)
    ensures r.None? <==> forall k :: 0 <= k < |sources| ==> SurnameFrom(sources[k], firstLower).None?
    ensures r.Some? ==> exists k :: 0 <= k < |sources| && SurnameFrom(sources[k], firstLower) == r
                                    && forall j :: 0 <= j < k ==> SurnameFrom(sources[j], firstLower).None?
    decreases |sources|
  {
    if sources == [] then None
    else
      match SurnameFrom(sources[0], firstLower)
      case Some(surname) => Some(surname)
      case None =>
        var rest := sources[1..];
        var r := FirstSurname(rest, firstLower);
        SkipFailedSource(sources, firstLower, r);
        r
  }

  /** A first source that yields nothing hands the search on to the remaining sources. */
  lemma SkipFailedSource(sources: seq<string>, firstLower: string, r: Option<string>)
    requires sources != [] && SurnameFrom(sources[0], firstLower).None?
    requires r.None? <==> forall k :: 0 <= k < |sources| - 1 ==> SurnameFrom(sources[1..][k], firstLower).None?
    requires r.Some? ==> exists k :: 0 <= k < |sources| - 1 && SurnameFrom(sources[1..][k], firstLower) == r
                                     && forall j :: 0 <= j < k ==> SurnameFrom(sources[1..][j], firstLower).None?
    ensures r.None? <==> forall k :: 0 <= k < |sources| ==> SurnameFrom(sources[k], firstLower).None?
    ensures r.Some? ==> exists k :: 0 <= k < |sources| && SurnameFrom(sources[k], firstLower) == r
                                    && forall j :: 0 <= j < k ==> SurnameFrom(sources[j], firstLower).None?
  {
    var f := (source: string) => SurnameFrom(source, firstLower);
    assert forall x :: f(x) == SurnameFrom(x, firstLower);
    SkipFailedHead(sources, f, r);
  }

  /** With two sources: the first one's surname when it yields one, the second one's otherwise. */
  lemma FirstOfTwo(first: string, second: string, firstLower: string)
    ensures FirstSurname([first, second], firstLower)
            == if SurnameFrom(first, firstLower).Some? then SurnameFrom(first, firstLower)
               else SurnameFrom(second, firstLower)
  {
    assert [first, second][1..] == [second];
    assert [second][1..] == [];
  }

  /** The last rule: the username itself as surname, when it is a word of three or more letters other than the first name. */
  function UsernameSurname(username: string, firstLower: string): (r: Option<string>)
    ensures r.Some? ==> |r.value| >= 3 && IsCapitalizedWord(r.value)
    ensures r.Some? ==> Lower(r.value) == Lower(username) && Lower(username) != firstLower
    ensures r.Some? <==> username != "" && Lower(username) != firstLower && IsAlpha(username) && |username| > 2
  {
    if username != "" && Lower(username) != firstLower && IsAlpha(username) && |username| > 2 then
      CapitalizeAlpha(username);
      Some(Capitalize(username))
    else None
  }

  /** `name + " " + surname` extends `name` with that surname. */
  lemma AppendSurname(name: string, surname: string)
    requires |surname| >= 2 && IsCapitalizedWord(surname)
    ensures ExtendsWithSurname(name, name + " " + surname)
    ensures (name + " " + surname)[|name| + 1..] == surname
  {
    var r := name + " " + surname;
    assert r[..|name|] == name;
    assert r[|name| + 1..] == surname;
  }

  /**
   * `guess_fullname`: a name that already has a space is kept; otherwise a
   * surname is sought in the email's local part, then in the username, and
   * finally the username itself is taken as the surname when it is a plain
   * word of three or more letters different from the first name.
   */
  function GuessFullname(row: Person): (r: string)
    ensures ' ' in Strip(row.fullname) ==> r == Strip(row.fullname)
    ensures r == Strip(row.fullname) || ExtendsWithSurname(Strip(row.fullname), r)
    ensures r != Strip(row.fullname) ==>
              var name := Strip(row.fullname);
              var surname := Lower(r[|name| + 1..]);
              || TrimDigits(Lower(EmailPrefix(Strip(row.email)))) == Lower(name) + surname
              || TrimDigits(Lower(Strip(row.username))) == Lower(name) + surname
              || surname == Lower(Strip(row.username))
    ensures ' ' !in Strip(row.fullname) ==>
              var name := Strip(row.fullname);
              var fromEmail := SurnameFrom(EmailPrefix(Strip(row.email)), Lower(name));
              var fromUsername := SurnameFrom(Strip(row.username), Lower(name));
              var asUsername := UsernameSurname(Strip(row.username), Lower(name));
              && (r == name <==> fromEmail.None? && fromUsername.None? && asUsername.None?)
              && (fromEmail.Some? ==> r == name + " " + fromEmail.value)
              && (fromEmail.None? && fromUsername.Some? ==> r == name + " " + fromUsername.value)
              && (fromEmail.None? && fromUsername.None? && asUsername.Some? ==> r == name + " " + asUsername.value)
  {
    var fullname := Strip(row.fullname);
    if ' ' in fullname then fullname
    else
      var username := Strip(row.username);
      var firstLower := Lower(fullname);
      var sources := [EmailPrefix(Strip(row.email)), username];
      FirstOfTwo(sources[0], username, firstLower);
      match FirstSurname(sources, firstLower)
      case Some(surname) =>
        AppendSurname(fullname, surname);
        fullname + " " + surname
      case None =>
        match UsernameSurname(username, firstLower)
        case Some(surname) =>
          AppendSurname(fullname, surname);
          fullname + " " + surname
        case None => fullname
  }

  // ---------------------------------------------------------------------------
  // name_matches

  /** First lower-cased token of a name ("" when the name is blank). */
  function FirstToken(fullname: string): string {
    var parts := Words(Lower(fullname));
    if |parts| > 0 then parts[0] else ""
  }

  /** Last lower-cased token of a name with two or more tokens, "" otherwise. */
  function LastToken(fullname: string): string {
    var parts := Words(Lower(fullname));
    if |parts| > 1 then parts[|parts| - 1] else ""
  }

  /**
   * `name_matches`: the first name must occur in the lower-cased title; the
   * surname, when there is one, may occur in the title or in the URL.
   */
  predicate NameMatches(fullname: string, title: string, url: string)
    ensures NameMatches(fullname, title, url) ==> Contains(Lower(title), FirstToken(fullname))
    ensures Words(Lower(fullname)) == [] ==> NameMatches(fullname, title, url)
  {
    assert OccursAt(Lower(title), 0, "");
    var first := FirstToken(fullname);
    var last := LastToken(fullname);
    Contains(Lower(title), first)
    && (last == "" || Contains(Lower(title), last) || Contains(Lower(url), last))
  }

  /** Matching is insensitive to the case of the name, the title and the URL. */
  lemma NameMatchesIgnoresCase(fullname: string, title: string, url: string)
    ensures NameMatches(fullname, title, url)
        == NameMatches(Lower(fullname), Lower(title), Lower(url))
  {
    LowerIdempotent(fullname);
    LowerIdempotent(title);
    LowerIdempotent(url);
  }

  /** For a one-token name the test is just "the token occurs in the title", whatever the URL. */
  lemma SingleTokenMatch(fullname: string, title: string, url: string)
    requires |Words(Lower(fullname))| <= 1
    ensures NameMatches(fullname, title, url) <==> Contains(Lower(title), FirstToken(fullname))
  {
  }

  /**
   * The URL never stands in for the first name: a match always has the first
   * token in the title, and the URL only helps by holding the last token.
   */
  lemma UrlOnlyHoldsSurname(fullname: string, title: string, url: string)
    ensures NameMatches(fullname, title, url) ==> Contains(Lower(title), FirstToken(fullname))
    ensures NameMatches(fullname, title, url) <==>
              || NameMatches(fullname, title, "")
              || (Contains(Lower(title), FirstToken(fullname))
                  && LastToken(fullname) != "" && Contains(Lower(url), LastToken(fullname)))
  {
    var last := LastToken(fullname);
    if last != "" {
      assert IsToken(last);
      assert !Contains(Lower(""), last);
    }
  }
}
