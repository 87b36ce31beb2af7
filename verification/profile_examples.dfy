/**
 * The parser on the texts the scanners were shown to match: the current
 * title and company come out of a `(Current)`-marked header, and the role
 * and years at the organisation out of a header with its dates.
 */
module ProfileExamples {
  import opened Wrappers
  import opened Seqs
  import opened Text
  import opened Scanners
  import opened Profile
  import opened ScannerExamples

  /** A name without `(` cannot end with the marker. */
  lemma NoMarkerWithoutParen(c: string)
    requires '(' !in c
    ensures !EndsWith(c, Marker)
  {
    if |c| >= |Marker| {
      var i := |c| - |Marker|;
      assert c[i] in c;
      assert c[i..][0] != Marker[0];
    }
  }

  /** The first `(Current)`-marked header gives the current title and the company without its marker. */
  lemma CurrentRoleParsed(title: string, company: string)
    requires IsToken(title) && IsPlainCompany(company) && IsStripped(company)
    ensures var p := ParseProfile(Header(title, MarkedCompany(company)));
            p.currentTitle == title && p.currentCompany == company
  {
    var s := Header(title, MarkedCompany(company));
    var hit := Hit(0, title, Company(company + " "), |s|);
    CurrentRoleMatches(title, company);
    assert Search(CurrentRole, s, 0) == Some(hit) by {
      var attempt := (p: nat) => MatchAt(CurrentRole, s, p);
      assert attempt(0) == Some(hit);
    }
    assert CurrentRoleHit(s) == Some(hit);
    assert Strip(title) == title by { StripOfStripped(title); }
    assert Strip(company + " ") == company by {
      StripRightPadding(company, " ");
      StripOfStripped(company);
    }
    NoMarkerWithoutParen(company);
    assert CleanCompany(company + " ") == company;
  }

  /** One organisation header: the role is its title and the years run from its start to its finish. */
  lemma OrgRoleParsed(title: string, w1: string, y1: string, w2: string, y2: string)
    requires IsToken(title) && IsDateParts(w1, y1) && IsDateParts(w2, y2)
    ensures var p := ParseProfile(Header(title, OrgTail(w1, y1, w2, y2)));
            p.orgRole == title && p.orgYears == (w1 + " " + y1) + " - " + (w2 + " " + y2)
  {
    var s := Header(title, OrgTail(w1, y1, w2, y2));
    var hit := Hit(0, title, Tenure(w1 + " " + y1, w2 + " " + y2), |s|);
    OrgRoleMatches(title, w1, y1, w2, y2);
    assert FindAll(OrgRole, s, 0) == [hit];
    StripOfStripped(title);
    assert StrippedTitles([hit]) == [title];
  }
}
