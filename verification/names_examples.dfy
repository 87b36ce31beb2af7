/** Worked examples of the name rules, taken from the comments beside them in the script. */
module NameExamples {
  import opened Wrappers
  import opened Text
  import opened Names

  /** The comment's example: "Leland" with lelandlee4@gmail.com becomes "Leland Lee" through the email. */
  lemma LelandExample(row: Person)
    requires row.fullname == "Leland" && row.email == "lelandlee4@gmail.com" && row.username == ""
    ensures GuessFullname(row) == "Leland Lee"
  {
    assert Strip(row.fullname) == "Leland" by { StripOfStripped("Leland"); }
    assert EmailPrefix(Strip(row.email)) == "lelandlee4" by {
      StripOfStripped("lelandlee4@gmail.com");
      LelandEmail();
    }
    assert Strip(row.username) == "" by { StripOfStripped(""); }
    assert Lower("Leland") == "leland" by { LelandLower(); }
    assert FirstSurname(["lelandlee4", ""], "leland") == Some("Lee") by { LelandSurname(); }
    assert ' ' !in "Leland" by { LelandOneWord(); }
    GuessFromSources(row, "Leland", "lelandlee4", "");
    LelandJoin();
  }

  /**
   * "Ashvin" with username "nihalani" and email anihalani5@gmail.com: neither
   * source starts with "ashvin", so the username itself becomes the surname.
   */
  lemma AshvinExample(row: Person)
    requires row.fullname == "Ashvin" && row.email == "anihalani5@gmail.com" && row.username == "nihalani"
    ensures GuessFullname(row) == "Ashvin Nihalani"
  {
    AshvinFields(row);
    AshvinRules();
    GuessFromSources(row, "Ashvin", "anihalani5", "nihalani");
    AshvinJoin();
  }

  lemma AshvinFields(row: Person)
    requires row.fullname == "Ashvin" && row.email == "anihalani5@gmail.com" && row.username == "nihalani"
    ensures Strip(row.fullname) == "Ashvin" && Strip(row.username) == "nihalani"
    ensures EmailPrefix(Strip(row.email)) == "anihalani5"
  {
    assert Strip(row.fullname) == "Ashvin" by { StripOfStripped("Ashvin"); }
    assert Strip(row.username) == "nihalani" by { StripOfStripped("nihalani"); }
    assert Strip(row.email) == "anihalani5@gmail.com" by { StripOfStripped("anihalani5@gmail.com"); }
    AshvinEmail();
  }

  lemma AshvinRules()
    ensures ' ' !in "Ashvin" && Lower("Ashvin") == "ashvin"
    ensures FirstSurname(["anihalani5", "nihalani"], "ashvin") == None
    ensures UsernameSurname("nihalani", "ashvin") == Some("Nihalani")
  {
    AshvinOneWord();
    AshvinLower();
    AshvinNoPrefixSurname();
    AshvinUsernameSurname();
  }

  /** `GuessFullname` once the stripped fields are known. */
  lemma GuessFromSources(row: Person, name: string, emailPrefix: string, username: string)
    requires Strip(row.fullname) == name && ' ' !in name
    requires EmailPrefix(Strip(row.email)) == emailPrefix && Strip(row.username) == username
    ensures GuessFullname(row) ==
              match FirstSurname([emailPrefix, username], Lower(name))
              case Some(surname) => name + " " + surname
              case None =>
                match UsernameSurname(username, Lower(name))
                case Some(surname) => name + " " + surname
                case None => name
  {
  }

  lemma LelandEmail()
    ensures EmailPrefix("lelandlee4@gmail.com") == "lelandlee4"
  {
    var email := "lelandlee4@gmail.com";
    SplitAtFirst(email, '@', 10);
    assert email[..10] == "lelandlee4";
  }

  lemma AshvinEmail()
    ensures EmailPrefix("anihalani5@gmail.com") == "anihalani5"
  {
    var email := "anihalani5@gmail.com";
    SplitAtFirst(email, '@', 10);
    assert email[..10] == "anihalani5";
  }

  lemma LelandOneWord()
    ensures ' ' !in "Leland"
  {
  }

  lemma AshvinOneWord()
    ensures ' ' !in "Ashvin"
  {
  }

  lemma LelandLower()
    ensures Lower("Leland") == "leland"
  {
  }

  lemma LelandJoin()
    ensures "Leland" + " " + "Lee" == "Leland Lee"
  {
  }

  lemma AshvinLower()
    ensures Lower("Ashvin") == "ashvin"
  {
  }

  lemma AshvinUsernameSurname()
    ensures UsernameSurname("nihalani", "ashvin") == Some("Nihalani")
  {
    AshvinCapitalized();
    assert IsAlpha("nihalani");
    assert "nihalani"[0] != "ashvin"[0];
  }

  lemma AshvinCapitalized()
    ensures Lower("nihalani") == "nihalani" && Capitalize("nihalani") == "Nihalani"
  {
  }

  lemma AshvinJoin()
    ensures "Ashvin" + " " + "Nihalani" == "Ashvin Nihalani"
  {
  }

  lemma LelandSurname()
    ensures FirstSurname(["lelandlee4", ""], "leland") == Some("Lee")
  {
    assert Lower("lelandlee4") == "lelandlee4";
    RunStartIs("lelandlee4", 10, Digit, 9);
    assert TrimDigits("lelandlee4") == "lelandlee";
    assert StartsWith("lelandlee", "leland");
    assert "lelandlee"[6..] == "lee";
    assert IsAlpha("lee");
    assert Capitalize("lee") == "Lee";
  }

  lemma AshvinNoPrefixSurname()
    ensures FirstSurname(["anihalani5", "nihalani"], "ashvin") == None
  {
    assert Lower("anihalani5") == "anihalani5";
    assert Lower("nihalani") == "nihalani";
    RunStartIs("anihalani5", 10, Digit, 9);
    RunStartIs("nihalani", 8, Digit, 8);
    assert TrimDigits("anihalani5") == "anihalani";
    assert TrimDigits("nihalani") == "nihalani";
    assert !StartsWith("anihalani", "ashvin") by { assert "anihalani"[1] != "ashvin"[1]; }
    assert !StartsWith("nihalani", "ashvin") by { assert "nihalani"[0] != "ashvin"[0]; }
  }

  /** The comment's example: "Ashvin N." in the title with the surname only in the URL slug. */
  lemma AbbreviatedSurnameExample(name: string, title: string, url: string)
    requires name == "Ashvin Nihalani" && title == "Ashvin N." && url == "https://linkedin.com/in/ashvinnihalani"
    ensures NameMatches(name, title, url)
  {
    NameTokens();
    TitleHoldsFirst();
    UrlHoldsLast();
  }

  lemma NameTokens()
    ensures FirstToken("Ashvin Nihalani") == "ashvin" && LastToken("Ashvin Nihalani") == "nihalani"
  {
    NameLowerTokens();
    WordsOfJoin(["ashvin", "nihalani"]);
  }

  lemma NameLowerTokens()
    ensures Lower("Ashvin Nihalani") == JoinWith(["ashvin", "nihalani"], " ")
  {
  }

  lemma TitleHoldsFirst()
    ensures Contains(Lower("Ashvin N."), "ashvin")
  {
    assert Lower("Ashvin N.") == "ashvin n.";
    assert OccursAt("ashvin n.", 0, "ashvin");
  }

  lemma UrlHoldsLast()
    ensures Contains(Lower("https://linkedin.com/in/ashvinnihalani"), "nihalani")
  {
    var url := "https://linkedin.com/in/ashvinnihalani";
    UrlLowerCase();
    assert OccursAt(url, 30, "nihalani");
  }

  lemma UrlLowerCase()
    ensures Lower("https://linkedin.com/in/ashvinnihalani") == "https://linkedin.com/in/ashvinnihalani"
  {
  }
}
