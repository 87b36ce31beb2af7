# LinkedIn enrichment core, in Dafny

A model of the text logic of `enrich_linkedin.py`, a script that enriches an
alumni roster (one row per person: `fullname`, `email`, `username`) with
LinkedIn profile data, ten people per run. Modelled:

- **Name reconstruction** (`guess_fullname`): a one-word display name gets a
  surname from the email's local part, from the username, or the username
  itself.
- **Name matching** (`name_matches`): the first-name token must occur in a
  result title, the surname in the title or in the URL.
- **Candidate selection** (the pure part of `search_linkedin`): keep the
  matching results, prefer the first that mentions "berkeley", else take the
  first match.
- **Profile parsing** (`parse_linkedin_text`): headline, current title and
  company, location, education flag, and the role and year span at
  Blockchain at Berkeley. The three role-header regular expressions are
  hand-written scanners that follow Python's backtracking order: lazy runs
  grow, greedy runs shrink and optional parts are tried present first.
- **Batch bookkeeping** (`main`, `init_remaining`, `empty_row`): the
  non-blank filter, the batch of the first `BATCH_SIZE = 10` rows, one output
  row per batch row whatever the search does, and the remainder.

Modules: `Wrappers`/`Seqs` (option type, filtering, first success of a series
of attempts), `Text` (Python string operations on `seq<char>`), `Names`,
`Selection`, `Scanners`, `Profile`, `Batch`, and three modules of worked
examples (`NameExamples`, `ScannerExamples`, `ProfileExamples`).

The people search is a parameter of `Batch`: a function from the query string
to either an exception or a list of results (title, URL, text). A missing
title, URL, text or CSV column reads as `""`, which Python's truthiness treats
the same way as `None` in every place the script tests one.

Two comments worth reading against the statements beside them:

- The comment at `enrich_linkedin.py:98` gives username `nihalani` with first
  name "Ashvin" as the case for the username rule. With the email
  `anihalani5@gmail.com` the prefix loop of lines 91-96 finds nothing first,
  since neither `anihalani` nor `nihalani` starts with `ashvin`, so the rule at
  line 99 gives "Ashvin Nihalani", as the comment says. `NameExamples.AshvinExample` proves it that way.
- The comments at lines 167 and 172 speak of the earliest role and of a range
  from the earliest start to the latest end. Line 173 takes the start of the
  last match and the end of the first match by position and never compares
  dates. `Profile.ParseProfile` and `Profile.OrgYearsOf` state exactly that.

## Model

| member | source | states |
|---|---|---|
| Names.EmailPrefix | enrich_linkedin.py:86 | the local part is a prefix of the address without '@' that runs up to the first '@', or is the whole address when it has none ("" for an empty address) |
| Names.TrimDigits | enrich_linkedin.py:92 | `rstrip("0123456789")`: a prefix of the text, everything cut off is a digit, and the prefix does not end with a digit |
| Names.SurnameFrom | enrich_linkedin.py:92-96 | a surname is found exactly when the digit-trimmed lower-cased source is the lower-cased first name followed by two or more letters; the surname is those letters capitalised |
| Names.FirstSurname | enrich_linkedin.py:91-96 | none exactly when every source fails; otherwise what one of the sources yields |
| Names.FirstOfTwo | enrich_linkedin.py:91-96 | with the email prefix and the username as sources, the email prefix's surname wins, and the username's is taken only when the email prefix yields none |
| Names.UsernameSurname | enrich_linkedin.py:99-100 | the username rule fires exactly when the username is non-empty, differs from the first name up to case, is all letters and has three or more of them; its surname is the capitalised username |
| Names.AppendSurname | enrich_linkedin.py:96 | `name + " " + surname` extends the name with that surname |
| Names.GuessFullname | enrich_linkedin.py:79-102 | a name with a space comes back unchanged; for a one-word name the email prefix's surname is appended when it has one, else the username's, else the username itself when the rule of line 99 holds, and the name is unchanged exactly when none of the three rules fires |
| Names.NameMatches | enrich_linkedin.py:186-197 | a match always has the first lower-cased token in the lower-cased title, and a blank name matches everything |
| Names.NameMatchesIgnoresCase | enrich_linkedin.py:188-197 | the match depends only on the lower-cased name, title and URL |
| Names.SingleTokenMatch | enrich_linkedin.py:191-197 | for a one-token name the match is exactly "the token occurs in the lower-cased title" |
| Names.UrlOnlyHoldsSurname | enrich_linkedin.py:194-196 | a match is exactly: the first token in the title, and the last token (when there are two or more) in the title or the URL |
| NameExamples.LelandExample | enrich_linkedin.py:88-96 | "Leland" with `lelandlee4@gmail.com` becomes "Leland Lee" |
| NameExamples.AshvinExample | enrich_linkedin.py:98-100 | "Ashvin" with username `nihalani` and `anihalani5@gmail.com` becomes "Ashvin Nihalani" |
| NameExamples.AshvinNoPrefixSurname | enrich_linkedin.py:91-96 | for "Ashvin" neither the email prefix nor the username gives a surname by the prefix rule |
| NameExamples.AbbreviatedSurnameExample | enrich_linkedin.py:195-197 | "Ashvin Nihalani" matches the title "Ashvin N." through a URL holding the surname |
| Selection.MentionsBerkeley | enrich_linkedin.py:219 | a result is preferred exactly when its lower-cased text contains "berkeley" |
| Selection.SelectBy | enrich_linkedin.py:214-220 | no choice exactly when no result passes the name test; a choice always passes it |
| Selection.SelectByChosen | enrich_linkedin.py:214-220 | the choice is the result at the position the rule describes: the earliest match that mentions "berkeley" if there is one, else the earliest match |
| Selection.Select | enrich_linkedin.py:214-220 | no result exactly when none satisfies `name_matches`; the chosen one satisfies it and sits at the position the rule describes |
| Selection.ChosenAtUnique | enrich_linkedin.py:219-220 | at most one position satisfies the selection rule |
| Selection.SelectIgnoresNonMatches | enrich_linkedin.py:214 | a result that fails the name test never changes the choice, wherever it stands in the list |
| Scanners.LinkEnd | enrich_linkedin.py:125 | `<[^>]*>` or `\([^)]*\)`: the link at a position is found exactly when one is there, and it ends where that link ends |
| Scanners.Bracketed | enrich_linkedin.py:125 | `\[([^\]]+)\]` plus a link: a match is a '[' at the position, a non-empty bracketed text without ']' and a link after the ']'; the company is that text; and wherever such a layout exists it is what is found |
| Scanners.Plain | enrich_linkedin.py:125 | `[^\n(]+`: the company is the longest run from the position free of newline and '('; it fails exactly at the end, at a newline or at '('; any such longest run is what is found |
| Scanners.MarkerEnd | enrich_linkedin.py:125 | `\s*\(Current\)`: a match is whitespace only, then the marker, and ends just after it; wherever whitespace and the marker follow, that end is found |
| Scanners.CompanyAt | enrich_linkedin.py:124-135 | the bracketed form is tried first: a bracketed layout (with the marker when required) gives its bracketed text; otherwise a plain run (with the marker when required) gives the run; and none exactly when neither alternative leads to a match |
| Scanners.MonthYearEnd | enrich_linkedin.py:163 | `\w+\s+\d{4}`: a match is a word, whitespace and four digits, and wherever the text from the position is one, its end is found |
| Scanners.TenureAtReads | enrich_linkedin.py:163 | a tenure found at a position is a month and year, whitespace, '-', whitespace, and a month and year or "Present", with start and finish read from that text |
| Scanners.TenureAtFindsDates | enrich_linkedin.py:163 | dates laid out as month year, '-', month year are found, with both dates as written |
| Scanners.TenureAtFindsPresent | enrich_linkedin.py:163 | dates laid out as month year, '-', "Present", where no month and year starts, are found with "Present" as the finish |
| Scanners.TenureFrom | enrich_linkedin.py:163 | the lazy gap `[\s\S]*?`: the tenure found is the one at the first position where one starts, and none exactly when none starts anywhere |
| Scanners.AfterCloseBracket | enrich_linkedin.py:162 | `(?:<[^>]*>\|\([^)]*\))?` then the gap: the link is tried first, and a tenure is found exactly when one is found from the position |
| Scanners.AfterOrgName | enrich_linkedin.py:162 | `(?:\])?`: the bracket is tried first, and a tenure is found exactly when one is found from the position |
| Scanners.OrgNameAt | enrich_linkedin.py:162 | a tail is found exactly when "Blockchain at Berkeley" occurs at the position and a tenure follows it |
| Scanners.OrgAt | enrich_linkedin.py:162 | `(?:\[)?`: with a '[' at the position the name is tried after it, otherwise at the position; a tail is found exactly when the name and a following tenure are there |
| Scanners.TailFromLongestFirst | enrich_linkedin.py:124-163 | the whitespace run after `at` is tried longest first: the tail found is the one after the longest run for which one matches, and none exactly when none matches after any run |
| Scanners.TitleAttempt | enrich_linkedin.py:124-163 | a title ending at `q` succeeds exactly when ` at ` and a tail match after `q`; its title is the text from the start up to `q` and its tail is that tail |
| Scanners.TitleFromShortestFirst | enrich_linkedin.py:124-163 | the lazy title `.+?`: the title found is the shortest one, ending before the next newline, after which ` at ` and a tail match, and none exactly when no such end exists |
| Scanners.AfterHashesLongestFirst | enrich_linkedin.py:124-163 | the whitespace run after `###` is tried longest first: the title found is the one after the longest run from which one matches, and none exactly when none matches after any run |
| Scanners.MatchAtFinds | enrich_linkedin.py:124-163 | wherever `###`, whitespace, a one-line title, whitespace, `at`, whitespace and a tail are laid out at a position, the pattern matches there |
| Scanners.Search | enrich_linkedin.py:124-136 | `re.search`: the leftmost match from a position, and none exactly when the pattern matches nowhere from there |
| Scanners.FindAll | enrich_linkedin.py:161-165 | `re.findall`: well-formed, ordered, non-overlapping matches; empty exactly when the search finds nothing; the first is the search result |
| Scanners.FindAllResumes | enrich_linkedin.py:161-165 | each later match is what the search finds when it resumes at the end of the match before, and resuming after the last one finds nothing |
| Scanners.ResumesAt | enrich_linkedin.py:161-165 | the resume property position by position: `Search` from the end of match k-1 gives match k, and from the end of the last gives none |
| ScannerExamples.TitleStopsAfterWord | enrich_linkedin.py:125 | the lazy title cannot stop inside a word and stops at the first place where ` at ` and a tail follow |
| ScannerExamples.TitleStopsAfterTwoWords | enrich_linkedin.py:125 | a title of two words, the second not beginning with `at`, is taken whole: the lazy title stops neither inside a word nor between them, but after the second word where ` at ` and a tail follow |
| ScannerExamples.PlainRoleMatches | enrich_linkedin.py:134 | `### T at C` with a one-word title and a plain company is matched with title T and company C |
| ScannerExamples.CurrentRoleMatches | enrich_linkedin.py:125 | `### T at C (Current)` is matched with title T and company group `C ` |
| ScannerExamples.TwoWordHeaderMatches | enrich_linkedin.py:124-136 | a header with a two-word title is matched at its start with that title and the tail after ` at ` |
| ScannerExamples.LinkedCurrentRoleMatches | enrich_linkedin.py:125 | `### T at [C](U) (Current)` with a two-word title is matched with title T and company C |
| ScannerExamples.SoftwareEngineerAtAcme | enrich_linkedin.py:125 | `### Software Engineer at [Acme Corp](url) (Current)` gives "Software Engineer" and "Acme Corp" |
| ScannerExamples.DatesMatch | enrich_linkedin.py:163 | `W1 Y1 - W2 Y2` is matched whole, as start and finish |
| ScannerExamples.OrgTailMatches | enrich_linkedin.py:162-163 | after "Blockchain at Berkeley" and a newline, the lazy gap skips the newline and the dates are found |
| ScannerExamples.OrgRoleMatches | enrich_linkedin.py:161-165 | a one-role organisation header with its dates yields exactly one match, with the title and both dates |
| ScannerExamples.HeaderMatchesAt | enrich_linkedin.py:124-163 | a one-word-title header laid out anywhere in the text, not only at its start, is matched there with its title and tail |
| ScannerExamples.OrgHeaderAt | enrich_linkedin.py:161-163 | an organisation header laid out at a position is matched there with its title and both dates |
| ScannerExamples.FindAllTwo | enrich_linkedin.py:161-165 | a match at the start ending at a newline and a match after it running to the end are exactly what `re.findall` returns |
| ScannerExamples.TwoOrgHeaders | enrich_linkedin.py:161-165 | two organisation headers on successive lines give exactly two matches, in text order, with their titles and dates |
| ScannerExamples.PresidentThenMember | enrich_linkedin.py:161-173 | "President" (Jan 2021 - Dec 2022) above "Member" (Sep 2019 - May 2021) gives both matches in that order |
| Profile.NonBlankStripped | enrich_linkedin.py:114 | the kept parts are non-empty and stripped, and there are no more of them than parts |
| Profile.NonBlankStrippedOne | enrich_linkedin.py:114 | a single part is kept, stripped, exactly when it is not blank |
| Profile.NonBlankStrippedConcat | enrich_linkedin.py:114 | the filter works part by part: the result for a concatenation is the concatenation of the results, so every non-blank part is kept, stripped, in order |
| Profile.NonBlankKeepsOut | enrich_linkedin.py:114 | a character missing from every input line is missing from every kept line (so no kept line holds a newline) |
| Profile.Lines | enrich_linkedin.py:114 | every line of the text is non-empty, stripped and free of newlines |
| Profile.LinesByPart | enrich_linkedin.py:114 | the lines of `a + "\n" + b` are the lines of `a` followed by those of `b`, and a text without newline gives its strip when that is not blank |
| Profile.LinesOfJoin | enrich_linkedin.py:114 | splitting tidy lines joined by newlines gives them back |
| Profile.Headline | enrich_linkedin.py:117 | the second line when there are two or more, "" otherwise |
| Profile.HeadlineIsSecondLine | enrich_linkedin.py:116-117 | on a page of tidy lines the headline is the second line |
| Profile.LeftmostMatch | enrich_linkedin.py:124-136 | a search from the start of the text finds the leftmost match and fails exactly when the pattern matches nowhere |
| Profile.CurrentRoleHit | enrich_linkedin.py:123-136 | a `(Current)` header anywhere wins, at its leftmost position; without one, the leftmost plain header of the text from the first "## Experience" on, none when that heading is missing or no header follows it |
| Profile.DropCurrentMarker | enrich_linkedin.py:141 | a final "(Current)" is removed with the whitespace before it; anything else is left alone |
| Profile.CleanCompany | enrich_linkedin.py:140-141 | the company is stripped; it is the stripped group when that does not end with the marker; otherwise it is a prefix of the stripped group followed only by whitespace and the marker |
| Profile.CurrentRoleOf | enrich_linkedin.py:138-141 | title and company are stripped and the title is one line; for the header `CurrentRoleHit` finds they are its stripped title and its cleaned company, and both are "" when no header is found, in particular for a text with neither "(Current)" nor "## Experience" |
| Profile.MentionsAudienceIgnoresCase | enrich_linkedin.py:146 | the "connections"/"followers" test ignores letter case, and either word in lower case always stops the scan |
| Profile.RegionCodeIgnoresTrailingSpace | enrich_linkedin.py:148 | the `\([A-Z]{2}\)\s*$` test is the same with or without trailing whitespace |
| Profile.DropRegionCode | enrich_linkedin.py:149 | the trailing `(XX)` code and the whitespace before it are cut off a prefix of the line |
| Profile.CityLikeExtends | enrich_linkedin.py:151 | `re.match` reads a "City, Region" line from its start: text added after such a line keeps it one |
| Profile.LocationRule | enrich_linkedin.py:146-153 | a line stops the scan exactly when it mentions connections or followers (location ""), ends with a region code (the line without it), or is a "City, Region" line without "at " and "##" (the stripped line) |
| Profile.LocationOf | enrich_linkedin.py:144-153 | the location is the value of the first line of the window `lines[2:6]` whose rule stops the scan, and "" when none does |
| Profile.LocationSource | enrich_linkedin.py:144-153 | a non-empty location comes from one of the 3rd to 6th lines, after no line mentioning connections or followers, by the region-code rule or the comma rule |
| Profile.Education | enrich_linkedin.py:155 | "UC Berkeley" exactly when the lower-cased text contains "berkeley", "" exactly when it does not |
| Profile.StrippedTitles | enrich_linkedin.py:168-170 | one stripped title per match, in order |
| Profile.OrgRoleOf | enrich_linkedin.py:166-171 | no matches give "", one match gives its stripped title |
| Profile.OrgRoleOfAppend | enrich_linkedin.py:168-171 | one more match adds " / " and its stripped title at the end of the role |
| Profile.OrgYearsOf | enrich_linkedin.py:173 | no matches give ""; otherwise the years are the start date of the last match, then " - ", then the end date of the first match, whatever their calendar order |
| Profile.ParseProfile | enrich_linkedin.py:105-183 | empty text gives all fields ""; headline and location come from the non-blank lines; the education iff; the current title and company are the stripped title and cleaned company of the header `CurrentRoleHit` finds, and "" when it finds none (so always "" without marker and experience heading); no organisation match gives no role or years; otherwise the role is the stripped titles joined by " / " and the years are the start of the last match, " - ", and the end of the first |
| ProfileExamples.CurrentRoleParsed | enrich_linkedin.py:124-141 | `### T at C (Current)` gives current title T and company C |
| ProfileExamples.OrgRoleParsed | enrich_linkedin.py:159-173 | a single organisation header gives its title as the role and `start - end` as the years |
| Batch.EmptyRow | enrich_linkedin.py:270-271 | the person's name and email, every other field "" |
| Batch.PendingRows | enrich_linkedin.py:38 | every kept row has a non-blank `fullname`, and every such row of the input is kept |
| Batch.PendingRowsByRow | enrich_linkedin.py:38 | the filter works row by row: a row is kept exactly when its name is not blank, and the result for a concatenation is the concatenation of the results, so order and repeats are kept |
| Batch.PendingRowsIdempotent | enrich_linkedin.py:38 | filtering the kept rows again changes nothing |
| Batch.SearchName | enrich_linkedin.py:202 | the searched name is the guessed full name, so the stripped name or that name extended with a surname |
| Batch.Query | enrich_linkedin.py:203 | the query is the searched name followed by " Berkeley" |
| Batch.EnrichRow | enrich_linkedin.py:307-329 | the output carries the stripped name and email; a raised search gives the empty row; when the search chooses a matching result with a URL the row holds that URL and the parse of that result's text; the row is empty exactly when it has no URL |
| Batch.MapBatch | enrich_linkedin.py:301-335 | the outputs are the function applied to the first min(10, n) rows, in order; those rows followed by the remainder are the input; the remainder has max(0, n - 10) rows |
| Batch.BatchLength | enrich_linkedin.py:301 | `rows[:10]` has min(10, n) rows |
| Batch.RunBatch | enrich_linkedin.py:301-336 | one output row per batch row, in order, each the enrichment of its row with its name and email; the batch followed by the remainder is the input; the remainder has max(0, n - 10) rows |
| Batch.InBatchesVisitsAll | enrich_linkedin.py:301-335 | processing batch after batch visits every element once, in order |
| Batch.AllRunsCoverEveryRow | enrich_linkedin.py:301-336 | when each run completes, every pending row is enriched exactly once over successive runs, in order |

## Left out

- A run that aborts: in the code the name and email are stripped outside the `try` (lines 308-310), so a short CSV row whose missing field reads as `None` raises there; the rows of the batch already appended to the output are then enriched again on the next run, because remaining.csv is rewritten only after the loop (line 336). The model reads a missing field as "" and has every run complete.
- File and console I/O: reading and writing the CSV files, the error log, `.env` loading, the API-key check and every `print`. `init_remaining` is modelled only by its filter.
- The network: the people search is a function parameter from query to results or an exception. The `num_results`, `category` and domain arguments are the search's business.
- The `get_contents` fallback (lines 224-235) is a network loop. The parsed text is the chosen result's own text. In the code a single exception ends that loop, because the `try` wraps the whole `for`.
- `search_bab_web` (lines 240-267): a network search that `main` never calls.
- `time.sleep` between rows (line 332), and the `found` and `errors` counters, which are only printed.
- Unicode: `isalpha`, `lower`, `capitalize`, `\w`, `\d` and case-insensitive matching are taken over ASCII letters and digits; whitespace is the set Python's `str.isspace` and `\s` accept.
- General regular expressions: only the patterns the script uses are modelled, each as its own scanner.
- NameMatches: its own contract states that a match has the first token in the title and that a blank name matches everything; the full condition, both ways, is stated by Names.UrlOnlyHoldsSurname.
- Calendar order of the organisation years: the code pairs the dates by position, so no order is claimed.
