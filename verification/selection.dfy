/**
 * Choosing one search result for a person (the pure part of `search_linkedin`):
 * keep the results whose title and URL match the name, prefer the first of
 * those whose text mentions "berkeley", otherwise take the first match.
 */
module Selection {
  import opened Wrappers
  import opened Seqs
  import opened Text
  import opened Names

  /** One search result; an absent title, URL or text reads as "". */
  datatype Candidate = Candidate(title: string, url: string, text: string)

  predicate IsMatch(name: string, c: Candidate) {
    NameMatches(name, c.title, c.url)
  }

  /** The result has a text, and that text mentions "berkeley" in any letter case. */
  predicate MentionsBerkeley(c: Candidate)
    ensures MentionsBerkeley(c) <==> Contains(Lower(c.text), "berkeley")
  {
    c.text != "" && Contains(Lower(c.text), "berkeley")
  }

  /**
   * The selection rule stated by position: `results[i]` passes `test`, and it
   * is the earliest passing result that also satisfies `prefer` when there is
   * one, the earliest passing result otherwise.
   */
  predicate ChosenAt(test: Candidate -> bool, prefer: Candidate -> bool, results: seq<Candidate>, i: int) {
    && 0 <= i < |results|
    && test(results[i])
    && if exists j :: 0 <= j < |results| && test(results[j]) && prefer(results[j]) then
         prefer(results[i])
         && forall j :: 0 <= j < i ==> !(test(results[j]) && prefer(results[j]))
       else
         forall j :: 0 <= j < i ==> !test(results[j])
  }

  /** Lines 214-220 with the name test and the preference as parameters. */
  function SelectBy(test: Candidate -> bool, prefer: Candidate -> bool, results: seq<Candidate>): (r: Option<Candidate>)
    ensures r.None? <==> forall i :: 0 <= i < |results| ==> !test(results[i])
    ensures r.Some? ==> test(r.value)
  {
    var matches := Filter(results, test);
    if matches == [] then None
    else
      var preferred := Filter(matches, prefer);
      if preferred != [] then Some(preferred[0]) else Some(matches[0])
  }

  /** The choice is the one the positional rule describes. */
  lemma SelectByChosen(test: Candidate -> bool, prefer: Candidate -> bool, results: seq<Candidate>)
    ensures SelectBy(test, prefer, results).Some? ==>
              exists i :: ChosenAt(test, prefer, results, i) && SelectBy(test, prefer, results).value == results[i]
  {
    var matches := Filter(results, test);
    if matches != [] {
      var both := c => test(c) && prefer(c);
      FilterTwice(results, test, prefer, both);
      var preferred := Filter(results, both);
      if preferred != [] {
        var i :| 0 <= i < |results| && preferred[0] == results[i] && both(results[i])
                 && forall j :: 0 <= j < i ==> !both(results[j]);
        FirstPreferredChosen(test, prefer, results, i);
      } else {
        var i :| 0 <= i < |results| && matches[0] == results[i] && test(results[i])
                 && forall j :: 0 <= j < i ==> !test(results[j]);
        FirstMatchChosen(test, prefer, results, i);
      }
    }
  }

  /** The earliest result passing both tests is the chosen one. */
  lemma FirstPreferredChosen(test: Candidate -> bool, prefer: Candidate -> bool, results: seq<Candidate>, i: int)
    requires 0 <= i < |results| && test(results[i]) && prefer(results[i])
    requires forall j :: 0 <= j < i ==> !(test(results[j]) && prefer(results[j]))
    ensures ChosenAt(test, prefer, results, i)
  {
  }

  /** With no preferred result, the earliest passing one is the chosen one. */
  lemma FirstMatchChosen(test: Candidate -> bool, prefer: Candidate -> bool, results: seq<Candidate>, i: int)
    requires 0 <= i < |results| && test(results[i])
    requires forall j :: 0 <= j < |results| ==> !(test(results[j]) && prefer(results[j]))
    requires forall j :: 0 <= j < i ==> !test(results[j])
    ensures ChosenAt(test, prefer, results, i)
  {
  }

  /** The result test of line 214: `name_matches(search_name, r.title, r.url)`. */
  function NameTest(name: string): Candidate -> bool {
    c => IsMatch(name, c)
  }

  /** The preference of line 219. */
  function Prefer(): Candidate -> bool {
    c => MentionsBerkeley(c)
  }

  /**
   * Lines 214-220: `None` exactly when no result matches the name; otherwise
   * the chosen result matches and is the one the positional rule picks.
   */
  function Select(name: string, results: seq<Candidate>): (r: Option<Candidate>)
    ensures r.None? <==> forall i :: 0 <= i < |results| ==> !IsMatch(name, results[i])
    ensures r.Some? ==> IsMatch(name, r.value)
    ensures r.Some? ==> exists i :: ChosenAt(NameTest(name), Prefer(), results, i) && r.value == results[i]
  {
    SelectByChosen(NameTest(name), Prefer(), results);
    SelectBy(NameTest(name), Prefer(), results)
  }

  /** At most one position satisfies the selection rule, so the rule pins the choice down. */
  lemma ChosenAtUnique(test: Candidate -> bool, prefer: Candidate -> bool, results: seq<Candidate>, i: int, j: int)
    requires ChosenAt(test, prefer, results, i) && ChosenAt(test, prefer, results, j)
    ensures i == j
  {
  }

  /** Results that fail the name test never influence the choice, wherever they stand in the list. */
  lemma SelectIgnoresNonMatches(test: Candidate -> bool, prefer: Candidate -> bool,
                                before: seq<Candidate>, extra: Candidate, after: seq<Candidate>)
    requires !test(extra)
    ensures SelectBy(test, prefer, before + [extra] + after) == SelectBy(test, prefer, before + after)
  {
    FilterSkips(before, extra, after, test);
  }
}
