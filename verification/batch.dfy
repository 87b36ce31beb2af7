/**
 * The batch bookkeeping of `main`: which rows are pending, the batch of the
 * first `BATCH_SIZE` of them, one output row per batch row whatever the
 * search does, and the rows left for the next run. The people search is a
 * parameter: a function from the query string to what the search returned.
 */
module Batch {
  import opened Wrappers
  import opened Seqs
  import opened Text
  import opened Names
  import opened Selection
  import opened Profile

  const BatchSize: nat := 10

  /** A row of the output table: the person, the profile URL and the parsed fields. */
  datatype OutputRow = OutputRow(fullname: string, email: string, linkedinUrl: string, profile: ProfileInfo)

  /** What the people search did for one query: raised an exception, or returned results. */
  datatype Response = Raised(message: string) | Results(results: seq<Candidate>)

  /** `empty_row`: the person's name and email, every other field "". */
  function EmptyRow(fullname: string, email: string): (r: OutputRow)
    ensures r.fullname == fullname && r.email == email
    ensures r.linkedinUrl == "" && r.profile == EmptyProfile
  {
    OutputRow(fullname, email, "", EmptyProfile)
  }

  /** `init_remaining`'s filter: the rows whose `fullname` is not blank, in order. */
  function PendingRows(rows: seq<Person>): (r: seq<Person>)
    ensures forall k :: 0 <= k < |r| ==> Strip(r[k].fullname) != ""
    ensures forall i :: 0 <= i < |rows| && Strip(rows[i].fullname) != "" ==> rows[i] in r
    ensures |r| <= |rows|
  {
    Filter(rows, NonBlankName)
  }

  predicate NonBlankName(p: Person) {
    Strip(p.fullname) != ""
  }

  /**
   * The filter row by row: a single row is kept exactly when its name is not
   * blank, and the rows of a concatenation are kept in order, each as often
   * as it occurs.
   */
  lemma PendingRowsByRow(a: seq<Person>, b: seq<Person>, p: Person)
    ensures PendingRows([p]) == if Strip(p.fullname) != "" then [p] else []
    ensures PendingRows(a + b) == PendingRows(a) + PendingRows(b)
  {
    assert [p][1..] == [];
    FilterConcat(a, b, NonBlankName);
  }

  /** Filtering the pending rows again changes nothing. */
  lemma PendingRowsIdempotent(rows: seq<Person>)
    ensures PendingRows(PendingRows(rows)) == PendingRows(rows)
  {
    FilterTwice(rows, NonBlankName, NonBlankName, NonBlankName);
  }

  /** The name searched for: the guessed full name when the stripped name is a single word (lines 202, 310). */
  function SearchName(row: Person): (r: string)
    ensures r == Strip(row.fullname) || ExtendsWithSurname(Strip(row.fullname), r)
    ensures r == GuessFullname(row)
  {
    var fullname := Strip(row.fullname);
    if ' ' !in fullname then GuessFullname(row) else fullname
  }

  /** Line 203: the query sent to the search. */
  function Query(row: Person): (r: string)
    ensures StartsWith(r, SearchName(row)) && EndsWith(r, " Berkeley")
    ensures |r| == |SearchName(row)| + |" Berkeley"|
  {
    var name := SearchName(row);
    ConcatEnds(name, " Berkeley");
    name + " Berkeley"
  }

  /**
   * One iteration of the loop in `main`: an exception from the search, no
   * matching result, or a match without URL gives the empty row; otherwise
   * the chosen result's URL and its parsed text.
   */
  function EnrichRow(row: Person, search: string -> Response): (r: OutputRow)
    ensures r.fullname == Strip(row.fullname) && r.email == Strip(row.email)
    ensures r.linkedinUrl == "" <==> r == EmptyRow(Strip(row.fullname), Strip(row.email))
    ensures search(Query(row)).Raised? ==> r == EmptyRow(Strip(row.fullname), Strip(row.email))
    ensures r.linkedinUrl != "" ==>
              && search(Query(row)).Results?
              && var best := Select(SearchName(row), search(Query(row)).results);
                 && best.Some? && IsMatch(SearchName(row), best.value)
                 && best.value.url == r.linkedinUrl && r.profile == ParseProfile(best.value.text)
    ensures search(Query(row)).Results? ==>
              var best := Select(SearchName(row), search(Query(row)).results);
              best.Some? && best.value.url != "" ==>
                r == OutputRow(Strip(row.fullname), Strip(row.email), best.value.url, ParseProfile(best.value.text))
  {
    var fullname := Strip(row.fullname);
    var email := Strip(row.email);
    match search(Query(row))
    case Raised(_) => EmptyRow(fullname, email)
    case Results(results) =>
      match Select(SearchName(row), results)
      case None => EmptyRow(fullname, email)
      case Some(best) =>
        if best.url == "" then EmptyRow(fullname, email)
        else OutputRow(fullname, email, best.url, ParseProfile(best.text))
  }

  /** `rows[:BATCH_SIZE]` has this many rows. */
  function BatchLength<T>(rows: seq<T>): (n: nat)
    ensures n <= |rows| && n <= BatchSize
    ensures n == BatchSize || n == |rows|
  {
    if |rows| < BatchSize then |rows| else BatchSize
  }

  /** The first `BatchSize` rows, `f` applied to each in order, and the rows after them. */
  method MapBatch<T, U>(rows: seq<T>, f: T -> U) returns (output: seq<U>, remaining: seq<T>)
    ensures |output| == BatchLength(rows)
    ensures forall i :: 0 <= i < |output| ==> output[i] == f(rows[i])
    ensures rows[..|output|] + remaining == rows
    ensures |remaining| == if |rows| > BatchSize then |rows| - BatchSize else 0
  {
    var n := BatchLength(rows);
    output := [];
    var i := 0;
    while i < n
      invariant 0 <= i <= n
      invariant |output| == i
      invariant forall k :: 0 <= k < i ==> output[k] == f(rows[k])
    {
      output := output + [f(rows[i])];
      i := i + 1;
    }
    remaining := rows[n..];
  }

  /**
   * One run of `main`: every row of the batch gives exactly one output row,
   * in order, carrying its stripped name and email; the rest is left for the
   * next run.
   */
  method RunBatch(rows: seq<Person>, search: string -> Response) returns (output: seq<OutputRow>, remaining: seq<Person>)
    ensures |output| == BatchLength(rows)
    ensures forall i :: 0 <= i < |output| ==> output[i] == EnrichRow(rows[i], search)
    ensures forall i :: 0 <= i < |output| ==>
              output[i].fullname == Strip(rows[i].fullname) && output[i].email == Strip(rows[i].email)
    ensures rows[..|output|] + remaining == rows
    ensures |remaining| == if |rows| > BatchSize then |rows| - BatchSize else 0
  {
    var enrich := row => EnrichRow(row, search);
    output, remaining := MapBatch(rows, enrich);
    assert forall i :: 0 <= i < |output| ==> output[i] == EnrichRow(rows[i], search);
  }

  /** Processing `xs` batch after batch, `f` on each element, until nothing remains. */
  function InBatches<T, U>(xs: seq<T>, f: T -> U): seq<U>
    decreases |xs|
  {
    if xs == [] then []
    else
      var n := BatchLength(xs);
      seq(n, i requires 0 <= i < n => f(xs[i])) + InBatches(xs[n..], f)
  }

  /** Working in batches visits every element exactly once, in order. */
  lemma {:induction false} InBatchesVisitsAll<T, U>(xs: seq<T>, f: T -> U)
    ensures |InBatches(xs, f)| == |xs|
    ensures forall i :: 0 <= i < |xs| ==> InBatches(xs, f)[i] == f(xs[i])
    decreases |xs|
  {
    if xs != [] {
      var n := BatchLength(xs);
      var rest := xs[n..];
      InBatchesVisitsAll(rest, f);
      forall i | n <= i < |xs|
        ensures InBatches(xs, f)[i] == f(xs[i])
      {
        assert rest[i - n] == xs[i];
      }
    }
  }

  /** Re-running until nothing remains: the outputs of all runs, in order. */
  function AllRuns(rows: seq<Person>, search: string -> Response): seq<OutputRow> {
    InBatches(rows, row => EnrichRow(row, search))
  }

  /** Over successive runs every pending row is enriched exactly once, in order. */
  lemma AllRunsCoverEveryRow(rows: seq<Person>, search: string -> Response)
    ensures |AllRuns(rows, search)| == |rows|
    ensures forall i :: 0 <= i < |rows| ==> AllRuns(rows, search)[i] == EnrichRow(rows[i], search)
  {
    InBatchesVisitsAll(rows, row => EnrichRow(row, search));
  }
}
