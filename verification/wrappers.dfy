/** Optional values, standing in for Python's `None`. */
module Wrappers {

  datatype Option<+T> = None | Some(value: T)

}

/** Order-preserving filtering of sequences, and first- and last-success search over positions. */
module Seqs {
  import opened Wrappers

  /** The elements of `s` that satisfy `keep`, in their original order. */
  function Filter<T>(s: seq<T>, keep: T -> bool): (r: seq<T>)
    ensures |r| <= |s|
    ensures forall k :: 0 <= k < |r| ==> keep(r[k])
    ensures forall i :: 0 <= i < |s| && keep(s[i]) ==> s[i] in r
    ensures r == [] <==> forall i :: 0 <= i < |s| ==> !keep(s[i])
    ensures r != [] ==> exists i :: 0 <= i < |s| && r[0] == s[i] && keep(s[i])
                                    && forall j :: 0 <= j < i ==> !keep(s[j])
    decreases |s|
  {
    if s == [] then []
    else if keep(s[0]) then [s[0]] + Filter(s[1..], keep)
    else
      var rest := Filter(s[1..], keep);
      assert forall i :: 1 <= i < |s| ==> s[i] == s[1..][i - 1];
      rest
  }

  /** A sequence is its two halves around any cut. */
  lemma Halves<T>(s: seq<T>, a: nat)
    requires a <= |s|
    ensures s == s[..a] + s[a..]
  {
  }

  /** A non-empty sequence is its front followed by its last element. */
  lemma FrontLast<T>(s: seq<T>)
    requires s != []
    ensures s == s[..|s| - 1] + [s[|s| - 1]]
  {
  }

  /** The first element of a non-empty front can be moved out of a concatenation. */
  lemma ConsConcat<T>(w: seq<T>, s: seq<T>)
    requires w != []
    ensures w + s == [w[0]] + (w[1..] + s)
  {
  }

  /** The last element of a non-empty back can be moved out of a concatenation. */
  lemma SnocConcat<T>(s: seq<T>, w: seq<T>)
    requires w != []
    ensures s + w == (s + w[..|w| - 1]) + [w[|w| - 1]]
  {
  }

  /** Filtering twice keeps exactly the elements that pass both tests. */
  lemma {:induction false} FilterTwice<T>(s: seq<T>, p: T -> bool, q: T -> bool, both: T -> bool)
    requires forall x :: both(x) == (p(x) && q(x))
    ensures Filter(Filter(s, p), q) == Filter(s, both)
    decreases |s|
  {
    if s != [] {
      FilterTwice(s[1..], p, q, both);
    }
  }

  /** Filtering a concatenation filters each part, in order. */
  lemma {:induction false} FilterConcat<T>(a: seq<T>, b: seq<T>, keep: T -> bool)
    ensures Filter(a + b, keep) == Filter(a, keep) + Filter(b, keep)
    decreases |a|
  {
    if a == [] {
      assert a + b == b;
    } else {
      var head: seq<T> := if keep(a[0]) then [a[0]] else [];
      var tail, rest := Filter(a[1..], keep), Filter(b, keep);
      calc {
        Filter(a + b, keep);
        { assert (a + b)[1..] == a[1..] + b; FilterHead(a + b, keep); }
        head + Filter(a[1..] + b, keep);
        { FilterConcat(a[1..], b, keep); }
        head + (tail + rest);
        (head + tail) + rest;
        { FilterHead(a, keep); }
        Filter(a, keep) + rest;
      }
    }
  }

  /** An element that fails the test leaves the filtered sequence unchanged, wherever it stands. */
  lemma {:induction false} FilterSkips<T>(before: seq<T>, x: T, after: seq<T>, keep: T -> bool)
    requires !keep(x)
    ensures Filter(before + [x] + after, keep) == Filter(before + after, keep)
    decreases |before|
  {
    var withX := before + [x] + after;
    var withoutX := before + after;
    if before == [] {
      assert withX[1..] == withoutX;
    } else {
      FilterSkips(before[1..], x, after, keep);
      assert withX[1..] == before[1..] + [x] + after;
      assert withoutX[1..] == before[1..] + after;
      FilterSameHead(withX, withoutX, keep);
    }
  }

  /** Filtering looks at the head, then filters the tail. */
  lemma FilterHead<T>(s: seq<T>, keep: T -> bool)
    requires s != []
    ensures Filter(s, keep) == (if keep(s[0]) then [s[0]] else []) + Filter(s[1..], keep)
  {
  }

  /** Sequences with the same head whose tails filter alike filter alike. */
  lemma FilterSameHead<T>(a: seq<T>, b: seq<T>, keep: T -> bool)
    requires a != [] && b != [] && a[0] == b[0] && Filter(a[1..], keep) == Filter(b[1..], keep)
    ensures Filter(a, keep) == Filter(b, keep)
  {
  }

  /**
   * The first position `k` in `i..n` at which `attempt` succeeds, and what it
   * gives there: a regex search (the pattern tried at each start in turn),
   * a lazy regex gap (the rest of the pattern tried after each gap length in
   * turn) and a `for` loop that stops at the first decisive item work this way.
   */
  function FirstSome<T>(attempt: nat -> Option<T>, i: nat, n: nat): (r: Option<T>)
    decreases n - i
  {
    if i > n then None
    else if attempt(i).Some? then attempt(i)
    else FirstSome(attempt, i + 1, n)
  }

  /** `FirstSome` fails exactly when every attempt fails, and otherwise answers with the earliest success. */
  lemma {:induction false} FirstSomeIsFirst<T>(attempt: nat -> Option<T>, i: nat, n: nat)
    ensures FirstSome(attempt, i, n).None? <==> forall k :: i <= k <= n ==> attempt(k).None?
    ensures FirstSome(attempt, i, n).Some? ==>
              exists k :: i <= k <= n && attempt(k) == FirstSome(attempt, i, n)
                          && forall m :: i <= m < k ==> attempt(m).None?
    decreases n - i
  {
    if i <= n && attempt(i).None? {
      FirstSomeIsFirst(attempt, i + 1, n);
      if FirstSome(attempt, i, n).Some? {
        var k :| i + 1 <= k <= n && attempt(k) == FirstSome(attempt, i + 1, n)
                 && forall m :: i + 1 <= m < k ==> attempt(m).None?;
        assert forall m :: i <= m < k ==> attempt(m).None?;
      }
    }
  }

  /**
   * The last position `k` in `i..n` at which `attempt` succeeds, trying `n`
   * first and then one less each time: a greedy regex run that gives back
   * one character after each failure of the rest of the pattern.
   */
  function LastSome<T>(attempt: nat -> Option<T>, i: nat, n: nat): (r: Option<T>)
    decreases n
  {
    if n < i then None
    else if attempt(n).Some? then attempt(n)
    else if n == i then None
    else LastSome(attempt, i, n - 1)
  }

  /** `LastSome` fails exactly when every attempt fails, and otherwise answers with the latest success. */
  lemma {:induction false} LastSomeIsLast<T>(attempt: nat -> Option<T>, i: nat, n: nat)
    ensures LastSome(attempt, i, n).None? <==> forall k :: i <= k <= n ==> attempt(k).None?
    ensures LastSome(attempt, i, n).Some? ==>
              exists k :: i <= k <= n && attempt(k) == LastSome(attempt, i, n)
                          && forall m :: k < m <= n ==> attempt(m).None?
    decreases n
  {
    if i < n && attempt(n).None? {
      LastSomeIsLast(attempt, i, n - 1);
      if LastSome(attempt, i, n).Some? {
        var k :| i <= k <= n - 1 && attempt(k) == LastSome(attempt, i, n - 1)
                 && forall m :: k < m <= n - 1 ==> attempt(m).None?;
        assert forall m :: k < m <= n ==> attempt(m).None?;
      }
    }
  }

  /**
   * When the attempt on the first element fails, the earliest success on the
   * rest of the sequence is the earliest success on the whole of it.
   */
  lemma SkipFailedHead<T, U>(xs: seq<T>, f: T -> Option<U>, r: Option<U>)
    requires xs != [] && f(xs[0]).None?
    requires r.None? <==> forall k :: 0 <= k < |xs| - 1 ==> f(xs[1..][k]).None?
    requires r.Some? ==> exists k :: 0 <= k < |xs| - 1 && f(xs[1..][k]) == r
                                     && forall j :: 0 <= j < k ==> f(xs[1..][j]).None?
    ensures r.None? <==> forall k :: 0 <= k < |xs| ==> f(xs[k]).None?
    ensures r.Some? ==> exists k :: 0 <= k < |xs| && f(xs[k]) == r
                                    && forall j :: 0 <= j < k ==> f(xs[j]).None?
  {
    var rest := xs[1..];
    if r.Some? {
      var k :| 0 <= k < |rest| && f(rest[k]) == r && forall j :: 0 <= j < k ==> f(rest[j]).None?;
      assert xs[k + 1] == rest[k];
      forall j | 0 <= j < k + 1
        ensures f(xs[j]).None?
      {
        if j > 0 {
          assert xs[j] == rest[j - 1];
        }
      }
    } else {
      forall k | 0 <= k < |xs|
        ensures f(xs[k]).None?
      {
        if k > 0 {
          assert xs[k] == rest[k - 1];
        }
      }
    }
  }

  /** Attempts that all fail may be skipped. */
  lemma {:induction false} FirstSomeSkips<T>(attempt: nat -> Option<T>, i: nat, j: nat, n: nat)
    requires i <= j
    requires forall k :: i <= k < j ==> attempt(k).None?
    ensures FirstSome(attempt, i, n) == FirstSome(attempt, j, n)
    decreases j - i
  {
    if i < j {
      FirstSomeSkips(attempt, i + 1, j, n);
    }
  }
}
