/**
 * The student's exam results as the API returns them, and the newest-first in-place
 * sort that the dashboard and the results page both apply. Date parsing is a
 * parameter that yields a timestamp, or `None` where `new Date(...)` is invalid.
 */
module ResultOrder {
  import opened Wrappers

  /** One row of `/students/me/results`; every field but `examId` is optional. */
  datatype StudentResult = StudentResult(examId: string, examName: Option<string>, score: Option<int>,
                                         maxScore: Option<int>, submissionTime: Option<string>,
                                         submittedAt: Option<string>, attemptKey: Option<string>)

  /**
   * `x` sorts no later than `y`: a later timestamp first, and an invalid date after
   * every valid one.
   */
  predicate AtLeast(x: Option<int>, y: Option<int>)
  {
    y.None? || (x.Some? && x.value >= y.value)
  }

  /** Every result is at least as recent as every result after it. */
  ghost predicate NewestFirst(s: seq<StudentResult>, key: StudentResult -> Option<int>)
  {
    forall i, j :: 0 <= i < j < |s| ==> AtLeast(key(s[i]), key(s[j]))
  }

  /**
   * `results.sort(...)` newest first, as a stable insertion sort: the array ends up a
   * permutation of what it held, ordered by `key`.
   */
  method SortNewestFirst(a: array<StudentResult>, key: StudentResult -> Option<int>)
    modifies a
    ensures NewestFirst(a[..], key)
    ensures multiset(a[..]) == multiset(old(a[..]))
  {
    if a.Length == 0 {
      return;
    }
    var i := 1;
    while i < a.Length
      invariant 1 <= i <= a.Length
      invariant NewestFirst(a[..i], key)
      invariant multiset(a[..]) == multiset(old(a[..]))
    {
      InsertAt(a, i, key);
      i := i + 1;
    }
    assert a[..a.Length] == a[..];
  }

  /** Moves `a[i]` left past every strictly older result, so that `a[..i+1]` is ordered. */
  method InsertAt(a: array<StudentResult>, i: int, key: StudentResult -> Option<int>)
    requires 0 < i < a.Length
    requires NewestFirst(a[..i], key)
    modifies a
    ensures NewestFirst(a[..i + 1], key)
    ensures multiset(a[..]) == multiset(old(a[..]))
    ensures a[i + 1..] == old(a[i + 1..])
  {
    var j := i;
    while j > 0 && !AtLeast(key(a[j - 1]), key(a[j]))
      invariant 0 <= j <= i
      invariant multiset(a[..]) == multiset(old(a[..]))
      invariant a[i + 1..] == old(a[i + 1..])
      invariant forall p, q :: 0 <= p < q <= i && p != j && q != j ==> AtLeast(key(a[p]), key(a[q]))
      invariant forall q :: j < q <= i ==> !AtLeast(key(a[q]), key(a[j]))
      invariant 0 < j < i ==> AtLeast(key(a[j - 1]), key(a[j + 1]))
    {
      Swap(a, j);
      j := j - 1;
    }
  }

  /** Exchanges `a[j - 1]` and `a[j]`. */
  method Swap(a: array<StudentResult>, j: int)
    requires 0 < j < a.Length
    modifies a
    ensures a[j - 1] == old(a[j]) && a[j] == old(a[j - 1])
    ensures forall k :: 0 <= k < a.Length && k != j - 1 && k != j ==> a[k] == old(a[k])
    ensures multiset(a[..]) == multiset(old(a[..]))
  {
    a[j - 1], a[j] := a[j], a[j - 1];
  }

  /** The first of an ordered list is the most recent of all. */
  lemma FirstIsNewest(s: seq<StudentResult>, key: StudentResult -> Option<int>)
    requires |s| >= 1 && NewestFirst(s, key)
    ensures forall r :: r in s ==> AtLeast(key(s[0]), key(r))
  {
    forall r | r in s ensures AtLeast(key(s[0]), key(r)) {
      var j :| 0 <= j < |s| && s[j] == r;
      if j > 0 {
        assert AtLeast(key(s[0]), key(s[j]));
      }
    }
  }

  /**
   * A list field of an API response after `data.field || []`: empty when the request
   * failed (the error is caught) or the field is absent.
   */
  function Listed<T>(fetched: Result<Option<seq<T>>, string>): (items: seq<T>)
    ensures fetched.Failure? || fetched.value.None? ==> items == []
    ensures fetched.Success? && fetched.value.Some? ==> items == fetched.value.value
  {
    if fetched.Success? && fetched.value.Some? then fetched.value.value else []
  }

  /**
   * Copies a list into a fresh array, sorts it newest first, and hands back the
   * sorted list: a permutation of the input in `key` order.
   */
  method SortedNewestFirst(items: seq<StudentResult>, key: StudentResult -> Option<int>)
    returns (sorted: seq<StudentResult>)
    ensures multiset(sorted) == multiset(items)
    ensures NewestFirst(sorted, key)
  {
    var a := new StudentResult[|items|](i requires 0 <= i < |items| => items[i]);
    assert a[..] == items;
    SortNewestFirst(a, key);
    sorted := a[..];
  }
}
