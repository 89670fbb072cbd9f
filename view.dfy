/** The filter and sort step of the "apply filter" handler (app.js:207-213):
    the minimum average read from its input box, the students that reach it,
    and an in-place sort of a copy of them by average. */
module View {
  import opened Text
  import opened Numeric
  import opened Metrics

  /** The choices of the sort box that the model covers: "avg_desc",
      "avg_asc", and Unsorted for a value that asks for no sort at all. The
      sort by name ("name") is not part of this model. */
  datatype SortKey = AvgDesc | AvgAsc | Unsorted

  /** `Number(input) || 0`: the number the box holds, or 0 when it holds
      none. */
  function MinAverage(input: string): real {
    match ParseNumber(Trim(input))
    case Some(v) => v
    case None => 0.0
  }

  /** A number typed as plain digits, possibly padded with blanks, is the
      minimum it denotes. */
  lemma MinAverageOfNumeral(n: nat, pre: string, post: string)
    requires forall k :: 0 <= k < |pre| ==> IsSpace(pre[k])
    requires forall k :: 0 <= k < |post| ==> IsSpace(post[k])
    ensures MinAverage(pre + NatToString(n) + post) == n as real
  {
    var s := NatToString(n);
    assert IsTrimmed(s) by {
      assert IsDigit(s[0]) && IsDigit(s[|s| - 1]);
    }
    TrimPadding(pre, s, post);
    NatLiteralIsNumeric(n);
  }

  /** Any numeric text typed in the minimum box, with or without blanks
      around it, is the minimum it denotes. */
  lemma MinAverageOfNumber(pre: string, s: string, post: string)
    requires forall k :: 0 <= k < |pre| ==> IsSpace(pre[k])
    requires forall k :: 0 <= k < |post| ==> IsSpace(post[k])
    requires ParseNumber(s).Some?
    ensures MinAverage(pre + s + post) == ParseNumber(s).value
  {
    assert IsNumberChar(s[0]) && IsNumberChar(s[|s| - 1]);
    TrimPadding(pre, s, post);
  }

  /** Digits typed in the minimum box, leading zeros included, are the
      whole number they denote. */
  lemma MinAverageOfDigits(pre: string, d: string, post: string)
    requires forall k :: 0 <= k < |pre| ==> IsSpace(pre[k])
    requires forall k :: 0 <= k < |post| ==> IsSpace(post[k])
    requires |d| > 0 && AllDigits(d)
    ensures MinAverage(pre + d + post) == DigitsValue(d) as real
  {
    assert SignOf(d) == (false, d);
    DigitsUnsigned(d);
    MinAverageOfNumber(pre, d, post);
  }

  /** A decimal `w.f` typed in the minimum box is the value it denotes. */
  lemma MinAverageOfDecimal(pre: string, w: string, f: string, post: string)
    requires forall k :: 0 <= k < |pre| ==> IsSpace(pre[k])
    requires forall k :: 0 <= k < |post| ==> IsSpace(post[k])
    requires AllDigits(w) && AllDigits(f) && |w| + |f| > 0
    ensures MinAverage(pre + (w + "." + f) + post) == MantissaValue(w, f)
  {
    DecimalNumber(w, f);
    MinAverageOfNumber(pre, w + "." + f, post);
  }

  /** Trimming removes the blanks around a trimmed, non-empty string. */
  lemma {:induction false} TrimPadding(pre: string, s: string, post: string)
    requires forall k :: 0 <= k < |pre| ==> IsSpace(pre[k])
    requires forall k :: 0 <= k < |post| ==> IsSpace(post[k])
    requires s != [] && IsTrimmed(s)
    ensures Trim(pre + s + post) == s
    decreases |pre| + |post|
  {
    var t := pre + s + post;
    if pre != [] {
      assert t[0] == pre[0];
      assert t[1..] == pre[1..] + s + post;
      TrimPadding(pre[1..], s, post);
    } else if post != [] {
      assert t[0] == s[0];
      assert t[|t| - 1] == post[|post| - 1];
      assert t[..|t| - 1] == pre + s + post[..|post| - 1];
      TrimPadding(pre, s, post[..|post| - 1]);
    } else {
      assert t == s;
    }
  }

  /** Array.prototype.filter: the elements that pass, in their order. */
  function Filter<T>(xs: seq<T>, keep: T -> bool): (r: seq<T>)
    ensures forall k :: 0 <= k < |r| ==> keep(r[k])
  {
    if xs == [] then []
    else
      var rest := Filter(xs[1..], keep);
      if keep(xs[0]) then [xs[0]] + rest else rest
  }

  /** filter takes only elements of the input, and keeps each passing
      element as often as it occurs. */
  lemma {:induction false} FilterCounts<T>(xs: seq<T>, keep: T -> bool)
    ensures multiset(Filter(xs, keep)) <= multiset(xs)
    ensures forall x :: keep(x) ==> multiset(Filter(xs, keep))[x] == multiset(xs)[x]
  {
    if xs != [] {
      FilterCounts(xs[1..], keep);
      KeepFirst(xs);
    }
  }

  /** A single element is kept exactly when it passes. */
  lemma FilterOne<T>(x: T, keep: T -> bool)
    ensures Filter([x], keep) == if keep(x) then [x] else []
  {
    assert [x][1..] == [];
  }

  /** filter works element by element, in order: the result for xs + ys is
      the result for xs followed by the result for ys. */
  lemma {:induction false} FilterAppend<T>(xs: seq<T>, ys: seq<T>, keep: T -> bool)
    ensures Filter(xs + ys, keep) == Filter(xs, keep) + Filter(ys, keep)
  {
    if xs == [] {
      assert xs + ys == ys;
    } else {
      assert (xs + ys)[0] == xs[0] && (xs + ys)[1..] == xs[1..] + ys;
      FilterAppend(xs[1..], ys, keep);
    }
  }

  lemma KeepFirst<T>(s: seq<T>)
    requires s != []
    ensures multiset(s) == multiset{s[0]} + multiset(s[1..])
  {
    assert s == [s[0]] + s[1..];
  }

  /** The students whose stored average reaches minAvg, in their order. */
  function AtLeast(ss: seq<Student>, minAvg: real): seq<Student> {
    Filter(ss, (s: Student) => s.avg >= minAvg)
  }

  /** The value the sort orders by, ascending. */
  function Key(s: Student, key: SortKey): real {
    if key == AvgDesc then -s.avg else s.avg
  }

  predicate SortedBy<T>(xs: seq<T>, rank: T -> real) {
    forall p, q :: 0 <= p < q < |xs| ==> rank(xs[p]) <= rank(xs[q])
  }

  /** The first n elements are in rank order. */
  predicate SortedPrefix<T>(xs: seq<T>, n: nat, rank: T -> real)
    requires n <= |xs|
  {
    forall p, q :: 0 <= p < q < n ==> rank(xs[p]) <= rank(xs[q])
  }

  /** Array.prototype.sort with a comparator that subtracts ranks: an
      insertion sort, which orders the array by rank and keeps its
      elements. */
  method SortInPlace<T>(a: array<T>, rank: T -> real)
    modifies a
    ensures SortedBy(a[..], rank)
    ensures multiset(a[..]) == multiset(old(a[..]))
  {
    var i := 0;
    while i < a.Length
      invariant 0 <= i <= a.Length
      invariant SortedPrefix(a[..], i, rank)
      invariant multiset(a[..]) == multiset(old(a[..]))
    {
      Insert(a, i, rank);
      i := i + 1;
    }
  }

  /** While a[i] travels left to position j, the first i + 1 elements
      without position j are in order, the traveller ranks no higher than
      what lies to its right, and its two neighbours are in order. */
  predicate Travelling<T>(xs: seq<T>, i: nat, j: nat, rank: T -> real) {
    j <= i < |xs| &&
    (forall p, q :: 0 <= p < q <= i && p != j && q != j ==> rank(xs[p]) <= rank(xs[q])) &&
    (forall q :: j < q <= i ==> rank(xs[j]) <= rank(xs[q])) &&
    (0 < j < i ==> rank(xs[j - 1]) <= rank(xs[j + 1]))
  }

  lemma TravelStart<T>(xs: seq<T>, i: nat, rank: T -> real)
    requires i < |xs| && SortedPrefix(xs, i, rank)
    ensures Travelling(xs, i, i, rank)
  {
  }

  lemma TravelStep<T>(xs: seq<T>, i: nat, j: nat, rank: T -> real)
    requires Travelling(xs, i, j, rank) && j > 0 && rank(xs[j - 1]) > rank(xs[j])
    ensures Travelling(xs[j - 1 := xs[j]][j := xs[j - 1]], i, j - 1, rank)
  {
  }

  lemma TravelEnd<T>(xs: seq<T>, i: nat, j: nat, rank: T -> real)
    requires Travelling(xs, i, j, rank) && (j == 0 || rank(xs[j - 1]) <= rank(xs[j]))
    ensures SortedPrefix(xs, i + 1, rank)
  {
  }

  /** One insertion step: a[i] moves left by adjacent swaps past every
      element of higher rank, so the sorted prefix grows by one; the first
      i + 1 cells keep their elements and the cells after them are not
      touched. */
  method Insert<T>(a: array<T>, i: nat, rank: T -> real)
    requires i < a.Length && SortedPrefix(a[..], i, rank)
    modifies a
    ensures SortedPrefix(a[..], i + 1, rank)
    ensures multiset(a[..]) == multiset(old(a[..]))
    ensures a[i + 1..] == old(a[i + 1..])
    ensures multiset(a[..i + 1]) == multiset(old(a[..i + 1]))
  {
    TravelStart(a[..], i, rank);
    var j: nat := i;
    while j > 0 && rank(a[j - 1]) > rank(a[j])
      invariant Travelling(a[..], i, j, rank)
      invariant multiset(a[..]) == multiset(old(a[..]))
      invariant forall k :: i < k < a.Length ==> a[k] == old(a[k])
    {
      TravelStep(a[..], i, j, rank);
      Swap(a, j - 1);
      j := j - 1;
    }
    TravelEnd(a[..], i, j, rank);
    assert a[i + 1..] == old(a[i + 1..]);
    SplitKeeps(old(a[..]), a[..], i + 1);
  }

  /** Two sequences with the same elements and the same cells from n on
      have the same elements before n. */
  lemma SplitKeeps<T>(s: seq<T>, t: seq<T>, n: nat)
    requires n <= |s| == |t| && multiset(s) == multiset(t) && s[n..] == t[n..]
    ensures multiset(s[..n]) == multiset(t[..n])
  {
    assert s == s[..n] + s[n..] && t == t[..n] + t[n..];
    assert multiset(s) == multiset(s[..n]) + multiset(s[n..]);
    assert multiset(t) == multiset(t[..n]) + multiset(s[n..]);
    assert multiset(s[..n]) == multiset(s) - multiset(s[n..]);
  }

  /** Exchanges a[i] and a[i + 1]. */
  method Swap<T>(a: array<T>, i: nat)
    requires i + 1 < a.Length
    modifies a
    ensures a[..] == old(a[..])[i := old(a[i + 1])][i + 1 := old(a[i])]
    ensures forall k :: 0 <= k < a.Length && k != i && k != i + 1 ==> a[k] == old(a[k])
    ensures multiset(a[..]) == multiset(old(a[..]))
  {
    ghost var before := a[..];
    a[i], a[i + 1] := a[i + 1], a[i];
    assert a[..] == before[i := before[i + 1]][i + 1 := before[i]];
    SwapKeeps(before, i, i + 1);
  }

  /** Exchanging two elements keeps the multiset of elements. */
  lemma SwapKeeps<T>(s: seq<T>, i: nat, j: nat)
    requires i < |s| && j < |s|
    ensures multiset(s[i := s[j]][j := s[i]]) == multiset(s)
  {
  }

  /** The rank each order sorts by, ascending. */
  function RankOf(key: SortKey): Student -> real {
    (s: Student) => Key(s, key)
  }

  /** Sorted by the rank of AvgDesc is non-increasing averages; by the rank
      of AvgAsc, non-decreasing ones. */
  lemma SortedAverages(r: seq<Student>, key: SortKey)
    requires SortedBy(r, RankOf(key))
    ensures key == AvgDesc ==> forall p, q :: 0 <= p < q < |r| ==> r[p].avg >= r[q].avg
    ensures key == AvgAsc ==> forall p, q :: 0 <= p < q < |r| ==> r[p].avg <= r[q].avg
  {
    forall p, q | 0 <= p < q < |r| ensures Key(r[p], key) <= Key(r[q], key) {
      assert RankOf(key)(r[p]) <= RankOf(key)(r[q]);
    }
  }

  /** Elements with the same multiset as a filter's result all pass it. */
  lemma SameElementsPass<T>(r: seq<T>, xs: seq<T>, keep: T -> bool)
    requires multiset(r) == multiset(Filter(xs, keep))
    ensures forall k :: 0 <= k < |r| ==> keep(r[k])
  {
    var f := Filter(xs, keep);
    forall k | 0 <= k < |r| ensures keep(r[k]) {
      assert r[k] in multiset(f);
      var i :| 0 <= i < |f| && f[i] == r[k];
    }
  }

  /** The filter and sort step: the students reaching minAvg, as a fresh
      copy sorted by the chosen order (left in filter order when there is
      none); the list it starts from is not changed. */
  method FilterAndSort(students: seq<Student>, minAvg: real, key: SortKey) returns (r: seq<Student>)
    ensures forall k :: 0 <= k < |r| ==> r[k].avg >= minAvg
    ensures multiset(r) == multiset(AtLeast(students, minAvg))
    ensures key == Unsorted ==> r == AtLeast(students, minAvg)
    ensures key == AvgDesc ==> forall p, q :: 0 <= p < q < |r| ==> r[p].avg >= r[q].avg
    ensures key == AvgAsc ==> forall p, q :: 0 <= p < q < |r| ==> r[p].avg <= r[q].avg
  {
    var kept := AtLeast(students, minAvg);
    var a := new Student[|kept|](k requires 0 <= k < |kept| => kept[k]);
    assert a[..] == kept;
    if key != Unsorted {
      SortInPlace(a, RankOf(key));
      SortedAverages(a[..], key);
    }
    r := a[..];
    SameElementsPass(r, students, (s: Student) => s.avg >= minAvg);
  }
}
