/** The metrics engine of app.js: one student record per data row (name,
    marks aligned to the subject columns, total, average, letter grade,
    pass/fail status) and the class aggregates (class average, highest and
    lowest average, grade histogram). */
module Metrics {
  import opened Numeric

  datatype Grade = A | B | C | D | F
  datatype Status = Pass | Fail

  /** A subject mark: a numeric cell, or Absent where the source holds NaN
      (a missing or non-numeric cell). */
  datatype Mark = Absent | Present(value: real)

  datatype Student = Student(
    name: string,
    marks: seq<Mark>,
    total: real,
    avg: real,
    grade: Grade,
    status: Status)

  datatype ClassMetrics = ClassMetrics(
    students: seq<Student>,
    subjectNames: seq<string>,
    classAvg: real,
    highestAvg: real,
    lowestAvg: real,
    gradeDist: map<Grade, nat>)

  // ---- Grades ----

  /** The order of the letters, F lowest. */
  function Rank(g: Grade): nat {
    match g
    case F => 0
    case D => 1
    case C => 2
    case B => 3
    case A => 4
  }

  /** The average reaches the band of letter g (every average reaches F). */
  predicate Meets(g: Grade, avg: real) {
    match g
    case A => avg >= 85.0
    case B => avg >= 70.0
    case C => avg >= 50.0
    case D => avg >= 35.0
    case F => true
  }

  /** assignGrade: the best letter whose band the average reaches. */
  function AssignGrade(avg: real): (g: Grade)
    ensures Meets(g, avg)
    ensures forall h :: Meets(h, avg) ==> Rank(h) <= Rank(g)
  {
    if avg >= 85.0 then A
    else if avg >= 70.0 then B
    else if avg >= 50.0 then C
    else if avg >= 35.0 then D
    else F
  }

  /** A larger average never gets a worse letter. */
  lemma GradeMonotone(x: real, y: real)
    requires x <= y
    ensures Rank(AssignGrade(x)) <= Rank(AssignGrade(y))
  {
    assert Meets(AssignGrade(x), y);
  }

  /** Every band starts at a whole number of hundredths, so rounding the
      average to hundredths never lowers its letter: a stored average may
      show a better letter than the one recorded, never a worse one. */
  lemma RoundingNeverLowersGrade(x: real)
    ensures Rank(AssignGrade(x)) <= Rank(AssignGrade(Round2(x)))
  {
    var g := AssignGrade(x);
    var t := match g case A => 85.0 case B => 70.0 case C => 50.0 case D => 35.0 case F => 0.0;
    if g != F {
      assert IsHundredths(t) by {
        assert t * 100.0 == (t * 100.0).Floor as real;
      }
      Round2Fixed(t);
      Round2Monotone(t, x);
      assert Meets(g, Round2(x));
    }
  }

  /** The recorded grade comes from the unrounded average: a single mark of
      84.996 is stored as an average of 85 yet graded B, while 85 itself is
      an A. */
  lemma GradeFromUnroundedAverage()
    ensures RawAverage([Present(84.996)]) == 84.996
    ensures Round2(84.996) == 85.0
    ensures AssignGrade(84.996) == B && AssignGrade(Round2(84.996)) == A
  {
    OneMark(84.996);
    RoundsUpTo85();
  }

  /** A single present mark is its own average. */
  lemma OneMark(v: real)
    ensures RawAverage([Present(v)]) == v
  {
    var ms := [Present(v)];
    assert ms[..0] == [];
    assert PresentValues(ms) == [] + [v];
    assert [v][..0] == [];
    assert Sum([v]) == 0.0 + v;
  }

  lemma RoundsUpTo85()
    ensures Round2(84.996) == 85.0
  {
    assert 84.996 * 100.0 + 0.5 == 8500.1;
    assert (8500.1).Floor == 8500;
  }

  // ---- Marks ----

  /** The mark of subject j (counted from 0) in row r: the cell after the
      name column, when the row has it and it is numeric. */
  function CellMark(r: seq<string>, j: nat): Mark {
    if j + 1 < |r| && IsNumeric(r[j + 1]) then Present(ParseNumber(r[j + 1]).value)
    else Absent
  }

  /** The marks of row r for n subjects. */
  function MarksOf(r: seq<string>, n: nat): seq<Mark> {
    seq(n, j requires 0 <= j < n => CellMark(r, j))
  }

  /** One mark per subject; a cell missing past the end of the row is
      absent, and cells beyond the last subject are ignored. */
  lemma MarksShape(r: seq<string>, n: nat, extra: seq<string>)
    ensures |MarksOf(r, n)| == n
    ensures forall j :: 0 <= j < n && |r| <= j + 1 ==> MarksOf(r, n)[j] == Absent
    ensures |r| > n ==> MarksOf(r + extra, n) == MarksOf(r, n)
  {
    if |r| > n {
      forall j | 0 <= j < n ensures CellMark(r + extra, j) == CellMark(r, j) {
        assert (r + extra)[j + 1] == r[j + 1];
      }
    }
  }

  /** The values of the present marks, in order. */
  function PresentValues(ms: seq<Mark>): (vs: seq<real>)
    ensures |vs| <= |ms|
  {
    if ms == [] then []
    else
      var last := ms[|ms| - 1];
      PresentValues(ms[..|ms| - 1]) + (if last.Present? then [last.value] else [])
  }

  /** The sum of reals, added left to right from 0. */
  function Sum(xs: seq<real>): real {
    if xs == [] then 0.0 else Sum(xs[..|xs| - 1]) + xs[|xs| - 1]
  }

  /** The average over the present marks, or 0 when there are none. */
  function RawAverage(ms: seq<Mark>): real {
    var vs := PresentValues(ms);
    if |vs| > 0 then Sum(vs) / (|vs| as real) else 0.0
  }

  /** Pass when every mark is present and at least 35. */
  function StatusOf(ms: seq<Mark>): Status {
    if forall j :: 0 <= j < |ms| ==> ms[j].Present? && ms[j].value >= 35.0 then Pass else Fail
  }

  /** An absent mark, wherever it stands, adds nothing to the values
      summed, and so changes neither the total nor the average. */
  lemma {:induction false} AbsentIgnored(a: seq<Mark>, b: seq<Mark>)
    ensures PresentValues(a + [Absent] + b) == PresentValues(a + b)
    ensures Sum(PresentValues(a + [Absent] + b)) == Sum(PresentValues(a + b))
    ensures RawAverage(a + [Absent] + b) == RawAverage(a + b)
  {
    var s, t := a + [Absent] + b, a + b;
    if b == [] {
      assert s[..|s| - 1] == a && t == a;
    } else {
      var init := b[..|b| - 1];
      assert s[..|s| - 1] == a + [Absent] + init && s[|s| - 1] == b[|b| - 1];
      assert t[..|t| - 1] == a + init && t[|t| - 1] == b[|b| - 1];
      AbsentIgnored(a, init);
    }
  }

  /** A present 0 lowers a positive average; an absent mark leaves it as
      it is. */
  lemma AbsentIsNotZero(ms: seq<Mark>)
    requires RawAverage(ms) > 0.0
    ensures RawAverage(ms + [Present(0.0)]) < RawAverage(ms) == RawAverage(ms + [Absent])
  {
    AbsentIgnored(ms, []);
    assert ms + [Absent] + [] == ms + [Absent] && ms + [] == ms;
    ZeroAppended(ms);
    var vs := PresentValues(ms);
    SumPositive(Sum(vs), |vs| as real, RawAverage(ms));
  }

  /** A present zero adds one value and nothing to the sum. */
  lemma ZeroAppended(ms: seq<Mark>)
    ensures PresentValues(ms + [Present(0.0)]) == PresentValues(ms) + [0.0]
    ensures Sum(PresentValues(ms) + [0.0]) == Sum(PresentValues(ms))
  {
    assert (ms + [Present(0.0)])[..|ms|] == ms;
    var vs := PresentValues(ms);
    assert (vs + [0.0])[..|vs|] == vs;
  }

  /** A positive average of n > 0 values drops when one more value, zero,
      joins them. */
  lemma SumPositive(total: real, n: real, avg: real)
    requires n > 0.0 && avg == total / n && avg > 0.0
    ensures total / (n + 1.0) < total / n
  {
    assert total == avg * n;
    assert total / (n + 1.0) * (n + 1.0) == total;
  }

  /** Every present mark counts once: with no absent mark there are as many
      values as marks. */
  lemma {:induction false} AllPresentValues(ms: seq<Mark>)
    requires forall j :: 0 <= j < |ms| ==> ms[j].Present?
    ensures |PresentValues(ms)| == |ms|
  {
    if ms != [] {
      AllPresentValues(ms[..|ms| - 1]);
    }
  }

  /** A lower bound on the present marks bounds every value summed. */
  lemma {:induction false} PresentValuesAtLeast(ms: seq<Mark>, lo: real)
    requires forall j :: 0 <= j < |ms| && ms[j].Present? ==> ms[j].value >= lo
    ensures forall k :: 0 <= k < |PresentValues(ms)| ==> PresentValues(ms)[k] >= lo
  {
    if ms != [] {
      PresentValuesAtLeast(ms[..|ms| - 1], lo);
    }
  }

  /** An upper bound on the present marks bounds every value summed. */
  lemma {:induction false} PresentValuesAtMost(ms: seq<Mark>, hi: real)
    requires forall j :: 0 <= j < |ms| && ms[j].Present? ==> ms[j].value <= hi
    ensures forall k :: 0 <= k < |PresentValues(ms)| ==> PresentValues(ms)[k] <= hi
  {
    if ms != [] {
      PresentValuesAtMost(ms[..|ms| - 1], hi);
    }
  }

  /** Values between lo and hi sum to between n * lo and n * hi. */
  lemma {:induction false} SumBounds(xs: seq<real>, lo: real, hi: real)
    requires forall k :: 0 <= k < |xs| ==> lo <= xs[k] <= hi
    ensures (|xs| as real) * lo <= Sum(xs) <= (|xs| as real) * hi
  {
    if xs != [] {
      var init := xs[..|xs| - 1];
      SumBounds(init, lo, hi);
      assert (|xs| as real) * lo == (|init| as real) * lo + lo;
      assert (|xs| as real) * hi == (|init| as real) * hi + hi;
    }
  }

  /** The mean of values between lo and hi lies between lo and hi. */
  lemma MeanBounds(xs: seq<real>, lo: real, hi: real)
    requires |xs| > 0
    requires forall k :: 0 <= k < |xs| ==> lo <= xs[k] <= hi
    ensures lo <= Sum(xs) / (|xs| as real) <= hi
  {
    SumBounds(xs, lo, hi);
    QuotientBounds(Sum(xs), |xs| as real, lo, hi);
  }

  /** Dividing by a positive n keeps n * lo <= s <= n * hi as lo <= s / n <= hi. */
  lemma QuotientBounds(s: real, n: real, lo: real, hi: real)
    requires n > 0.0 && n * lo <= s <= n * hi
    ensures lo <= s / n <= hi
  {
    var m := s / n;
    assert m * n == s;
    assert (m - lo) * n == s - n * lo;
    assert (hi - m) * n == n * hi - s;
    NonNegativeFactor(m - lo, n);
    NonNegativeFactor(hi - m, n);
  }

  lemma NonNegativeFactor(a: real, n: real)
    requires n > 0.0 && a * n >= 0.0
    ensures a >= 0.0
  {
  }

  /** The average of the present marks lies between any bounds on them. */
  lemma AverageWithinMarks(ms: seq<Mark>, lo: real, hi: real)
    requires exists j :: 0 <= j < |ms| && ms[j].Present?
    requires forall j :: 0 <= j < |ms| && ms[j].Present? ==> lo <= ms[j].value <= hi
    ensures lo <= RawAverage(ms) <= hi
  {
    var j :| 0 <= j < |ms| && ms[j].Present?;
    SomePresentValue(ms, j);
    PresentValuesAtLeast(ms, lo);
    PresentValuesAtMost(ms, hi);
    MeanBounds(PresentValues(ms), lo, hi);
  }

  /** A present mark yields at least one value. */
  lemma {:induction false} SomePresentValue(ms: seq<Mark>, j: nat)
    requires j < |ms| && ms[j].Present?
    ensures |PresentValues(ms)| > 0
  {
    if j < |ms| - 1 {
      SomePresentValue(ms[..|ms| - 1], j);
    }
  }

  /** The status read off the values summed: Pass exactly when no mark is
      absent and every present mark is at least 35. */
  lemma {:induction false} StatusByValues(ms: seq<Mark>)
    ensures StatusOf(ms) == Pass <==>
      (|PresentValues(ms)| == |ms| && forall k :: 0 <= k < |ms| ==> PresentValues(ms)[k] >= 35.0)
  {
    if StatusOf(ms) == Pass {
      AllPresentValues(ms);
      PresentValuesAtLeast(ms, 35.0);
    } else {
      var j :| 0 <= j < |ms| && !(ms[j].Present? && ms[j].value >= 35.0);
      if |PresentValues(ms)| == |ms| {
        PresentAt(ms, j);
      }
    }
  }

  /** When every mark yields a value, value k is mark k. */
  lemma {:induction false} PresentAt(ms: seq<Mark>, j: nat)
    requires j < |ms| && |PresentValues(ms)| == |ms|
    ensures ms[j].Present? && PresentValues(ms)[j] == ms[j].value
  {
    var init := ms[..|ms| - 1];
    assert |PresentValues(init)| <= |init|;
    if j < |ms| - 1 {
      PresentAt(init, j);
    }
  }

  // ---- Students ----

  /** The name cell, or "Student k" for the k-th row (counted from 1) when
      the cell is empty or missing. */
  function NameOf(r: seq<string>, idx: nat): string {
    if |r| > 0 && r[0] != "" then r[0] else "Student " + NatToString(idx + 1)
  }

  /** The default name is "Student " followed by the row's number. */
  lemma DefaultName(r: seq<string>, idx: nat)
    requires |r| == 0 || r[0] == ""
    ensures |NameOf(r, idx)| > 8 && NameOf(r, idx)[..8] == "Student "
    ensures AllDigits(NameOf(r, idx)[8..]) && DigitsValue(NameOf(r, idx)[8..]) == idx + 1
  {
    var s := NatToString(idx + 1);
    assert NameOf(r, idx)[8..] == s;
    NatToStringValue(idx + 1);
  }

  /** The record of row r (the idx-th data row, counted from 0) for n
      subjects. The grade comes from the unrounded average; the stored
      average is rounded to hundredths. */
  function StudentOf(r: seq<string>, idx: nat, n: nat): Student {
    var ms := MarksOf(r, n);
    Student(NameOf(r, idx), ms, Sum(PresentValues(ms)), Round2(RawAverage(ms)),
            AssignGrade(RawAverage(ms)), StatusOf(ms))
  }

  /** With no present mark the total and the average are 0. */
  lemma NoPresentMarks(r: seq<string>, idx: nat, n: nat)
    requires PresentValues(MarksOf(r, n)) == []
    ensures StudentOf(r, idx, n).total == 0.0 && StudentOf(r, idx, n).avg == 0.0
    ensures StudentOf(r, idx, n).grade == F
  {
  }

  /** A named row with one numeric cell and one non-numeric cell under two
      subject columns: the total and the average are the one mark, and the
      student fails for the absent one. */
  lemma OneMarkOneAbsent(r: seq<string>, idx: nat, v: real)
    requires |r| == 3 && r[0] != "" && ParseNumber(r[1]) == Some(v) && ParseNumber(r[2]) == None
    ensures StudentOf(r, idx, 2) == Student(r[0], [Present(v), Absent], v, Round2(v), AssignGrade(v), Fail)
  {
    var ms := MarksOf(r, 2);
    assert ms[0] == Present(v) && ms[1] == Absent;
    Pair(ms);
    PresentAndAbsent(v);
    var s := StudentOf(r, idx, 2);
    assert s.name == r[0];
    assert s.marks == [Present(v), Absent];
    assert s.total == v && s.avg == Round2(v) && s.grade == AssignGrade(v);
    assert s.status == Fail;
  }

  lemma Pair<T>(s: seq<T>)
    requires |s| == 2
    ensures s == [s[0], s[1]]
  {
  }

  lemma PresentAndAbsent(v: real)
    ensures PresentValues([Present(v), Absent]) == [v]
    ensures RawAverage([Present(v), Absent]) == v
  {
    var ms := [Present(v), Absent];
    var one := [Present(v)];
    assert ms[..1] == one && one[..0] == [];
    assert PresentValues(one) == [] + [v];
    assert PresentValues(ms) == PresentValues(one) + [];
    assert [v][..0] == [];
    assert Sum([v]) == 0.0 + v;
  }

  /** The row `Carol,70,` under two subject columns: the blank cell is an
      absent mark, so the total and the average are 70 over one mark, the
      grade is B and the status Fail. */
  lemma CarolExample()
    ensures StudentOf(["Carol", "70", ""], 2, 2) == Student("Carol", [Present(70.0), Absent], 70.0, 70.0, B, Fail)
  {
    SeventyIsNumeric();
    BlankIsNotNumeric();
    OneMarkOneAbsent(["Carol", "70", ""], 2, 70.0);
    assert IsHundredths(70.0) by {
      assert 70.0 * 100.0 == 7000.0;
    }
    Round2Fixed(70.0);
  }

  lemma SeventyIsNumeric()
    ensures ParseNumber("70") == Some(70.0)
  {
    assert NatToString(7) == "7";
    assert NatToString(70) == "70";
    NatLiteralIsNumeric(70);
  }

  lemma BlankIsNotNumeric()
    ensures ParseNumber("") == None
  {
  }

  /** With no subject column the student passes vacuously, with grade F. */
  lemma ZeroSubjects(r: seq<string>, idx: nat)
    ensures StudentOf(r, idx, 0).status == Pass && StudentOf(r, idx, 0).grade == F
    ensures StudentOf(r, idx, 0).total == 0.0 && StudentOf(r, idx, 0).avg == 0.0
  {
    assert MarksOf(r, 0) == [];
  }

  /** A passing student with at least one subject has every mark, an
      average of at least 35 and so a grade of D or better; the stored
      average stays within half a hundredth of the exact one. */
  lemma PassingStudent(r: seq<string>, idx: nat, n: nat)
    requires n > 0 && StudentOf(r, idx, n).status == Pass
    ensures forall j :: 0 <= j < n ==> StudentOf(r, idx, n).marks[j].Present?
    ensures RawAverage(MarksOf(r, n)) >= 35.0 && StudentOf(r, idx, n).avg >= 35.0
    ensures StudentOf(r, idx, n).grade != F
  {
    var ms := MarksOf(r, n);
    var s := StudentOf(r, idx, n);
    assert |ms| == n;
    assert s.marks == ms && s.status == StatusOf(ms);
    assert s.avg == Round2(RawAverage(ms)) && s.grade == AssignGrade(RawAverage(ms));
    PassingMarks(ms);
  }

  /** Passing marks: all present, with an exact and a rounded average of at
      least 35, and so a grade better than F. */
  lemma PassingMarks(ms: seq<Mark>)
    requires |ms| > 0 && StatusOf(ms) == Pass
    ensures forall j :: 0 <= j < |ms| ==> ms[j].Present?
    ensures RawAverage(ms) >= 35.0 && Round2(RawAverage(ms)) >= 35.0
    ensures AssignGrade(RawAverage(ms)) != F
  {
    assert ms[0].Present?;
    var hi := Bound(ms);
    BoundIsUpper(ms);
    AverageWithinMarks(ms, 35.0, hi);
    RoundingNeverLowersGrade(RawAverage(ms));
    assert Meets(D, RawAverage(ms));
    assert Rank(AssignGrade(Round2(RawAverage(ms)))) >= 1;
  }

  /** An upper bound on the present marks. */
  function Bound(ms: seq<Mark>): real {
    if ms == [] then 0.0
    else
      var b := Bound(ms[1..]);
      if ms[0].Present? && ms[0].value > b then ms[0].value else b
  }

  lemma {:induction false} BoundIsUpper(ms: seq<Mark>)
    ensures forall j :: 0 <= j < |ms| && ms[j].Present? ==> ms[j].value <= Bound(ms)
  {
    if ms != [] {
      BoundIsUpper(ms[1..]);
      forall j | 1 <= j < |ms| && ms[j].Present? ensures ms[j].value <= Bound(ms) {
        assert ms[j] == ms[1..][j - 1];
      }
    }
  }

  // ---- Class ----

  /** headers.slice(1): the subject columns. */
  function Subjects(headers: seq<string>): seq<string> {
    if |headers| > 0 then headers[1..] else []
  }

  /** `rows.map`: one record per row, in order, each told its row index. */
  function Students(rows: seq<seq<string>>, n: nat): seq<Student> {
    seq(|rows|, i requires 0 <= i < |rows| => StudentOf(rows[i], i, n))
  }

  /** `students.map(s => s.avg)`: the rounded averages, in order. */
  function Averages(ss: seq<Student>): seq<real> {
    seq(|ss|, i requires 0 <= i < |ss| => ss[i].avg)
  }

  function GradesOf(ss: seq<Student>): seq<Grade> {
    seq(|ss|, i requires 0 <= i < |ss| => ss[i].grade)
  }

  /** Math.max over a non-empty sequence. */
  function MaxOf(xs: seq<real>): (m: real)
    requires |xs| > 0
    ensures exists k :: 0 <= k < |xs| && xs[k] == m
    ensures forall k :: 0 <= k < |xs| ==> xs[k] <= m
  {
    if |xs| == 1 then xs[0]
    else
      var m := MaxOf(xs[1..]);
      assert forall k :: 1 <= k < |xs| ==> xs[k] == xs[1..][k - 1];
      if xs[0] > m then xs[0] else m
  }

  /** Math.min over a non-empty sequence. */
  function MinOf(xs: seq<real>): (m: real)
    requires |xs| > 0
    ensures exists k :: 0 <= k < |xs| && xs[k] == m
    ensures forall k :: 0 <= k < |xs| ==> m <= xs[k]
  {
    if |xs| == 1 then xs[0]
    else
      var m := MinOf(xs[1..]);
      assert forall k :: 1 <= k < |xs| ==> xs[k] == xs[1..][k - 1];
      if xs[0] < m then xs[0] else m
  }

  /** The grade histogram, as the reduce at app.js:78 builds it: one key per
      letter that occurs. */
  function GradeCounts(gs: seq<Grade>): map<Grade, nat> {
    if gs == [] then map[]
    else
      var m := GradeCounts(gs[..|gs| - 1]);
      var g := gs[|gs| - 1];
      m[g := Count(m, g) + 1]
  }

  /** The count a histogram holds for g, 0 when g is not a key. */
  function Count(m: map<Grade, nat>, g: Grade): nat {
    if g in m then m[g] else 0
  }

  /** The sum of all the counts in a histogram. */
  function Total(m: map<Grade, nat>): nat {
    Count(m, A) + Count(m, B) + Count(m, C) + Count(m, D) + Count(m, F)
  }

  /** Counting one more g raises the count of g by one and leaves the
      other letters alone. */
  lemma CountOneMore(m: map<Grade, nat>, g: Grade)
    ensures forall h :: Count(m[g := Count(m, g) + 1], h) == Count(m, h) + (if h == g then 1 else 0)
    ensures Total(m[g := Count(m, g) + 1]) == Total(m) + 1
    ensures forall h :: h in m[g := Count(m, g) + 1] <==> h in m || h == g
  {
  }

  /** The histogram's keys are the letters that occur, each counted as often
      as it occurs, and the counts add up to the number of students. */
  lemma GradeCountsCorrect(gs: seq<Grade>)
    ensures forall g :: g in GradeCounts(gs) <==> g in gs
    ensures forall g :: Count(GradeCounts(gs), g) == multiset(gs)[g]
    ensures Total(GradeCounts(gs)) == |gs|
  {
    GradeCountsKeys(gs);
    GradeCountsMultiset(gs);
    GradeCountsTotal(gs);
  }

  lemma {:induction false} GradeCountsKeys(gs: seq<Grade>)
    ensures forall g :: g in GradeCounts(gs) <==> g in gs
  {
    if gs != [] {
      var init := gs[..|gs| - 1];
      var last := gs[|gs| - 1];
      GradeCountsKeys(init);
      CountOneMore(GradeCounts(init), last);
      assert gs == init + [last];
    }
  }

  lemma {:induction false} GradeCountsMultiset(gs: seq<Grade>)
    ensures forall g :: Count(GradeCounts(gs), g) == multiset(gs)[g]
  {
    if gs != [] {
      var init := gs[..|gs| - 1];
      var last := gs[|gs| - 1];
      GradeCountsMultiset(init);
      CountOneMore(GradeCounts(init), last);
      assert gs == init + [last];
      assert multiset(gs) == multiset(init) + multiset{last};
    }
  }

  lemma {:induction false} GradeCountsTotal(gs: seq<Grade>)
    ensures Total(GradeCounts(gs)) == |gs|
  {
    if gs != [] {
      GradeCountsTotal(gs[..|gs| - 1]);
      CountOneMore(GradeCounts(gs[..|gs| - 1]), gs[|gs| - 1]);
    }
  }

  /** app.js:78: the histogram built by counting the grades one student at a
      time. */
  method CountGrades(students: seq<Student>) returns (dist: map<Grade, nat>)
    ensures dist == GradeCounts(GradesOf(students))
  {
    dist := map[];
    for i := 0 to |students|
      invariant dist == GradeCounts(GradesOf(students[..i]))
    {
      var g := students[i].grade;
      assert GradesOf(students[..i + 1])[..i] == GradesOf(students[..i]);
      dist := dist[g := (if g in dist then dist[g] else 0) + 1];
    }
    assert students[..|students|] == students;
  }

  /** computeMetrics: the records and the class aggregates. */
  function ComputeMetrics(headers: seq<string>, rows: seq<seq<string>>): ClassMetrics {
    var subjects := Subjects(headers);
    var ss := Students(rows, |subjects|);
    var avgs := Averages(ss);
    ClassMetrics(
      ss,
      subjects,
      if |avgs| > 0 then Round2(Sum(avgs) / (|avgs| as real)) else 0.0,
      if |avgs| > 0 then MaxOf(avgs) else 0.0,
      if |avgs| > 0 then MinOf(avgs) else 0.0,
      GradeCounts(GradesOf(ss)))
  }

  /** The subjects are the header columns after the name column; one
      record per row in row order, each with one mark per subject column. */
  lemma RecordShape(headers: seq<string>, rows: seq<seq<string>>)
    ensures ComputeMetrics(headers, rows).subjectNames == Subjects(headers)
    ensures |headers| > 0 ==> ComputeMetrics(headers, rows).subjectNames == headers[1..]
    ensures |headers| == 0 ==> ComputeMetrics(headers, rows).subjectNames == []
    ensures |ComputeMetrics(headers, rows).subjectNames| == if |headers| > 0 then |headers| - 1 else 0
    ensures |ComputeMetrics(headers, rows).students| == |rows|
    ensures forall i :: 0 <= i < |rows| ==>
      ComputeMetrics(headers, rows).students[i] == StudentOf(rows[i], i, |ComputeMetrics(headers, rows).subjectNames|)
    ensures forall i :: 0 <= i < |rows| ==>
      |ComputeMetrics(headers, rows).students[i].marks| == |ComputeMetrics(headers, rows).subjectNames|
  {
  }

  /** Without students every aggregate is 0. */
  lemma NoStudents(headers: seq<string>)
    ensures ComputeMetrics(headers, []).students == []
    ensures ComputeMetrics(headers, []).classAvg == 0.0
    ensures ComputeMetrics(headers, []).highestAvg == 0.0
    ensures ComputeMetrics(headers, []).lowestAvg == 0.0
    ensures ComputeMetrics(headers, []).gradeDist == map[]
  {
  }

  /** The extremes and the rounded mean of a non-empty list of averages,
      each a whole number of hundredths: both extremes occur, bound every
      average, and the rounded mean lies between them. */
  lemma {:induction false} AveragesBetweenExtremes(avgs: seq<real>)
    requires |avgs| > 0
    requires forall k :: 0 <= k < |avgs| ==> IsHundredths(avgs[k])
    ensures MinOf(avgs) <= Round2(Sum(avgs) / (|avgs| as real)) <= MaxOf(avgs)
  {
    var hi := MaxOf(avgs);
    var lo := MinOf(avgs);
    MeanBounds(avgs, lo, hi);
    var mean := Sum(avgs) / (|avgs| as real);
    Round2Monotone(lo, mean);
    Round2Monotone(mean, hi);
    Round2Fixed(lo);
    Round2Fixed(hi);
  }

  /** With students, the highest and the lowest average are averages of
      students and bound every student's average, and the class average
      lies between them. */
  lemma ClassAggregates(headers: seq<string>, rows: seq<seq<string>>)
    requires |rows| > 0
    ensures var m := ComputeMetrics(headers, rows);
      -1.0 / 200.0 <= m.classAvg - Sum(Averages(m.students)) / (|rows| as real) <= 1.0 / 200.0
    ensures var m := ComputeMetrics(headers, rows);
      (exists i :: 0 <= i < |rows| && m.students[i].avg == m.highestAvg) &&
      (exists i :: 0 <= i < |rows| && m.students[i].avg == m.lowestAvg) &&
      (forall i :: 0 <= i < |rows| ==> m.lowestAvg <= m.students[i].avg <= m.highestAvg) &&
      m.lowestAvg <= m.classAvg <= m.highestAvg
  {
    var m := ComputeMetrics(headers, rows);
    var avgs := Averages(m.students);
    assert forall k :: 0 <= k < |avgs| ==> avgs[k] == m.students[k].avg;
    AveragesBetweenExtremes(avgs);
    var khi :| 0 <= khi < |avgs| && avgs[khi] == m.highestAvg;
    var klo :| 0 <= klo < |avgs| && avgs[klo] == m.lowestAvg;
  }

  /** The histogram of a list of students has exactly the letters they got
      as keys, counts each as often as it occurs, and its counts add up to
      the number of students. */
  lemma HistogramOf(ss: seq<Student>)
    ensures Total(GradeCounts(GradesOf(ss))) == |ss|
    ensures forall g :: g in GradeCounts(GradesOf(ss)) <==> exists i :: 0 <= i < |ss| && ss[i].grade == g
    ensures forall g :: Count(GradeCounts(GradesOf(ss)), g) == multiset(GradesOf(ss))[g]
  {
    var gs := GradesOf(ss);
    GradeCountsCorrect(gs);
    forall g ensures g in gs <==> exists i :: 0 <= i < |ss| && ss[i].grade == g {
      if g in gs {
        var k :| 0 <= k < |gs| && gs[k] == g;
        assert ss[k].grade == g;
      } else {
        forall i | 0 <= i < |ss| ensures ss[i].grade != g {
          assert gs[i] == ss[i].grade;
        }
      }
    }
  }

  /** The class histogram: exactly the letters the students got, counted as
      often as they occur, adding up to the number of students. */
  lemma GradeDistribution(headers: seq<string>, rows: seq<seq<string>>)
    ensures var m := ComputeMetrics(headers, rows);
      Total(m.gradeDist) == |rows| &&
      (forall g :: g in m.gradeDist <==> exists i :: 0 <= i < |rows| && m.students[i].grade == g) &&
      forall g :: Count(m.gradeDist, g) == multiset(GradesOf(m.students))[g]
  {
    HistogramOf(ComputeMetrics(headers, rows).students);
  }
}
