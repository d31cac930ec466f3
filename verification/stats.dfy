/** The per-student statistics of viewAvgGrade: one pass over the student's
    (subject, grade) pairs accumulating the sum, the list of grades and the
    running highest and lowest grade, followed by the median of the list.
    Go leaves map iteration order unspecified, so the pass is stated over an
    arbitrary listing of the grades map. */
module Stats {
  import opened Wrappers
  import opened Sorting
  import Records

  /** One (subject, grade) pair as the loop sees it. */
  datatype Mark = Mark(subject: string, value: real)

  /** The loop state: running sum, grades seen, running extremes. */
  datatype Tally = Tally(
    sum: real,
    grades: seq<real>,
    highest: real,
    highestSubject: string,
    lowest: real,
    lowestSubject: string)

  /** The extremes of a scan, each with the subject that attains it. */
  datatype Extremes = Extremes(highest: real, highestSubject: string, lowest: real, lowestSubject: string)

  /** What viewAvgGrade prints. `average` is None for a student without
      grades, where the Go division 0/0 yields NaN. */
  datatype Report = Report(average: Option<real>, extremes: Extremes, median: real)

  /** The grades of `ms`, in visiting order. */
  function Values(ms: seq<Mark>): (vs: seq<real>)
    ensures |vs| == |ms|
    decreases |ms|
  {
    if |ms| == 0 then [] else Values(ms[..|ms| - 1]) + [ms[|ms| - 1].value]
  }

  lemma {:induction false} ValuesConcat(a: seq<Mark>, b: seq<Mark>)
    ensures Values(a + b) == Values(a) + Values(b)
    decreases |b|
  {
    if |b| == 0 {
      assert a + b == a;
    } else {
      var n := |b| - 1;
      assert (a + b)[..|a + b| - 1] == a + b[..n];
      ValuesConcat(a, b[..n]);
    }
  }

  // ---------------------------------------------------------------------------
  // Sum

  /** The sum of a sequence of grades, added up from the front. */
  function Total(s: seq<real>): real
    decreases |s|
  {
    if |s| == 0 then 0.0 else Total(s[..|s| - 1]) + s[|s| - 1]
  }

  lemma TotalSnoc(s: seq<real>, x: real)
    ensures Total(s + [x]) == Total(s) + x
  {
    assert (s + [x])[..|s|] == s;
  }

  lemma {:induction false} TotalConcat(a: seq<real>, b: seq<real>)
    ensures Total(a + b) == Total(a) + Total(b)
    decreases |b|
  {
    if |b| == 0 {
      assert a + b == a;
    } else {
      var n := |b| - 1;
      assert (a + b)[..|a + b| - 1] == a + b[..n];
      TotalConcat(a, b[..n]);
    }
  }

  /** The sum does not depend on the order of the grades. */
  lemma {:induction false} TotalPermutation(a: seq<real>, b: seq<real>)
    requires multiset(a) == multiset(b)
    ensures Total(a) == Total(b)
    decreases |a|
  {
    if |a| == 0 {
      assert |b| == |multiset(b)| == 0;
    } else {
      var n := |a| - 1;
      var x := a[n];
      assert a == a[..n] + [x];
      assert x in multiset(b);
      var j :| 0 <= j < |b| && b[j] == x;
      var rest := b[..j] + b[j + 1..];
      assert b == b[..j] + [x] + b[j + 1..];
      assert multiset(a[..n]) == multiset(a) - multiset{x};
      assert multiset(rest) == multiset(b) - multiset{x};
      TotalPermutation(a[..n], rest);
      TotalConcat(b[..j] + [x], b[j + 1..]);
      TotalConcat(b[..j], [x]);
      TotalConcat(b[..j], b[j + 1..]);
      assert Total([x]) == x by { assert [x][..0] == []; }
    }
  }

  // ---------------------------------------------------------------------------
  // The loop of viewAvgGrade, as written

  /** Before the loop: sum, highest and lowest all start at the Go zero value. */
  const Start: Tally := Tally(0.0, [], 0.0, "", 0.0, "")

  /** One iteration of the loop. A running extreme equal to 0 counts as unset
      and is replaced unconditionally, whatever the new grade. */
  function Step(t: Tally, m: Mark): Tally
  {
    var up := m.value > t.highest || t.highest == 0.0;
    var down := m.value < t.lowest || t.lowest == 0.0;
    Tally(
      t.sum + m.value,
      t.grades + [m.value],
      if up then m.value else t.highest,
      if up then m.subject else t.highestSubject,
      if down then m.value else t.lowest,
      if down then m.subject else t.lowestSubject)
  }

  /** The loop state after visiting `ms` in order. The sum is the sum of the
      grades, the grades are collected in visiting order, and each reported
      extreme is a (subject, grade) pair actually visited. */
  function Scan(ms: seq<Mark>): (t: Tally)
    ensures t.sum == Total(Values(ms))
    ensures t.grades == Values(ms)
    ensures |ms| > 0 ==> Mark(t.highestSubject, t.highest) in ms && Mark(t.lowestSubject, t.lowest) in ms
    decreases |ms|
  {
    if |ms| == 0 then Start
    else
      var n := |ms| - 1;
      var front := ms[..n];
      var prev := Scan(front);
      assert ms == front + [ms[n]];
      TotalSnoc(Values(front), ms[n].value);
      Step(prev, ms[n])
  }

  /** Visiting one more pair when the running highest (or lowest) is 0: the
      new pair replaces it unconditionally. */
  lemma ZeroIsReplaced(ms: seq<Mark>, m: Mark)
    ensures Scan(ms).highest == 0.0 ==>
      Scan(ms + [m]).highest == m.value && Scan(ms + [m]).highestSubject == m.subject
    ensures Scan(ms).lowest == 0.0 ==>
      Scan(ms + [m]).lowest == m.value && Scan(ms + [m]).lowestSubject == m.subject
  {
    assert (ms + [m])[..|ms|] == ms;
  }

  /** The sentinel at work: grades {a: 0, b: -5} visited in that order report
      -5 as the highest grade, though the highest grade is 0. Visited in the
      other order they report 0, so the printed grade depends on the map's
      iteration order. */
  lemma ZeroSentinelCounterexample()
    ensures Scan([Mark("a", 0.0), Mark("b", -5.0)]).highest == -5.0
    ensures Scan([Mark("a", 0.0), Mark("b", -5.0)]).highestSubject == "b"
    ensures Scan([Mark("b", -5.0), Mark("a", 0.0)]).highest == 0.0
    ensures ScanFixed([Mark("a", 0.0), Mark("b", -5.0)]) == Some(Extremes(0.0, "a", -5.0, "b"))
  {
    var ms := [Mark("a", 0.0), Mark("b", -5.0)];
    assert ms[..1] == [Mark("a", 0.0)];
    assert ms[..1][..0] == [];
    var sm := [Mark("b", -5.0), Mark("a", 0.0)];
    assert sm[..1] == [Mark("b", -5.0)];
    assert sm[..1][..0] == [];
  }

  /** Grades {a: 0, b: 5, c: -3} visited in that order: the zero is replaced
      by the next grade on both sides, and both scans report 5 in b and -3 in c. */
  lemma ZeroThenSpreadExample()
    ensures ExtremesOf(Scan([Mark("a", 0.0), Mark("b", 5.0), Mark("c", -3.0)])) == Extremes(5.0, "b", -3.0, "c")
    ensures ScanFixed([Mark("a", 0.0), Mark("b", 5.0), Mark("c", -3.0)]) == Some(Extremes(5.0, "b", -3.0, "c"))
  {
    var ms := [Mark("a", 0.0), Mark("b", 5.0), Mark("c", -3.0)];
    assert ms[..2] == [Mark("a", 0.0), Mark("b", 5.0)];
    assert ms[..2][..1] == [Mark("a", 0.0)];
    assert ms[..2][..1][..0] == [];
  }

  // ---------------------------------------------------------------------------
  // The extremes as intended: start from the first pair, compare strictly

  /** Position `i` holds the first highest grade of `ms`. */
  predicate FirstMaxAt(ms: seq<Mark>, i: int)
  {
    0 <= i < |ms| &&
    forall j :: 0 <= j < |ms| ==> ms[j].value <= ms[i].value && (j < i ==> ms[j].value < ms[i].value)
  }

  /** Position `i` holds the first lowest grade of `ms`. */
  predicate FirstMinAt(ms: seq<Mark>, i: int)
  {
    0 <= i < |ms| &&
    forall j :: 0 <= j < |ms| ==> ms[i].value <= ms[j].value && (j < i ==> ms[i].value < ms[j].value)
  }

  /** `e` reports the first highest grade of `ms` with its subject. */
  predicate IsFirstMax(ms: seq<Mark>, e: Extremes)
  {
    exists i :: 0 <= i < |ms| && FirstMaxAt(ms, i) && ms[i] == Mark(e.highestSubject, e.highest)
  }

  /** `e` reports the first lowest grade of `ms` with its subject. */
  predicate IsFirstMin(ms: seq<Mark>, e: Extremes)
  {
    exists i :: 0 <= i < |ms| && FirstMinAt(ms, i) && ms[i] == Mark(e.lowestSubject, e.lowest)
  }

  /** One step of the corrected scan: a pair replaces an extreme only when
      strictly beyond it. */
  function FixedStep(e: Extremes, m: Mark): Extremes
  {
    Extremes(
      if m.value > e.highest then m.value else e.highest,
      if m.value > e.highest then m.subject else e.highestSubject,
      if m.value < e.lowest then m.value else e.lowest,
      if m.value < e.lowest then m.subject else e.lowestSubject)
  }

  /** A step of the corrected scan keeps the first highest grade: the new
      pair takes over only when strictly higher. */
  lemma FixedStepKeepsMax(ms: seq<Mark>, e: Extremes)
    requires |ms| > 1 && IsFirstMax(ms[..|ms| - 1], e)
    ensures IsFirstMax(ms, FixedStep(e, ms[|ms| - 1]))
  {
    var n := |ms| - 1;
    var front := ms[..n];
    assert forall j :: 0 <= j < n ==> front[j] == ms[j];
    var i :| 0 <= i < n && FirstMaxAt(front, i) && front[i] == Mark(e.highestSubject, e.highest);
    if ms[n].value > e.highest {
      assert FirstMaxAt(ms, n);
    } else {
      assert FirstMaxAt(ms, i);
    }
  }

  /** A step of the corrected scan keeps the first lowest grade: the new
      pair takes over only when strictly lower. */
  lemma FixedStepKeepsMin(ms: seq<Mark>, e: Extremes)
    requires |ms| > 1 && IsFirstMin(ms[..|ms| - 1], e)
    ensures IsFirstMin(ms, FixedStep(e, ms[|ms| - 1]))
  {
    var n := |ms| - 1;
    var front := ms[..n];
    assert forall j :: 0 <= j < n ==> front[j] == ms[j];
    var i :| 0 <= i < n && FirstMinAt(front, i) && front[i] == Mark(e.lowestSubject, e.lowest);
    if ms[n].value < e.lowest {
      assert FirstMinAt(ms, n);
    } else {
      assert FirstMinAt(ms, i);
    }
  }

  /** The extremes after the first pair: that pair on both sides. */
  function Seed(m: Mark): Extremes
  {
    Extremes(m.value, m.subject, m.value, m.subject)
  }

  /** A single pair is both the first highest and the first lowest. */
  lemma SingleIsExtreme(m: Mark)
    ensures IsFirstMax([m], Seed(m)) && IsFirstMin([m], Seed(m))
  {
    assert FirstMaxAt([m], 0) && FirstMinAt([m], 0);
  }

  /** The corrected scan: None on no pairs; otherwise the first pair seeds
      both extremes and a later pair replaces one only when strictly beyond
      it. The result is the highest and lowest grade, each with the first
      subject that attains it. */
  function ScanFixed(ms: seq<Mark>): (r: Option<Extremes>)
    ensures r.Some? <==> |ms| > 0
    ensures r.Some? ==> IsFirstMax(ms, r.value) && IsFirstMin(ms, r.value)
    decreases |ms|
  {
    if |ms| == 0 then None
    else if |ms| == 1 then
      SingleIsExtreme(ms[0]);
      Some(Seed(ms[0]))
    else
      var n := |ms| - 1;
      var e := ScanFixed(ms[..n]).value;
      assert IsFirstMax(ms[..n], e) && IsFirstMin(ms[..n], e);
      FixedStepKeepsMax(ms, e);
      FixedStepKeepsMin(ms, e);
      Some(FixedStep(e, ms[n]))
  }

  /** The extremes part of a loop state. */
  function ExtremesOf(t: Tally): Extremes
  {
    Extremes(t.highest, t.highestSubject, t.lowest, t.lowestSubject)
  }

  /** Once neither running extreme is 0, a step of the loop as written is a
      step of the corrected scan. */
  lemma StepAgrees(t: Tally, m: Mark)
    requires t.highest != 0.0 && t.lowest != 0.0
    ensures ExtremesOf(Step(t, m)) == FixedStep(ExtremesOf(t), m)
  {
  }

  /** Without a zero grade the sentinel never fires after the first pair, and
      the loop as written computes the corrected extremes. */
  lemma {:induction false} ScanAgreesWhenNoZero(ms: seq<Mark>)
    requires |ms| > 0
    requires forall i :: 0 <= i < |ms| ==> ms[i].value != 0.0
    ensures ScanFixed(ms) == Some(ExtremesOf(Scan(ms)))
    decreases |ms|
  {
    var n := |ms| - 1;
    var front := ms[..n];
    if n == 0 {
      assert front == [];
    } else {
      assert forall i :: 0 <= i < n ==> front[i] == ms[i];
      ScanAgreesWhenNoZero(front);
      var t := Scan(front);
      assert t.highest != 0.0 && t.lowest != 0.0 by {
        assert Mark(t.highestSubject, t.highest) in front && Mark(t.lowestSubject, t.lowest) in front;
      }
      StepAgrees(t, ms[n]);
    }
  }

  /** When no grade is 0, the loop as written reports the highest and the
      lowest grade, each with the first subject (in visiting order) that
      attains it. */
  lemma ScanWithoutZeroFindsExtremes(ms: seq<Mark>)
    requires |ms| > 0
    requires forall i :: 0 <= i < |ms| ==> ms[i].value != 0.0
    ensures IsFirstMax(ms, ExtremesOf(Scan(ms)))
    ensures IsFirstMin(ms, ExtremesOf(Scan(ms)))
  {
    ScanAgreesWhenNoZero(ms);
  }

  // ---------------------------------------------------------------------------
  // Median

  /** `r` lies between two of the grades `s`. */
  predicate Between(s: seq<real>, r: real)
  {
    exists i, j :: 0 <= i < |s| && 0 <= j < |s| && s[i] <= r <= s[j]
  }

  /** calculateMedian: 0 for no grades; otherwise the middle element of the
      sorted grades, or the mean of the two middle elements for an even
      count. The result lies between the smallest and the largest grade. */
  function Median(grades: seq<real>): (r: real)
    ensures |grades| == 0 ==> r == 0.0
    ensures |grades| > 0 ==> Between(grades, r)
  {
    var n := |grades|;
    if n == 0 then 0.0
    else
      var sorted := Sort(grades);
      assert sorted[0] in multiset(grades) && sorted[n - 1] in multiset(grades) by {
        assert sorted[0] in multiset(sorted) && sorted[n - 1] in multiset(sorted);
      }
      var r := if n % 2 != 0 then sorted[n / 2] else (sorted[(n - 1) / 2] + sorted[n / 2]) / 2.0;
      assert sorted[0] <= r <= sorted[n - 1];
      r
  }

  /** The median is read off any sorted copy of the grades. */
  lemma MedianOfSortedCopy(grades: seq<real>, t: seq<real>)
    requires IsSorted(t) && multiset(t) == multiset(grades)
    requires |grades| > 0
    ensures |t| == |grades|
    ensures |t| % 2 == 1 ==> Median(grades) == t[|t| / 2]
    ensures |t| % 2 == 0 ==> Median(grades) == (t[|t| / 2 - 1] + t[|t| / 2]) / 2.0
  {
    assert |t| == |multiset(t)| == |multiset(grades)| == |grades|;
    SortedUnique(Sort(grades), t);
  }

  /** The median does not depend on the order of the grades. */
  lemma MedianPermutation(a: seq<real>, b: seq<real>)
    requires multiset(a) == multiset(b)
    ensures Median(a) == Median(b)
  {
    assert |a| == |multiset(a)| == |multiset(b)| == |b|;
    SortedUnique(Sort(a), Sort(b));
  }

  /** Already sorted grades: the median is their middle element, or the mean
      of their two middle elements. */
  lemma MedianOfSorted(s: seq<real>)
    requires IsSorted(s) && |s| > 0
    ensures |s| % 2 == 1 ==> Median(s) == s[|s| / 2]
    ensures |s| % 2 == 0 ==> Median(s) == (s[|s| / 2 - 1] + s[|s| / 2]) / 2.0
  {
    MedianOfSortedCopy(s, s);
  }

  /** The median of [1, 2, 3] is 2. */
  lemma MedianOfOddExample(s: seq<real>)
    requires |s| == 3 && s[0] == 1.0 && s[1] == 2.0 && s[2] == 3.0
    ensures Median(s) == 2.0
  {
    assert IsSorted(s);
    MedianOfSorted(s);
  }

  /** The median of [1, 2, 3, 4] is 2.5. */
  lemma MedianOfEvenExample(s: seq<real>)
    requires |s| == 4 && s[0] == 1.0 && s[1] == 2.0 && s[2] == 3.0 && s[3] == 4.0
    ensures Median(s) == 2.5
  {
    assert IsSorted(s);
    MedianOfSorted(s);
  }

  // ---------------------------------------------------------------------------
  // Iterating a grades map

  /** `ms` visits every entry of `grades` exactly once, in some order: its
      first pair is an entry of the map, and the rest visits what is left. */
  predicate IsListing(ms: seq<Mark>, grades: map<string, real>)
    decreases |ms|
  {
    if |ms| == 0 then grades == map[]
    else
      && ms[0].subject in grades
      && grades[ms[0].subject] == ms[0].value
      && IsListing(ms[1..], grades - {ms[0].subject})
  }

  /** Every visited pair is an entry of the map. */
  lemma {:induction false} ListingEntries(ms: seq<Mark>, grades: map<string, real>)
    requires IsListing(ms, grades)
    ensures forall i :: 0 <= i < |ms| ==> ms[i].subject in grades && grades[ms[i].subject] == ms[i].value
    decreases |ms|
  {
    if |ms| > 0 {
      var rest := grades - {ms[0].subject};
      ListingEntries(ms[1..], rest);
      forall i | 1 <= i < |ms| ensures ms[i].subject in grades && grades[ms[i].subject] == ms[i].value {
        assert ms[i] == ms[1..][i - 1];
      }
    }
  }

  /** Every entry of the map is visited, and no subject is visited twice. */
  lemma {:induction false} ListingCovers(ms: seq<Mark>, grades: map<string, real>)
    requires IsListing(ms, grades)
    ensures forall k :: k in grades ==> exists i :: 0 <= i < |ms| && ms[i].subject == k
    ensures forall i, j :: 0 <= i < j < |ms| ==> ms[i].subject != ms[j].subject
    decreases |ms|
  {
    if |ms| > 0 {
      var first := ms[0].subject;
      var rest := grades - {first};
      ListingCovers(ms[1..], rest);
      ListingEntries(ms[1..], rest);
      forall k | k in grades ensures exists i :: 0 <= i < |ms| && ms[i].subject == k {
        if k == first {
          assert ms[0].subject == k;
        } else {
          assert k in rest;
          var i :| 0 <= i < |ms| - 1 && ms[1..][i].subject == k;
          assert ms[i + 1].subject == k;
        }
      }
      forall i, j | 0 <= i < j < |ms| ensures ms[i].subject != ms[j].subject {
        assert ms[j] == ms[1..][j - 1];
        if i > 0 {
          assert ms[i] == ms[1..][i - 1];
        }
      }
    }
  }

  /** Dropping one visited pair lists the map without that subject. */
  lemma {:induction false} ListingRemove(ms: seq<Mark>, grades: map<string, real>, j: int)
    requires IsListing(ms, grades) && 0 <= j < |ms|
    ensures IsListing(ms[..j] + ms[j + 1..], grades - {ms[j].subject})
    decreases j
  {
    if j == 0 {
      assert ms[..j] + ms[j + 1..] == ms[1..];
    } else {
      var first := ms[0].subject;
      var k := ms[j].subject;
      var rest := grades - {first};
      assert ms[j] == ms[1..][j - 1];
      ListingEntries(ms[1..], rest);
      ListingRemove(ms[1..], rest, j - 1);
      var r := ms[..j] + ms[j + 1..];
      assert r[0] == ms[0];
      assert r[1..] == ms[1..][..j - 1] + ms[1..][j..];
      assert (grades - {k}) - {first} == rest - {k};
    }
  }

  /** A listing has one pair per subject. */
  lemma {:induction false} ListingLength(ms: seq<Mark>, grades: map<string, real>)
    requires IsListing(ms, grades)
    ensures |ms| == |grades|
    decreases |ms|
  {
    if |ms| > 0 {
      var first := ms[0].subject;
      var rest := grades - {first};
      ListingLength(ms[1..], rest);
      assert rest.Keys == grades.Keys - {first};
    }
  }

  lemma ValuesSingle(m: Mark)
    ensures Values([m]) == [m.value]
  {
    assert [m][..0] == [];
  }

  /** The values of a listing with one mark in the middle. */
  lemma ValuesAround(left: seq<Mark>, m: Mark, right: seq<Mark>)
    ensures Values(left + [m] + right) == Values(left) + [m.value] + Values(right)
  {
    ValuesConcat(left + [m], right);
    ValuesConcat(left, [m]);
    ValuesSingle(m);
  }

  /** Taking one grade out of the middle of a sequence of grades. */
  lemma MultisetAround(vl: seq<real>, v: real, vr: seq<real>)
    ensures multiset(vl + [v] + vr) == multiset(vl + vr) + multiset{v}
  {
    assert multiset(vl + [v] + vr) == multiset(vl) + multiset{v} + multiset(vr);
    assert multiset(vl + vr) == multiset(vl) + multiset(vr);
  }

  /** A sequence around its element at `j`. */
  lemma SplitAt(ms: seq<Mark>, j: int)
    requires 0 <= j < |ms|
    ensures ms == ms[..j] + [ms[j]] + ms[j + 1..]
  {
  }

  /** Dropping the pair at `j` drops exactly its grade from the grades visited. */
  lemma ValuesRemove(ms: seq<Mark>, j: int)
    requires 0 <= j < |ms|
    ensures multiset(Values(ms)) == multiset(Values(ms[..j] + ms[j + 1..])) + multiset{ms[j].value}
  {
    var left, right, m := ms[..j], ms[j + 1..], ms[j];
    SplitAt(ms, j);
    ValuesAround(left, m, right);
    ValuesConcat(left, right);
    MultisetAround(Values(left), m.value, Values(right));
  }

  /** The position at which a listing visits a given entry of the map. */
  lemma Locate(ms: seq<Mark>, grades: map<string, real>, m: Mark) returns (j: int)
    requires IsListing(ms, grades)
    requires m.subject in grades && grades[m.subject] == m.value
    ensures 0 <= j < |ms| && ms[j] == m
  {
    ListingCovers(ms, grades);
    ListingEntries(ms, grades);
    j :| 0 <= j < |ms| && ms[j].subject == m.subject;
  }

  /** Two listings of the same map visit the same grades. */
  lemma {:induction false} ListingsPermute(a: seq<Mark>, b: seq<Mark>, grades: map<string, real>)
    requires IsListing(a, grades) && IsListing(b, grades)
    ensures multiset(Values(a)) == multiset(Values(b))
    decreases |a|
  {
    ListingLength(a, grades);
    ListingLength(b, grades);
    if |a| == 0 {
      assert a == [] && b == [];
    } else {
      var j := Locate(b, grades, a[0]);
      ListingRemove(b, grades, j);
      ListingsPermute(a[1..], b[..j] + b[j + 1..], grades - {a[0].subject});
      SameHeadPermutes(a, b, j);
    }
  }

  /** Visiting the same pair first in `a` and at `j` in `b`, with the rest
      visiting the same grades, visits the same grades overall. */
  lemma SameHeadPermutes(a: seq<Mark>, b: seq<Mark>, j: int)
    requires |a| > 0 && 0 <= j < |b| && b[j] == a[0]
    requires multiset(Values(a[1..])) == multiset(Values(b[..j] + b[j + 1..]))
    ensures multiset(Values(a)) == multiset(Values(b))
  {
    assert a[..0] + a[1..] == a[1..];
    ValuesRemove(a, 0);
    ValuesRemove(b, j);
  }

  // ---------------------------------------------------------------------------
  // viewAvgGrade

  /** The extremes printed for a student without grades: the Go zero values. */
  const NoExtremes: Extremes := Extremes(0.0, "", 0.0, "")

  /** viewAvgGrade on the listing the map iteration happened to produce:
      None for an unknown name; otherwise the average (None when the student
      has no grades), the extremes as the corrected scan finds them, and the
      median. */
  function AvgReport(store: Records.Store, name: string, listing: seq<Mark>): (r: Option<Report>)
    requires name in store ==> IsListing(listing, store[name].grades)
    ensures r.Some? <==> name in store
    ensures r.Some? ==> (r.value.average.Some? <==> |listing| > 0)
    ensures r.Some? && |listing| > 0 ==>
      r.value.average == Some(Total(Values(listing)) / (|listing| as real))
    ensures r.Some? && |listing| > 0 ==>
      IsFirstMax(listing, r.value.extremes) && IsFirstMin(listing, r.value.extremes)
    ensures r.Some? && |listing| > 0 ==> Between(Values(listing), r.value.median)
    ensures r.Some? ==> r.value.median == Median(Values(listing))
    ensures r.Some? && |listing| == 0 ==> r.value.extremes == NoExtremes && r.value.median == 0.0
  {
    match Records.Lookup(store, name)
    case None => None
    case Some(student) =>
      assert student == store[name];
      var t := Scan(listing);
      var count := |student.grades|;
      assert count == |listing| by { ListingLength(listing, student.grades); }
      Some(Report(
        if count == 0 then None else Some(t.sum / count as real),
        OrElse(ScanFixed(listing), Some(NoExtremes)).value,
        Median(t.grades)))
  }

  /** Whatever order the map is iterated in, the report gives the same
      average, median, highest grade and lowest grade. */
  lemma ReportOrderIndependent(store: Records.Store, name: string, a: seq<Mark>, b: seq<Mark>)
    requires name in store
    requires IsListing(a, store[name].grades) && IsListing(b, store[name].grades)
    ensures AvgReport(store, name, a).Some? && AvgReport(store, name, b).Some?
    ensures AvgReport(store, name, a).value.average == AvgReport(store, name, b).value.average
    ensures AvgReport(store, name, a).value.median == AvgReport(store, name, b).value.median
    ensures AvgReport(store, name, a).value.extremes.highest == AvgReport(store, name, b).value.extremes.highest
    ensures AvgReport(store, name, a).value.extremes.lowest == AvgReport(store, name, b).value.extremes.lowest
  {
    var grades := store[name].grades;
    var ra, rb := AvgReport(store, name, a).value, AvgReport(store, name, b).value;
    ListingLength(a, grades);
    ListingLength(b, grades);
    ListingsPermute(a, b, grades);
    TotalPermutation(Values(a), Values(b));
    MedianPermutation(Values(a), Values(b));
    assert ra.median == Median(Scan(a).grades) && rb.median == Median(Scan(b).grades);
    if |a| > 0 {
      ExtremesAgree(a, b, grades);
      assert ra.extremes == ScanFixed(a).value && rb.extremes == ScanFixed(b).value;
    }
  }

  /** When only one subject carries the highest grade, every iteration order
      names that subject with it; likewise for the lowest grade. */
  lemma ReportSubjectsAgree(store: Records.Store, name: string, a: seq<Mark>, b: seq<Mark>)
    requires name in store
    requires IsListing(a, store[name].grades) && IsListing(b, store[name].grades)
    ensures AvgReport(store, name, a).Some? && AvgReport(store, name, b).Some?
    ensures var g := store[name].grades;
      var ea := AvgReport(store, name, a).value.extremes;
      var eb := AvgReport(store, name, b).value.extremes;
      (forall k :: k in g && g[k] == ea.highest ==> k == ea.highestSubject) ==>
        eb.highestSubject == ea.highestSubject
    ensures var g := store[name].grades;
      var ea := AvgReport(store, name, a).value.extremes;
      var eb := AvgReport(store, name, b).value.extremes;
      (forall k :: k in g && g[k] == ea.lowest ==> k == ea.lowestSubject) ==>
        eb.lowestSubject == ea.lowestSubject
  {
    var g := store[name].grades;
    ListingLength(a, g);
    ListingLength(b, g);
    if |a| > 0 {
      ExtremesAgree(a, b, g);
      ListingEntries(b, g);
      var ea, eb := ScanFixed(a).value, ScanFixed(b).value;
      assert AvgReport(store, name, a).value.extremes == ea;
      assert AvgReport(store, name, b).value.extremes == eb;
      var ib :| 0 <= ib < |b| && FirstMaxAt(b, ib) && b[ib] == Mark(eb.highestSubject, eb.highest);
      var lb :| 0 <= lb < |b| && FirstMinAt(b, lb) && b[lb] == Mark(eb.lowestSubject, eb.lowest);
      assert eb.highestSubject in g && g[eb.highestSubject] == ea.highest;
      assert eb.lowestSubject in g && g[eb.lowestSubject] == ea.lowest;
    }
  }

  /** The first highest grades of two listings of one map are equal. */
  lemma MaxOfListingsAgree(a: seq<Mark>, b: seq<Mark>, grades: map<string, real>, i: int, j: int)
    requires IsListing(a, grades) && IsListing(b, grades)
    requires FirstMaxAt(a, i) && FirstMaxAt(b, j)
    ensures a[i].value == b[j].value
  {
    ListingEntries(a, grades);
    ListingEntries(b, grades);
    ListingCovers(a, grades);
    ListingCovers(b, grades);
    var i' :| 0 <= i' < |b| && b[i'].subject == a[i].subject;
    var j' :| 0 <= j' < |a| && a[j'].subject == b[j].subject;
    assert b[i'].value <= b[j].value && a[j'].value <= a[i].value;
  }

  /** The first lowest grades of two listings of one map are equal. */
  lemma MinOfListingsAgree(a: seq<Mark>, b: seq<Mark>, grades: map<string, real>, i: int, j: int)
    requires IsListing(a, grades) && IsListing(b, grades)
    requires FirstMinAt(a, i) && FirstMinAt(b, j)
    ensures a[i].value == b[j].value
  {
    ListingEntries(a, grades);
    ListingEntries(b, grades);
    ListingCovers(a, grades);
    ListingCovers(b, grades);
    var i' :| 0 <= i' < |b| && b[i'].subject == a[i].subject;
    var j' :| 0 <= j' < |a| && a[j'].subject == b[j].subject;
    assert b[j].value <= b[i'].value && a[i].value <= a[j'].value;
  }

  /** Two listings of one map give the corrected scan the same extreme grades. */
  lemma ExtremesAgree(a: seq<Mark>, b: seq<Mark>, grades: map<string, real>)
    requires IsListing(a, grades) && IsListing(b, grades)
    requires |a| > 0
    ensures ScanFixed(b).Some?
    ensures ScanFixed(a).value.highest == ScanFixed(b).value.highest
    ensures ScanFixed(a).value.lowest == ScanFixed(b).value.lowest
  {
    ListingLength(a, grades);
    ListingLength(b, grades);
    var ea, eb := ScanFixed(a).value, ScanFixed(b).value;
    var ia :| 0 <= ia < |a| && FirstMaxAt(a, ia) && a[ia] == Mark(ea.highestSubject, ea.highest);
    var ib :| 0 <= ib < |b| && FirstMaxAt(b, ib) && b[ib] == Mark(eb.highestSubject, eb.highest);
    MaxOfListingsAgree(a, b, grades, ia, ib);
    var la :| 0 <= la < |a| && FirstMinAt(a, la) && a[la] == Mark(ea.lowestSubject, ea.lowest);
    var lb :| 0 <= lb < |b| && FirstMinAt(b, lb) && b[lb] == Mark(eb.lowestSubject, eb.lowest);
    MinOfListingsAgree(a, b, grades, la, lb);
  }

  /** The loop as written reports the same extreme grades for every iteration
      order as long as no grade is 0; a zero grade is what lets the order
      matter. */
  lemma WrittenExtremesAgree(a: seq<Mark>, b: seq<Mark>, grades: map<string, real>)
    requires IsListing(a, grades) && IsListing(b, grades)
    requires |a| > 0
    requires forall k :: k in grades ==> grades[k] != 0.0
    ensures Scan(a).highest == Scan(b).highest
    ensures Scan(a).lowest == Scan(b).lowest
  {
    ListingLength(a, grades);
    ListingLength(b, grades);
    ListingEntries(a, grades);
    ListingEntries(b, grades);
    assert forall i :: 0 <= i < |a| ==> a[i].value != 0.0;
    assert forall i :: 0 <= i < |b| ==> b[i].value != 0.0;
    ScanAgreesWhenNoZero(a);
    ScanAgreesWhenNoZero(b);
    ExtremesAgree(a, b, grades);
  }
}
