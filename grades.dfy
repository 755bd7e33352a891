/**
 * The grade engine: per-subject marks out of 100 (two class tests and an
 * assignment, of which the best two count, plus mid- and end-semester exams),
 * the grade-scale lookup, the end-semester score still needed for 90, and the
 * credit-weighted average over every subject that has a marks entry.
 * Scores are exact reals.
 */
module Grades {
  import opened Catalog

  datatype Marks = Marks(ct1: real, ct2: real, assignment: real, midSem: real, endSem: real)

  /** The entry every subject starts with. */
  const ZeroMarks := Marks(0.0, 0.0, 0.0, 0.0, 0.0)

  /** The total the required end-semester score aims at. */
  const TargetTotal: real := 90.0
  /** The most the end-semester exam can contribute. */
  const EndSemMax: real := 60.0

  /** A grade as reported: its label and its points. */
  datatype Awarded = Awarded(grade: string, points: int)

  /** What a percentage below every threshold of the scale gets. */
  const Fallback := Awarded("F", 0)

  datatype Requirement = Needed(endSem: real) | NotAchievable

  datatype GradeResult = GradeResult(
    totalScore: real, percentage: real, grade: string, points: int,
    requirement: Requirement, overallCgpa: real)

  function Min3(a: real, b: real, c: real): real
  {
    if a <= b && a <= c then a else if b <= c then b else c
  }

  /** The three continuous-assessment scores in descending order. */
  function SortDescending3(a: real, b: real, c: real): (s: seq<real>)
    ensures |s| == 3 && s[0] >= s[1] >= s[2]
    ensures s[2] == Min3(a, b, c) && s[0] + s[1] + s[2] == a + b + c
  {
    if a >= b then
      (if b >= c then [a, b, c] else if a >= c then [a, c, b] else [c, a, b])
    else
      (if a >= c then [b, a, c] else if b >= c then [b, c, a] else [c, b, a])
  }

  lemma SwapFirst(x: real, y: real, z: real)
    ensures multiset{x, y, z} == multiset{y, x, z}
  {}

  lemma SwapLast(x: real, y: real, z: real)
    ensures multiset{x, y, z} == multiset{x, z, y}
  {}

  lemma TripleMultiset(x: real, y: real, z: real)
    ensures multiset([x, y, z]) == multiset{x, y, z}
  {
    assert [x, y, z] == [x] + [y] + [z];
  }

  /** The sorted scores are exactly the three that were entered. */
  lemma SortDescending3Permutation(a: real, b: real, c: real)
    ensures multiset(SortDescending3(a, b, c)) == multiset{a, b, c}
  {
    var s := SortDescending3(a, b, c);
    assert s == [s[0], s[1], s[2]];
    TripleMultiset(s[0], s[1], s[2]);
    assert multiset{s[0], s[1], s[2]} == multiset{a, b, c} by {
      if a >= b {
        if b >= c {
        } else if a >= c {
          SwapLast(a, b, c);
        } else {
          SwapLast(a, b, c); SwapFirst(c, a, b);
        }
      } else {
        if a >= c {
          SwapFirst(a, b, c);
        } else if b >= c {
          SwapFirst(a, b, c); SwapLast(b, a, c);
        } else {
          SwapFirst(a, b, c); SwapLast(b, a, c); SwapFirst(b, c, a);
        }
      }
    }
  }

  /** The best two of the three continuous-assessment scores: the largest of
      the three pair sums, which is the whole sum less the smallest score. */
  function CaTotal(ct1: real, ct2: real, assignment: real): (r: real)
    ensures r == ct1 + ct2 + assignment - Min3(ct1, ct2, assignment)
    ensures r >= ct1 + ct2 && r >= ct1 + assignment && r >= ct2 + assignment
    ensures r == ct1 + ct2 || r == ct1 + assignment || r == ct2 + assignment
  {
    var s := SortDescending3(ct1, ct2, assignment);
    s[0] + s[1]
  }

  /** The order in which the three scores are entered does not matter. */
  lemma CaTotalSymmetric(a: real, b: real, c: real)
    ensures CaTotal(a, b, c) == CaTotal(b, a, c) == CaTotal(a, c, b)
         == CaTotal(b, c, a) == CaTotal(c, a, b) == CaTotal(c, b, a)
  {
  }

  function TotalScore(m: Marks): real
  {
    CaTotal(m.ct1, m.ct2, m.assignment) + m.midSem + m.endSem
  }

  /** The marks are out of 100, so the percentage is the total itself. */
  function Percentage(m: Marks): (p: real)
    ensures p == TotalScore(m)
  {
    (TotalScore(m) / 100.0) * 100.0
  }

  /** The first band in table order whose threshold the percentage reaches,
      or the fallback when there is none. */
  function Lookup(scale: seq<GradeBand>, p: real): Awarded
  {
    if scale == [] then Fallback
    else if p >= scale[0].min as real then Awarded(scale[0].grade, scale[0].points)
    else Lookup(scale[1..], p)
  }

  /** The band chosen is the first one reached, whatever comes after it. */
  lemma {:induction false} LookupFirstMatch(scale: seq<GradeBand>, p: real, i: nat)
    requires i < |scale| && p >= scale[i].min as real
    requires forall j :: 0 <= j < i ==> p < scale[j].min as real
    ensures Lookup(scale, p) == Awarded(scale[i].grade, scale[i].points)
  {
    if i > 0 {
      LookupFirstMatch(scale[1..], p, i - 1);
    }
  }

  /** Below every threshold the result is F with no points. */
  lemma {:induction false} LookupFallback(scale: seq<GradeBand>, p: real)
    requires forall j :: 0 <= j < |scale| ==> p < scale[j].min as real
    ensures Lookup(scale, p) == Fallback
  {
    if scale != [] {
      LookupFallback(scale[1..], p);
    }
  }

  /** The result is a band of the scale or the fallback. */
  lemma {:induction false} LookupFromScale(scale: seq<GradeBand>, p: real)
    ensures Lookup(scale, p) == Fallback ||
            exists i :: 0 <= i < |scale| && Lookup(scale, p) == Awarded(scale[i].grade, scale[i].points)
  {
    if scale != [] && p < scale[0].min as real {
      LookupFromScale(scale[1..], p);
      if Lookup(scale[1..], p) != Fallback {
        var i :| 0 <= i < |scale[1..]| && Lookup(scale[1..], p) == Awarded(scale[1..][i].grade, scale[1..][i].points);
        assert scale[1..][i] == scale[i + 1];
      }
    }
  }

  /** A higher percentage never earns fewer points, on any scale whose points
      do not increase along the table and are never below the fallback's. */
  lemma {:induction false} LookupMonotone(scale: seq<GradeBand>, p1: real, p2: real)
    requires PointsNonIncreasing(scale)
    requires forall i :: 0 <= i < |scale| ==> scale[i].points >= Fallback.points
    requires p1 <= p2
    ensures Lookup(scale, p1).points <= Lookup(scale, p2).points
  {
    if scale == [] || p1 >= scale[0].min as real {
    } else if p2 >= scale[0].min as real {
      LookupFromScale(scale[1..], p1);
      if Lookup(scale[1..], p1) != Fallback {
        var i :| 0 <= i < |scale[1..]| && Lookup(scale[1..], p1) == Awarded(scale[1..][i].grade, scale[1..][i].points);
        assert scale[1..][i] == scale[i + 1];
      }
    } else {
      LookupMonotone(scale[1..], p1, p2);
    }
  }

  /** Once the percentage reaches band `k`, the result is band `k` or one
      before it. */
  lemma {:induction false} LookupReaches(scale: seq<GradeBand>, p: real, k: nat)
    requires k < |scale| && p >= scale[k].min as real
    ensures exists i :: 0 <= i <= k && Lookup(scale, p) == Awarded(scale[i].grade, scale[i].points)
  {
    if p < scale[0].min as real {
      LookupReaches(scale[1..], p, k - 1);
      var i :| 0 <= i <= k - 1 && Lookup(scale[1..], p) == Awarded(scale[1..][i].grade, scale[1..][i].points);
      assert scale[1..][i] == scale[i + 1];
    }
  }

  /** On the shipped scale every percentage of at least 0 reaches a band, and
      every percentage earns between 0 and 10 points. */
  lemma ShippedLookup(p: real)
    ensures p >= 0.0 ==> Lookup(GradeScale, p) != Fallback
    ensures 0 <= Lookup(GradeScale, p).points <= 10
  {
    ShippedGradeScale();
    LookupFromScale(GradeScale, p);
    if p >= 0.0 {
      LookupReaches(GradeScale, p, |GradeScale| - 1);
      var i :| 0 <= i < |GradeScale| && Lookup(GradeScale, p) == Awarded(GradeScale[i].grade, GradeScale[i].points);
      assert |GradeScale[i].grade| >= 2;
    }
  }

  /** The grade lookup as the program runs it: scan the table in order and
      stop at the first band whose threshold the percentage reaches. */
  method LookupGrade(scale: seq<GradeBand>, percentage: real) returns (grade: string, points: int)
    ensures Awarded(grade, points) == Lookup(scale, percentage)
  {
    grade, points := "F", 0;
    var i := 0;
    while i < |scale|
      invariant 0 <= i <= |scale|
      invariant Lookup(scale[i..], percentage) == Lookup(scale, percentage)
      invariant grade == "F" && points == 0
    {
      if percentage >= scale[i].min as real {
        grade, points := scale[i].grade, scale[i].points;
        break;
      }
      assert scale[i..][1..] == scale[i + 1..];
      i := i + 1;
    }
  }

  /** The end-semester score still needed to reach 90: never negative, at
      least the gap to 90, and no more than that gap when there is one. */
  function RequiredEndSem(caTotal: real, midSem: real): (r: real)
    ensures r >= 0.0 && r >= TargetTotal - (caTotal + midSem)
    ensures r == 0.0 || r == TargetTotal - (caTotal + midSem)
  {
    var currentPartial := caTotal + midSem;
    if TargetTotal - currentPartial > 0.0 then TargetTotal - currentPartial else 0.0
  }

  /** The requirement as reported: a number when the end-semester exam can
      still supply it, "not achievable" exactly when it exceeds 60. */
  function EndSemRequirement(caTotal: real, midSem: real): (q: Requirement)
    ensures q.NotAchievable? <==> RequiredEndSem(caTotal, midSem) > EndSemMax
    ensures q.Needed? ==> q.endSem == RequiredEndSem(caTotal, midSem)
  {
    var required := RequiredEndSem(caTotal, midSem);
    if required <= EndSemMax then Needed(required) else NotAchievable
  }

  /** Nothing is needed once continuous assessment and mid-semester reach 90;
      below 30 the target cannot be reached. */
  lemma RequirementBoundaries(caTotal: real, midSem: real)
    ensures caTotal + midSem >= TargetTotal ==> EndSemRequirement(caTotal, midSem) == Needed(0.0)
    ensures caTotal + midSem < TargetTotal - EndSemMax ==> EndSemRequirement(caTotal, midSem) == NotAchievable
  {
  }

  // ---------------------------------------------------------------------------
  // Credit-weighted average

  function SubjectPoints(m: Marks, scale: seq<GradeBand>): int
  {
    Lookup(scale, Percentage(m)).points
  }

  /** Credits of the subjects that have a marks entry. */
  function CountedCredits(cat: seq<Subject>, marks: map<string, Marks>): int
  {
    if cat == [] then 0
    else
      var last := cat[|cat| - 1];
      CountedCredits(cat[..|cat| - 1], marks) + (if last.name in marks then last.credits else 0)
  }

  /** The credits of every subject of the catalog, whether it has an entry
      or not. */
  function TotalCredits(cat: seq<Subject>): int
  {
    if cat == [] then 0 else TotalCredits(cat[..|cat| - 1]) + cat[|cat| - 1].credits
  }

  /** When every catalog subject has an entry, all of their credits count. */
  lemma {:induction false} CountedCreditsAll(cat: seq<Subject>, marks: map<string, Marks>)
    requires forall i :: 0 <= i < |cat| ==> cat[i].name in marks
    ensures CountedCredits(cat, marks) == TotalCredits(cat)
  {
    if cat != [] {
      var init := cat[..|cat| - 1];
      assert forall i :: 0 <= i < |init| ==> init[i] == cat[i];
      CountedCreditsAll(init, marks);
    }
  }

  /** Grade points times credits, summed over the subjects with an entry. */
  function WeightedPoints(cat: seq<Subject>, marks: map<string, Marks>, scale: seq<GradeBand>): int
  {
    if cat == [] then 0
    else
      var last := cat[|cat| - 1];
      WeightedPoints(cat[..|cat| - 1], marks, scale)
        + (if last.name in marks then SubjectPoints(marks[last.name], scale) * last.credits else 0)
  }

  /** The overall average: weighted points over counted credits, or 0 when no
      credits count. */
  function Cgpa(cat: seq<Subject>, marks: map<string, Marks>, scale: seq<GradeBand>): real
  {
    var credits := CountedCredits(cat, marks);
    if credits > 0 then WeightedPoints(cat, marks, scale) as real / credits as real else 0.0
  }

  ghost predicate PositiveCredits(cat: seq<Subject>)
  {
    forall i :: 0 <= i < |cat| ==> cat[i].credits > 0
  }

  ghost predicate PointsWithin(cat: seq<Subject>, marks: map<string, Marks>, scale: seq<GradeBand>, lo: int, hi: int)
  {
    forall i :: 0 <= i < |cat| && cat[i].name in marks ==>
      lo <= SubjectPoints(marks[cat[i].name], scale) <= hi
  }

  lemma MulMono(x: int, y: int, c: int)
    requires x <= y && c >= 0
    ensures x * c <= y * c
  {
    assert (y - x) * c >= 0;
  }

  ghost predicate HasEntry(cat: seq<Subject>, marks: map<string, Marks>)
  {
    exists i :: 0 <= i < |cat| && cat[i].name in marks
  }

  /** Credits count exactly when some subject has an entry. */
  lemma {:induction false} CountedCreditsPositive(cat: seq<Subject>, marks: map<string, Marks>)
    requires PositiveCredits(cat)
    ensures CountedCredits(cat, marks) > 0 <==> HasEntry(cat, marks)
    ensures CountedCredits(cat, marks) >= 0
  {
    if cat != [] {
      var init := cat[..|cat| - 1];
      var last := cat[|cat| - 1];
      assert PositiveCredits(init) by {
        forall i | 0 <= i < |init| ensures init[i] == cat[i] { }
      }
      CountedCreditsPositive(init, marks);
      if last.name in marks {
        assert HasEntry(cat, marks) by { assert cat[|cat| - 1].name in marks; }
      } else if HasEntry(cat, marks) {
        var i :| 0 <= i < |cat| && cat[i].name in marks;
        assert i < |init| && init[i].name in marks;
      } else {
        assert !HasEntry(init, marks) by {
          forall i | 0 <= i < |init| ensures init[i].name !in marks {
            assert init[i] == cat[i];
          }
        }
      }
    }
  }

  lemma AddBounds(lo: int, hi: int, c: int, w: int, pts: int, k: int)
    requires lo * c <= w <= hi * c && lo <= pts <= hi && k >= 0
    ensures lo * (c + k) <= w + pts * k <= hi * (c + k)
  {
    MulMono(lo, pts, k);
    MulMono(pts, hi, k);
    assert lo * (c + k) == lo * c + lo * k;
    assert hi * (c + k) == hi * c + hi * k;
  }

  /** The weighted sum lies between `lo` and `hi` times the counted credits. */
  lemma {:induction false} WeightedSumBounds(cat: seq<Subject>, marks: map<string, Marks>,
                                             scale: seq<GradeBand>, lo: int, hi: int)
    requires PositiveCredits(cat) && PointsWithin(cat, marks, scale, lo, hi)
    ensures lo * CountedCredits(cat, marks) <= WeightedPoints(cat, marks, scale)
                                            <= hi * CountedCredits(cat, marks)
  {
    if cat != [] {
      var init := cat[..|cat| - 1];
      var last := cat[|cat| - 1];
      assert PositiveCredits(init) && PointsWithin(init, marks, scale, lo, hi) by {
        forall i | 0 <= i < |init| ensures init[i] == cat[i] { }
      }
      WeightedSumBounds(init, marks, scale, lo, hi);
      if last.name in marks {
        AddBounds(lo, hi, CountedCredits(init, marks), WeightedPoints(init, marks, scale),
                  SubjectPoints(marks[last.name], scale), last.credits);
      }
    }
  }

  /** When every counted subject's points lie between `lo` and `hi` and every
      credit weight is positive, so does the average (once some subject has an
      entry; with none the average is 0). */
  lemma CgpaWithinBounds(cat: seq<Subject>, marks: map<string, Marks>, scale: seq<GradeBand>, lo: int, hi: int)
    requires PositiveCredits(cat) && PointsWithin(cat, marks, scale, lo, hi)
    ensures HasEntry(cat, marks) ==> lo as real <= Cgpa(cat, marks, scale) <= hi as real
    ensures !HasEntry(cat, marks) ==> Cgpa(cat, marks, scale) == 0.0
  {
    CountedCreditsPositive(cat, marks);
    WeightedSumBounds(cat, marks, scale, lo, hi);
    var c := CountedCredits(cat, marks);
    if c > 0 {
      IntDivideBounds(lo, hi, WeightedPoints(cat, marks, scale), c);
    }
  }

  lemma IntDivideBounds(lo: int, hi: int, w: int, c: int)
    requires c > 0 && lo * c <= w <= hi * c
    ensures lo as real <= w as real / c as real <= hi as real
  {
    assert (lo * c) as real == lo as real * c as real;
    assert (hi * c) as real == hi as real * c as real;
    DivideBounds(lo as real, hi as real, w as real, c as real);
  }

  lemma DivideBounds(lo: real, hi: real, w: real, c: real)
    requires c > 0.0 && lo * c <= w <= hi * c
    ensures lo <= w / c <= hi
  {
    assert w / c - lo == (w - lo * c) / c;
    assert hi - w / c == (hi * c - w) / c;
  }

  /** On the shipped catalog and scale the average always lies in [0, 10]. */
  lemma ShippedCgpaRange(marks: map<string, Marks>)
    ensures 0.0 <= Cgpa(Subjects, marks, GradeScale) <= 10.0
  {
    ShippedSubjects();
    forall i | 0 <= i < |Subjects| && Subjects[i].name in marks
      ensures 0 <= SubjectPoints(marks[Subjects[i].name], GradeScale) <= 10
    {
      ShippedLookup(Percentage(marks[Subjects[i].name]));
    }
    CgpaWithinBounds(Subjects, marks, GradeScale, 0, 10);
  }

  /** The overall average as the program computes it: one pass over the
      catalog accumulating credits and weighted points. */
  method OverallCgpa(cat: seq<Subject>, marks: map<string, Marks>, scale: seq<GradeBand>)
    returns (cgpa: real)
    ensures cgpa == Cgpa(cat, marks, scale)
  {
    var totalCredits := 0;
    var weightedPoints := 0;
    for i := 0 to |cat|
      invariant totalCredits == CountedCredits(cat[..i], marks)
      invariant weightedPoints == WeightedPoints(cat[..i], marks, scale)
    {
      var subject := cat[i];
      if subject.name in marks {
        var m := marks[subject.name];
        var caTotal := CaTotal(m.ct1, m.ct2, m.assignment);
        var totalScore := caTotal + m.midSem + m.endSem;
        var percentage := (totalScore / 100.0) * 100.0;
        var _, gradePoints := LookupGrade(scale, percentage);
        totalCredits := totalCredits + subject.credits;
        weightedPoints := weightedPoints + gradePoints * subject.credits;
      }
      assert cat[..i + 1][..i] == cat[..i];
    }
    assert cat[..|cat|] == cat;
    cgpa := if totalCredits > 0 then weightedPoints as real / totalCredits as real else 0.0;
  }

  /** Subjects weighted 3 and 2 at 85% (AB, 8 points) and 95% (EX, 10
      points) average 8.8. */
  lemma CgpaExample()
    ensures var cat := [Subject("A", 3, ["a"], 1), Subject("B", 2, ["b"], 1)];
            var marks := map["A" := Marks(10.0, 10.0, 0.0, 25.0, 40.0), "B" := Marks(10.0, 10.0, 5.0, 25.0, 50.0)];
            Cgpa(cat, marks, GradeScale) == 8.8
  {
    var cat := [Subject("A", 3, ["a"], 1), Subject("B", 2, ["b"], 1)];
    var marks := map["A" := Marks(10.0, 10.0, 0.0, 25.0, 40.0), "B" := Marks(10.0, 10.0, 5.0, 25.0, 50.0)];
    var a, b := marks["A"], marks["B"];
    assert a == Marks(10.0, 10.0, 0.0, 25.0, 40.0) && b == Marks(10.0, 10.0, 5.0, 25.0, 50.0);
    assert CaTotal(10.0, 10.0, 0.0) == 20.0 && CaTotal(10.0, 10.0, 5.0) == 20.0;
    assert TotalScore(a) == 85.0 && TotalScore(b) == 95.0;
    assert Percentage(a) == 85.0 && Percentage(b) == 95.0;
    LookupFirstMatch(GradeScale, 85.0, 2);
    LookupFirstMatch(GradeScale, 95.0, 0);
    assert SubjectPoints(a, GradeScale) == 8 && SubjectPoints(b, GradeScale) == 10;
    assert SubjectPoints(marks[cat[0].name], GradeScale) == 8;
    assert SubjectPoints(marks[cat[1].name], GradeScale) == 10;
    assert cat[..1][..0] == [] && cat[..2][..1] == cat[..1] && cat[..2] == cat;
    assert CountedCredits(cat[..1], marks) == 3 && WeightedPoints(cat[..1], marks, GradeScale) == 24;
    assert CountedCredits(cat, marks) == 5 && WeightedPoints(cat, marks, GradeScale) == 44;
  }

  /** The store every subject of `cat` starts with: all marks zero, one entry
      per catalog name and no other. */
  function InitialMarks(cat: seq<Subject>): (marks: map<string, Marks>)
    ensures forall i :: 0 <= i < |cat| ==> cat[i].name in marks && marks[cat[i].name] == ZeroMarks
    ensures forall n :: n in marks ==> exists i :: 0 <= i < |cat| && cat[i].name == n
  {
    if cat == [] then map[]
    else InitialMarks(cat[..|cat| - 1])[cat[|cat| - 1].name := ZeroMarks]
  }

  /** Seeds the store as the program does at start-up: one pass over the
      catalog giving every subject all-zero marks. */
  method SeedMarks(cat: seq<Subject>) returns (store: map<string, Marks>)
    ensures store == InitialMarks(cat)
  {
    store := map[];
    for i := 0 to |cat|
      invariant store == InitialMarks(cat[..i])
    {
      store := store[cat[i].name := ZeroMarks];
      assert cat[..i + 1][..i] == cat[..i];
    }
    assert cat[..|cat|] == cat;
  }

  /** A freshly seeded store counts every subject at 0%. When 0% earns no
      points, as on the shipped scale, the average is 0 before any marks are
      entered, although every subject's credits are counted. */
  lemma FreshStoreCgpa(cat: seq<Subject>, scale: seq<GradeBand>)
    requires PositiveCredits(cat)
    requires SubjectPoints(ZeroMarks, scale) == 0
    ensures Cgpa(cat, InitialMarks(cat), scale) == 0.0
    ensures CountedCredits(cat, InitialMarks(cat)) == TotalCredits(cat)
    ensures cat != [] ==> CountedCredits(cat, InitialMarks(cat)) > 0
  {
    var marks := InitialMarks(cat);
    CountedCreditsAll(cat, marks);
    if cat != [] {
      CountedCreditsPositive(cat, marks);
      assert cat[0].name in marks;
    }
    assert PointsWithin(cat, marks, scale, 0, 0) by {
      forall i | 0 <= i < |cat| && cat[i].name in marks
        ensures SubjectPoints(marks[cat[i].name], scale) == 0
      {
        assert marks[cat[i].name] == ZeroMarks;
      }
    }
    CgpaWithinBounds(cat, marks, scale, 0, 0);
  }

  /** On the shipped scale an all-zero entry lands in the catch-all band. */
  lemma ShippedZeroMarks()
    ensures Lookup(GradeScale, Percentage(ZeroMarks)) == Awarded("EF", 0)
  {
    var z := ZeroMarks;
    assert z == Marks(0.0, 0.0, 0.0, 0.0, 0.0);
    assert CaTotal(0.0, 0.0, 0.0) == 0.0;
    assert TotalScore(z) == 0.0;
    assert Percentage(z) == 0.0;
    LookupFirstMatch(GradeScale, 0.0, 10);
  }

  /** What one computation reports for a subject's marks. */
  function Evaluate(m: Marks, scale: seq<GradeBand>, overallCgpa: real): (r: GradeResult)
    ensures r.percentage == r.totalScore == TotalScore(m)
    ensures Awarded(r.grade, r.points) == Lookup(scale, TotalScore(m))
    ensures r.requirement == EndSemRequirement(CaTotal(m.ct1, m.ct2, m.assignment), m.midSem)
    ensures r.overallCgpa == overallCgpa
  {
    var caTotal := CaTotal(m.ct1, m.ct2, m.assignment);
    var awarded := Lookup(scale, Percentage(m));
    GradeResult(TotalScore(m), Percentage(m), awarded.grade, awarded.points,
                EndSemRequirement(caTotal, m.midSem), overallCgpa)
  }

  /** The marks store of the grade calculator, seeded with zeros for every
      catalog subject. */
  class GradeBook {
    var marks: map<string, Marks>

    constructor ()
      ensures marks == InitialMarks(Subjects)
    {
      var store := SeedMarks(Subjects);
      marks := store;
    }

    /** Records the entered marks for `subject`, replacing only that entry,
        and reports its score, grade, end-semester requirement and the overall
        average over the updated store. */
    method CalculateCGPA(subject: string, entered: Marks) returns (result: GradeResult)
      modifies this
      ensures marks == old(marks)[subject := entered]
      ensures result == Evaluate(entered, GradeScale, Cgpa(Subjects, marks, GradeScale))
    {
      marks := marks[subject := entered];
      var caTotal := CaTotal(entered.ct1, entered.ct2, entered.assignment);
      var totalScore := caTotal + entered.midSem + entered.endSem;
      var percentage := (totalScore / 100.0) * 100.0;
      var grade, gradePoints := LookupGrade(GradeScale, percentage);
      var requirement := EndSemRequirement(caTotal, entered.midSem);
      var overall := OverallCgpa(Subjects, marks, GradeScale);
      result := GradeResult(totalScore, percentage, grade, gradePoints, requirement, overall);
    }
  }
}
