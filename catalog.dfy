/** Option type used for inputs that may be missing. */
module Wrappers {
  datatype Option<+T> = None | Some(value: T)
}

/**
 * The reference catalog of the study planner: the subjects with their credit
 * weights and ordered chapter lists, and the grade scale. Both are kept in
 * the insertion order of the program's object literals, which is the order
 * the program iterates them in.
 */
module Catalog {

  /** A catalog subject. `totalChapters` is the denormalised chapter count the
      program stores beside the chapter list. */
  datatype Subject = Subject(name: string, credits: int, chapters: seq<string>, totalChapters: nat)

  /** One row of the grade scale: a grade label, the inclusive minimum percentage and
      the grade points the row awards. */
  datatype GradeBand = GradeBand(grade: string, min: int, points: int)

  /** Every subject's stored chapter count agrees with its chapter list. */
  ghost predicate WellFormed(cat: seq<Subject>)
  {
    forall i :: 0 <= i < |cat| ==> cat[i].totalChapters == |cat[i].chapters|
  }

  /** Number of chapters actually listed, summed over a list of subjects. */
  function ChapterCount(subs: seq<Subject>): nat
  {
    if subs == [] then 0 else ChapterCount(subs[..|subs| - 1]) + |subs[|subs| - 1].chapters|
  }

  /** Sum of the stored `totalChapters` fields (the program's `reduce`). */
  function DeclaredTotal(subs: seq<Subject>): nat
  {
    if subs == [] then 0 else DeclaredTotal(subs[..|subs| - 1]) + subs[|subs| - 1].totalChapters
  }

  /** The six subjects of the semester, in catalog order. */
  const Subjects: seq<Subject> := [
    Subject("Engineering Mathematics-III", 3,
      ["Laplace Transforms", "Fourier Series", "Partial Differential Equations",
       "Z-Transforms", "Functions of Complex Variables"], 5),
    Subject("Data Structures", 3,
      ["Data, Data types, Arrays and Hash Tables", "Stacks and Queues", "Linked Lists",
       "Trees and Graphs", "Searching and Sorting"], 5),
    Subject("Discrete Mathematics", 3,
      ["Propositional Logic and Predicates", "Set Theory, Functions and Relations",
       "Combinatorics", "Graph Theory and Trees", "Algebraic Structures"], 5),
    Subject("Object-Oriented Programming", 2,
      ["Introduction to Classes and Objects", "Control Statements and Arrays",
       "Inheritance and Polymorphism", "Exception Handling"], 4),
    Subject("Digital Electronics", 2,
      ["Introduction and Logic Gates", "Number Systems", "Combinational Logic Design",
       "Design Examples and Circuits", "Sequential Circuits and Systems"], 5),
    Subject("Universal Human Values - II", 2,
      ["Introduction to Value Education", "Harmony in the Human Being",
       "Harmony in the Family and Society", "Harmony in Nature",
       "Professional Ethics and Applications"], 5)
  ]

  /** The grade scale in table order (the second grade label really carries a
      trailing backquote in the program). */
  const GradeScale: seq<GradeBand> := [
    GradeBand("EX", 91, 10),
    GradeBand("AA`", 86, 9),
    GradeBand("AB", 81, 8),
    GradeBand("BB", 76, 7),
    GradeBand("BC", 71, 6),
    GradeBand("CC", 66, 5),
    GradeBand("CD", 61, 4),
    GradeBand("DD", 56, 0),
    GradeBand("DE", 51, 0),
    GradeBand("EE", 40, 0),
    GradeBand("EF", 0, 0)
  ]

  /** Thresholds strictly descend along the table. */
  ghost predicate DescendingThresholds(scale: seq<GradeBand>)
  {
    forall i, j :: 0 <= i < j < |scale| ==> scale[i].min > scale[j].min
  }

  /** Grade points never increase along the table. */
  ghost predicate PointsNonIncreasing(scale: seq<GradeBand>)
  {
    forall i, j :: 0 <= i < j < |scale| ==> scale[i].points >= scale[j].points
  }

  /** The shipped catalog: its counts are consistent and it lists 29 chapters. */
  lemma ShippedSubjects()
    ensures WellFormed(Subjects)
    ensures ChapterCount(Subjects) == 29 && DeclaredTotal(Subjects) == 29
    ensures forall i :: 0 <= i < |Subjects| ==> Subjects[i].credits > 0
  {
    var s := Subjects;
    assert s[..0] == [] && DeclaredTotal(s[..0]) == 0;
    assert s[..1][..0] == s[..0];
    assert s[..2][..1] == s[..1];
    assert s[..3][..2] == s[..2];
    assert s[..4][..3] == s[..3];
    assert s[..5][..4] == s[..4];
    assert s[..6][..5] == s[..5];
    assert s[..6] == s;
    assert ChapterCount(s[..1]) == 5 && DeclaredTotal(s[..1]) == 5;
    assert ChapterCount(s[..2]) == 10 && DeclaredTotal(s[..2]) == 10;
    assert ChapterCount(s[..3]) == 15 && DeclaredTotal(s[..3]) == 15;
    assert ChapterCount(s[..4]) == 19 && DeclaredTotal(s[..4]) == 19;
    assert ChapterCount(s[..5]) == 24 && DeclaredTotal(s[..5]) == 24;
  }

  /** Neighbouring rows in order put the whole table in order. */
  lemma {:induction false} ChainedScale(scale: seq<GradeBand>)
    requires forall k :: 0 <= k < |scale| - 1 ==> scale[k].min > scale[k + 1].min
    requires forall k :: 0 <= k < |scale| - 1 ==> scale[k].points >= scale[k + 1].points
    ensures DescendingThresholds(scale) && PointsNonIncreasing(scale)
  {
    if |scale| > 1 {
      var tail := scale[1..];
      ChainedScale(tail);
      forall j | 1 <= j < |scale|
        ensures scale[0].min > scale[j].min && scale[0].points >= scale[j].points
      {
        assert tail[0] == scale[1] && tail[j - 1] == scale[j];
      }
    }
  }

  /** The shipped grade scale is sorted by descending threshold, ends in a
      catch-all band at 0, its points descend from 10 to 0, and every label
      has at least two characters (so none is the single-letter fallback). */
  lemma ShippedGradeScale()
    ensures DescendingThresholds(GradeScale)
    ensures PointsNonIncreasing(GradeScale)
    ensures GradeScale[|GradeScale| - 1].min == 0
    ensures forall i :: 0 <= i < |GradeScale| ==> 0 <= GradeScale[i].points <= 10
    ensures forall i :: 0 <= i < |GradeScale| ==> |GradeScale[i].grade| >= 2
  {
    ChainedScale(GradeScale);
  }
}
