/**
 * The order in which the plan generator walks subjects: the catalog list
 * sorted by descending credit weight with a stable sort, so that subjects of
 * equal weight keep their catalog order. The program obtains it from the
 * standard (stable) array sort with the comparator `b.credits - a.credits`;
 * here it is a stable insertion sort.
 */
module CreditOrder {
  import opened Catalog

  /** Places `x` in front of the first element whose weight does not exceed
      its own, which puts it before every element of equal weight. */
  function Insert(x: Subject, r: seq<Subject>): seq<Subject>
  {
    if r == [] || x.credits >= r[0].credits then [x] + r
    else [r[0]] + Insert(x, r[1..])
  }

  /** The subjects in descending credit order, ties in their original order. */
  function SortByCredits(s: seq<Subject>): seq<Subject>
  {
    if s == [] then [] else Insert(s[0], SortByCredits(s[1..]))
  }

  ghost predicate Descending(r: seq<Subject>)
  {
    forall i, j :: 0 <= i < j < |r| ==> r[i].credits >= r[j].credits
  }

  /** The subsequence of subjects that carry exactly `c` credits. */
  function WithCredits(s: seq<Subject>, c: int): seq<Subject>
  {
    if s == [] then [] else (if s[0].credits == c then [s[0]] else []) + WithCredits(s[1..], c)
  }

  lemma {:induction false} InsertPermutation(x: Subject, r: seq<Subject>)
    ensures multiset(Insert(x, r)) == multiset{x} + multiset(r)
    ensures |Insert(x, r)| == |r| + 1
    decreases |r|
  {
    if r != [] && x.credits < r[0].credits {
      InsertPermutation(x, r[1..]);
      assert r == [r[0]] + r[1..];
    }
  }

  lemma {:induction false} InsertDescending(x: Subject, r: seq<Subject>)
    requires Descending(r)
    ensures Descending(Insert(x, r))
    decreases |r|
  {
    if r != [] && x.credits < r[0].credits {
      InsertDescending(x, r[1..]);
      InsertPermutation(x, r[1..]);
      var t := Insert(x, r[1..]);
      forall j | 0 <= j < |t| ensures r[0].credits >= t[j].credits {
        // t[j] is x or an element of r[1..], both weigh at most r[0]
        assert t[j] in multiset{x} + multiset(r[1..]);
      }
    }
  }

  /** The sort yields a descending list that is a permutation of its input. */
  lemma {:induction false} SortIsOrderedPermutation(s: seq<Subject>)
    ensures Descending(SortByCredits(s))
    ensures multiset(SortByCredits(s)) == multiset(s)
    ensures |SortByCredits(s)| == |s|
  {
    if s != [] {
      SortIsOrderedPermutation(s[1..]);
      InsertDescending(s[0], SortByCredits(s[1..]));
      InsertPermutation(s[0], SortByCredits(s[1..]));
      assert s == [s[0]] + s[1..];
    }
  }

  lemma {:induction false} InsertKeepsTies(x: Subject, r: seq<Subject>, c: int)
    requires Descending(r)
    ensures WithCredits(Insert(x, r), c) == WithCredits([x] + r, c)
    decreases |r|
  {
    if r == [] || x.credits >= r[0].credits {
    } else {
      InsertKeepsTies(x, r[1..], c);
      assert Descending(r[1..]);
      var t := Insert(x, r[1..]);
      assert ([r[0]] + t)[1..] == t;
      assert ([x] + r)[1..] == r;
      assert ([x] + r[1..])[1..] == r[1..];
      assert r == [r[0]] + r[1..];
    }
  }

  /** Stability: for every weight, the subjects of that weight appear in the
      sorted list exactly as, and in the order, they appear in the input. */
  lemma {:induction false} SortIsStable(s: seq<Subject>, c: int)
    ensures WithCredits(SortByCredits(s), c) == WithCredits(s, c)
  {
    if s != [] {
      SortIsStable(s[1..], c);
      SortIsOrderedPermutation(s[1..]);
      InsertKeepsTies(s[0], SortByCredits(s[1..]), c);
      var t := SortByCredits(s[1..]);
      assert ([s[0]] + t)[1..] == t;
    }
  }

  lemma {:induction false} CountsSplit(a: seq<Subject>, b: seq<Subject>)
    ensures ChapterCount(a + b) == ChapterCount(a) + ChapterCount(b)
    ensures DeclaredTotal(a + b) == DeclaredTotal(a) + DeclaredTotal(b)
    decreases |b|
  {
    if b == [] {
      assert a + b == a;
    } else {
      CountsSplit(a, b[..|b| - 1]);
      assert (a + b)[..|a + b| - 1] == a + b[..|b| - 1];
    }
  }

  lemma {:induction false} InsertCounts(x: Subject, r: seq<Subject>)
    ensures ChapterCount(Insert(x, r)) == |x.chapters| + ChapterCount(r)
    ensures DeclaredTotal(Insert(x, r)) == x.totalChapters + DeclaredTotal(r)
    decreases |r|
  {
    assert [x][..0] == [];
    if r == [] || x.credits >= r[0].credits {
      CountsSplit([x], r);
    } else {
      InsertCounts(x, r[1..]);
      CountsSplit([r[0]], Insert(x, r[1..]));
      CountsSplit([r[0]], r[1..]);
      assert [r[0]][..0] == [];
      assert r == [r[0]] + r[1..];
    }
  }

  /** Sorting neither adds nor loses chapters, counted either way. */
  lemma {:induction false} SortKeepsCounts(s: seq<Subject>)
    ensures ChapterCount(SortByCredits(s)) == ChapterCount(s)
    ensures DeclaredTotal(SortByCredits(s)) == DeclaredTotal(s)
  {
    if s != [] {
      SortKeepsCounts(s[1..]);
      InsertCounts(s[0], SortByCredits(s[1..]));
      CountsSplit([s[0]], s[1..]);
      assert [s[0]][..0] == [];
      assert s == [s[0]] + s[1..];
    }
  }

  /** A well-formed catalog stays well formed once sorted. */
  lemma SortKeepsWellFormed(s: seq<Subject>)
    requires WellFormed(s)
    ensures WellFormed(SortByCredits(s))
  {
    SortIsOrderedPermutation(s);
    var r := SortByCredits(s);
    forall i | 0 <= i < |r| ensures r[i].totalChapters == |r[i].chapters| {
      assert r[i] in multiset(s);
      var j :| 0 <= j < |s| && s[j] == r[i];
    }
  }
}
