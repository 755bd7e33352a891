/**
 * The reference definition of a study plan. Dates are whole day numbers: the
 * day after `d` is `d + 1`, and the number of days between a start date and an
 * exam date is their difference.
 *
 * A plan is a work queue of chapter assignments cut into days: every day takes
 * the next `perDay` assignments (fewer on the last), days are numbered
 * consecutively from a first date, at most `days` of them are produced, and
 * what does not fit is not scheduled.
 */
module PlanSpec {
  import opened Catalog
  import opened CreditOrder

  datatype Mode = Easy | Normal | Intense
  datatype Priority = High | Medium | Low
  datatype Assignment = Assignment(subject: string, chapter: string, priority: Priority)
  datatype DayPlan = DayPlan(date: int, items: seq<Assignment>)

  /** Length of the crash schedule. */
  const IntenseDays := 7

  /** The mode selector value; anything that is neither "intense" nor "easy"
      is scheduled like "normal". */
  function ParseMode(s: string): (m: Mode)
    ensures m == Intense <==> s == "intense"
    ensures m == Easy <==> s == "easy"
  {
    if s == "intense" then Intense else if s == "easy" then Easy else Normal
  }

  /** Chapters per day in the easy and normal modes. */
  function ChaptersPerDay(mode: Mode): nat
  {
    if mode == Easy then 1 else 2
  }

  /** The priority tag of a chapter: the crash schedule knows only high and
      medium, the other modes also low. */
  function PriorityFor(mode: Mode, credits: int): (p: Priority)
    ensures p == High <==> credits >= 3
    ensures mode == Intense ==> p != Low
    ensures mode != Intense ==> (p == Medium <==> credits == 2)
  {
    if credits >= 3 then High
    else if mode == Intense || credits == 2 then Medium
    else Low
  }

  /** One assignment per chapter of `sub`, in chapter order. */
  function Items(sub: Subject, mode: Mode): seq<Assignment>
  {
    seq(|sub.chapters|, k requires 0 <= k < |sub.chapters| =>
      Assignment(sub.name, sub.chapters[k], PriorityFor(mode, sub.credits)))
  }

  /** The work queue: every subject's chapters, subject after subject. */
  function Queue(subs: seq<Subject>, mode: Mode): seq<Assignment>
  {
    if subs == [] then [] else Queue(subs[..|subs| - 1], mode) + Items(subs[|subs| - 1], mode)
  }

  function Min(a: int, b: int): int { if a <= b then a else b }
  function Max(a: int, b: int): int { if a >= b then a else b }

  /** `a / b` rounded up. */
  function CeilDiv(a: nat, b: nat): nat
    requires b > 0
  {
    (a + b - 1) / b
  }

  /** Cuts `q` into at most `days` days of `perDay` assignments, dated from
      `date` on; empty days are never produced. */
  function Distribute(q: seq<Assignment>, perDay: nat, date: int, days: int): seq<DayPlan>
    decreases |q|
  {
    if days <= 0 || q == [] || perDay == 0 then []
    else
      var n := Min(perDay, |q|);
      [DayPlan(date, q[..n])] + Distribute(q[n..], perDay, date + 1, days - 1)
  }

  /** All the assignments of a plan, day after day. */
  function Scheduled(plan: seq<DayPlan>): seq<Assignment>
  {
    if plan == [] then [] else plan[0].items + Scheduled(plan[1..])
  }

  /** The plan the generator produces for a catalog, a mode and two dates. The
      crash schedule occupies the seven days before the exam whatever the start
      date, with the per-day quota computed from the stored chapter totals. */
  function Plan(cat: seq<Subject>, mode: Mode, startDate: int, examDate: int): seq<DayPlan>
  {
    var sorted := SortByCredits(cat);
    if mode == Intense then
      Distribute(Queue(sorted, Intense), CeilDiv(DeclaredTotal(sorted), IntenseDays),
                 examDate - IntenseDays, IntenseDays)
    else
      Distribute(Queue(sorted, mode), ChaptersPerDay(mode), startDate, examDate - startDate)
  }

  // ---------------------------------------------------------------------------
  // The work queue

  lemma {:induction false} QueueLength(subs: seq<Subject>, mode: Mode)
    ensures |Queue(subs, mode)| == ChapterCount(subs)
  {
    if subs != [] {
      QueueLength(subs[..|subs| - 1], mode);
    }
  }

  lemma {:induction false} QueuePrefix(subs: seq<Subject>, j: nat, mode: Mode)
    requires j <= |subs|
    ensures Queue(subs[..j], mode) <= Queue(subs, mode)
    decreases |subs|
  {
    if j < |subs| {
      QueuePrefix(subs[..|subs| - 1], j, mode);
      assert subs[..|subs| - 1][..j] == subs[..j];
    } else {
      assert subs[..j] == subs;
    }
  }

  /** Chapter `c` of the `j`-th subject sits in the queue right after the
      chapters of the subjects before it, tagged with its subject's name and
      the priority the mode gives that subject's weight. */
  lemma QueueAt(subs: seq<Subject>, mode: Mode, j: nat, c: nat)
    requires j < |subs| && c < |subs[j].chapters|
    ensures |Queue(subs[..j], mode)| + c < |Queue(subs, mode)|
    ensures Queue(subs, mode)[|Queue(subs[..j], mode)| + c]
         == Assignment(subs[j].name, subs[j].chapters[c], PriorityFor(mode, subs[j].credits))
  {
    QueuePrefix(subs, j + 1, mode);
    assert subs[..j + 1][..j] == subs[..j];
    assert Queue(subs[..j + 1], mode) == Queue(subs[..j], mode) + Items(subs[j], mode);
  }

  /** The crash schedule's queue tags every chapter high or medium, never low. */
  lemma {:induction false} IntenseNeverLow(subs: seq<Subject>)
    ensures forall k :: 0 <= k < |Queue(subs, Intense)| ==>
      Queue(subs, Intense)[k].priority in {High, Medium}
  {
    if subs != [] {
      var init, last := subs[..|subs| - 1], subs[|subs| - 1];
      IntenseNeverLow(init);
      forall k | 0 <= k < |Items(last, Intense)|
        ensures Items(last, Intense)[k].priority in {High, Medium}
      {
        assert Items(last, Intense)[k].priority == PriorityFor(Intense, last.credits);
      }
    }
  }

  /** The queue position at which subject `j`'s chapters start advances by that
      subject's chapter count. */
  lemma QueueStep(subs: seq<Subject>, mode: Mode, j: nat)
    requires j < |subs|
    ensures |Queue(subs[..j + 1], mode)| == |Queue(subs[..j], mode)| + |subs[j].chapters|
  {
    assert subs[..j + 1][..j] == subs[..j];
  }

  // ---------------------------------------------------------------------------
  // Distribution into days

  /** Days are dated consecutively from the first date, none is empty, none
      exceeds the quota, every day but the last is filled to the quota, and
      there are at most `days` of them. */
  lemma {:induction false} DistributeShape(q: seq<Assignment>, perDay: nat, date: int, days: int)
    ensures |Distribute(q, perDay, date, days)| <= Max(days, 0)
    ensures forall k :: 0 <= k < |Distribute(q, perDay, date, days)| ==>
      Distribute(q, perDay, date, days)[k].date == date + k &&
      0 < |Distribute(q, perDay, date, days)[k].items| <= perDay
    ensures forall k :: 0 <= k < |Distribute(q, perDay, date, days)| - 1 ==>
      |Distribute(q, perDay, date, days)[k].items| == perDay
    decreases |q|
  {
    if days <= 0 || q == [] || perDay == 0 {
    } else {
      var n := Min(perDay, |q|);
      DistributeShape(q[n..], perDay, date + 1, days - 1);
      if n < perDay {
        assert q[n..] == [];
      }
    }
  }

  /** One day of a distribution: the next `Min(perDay, |q|)` assignments,
      if there are any, then the rest from the following date on. */
  lemma DistributeDay(q: seq<Assignment>, perDay: nat, date: int, days: int, n: nat)
    requires days > 0 && n == Min(perDay, |q|)
    ensures Distribute(q, perDay, date, days)
         == (if n == 0 then [] else [DayPlan(date, q[..n])]) + Distribute(q[n..], perDay, date + 1, days - 1)
  {
    if n == 0 {
      assert q[n..] == q;
    }
  }

  /** How many chapters `days` days of `perDay` chapters can hold. */
  function Capacity(days: int, perDay: nat): (c: nat)
    ensures c == Max(days, 0) * perDay
    decreases days
  {
    if days <= 0 then 0
    else
      assert Max(days, 0) * perDay == Max(days - 1, 0) * perDay + perDay;
      Capacity(days - 1, perDay) + perDay
  }

  /** What gets scheduled is exactly the front of the queue that fits into
      `days` days of `perDay` chapters. */
  lemma {:induction false} DistributeSchedulesPrefix(q: seq<Assignment>, perDay: nat, date: int, days: int)
    requires perDay > 0
    ensures Scheduled(Distribute(q, perDay, date, days)) == q[..Min(|q|, Capacity(days, perDay))]
    decreases |q|
  {
    if days > 0 && q != [] {
      var n := Min(perDay, |q|);
      var rest := Distribute(q[n..], perDay, date + 1, days - 1);
      DistributeDay(q, perDay, date, days, n);
      DistributeSchedulesPrefix(q[n..], perDay, date + 1, days - 1);
      var plan := [DayPlan(date, q[..n])] + rest;
      assert plan[1..] == rest;
      assert Scheduled(plan) == q[..n] + q[n..][..Min(|q| - n, Capacity(days - 1, perDay))];
      assert Capacity(days, perDay) == Capacity(days - 1, perDay) + perDay;
    }
  }

  lemma MulAtLeast(k: int, b: int)
    requires k >= 1 && b > 0
    ensures k * b >= b
    decreases k
  {
    if k > 1 {
      MulAtLeast(k - 1, b);
      assert k * b == (k - 1) * b + b;
    }
  }

  lemma DivUnique(x: int, b: int, d: int, m: int)
    requires b > 0 && 0 <= m < b && x == d * b + m
    ensures x / b == d
  {
    var d', m' := x / b, x % b;
    assert x == d' * b + m';
    assert d * b - d' * b == m' - m;
    assert (d - d') * b == d * b - d' * b;
    if d' < d {
      MulAtLeast(d - d', b);
    } else if d' > d {
      MulAtLeast(d' - d, b);
    }
  }

  lemma CeilDivStep(a: nat, b: nat)
    requires b > 0 && a > b
    ensures CeilDiv(a, b) == CeilDiv(a - b, b) + 1
  {
    var k := a - b + b - 1;
    var d, m := k / b, k % b;
    assert k + b == (d + 1) * b + m;
    DivUnique(k + b, b, d + 1, m);
  }

  lemma CeilDivSmall(a: nat, b: nat)
    requires 0 < a <= b
    ensures CeilDiv(a, b) == 1
  {
  }

  /** The number of days is the number needed for the whole queue, capped at
      `days`. */
  lemma {:induction false} DistributeLength(q: seq<Assignment>, perDay: nat, date: int, days: int)
    requires perDay > 0
    ensures |Distribute(q, perDay, date, days)| == Min(Max(days, 0), CeilDiv(|q|, perDay))
    decreases |q|
  {
    if days <= 0 || q == [] {
    } else {
      var n := Min(perDay, |q|);
      var rest := Distribute(q[n..], perDay, date + 1, days - 1);
      assert |Distribute(q, perDay, date, days)| == 1 + |rest|;
      DistributeLength(q[n..], perDay, date + 1, days - 1);
      if |q| <= perDay {
        CeilDivSmall(|q|, perDay);
        assert q[n..] == [] && rest == [];
      } else {
        CeilDivStep(|q|, perDay);
        assert |q[n..]| == |q| - perDay;
      }
    }
  }

  lemma CeilDivCovers(a: nat, b: nat)
    requires b > 0
    ensures CeilDiv(a, b) * b >= a
  {
    var k := a + b - 1;
    assert k == (k / b) * b + k % b;
  }

  // ---------------------------------------------------------------------------
  // Properties of the generated plan

  /** Easy and normal modes: consecutive days from the start date, each holding
      one (easy) or at most two (normal) chapters and never none; together they
      schedule the front of the credit-ordered queue that fits before the exam,
      and the plan has as many days as that takes. */
  lemma EasyNormalPlan(cat: seq<Subject>, mode: Mode, startDate: int, examDate: int)
    requires mode != Intense
    ensures var plan := Plan(cat, mode, startDate, examDate);
            var q := Queue(SortByCredits(cat), mode);
            var perDay := ChaptersPerDay(mode);
            && (forall k :: 0 <= k < |plan| ==>
                  plan[k].date == startDate + k && 0 < |plan[k].items| <= perDay)
            && (forall k :: 0 <= k < |plan| - 1 ==> |plan[k].items| == perDay)
            && Scheduled(plan) == q[..Min(|q|, Capacity(examDate - startDate, perDay))]
            && |plan| == Min(Max(examDate - startDate, 0), CeilDiv(|q|, perDay))
  {
    var q := Queue(SortByCredits(cat), mode);
    var perDay := ChaptersPerDay(mode);
    var days := examDate - startDate;
    var plan := Distribute(q, perDay, startDate, days);
    assert Plan(cat, mode, startDate, examDate) == plan;
    DistributeShape(q, perDay, startDate, days);
    DistributeSchedulesPrefix(q, perDay, startDate, days);
    DistributeLength(q, perDay, startDate, days);
  }

  /** Easy mode with at least as many days as chapters: every chapter of the
      catalog is scheduled, one per day, in queue order. */
  lemma EasyCoversEverything(cat: seq<Subject>, startDate: int, examDate: int)
    requires examDate - startDate >= ChapterCount(cat)
    ensures var plan := Plan(cat, Easy, startDate, examDate);
            && Scheduled(plan) == Queue(SortByCredits(cat), Easy)
            && |plan| == ChapterCount(cat)
            && forall k :: 0 <= k < |plan| ==> |plan[k].items| == 1
  {
    var q := Queue(SortByCredits(cat), Easy);
    QueueLength(SortByCredits(cat), Easy);
    SortKeepsCounts(cat);
    EasyNormalPlan(cat, Easy, startDate, examDate);
    assert q[..|q|] == q;
    if |q| > 0 {
      assert CeilDiv(|q|, 1) == |q|;
    }
  }

  /** Normal mode never needs more than half the chapter count (rounded up)
      days. */
  lemma NormalDayCount(cat: seq<Subject>, startDate: int, examDate: int)
    ensures |Plan(cat, Normal, startDate, examDate)| <= CeilDiv(ChapterCount(cat), 2)
  {
    QueueLength(SortByCredits(cat), Normal);
    SortKeepsCounts(cat);
    EasyNormalPlan(cat, Normal, startDate, examDate);
  }

  /** Intense mode: at most seven days, dated consecutively from seven days
      before the exam whatever the start date, each holding between one and
      the quota of chapters. */
  lemma IntenseWindow(cat: seq<Subject>, startDate: int, examDate: int)
    ensures var plan := Plan(cat, Intense, startDate, examDate);
            var quota := CeilDiv(DeclaredTotal(cat), IntenseDays);
            && |plan| <= IntenseDays
            && (forall k :: 0 <= k < |plan| ==>
                  plan[k].date == examDate - IntenseDays + k && 0 < |plan[k].items| <= quota)
            && (forall k :: 0 <= k < |plan| - 1 ==> |plan[k].items| == quota)
            && (forall otherStart :: Plan(cat, Intense, otherStart, examDate) == plan)
  {
    var sorted := SortByCredits(cat);
    SortKeepsCounts(cat);
    DistributeShape(Queue(sorted, Intense), CeilDiv(DeclaredTotal(sorted), IntenseDays),
                    examDate - IntenseDays, IntenseDays);
  }

  /** Intense mode on a consistent catalog schedules every chapter exactly
      once, in credit order and chapter order. */
  lemma {:induction false} IntenseCoversEverything(cat: seq<Subject>, startDate: int, examDate: int)
    requires WellFormed(cat)
    ensures Scheduled(Plan(cat, Intense, startDate, examDate)) == Queue(SortByCredits(cat), Intense)
  {
    var sorted := SortByCredits(cat);
    var q := Queue(sorted, Intense);
    SortKeepsWellFormed(cat);
    WellFormedTotals(sorted);
    QueueLength(sorted, Intense);
    var quota := CeilDiv(DeclaredTotal(sorted), IntenseDays);
    if |q| == 0 {
      assert Distribute(q, quota, examDate - IntenseDays, IntenseDays) == [];
    } else {
      CeilDivCovers(|q|, IntenseDays);
      assert quota > 0;
      DistributeSchedulesPrefix(q, quota, examDate - IntenseDays, IntenseDays);
      assert q[..|q|] == q;
    }
  }

  /** On a consistent catalog the stored totals add up to the chapters listed. */
  lemma {:induction false} WellFormedTotals(subs: seq<Subject>)
    requires WellFormed(subs)
    ensures DeclaredTotal(subs) == ChapterCount(subs)
  {
    if subs != [] {
      assert WellFormed(subs[..|subs| - 1]);
      WellFormedTotals(subs[..|subs| - 1]);
    }
  }

  /** With the shipped catalog (29 chapters, five a day) the crash schedule
      fills only six days: it ends two days before the exam, not one. */
  lemma ShippedIntensePlan(startDate: int, examDate: int)
    ensures var plan := Plan(Subjects, Intense, startDate, examDate);
            |plan| == 6 && plan[5].date == examDate - 2
  {
    var sorted := SortByCredits(Subjects);
    ShippedSubjects();
    SortKeepsCounts(Subjects);
    QueueLength(sorted, Intense);
    var q := Queue(sorted, Intense);
    assert CeilDiv(DeclaredTotal(sorted), IntenseDays) == 5;
    DistributeLength(q, 5, examDate - IntenseDays, IntenseDays);
    assert CeilDiv(29, 5) == 6;
    DistributeShape(q, 5, examDate - IntenseDays, IntenseDays);
  }
}
