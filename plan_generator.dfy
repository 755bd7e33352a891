/**
 * The study-plan generator as the program runs it: a queue built with nested
 * loops and drained from the front for the easy and normal modes, and a
 * subject cursor and a chapter cursor walked day by day for the crash
 * schedule. Each method is proved to produce the plan `PlanSpec` defines.
 */
module PlanGenerator {
  import opened Wrappers
  import opened Catalog
  import opened CreditOrder
  import opened PlanSpec

  /** Flattens the sorted subjects' chapters into one work queue. */
  method BuildQueue(sorted: seq<Subject>, mode: Mode) returns (queue: seq<Assignment>)
    ensures queue == Queue(sorted, mode)
  {
    queue := [];
    for i := 0 to |sorted|
      invariant queue == Queue(sorted[..i], mode)
    {
      var subject := sorted[i];
      for j := 0 to |subject.chapters|
        invariant queue == Queue(sorted[..i], mode) + Items(subject, mode)[..j]
      {
        queue := queue + [Assignment(subject.name, subject.chapters[j], PriorityFor(mode, subject.credits))];
        assert Items(subject, mode)[..j + 1] == Items(subject, mode)[..j] + [Items(subject, mode)[j]];
      }
      assert Items(subject, mode)[..|subject.chapters|] == Items(subject, mode);
      assert sorted[..i + 1][..i] == sorted[..i];
    }
    assert sorted[..|sorted|] == sorted;
  }

  /** Taking the next day's share `today == q[pos..next]` off the front keeps
      a partial plan in step with the distribution it is building. */
  lemma DayStep(q: seq<Assignment>, perDay: nat, date: int, days: int, plan: seq<DayPlan>,
                extended: seq<DayPlan>, target: seq<DayPlan>, pos: nat, next: nat, today: seq<Assignment>)
    requires pos <= next <= |q| && days > 0 && next - pos == Min(perDay, |q| - pos)
    requires today == q[pos..next]
    requires extended == if |today| > 0 then plan + [DayPlan(date, today)] else plan
    requires plan + Distribute(q[pos..], perDay, date, days) == target
    ensures extended + Distribute(q[next..], perDay, date + 1, days - 1) == target
  {
    var rest, n := q[pos..], next - pos;
    assert rest[..n] == today && rest[n..] == q[next..];
    DistributeDay(rest, perDay, date, days, n);
    var later := Distribute(q[next..], perDay, date + 1, days - 1);
    if n > 0 {
      assert plan + [DayPlan(date, today)] + later == plan + ([DayPlan(date, today)] + later);
    } else {
      assert |today| == 0;
    }
  }

  /** `DayStep` for a day taken off the front of what is left of the queue. */
  lemma FrontStep(q: seq<Assignment>, perDay: nat, date: int, days: int, plan: seq<DayPlan>,
                  extended: seq<DayPlan>, target: seq<DayPlan>, today: seq<Assignment>, rest: seq<Assignment>)
    requires days > 0
    requires today == q[..Min(perDay, |q|)] && rest == q[Min(perDay, |q|)..]
    requires extended == if |today| > 0 then plan + [DayPlan(date, today)] else plan
    requires plan + Distribute(q, perDay, date, days) == target
    ensures extended + Distribute(rest, perDay, date + 1, days - 1) == target
  {
    assert q[0..] == q;
    DayStep(q, perDay, date, days, plan, extended, target, 0, Min(perDay, |q|), today);
  }

  /** Once the days or the queue are used up, the partial plan is the whole
      distribution. */
  lemma DrainDone(q: seq<Assignment>, perDay: nat, date: int, days: int, plan: seq<DayPlan>, target: seq<DayPlan>)
    requires days <= 0 || q == []
    requires plan + Distribute(q, perDay, date, days) == target
    ensures plan == target
  {
    assert Distribute(q, perDay, date, days) == [];
    assert plan + [] == plan;
  }

  /** One day of the easy and normal modes: moves up to `perDay` assignments
      from the front of the queue into the day's list. */
  method TakeDay(queue: seq<Assignment>, perDay: nat) returns (today: seq<Assignment>, remaining: seq<Assignment>)
    ensures var n := Min(perDay, |queue|);
            today == queue[..n] && remaining == queue[n..]
  {
    today := [];
    remaining := queue;
    var i := 0;
    while i < perDay && |remaining| > 0
      invariant i <= perDay && i <= |queue|
      invariant today == queue[..i] && remaining == queue[i..]
    {
      today := today + [remaining[0]];
      remaining := remaining[1..];
      i := i + 1;
    }
  }

  /** Takes up to `perDay` assignments off the front of the queue for each of
      at most `days` days, starting at `startDate`, and keeps the non-empty
      days. */
  method DrainQueue(queue: seq<Assignment>, perDay: nat, startDate: int, days: int)
    returns (plan: seq<DayPlan>)
    ensures plan == Distribute(queue, perDay, startDate, days)
  {
    plan := [];
    var remaining := queue;
    var date := startDate;
    var day := 0;
    ghost var target := Distribute(queue, perDay, startDate, days);
    while day < days && |remaining| > 0
      invariant date == startDate + day
      invariant plan + Distribute(remaining, perDay, date, days - day) == target
      decreases days - day
    {
      ghost var atDayStart, before := remaining, plan;
      var today;
      today, remaining := TakeDay(remaining, perDay);
      if |today| > 0 {
        plan := plan + [DayPlan(date, today)];
      }
      FrontStep(atDayStart, perDay, date, days - day, before, plan, target, today, remaining);
      date := date + 1;
      day := day + 1;
    }
    DrainDone(remaining, perDay, date, days - day, plan, target);
  }

  /** A consistent pair of cursors: a subject index and a chapter index
      within that subject (zero once every subject is done). */
  ghost predicate CursorOk(sorted: seq<Subject>, subjectIndex: int, chapterIndex: int)
  {
    && 0 <= subjectIndex <= |sorted| && 0 <= chapterIndex
    && (subjectIndex < |sorted| ==> chapterIndex <= |sorted[subjectIndex].chapters|)
    && (subjectIndex == |sorted| ==> chapterIndex == 0)
  }

  /** The queue position a pair of cursors points at. */
  ghost function Position(sorted: seq<Subject>, subjectIndex: int, chapterIndex: int): int
    requires CursorOk(sorted, subjectIndex, chapterIndex)
  {
    |Queue(sorted[..subjectIndex], Intense)| + chapterIndex
  }

  lemma PositionBound(sorted: seq<Subject>, subjectIndex: int, chapterIndex: int)
    requires CursorOk(sorted, subjectIndex, chapterIndex)
    ensures Position(sorted, subjectIndex, chapterIndex) <= |Queue(sorted, Intense)|
  {
    if subjectIndex < |sorted| {
      QueueStep(sorted, Intense, subjectIndex);
      QueuePrefix(sorted, subjectIndex + 1, Intense);
    } else {
      assert sorted[..subjectIndex] == sorted;
    }
  }

  /** Taking the chapter under the cursors extends the day by the next queue
      entry. */
  lemma TakeStep(sorted: seq<Subject>, subjectIndex: nat, chapterIndex: nat, dayStart: nat, today: seq<Assignment>)
    requires CursorOk(sorted, subjectIndex, chapterIndex)
    requires subjectIndex < |sorted| && chapterIndex < |sorted[subjectIndex].chapters|
    requires dayStart <= Position(sorted, subjectIndex, chapterIndex) <= |Queue(sorted, Intense)|
    requires today == Queue(sorted, Intense)[dayStart..Position(sorted, subjectIndex, chapterIndex)]
    ensures Position(sorted, subjectIndex, chapterIndex) < |Queue(sorted, Intense)|
    ensures today + [Assignment(sorted[subjectIndex].name, sorted[subjectIndex].chapters[chapterIndex],
                                PriorityFor(Intense, sorted[subjectIndex].credits))]
         == Queue(sorted, Intense)[dayStart..Position(sorted, subjectIndex, chapterIndex) + 1]
  {
    var q, pos := Queue(sorted, Intense), Position(sorted, subjectIndex, chapterIndex);
    QueueAt(sorted, Intense, subjectIndex, chapterIndex);
    assert q[dayStart..pos + 1] == q[dayStart..pos] + [q[pos]];
  }

  /** Moving past a finished subject leaves the queue position unchanged. */
  lemma AdvanceStep(sorted: seq<Subject>, subjectIndex: nat, chapterIndex: nat)
    requires CursorOk(sorted, subjectIndex, chapterIndex) && subjectIndex < |sorted|
    requires chapterIndex >= |sorted[subjectIndex].chapters|
    ensures CursorOk(sorted, subjectIndex + 1, 0)
    ensures Position(sorted, subjectIndex + 1, 0) == Position(sorted, subjectIndex, chapterIndex)
  {
    QueueStep(sorted, Intense, subjectIndex);
  }

  /** One day of the crash schedule: walks the cursors forward, taking
      chapters until the quota is met or every subject is exhausted. The day
      receives the next `Min(quota, what is left)` chapters of the queue. */
  method FillDay(sorted: seq<Subject>, chaptersPerDay: nat, subjectIndex0: nat, chapterIndex0: nat,
                 ghost q: seq<Assignment>, ghost dayStart: nat)
    returns (today: seq<Assignment>, subjectIndex: nat, chapterIndex: nat, ghost pos: nat)
    requires q == Queue(sorted, Intense)
    requires CursorOk(sorted, subjectIndex0, chapterIndex0)
    requires dayStart == Position(sorted, subjectIndex0, chapterIndex0)
    ensures CursorOk(sorted, subjectIndex, chapterIndex) && pos == Position(sorted, subjectIndex, chapterIndex)
    ensures dayStart <= pos <= |q| && pos - dayStart == Min(chaptersPerDay, |q| - dayStart)
    ensures today == q[dayStart..pos]
  {
    PositionBound(sorted, subjectIndex0, chapterIndex0);
    subjectIndex, chapterIndex := subjectIndex0, chapterIndex0;
    pos := dayStart;
    today := [];
    var chaptersToday := 0;
    while chaptersToday < chaptersPerDay && subjectIndex < |sorted|
      invariant CursorOk(sorted, subjectIndex, chapterIndex)
      invariant pos == Position(sorted, subjectIndex, chapterIndex)
      invariant dayStart <= pos <= |q|
      invariant today == q[dayStart..pos]
      invariant chaptersToday == |today| <= chaptersPerDay
      decreases |q| - pos, |sorted| - subjectIndex
    {
      var subject := sorted[subjectIndex];
      if chapterIndex < |subject.chapters| {
        TakeStep(sorted, subjectIndex, chapterIndex, dayStart, today);
        today := today + [Assignment(subject.name, subject.chapters[chapterIndex],
                                     PriorityFor(Intense, subject.credits))];
        chapterIndex := chapterIndex + 1;
        chaptersToday := chaptersToday + 1;
        pos := pos + 1;
      }
      if chapterIndex >= |subject.chapters| {
        AdvanceStep(sorted, subjectIndex, chapterIndex);
        subjectIndex := subjectIndex + 1;
        chapterIndex := 0;
      }
    }
    if subjectIndex == |sorted| {
      assert sorted[..subjectIndex] == sorted;
    }
  }

  /** The crash schedule: seven days from `examDate - 7`, each filled up to
      the quota by walking the subjects and their chapters with two cursors. */
  method PlanIntense(sorted: seq<Subject>, examDate: int) returns (plan: seq<DayPlan>)
    ensures plan == Distribute(Queue(sorted, Intense), CeilDiv(DeclaredTotal(sorted), IntenseDays),
                               examDate - IntenseDays, IntenseDays)
  {
    var chaptersPerDay := CeilDiv(DeclaredTotal(sorted), IntenseDays);
    ghost var q := Queue(sorted, Intense);
    var date := examDate - IntenseDays;
    var chapterIndex: nat, subjectIndex: nat := 0, 0;
    plan := [];
    assert sorted[..0] == [];
    ghost var pos := 0;
    ghost var target := Distribute(q, chaptersPerDay, examDate - IntenseDays, IntenseDays);
    ghost var left := IntenseDays;
    for day := 0 to IntenseDays
      invariant date == examDate - IntenseDays + day && left == IntenseDays - day
      invariant CursorOk(sorted, subjectIndex, chapterIndex)
      invariant pos == Position(sorted, subjectIndex, chapterIndex) <= |q|
      invariant plan + Distribute(q[pos..], chaptersPerDay, date, left) == target
    {
      var today;
      ghost var next;
      today, subjectIndex, chapterIndex, next := FillDay(sorted, chaptersPerDay, subjectIndex, chapterIndex, q, pos);
      ghost var before := plan;
      if |today| > 0 {
        plan := plan + [DayPlan(date, today)];
      }
      DayStep(q, chaptersPerDay, date, left, before, plan, target, pos, next, today);
      pos := next;
      date := date + 1;
      left := left - 1;
    }
    DrainDone(q[pos..], chaptersPerDay, date, left, plan, target);
  }

  /** Sorts the catalog by credits and produces the plan for the mode. */
  method CreateStudyPlan(cat: seq<Subject>, mode: Mode, startDate: int, examDate: int)
    returns (plan: seq<DayPlan>)
    ensures plan == Plan(cat, mode, startDate, examDate)
  {
    var sorted := SortByCredits(cat);
    if mode == Intense {
      plan := PlanIntense(sorted, examDate);
    } else {
      var chaptersPerDay := ChaptersPerDay(mode);
      var daysBetween := examDate - startDate;
      var queue := BuildQueue(sorted, mode);
      plan := DrainQueue(queue, chaptersPerDay, startDate, daysBetween);
    }
  }

  /** Both dates are given and the exam comes strictly after the start. */
  predicate ValidDateRange(startDate: Option<int>, examDate: Option<int>)
  {
    startDate.Some? && examDate.Some? && examDate.value > startDate.value
  }

  /** The planner page: holds the current study plan. */
  class Planner {
    var studyPlan: seq<DayPlan>

    constructor ()
      ensures studyPlan == []
    {
      studyPlan := [];
    }

    /** Validates the dates and, when they are valid, replaces the current
        plan with a fresh one for the shipped catalog; otherwise leaves the
        current plan as it was. */
    method GenerateStudyPlan(mode: string, startDate: Option<int>, examDate: Option<int>)
      returns (ok: bool)
      modifies this
      ensures ok <==> ValidDateRange(startDate, examDate)
      ensures ok ==> studyPlan == Plan(Subjects, ParseMode(mode), startDate.value, examDate.value)
      ensures !ok ==> studyPlan == old(studyPlan)
    {
      if startDate.None? || examDate.None? || examDate.value <= startDate.value {
        return false;
      }
      studyPlan := CreateStudyPlan(Subjects, ParseMode(mode), startDate.value, examDate.value);
      ok := true;
    }
  }
}
