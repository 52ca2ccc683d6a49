/**
 * The `Classroom` object of the admission engine. Its fields are the lists,
 * deques and counters the original keeps; every method that changes them is
 * proved to leave the state the matching function of `Admissions` computes,
 * and the properties of the engine are proved about those functions.
 */
module Classrooms {
  import opened Wrappers
  import opened Schedules
  import Ages
  import Sorting
  import opened Admissions

  /** A weekday-by-level table of counts, as `calculate_daily_strength` builds it. */
  type Table = map<Weekday, map<int, int>>

  /** A weekday row has the four level columns. */
  predicate Row(m: map<int, int>) {
    1 in m && 2 in m && 3 in m && 4 in m
  }

  /** Every weekday has a row. */
  predicate Complete(table: Table) {
    forall d: Weekday :: d in table && Row(table[d])
  }

  /** The loop guard of `admit_students_from_waiting`: no weekday count at the level is zero. */
  predicate NoZero(table: Table, level: int)
    requires Complete(table) && 1 <= level <= 4
  {
    && table[Monday][level] != 0
    && table[Tuesday][level] != 0
    && table[Wednesday][level] != 0
    && table[Thursday][level] != 0
    && table[Friday][level] != 0
  }

  /** The table holds, for each weekday and level, the count `Strength` gives for `r`. */
  ghost predicate Tabulates(table: Table, r: Roster)
    requires Admissions.Valid(r)
  {
    Complete(table) && forall d: Weekday, l :: 1 <= l <= 4 ==> table[d][l] == Strength(r.store, r.students, d, l)
  }

  /** A table whose guard reads the counts of `r` agrees with `GuardHolds`. */
  lemma TabulatesGuard(table: Table, r: Roster, level: int)
    requires Admissions.Valid(r) && Tabulates(table, r) && 1 <= level <= 4
    ensures NoZero(table, level) == GuardHolds(r, level)
  {
  }

  lemma StrengthSnoc(store: seq<Student>, ids: seq<nat>, i: nat, d: Weekday, l: int)
    requires IdsBelow(ids, |store|) && i < |ids|
    ensures IdsBelow(ids[..i], |store|) && IdsBelow(ids[..i + 1], |store|)
    ensures Strength(store, ids[..i + 1], d, l) == Strength(store, ids[..i], d, l) + Contribution(store[ids[i]], d, l)
  {
    assert ids[..i + 1][..i] == ids[..i];
  }

  lemma OccurrencesSnoc(ws: seq<Weekday>, j: nat, d: Weekday)
    requires j < |ws|
    ensures Occurrences(ws[..j + 1], d) == Occurrences(ws[..j], d) + (if ws[j] == d then 1 else 0)
  {
    assert ws[..j + 1][..j] == ws[..j];
  }

  class Classroom {
    var capacity: seq<int>
    var store: seq<Student>
    var students: seq<nat>
    var queues: Queues
    var promoted: Queues
    var overflow: Queues
    var graduated: seq<nat>

    /** The classroom as a value. */
    function State(): Roster
      reads this
    {
      Roster(capacity, store, students, queues, promoted, overflow, graduated)
    }

    ghost predicate Valid()
      reads this
    {
      Admissions.Valid(State())
    }

    /** `Classroom(capacity_levels)`: empty roster, empty deques. */
    constructor (capacity: seq<int>)
      requires |capacity| >= 4
      ensures Valid() && State() == EmptyRoster(capacity)
    {
      this.capacity := capacity;
      store := [];
      students := [];
      queues := EmptyQueues;
      promoted := EmptyQueues;
      overflow := EmptyQueues;
      graduated := [];
    }

    /** An active row of the loader: the student is marked existing and joins the roster. */
    method Enroll(name: string, dob: int, schedule: seq<Weekday>, program: Program, startDate: int, now: int)
      requires Valid() && Ages.LevelByDob(dob, now).Some?
      modifies this
      ensures Valid() && State() == AddActive(old(State()), NewStudent(name, dob, schedule, program, startDate, now))
    {
      ghost var r := State();
      var s := NewStudent(name, dob, schedule, program, startDate, now);
      ghost var t := s;
      s := s.(existing := true);
      students := students + [|store|];
      store := store + [s];
      assert State() == AddActive(r, t);
    }

    /** A hold row of the loader: the student waits on the hold deque of its level. */
    method Hold(name: string, dob: int, schedule: seq<Weekday>, program: Program, startDate: int, now: int)
      requires Valid() && Ages.LevelByDob(dob, now).Some?
      modifies this
      ensures Valid() && State() == AddHeld(old(State()), NewStudent(name, dob, schedule, program, startDate, now))
    {
      ghost var r := State();
      var s := NewStudent(name, dob, schedule, program, startDate, now);
      queues := queues[s.level - 1 := queues[s.level - 1] + [|store|]];
      store := store + [s];
      assert State() == AddHeld(r, s);
    }

    /**
     * `promote_students(level, date)`: one pass over the roster by position.
     * A removal shifts the rest of the list left while the position still
     * advances, so the entry after a removed one is not looked at.
     */
    method PromoteStudents(level: int, date: int)
      requires Valid() && 1 <= level <= 4
      modifies this
      ensures Valid() && State() == Promote(old(State()), level, date)
    {
      var i := 0;
      while i < |students|
        invariant Valid()
        invariant PromoteFrom(State(), level, date, i) == Promote(old(State()), level, date)
        decreases |students| - i
      {
        ghost var before := State();
        PromoteAt(level, date, i);
        assert PromoteFrom(before, level, date, i) == PromoteFrom(State(), level, date, i + 1);
        i := i + 1;
      }
    }

    /** One pass of the loop of `promote_students`: the student at position `i`, if due. */
    method PromoteAt(level: int, date: int, i: nat)
      requires Valid() && 1 <= level <= 4 && i < |students|
      modifies this
      ensures Valid() && State() == PromoteOne(old(State()), level, date, i)
    {
      var id := students[i];
      var s := store[id];
      if s.existing && s.level == level && date >= s.promotionDate {
        var next := s.level + 1;
        if next < 4 && CanJoinLevel(State(), s.schedule, next) {
          MoveUp(id);
        } else if next < 4 {
          MoveToPromoted(id);
        } else if s.level == 4 && date >= s.promotionDate {
          MoveToGraduated(id);
        }
      }
    }

    /** A due student with room at the next level moves up in place. */
    method MoveUp(id: nat)
      requires Valid() && id < |store| && store[id].level < 3
      modifies this
      ensures Valid() && State() == PromoteInPlace(old(State()), id)
    {
      ghost var r := State();
      store := store[id := Advance(store[id])];
      assert State() == PromoteInPlace(r, id);
    }

    /** A due student without room moves up onto the promoted deque of its new level. */
    method MoveToPromoted(id: nat)
      requires Valid() && id < |store| && store[id].level < 3
      modifies this
      ensures Valid() && State() == PromoteToQueue(old(State()), id)
    {
      ghost var r := State();
      var s := store[id];
      var next := s.level + 1;
      store := store[id := Advance(s).(startDate := s.promotionDate)];
      promoted := promoted[next - 1 := promoted[next - 1] + [id]];
      students := RemoveFirst(students, id);
      assert State() == PromoteToQueue(r, id);
    }

    /** A due student at the top level leaves for the graduated list. */
    method MoveToGraduated(id: nat)
      requires Valid() && id < |store|
      modifies this
      ensures Valid() && State() == Graduate(old(State()), id)
    {
      ghost var r := State();
      students := RemoveFirst(students, id);
      graduated := graduated + [id];
      assert State() == Graduate(r, id);
    }

    /** `update_waiting_list(level)`: both deques of the level sorted by start date, when non-empty. */
    method UpdateWaitingList(level: int)
      requires Valid() && 1 <= level <= 4
      modifies this
      ensures Valid() && State() == SortWaiting(old(State()), level)
    {
      ghost var r := State();
      if |promoted[level - 1]| > 0 {
        promoted := promoted[level - 1 := Sorting.SortBy(promoted[level - 1], StartKeys(store))];
      }
      assert promoted == SortQueue(r.promoted, level, r.store);
      if |queues[level - 1]| > 0 {
        queues := queues[level - 1 := Sorting.SortBy(queues[level - 1], StartKeys(store))];
      }
      assert queues == SortQueue(r.queues, level, r.store);
    }

    /**
     * `calculate_daily_strength`: for each active student, one count per
     * occurrence of a weekday in its schedule, in the column of its level.
     */
    method DailyStrength() returns (table: Table)
      requires Valid()
      ensures Tabulates(table, State())
    {
      var zeros := map[1 := 0, 2 := 0, 3 := 0, 4 := 0];
      table := map[Monday := zeros, Tuesday := zeros, Wednesday := zeros, Thursday := zeros, Friday := zeros];
      forall d: Weekday
        ensures d in table && Row(table[d])
      {
        match d
        case Monday =>
        case Tuesday =>
        case Wednesday =>
        case Thursday =>
        case Friday =>
      }
      for i := 0 to |students|
        invariant Complete(table)
        invariant forall d: Weekday, l :: 1 <= l <= 4 ==> table[d][l] == Strength(store, students[..i], d, l)
      {
        var s := store[students[i]];
        forall d: Weekday, l | 1 <= l <= 4
          ensures Strength(store, students[..i + 1], d, l) == Strength(store, students[..i], d, l) + Contribution(s, d, l)
        {
          StrengthSnoc(store, students, i, d, l);
        }
        if s.existing {
          table := CountSchedule(table, s);
        }
      }
      assert students[..|students|] == students;
    }

    /** One round of the admission loop from the promoted deque. */
    method AdmitNextPromoted(level: int)
      requires Valid() && 1 <= level <= 4 && |promoted[level - 1]| > 0
      modifies this
      ensures Valid() && State() == AdmitPromoted(old(State()), level)
    {
      ghost var r := State();
      var id := promoted[level - 1][0];
      promoted := promoted[level - 1 := promoted[level - 1][1..]];
      CanJoinLevelReads(r, State(), store[id].schedule, level);
      if CanJoinLevel(State(), store[id].schedule, level) {
        students := students + [id];
      } else {
        overflow := overflow[level - 1 := overflow[level - 1] + [id]];
      }
      assert State() == AdmitPromoted(r, level);
    }

    /** One round of the admission loop from the hold deque. */
    method AdmitNextHeld(level: int, date: int)
      requires Valid() && 1 <= level <= 4 && |queues[level - 1]| > 0
      modifies this
      ensures Valid() && State() == AdmitHeld(old(State()), level, date)
    {
      ghost var r := State();
      var id := queues[level - 1][0];
      queues := queues[level - 1 := queues[level - 1][1..]];
      var s := store[id];
      CanJoinLevelReads(r, State(), s.schedule, level);
      if s.startDate <= date && CanJoinLevel(State(), s.schedule, level) {
        store := store[id := Enrol(s)];
        students := students + [id];
      } else {
        overflow := overflow[level - 1 := overflow[level - 1] + [id]];
      }
      assert State() == AdmitHeld(r, level, date);
    }

    /**
     * The body of the admission loop once its guard holds: one student from
     * the promoted deque, else one from the hold deque; `moved` is false
     * when both are empty and the loop ends.
     */
    method AdmitRound(level: int, date: int) returns (moved: bool)
      requires Valid() && 1 <= level <= 4 && GuardHolds(State(), level)
      modifies this
      ensures Valid() && AdmitLoop(State(), level, date) == AdmitLoop(old(State()), level, date)
      ensures moved ==> |promoted[level - 1]| + |queues[level - 1]| < old(|promoted[level - 1]| + |queues[level - 1]|)
      ensures !moved ==> State() == old(State()) && AdmitLoop(State(), level, date) == State()
    {
      ghost var before := State();
      moved := true;
      if |promoted[level - 1]| > 0 {
        AdmitNextPromoted(level);
      } else if |queues[level - 1]| > 0 {
        AdmitNextHeld(level, date);
      } else {
        moved := false;
      }
      assert AdmitLoop(before, level, date) == AdmitLoop(State(), level, date);
    }

    /**
     * `admit_students_from_waiting(level, date)`: while every weekday count
     * at the level is non-zero, take the head of the promoted deque, else
     * of the hold deque; whoever does not fit goes to the overflow deque,
     * which is then appended to the promoted deque without being emptied.
     */
    method AdmitStudentsFromWaiting(level: int, date: int)
      requires Valid() && 1 <= level <= 4
      modifies this
      ensures Valid() && State() == Admit(old(State()), level, date)
    {
      var table := DailyStrength();
      while NoZero(table, level)
        invariant Valid() && Tabulates(table, State())
        invariant AdmitLoop(State(), level, date) == AdmitLoop(old(State()), level, date)
        decreases |promoted[level - 1]| + |queues[level - 1]|
      {
        TabulatesGuard(table, State(), level);
        var moved := AdmitRound(level, date);
        if !moved {
          break;
        }
        table := DailyStrength();
      }
      TabulatesGuard(table, State(), level);
      AdmitFinish(old(State()), State(), level, date);
      FlushOverflow(level);
    }

    /** The end of `admit_students_from_waiting`: the overflow deque is appended to the promoted deque. */
    method FlushOverflow(level: int)
      requires Valid() && 1 <= level <= 4
      modifies this
      ensures Valid()
      ensures State() == old(State()).(promoted := old(promoted[level - 1 := promoted[level - 1] + overflow[level - 1]]))
    {
      ValidQueuesExtend(promoted, level - 1, overflow[level - 1], |store|);
      promoted := promoted[level - 1 := promoted[level - 1] + overflow[level - 1]];
    }

    /**
     * `update_members(date, level)`: promote, sort the deques and admit, for
     * the given level or for levels 1 to 4 in order.
     */
    method UpdateMembers(date: int, level: Option<int>)
      requires Valid() && (level.Some? ==> 1 <= level.value <= 4)
      modifies this
      ensures Valid() && State() == Admissions.UpdateMembers(old(State()), date, level)
    {
      match level
      case None =>
        for l := 1 to 5
          invariant Valid() && State() == StepsTo(old(State()), date, l - 1)
        {
          StepLevel(l, date);
        }
      case Some(l) =>
        StepLevel(l, date);
    }

    /** The three calls `update_members` makes for one level. */
    method StepLevel(level: int, date: int)
      requires Valid() && 1 <= level <= 4
      modifies this
      ensures Valid() && State() == Step(old(State()), level, date)
    {
      PromoteStudents(level, date);
      UpdateWaitingList(level);
      AdmitStudentsFromWaiting(level, date);
    }

    /**
     * `apply_for_admission`: sync to the preferred date (today when none is
     * given) and admit on it if the applicant fits; else offer a flexible
     * place 32 days from today when an active Flexible student is at the
     * level; else scan the sorted candidate dates, syncing to each, until
     * one fits or the applicant is past the level's age limit.
     */
    method ApplyForAdmission(dob: int, schedule: seq<Weekday>, now: int, preferred: Option<int>) returns (o: Outcome)
      requires Valid() && Ages.LevelByDob(dob, now).Some?
      modifies this
      ensures Valid() && (State(), o) == Apply(old(State()), dob, schedule, now, preferred)
    {
      ghost var r := State();
      var p := preferred.GetOr(now);
      UpdateMembers(p, None);
      assert State() == Sync(r, p);
      var level := ApplicantLevel(dob, now);
      if CanJoinLevel(State(), schedule, level) {
        ApplyOnPreferred(r, dob, schedule, now, preferred);
        return Admitted(p, schedule, false);
      }
      if HasFlexible(State(), level) {
        ApplyFlexible(r, dob, schedule, now, preferred);
        return Admitted(now + 32, schedule, true);
      }
      ApplyScans(r, dob, schedule, now, preferred);
      var found := ScanDates(SortedCandidates(State(), level, p), dob, level, schedule);
      if found.Some? {
        return Admitted(found.value, schedule, false);
      }
      return NotFound;
    }

    /**
     * The loop of `apply_for_admission` over the sorted candidate dates:
     * stop past the age limit; otherwise sync to the date and stop if the
     * applicant fits.
     */
    method ScanDates(dates: seq<int>, dob: int, level: int, schedule: seq<Weekday>) returns (found: Option<int>)
      requires Valid() && 1 <= level <= 4
      modifies this
      ensures Valid() && (State(), found) == Scan(old(State()), dates, dob, level, schedule)
    {
      var k := 0;
      while k < |dates|
        invariant 0 <= k <= |dates| && Valid()
        invariant Scan(State(), dates[k..], dob, level, schedule) == Scan(old(State()), dates, dob, level, schedule)
      {
        if !WithinAgeLimit(dates[k], dob, level) {
          break;
        }
        ScanAt(State(), dates[k..], dob, level, schedule);
        UpdateMembers(dates[k], None);
        if CanJoinLevel(State(), schedule, level) {
          return Some(dates[k]);
        }
        assert dates[k..][1..] == dates[k + 1..];
        k := k + 1;
      }
      return None;
    }

    /**
     * `kpi_calculate(level)`, `second` seconds into day `now`: the students
     * at the level, its hold deque's length, the graduating-soon tally and
     * the recently-started tally, each at the level's slot of a four-slot list.
     */
    method KpiCalculate(level: int, now: int, second: int) returns (k: Kpi)
      requires Valid() && 1 <= level <= 4
      ensures k == Kpis(State(), level, now, second)
    {
      var active := [0, 0, 0, 0];
      var hold := [0, 0, 0, 0];
      var soon := [0, 0, 0, 0];
      var recent := [0, 0, 0, 0];
      var i, j, c := 0, 0, 0;
      for n := 0 to |students|
        invariant i == ActiveAt(store, students[..n], level) && active == Slot(level, i)
        invariant j == SoonAt(store, students[..n], level, now, second) && soon == Slot(level, j)
        invariant c == RecentAt(store, students[..n], level, now, second) && recent == Slot(level, c)
      {
        var s := store[students[n]];
        assert students[..n + 1][..n] == students[..n];
        if s.level == level {
          i := i + 1;
          active := active[level - 1 := i];
          if NotAfter(s.promotionDate, now + 60, second) {
            j := j + 1;
            soon := soon[level - 1 := j];
          }
          if NotBefore(s.promotionDate, now + 300, second) {
            j := j + 1;
            soon := soon[level - 1 := j];
          }
          if NotBefore(s.startDate, now - 60, second) {
            c := c + 1;
            recent := recent[level - 1 := c];
          }
        }
      }
      assert students[..|students|] == students;
      hold := hold[level - 1 := |queues[level - 1]|];
      k := Kpi(active, hold, soon, recent);
    }
  }

  /**
   * The inner loops of `calculate_daily_strength` for one student: each
   * weekday of its schedule, each level, adding one where the level is the
   * student's.
   */
  method CountSchedule(table: Table, s: Student) returns (t: Table)
    requires Complete(table)
    ensures Complete(t)
    ensures forall d: Weekday, l :: 1 <= l <= 4 ==> t[d][l] == table[d][l] + (if s.level == l then Occurrences(s.schedule, d) else 0)
  {
    t := table;
    assert s.schedule[..0] == [];
    assert forall d: Weekday :: Occurrences(s.schedule[..0], d) == 0;
    for j := 0 to |s.schedule|
      invariant Complete(t)
      invariant forall d: Weekday, l :: 1 <= l <= 4 ==>
        t[d][l] == table[d][l] + (if s.level == l then Occurrences(s.schedule[..j], d) else 0)
    {
      var day := s.schedule[j];
      forall d: Weekday
        ensures Occurrences(s.schedule[..j + 1], d) == Occurrences(s.schedule[..j], d) + (if day == d then 1 else 0)
      {
        OccurrencesSnoc(s.schedule, j, d);
      }
      t := CountDay(t, day, s.level);
    }
    assert s.schedule[..|s.schedule|] == s.schedule;
  }

  /** The innermost loop: over the four levels, one more in the student's column of `day`. */
  method CountDay(table: Table, day: Weekday, studentLevel: int) returns (t: Table)
    requires Complete(table)
    ensures Complete(t)
    ensures forall d: Weekday, l :: 1 <= l <= 4 ==> t[d][l] == table[d][l] + (if d == day && l == studentLevel then 1 else 0)
  {
    t := table;
    for level := 1 to 5
      invariant Complete(t)
      invariant forall d: Weekday, l :: 1 <= l <= 4 ==>
        t[d][l] == table[d][l] + (if d == day && l == studentLevel && l < level then 1 else 0)
    {
      if studentLevel == level {
        t := t[day := t[day][level := t[day][level] + 1]];
      }
    }
  }
}
