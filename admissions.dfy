/**
 * The admission and promotion engine of the `Classroom` class, as functions
 * on a value `Roster` that holds every attribute of a classroom.
 *
 * Students are shared mutable objects in the source: the same object can sit
 * in the active list, in a deque and in the graduated list at once, and a
 * field update is seen through all of them. Here every student record lives
 * once in `store`, and the lists and per-level deques hold indices into it,
 * so updating `store[id]` is exactly the source's in-place field update.
 */
module Admissions {
  import opened Wrappers
  import opened Schedules
  import Ages
  import Sorting

  datatype Program = Fixed | Flexible

  /** A child record (`Student`); dates are day numbers. */
  datatype Student = Student(
    name: string,
    dob: int,
    level: int,
    schedule: seq<Weekday>,
    program: Program,
    startDate: int,
    existing: bool,
    promotionDate: int)

  /** Per-level deques: the deque of level `l` (1 to 4) is entry `l - 1`. */
  type Queues = seq<seq<nat>>

  /**
   * The attributes of a `Classroom`: `capacity_levels`, the students
   * themselves, `students`, `level_queues` (the hold list),
   * `level_promotedQueues`, `level_promotedQueues2` (the overflow deques)
   * and `graduated_students`.
   */
  datatype Roster = Roster(
    capacity: seq<int>,
    store: seq<Student>,
    students: seq<nat>,
    queues: Queues,
    promoted: Queues,
    overflow: Queues,
    graduated: seq<nat>)

  const EmptyQueues: Queues := [[], [], [], []]

  predicate IdsBelow(ids: seq<nat>, n: nat) {
    forall i :: 0 <= i < |ids| ==> ids[i] < n
  }

  predicate ValidQueues(q: Queues, n: nat) {
    |q| == 4 && forall l :: 0 <= l < 4 ==> IdsBelow(q[l], n)
  }

  /** Every list refers to a known student and every student has a level. */
  predicate Valid(r: Roster) {
    && |r.capacity| >= 4
    && (forall i :: 0 <= i < |r.store| ==> 1 <= r.store[i].level <= 4)
    && IdsBelow(r.students, |r.store|)
    && IdsBelow(r.graduated, |r.store|)
    && ValidQueues(r.queues, |r.store|)
    && ValidQueues(r.promoted, |r.store|)
    && ValidQueues(r.overflow, |r.store|)
  }

  /** A freshly constructed classroom. */
  function EmptyRoster(capacity: seq<int>): (r: Roster)
    requires |capacity| >= 4
    ensures Valid(r) && r.students == [] && r.graduated == []
    ensures forall l :: 0 <= l < 4 ==> r.queues[l] == [] && r.promoted[l] == [] && r.overflow[l] == []
  {
    Roster(capacity, [], [], EmptyQueues, EmptyQueues, EmptyQueues, [])
  }

  /** The entries of all the deques in `q`, counted with multiplicity. */
  function Queued(q: Queues): multiset<nat>
    decreases |q|
  {
    if q == [] then multiset{} else Queued(q[..|q| - 1]) + multiset(q[|q| - 1])
  }

  /** Replacing one deque changes the total by exactly the entries swapped. */
  lemma {:induction false} QueuedUpdate(q: Queues, l: int, t: seq<nat>)
    requires 0 <= l < |q|
    ensures Queued(q[l := t]) + multiset(q[l]) == Queued(q) + multiset(t)
    decreases |q|
  {
    var q' := q[l := t];
    var n := |q| - 1;
    if l == n {
      assert q'[..n] == q[..n];
    } else {
      assert q'[..n] == q[..n][l := t] && q'[n] == q[n] && q[..n][l] == q[l];
      QueuedUpdate(q[..n], l, t);
      assert Queued(q') == Queued(q'[..n]) + multiset(q[n]);
      assert Queued(q) == Queued(q[..n]) + multiset(q[n]);
      AddBoth(Queued(q'[..n]), multiset(q[l]), Queued(q[..n]), multiset(t), multiset(q[n]));
    }
  }

  lemma AddBoth(a: multiset<nat>, x: multiset<nat>, b: multiset<nat>, y: multiset<nat>, c: multiset<nat>)
    requires a + x == b + y
    ensures a + c + x == b + c + y
  {
    assert a + c + x == (a + x) + c;
  }

  lemma Cancel(a: multiset<nat>, b: multiset<nat>, m: multiset<nat>)
    requires a + m == b + m
    ensures a == b
  {
    assert forall x :: a[x] == (a + m)[x] - m[x];
  }

  /** A deque replaced by a permutation of itself leaves the total unchanged. */
  lemma QueuedPermute(q: Queues, l: int, t: seq<nat>)
    requires 0 <= l < |q| && multiset(t) == multiset(q[l])
    ensures Queued(q[l := t]) == Queued(q)
  {
    QueuedUpdate(q, l, t);
    Cancel(Queued(q[l := t]), Queued(q), multiset(t));
  }

  /** Everyone the classroom knows, counted with multiplicity, wherever they sit. */
  function Everyone(r: Roster): multiset<nat>
    requires |r.queues| == 4 && |r.promoted| == 4 && |r.overflow| == 4
  {
    multiset(r.students) + Queued(r.queues) + Queued(r.promoted) + Queued(r.overflow) + multiset(r.graduated)
  }

  // ---------------------------------------------------------------------
  // Loading the roster (`read_existing_data`, without the spreadsheet part)
  // ---------------------------------------------------------------------

  /**
   * A student as the loader builds one: the level comes from the date of
   * birth on day `now` and the promotion date from that level.
   */
  function NewStudent(name: string, dob: int, schedule: seq<Weekday>, program: Program, startDate: int, now: int): (s: Student)
    requires Ages.LevelByDob(dob, now).Some?
    ensures 1 <= s.level <= 4 && !s.existing && s.promotionDate > dob
    ensures s.promotionDate == Ages.PromotionDate(dob, s.level)
  {
    var level := Ages.LevelByDob(dob, now).value;
    Student(name, dob, level, schedule, program, startDate, false, Ages.PromotionDate(dob, level))
  }

  lemma IdsBelowWiden(ids: seq<nat>, n: nat, m: nat)
    requires IdsBelow(ids, n) && n <= m
    ensures IdsBelow(ids, m)
  {
  }

  lemma ValidWiden(r: Roster, s: Student)
    requires Valid(r) && 1 <= s.level <= 4
    ensures Valid(r.(store := r.store + [s]))
  {
    var n := |r.store|;
    IdsBelowWiden(r.students, n, n + 1);
    IdsBelowWiden(r.graduated, n, n + 1);
    forall l | 0 <= l < 4
      ensures IdsBelow(r.queues[l], n + 1) && IdsBelow(r.promoted[l], n + 1) && IdsBelow(r.overflow[l], n + 1)
    {
      IdsBelowWiden(r.queues[l], n, n + 1);
      IdsBelowWiden(r.promoted[l], n, n + 1);
      IdsBelowWiden(r.overflow[l], n, n + 1);
    }
  }

  /** An active row: the student joins the roster as an existing student. */
  function AddActive(r: Roster, s: Student): (r': Roster)
    requires Valid(r) && 1 <= s.level <= 4
    ensures Valid(r') && r'.store == r.store + [s.(existing := true)]
    ensures r'.students == r.students + [|r.store|] && r'.graduated == r.graduated && r'.capacity == r.capacity
    ensures r'.queues == r.queues && r'.promoted == r.promoted && r'.overflow == r.overflow
    ensures Everyone(r') == Everyone(r) + multiset{|r.store|}
  {
    ValidWiden(r, s.(existing := true));
    r.(store := r.store + [s.(existing := true)], students := r.students + [|r.store|])
  }

  /** A hold row: the student waits at the back of the hold deque of its level. */
  function AddHeld(r: Roster, s: Student): (r': Roster)
    requires Valid(r) && 1 <= s.level <= 4
    ensures Valid(r') && r'.store == r.store + [s] && r'.students == r.students
    ensures r'.queues == r.queues[s.level - 1 := r.queues[s.level - 1] + [|r.store|]]
    ensures r'.promoted == r.promoted && r'.overflow == r.overflow
    ensures r'.graduated == r.graduated && r'.capacity == r.capacity
    ensures Everyone(r') == Everyone(r) + multiset{|r.store|}
  {
    var id := |r.store|;
    ValidWiden(r, s);
    var wider := r.(store := r.store + [s]);
    ValidQueuesAppend(wider.queues, s.level - 1, id, id + 1);
    QueuedAppend(r.queues, s.level - 1, id);
    wider.(queues := r.queues[s.level - 1 := r.queues[s.level - 1] + [id]])
  }

  // ---------------------------------------------------------------------
  // Capacity test (`can_join_level`)
  // ---------------------------------------------------------------------

  /** A student at `level` whose schedule includes `day`. */
  predicate Attends(s: Student, level: int, day: Weekday) {
    s.level == level && day in s.schedule
  }

  /** How many entries of `ids` attend `level` on `day`. */
  function CountAt(store: seq<Student>, ids: seq<nat>, level: int, day: Weekday): (n: nat)
    requires IdsBelow(ids, |store|)
    ensures n <= |ids|
  {
    if ids == [] then 0
    else (if Attends(store[ids[0]], level, day) then 1 else 0) + CountAt(store, ids[1..], level, day)
  }

  /** The count is positive exactly when some entry attends. */
  lemma {:induction false} CountAtPositive(store: seq<Student>, ids: seq<nat>, level: int, day: Weekday)
    requires IdsBelow(ids, |store|)
    ensures CountAt(store, ids, level, day) > 0 <==> exists i :: 0 <= i < |ids| && Attends(store[ids[i]], level, day)
    decreases |ids|
  {
    if ids != [] {
      CountAtPositive(store, ids[1..], level, day);
      assert forall i :: 0 < i < |ids| ==> ids[1..][i - 1] == ids[i];
    }
  }

  /** `can_join_level`: the requested days in order, stopping at the first one that is full. */
  function CanJoinLevel(r: Roster, schedule: seq<Weekday>, level: int): (ok: bool)
    requires Valid(r) && 1 <= level <= 4
  {
    if schedule == [] then true
    else if CountAt(r.store, r.students, level, schedule[0]) >= r.capacity[level - 1] then false
    else CanJoinLevel(r, schedule[1..], level)
  }

  /** The capacity test reads only the capacities, the records and the roster list. */
  lemma {:induction false} CanJoinLevelReads(r: Roster, r': Roster, schedule: seq<Weekday>, level: int)
    requires Valid(r) && Valid(r') && 1 <= level <= 4
    requires r'.capacity == r.capacity && r'.store == r.store && r'.students == r.students
    ensures CanJoinLevel(r', schedule, level) == CanJoinLevel(r, schedule, level)
  {
    if schedule != [] {
      CanJoinLevelReads(r, r', schedule[1..], level);
    }
  }

  /** A schedule fits exactly when every one of its days has fewer attendees than the capacity. */
  lemma {:induction false} CanJoinLevelMeans(r: Roster, schedule: seq<Weekday>, level: int)
    requires Valid(r) && 1 <= level <= 4
    ensures CanJoinLevel(r, schedule, level)
      <==> forall d :: d in schedule ==> CountAt(r.store, r.students, level, d) < r.capacity[level - 1]
    decreases |schedule|
  {
    if schedule != [] {
      assert schedule[0] in schedule;
      assert forall d :: d in schedule <==> d == schedule[0] || d in schedule[1..];
      CanJoinLevelMeans(r, schedule[1..], level);
    }
  }

  /** An empty schedule always fits. */
  lemma EmptyScheduleJoins(r: Roster, level: int)
    requires Valid(r) && 1 <= level <= 4
    ensures CanJoinLevel(r, [], level)
  {
  }

  // ---------------------------------------------------------------------
  // Daily strength (`calculate_daily_strength`)
  // ---------------------------------------------------------------------

  /** How often `d` is listed in `ws`. */
  function Occurrences(ws: seq<Weekday>, d: Weekday): (n: nat)
    ensures n <= |ws|
    ensures n > 0 <==> d in ws
  {
    if ws == [] then 0
    else
      assert ws == ws[..|ws| - 1] + [ws[|ws| - 1]];
      Occurrences(ws[..|ws| - 1], d) + (if ws[|ws| - 1] == d then 1 else 0)
  }

  /** What one student adds to the strength of `level` on `d`: only enrolled students count. */
  function Contribution(s: Student, d: Weekday, level: int): nat {
    if s.existing && s.level == level then Occurrences(s.schedule, d) else 0
  }

  /** The entry of the daily-strength table for `d` and `level`. */
  function Strength(store: seq<Student>, ids: seq<nat>, d: Weekday, level: int): nat
    requires IdsBelow(ids, |store|)
  {
    if ids == [] then 0
    else Strength(store, ids[..|ids| - 1], d, level) + Contribution(store[ids[|ids| - 1]], d, level)
  }

  /** The guard of the admission loop: no weekday of the level has a zero count. */
  predicate GuardHolds(r: Roster, level: int)
    requires Valid(r)
  {
    && Strength(r.store, r.students, Monday, level) != 0
    && Strength(r.store, r.students, Tuesday, level) != 0
    && Strength(r.store, r.students, Wednesday, level) != 0
    && Strength(r.store, r.students, Thursday, level) != 0
    && Strength(r.store, r.students, Friday, level) != 0
  }

  /** Counts only grow when students are appended or a student becomes enrolled. */
  lemma {:induction false} StrengthGrows(store: seq<Student>, store': seq<Student>, ids: seq<nat>, more: seq<nat>, d: Weekday, level: int)
    requires |store'| == |store| && IdsBelow(ids, |store|) && IdsBelow(more, |store|)
    requires forall i :: 0 <= i < |store| ==> Contribution(store[i], d, level) <= Contribution(store'[i], d, level)
    ensures Strength(store, ids, d, level) <= Strength(store', ids + more, d, level)
    decreases |ids| + |more|
  {
    if more != [] {
      var ids' := ids + more;
      assert ids'[..|ids'| - 1] == ids + more[..|more| - 1];
      StrengthGrows(store, store', ids, more[..|more| - 1], d, level);
    } else if ids != [] {
      assert ids + more == ids;
      StrengthGrows(store, store', ids[..|ids| - 1], [], d, level);
      assert ids[..|ids| - 1] + [] == ids[..|ids| - 1];
    }
  }

  /** An enrolled student of the level who attends on `d`. */
  predicate AttendsAt(s: Student, d: Weekday, level: int) {
    s.existing && s.level == level && d in s.schedule
  }

  /** A weekday no enrolled student of the level attends has a zero count. */
  lemma {:induction false} UnlistedZero(store: seq<Student>, ids: seq<nat>, d: Weekday, level: int)
    requires IdsBelow(ids, |store|)
    requires forall i :: 0 <= i < |ids| ==> !AttendsAt(store[ids[i]], d, level)
    ensures Strength(store, ids, d, level) == 0
    decreases |ids|
  {
    if ids != [] {
      UnlistedZero(store, ids[..|ids| - 1], d, level);
    }
  }

  /** A weekday no enrolled student of the level attends: the admission loop does not run at all. */
  lemma UnlistedNoGuard(r: Roster, level: int, d: Weekday)
    requires Valid(r)
    requires forall i :: 0 <= i < |r.students| ==> !AttendsAt(r.store[r.students[i]], d, level)
    ensures !GuardHolds(r, level)
  {
    UnlistedZero(r.store, r.students, d, level);
  }

  /** Nobody enrolled at the level: the admission loop does not run at all. */
  lemma NoEnrolledNoGuard(r: Roster, level: int)
    requires Valid(r)
    requires forall i :: 0 <= i < |r.students| ==> var s := r.store[r.students[i]]; !(s.existing && s.level == level)
    ensures !GuardHolds(r, level)
  {
    UnlistedNoGuard(r, level, Monday);
  }

  // ---------------------------------------------------------------------
  // Promotion (`promote_students`)
  // ---------------------------------------------------------------------

  /** `r` is `s` without its entry at `k`, which is the first occurrence of `x`. */
  predicate RemovedAt(s: seq<nat>, x: nat, r: seq<nat>, k: int) {
    0 <= k < |s| && s[k] == x && x !in s[..k] && r == s[..k] + s[k + 1..]
  }

  /** Python's `list.remove`: drops the first occurrence of `x`, keeping the order of the rest. */
  function RemoveFirst(s: seq<nat>, x: nat): (r: seq<nat>)
    ensures |r| <= |s|
    ensures multiset(r) == multiset(s) - multiset{x}
    ensures x !in s ==> r == s
  {
    if s == [] then []
    else if s[0] == x then
      assert s == [x] + s[1..];
      s[1..]
    else
      var rest := RemoveFirst(s[1..], x);
      assert s == [s[0]] + s[1..];
      assert multiset([s[0]] + rest) == multiset{s[0]} + multiset(rest);
      [s[0]] + rest
  }

  /** `RemoveFirst` takes out exactly the first occurrence and keeps the rest in order. */
  lemma {:induction false} RemoveFirstAt(s: seq<nat>, x: nat)
    requires x in s
    ensures exists k :: RemovedAt(s, x, RemoveFirst(s, x), k)
    decreases |s|
  {
    if s[0] == x {
      assert RemoveFirst(s, x) == s[1..] == s[..0] + s[1..];
      assert RemovedAt(s, x, s[1..], 0);
    } else {
      assert s == [s[0]] + s[1..];
      assert RemoveFirst(s, x) == [s[0]] + RemoveFirst(s[1..], x);
      RemoveFirstAt(s[1..], x);
      RemovedAtCons(s[0], s[1..], x, RemoveFirst(s[1..], x));
    }
  }

  /** A first occurrence in the tail stays the first occurrence after a different head. */
  lemma RemovedAtCons(y: nat, t: seq<nat>, x: nat, rest: seq<nat>)
    requires y != x && (x in t ==> exists k :: RemovedAt(t, x, rest, k))
    ensures x in [y] + t ==> exists k :: RemovedAt([y] + t, x, [y] + rest, k)
  {
    var s := [y] + t;
    if x in s {
      assert x in t;
      var k :| RemovedAt(t, x, rest, k);
      assert s[..k + 1] == [y] + t[..k];
      assert s[k + 2..] == t[k + 1..];
      assert RemovedAt(s, x, [y] + rest, k + 1);
    }
  }

  lemma {:induction false} RemoveFirstBelow(s: seq<nat>, x: nat, n: nat)
    requires IdsBelow(s, n)
    ensures IdsBelow(RemoveFirst(s, x), n)
    decreases |s|
  {
    if s != [] && s[0] != x {
      RemoveFirstBelow(s[1..], x, n);
      var rest := RemoveFirst(s[1..], x);
      assert RemoveFirst(s, x) == [s[0]] + rest;
    }
  }

  /** Whether the student at position `i` is due for promotion at `level` on `date`. */
  predicate Due(r: Roster, level: int, date: int, i: nat)
    requires Valid(r) && i < |r.students|
  {
    var s := r.store[r.students[i]];
    s.existing && s.level == level && date >= s.promotionDate
  }

  /** A student moved up one level, promotion date recomputed for the new level. */
  function Advance(s: Student): Student
    requires 1 <= s.level < 4
  {
    s.(level := s.level + 1, promotionDate := Ages.PromotionDate(s.dob, s.level + 1))
  }

  lemma ValidQueuesAppend(q: Queues, l: int, id: nat, n: nat)
    requires ValidQueues(q, n) && 0 <= l < 4 && id < n
    ensures ValidQueues(q[l := q[l] + [id]], n)
  {
    var q' := q[l := q[l] + [id]];
    forall l' | 0 <= l' < 4
      ensures IdsBelow(q'[l'], n)
    {
      if l' == l {
        assert forall i :: 0 <= i < |q[l]| ==> q'[l][i] == q[l][i];
      }
    }
  }

  /** The first branch: the next level has room, so the student moves up in place. */
  function PromoteInPlace(r: Roster, id: nat): (r': Roster)
    requires Valid(r) && id < |r.store| && r.store[id].level < 3
    ensures Valid(r') && r'.store == r.store[id := Advance(r.store[id])] && r'.students == r.students
    ensures r'.capacity == r.capacity && r'.queues == r.queues && r'.overflow == r.overflow
    ensures r'.promoted == r.promoted && r'.graduated == r.graduated
  {
    r.(store := r.store[id := Advance(r.store[id])])
  }

  /**
   * The second branch: the student moves up a level with the old promotion
   * date as start date, joins the promoted deque of the new level and leaves
   * the active list.
   */
  function PromoteToQueue(r: Roster, id: nat): (r': Roster)
    requires Valid(r) && id < |r.store| && r.store[id].level < 3
    ensures Valid(r') && |r'.store| == |r.store| && |r'.students| <= |r.students|
    ensures r'.capacity == r.capacity && r'.queues == r.queues && r'.overflow == r.overflow
    ensures r'.students == RemoveFirst(r.students, id) && r'.graduated == r.graduated
    ensures r'.promoted == r.promoted[r.store[id].level := r.promoted[r.store[id].level] + [id]]
    ensures r'.store == r.store[id := Advance(r.store[id]).(startDate := r.store[id].promotionDate)]
  {
    var s := r.store[id];
    var students := RemoveFirst(r.students, id);
    RemoveFirstBelow(r.students, id, |r.store|);
    ValidQueuesAppend(r.promoted, s.level, id, |r.store|);
    r.(store := r.store[id := Advance(s).(startDate := s.promotionDate)],
       students := students,
       promoted := r.promoted[s.level := r.promoted[s.level] + [id]])
  }

  /** The third branch: a level-4 student leaves the active list for the graduated list. */
  function Graduate(r: Roster, id: nat): (r': Roster)
    requires Valid(r) && id < |r.store|
    ensures Valid(r') && r'.store == r.store && |r'.students| <= |r.students|
    ensures r'.capacity == r.capacity && r'.queues == r.queues && r'.overflow == r.overflow
    ensures r'.promoted == r.promoted
    ensures r'.students == RemoveFirst(r.students, id) && r'.graduated == r.graduated + [id]
  {
    var students := RemoveFirst(r.students, id);
    RemoveFirstBelow(r.students, id, |r.store|);
    r.(students := students, graduated := r.graduated + [id])
  }

  /** One iteration of the `for` loop of `promote_students`, at position `i`. */
  function PromoteOne(r: Roster, level: int, date: int, i: nat): (r': Roster)
    requires Valid(r) && 1 <= level <= 4 && i < |r.students|
    ensures Valid(r') && |r'.store| == |r.store| && |r'.students| <= |r.students|
    ensures r'.capacity == r.capacity && r'.queues == r.queues && r'.overflow == r.overflow
  {
    var id := r.students[i];
    var s := r.store[id];
    if !Due(r, level, date, i) then r
    else if s.level + 1 < 4 && CanJoinLevel(r, s.schedule, s.level + 1) then PromoteInPlace(r, id)
    else if s.level + 1 < 4 then PromoteToQueue(r, id)
    else if s.level == 4 then Graduate(r, id)
    else r
  }

  /**
   * The `for` loop of `promote_students` from position `i` on. The loop reads
   * the list it removes from, so after a removal the next student moves into
   * the current position and is skipped: the position always advances.
   * Students only move between lists, so everyone is kept.
   */
  function PromoteFrom(r: Roster, level: int, date: int, i: nat): (r': Roster)
    requires Valid(r) && 1 <= level <= 4
    ensures Valid(r') && |r'.store| == |r.store|
    ensures r'.capacity == r.capacity && r'.queues == r.queues && r'.overflow == r.overflow
    ensures Everyone(r') == Everyone(r)
    decreases |r.students| - i, 1
  {
    if i >= |r.students| then r
    else PromoteNext(r, level, date, i)
  }

  /** The loop past its test at position `i`: that student is handled, then the loop goes on from `i + 1`. */
  function PromoteNext(r: Roster, level: int, date: int, i: nat): (r': Roster)
    requires Valid(r) && 1 <= level <= 4 && i < |r.students|
    ensures Valid(r') && |r'.store| == |r.store|
    ensures r'.capacity == r.capacity && r'.queues == r.queues && r'.overflow == r.overflow
    ensures Everyone(r') == Everyone(r)
    decreases |r.students| - i, 0
  {
    PromoteOneConserves(r, level, date, i);
    PromoteFrom(PromoteOne(r, level, date, i), level, date, i + 1)
  }

  function Promote(r: Roster, level: int, date: int): (r': Roster)
    requires Valid(r) && 1 <= level <= 4
    ensures Valid(r') && |r'.store| == |r.store|
    ensures r'.capacity == r.capacity && r'.queues == r.queues && r'.overflow == r.overflow
  {
    PromoteFrom(r, level, date, 0)
  }

  /** How a promotion changes a student: one level up, a new promotion date, maybe a new start date. */
  predicate Moved(s: Student, t: Student, level: int, date: int) {
    && s.existing && s.level == level && 1 <= level < 3 && date >= s.promotionDate
    && t == Advance(s).(startDate := t.startDate)
    && (t.startDate == s.startDate || t.startDate == s.promotionDate)
  }

  predicate Graduates(s: Student, level: int, date: int) {
    level == 4 && s.level == 4 && s.existing && date >= s.promotionDate
  }

  /** One iteration takes one of the four branches of the source. */
  lemma PromoteOneShape(r: Roster, level: int, date: int, i: nat)
    requires Valid(r) && 1 <= level <= 4 && i < |r.students|
    ensures var id := r.students[i]; var s := r.store[id]; var r' := PromoteOne(r, level, date, i);
      || r' == r
      || (Due(r, level, date, i) && s.level < 3 && CanJoinLevel(r, s.schedule, s.level + 1) && r' == PromoteInPlace(r, id))
      || (Due(r, level, date, i) && s.level < 3 && !CanJoinLevel(r, s.schedule, s.level + 1) && r' == PromoteToQueue(r, id))
      || (Due(r, level, date, i) && s.level == 4 && r' == Graduate(r, id))
  {
  }

  lemma PromoteOneConserves(r: Roster, level: int, date: int, i: nat)
    requires Valid(r) && 1 <= level <= 4 && i < |r.students|
    ensures Everyone(PromoteOne(r, level, date, i)) == Everyone(r)
  {
    var id := r.students[i];
    assert id in r.students;
    PromoteOneShape(r, level, date, i);
    if r.store[id].level < 3 {
      ToQueueConserves(r, id);
    } else {
      GraduateConserves(r, id);
    }
  }

  lemma ToQueueConserves(r: Roster, id: nat)
    requires Valid(r) && id < |r.store| && r.store[id].level < 3 && id in r.students
    ensures Everyone(PromoteToQueue(r, id)) == Everyone(r)
  {
    var r' := PromoteToQueue(r, id);
    QueuedAppend(r.promoted, r.store[id].level, id);
    MoveOne(multiset(r'.students), Queued(r.queues), Queued(r.promoted), Queued(r.overflow), multiset(r.graduated), id);
  }

  lemma GraduateConserves(r: Roster, id: nat)
    requires Valid(r) && id < |r.store| && id in r.students
    ensures Everyone(Graduate(r, id)) == Everyone(r)
  {
    var r' := Graduate(r, id);
    assert multiset(r'.graduated) == multiset(r.graduated) + multiset{id};
    MoveOne(multiset(r'.students), Queued(r.queues), Queued(r.promoted), Queued(r.overflow), multiset(r.graduated), id);
  }

  /** Moving one entry from the first bag into another leaves the total unchanged. */
  lemma MoveOne(a: multiset<nat>, c: multiset<nat>, p: multiset<nat>, o: multiset<nat>, g: multiset<nat>, x: nat)
    ensures (a + multiset{x}) + c + p + o + g == a + c + (p + multiset{x}) + o + g
    ensures (a + multiset{x}) + c + p + o + g == a + c + p + o + (g + multiset{x})
  {
  }

  lemma QueuedAppend(q: Queues, l: int, id: nat)
    requires |q| == 4 && 0 <= l < 4
    ensures Queued(q[l := q[l] + [id]]) == Queued(q) + multiset{id}
  {
    QueuedExtend(q, l, [id]);
  }

  lemma PromoteOneStore(r: Roster, level: int, date: int, i: nat)
    requires Valid(r) && 1 <= level <= 4 && i < |r.students|
    ensures var r' := PromoteOne(r, level, date, i);
      forall id :: 0 <= id < |r.store| ==> r'.store[id] == r.store[id] || Moved(r.store[id], r'.store[id], level, date)
  {
    PromoteOneShape(r, level, date, i);
  }

  /** Each student is either untouched or moved up exactly one level, never past level 3. */
  lemma {:induction false} PromoteLevels(r: Roster, level: int, date: int, i: nat)
    requires Valid(r) && 1 <= level <= 4
    ensures var r' := PromoteFrom(r, level, date, i);
      forall id :: 0 <= id < |r.store| ==> r'.store[id] == r.store[id] || Moved(r.store[id], r'.store[id], level, date)
    decreases |r.students| - i
  {
    if i < |r.students| {
      var r1 := PromoteOne(r, level, date, i);
      PromoteOneStore(r, level, date, i);
      PromoteLevels(r1, level, date, i + 1);
    }
  }

  lemma PromoteOneGraduated(r: Roster, level: int, date: int, i: nat)
    requires Valid(r) && 1 <= level <= 4 && i < |r.students|
    ensures var r' := PromoteOne(r, level, date, i);
      && (r'.graduated == r.graduated
          || (r'.graduated == r.graduated + [r.students[i]] && Graduates(r.store[r.students[i]], level, date)))
      && (level < 4 ==> r'.graduated == r.graduated)
      && (level == 4 ==> r'.store == r.store && r'.promoted == r.promoted)
  {
    PromoteOneShape(r, level, date, i);
  }

  /**
   * What a promotion pass may do to the graduated list: append to it, and
   * only at level 4, only enrolled level-4 students whose promotion date has
   * passed; a pass over level 4 changes no student record and no promoted
   * queue.
   */
  predicate GraduationOnly(r: Roster, r': Roster, level: int, date: int) {
    && |r.graduated| <= |r'.graduated|
    && r'.graduated[..|r.graduated|] == r.graduated
    && (level < 4 ==> r'.graduated == r.graduated)
    && (level == 4 ==> r'.store == r.store && r'.promoted == r.promoted)
    && forall j :: |r.graduated| <= j < |r'.graduated| ==>
         r'.graduated[j] < |r.store| && Graduates(r.store[r'.graduated[j]], level, date)
  }

  /** One iteration's change, as `PromoteOneGraduated` describes it, is such a change. */
  lemma OneGraduation(r: Roster, r1: Roster, x: nat, level: int, date: int)
    requires x < |r.store|
    requires r1.graduated == r.graduated || (r1.graduated == r.graduated + [x] && Graduates(r.store[x], level, date))
    requires level < 4 ==> r1.graduated == r.graduated
    requires level == 4 ==> r1.store == r.store && r1.promoted == r.promoted
    ensures GraduationOnly(r, r1, level, date)
  {
    assert r1.graduated[..|r.graduated|] == r.graduated;
  }

  lemma GraduationOnlyTrans(r: Roster, r1: Roster, r2: Roster, level: int, date: int)
    requires GraduationOnly(r, r1, level, date) && GraduationOnly(r1, r2, level, date)
    ensures GraduationOnly(r, r2, level, date)
  {
    if level == 4 {
      assert r2.graduated[..|r.graduated|] == r1.graduated[..|r.graduated|];
      forall j | |r.graduated| <= j < |r2.graduated|
        ensures r2.graduated[j] < |r.store| && Graduates(r.store[r2.graduated[j]], level, date)
      {
        if j < |r1.graduated| {
          assert r2.graduated[j] == r1.graduated[j];
        }
      }
    }
  }

  /**
   * Graduation: only a pass over level 4 graduates anyone, and only enrolled
   * level-4 students whose promotion date has passed; such a pass changes no
   * student record and no promoted queue.
   */
  lemma {:induction false} PromoteGraduates(r: Roster, level: int, date: int, i: nat)
    requires Valid(r) && 1 <= level <= 4
    ensures GraduationOnly(r, PromoteFrom(r, level, date, i), level, date)
    decreases |r.students| - i
  {
    if i < |r.students| {
      var r1 := PromoteOne(r, level, date, i);
      PromoteOneGraduated(r, level, date, i);
      OneGraduation(r, r1, r.students[i], level, date);
      PromoteGraduates(r1, level, date, i + 1);
      GraduationOnlyTrans(r, r1, PromoteFrom(r1, level, date, i + 1), level, date);
      assert PromoteFrom(r, level, date, i) == PromoteFrom(r1, level, date, i + 1);
    } else {
      assert r.graduated[..|r.graduated|] == r.graduated;
    }
  }

  /** A level-3 pass changes nothing: level 3 is never promoted. */
  lemma {:induction false} PromoteLevelThreeIdle(r: Roster, date: int, i: nat)
    requires Valid(r)
    ensures PromoteFrom(r, 3, date, i) == r
    decreases |r.students| - i
  {
    if i < |r.students| {
      assert PromoteOne(r, 3, date, i) == r;
      PromoteLevelThreeIdle(r, date, i + 1);
    }
  }

  /**
   * Removing while iterating skips a student: of two level-4 students who are
   * both due, a single pass graduates only the first.
   */
  lemma PromoteSkipsAfterRemoval(r: Roster, date: int)
    requires Valid(r) && |r.students| == 2
    requires Graduates(r.store[r.students[0]], 4, date) && Graduates(r.store[r.students[1]], 4, date)
    ensures Promote(r, 4, date).students == [r.students[1]]
    ensures Promote(r, 4, date).graduated == r.graduated + [r.students[0]]
  {
    var a, b := r.students[0], r.students[1];
    assert RemoveFirst(r.students, a) == [b];
    var r1 := PromoteOne(r, 4, date, 0);
    assert r1 == Graduate(r, a);
    assert PromoteNext(r, 4, date, 0) == PromoteFrom(r1, 4, date, 1) == r1;
  }

  // ---------------------------------------------------------------------
  // Waiting-list order (`update_waiting_list`)
  // ---------------------------------------------------------------------

  /** The sort key of a deque entry: the student's start date. */
  function StartKeys(store: seq<Student>): (keys: map<nat, int>)
    ensures forall id :: 0 <= id < |store| ==> Sorting.Key(keys, id) == store[id].startDate
  {
    map id | 0 <= id < |store| :: store[id].startDate
  }

  lemma IdsBelowPermutation(a: seq<nat>, b: seq<nat>, n: nat)
    requires multiset(a) == multiset(b) && IdsBelow(a, n)
    ensures IdsBelow(b, n)
  {
    forall i | 0 <= i < |b|
      ensures b[i] < n
    {
      assert b[i] in multiset(a);
    }
  }

  /** Sorts one deque of `q` by start date, leaving an empty one alone as the source does. */
  function SortQueue(q: Queues, level: int, store: seq<Student>): (q': Queues)
    requires ValidQueues(q, |store|) && 1 <= level <= 4
    ensures ValidQueues(q', |store|)
    ensures q'[level - 1] == Sorting.SortBy(q[level - 1], StartKeys(store))
    ensures forall l :: 0 <= l < 4 && l != level - 1 ==> q'[l] == q[l]
  {
    if |q[level - 1]| > 0 then
      var sorted := Sorting.SortBy(q[level - 1], StartKeys(store));
      Sorting.SortByPermutes(q[level - 1], StartKeys(store));
      IdsBelowPermutation(q[level - 1], sorted, |store|);
      q[level - 1 := sorted]
    else q
  }

  function SortWaiting(r: Roster, level: int): (r': Roster)
    requires Valid(r) && 1 <= level <= 4
    ensures Valid(r') && r'.store == r.store && r'.students == r.students
    ensures r'.capacity == r.capacity && r'.overflow == r.overflow && r'.graduated == r.graduated
  {
    r.(promoted := SortQueue(r.promoted, level, r.store), queues := SortQueue(r.queues, level, r.store))
  }

  /**
   * `update_waiting_list`: both deques of the level are ordered by start date,
   * hold the same entries as before, and keep ties in their earlier order;
   * the deques of the other levels are unchanged.
   */
  lemma WaitingOrdered(r: Roster, level: int, k: int)
    requires Valid(r) && 1 <= level <= 4
    ensures var r' := SortWaiting(r, level); var key := StartKeys(r.store);
      && Sorting.SortedBy(r'.queues[level - 1], key) && Sorting.SortedBy(r'.promoted[level - 1], key)
      && multiset(r'.queues[level - 1]) == multiset(r.queues[level - 1])
      && multiset(r'.promoted[level - 1]) == multiset(r.promoted[level - 1])
      && Sorting.WithKey(r'.queues[level - 1], key, k) == Sorting.WithKey(r.queues[level - 1], key, k)
      && Sorting.WithKey(r'.promoted[level - 1], key, k) == Sorting.WithKey(r.promoted[level - 1], key, k)
      && forall l :: 0 <= l < 4 && l != level - 1 ==> r'.queues[l] == r.queues[l] && r'.promoted[l] == r.promoted[l]
  {
    var key := StartKeys(r.store);
    Sorting.SortBySorted(r.queues[level - 1], key);
    Sorting.SortBySorted(r.promoted[level - 1], key);
    Sorting.SortByPermutes(r.queues[level - 1], key);
    Sorting.SortByPermutes(r.promoted[level - 1], key);
    Sorting.SortByStable(r.queues[level - 1], key, k);
    Sorting.SortByStable(r.promoted[level - 1], key, k);
  }

  /** Sorting the deques moves nobody in or out. */
  lemma SortWaitingConserves(r: Roster, level: int)
    requires Valid(r) && 1 <= level <= 4
    ensures Everyone(SortWaiting(r, level)) == Everyone(r)
  {
    SortQueueConserves(r.queues, level, r.store);
    SortQueueConserves(r.promoted, level, r.store);
  }

  lemma SortQueueConserves(q: Queues, level: int, store: seq<Student>)
    requires ValidQueues(q, |store|) && 1 <= level <= 4
    ensures Queued(SortQueue(q, level, store)) == Queued(q)
  {
    if |q[level - 1]| > 0 {
      var sorted := Sorting.SortBy(q[level - 1], StartKeys(store));
      Sorting.SortByPermutes(q[level - 1], StartKeys(store));
      QueuedPermute(q, level - 1, sorted);
    }
  }

  // ---------------------------------------------------------------------
  // Admission from the deques (`admit_students_from_waiting`)
  // ---------------------------------------------------------------------

  /** A held student on admission: enrolled, with the promotion date of its level. */
  function Enrol(s: Student): Student
    requires 1 <= s.level <= 4
  {
    s.(existing := true, promotionDate := Ages.PromotionDate(s.dob, s.level))
  }

  lemma ValidQueuesPop(q: Queues, l: int, n: nat)
    requires ValidQueues(q, n) && 0 <= l < 4 && |q[l]| > 0
    ensures ValidQueues(q[l := q[l][1..]], n)
  {
    var q' := q[l := q[l][1..]];
    forall l' | 0 <= l' < 4
      ensures IdsBelow(q'[l'], n)
    {
      if l' == l {
        assert forall i :: 0 <= i < |q'[l]| ==> q'[l][i] == q[l][i + 1];
      }
    }
  }

  /**
   * Pops the head of the level's promoted deque: it joins the roster if its
   * schedule fits the level, and goes to the overflow deque otherwise.
   */
  function AdmitPromoted(r: Roster, level: int): (r': Roster)
    requires Valid(r) && 1 <= level <= 4 && |r.promoted[level - 1]| > 0
    ensures Valid(r') && r'.store == r.store && r'.queues == r.queues
    ensures r'.capacity == r.capacity && r'.graduated == r.graduated
    ensures r'.promoted == r.promoted[level - 1 := r.promoted[level - 1][1..]]
    ensures var id := r.promoted[level - 1][0];
      || (r'.students == r.students + [id] && r'.overflow == r.overflow)
      || (r'.students == r.students && r'.overflow == r.overflow[level - 1 := r.overflow[level - 1] + [id]])
  {
    var id := r.promoted[level - 1][0];
    assert id < |r.store|;
    ValidQueuesPop(r.promoted, level - 1, |r.store|);
    var popped := r.(promoted := r.promoted[level - 1 := r.promoted[level - 1][1..]]);
    if CanJoinLevel(r, r.store[id].schedule, level) then
      popped.(students := r.students + [id])
    else
      ValidQueuesAppend(r.overflow, level - 1, id, |r.store|);
      popped.(overflow := r.overflow[level - 1 := r.overflow[level - 1] + [id]])
  }

  /**
   * Pops the head of the level's hold deque: it is enrolled and joins the
   * roster if its start date has come and its schedule fits, and goes to the
   * overflow deque otherwise.
   */
  function AdmitHeld(r: Roster, level: int, date: int): (r': Roster)
    requires Valid(r) && 1 <= level <= 4 && |r.queues[level - 1]| > 0
    ensures Valid(r') && |r'.store| == |r.store| && r'.promoted == r.promoted
    ensures r'.capacity == r.capacity && r'.graduated == r.graduated
    ensures r'.queues == r.queues[level - 1 := r.queues[level - 1][1..]]
    ensures var id := r.queues[level - 1][0];
      || (r'.students == r.students + [id] && r'.overflow == r.overflow && r'.store == r.store[id := Enrol(r.store[id])])
      || (r'.students == r.students && r'.overflow == r.overflow[level - 1 := r.overflow[level - 1] + [id]] && r'.store == r.store)
  {
    var id := r.queues[level - 1][0];
    assert id < |r.store|;
    var s := r.store[id];
    ValidQueuesPop(r.queues, level - 1, |r.store|);
    var popped := r.(queues := r.queues[level - 1 := r.queues[level - 1][1..]]);
    if s.startDate <= date && CanJoinLevel(r, s.schedule, level) then
      popped.(store := r.store[id := Enrol(s)], students := r.students + [id])
    else
      ValidQueuesAppend(r.overflow, level - 1, id, |r.store|);
      popped.(overflow := r.overflow[level - 1 := r.overflow[level - 1] + [id]])
  }

  /** The `while` loop: runs while the guard holds, one deque entry per round, promoted deque first. */
  function AdmitLoop(r: Roster, level: int, date: int): (r': Roster)
    requires Valid(r) && 1 <= level <= 4
    ensures Valid(r') && |r'.store| == |r.store| && r'.capacity == r.capacity && r'.graduated == r.graduated
    decreases |r.promoted[level - 1]| + |r.queues[level - 1]|
  {
    if !GuardHolds(r, level) then r
    else if |r.promoted[level - 1]| > 0 then AdmitLoop(AdmitPromoted(r, level), level, date)
    else if |r.queues[level - 1]| > 0 then AdmitLoop(AdmitHeld(r, level, date), level, date)
    else r
  }

  lemma ValidQueuesExtend(q: Queues, l: int, more: seq<nat>, n: nat)
    requires ValidQueues(q, n) && 0 <= l < 4 && IdsBelow(more, n)
    ensures ValidQueues(q[l := q[l] + more], n)
  {
    var q' := q[l := q[l] + more];
    forall l' | 0 <= l' < 4
      ensures IdsBelow(q'[l'], n)
    {
      if l' == l {
        assert forall i :: 0 <= i < |q'[l]| ==> q'[l][i] == if i < |q[l]| then q[l][i] else more[i - |q[l]|];
      }
    }
  }

  /** `admit_students_from_waiting`: the loop, then the overflow deque appended to the promoted one. */
  function Admit(r: Roster, level: int, date: int): (r': Roster)
    requires Valid(r) && 1 <= level <= 4
    ensures Valid(r') && |r'.store| == |r.store| && r'.capacity == r.capacity && r'.graduated == r.graduated
  {
    var a := AdmitLoop(r, level, date);
    ValidQueuesExtend(a.promoted, level - 1, a.overflow[level - 1], |a.store|);
    a.(promoted := a.promoted[level - 1 := a.promoted[level - 1] + a.overflow[level - 1]])
  }

  /** Once the loop has reached `a`, the admission step ends by extending the promoted deque. */
  lemma AdmitFinish(r: Roster, a: Roster, level: int, date: int)
    requires Valid(r) && Valid(a) && 1 <= level <= 4
    requires AdmitLoop(a, level, date) == a && AdmitLoop(r, level, date) == a
    ensures Admit(r, level, date) == a.(promoted := a.promoted[level - 1 := a.promoted[level - 1] + a.overflow[level - 1]])
  {
  }

  lemma QueuedPop(q: Queues, l: int)
    requires |q| == 4 && 0 <= l < 4 && |q[l]| > 0
    ensures Queued(q[l := q[l][1..]]) + multiset{q[l][0]} == Queued(q)
  {
    assert q[l] == [q[l][0]] + q[l][1..];
    QueuedUpdate(q, l, q[l][1..]);
    Cancel(Queued(q[l := q[l][1..]]) + multiset{q[l][0]}, Queued(q), multiset(q[l][1..]));
  }

  lemma AdmitPromotedConserves(r: Roster, level: int)
    requires Valid(r) && 1 <= level <= 4 && |r.promoted[level - 1]| > 0
    ensures Everyone(AdmitPromoted(r, level)) == Everyone(r)
  {
    var r' := AdmitPromoted(r, level);
    var id := r.promoted[level - 1][0];
    QueuedPop(r.promoted, level - 1);
    var p' := Queued(r'.promoted);
    if r'.students == r.students + [id] {
      assert multiset(r'.students) == multiset(r.students) + multiset{id};
      MoveOne(multiset(r.students), Queued(r.queues), p', Queued(r.overflow), multiset(r.graduated), id);
    } else {
      QueuedAppend(r.overflow, level - 1, id);
      MoveOne2(multiset(r.students), Queued(r.queues), p', Queued(r.overflow), multiset(r.graduated), id);
    }
  }

  lemma AdmitHeldConserves(r: Roster, level: int, date: int)
    requires Valid(r) && 1 <= level <= 4 && |r.queues[level - 1]| > 0
    ensures Everyone(AdmitHeld(r, level, date)) == Everyone(r)
  {
    var r' := AdmitHeld(r, level, date);
    var id := r.queues[level - 1][0];
    QueuedPop(r.queues, level - 1);
    var q' := Queued(r'.queues);
    if r'.students == r.students + [id] {
      assert multiset(r'.students) == multiset(r.students) + multiset{id};
      MoveOne3(multiset(r.students), q', Queued(r.promoted), Queued(r.overflow), multiset(r.graduated), id);
    } else {
      QueuedAppend(r.overflow, level - 1, id);
      MoveOne4(multiset(r.students), q', Queued(r.promoted), Queued(r.overflow), multiset(r.graduated), id);
    }
  }

  /** Moving one entry between two of the bags leaves the total unchanged. */
  lemma MoveOne2(a: multiset<nat>, c: multiset<nat>, p: multiset<nat>, o: multiset<nat>, g: multiset<nat>, x: nat)
    ensures a + c + (p + multiset{x}) + o + g == a + c + p + (o + multiset{x}) + g
  {
  }

  lemma MoveOne3(a: multiset<nat>, c: multiset<nat>, p: multiset<nat>, o: multiset<nat>, g: multiset<nat>, x: nat)
    ensures a + (c + multiset{x}) + p + o + g == (a + multiset{x}) + c + p + o + g
  {
  }

  lemma MoveOne4(a: multiset<nat>, c: multiset<nat>, p: multiset<nat>, o: multiset<nat>, g: multiset<nat>, x: nat)
    ensures a + (c + multiset{x}) + p + o + g == a + c + p + (o + multiset{x}) + g
  {
  }

  /** The admission loop only moves students between the deques and the roster. */
  lemma {:induction false} AdmitLoopConserves(r: Roster, level: int, date: int)
    requires Valid(r) && 1 <= level <= 4
    ensures Everyone(AdmitLoop(r, level, date)) == Everyone(r)
    decreases |r.promoted[level - 1]| + |r.queues[level - 1]|
  {
    if !GuardHolds(r, level) {
    } else if |r.promoted[level - 1]| > 0 {
      AdmitPromotedConserves(r, level);
      AdmitLoopConserves(AdmitPromoted(r, level), level, date);
    } else if |r.queues[level - 1]| > 0 {
      AdmitHeldConserves(r, level, date);
      AdmitLoopConserves(AdmitHeld(r, level, date), level, date);
    }
  }

  /**
   * Because the overflow deque is never cleared, every call adds a second copy
   * of its whole content to the promoted deque.
   */
  lemma AdmitCopiesOverflow(r: Roster, level: int, date: int)
    requires Valid(r) && 1 <= level <= 4
    ensures var r' := Admit(r, level, date);
      Everyone(r') == Everyone(r) + multiset(r'.overflow[level - 1])
  {
    var a := AdmitLoop(r, level, date);
    AdmitLoopConserves(r, level, date);
    var m := a.overflow[level - 1];
    QueuedExtend(a.promoted, level - 1, m);
    AddOne(multiset(a.students), Queued(a.queues), Queued(a.promoted), Queued(a.overflow), multiset(a.graduated), multiset(m));
  }

  lemma QueuedExtend(q: Queues, l: int, more: seq<nat>)
    requires |q| == 4 && 0 <= l < 4
    ensures Queued(q[l := q[l] + more]) == Queued(q) + multiset(more)
  {
    assert multiset(q[l] + more) == multiset(q[l]) + multiset(more);
    QueuedUpdate(q, l, q[l] + more);
    Cancel(Queued(q[l := q[l] + more]), Queued(q) + multiset(more), multiset(q[l]));
  }

  lemma AddOne(a: multiset<nat>, c: multiset<nat>, p: multiset<nat>, o: multiset<nat>, g: multiset<nat>, m: multiset<nat>)
    ensures a + c + (p + m) + o + g == (a + c + p + o + g) + m
  {
  }

  /** Admission only enrols: records keep level, schedule and start date, and stay enrolled. */
  predicate StoreGrows(store: seq<Student>, store': seq<Student>) {
    |store'| == |store|
    && forall i :: 0 <= i < |store| ==>
         && store'[i].level == store[i].level
         && store'[i].schedule == store[i].schedule
         && store'[i].startDate == store[i].startDate
         && (store[i].existing ==> store'[i].existing)
  }

  lemma StoreGrowsStrength(store: seq<Student>, store': seq<Student>, ids: seq<nat>, more: seq<nat>, d: Weekday, level: int)
    requires StoreGrows(store, store') && IdsBelow(ids, |store|) && IdsBelow(more, |store|)
    ensures Strength(store, ids, d, level) <= Strength(store', ids + more, d, level)
  {
    forall i | 0 <= i < |store|
      ensures Contribution(store[i], d, level) <= Contribution(store'[i], d, level)
    {
    }
    StrengthGrows(store, store', ids, more, d, level);
  }

  /** One admission round: the roster only grows, by the popped entry if it is admitted. */
  lemma AdmitStep(r: Roster, level: int, date: int)
    requires Valid(r) && 1 <= level <= 4 && GuardHolds(r, level)
    requires |r.promoted[level - 1]| > 0 || |r.queues[level - 1]| > 0
    ensures var r' := if |r.promoted[level - 1]| > 0 then AdmitPromoted(r, level) else AdmitHeld(r, level, date);
      && StoreGrows(r.store, r'.store)
      && (r'.students == r.students
          || (|r.promoted[level - 1]| > 0 && r'.students == r.students + [r.promoted[level - 1][0]])
          || (|r.promoted[level - 1]| == 0 && r'.students == r.students + [r.queues[level - 1][0]]
              && r.store[r.queues[level - 1][0]].startDate <= date && r'.store[r.queues[level - 1][0]].existing))
      && GuardHolds(r', level)
  {
    var r' := if |r.promoted[level - 1]| > 0 then AdmitPromoted(r, level) else AdmitHeld(r, level, date);
    if |r.promoted[level - 1]| == 0 {
      var id := r.queues[level - 1][0];
      if r'.students == r.students + [id] {
        AdmitHeldMeans(r, level, date);
      }
    }
    var more := r'.students[|r.students|..];
    assert r'.students == r.students + more;
    StoreGrowsStrength(r.store, r'.store, r.students, more, Monday, level);
    StoreGrowsStrength(r.store, r'.store, r.students, more, Tuesday, level);
    StoreGrowsStrength(r.store, r'.store, r.students, more, Wednesday, level);
    StoreGrowsStrength(r.store, r'.store, r.students, more, Thursday, level);
    StoreGrowsStrength(r.store, r'.store, r.students, more, Friday, level);
  }

  /**
   * A held student is admitted exactly when its start date has come and its
   * schedule fits the level; it is then enrolled, with the promotion date of
   * its level.
   */
  lemma AdmitHeldMeans(r: Roster, level: int, date: int)
    requires Valid(r) && 1 <= level <= 4 && |r.queues[level - 1]| > 0
    ensures var id := r.queues[level - 1][0]; var s := r.store[id]; var r' := AdmitHeld(r, level, date);
      && (r'.students == r.students + [id] <==> s.startDate <= date && CanJoinLevel(r, s.schedule, level))
      && (r'.students == r.students + [id] ==>
            r'.store[id].existing && r'.store[id].promotionDate == Ages.PromotionDate(s.dob, s.level))
  {
    var id := r.queues[level - 1][0];
    assert r.students != r.students + [id];
  }

  /** The promoted head joins the roster exactly when its schedule fits the level, and overflows otherwise. */
  lemma AdmitPromotedMeans(r: Roster, level: int)
    requires Valid(r) && 1 <= level <= 4 && |r.promoted[level - 1]| > 0
    ensures var id := r.promoted[level - 1][0]; var r' := AdmitPromoted(r, level);
      && (r'.students == r.students + [id] <==> CanJoinLevel(r, r.store[id].schedule, level))
      && (!CanJoinLevel(r, r.store[id].schedule, level) ==> r'.overflow[level - 1] == r.overflow[level - 1] + [id])
  {
    var id := r.promoted[level - 1][0];
    assert r.students != r.students + [id];
  }

  /** Once the guard holds it keeps holding, so the loop only stops when both deques are empty. */
  lemma {:induction false} AdmitLoopDrains(r: Roster, level: int, date: int)
    requires Valid(r) && 1 <= level <= 4 && GuardHolds(r, level)
    ensures var r' := AdmitLoop(r, level, date);
      GuardHolds(r', level) && r'.promoted[level - 1] == [] && r'.queues[level - 1] == []
    decreases |r.promoted[level - 1]| + |r.queues[level - 1]|
  {
    if |r.promoted[level - 1]| > 0 {
      AdmitStep(r, level, date);
      AdmitLoopDrains(AdmitPromoted(r, level), level, date);
    } else if |r.queues[level - 1]| > 0 {
      AdmitStep(r, level, date);
      AdmitLoopDrains(AdmitHeld(r, level, date), level, date);
    }
  }

  /**
   * `admit_students_from_waiting` as a whole: with a zero weekday count at the
   * level nothing is admitted and only the overflow copy happens; otherwise
   * the hold deque ends empty and the promoted deque holds exactly the
   * overflow deque.
   */
  lemma AdmitOutcome(r: Roster, level: int, date: int)
    requires Valid(r) && 1 <= level <= 4
    ensures var r' := Admit(r, level, date);
      && (!GuardHolds(r, level) ==>
            r' == r.(promoted := r.promoted[level - 1 := r.promoted[level - 1] + r.overflow[level - 1]]))
      && (GuardHolds(r, level) ==>
            r'.queues[level - 1] == [] && r'.promoted[level - 1] == r'.overflow[level - 1])
  {
    if GuardHolds(r, level) {
      AdmitLoopDrains(r, level, date);
      var a := AdmitLoop(r, level, date);
      assert a.promoted[level - 1] + a.overflow[level - 1] == a.overflow[level - 1];
    }
  }

  lemma StoreGrowsTrans(a: seq<Student>, b: seq<Student>, c: seq<Student>)
    requires StoreGrows(a, b) && StoreGrows(b, c)
    ensures StoreGrows(a, c)
  {
  }

  lemma {:induction false} AdmitLoopStore(r: Roster, level: int, date: int)
    requires Valid(r) && 1 <= level <= 4
    ensures StoreGrows(r.store, AdmitLoop(r, level, date).store)
    decreases |r.promoted[level - 1]| + |r.queues[level - 1]|
  {
    if GuardHolds(r, level) && (|r.promoted[level - 1]| > 0 || |r.queues[level - 1]| > 0) {
      var r1 := if |r.promoted[level - 1]| > 0 then AdmitPromoted(r, level) else AdmitHeld(r, level, date);
      AdmitStep(r, level, date);
      AdmitLoopStore(r1, level, date);
      StoreGrowsTrans(r.store, r1.store, AdmitLoop(r1, level, date).store);
    }
  }

  /** Who may be admitted from the level's deques by `r`'s loop. */
  predicate Admissible(r: Roster, level: int, date: int, r': Roster, id: nat)
    requires Valid(r) && 1 <= level <= 4 && id < |r.store| && id < |r'.store|
  {
    || id in r.promoted[level - 1]
    || (id in r.queues[level - 1] && r.store[id].startDate <= date && r'.store[id].existing)
  }

  /**
   * Everyone admitted by the loop was at the head of one of the level's
   * deques: either a promoted student, or a held student whose start date
   * has come and who is now enrolled.
   */
  lemma {:induction false} AdmitLoopAdmits(r: Roster, level: int, date: int)
    requires Valid(r) && 1 <= level <= 4
    ensures var r' := AdmitLoop(r, level, date);
      && |r.students| <= |r'.students| && r'.students[..|r.students|] == r.students
      && forall j :: |r.students| <= j < |r'.students| ==> Admissible(r, level, date, r', r'.students[j])
    decreases |r.promoted[level - 1]| + |r.queues[level - 1]|
  {
    var r' := AdmitLoop(r, level, date);
    if GuardHolds(r, level) && |r.promoted[level - 1]| > 0 {
      var r1 := AdmitPromoted(r, level);
      AdmitLoopAdmits(r1, level, date);
      AdmitsFromPromoted(r, level, date, r1, r');
    } else if GuardHolds(r, level) && |r.queues[level - 1]| > 0 {
      var r1 := AdmitHeld(r, level, date);
      AdmitStep(r, level, date);
      AdmitLoopAdmits(r1, level, date);
      AdmitLoopStore(r1, level, date);
      AdmitsFromHeld(r, level, date, r1, r');
    }
  }

  lemma AdmitsFromPromoted(r: Roster, level: int, date: int, r1: Roster, r': Roster)
    requires Valid(r) && 1 <= level <= 4 && |r.promoted[level - 1]| > 0
    requires r1 == AdmitPromoted(r, level) && Valid(r') && |r'.store| == |r.store|
    requires |r1.students| <= |r'.students| && r'.students[..|r1.students|] == r1.students
    requires forall j :: |r1.students| <= j < |r'.students| ==> Admissible(r1, level, date, r', r'.students[j])
    ensures |r.students| <= |r'.students| && r'.students[..|r.students|] == r.students
    ensures forall j :: |r.students| <= j < |r'.students| ==> Admissible(r, level, date, r', r'.students[j])
  {
    var p := r.promoted[level - 1];
    assert r1.promoted[level - 1] == p[1..] && r1.store == r.store && r1.queues == r.queues;
    assert p[0] in p;
    forall j | |r.students| <= j < |r'.students|
      ensures Admissible(r, level, date, r', r'.students[j])
    {
      if j < |r1.students| {
        assert r'.students[j] == r1.students[j] == p[0];
      } else {
        assert Admissible(r1, level, date, r', r'.students[j]);
      }
    }
  }

  lemma AdmitsFromHeld(r: Roster, level: int, date: int, r1: Roster, r': Roster)
    requires Valid(r) && 1 <= level <= 4 && |r.promoted[level - 1]| == 0 && |r.queues[level - 1]| > 0
    requires r1 == AdmitHeld(r, level, date) && Valid(r') && |r'.store| == |r.store|
    requires StoreGrows(r.store, r1.store) && StoreGrows(r1.store, r'.store)
    requires r1.students == r.students
      || (r1.students == r.students + [r.queues[level - 1][0]]
          && r.store[r.queues[level - 1][0]].startDate <= date && r1.store[r.queues[level - 1][0]].existing)
    requires |r1.students| <= |r'.students| && r'.students[..|r1.students|] == r1.students
    requires forall j :: |r1.students| <= j < |r'.students| ==> Admissible(r1, level, date, r', r'.students[j])
    ensures |r.students| <= |r'.students| && r'.students[..|r.students|] == r.students
    ensures forall j :: |r.students| <= j < |r'.students| ==> Admissible(r, level, date, r', r'.students[j])
  {
    var q := r.queues[level - 1];
    assert r1.queues[level - 1] == q[1..] && r1.promoted == r.promoted;
    assert q[0] in q;
    forall j | |r.students| <= j < |r'.students|
      ensures Admissible(r, level, date, r', r'.students[j])
    {
      var id := r'.students[j];
      if j < |r1.students| {
        assert id == r1.students[j] == q[0];
        assert r'.store[id].existing;
      } else {
        assert Admissible(r1, level, date, r', id);
        assert r1.store[id].startDate == r.store[id].startDate;
      }
    }
  }

  // ---------------------------------------------------------------------
  // The sync step (`update_members`)
  // ---------------------------------------------------------------------

  /** One level of `update_members`: promote, sort the deques, admit. */
  function Step(r: Roster, level: int, date: int): (r': Roster)
    requires Valid(r) && 1 <= level <= 4
    ensures Valid(r') && |r'.store| == |r.store| && r'.capacity == r.capacity
  {
    Admit(SortWaiting(Promote(r, level, date), level), level, date)
  }

  /** The steps for levels 1 to `k`, in order. */
  function StepsTo(r: Roster, date: int, k: int): (r': Roster)
    requires Valid(r) && 0 <= k <= 4
    ensures Valid(r') && |r'.store| == |r.store| && r'.capacity == r.capacity
  {
    if k == 0 then r else Step(StepsTo(r, date, k - 1), k, date)
  }

  /** `update_members(date, None)`: the four levels in order. */
  function Sync(r: Roster, date: int): (r': Roster)
    requires Valid(r)
    ensures Valid(r') && |r'.store| == |r.store| && r'.capacity == r.capacity
  {
    StepsTo(r, date, 4)
  }

  function UpdateMembers(r: Roster, date: int, level: Option<int>): (r': Roster)
    requires Valid(r) && (level.Some? ==> 1 <= level.value <= 4)
    ensures Valid(r') && |r'.store| == |r.store| && r'.capacity == r.capacity
  {
    match level
    case None => Sync(r, date)
    case Some(l) => Step(r, l, date)
  }

  /**
   * A step keeps everyone the classroom knows, except that the never-cleared
   * overflow deque of the level is copied into its promoted deque once more.
   */
  lemma StepConserves(r: Roster, level: int, date: int)
    requires Valid(r) && 1 <= level <= 4
    ensures var r' := Step(r, level, date);
      Everyone(r') == Everyone(r) + multiset(r'.overflow[level - 1])
  {
    var a := Promote(r, level, date);
    SortWaitingConserves(a, level);
    AdmitCopiesOverflow(SortWaiting(a, level), level, date);
  }

  /** An empty classroom stays empty under a step. */
  lemma StepEmpty(capacity: seq<int>, level: int, date: int)
    requires |capacity| >= 4 && 1 <= level <= 4
    ensures Step(EmptyRoster(capacity), level, date) == EmptyRoster(capacity)
  {
    var e := EmptyRoster(capacity);
    assert Promote(e, level, date) == e;
    assert SortWaiting(e, level) == e;
    assert !GuardHolds(e, level);
    assert AdmitLoop(e, level, date) == e;
    assert e.promoted[level - 1] + e.overflow[level - 1] == [];
    assert e.promoted[level - 1 := []] == e.promoted;
  }

  // ---------------------------------------------------------------------
  // Candidate dates (`calculate_next_possible_dates`)
  // ---------------------------------------------------------------------

  /** Promotion dates on or after `p` of the entries of `ids` (at `level`, when one is given). */
  function DatesFrom(store: seq<Student>, ids: seq<nat>, level: Option<int>, p: int): seq<int>
    requires IdsBelow(ids, |store|)
  {
    if ids == [] then []
    else
      var s := store[ids[0]];
      (if (level.None? || s.level == level.value) && s.promotionDate >= p then [s.promotionDate] else [])
      + DatesFrom(store, ids[1..], level, p)
  }

  /** An entry of `ids` (at `level`, when one is given) has promotion date `d`. */
  predicate HasDate(store: seq<Student>, ids: seq<nat>, level: Option<int>, d: int)
    requires IdsBelow(ids, |store|)
  {
    exists i :: 0 <= i < |ids| && store[ids[i]].promotionDate == d && (level.None? || store[ids[i]].level == level.value)
  }

  lemma {:induction false} DatesFromMembers(store: seq<Student>, ids: seq<nat>, level: Option<int>, p: int, d: int)
    requires IdsBelow(ids, |store|)
    ensures d in DatesFrom(store, ids, level, p) <==> d >= p && HasDate(store, ids, level, d)
    decreases |ids|
  {
    if ids != [] {
      DatesFromMembers(store, ids[1..], level, p, d);
      if HasDate(store, ids, level, d) && d >= p {
        var i :| 0 <= i < |ids| && store[ids[i]].promotionDate == d && (level.None? || store[ids[i]].level == level.value);
        if i > 0 {
          assert ids[1..][i - 1] == ids[i];
        }
      }
      if HasDate(store, ids[1..], level, d) {
        var i :| 0 <= i < |ids[1..]| && store[ids[1..][i]].promotionDate == d && (level.None? || store[ids[1..][i]].level == level.value);
        assert ids[1..][i] == ids[i + 1];
      }
    }
  }

  /** The candidates one level contributes: its active students, then its hold deque. */
  function LevelDates(r: Roster, l: int, p: int): seq<int>
    requires Valid(r) && 1 <= l <= 4
  {
    DatesFrom(r.store, r.students, Some(l), p) + DatesFrom(r.store, r.queues[l - 1], None, p)
  }

  /** An active student at level `l`, or someone on its hold deque, has promotion date `d`. */
  predicate LevelHasDate(r: Roster, l: int, d: int)
    requires Valid(r) && 1 <= l <= 4
  {
    HasDate(r.store, r.students, Some(l), d) || HasDate(r.store, r.queues[l - 1], None, d)
  }

  lemma LevelDatesMembers(r: Roster, l: int, p: int, d: int)
    requires Valid(r) && 1 <= l <= 4
    ensures d in LevelDates(r, l, p) <==> d >= p && LevelHasDate(r, l, d)
  {
    DatesFromMembers(r.store, r.students, Some(l), p, d);
    DatesFromMembers(r.store, r.queues[l - 1], None, p, d);
  }

  /** `calculate_next_possible_dates(level, p)`: two levels below, one below, then the level itself. */
  function NextPossibleDates(r: Roster, level: int, p: int): seq<int>
    requires Valid(r) && 1 <= level <= 4
  {
    (if level > 2 then LevelDates(r, level - 2, p) else [])
    + (if level > 1 then LevelDates(r, level - 1, p) else [])
    + LevelDates(r, level, p)
  }

  /** A level whose promotion dates are candidates for `level`: it and the two below it. */
  predicate Near(level: int, l: int) {
    1 <= l && level - 2 <= l <= level
  }

  /**
   * The candidates are exactly the promotion dates on or after `p` of the
   * active students at the level or the two below it, and of everyone on
   * the hold deques of those levels; the promoted deques do not contribute.
   */
  lemma NextPossibleDatesMembers(r: Roster, level: int, p: int, d: int)
    requires Valid(r) && 1 <= level <= 4
    ensures d in NextPossibleDates(r, level, p) <==>
      d >= p && exists l :: Near(level, l) && LevelHasDate(r, l, d)
  {
    LevelDatesMembers(r, level, p, d);
    if level > 1 {
      LevelDatesMembers(r, level - 1, p, d);
    }
    if level > 2 {
      LevelDatesMembers(r, level - 2, p, d);
    }
    if d >= p && exists l :: Near(level, l) && LevelHasDate(r, l, d) {
      var l :| Near(level, l) && LevelHasDate(r, l, d);
      assert l == level || l == level - 1 || l == level - 2;
    }
  }

  /** The overflow copies the steps up to level `k` add: each level's overflow deque after its step. */
  function Copies(r: Roster, date: int, k: int): multiset<nat>
    requires Valid(r) && 0 <= k <= 4
  {
    if k == 0 then multiset{} else Copies(r, date, k - 1) + multiset(StepsTo(r, date, k).overflow[k - 1])
  }

  /**
   * Nobody the classroom knows is lost or invented by the steps up to level
   * `k`; the only additions are the overflow copies.
   */
  lemma {:induction false} StepsToConserves(r: Roster, date: int, k: int)
    requires Valid(r) && 0 <= k <= 4
    ensures Everyone(StepsTo(r, date, k)) == Everyone(r) + Copies(r, date, k)
    decreases k
  {
    if k > 0 {
      var a := StepsTo(r, date, k - 1);
      var b := StepsTo(r, date, k);
      assert Copies(r, date, k) == Copies(r, date, k - 1) + multiset(b.overflow[k - 1]);
      StepsToConserves(r, date, k - 1);
      StepsToStep(r, date, k);
      AddTwice(Everyone(r), Everyone(a), Everyone(b), Copies(r, date, k - 1), multiset(b.overflow[k - 1]));
    }
  }

  /** The step for level `k` adds exactly the copies it puts on that level's overflow deque. */
  lemma StepsToStep(r: Roster, date: int, k: int)
    requires Valid(r) && 1 <= k <= 4
    ensures var b := StepsTo(r, date, k);
      Everyone(b) == Everyone(StepsTo(r, date, k - 1)) + multiset(b.overflow[k - 1])
  {
    StepConserves(StepsTo(r, date, k - 1), k, date);
  }

  lemma AddTwice(x: multiset<nat>, y: multiset<nat>, z: multiset<nat>, m: multiset<nat>, n: multiset<nat>)
    requires y == x + m && z == y + n
    ensures z == x + (m + n)
  {
  }

  /** An empty classroom stays empty under a sync. */
  lemma {:induction false} StepsToEmpty(capacity: seq<int>, date: int, k: int)
    requires |capacity| >= 4 && 0 <= k <= 4
    ensures StepsTo(EmptyRoster(capacity), date, k) == EmptyRoster(capacity)
  {
    if k > 0 {
      StepsToEmpty(capacity, date, k - 1);
      StepEmpty(capacity, k, date);
    }
  }

  // ---------------------------------------------------------------------
  // The admission search (`apply_for_admission`)
  // ---------------------------------------------------------------------

  /** What `apply_for_admission` returns: a date, the schedule and the flexible flag, or nothing. */
  datatype Outcome = Admitted(date: int, schedule: seq<Weekday>, flexible: bool) | NotFound

  /** An active Flexible-program student at the level. */
  predicate FlexibleAt(s: Student, level: int) {
    s.existing && s.level == level && s.program == Flexible
  }

  predicate HasFlexible(r: Roster, level: int)
    requires Valid(r)
  {
    exists i :: 0 <= i < |r.students| && FlexibleAt(r.store[r.students[i]], level)
  }

  /** The applicant is no older than the level's age limit (in 365-day years) on day `d`. */
  predicate WithinAgeLimit(d: int, dob: int, level: int)
    requires 1 <= level <= 4
  {
    d - dob <= 365 * Ages.AgeLimit(level).value
  }

  /** `r` is the roster of some classroom right after `update_members(d, None)`. */
  ghost predicate SyncedTo(r: Roster, d: int) {
    exists r0 {:trigger Sync(r0, d)} :: Valid(r0) && r == Sync(r0, d)
  }

  /**
   * The forward scan over the candidate dates: stop at the first date past
   * the age limit; otherwise sync to the date and stop there if the
   * applicant fits. Gives the roster after the scan and the date found.
   */
  function Scan(r: Roster, dates: seq<int>, dob: int, level: int, schedule: seq<Weekday>): (res: (Roster, Option<int>))
    requires Valid(r) && 1 <= level <= 4
    ensures Valid(res.0) && |res.0.store| == |r.store| && res.0.capacity == r.capacity
    decreases |dates|
  {
    if dates == [] || !WithinAgeLimit(dates[0], dob, level) then (r, None)
    else
      var r1 := Sync(r, dates[0]);
      if CanJoinLevel(r1, schedule, level) then (r1, Some(dates[0]))
      else Scan(r1, dates[1..], dob, level, schedule)
  }

  /** `d` is one of `dates`, and neither it nor any date before it is past the age limit. */
  predicate FoundWithin(dates: seq<int>, d: int, dob: int, level: int)
    requires 1 <= level <= 4
  {
    exists k :: 0 <= k < |dates| && dates[k] == d && forall j :: 0 <= j <= k ==> WithinAgeLimit(dates[j], dob, level)
  }

  /** A date found further on is still found once an earlier date within the limit is put in front. */
  lemma FoundWithinCons(dates: seq<int>, d: int, dob: int, level: int)
    requires 1 <= level <= 4 && dates != [] && WithinAgeLimit(dates[0], dob, level)
    requires FoundWithin(dates[1..], d, dob, level)
    ensures FoundWithin(dates, d, dob, level)
  {
    var rest := dates[1..];
    var k :| 0 <= k < |rest| && rest[k] == d && forall j :: 0 <= j <= k ==> WithinAgeLimit(rest[j], dob, level);
    assert dates[k + 1] == rest[k];
    forall j | 0 <= j <= k + 1
      ensures WithinAgeLimit(dates[j], dob, level)
    {
      if j > 0 {
        assert dates[j] == rest[j - 1];
      }
    }
  }

  /**
   * A date the scan finds is one of the candidates, every candidate up to
   * it is within the age limit, and the applicant fits the roster as it is
   * right after syncing to that date.
   */
  lemma {:induction false} ScanFound(r: Roster, dates: seq<int>, dob: int, level: int, schedule: seq<Weekday>)
    requires Valid(r) && 1 <= level <= 4
    ensures var res := Scan(r, dates, dob, level, schedule);
      res.1.Some? ==>
        && CanJoinLevel(res.0, schedule, level)
        && SyncedTo(res.0, res.1.value)
        && FoundWithin(dates, res.1.value, dob, level)
    decreases |dates|
  {
    if dates != [] && WithinAgeLimit(dates[0], dob, level) {
      var r1 := Sync(r, dates[0]);
      if CanJoinLevel(r1, schedule, level) {
        assert Scan(r, dates, dob, level, schedule) == (r1, Some(dates[0]));
        assert SyncedTo(r1, dates[0]) by {
          assert Valid(r) && r1 == Sync(r, dates[0]);
        }
        assert FoundWithin(dates, dates[0], dob, level) by {
          assert dates[0] == dates[0] && forall j :: 0 <= j <= 0 ==> WithinAgeLimit(dates[j], dob, level);
        }
      } else {
        var rest := dates[1..];
        ScanFound(r1, rest, dob, level, schedule);
        var res := Scan(r1, rest, dob, level, schedule);
        assert Scan(r, dates, dob, level, schedule) == res;
        if res.1.Some? {
          FoundWithinCons(dates, res.1.value, dob, level);
        }
      }
    }
  }

  /** The applicant's level, from the date of birth on day `now`. */
  function ApplicantLevel(dob: int, now: int): (level: int)
    requires Ages.LevelByDob(dob, now).Some?
    ensures 1 <= level <= 4
  {
    Ages.LevelByDob(dob, now).value
  }

  /** `sorted` on dates: every date is its own key. */
  function DateKeys(dates: seq<int>): (keys: map<int, int>)
    ensures forall d :: d in dates ==> Sorting.Key(keys, d) == d
  {
    map d | d in dates :: d
  }

  /** The sorted candidate dates for the applicant's level after syncing to `p`. */
  function SortedCandidates(r: Roster, level: int, p: int): seq<int>
    requires Valid(r) && 1 <= level <= 4
  {
    Sorting.SortBy(NextPossibleDates(r, level, p), DateKeys(NextPossibleDates(r, level, p)))
  }

  /**
   * `apply_for_admission`: sync to the preferred date (today when none is
   * given); admit on that date if the applicant fits; otherwise offer a
   * flexible place 32 days from today if an active Flexible student is at
   * the level; otherwise scan the sorted candidate dates.
   */
  function Apply(r: Roster, dob: int, schedule: seq<Weekday>, now: int, preferred: Option<int>): (res: (Roster, Outcome))
    requires Valid(r) && Ages.LevelByDob(dob, now).Some?
    ensures Valid(res.0) && |res.0.store| == |r.store| && res.0.capacity == r.capacity
  {
    var level := ApplicantLevel(dob, now);
    var p := preferred.GetOr(now);
    var r1 := Sync(r, p);
    if CanJoinLevel(r1, schedule, level) then (r1, Admitted(p, schedule, false))
    else if HasFlexible(r1, level) then (r1, Admitted(now + 32, schedule, true))
    else
      var (r2, found) := Scan(r1, SortedCandidates(r1, level, p), dob, level, schedule);
      (r2, if found.Some? then Admitted(found.value, schedule, false) else NotFound)
  }

  /** One step of the scan, for a date within the age limit. */
  lemma ScanAt(r: Roster, dates: seq<int>, dob: int, level: int, schedule: seq<Weekday>)
    requires Valid(r) && 1 <= level <= 4 && dates != [] && WithinAgeLimit(dates[0], dob, level)
    ensures var r1 := Sync(r, dates[0]);
      Scan(r, dates, dob, level, schedule)
      == if CanJoinLevel(r1, schedule, level) then (r1, Some(dates[0])) else Scan(r1, dates[1..], dob, level, schedule)
  {
  }

  /** When the applicant fits after syncing to the preferred date, that date is the outcome. */
  lemma ApplyOnPreferred(r: Roster, dob: int, schedule: seq<Weekday>, now: int, preferred: Option<int>)
    requires Valid(r) && Ages.LevelByDob(dob, now).Some?
    requires CanJoinLevel(Sync(r, preferred.GetOr(now)), schedule, ApplicantLevel(dob, now))
    ensures var p := preferred.GetOr(now);
      Apply(r, dob, schedule, now, preferred) == (Sync(r, p), Admitted(p, schedule, false))
  {
  }

  /** When neither the preferred date nor the flexible offer applies, the outcome is the scan's. */
  lemma ApplyScans(r: Roster, dob: int, schedule: seq<Weekday>, now: int, preferred: Option<int>)
    requires Valid(r) && Ages.LevelByDob(dob, now).Some?
    requires var r1 := Sync(r, preferred.GetOr(now));
      !CanJoinLevel(r1, schedule, ApplicantLevel(dob, now)) && !HasFlexible(r1, ApplicantLevel(dob, now))
    ensures var level := ApplicantLevel(dob, now);
      var p := preferred.GetOr(now);
      var r1 := Sync(r, p);
      var res := Scan(r1, SortedCandidates(r1, level, p), dob, level, schedule);
      Apply(r, dob, schedule, now, preferred) == (res.0, if res.1.Some? then Admitted(res.1.value, schedule, false) else NotFound)
  {
  }

  /**
   * Any date `apply_for_admission` returns without the flexible flag is the
   * preferred date or a candidate date on or after it within the age limit,
   * and the applicant fits the roster as it is right after syncing to it.
   */
  lemma ApplyAdmits(r: Roster, dob: int, schedule: seq<Weekday>, now: int, preferred: Option<int>)
    requires Valid(r) && Ages.LevelByDob(dob, now).Some?
    ensures var (r', o) := Apply(r, dob, schedule, now, preferred);
      var level := ApplicantLevel(dob, now);
      var p := preferred.GetOr(now);
      o.Admitted? && !o.flexible ==>
        && o.schedule == schedule
        && CanJoinLevel(r', schedule, level)
        && SyncedTo(r', o.date)
        && (o.date == p || (o.date in NextPossibleDates(Sync(r, p), level, p) && WithinAgeLimit(o.date, dob, level)))
  {
    var level := ApplicantLevel(dob, now);
    var p := preferred.GetOr(now);
    var r1 := Sync(r, p);
    if !CanJoinLevel(r1, schedule, level) && !HasFlexible(r1, level) {
      var dates := SortedCandidates(r1, level, p);
      ScanFound(r1, dates, dob, level, schedule);
      var res := Scan(r1, dates, dob, level, schedule);
      if res.1.Some? {
        Sorting.SortByPermutes(NextPossibleDates(r1, level, p), DateKeys(NextPossibleDates(r1, level, p)));
        var k :| 0 <= k < |dates| && dates[k] == res.1.value && forall j :: 0 <= j <= k ==> WithinAgeLimit(dates[j], dob, level);
        assert dates[k] in multiset(dates);
      }
    }
  }

  /**
   * The flexible offer is made exactly when the applicant does not fit after
   * syncing to the preferred date and an active Flexible student is at the
   * level; it is dated 32 days from today whatever the preferred date.
   */
  lemma ApplyFlexible(r: Roster, dob: int, schedule: seq<Weekday>, now: int, preferred: Option<int>)
    requires Valid(r) && Ages.LevelByDob(dob, now).Some?
    ensures var (r', o) := Apply(r, dob, schedule, now, preferred);
      var level := ApplicantLevel(dob, now);
      var r1 := Sync(r, preferred.GetOr(now));
      && (o.Admitted? && o.flexible <==> !CanJoinLevel(r1, schedule, level) && HasFlexible(r1, level))
      && (o.Admitted? && o.flexible ==> o.date == now + 32 && r' == r1)
      && (o.NotFound? ==> !CanJoinLevel(r1, schedule, level) && !HasFlexible(r1, level))
  {
  }

  /** An empty classroom with room at every level admits any applicant on the preferred date. */
  lemma EmptyClassroomAdmits(capacity: seq<int>, dob: int, schedule: seq<Weekday>, now: int, preferred: Option<int>)
    requires |capacity| >= 4 && forall l :: 0 <= l < 4 ==> capacity[l] > 0
    requires Ages.LevelByDob(dob, now).Some?
    ensures Apply(EmptyRoster(capacity), dob, schedule, now, preferred)
         == (EmptyRoster(capacity), Admitted(preferred.GetOr(now), schedule, false))
  {
    var e := EmptyRoster(capacity);
    var level := ApplicantLevel(dob, now);
    var p := preferred.GetOr(now);
    StepsToEmpty(capacity, p, 4);
    assert Sync(e, p) == e;
    CanJoinLevelMeans(e, schedule, level);
    assert CanJoinLevel(Sync(e, p), schedule, level);
  }

  // ---------------------------------------------------------------------
  // Key figures (`kpi_calculate`)
  // ---------------------------------------------------------------------

  const SecondsPerDay := 86400

  /** Midnight of day `d` is at or before the moment `second` seconds into day `m`. */
  predicate NotAfter(d: int, m: int, second: int) {
    d * SecondsPerDay <= m * SecondsPerDay + second
  }

  /** Midnight of day `d` is at or after the moment `second` seconds into day `m`. */
  predicate NotBefore(d: int, m: int, second: int) {
    d * SecondsPerDay >= m * SecondsPerDay + second
  }

  /** Entries of `ids` at `level`, whether active or not. */
  function ActiveAt(store: seq<Student>, ids: seq<nat>, level: int): nat
    requires IdsBelow(ids, |store|)
  {
    if ids == [] then 0
    else ActiveAt(store, ids[..|ids| - 1], level) + (if store[ids[|ids| - 1]].level == level then 1 else 0)
  }

  /**
   * How much one student adds to the graduating-soon counter: one if the
   * promotion is due within 60 days, and one more if it is 300 days away
   * or more.
   */
  function SoonWeight(s: Student, now: int, second: int): nat {
    (if NotAfter(s.promotionDate, now + 60, second) then 1 else 0)
    + (if NotBefore(s.promotionDate, now + 300, second) then 1 else 0)
  }

  function SoonAt(store: seq<Student>, ids: seq<nat>, level: int, now: int, second: int): nat
    requires IdsBelow(ids, |store|)
  {
    if ids == [] then 0
    else
      var s := store[ids[|ids| - 1]];
      SoonAt(store, ids[..|ids| - 1], level, now, second) + (if s.level == level then SoonWeight(s, now, second) else 0)
  }

  /** Entries at `level` that started no earlier than 60 days before the moment. */
  function RecentAt(store: seq<Student>, ids: seq<nat>, level: int, now: int, second: int): nat
    requires IdsBelow(ids, |store|)
  {
    if ids == [] then 0
    else
      var s := store[ids[|ids| - 1]];
      RecentAt(store, ids[..|ids| - 1], level, now, second)
      + (if s.level == level && NotBefore(s.startDate, now - 60, second) then 1 else 0)
  }

  /** A four-slot counter list holding `n` at the level's slot and zero elsewhere. */
  function Slot(level: int, n: int): (c: seq<int>)
    requires 1 <= level <= 4
    ensures |c| == 4 && c[level - 1] == n
    ensures forall l :: 0 <= l < 4 && l != level - 1 ==> c[l] == 0
  {
    [0, 0, 0, 0][level - 1 := n]
  }

  /** The four lists `kpi_calculate(level)` returns, `second` seconds into day `now`. */
  datatype Kpi = Kpi(active: seq<int>, hold: seq<int>, graduatingSoon: seq<int>, admittedRecent: seq<int>)

  function Kpis(r: Roster, level: int, now: int, second: int): Kpi
    requires Valid(r) && 1 <= level <= 4
  {
    Kpi(Slot(level, ActiveAt(r.store, r.students, level)),
        Slot(level, |r.queues[level - 1]|),
        Slot(level, SoonAt(r.store, r.students, level, now, second)),
        Slot(level, RecentAt(r.store, r.students, level, now, second)))
  }

  /**
   * Within a day, the two graduating-soon tests never both hold, so a
   * student adds at most one; a student whose promotion is more than 300 days
   * away is still counted as graduating soon.
   */
  lemma SoonWeightAtMostOne(s: Student, now: int, second: int)
    requires 0 <= second < SecondsPerDay
    ensures SoonWeight(s, now, second) <= 1
    ensures s.promotionDate > now + 300 ==> SoonWeight(s, now, second) == 1
  {
    if NotAfter(s.promotionDate, now + 60, second) {
      assert s.promotionDate * SecondsPerDay < (now + 61) * SecondsPerDay;
      assert s.promotionDate < now + 61;
    }
    if s.promotionDate > now + 300 {
      assert s.promotionDate * SecondsPerDay >= (now + 301) * SecondsPerDay;
    }
  }

  /** Neither the graduating-soon nor the recent counter exceeds the number of students at the level. */
  lemma {:induction false} KpiBounded(store: seq<Student>, ids: seq<nat>, level: int, now: int, second: int)
    requires IdsBelow(ids, |store|) && 0 <= second < SecondsPerDay
    ensures SoonAt(store, ids, level, now, second) <= ActiveAt(store, ids, level)
    ensures RecentAt(store, ids, level, now, second) <= ActiveAt(store, ids, level)
  {
    if ids != [] {
      KpiBounded(store, ids[..|ids| - 1], level, now, second);
      SoonWeightAtMostOne(store[ids[|ids| - 1]], now, second);
    }
  }

  /** The capacity test's count on any day never exceeds the students at the level. */
  lemma {:induction false} CountAtMostActive(store: seq<Student>, ids: seq<nat>, level: int, day: Weekday)
    requires IdsBelow(ids, |store|)
    ensures CountAt(store, ids, level, day) <= ActiveAt(store, ids, level)
  {
    if ids != [] {
      var last := ids[|ids| - 1];
      CountAtMostActive(store, ids[..|ids| - 1], level, day);
      CountAtSnoc(store, ids[..|ids| - 1], last, level, day);
      assert ids[..|ids| - 1] + [last] == ids;
    }
  }

  lemma {:induction false} CountAtSnoc(store: seq<Student>, ids: seq<nat>, id: nat, level: int, day: Weekday)
    requires IdsBelow(ids, |store|) && id < |store|
    ensures CountAt(store, ids + [id], level, day) == CountAt(store, ids, level, day) + (if Attends(store[id], level, day) then 1 else 0)
    decreases |ids|
  {
    if ids != [] {
      assert (ids + [id])[1..] == ids[1..] + [id];
      CountAtSnoc(store, ids[1..], id, level, day);
    }
  }
}
