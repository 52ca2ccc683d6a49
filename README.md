# Daycare admission engine in Dafny

This project models the admission engine of a daycare planning tool. The
original `main.py` keeps one `Classroom` with:

- a capacity per level (1 Infants, 2 Wobblers, 3 Older Toddlers, 4 Preschool);
- the list of active students;
- three per-level deques: the hold list, the promoted students waiting for a
  place, and an overflow deque;
- a list of graduated students.

The engine moves students through these containers. It promotes students
whose promotion date has passed, sorts the deques by start date, and admits
from the deques while every weekday count at the level is non-zero. It also
answers an applicant's request for a joining date by searching forward over
the promotion dates of the students already there.

The model is split into these modules:

- `Calendar` (`calendar.dfy`): dates as day numbers from 1970-01-01 in the
  proleptic Gregorian calendar. `AddYears` is `relativedelta(years=k)`: the
  same month and day k years later, with 29 February clamped to
  28 February. `DayName` is `strftime('%A')`.
- `Ages` (`ages.dfy`): the three age classifiers, the age limits and the
  promotion date.
- `Strings` (`strings.dfy`): Python's `split`, `join`, `replace` and `strip`
  on `seq<char>`.
- `Schedules` (`schedules.dfy`): `convert_days` and `is_scheduled_to_attend`,
  with round trips from the spreadsheet's schedule text.
- `Sorting` (`sorting.dfy`): Python's stable `sorted(key=...)`, proved
  ordered, a permutation of its input, and stable.
- `Admissions` (`admissions.dfy`): the engine as functions on a value
  `Roster` that holds every attribute of a classroom.
- `Classrooms` (`classroom.dfy`): the `Classroom` class itself. Its fields
  are updated in place, loop by loop as the source does. Every method
  ensures that the new state is the matching `Admissions` function of the
  old one.

Students are shared mutable objects in the source. The same object can sit
in the active list and in a deque, and an update to one of its fields is
seen through both. In the model, every student record lives once in
`store`, and the lists and deques hold indices into it.

The model keeps the engine's behaviour as written:

- **Skipped student.** `promote_students` removes from the list it is
  iterating over, so the student after a removed one is not examined in that
  pass (`PromoteSkipsAfterRemoval`).
- **Overflow never cleared.** The overflow deque is appended to the promoted
  deque at the end of every admission call and is never emptied, so its
  content is added again on every call (`StepConserves`,
  `AdmitCopiesOverflow`).
- **Loop guard.** The admission loop runs only while no weekday count at the
  level is zero. A level where some weekday has no enrolled student therefore
  admits nobody (`UnlistedNoGuard`), and so does a level without enrolled
  students (`NoEnrolledNoGuard`).
- **Graduating-soon tally.** `kpi_calculate` counts a student whose promotion
  is 300 days away or more as graduating soon (`SoonWeightAtMostOne`).
- **Two classifiers disagree.** `calculate_level` and the `Student`
  classifier use 365 and 365.25 days per year, and `calculate_level`
  includes age 5 (`ClassifiersDiffer`).
- **Level 3 is never promoted.** Its next level is 4, which neither `< 4`
  branch accepts, and the graduation branch needs level 4
  (`PromoteLevelThreeIdle`).

Where the code reads as if it meant something else, the model follows the
code as written:

- The admission loop's guard (main.py:456) tests that no weekday count at
  the level is zero. Capacity is tested separately, student by student, by
  `can_join_level` (main.py:460, 467).
- The overflow deque is appended to the promoted deque at main.py:475, and
  no line of the engine ever empties it.
- An admitted student's promotion date is requested with the start date as
  argument (main.py:469), but `calculate_promotion_date` (main.py:519-525)
  does not use that date for its result. It is always the birthday at the
  level's age limit.
- Both classifiers are kept as written: `calculate_level_by_dob`
  (main.py:255-260) and `calculate_level` (main.py:486-497), with their
  different year lengths and upper bounds.

## Model

| member | source | states |
|---|---|---|
| Calendar.AddYearsIncreasing | main.py:524 | adding more years gives a strictly later date |
| Calendar.AddZeroYears | main.py:524 | adding zero years is the identity |
| Calendar.YearOf | main.py:524 | the year found holds the day: it starts on or before it and the next year starts after it |
| Calendar.ShiftDayOfYear | main.py:524 | moving a month and day to a year of the other leapness shifts its day-of-year index by at most one |
| Calendar.DayName | main.py:575 | `strftime('%A')` is one of the seven English weekday names, and day 0 (1970-01-01) is a Thursday |
| Calendar.DayNameWeekly | main.py:575 | the weekday name repeats every seven days |
| Calendar.DayNameNext | main.py:575 | the day after a day has the next name in the Monday-to-Sunday cycle, Sunday wrapping round to Monday |
| Calendar.LeapDay1972 | main.py:575 | 29 February 1972 is day 789 and is named Tuesday |
| Ages.BandOf | main.py:257-260 | a band found lies at or after the start index, its [min, max) range holds the age, and no earlier band from the start index holds it; None means that no band from the start index holds the age |
| Ages.LevelByDob | main.py:255-260 | level 1 to 4 exactly for ages in [0,1), [1,2), [2,3), [3,5) years of 365.25 days, stated on whole days; None exactly outside [0,5) |
| Ages.ClassNameByDob | main.py:262-267 | "Graduated" exactly when there is no level; otherwise the class whose level `calculate_level_by_dob` gives |
| Ages.CalculateLevel | main.py:487-498 | the four bands in 365-day years, with age 5 itself still in level 4; None outside |
| Ages.CorrectClassByAge | main.py:547-559 | None exactly for a missing age; a class of the right level below 5 years; "Graduated" otherwise |
| Ages.ClassifiersAgree | main.py:547-559 | `get_correct_class_by_age` and the `classes` table give the same class for every age computed from whole days as `(now - dob) / 365.25` |
| Ages.LevelByDobMonotone | main.py:255-260 | a child never gets a lower level later |
| Ages.CalculateLevelMonotone | main.py:487-498 | the same for `calculate_level` |
| Ages.ClassifiersDiffer | main.py:487-498 | on day 365 `calculate_level` gives 2 while the 365.25-day classifier gives 1; on day 1826 only the latter still gives a level |
| Ages.AgeLimit | main.py:527-535 | defined exactly for levels 1 to 4, and equal to the upper end of that level's band |
| Ages.PromotionDate | main.py:519-525 | the promotion date is after the date of birth |
| Ages.PromotionDateIncreasing | main.py:519-535 | a higher level has a strictly later promotion date |
| Strings.Find | main.py:306 | a match found is an occurrence at or after the start, and no occurrence lies before it |
| Strings.Split | main.py:306 | `split` gives at least one part, no part holds the separator, and joining the parts with the separator gives the text back |
| Strings.SplitJoin | main.py:314-317 | splitting a join gives back the parts when no part holds the separator |
| Strings.StripLeft | main.py:574 | the result is a suffix of the input, everything cut off before it is white space, and it does not start with white space |
| Strings.StripRight | main.py:574 | the result is a prefix of the input, everything cut off after it is white space, and it does not end with white space |
| Strings.StripClean | main.py:574 | text that neither starts nor ends with white space is left unchanged by `strip` |
| Schedules.LookupAbbreviation | main.py:299-304 | `day_mapping` finds a day exactly for that day's abbreviation and nothing for any other text |
| Schedules.FullNames | main.py:312 | one full name per day, in order |
| Schedules.Entries | main.py:306 | the spreadsheet text of each day is its abbreviation followed by the session marker |
| Schedules.EntryFirstWord | main.py:310 | the first word of a spreadsheet entry is the day's abbreviation |
| Schedules.ScheduleDaysOfEntries | main.py:309-312 | the days recognised in the spreadsheet entries of a list of days are that list |
| Schedules.LookupOfAbbreviation | main.py:299-304 | the `day_mapping` of `convert_days` reads each day's abbreviation back as that day |
| Schedules.ScheduleDaysCons | main.py:309-312 | an entry made of a day's abbreviation and the session marker is read as that day, in front of whatever the later entries read as |
| Schedules.ConvertDaysRoundTrip | main.py:298-314 | `convert_days` of the spreadsheet text of a list of days is their full names joined by "," |
| Schedules.ScheduleListRoundTrip | main.py:316-319 | the stored list is those full names, or `[""]` when there is no day |
| Schedules.ResolveAbbreviation | main.py:565-574 | a token with or without a leading space resolves to the day's full name |
| Schedules.DayNameOfAbbreviation | main.py:565-574 | the mapping of `is_scheduled_to_attend` sends each weekday's abbreviation to its full name |
| Schedules.AttendTokensRoundTrip | main.py:574 | `is_scheduled_to_attend` reads the spreadsheet text of a list of days back as their full names |
| Schedules.AttendRoundTrip | main.py:562-576 | on such a schedule a date is attended exactly when its weekday is one of the listed days |
| Schedules.NamesListed | main.py:576 | a day name is among the full names of a list of days exactly when one of the listed days has that name |
| Sorting.WithKeyMeans | main.py:449 | the result holds exactly the input's entries with the given key: each of its entries has that key and comes from the input, and every input entry with that key is in it |
| Sorting.SortBySorted | main.py:449 | `sorted` output is in non-decreasing key order |
| Sorting.SortByPermutes | main.py:449 | `sorted` output is a permutation of its input |
| Sorting.SortByStable | main.py:449 | entries with equal keys keep their relative order |
| Sorting.SortBySortedIdentity | main.py:452 | sorting a sorted deque changes nothing |
| Admissions.EmptyRoster | main.py:276-282 | a new classroom is valid and all its lists and deques are empty |
| Admissions.NewStudent | main.py:245-253 | a loaded student has a level from 1 to 4, is not yet enrolled, and has the promotion date of its level, which is after its birth |
| Admissions.AddActive | main.py:321-328 | an active row is stored enrolled and its id joins the end of the roster list; capacities, deques and the graduated list stay; the classroom knows exactly one more student |
| Admissions.AddHeld | main.py:330-336 | a hold row is stored and its id joins the back of its level's hold deque; the roster list, the other deques, the graduated list and the capacities stay; the classroom knows exactly one more student |
| Admissions.CountAt | main.py:480-482 | the count of students at the level on a day is at most the roster size |
| Admissions.CountAtPositive | main.py:480-482 | the count is positive exactly when some student on the roster is at the level and lists the day |
| Admissions.CanJoinLevelMeans | main.py:477-485 | a schedule fits exactly when every one of its days has fewer students at the level than its capacity |
| Admissions.CanJoinLevelReads | main.py:477-485 | the capacity test depends only on the capacities, the records and the roster list |
| Admissions.EmptyScheduleJoins | main.py:479-485 | an empty schedule always fits |
| Admissions.Occurrences | main.py:349-352 | a day counts for a student exactly when its schedule lists it, and at most once per listing |
| Admissions.StrengthGrows | main.py:456 | weekday counts only grow when students are appended or enrolled |
| Admissions.UnlistedZero | main.py:347-352 | the count of a weekday that no enrolled student of the level lists is zero |
| Admissions.UnlistedNoGuard | main.py:456 | if no enrolled student of the level lists some weekday, the admission loop for that level does not run |
| Admissions.NoEnrolledNoGuard | main.py:456 | with nobody enrolled at the level the admission loop does not run |
| Admissions.RemoveFirst | main.py:442 | `list.remove` takes away exactly one occurrence of the student, and leaves a list without it unchanged |
| Admissions.RemoveFirstAt | main.py:442 | the occurrence taken away is the first one, and the entries before and after it keep their order |
| Admissions.PromoteInPlace | main.py:434-436 | only the student's record changes, to one level up with that level's promotion date; the roster list, all deques, the graduated list and the capacities stay |
| Admissions.PromoteToQueue | main.py:437-442 | the student's record moves one level up with that level's promotion date, and its start date becomes its old promotion date; the student leaves the roster and joins the back of the promoted deque of its new level; nothing else moves |
| Admissions.Graduate | main.py:443-445 | the student leaves the roster and joins the back of the graduated list; no record or deque changes |
| Admissions.PromoteOneShape | main.py:431-445 | one iteration leaves the classroom alone or takes exactly one of the three branches, each only for a due student of the right level; the in-place branch is taken exactly when the next level has room for the student's schedule, the deque branch exactly when it has not |
| Admissions.PromoteFrom | main.py:429-445 | the promotion loop from any position keeps the roster well formed and neither loses nor duplicates anyone: everyone the classroom knows is still there, counted with multiplicity |
| Admissions.PromoteNext | main.py:430-445 | the same for the loop once past its test at a position: the handled student stays in the classroom, then the rest of the loop runs |
| Admissions.PromoteLevels | main.py:429-445 | every student record is untouched or moved up exactly one level from a due student below level 3, with the new level's promotion date and either its old start date or its old promotion date as start date |
| Admissions.PromoteGraduates | main.py:443-445 | only a level-4 pass graduates anyone, only due enrolled level-4 students, appended after the old list; such a pass changes no record and no promoted deque |
| Admissions.OneGraduation | main.py:443-445 | one iteration that appends at most the due level-4 student it looks at, and at level 4 keeps the records and promoted deques, stays within what a pass may do to the graduated list |
| Admissions.GraduationOnlyTrans | main.py:429-445 | two such changes in a row are again such a change, so the whole pass is one |
| Admissions.PromoteLevelThreeIdle | main.py:432-445 | a level-3 pass changes nothing |
| Admissions.PromoteSkipsAfterRemoval | main.py:430-445 | on a roster of two enrolled level-4 students who are both due, one pass graduates the first and leaves the second on the roster |
| Admissions.StartKeys | main.py:449 | each deque entry's sort key is its start date |
| Admissions.SortQueue | main.py:448-453 | the level's deque becomes its stable sort by start date; the other levels are unchanged |
| Admissions.WaitingOrdered | main.py:447-453 | both deques of the level end ordered by start date, with the same entries, ties in their earlier order, and the other levels unchanged |
| Admissions.SortWaitingConserves | main.py:447-453 | sorting moves nobody into or out of the classroom |
| Admissions.AdmitPromoted | main.py:457-463 | the head of the promoted deque is popped and either joins the roster or the back of the overflow deque |
| Admissions.AdmitHeld | main.py:464-472 | the head of the hold deque is popped and either joins the roster enrolled or the back of the overflow deque |
| Admissions.AdmitPromotedMeans | main.py:457-463 | the promoted head joins the roster exactly when its schedule fits the level, and otherwise goes to the back of the level's overflow deque |
| Admissions.AdmitHeldMeans | main.py:464-472 | a held student is admitted exactly when its start date has come and its schedule fits; it is then enrolled with its level's promotion date |
| Admissions.AdmitStep | main.py:456-472 | one round only enrols and appends, so the loop guard keeps holding |
| Admissions.AdmitLoopDrains | main.py:456-474 | once the guard holds the loop ends only with both deques of the level empty |
| Admissions.AdmitLoopConserves | main.py:456-474 | the admission loop only moves students between the deques and the roster |
| Admissions.AdmitLoopStore | main.py:456-474 | admission keeps every record's level, schedule and start date, and never un-enrols anyone |
| Admissions.AdmitLoopAdmits | main.py:456-474 | the roster is only appended to, and everyone appended came from the level's promoted deque or is a held student whose start date has come and who is now enrolled |
| Admissions.AdmitCopiesOverflow | main.py:475 | an admission call adds a second copy of the whole overflow deque to the classroom |
| Admissions.AdmitOutcome | main.py:455-475 | with a zero weekday count only the overflow copy happens; otherwise the hold deque ends empty and the promoted deque equals the overflow deque |
| Admissions.Admit | main.py:455-475 | admission keeps the records' number, the capacities and the graduated list |
| Admissions.StepConserves | main.py:425-427 | a step for one level keeps everyone, plus one more copy of that level's overflow deque |
| Admissions.StepsToConserves | main.py:419-423 | a sync over the levels keeps everyone, plus the overflow copies of each level in turn |
| Admissions.StepsToStep | main.py:420-423 | the step for level k, taken after the steps below it, adds only that level's overflow copies |
| Admissions.StepEmpty | main.py:425-427 | an empty classroom stays empty under a step |
| Admissions.StepsToEmpty | main.py:419-423 | an empty classroom stays empty under a sync |
| Admissions.UpdateMembers | main.py:418-427 | a sync keeps the classroom valid, the capacities and the number of records |
| Admissions.DatesFromMembers | main.py:503-516 | the dates collected from a list are exactly the promotion dates on or after the preferred date of its entries at the level |
| Admissions.LevelDatesMembers | main.py:508-511 | one level contributes exactly the promotion dates on or after the preferred date of its active students and of its hold deque |
| Admissions.NextPossibleDatesMembers | main.py:500-517 | the candidates are exactly the promotion dates on or after the preferred date of the students at the level or the two below it, active or on hold |
| Admissions.Scan | main.py:404-412 | the scan keeps the classroom valid, the capacities and the number of records |
| Admissions.ScanFound | main.py:404-414 | a date the scan finds is a candidate, every candidate up to it is within the age limit, and the applicant fits right after syncing to it |
| Admissions.FoundWithinCons | main.py:404-407 | a date the scan reaches after a first candidate within the age limit is still preceded only by candidates within the limit |
| Admissions.ApplicantLevel | main.py:390 | the applicant's level is from 1 to 4 |
| Admissions.DateKeys | main.py:402 | every candidate date is its own sort key |
| Admissions.Apply | main.py:382-416 | the application keeps the classroom valid, the capacities and the number of records |
| Admissions.ApplyOnPreferred | main.py:394-396 | when the applicant fits right after syncing to the preferred date (today when none is given), that date is offered, with the applicant's schedule and no flexible flag |
| Admissions.ApplyScans | main.py:400-416 | without a fit on the preferred date and without a flexible offer, the outcome is the scan's |
| Admissions.ApplyAdmits | main.py:382-416 | a non-flexible admission date is the preferred date, or a candidate on or after it within the age limit; the applicant fits right after syncing to it |
| Admissions.ApplyFlexible | main.py:391-399 | the flexible offer is made exactly when the applicant does not fit and an enrolled Flexible student is at the level; it is 32 days from today; no date is found only when neither applies |
| Admissions.EmptyClassroomAdmits | main.py:385-396 | an empty classroom with room at every level admits any applicant on the preferred date, or today |
| Admissions.Slot | main.py:358-378 | a four-slot list holds the value at the level's slot and zero elsewhere |
| Admissions.SoonWeightAtMostOne | main.py:369-374 | a student adds at most one to the graduating-soon tally, and does add one when the promotion is more than 300 days away |
| Admissions.KpiBounded | main.py:365-377 | the graduating-soon and recent tallies never exceed the number of students at the level |
| Admissions.CountAtMostActive | main.py:480-482 | the capacity test's count on a day never exceeds the students at the level |
| Classrooms.TabulatesGuard | main.py:456 | the loop guard read from the strength table is the guard on the counts |
| Classrooms.Classroom.constructor | main.py:276-282 | a new classroom is the empty roster |
| Classrooms.Classroom.Enroll | main.py:321-328 | the state becomes the roster with the active student added |
| Classrooms.Classroom.Hold | main.py:330-336 | the state becomes the roster with the held student added |
| Classrooms.Classroom.PromoteStudents | main.py:429-445 | the `for` loop leaves the state `Promote` gives |
| Classrooms.Classroom.PromoteAt | main.py:430-445 | one pass of the loop body leaves the state `PromoteOne` gives for that position: untouched unless the student is due, then moved up, queued or graduated |
| Classrooms.Classroom.MoveUp | main.py:434-436 | the first branch's in-place update |
| Classrooms.Classroom.MoveToPromoted | main.py:437-442 | the second branch's update |
| Classrooms.Classroom.MoveToGraduated | main.py:443-445 | the third branch's update |
| Classrooms.Classroom.UpdateWaitingList | main.py:447-453 | the state becomes the one with both deques of the level sorted |
| Classrooms.Classroom.DailyStrength | main.py:338-355 | the table holds, per weekday and level, the count of scheduled enrolled students |
| Classrooms.CountSchedule | main.py:349-352 | one student adds, in its level's column, once per listing of each day |
| Classrooms.CountDay | main.py:350-352 | one day adds one to exactly the student's level's column of that day |
| Classrooms.Classroom.AdmitNextPromoted | main.py:457-463 | one round from the promoted deque |
| Classrooms.Classroom.AdmitNextHeld | main.py:464-472 | one round from the hold deque |
| Classrooms.Classroom.AdmitRound | main.py:457-474 | one round keeps the loop's outcome, and it shrinks the deques or ends the loop |
| Classrooms.Classroom.AdmitStudentsFromWaiting | main.py:455-475 | the `while` loop and the final extend leave the state `Admit` gives |
| Classrooms.Classroom.FlushOverflow | main.py:475 | the level's promoted deque is extended by its overflow deque, which keeps its content; nothing else changes |
| Classrooms.Classroom.StepLevel | main.py:425-427 | the three calls for one level leave the state `Step` gives |
| Classrooms.Classroom.UpdateMembers | main.py:418-427 | one level, or levels 1 to 4 in order |
| Classrooms.Classroom.ApplyForAdmission | main.py:382-416 | the outcome and the new state are the ones `Apply` gives |
| Classrooms.Classroom.ScanDates | main.py:401-412 | the loop over the candidates leaves the state and the date `Scan` gives |
| Classrooms.Classroom.KpiCalculate | main.py:357-380 | the four lists are the level's count, hold-deque length, graduating-soon tally and recent tally at its slot |

## Left out

- The spreadsheet loading by pandas (column selection, `FlexEd` tag
  detection, `pd.notna` filtering, `strptime`). `Enroll` and `Hold` take one
  parsed row each.
- The Streamlit interface, the simulation over three months, `printStudent`
  and `Student.__str__`. They only present results.
- The FTE sums and other computations outside the `Classroom` class and the
  classifiers.
- The real clock. `datetime.now()` is a parameter `now` (a day number). In
  `kpi_calculate` it is a day number plus `second`, the seconds into that
  day, because that method compares midnights with the current moment.
  `Student` builds its level from the clock at construction. The model takes
  that level from the `now` passed to `Enroll`, `Hold` and
  `ApplyForAdmission`.
- Dates before year 1 or after year 9999. Python's `datetime` range is not
  enforced.
- Floating-point ages. The classifiers divide exactly (`real`), and the
  contracts restate the bands on whole days.
- The case-insensitive comparison of day names in `can_join_level`. Days are
  an enumeration, so it is plain equality.
- Schedules of weekend days and the `[""]` schedule that `convert_days`
  yields for text without a recognised day. Roster schedules are lists of
  `Weekday` (Monday to Friday). In the source, such an entry makes
  `calculate_daily_strength` raise `KeyError`.
- Classrooms built with fewer than four capacities. All operations require
  four, since the source would raise `IndexError`.
- Admissions.NewStudent, Classrooms.Classroom.Enroll, Classrooms.Classroom.Hold:
  these require a loaded row whose age gives a level. For a child outside
  every band the source stores `level = None`, and `calculate_promotion_date`
  then raises `TypeError` comparing `None < 4`, so loading such a roster
  crashes. The model does not represent that crash.
- Classrooms.Classroom.KpiCalculate: requires a level from 1 to 4. The
  entry point calls `kpi_calculate` with the applicant's level before
  `apply_for_admission`, and for an applicant outside every band that
  level is `None`, which raises `KeyError` on the hold deque lookup. The
  model does not represent that crash.
- An applicant whose age gives no level. `Classrooms.Classroom.ApplyForAdmission`
  and `Admissions.Apply` require a level, since the source then fails in
  `can_join_level` on `None - 1`.
- The explicit `promotion_date` argument of `calculate_promotion_date`. No
  caller passes it. `inputDate` only feeds a `current_age` that is never
  used, so the result does not depend on it.
- Admissions.ApplyAdmits: does not state that every candidate before the
  date found was rejected, only that each was within the age limit
  (`ScanFound`).
- Sorting.SortBy: keys are given as a table from the deque's entries to
  their start dates rather than as a key function; an entry missing from
  the table has key 0. Every entry has a start date in the model.
