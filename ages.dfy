/**
 * Age classifiers and the promotion-date rule. Ages are day counts between
 * two midnights; the source divides them by 365.25 (the `Student`
 * classifiers and `get_correct_class_by_age`) or by 365
 * (`Classroom.calculate_level`). The bodies divide exactly as the source
 * does; the contracts restate each band on whole days.
 */
module Ages {
  import opened Wrappers
  import Calendar

  datatype ClassName = Infants | Wobblers | OlderToddlers | Preschool | Graduated

  /** The `classes` table: each classroom with its age band [min, max) in years. */
  const Bands: seq<(ClassName, int, int)> :=
    [(Infants, 0, 1), (Wobblers, 1, 2), (OlderToddlers, 2, 3), (Preschool, 3, 5)]

  /** Index of the first band at or after `i` whose range holds `age`. */
  function BandOf(age: real, i: nat): (r: Option<nat>)
    requires i <= |Bands|
    ensures r.Some? ==> i <= r.value < |Bands| && Bands[r.value].1 as real <= age < Bands[r.value].2 as real
    ensures forall j :: i <= j < |Bands| && (r.None? || j < r.value) ==> !(Bands[j].1 as real <= age < Bands[j].2 as real)
    decreases |Bands| - i
  {
    if i == |Bands| then None
    else if Bands[i].1 as real <= age < Bands[i].2 as real then Some(i)
    else BandOf(age, i + 1)
  }

  /** Age in years as the `Student` classifiers compute it. */
  function JulianAge(dob: int, now: int): real {
    (now - dob) as real / 365.25
  }

  /** `Student.calculate_level_by_dob`: the 1-based position of the band, or None. */
  function LevelByDob(dob: int, now: int): (r: Option<int>)
    ensures r == Some(1) <==> 0 <= 4 * (now - dob) < 1461
    ensures r == Some(2) <==> 1461 <= 4 * (now - dob) < 2922
    ensures r == Some(3) <==> 2922 <= 4 * (now - dob) < 4383
    ensures r == Some(4) <==> 4383 <= 4 * (now - dob) < 7305
    ensures r == None <==> now - dob < 0 || 7305 <= 4 * (now - dob)
    ensures r.Some? ==> 1 <= r.value <= 4
  {
    match BandOf(JulianAge(dob, now), 0)
    case Some(i) => Some(i + 1)
    case None => None
  }

  /** `Student.get_class_name`: the name of the same band, or Graduated. */
  function ClassNameByDob(dob: int, now: int): (r: ClassName)
    ensures r == Graduated <==> LevelByDob(dob, now) == None
    ensures r != Graduated ==> LevelByDob(dob, now) == Some(LevelOfClass(r))
  {
    match BandOf(JulianAge(dob, now), 0)
    case Some(i) => Bands[i].0
    case None => Graduated
  }

  /** The level of a classroom (Graduated has none; 0 stands in). */
  function LevelOfClass(c: ClassName): int {
    match c
    case Infants => 1
    case Wobblers => 2
    case OlderToddlers => 3
    case Preschool => 4
    case Graduated => 0
  }

  /** `Classroom.calculate_level`: days / 365, and the top band includes 5 years. */
  function CalculateLevel(dob: int, now: int): (r: Option<int>)
    ensures r == Some(1) <==> 0 <= now - dob < 365
    ensures r == Some(2) <==> 365 <= now - dob < 730
    ensures r == Some(3) <==> 730 <= now - dob < 1095
    ensures r == Some(4) <==> 1095 <= now - dob <= 1825
    ensures r == None <==> now - dob < 0 || 1825 < now - dob
  {
    var age := (now - dob) as real / 365.0;
    if 0.0 <= age < 1.0 then Some(1)
    else if 1.0 <= age < 2.0 then Some(2)
    else if 2.0 <= age < 3.0 then Some(3)
    else if 3.0 <= age <= 5.0 then Some(4)
    else None
  }

  /** `get_correct_class_by_age`, on an age in years that may be missing. */
  function CorrectClassByAge(age: Option<real>): (r: Option<ClassName>)
    ensures age.None? <==> r.None?
    ensures age.Some? && 0.0 <= age.value < 5.0 ==> r.value != Graduated && LevelOfClass(r.value) == age.value.Floor + 1 - (if age.value >= 4.0 then 1 else 0)
    ensures age.Some? && !(0.0 <= age.value < 5.0) ==> r == Some(Graduated)
  {
    match age
    case None => None
    case Some(a) =>
      if 0.0 <= a < 1.0 then Some(Infants)
      else if 1.0 <= a < 2.0 then Some(Wobblers)
      else if 2.0 <= a < 3.0 then Some(OlderToddlers)
      else if 3.0 <= a < 5.0 then Some(Preschool)
      else Some(Graduated)
  }

  /** The if-chain of `get_correct_class_by_age` and the `classes` table agree on every age computed from whole days. */
  lemma {:induction false} ClassifiersAgree(dob: int, now: int)
    ensures CorrectClassByAge(Some(JulianAge(dob, now))) == Some(ClassNameByDob(dob, now))
  {
    var a := JulianAge(dob, now);
    assert BandOf(a, 4) == None;
    assert BandOf(a, 3) == if 3.0 <= a < 5.0 then Some(3) else None;
    assert BandOf(a, 2) == if 2.0 <= a < 3.0 then Some(2) else BandOf(a, 3);
    assert BandOf(a, 1) == if 1.0 <= a < 2.0 then Some(1) else BandOf(a, 2);
  }

  /** Within the five daycare years an older child never gets a lower level. */
  lemma LevelByDobMonotone(dob: int, now1: int, now2: int)
    requires now1 <= now2
    requires LevelByDob(dob, now1).Some? && LevelByDob(dob, now2).Some?
    ensures LevelByDob(dob, now1).value <= LevelByDob(dob, now2).value
  {
  }

  lemma CalculateLevelMonotone(dob: int, now1: int, now2: int)
    requires now1 <= now2
    requires CalculateLevel(dob, now1).Some? && CalculateLevel(dob, now2).Some?
    ensures CalculateLevel(dob, now1).value <= CalculateLevel(dob, now2).value
  {
  }

  /**
   * The two day-count classifiers disagree: on the 365th day `calculate_level`
   * already says Wobblers while the `Student` classifier still says Infants,
   * and on day 1826 only the `Student` classifier still gives a level.
   */
  lemma ClassifiersDiffer()
    ensures CalculateLevel(0, 365) == Some(2) && LevelByDob(0, 365) == Some(1)
    ensures CalculateLevel(0, 1826) == None && LevelByDob(0, 1826) == Some(4)
  {
  }

  /** `get_age_limit`: the upper end, in years, of the level's band in the `classes` table. */
  function AgeLimit(level: int): (r: Option<int>)
    ensures r.Some? <==> 1 <= level <= 4
    ensures r.Some? ==> r.value == Bands[level - 1].2
  {
    if level == 1 then Some(1)
    else if level == 2 then Some(2)
    else if level == 3 then Some(3)
    else if level == 4 then Some(5)
    else None
  }

  /**
   * `calculate_promotion_date` with no explicit `promotion_date`: the birthday
   * on which the child reaches the level's age limit. Its `inputDate`
   * argument is never read.
   */
  function PromotionDate(dob: int, level: int): (r: int)
    requires 1 <= level <= 4
    ensures r > dob
  {
    Calendar.AddYearsIncreasing(dob, 0, AgeLimit(level).value);
    Calendar.AddZeroYears(dob);
    Calendar.AddYears(dob, AgeLimit(level).value)
  }

  /** A higher level is left on a strictly later birthday. */
  lemma {:induction false} PromotionDateIncreasing(dob: int, l1: int, l2: int)
    requires 1 <= l1 < l2 <= 4
    ensures PromotionDate(dob, l1) < PromotionDate(dob, l2)
  {
    Calendar.AddYearsIncreasing(dob, AgeLimit(l1).value, AgeLimit(l2).value);
  }
}
