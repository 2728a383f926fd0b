/** Matching (`checkJob`'s field loop): a job is due when every field present in
    its expanded schedule lists the current value of that field. */
module Matcher {
  import opened Lists
  import opened Schedule
  import opened Clock

  /** `date[prop]`: the current value of one field. */
  function Value(m: Moment, f: Field): int {
    match f
    case Months => m.months
    case Days => m.days
    case DaysOfWeek => m.daysOfWeek
    case Hours => m.hours
    case Minutes => m.minutes
  }

  /** The moment with one field set to `v` and the others kept. */
  function With(m: Moment, f: Field, v: int): (r: Moment)
    ensures Value(r, f) == v
    ensures forall g :: g != f ==> Value(r, g) == Value(m, g)
  {
    match f
    case Months => m.(months := v)
    case Days => m.(days := v)
    case DaysOfWeek => m.(daysOfWeek := v)
    case Hours => m.(hours := v)
    case Minutes => m.(minutes := v)
  }

  /** Every present field lists the current value; absent fields impose nothing. */
  predicate Matches(sched: Expanded, m: Moment) {
    forall f :: f in sched ==> Value(m, f) in sched[f]
  }

  /** The loop of `checkJob`: visits the properties of the expanded schedule and
      gives up at the first one whose list has no entry for the current value. */
  method CheckFields(sched: Expanded, now: Moment) returns (matched: bool)
    ensures matched <==> Matches(sched, now)
  {
    var todo := sched.Keys;
    while todo != {}
      invariant todo <= sched.Keys
      invariant forall f :: f in sched && f !in todo ==> Value(now, f) in sched[f]
      decreases todo
    {
      var prop :| prop in todo;
      if IndexOf(sched[prop], Value(now, prop)) == -1 {
        return false;
      }
      todo := todo - {prop};
    }
    return true;
  }

  /** A field absent from the schedule never decides a match: changing the
      current value of that field leaves the verdict as it was. */
  lemma WildcardField(sched: Expanded, m: Moment, f: Field, v: int)
    requires f !in sched
    ensures Matches(sched, With(m, f, v)) <==> Matches(sched, m)
  {
    var m' := With(m, f, v);
    forall g | g in sched
      ensures Value(m', g) == Value(m, g)
    {
    }
  }

  /** Field independence: moving one present field to a value outside its list
      suppresses the match, whatever the other fields say. */
  lemma OutsideFieldSuppresses(sched: Expanded, m: Moment, f: Field, v: int)
    requires f in sched && v !in sched[f]
    ensures !Matches(sched, With(m, f, v))
  {
    assert Value(With(m, f, v), f) !in sched[f];
  }

  /** A schedule whose only field is the range `lo-hi` matches exactly the
      moments whose value of that field lies in `lo..hi`; with `lo > hi` the
      field is present yet empty, so the job never matches. */
  lemma RangeScheduleMatches(f: Field, lo: int, hi: int, m: Moment)
    ensures Matches(ExpandSchedule(map[f := Range(lo, hi)]), m) <==> lo <= Value(m, f) <= hi
  {
    var s := map[f := Range(lo, hi)];
    var e := ExpandSchedule(s);
    ExpandScheduleFields(s, f);
    RangeExpansion(f, lo, hi);
    assert e.Keys == {f};
    assert e[f] == ExpandField(f, Range(lo, hi));
  }

  /** A schedule whose only field is the step `n` matches exactly the moments
      whose value of that field is a positive multiple of `n` up to the field
      maximum; for hours and minutes the maximum itself is read as 0. */
  lemma StepScheduleMatches(f: Field, n: int, m: Moment)
    requires n > 0
    ensures Wraps(f) ==> (Matches(ExpandSchedule(map[f := Step(n)]), m) <==>
      (0 < Value(m, f) < FieldMax(f) && Value(m, f) % n == 0) || (Value(m, f) == 0 && FieldMax(f) % n == 0))
    ensures !Wraps(f) ==> (Matches(ExpandSchedule(map[f := Step(n)]), m) <==>
      0 < Value(m, f) <= FieldMax(f) && Value(m, f) % n == 0)
  {
    var e := ExpandSchedule(map[f := Step(n)]);
    assert e.Keys == {f};
    assert e[f] == ExpandField(f, Step(n));
    StepMembers(f, n, Value(m, f));
  }

  /** `hours: "9-17"` matches at hour 17 and not at hour 18. */
  lemma OfficeHoursExample(m: Moment)
    ensures Matches(ExpandSchedule(map[Hours := Range(9, 17)]), m.(hours := 17))
    ensures !Matches(ExpandSchedule(map[Hours := Range(9, 17)]), m.(hours := 18))
  {
    RangeScheduleMatches(Hours, 9, 17, m.(hours := 17));
    RangeScheduleMatches(Hours, 9, 17, m.(hours := 18));
  }

  /** `minutes: 15` matches at minute 0 (the wrapped 60) and not at minute 10. */
  lemma QuarterHourMatches(m: Moment)
    ensures Matches(ExpandSchedule(map[Minutes := Step(15)]), m.(minutes := 0))
    ensures !Matches(ExpandSchedule(map[Minutes := Step(15)]), m.(minutes := 10))
  {
    var e := ExpandSchedule(map[Minutes := Step(15)]);
    QuarterHourExample();
    assert e.Keys == {Minutes};
    assert e[Minutes] == [15, 30, 45, 0];
  }
}
