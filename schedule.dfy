/** Schedule expansion (`parseSchedule`): every calendar field of a raw schedule,
    written as a step, an `"a-b"` range or an explicit list, becomes an explicit
    list of accepted integers; an omitted field stays out of the result and so
    acts as a wildcard. */
module Schedule {
  import opened Lists

  datatype Field = Months | Days | DaysOfWeek | Hours | Minutes

  /** The bound a step runs up to: the second entry of `timeRangeList`. */
  function FieldMax(f: Field): int {
    match f
    case Months => 12
    case Days => 31
    case DaysOfWeek => 7
    case Hours => 24
    case Minutes => 60
  }

  /** One raw field. A range is the already-split pair of an `"a-b"` string. */
  datatype FieldSpec =
    | Step(n: int)
    | Range(lo: int, hi: int)
    | List(values: seq<int>)

  /** A raw schedule: a field missing from the map is an absent property. */
  type RawSchedule = map<Field, FieldSpec>

  /** An expanded schedule: a field missing from the map matches every value. */
  type Expanded = map<Field, seq<int>>

  /** Of the values modelled, only step 0 makes `!value` hold: a range string
      is never empty and an array, even an empty one, is truthy. */
  predicate Omitted(spec: FieldSpec) {
    spec == Step(0)
  }

  /** A negative step would make the step loop run forever. */
  predicate StepsTerminate(s: RawSchedule) {
    forall f :: f in s && s[f].Step? ==> s[f].n >= 0
  }

  /** The values the range loop pushes: `i` from `i` up to `hi` inclusive. */
  function RangeFrom(i: int, hi: int): seq<int>
    decreases hi - i
  {
    if i > hi then [] else [i] + RangeFrom(i + 1, hi)
  }

  /** The values the step loop pushes: `i`, `i + n`, ... while not above `max`. */
  function StepFrom(i: int, n: int, max: int): seq<int>
    requires n > 0
    decreases max - i
  {
    if i > max then [] else [i] + StepFrom(i + n, n, max)
  }

  /** The hour 24 becomes midnight and the minute 60 becomes minute 0. */
  function WrapValue(f: Field, v: int): int {
    if (f == Hours && v == 24) || (f == Minutes && v == 60) then 0 else v
  }

  /** The in-place splice applied to a step list of hours or minutes. */
  function Wrap(f: Field, values: seq<int>): seq<int> {
    if f == Hours then ReplaceFirst(values, 24, 0)
    else if f == Minutes then ReplaceFirst(values, 60, 0)
    else values
  }

  /** The list a present, non-omitted field expands to. */
  function ExpandField(f: Field, spec: FieldSpec): seq<int>
    requires !(spec.Step? && spec.n <= 0)
  {
    match spec
    case List(values) => values
    case Range(lo, hi) => RangeFrom(lo, hi)
    case Step(n) => Wrap(f, StepFrom(n, n, FieldMax(f)))
  }

  /** The expanded schedule `parseSchedule` returns. */
  function ExpandSchedule(s: RawSchedule): Expanded
    requires StepsTerminate(s)
  {
    map f | f in s && !Omitted(s[f]) :: ExpandField(f, s[f])
  }

  // ---------------------------------------------------------------------------
  // The expander as the source runs it: loops pushing into fresh lists.

  /** `for (let i = lo; i <= hi; i++) range.push(i)` */
  method ExpandRange(lo: int, hi: int) returns (range: seq<int>)
    ensures range == RangeFrom(lo, hi)
  {
    range := [];
    var i := lo;
    while i <= hi
      invariant range + RangeFrom(i, hi) == RangeFrom(lo, hi)
      decreases hi - i
    {
      range := range + [i];
      i := i + 1;
    }
  }

  /** `for (let i = n; i <= max; i += n) values.push(i)` */
  method PushSteps(n: int, max: int) returns (values: seq<int>)
    requires n > 0
    ensures values == StepFrom(n, n, max)
  {
    values := [];
    var i := n;
    while i <= max
      invariant values + StepFrom(i, n, max) == StepFrom(n, n, max)
      decreases max - i
    {
      values := values + [i];
      i := i + n;
    }
  }

  /** The step loop followed by the hour/minute wrap. */
  method ExpandStep(f: Field, n: int) returns (values: seq<int>)
    requires n > 0
    ensures values == ExpandField(f, Step(n))
  {
    values := PushSteps(n, FieldMax(f));
    ghost var pushed := values;
    if f == Hours {
      var indexOf24 := IndexOf(values, 24);
      if indexOf24 > -1 {
        values := values[indexOf24 := 0];
      }
      assert values == ReplaceFirst(pushed, 24, 0);
    } else if f == Minutes {
      var indexOf60 := IndexOf(values, 60);
      if indexOf60 > -1 {
        values := values[indexOf60 := 0];
      }
      assert values == ReplaceFirst(pushed, 60, 0);
    }
  }

  /** `parseSchedule`: visits every property of the raw schedule once. */
  method ParseSchedule(s: RawSchedule) returns (result: Expanded)
    requires StepsTerminate(s)
    ensures result == ExpandSchedule(s)
  {
    result := map[];
    var todo := s.Keys;
    while todo != {}
      invariant todo <= s.Keys
      invariant result == map f | f in s && f !in todo && !Omitted(s[f]) :: ExpandField(f, s[f])
      decreases todo
    {
      var prop :| prop in todo;
      ghost var before := todo;
      todo := todo - {prop};
      var value := s[prop];
      if Omitted(value) {
        assert result == map f | f in s && f !in todo && !Omitted(s[f]) :: ExpandField(f, s[f]);
        continue;
      }
      var expanded;
      match value {
        case List(values) =>
          expanded := values;
        case Range(lo, hi) =>
          expanded := ExpandRange(lo, hi);
        case Step(n) =>
          expanded := ExpandStep(prop, n);
      }
      result := result[prop := expanded];
    }
  }

  // ---------------------------------------------------------------------------
  // What the expansion means.

  lemma {:induction false} RangeFromShape(lo: int, hi: int)
    ensures |RangeFrom(lo, hi)| == if lo <= hi then hi - lo + 1 else 0
    ensures forall k :: 0 <= k < |RangeFrom(lo, hi)| ==> RangeFrom(lo, hi)[k] == lo + k
    decreases hi - lo
  {
    if lo <= hi {
      RangeFromShape(lo + 1, hi);
    }
  }

  /** A range `"lo-hi"` expands to exactly lo, lo+1, ..., hi in increasing order,
      and to the empty list when `lo > hi`. */
  lemma RangeExpansion(f: Field, lo: int, hi: int)
    ensures StrictlyIncreasing(ExpandField(f, Range(lo, hi)))
    ensures forall x :: x in ExpandField(f, Range(lo, hi)) <==> lo <= x <= hi
    ensures ExpandField(f, Range(lo, hi)) == [] <==> lo > hi
  {
    var r := ExpandField(f, Range(lo, hi));
    RangeFromShape(lo, hi);
    forall x | lo <= x <= hi
      ensures x in r
    {
      assert r[x - lo] == x;
    }
  }

  lemma {:induction false} StepFromShape(i: int, n: int, max: int)
    requires n > 0
    ensures var r := StepFrom(i, n, max);
      && (r == [] <==> i > max)
      && (forall k :: 0 <= k < |r| ==> r[k] == i + k * n)
      && (r != [] ==> r[|r| - 1] <= max < r[|r| - 1] + n)
    decreases max - i
  {
    if i <= max {
      StepFromShape(i + n, n, max);
      var r := StepFrom(i, n, max);
      forall k | 1 <= k < |r|
        ensures r[k] == i + k * n
      {
        assert r[k] == StepFrom(i + n, n, max)[k - 1];
        assert (k - 1) * n + n == k * n;
      }
    }
  }

  /** A step `n` expands, before wrapping, to n, 2n, ..., kn with kn <= max < (k+1)n. */
  lemma StepList(n: int, max: int)
    requires n > 0 && max >= 0
    ensures var r := StepFrom(n, n, max);
      && |r| * n <= max < (|r| + 1) * n
      && (forall k :: 0 <= k < |r| ==> r[k] == (k + 1) * n)
  {
    StepFromShape(n, n, max);
    var r := StepFrom(n, n, max);
    forall k | 0 <= k < |r|
      ensures r[k] == (k + 1) * n
    {
      assert n + k * n == (k + 1) * n;
    }
    if r != [] {
      assert r[|r| - 1] == |r| * n;
      assert |r| * n + n == (|r| + 1) * n;
    }
  }

  lemma StepListIncreasing(n: int, max: int)
    requires n > 0 && max >= 0
    ensures StrictlyIncreasing(StepFrom(n, n, max))
  {
    StepList(n, max);
    var r := StepFrom(n, n, max);
    forall i, j | 0 <= i < j < |r|
      ensures r[i] < r[j]
    {
      MulStrictlyMonotone(i + 1, j + 1, n);
    }
  }

  lemma MulStrictlyMonotone(a: int, b: int, n: int)
    requires a < b && n > 0
    ensures a * n < b * n
  {
    assert b * n - a * n == (b - a) * n;
  }

  /** A step `n` on field `f` expands, in order, to n, 2n, ..., kn with
      kn <= max(f) < (k+1)n, where a generated 24 (hours) or 60 (minutes) has
      been replaced in place by 0 and no other value was altered. */
  lemma StepExpansion(f: Field, n: int)
    requires n > 0
    ensures var r := ExpandField(f, Step(n));
      && |r| * n <= FieldMax(f) < (|r| + 1) * n
      && (forall k :: 0 <= k < |r| ==> r[k] == WrapValue(f, (k + 1) * n))
  {
    var s := StepFrom(n, n, FieldMax(f));
    StepList(n, FieldMax(f));
    if f == Hours {
      StepListIncreasing(n, FieldMax(f));
      ReplaceFirstAt(s, 24, 0);
    } else if f == Minutes {
      StepListIncreasing(n, FieldMax(f));
      ReplaceFirstAt(s, 60, 0);
    }
  }

  /** Hours and minutes are the fields whose top value wraps to 0. */
  predicate Wraps(f: Field) {
    f == Hours || f == Minutes
  }

  /** Euclidean division is unique: `q * n + r` with `0 <= r < n` has quotient `q`
      and remainder `r`. */
  lemma DivModUnique(a: int, n: int, q: int, r: int)
    requires n > 0 && 0 <= r < n && a == q * n + r
    ensures a / n == q && a % n == r
  {
    var q', r' := a / n, a % n;
    assert a == q' * n + r';
    if q' < q {
      MulSucc(q', n);
      if q' + 1 < q { MulStrictlyMonotone(q' + 1, q, n); }
    } else if q < q' {
      MulSucc(q, n);
      if q + 1 < q' { MulStrictlyMonotone(q + 1, q', n); }
    }
  }

  lemma MulSucc(a: int, n: int)
    ensures (a + 1) * n == a * n + n
  {
  }

  lemma MultipleOfStep(q: int, n: int)
    requires n > 0
    ensures (q * n) % n == 0
  {
    DivModUnique(q * n, n, q, 0);
  }

  /** A positive multiple `v` of `n` not above `max < (len + 1) * n` is the
      `(v / n)`-th multiple, and that index is at most `len`. */
  lemma StepIndexOf(v: int, n: int, len: nat, max: int)
    requires n > 0 && 0 < v <= max < (len + 1) * n && v % n == 0
    ensures 1 <= v / n <= len && (v / n) * n == v
  {
    var q := v / n;
    assert v == q * n;
    if q > len {
      MulStrictlyMonotone(len, q, n);
      if len + 1 < q { MulStrictlyMonotone(len + 1, q, n); }
    }
  }

  /** Each value of a step expansion is a wrapped positive multiple of `n` not
      above the field maximum. */
  lemma StepMemberSound(f: Field, n: int, k: int)
    requires n > 0
    requires 0 <= k < |ExpandField(f, Step(n))|
    ensures var v := (k + 1) * n;
      && 0 < v <= FieldMax(f) && v % n == 0
      && ExpandField(f, Step(n))[k] == WrapValue(f, v)
  {
    var r := ExpandField(f, Step(n));
    StepExpansion(f, n);
    MultipleOfStep(k + 1, n);
    MulStrictlyMonotone(0, k + 1, n);
    if k + 1 < |r| {
      MulStrictlyMonotone(k + 1, |r|, n);
    }
  }

  /** Each wrapped positive multiple of `n` not above the field maximum is a
      value of the step expansion. */
  lemma StepMemberComplete(f: Field, n: int, v: int)
    requires n > 0 && 0 < v <= FieldMax(f) && v % n == 0
    ensures WrapValue(f, v) in ExpandField(f, Step(n))
  {
    var r := ExpandField(f, Step(n));
    StepExpansion(f, n);
    StepIndexOf(v, n, |r|, FieldMax(f));
    assert r[v / n - 1] == WrapValue(f, v);
  }

  /** Membership in a step expansion, independently of the loop: the positive
      multiples of `n` up to the field maximum, except that for hours and
      minutes the maximum itself is present as 0 instead. */
  lemma StepMembers(f: Field, n: int, x: int)
    requires n > 0
    ensures Wraps(f) ==>
      (x in ExpandField(f, Step(n)) <==>
        (0 < x < FieldMax(f) && x % n == 0) || (x == 0 && FieldMax(f) % n == 0))
    ensures !Wraps(f) ==>
      (x in ExpandField(f, Step(n)) <==> 0 < x <= FieldMax(f) && x % n == 0)
  {
    var r := ExpandField(f, Step(n));
    var max := FieldMax(f);
    if x in r {
      var k :| 0 <= k < |r| && r[k] == x;
      StepMemberSound(f, n, k);
    }
    if Wraps(f) && x == 0 && max % n == 0 {
      StepMemberComplete(f, n, max);
    } else if 0 < x && (if Wraps(f) then x < max else x <= max) && x % n == 0 {
      StepMemberComplete(f, n, x);
    }
  }

  /** Every value a step expands to lies in the field's calendar domain:
      0..23 for hours, 0..59 for minutes, 1..max for the other fields. */
  lemma StepValuesInDomain(f: Field, n: int)
    requires n > 0
    ensures Wraps(f) ==> forall x :: x in ExpandField(f, Step(n)) ==> 0 <= x < FieldMax(f)
    ensures !Wraps(f) ==> forall x :: x in ExpandField(f, Step(n)) ==> 1 <= x <= FieldMax(f)
  {
    forall x | x in ExpandField(f, Step(n))
      ensures Wraps(f) ==> 0 <= x < FieldMax(f)
      ensures !Wraps(f) ==> 1 <= x <= FieldMax(f)
    {
      StepMembers(f, n, x);
    }
  }

  /** `minutes: 15` expands to [15, 30, 45, 0]. */
  lemma QuarterHourExample()
    ensures ExpandField(Minutes, Step(15)) == [15, 30, 45, 0]
  {
    var s := StepFrom(15, 15, 60);
    assert s == [15, 30, 45, 60];
    assert IndexOf(s, 60) == 3;
  }

  /** A field is left out of the expanded schedule exactly when it is absent or
      its step is 0; every other field is present, an explicit list unchanged. */
  lemma ExpandScheduleFields(s: RawSchedule, f: Field)
    requires StepsTerminate(s)
    ensures f in ExpandSchedule(s) <==> f in s && s[f] != Step(0)
    ensures f in s && s[f].List? ==> ExpandSchedule(s)[f] == s[f].values
    ensures f in s && s[f].Range? ==> ExpandSchedule(s)[f] == RangeFrom(s[f].lo, s[f].hi)
  {
  }
}
