# micro-cron scheduling core, modelled in Dafny

A model of the minute-resolution cron plugin of `@pestras/micro` (`index.ts`):

- **Schedule expansion** (`parseSchedule`, `timeRangeList`): each of `months`,
  `days`, `daysOfWeek`, `hours`, `minutes` is a step `n` (becomes `n, 2n, …` up to
  12/31/7/24/60), a range `"a-b"` (becomes `a..b`) or an explicit list (kept as
  is). A generated hour 24 and a generated minute 60 are replaced in place by 0.
  A missing field, or a step of 0 (of the values modelled, the only falsy one), is left
  out of the result and acts as a wildcard. — `schedule.dfy`, module `Schedule`,
  with `IndexOf` and the in-place replacement in `lists.dfy`, module `Lists`.
- **Time decomposition** (`parseDate`): the readings of a `Date` become a 1-based
  month, the day of the month, a 1-based weekday, the hour and the minute. —
  `clock.dfy`, module `Clock`.
- **Matching** (the field loop of `checkJob`): a job is due when every field
  present in its expanded schedule lists the current value. — `matcher.dfy`,
  module `Matcher`.
- **Registry and activation state** (the module-level `jobs` array and
  `activeCount`, `CRON`, the tick body of `start`, `Stop`, `Start`, `StopAll`,
  `StartAll`): class `Scheduler` in `registry.dfy`, module `Registry`, with the
  jobs as a `seq<Job>` field and the cached count as a separate field.

The model follows the code as written, quirks included:

- `CRON` does not reject a second job with the same name; `Stop`/`Start` act on
  the first job with that name.
- A range with `a > b` is not an error: it gives a present, empty field, so the
  job never matches.
- List values are not checked against the field's domain.
- `activeCount` is a cache, refreshed by `init`, `Stop` and `Start` only.
  `CRON`, `StopAll` and `StartAll` leave it as it was, and the tick skips
  everything when it reads 0. `SilentAfterStartAll` shows this can be reached:
  after `StopAll`, `Stop(name)` and `StartAll`, one job is active, the cache
  reads 0, and the tick evaluates nothing. A `StopAll` followed directly by
  `StartAll` is not enough for this: the cache keeps its earlier non-zero value,
  as `TickingAfterStopAllStartAll` shows.
- A failure thrown by an invoked job is not caught by the tick.

## Model

| member | source | states |
|---|---|---|
| `Lists.IndexOf` | index.ts:144 | `indexOf`: -1 exactly when the value is absent, otherwise the first position holding it |
| `Lists.ReplaceFirstAt` | index.ts:66-74 | on a list without duplicates, the guarded `indexOf` + `splice(i, 1, 0)` keeps every position and changes exactly the element equal to the replaced value |
| `Schedule.ExpandRange` | index.ts:50-58 | the range loop pushes exactly the values of `RangeFrom(lo, hi)` |
| `Schedule.PushSteps` | index.ts:62-64 | the step loop pushes exactly the values of `StepFrom(n, n, max)` |
| `Schedule.ExpandStep` | index.ts:61-75 | the step loop followed by the 24/60 splice yields the step expansion of the field |
| `Schedule.ParseSchedule` | index.ts:39-80 | visiting the properties in any order yields the expanded schedule: omitted fields left out, lists unchanged, ranges and steps expanded |
| `Schedule.RangeFromShape` | index.ts:54-55 | the range loop's output has `hi - lo + 1` elements (0 when `lo > hi`) and its `k`-th element is `lo + k` |
| `Schedule.RangeExpansion` | index.ts:50-58 | a range `"lo-hi"` expands to a strictly increasing list whose members are exactly `lo..hi`, empty exactly when `lo > hi` |
| `Schedule.StepFromShape` | index.ts:63-64 | the step loop started at `i` gives `i + k*n` at position `k`, is empty exactly when `i > max`, and its last value is at most `max` and within `n` of it |
| `Schedule.StepList` | index.ts:61-64 | before wrapping, a step `n` gives `n, 2n, …, kn` with `kn <= max < (k+1)n` |
| `Schedule.StepListIncreasing` | index.ts:63-64 | the step loop's output is strictly increasing, so 24 or 60 occurs in it at most once |
| `Schedule.StepExpansion` | index.ts:61-75 | a step `n` on field `f` expands to `k` values with `kn <= max(f) < (k+1)n`, the `j`-th being `(j+1)n` except that an hour 24 or minute 60 is 0 in the same place |
| `Schedule.StepMemberSound` | index.ts:61-75 | the `k`-th value of a step expansion is the wrapped `(k+1)n`, a positive multiple of `n` not above the field maximum |
| `Schedule.StepMemberComplete` | index.ts:61-75 | every positive multiple of `n` not above the field maximum appears, wrapped, in the step expansion |
| `Schedule.StepMembers` | index.ts:61-75 | a value is in a step expansion iff it is a positive multiple of `n` up to the field maximum (for hours and minutes: below the maximum, or 0 when the maximum is a multiple) |
| `Schedule.StepValuesInDomain` | index.ts:21-27 | every value a step expands to lies in 0..23 for hours, 0..59 for minutes and 1..max for the other fields |
| `Schedule.QuarterHourExample` | index.ts:70-74 | `minutes: 15` expands to `[15, 30, 45, 0]` |
| `Schedule.ExpandScheduleFields` | index.ts:42-48 | a field is present in the expansion iff it is present in the raw schedule with a value other than step 0; a list is passed through unchanged and a range becomes its range list |
| `Clock.ParseDate` | index.ts:82-90 | month and weekday are shifted to 1-based, the rest copied; a reading is valid exactly when the result lies in the calendar domain |
| `Clock.ParseDateRoundTrip` | index.ts:82-90 | decomposition is undone by the inverse shift, in both directions |
| `Matcher.CheckFields` | index.ts:143-146 | the early-return loop answers true exactly when every present field lists the current value |
| `Matcher.WildcardField` | index.ts:143-146 | changing the current value of a field absent from the schedule never changes the verdict |
| `Matcher.OutsideFieldSuppresses` | index.ts:143-146 | moving one present field to a value outside its list suppresses the match |
| `Matcher.RangeScheduleMatches` | index.ts:143-146 | a single range field `lo-hi` matches exactly when the field's current value is in `lo..hi`, so never when `lo > hi` |
| `Matcher.StepScheduleMatches` | index.ts:143-146 | a single step field `n` matches exactly at the positive multiples of `n` within the field, with the wrapped 0 for hours and minutes |
| `Matcher.OfficeHoursExample` | index.ts:54-55 | `hours: "9-17"` matches at hour 17 and not at hour 18 |
| `Matcher.QuarterHourMatches` | index.ts:66-74 | `minutes: 15` matches at minute 0 and not at minute 10 |
| `Registry.CountActive` | index.ts:173 | the recount is at most the number of jobs, 0 iff no job is active, and the number of jobs iff every job is |
| `Registry.FindByName` | index.ts:171 | `find` gives the first job with the name, and nothing exactly when no job has it |
| `Registry.CountAfterSet` | index.ts:172-173 | setting one flag moves the active count by one towards the new flag, and not at all when the flag already had that value |
| `Registry.SetAllActiveEffect` | index.ts:159 | the `forEach` sets every flag, keeps every other part of every job, and makes the active count 0 or all |
| `Registry.Scheduler.constructor` | index.ts:104 | the registry starts empty with a cached count of 0 |
| `Registry.Scheduler.Register` | index.ts:92-101 | `CRON` appends one job with the expanded schedule and the given flag (true by default), keeps every earlier job and leaves the cached count alone |
| `Registry.Scheduler.Init` | index.ts:119 | `init` sets the cached count to the number of active jobs |
| `Registry.Scheduler.CheckJob` | index.ts:140-155 | the clock reading is decomposed with `parseDate`, and the job is invoked exactly when its schedule matches that moment and the resolver yields an instance exposing its method |
| `Registry.Scheduler.Tick` | index.ts:129-137 | with a cached count of 0 nothing is evaluated; otherwise exactly the active jobs are evaluated and exactly the active jobs due at the decomposed clock reading are invoked, in registration order |
| `Registry.Scheduler.SetEveryFlag` | index.ts:159 | the `forEach` loop leaves the registry equal to every job with its flag set |
| `Registry.Scheduler.StopAll` | index.ts:157-161 | every flag becomes false and the cached count is not refreshed |
| `Registry.Scheduler.StartAll` | index.ts:163-167 | every flag becomes true and the cached count is not refreshed |
| `Registry.Scheduler.SetFlag` | index.ts:171-173 | only the first job with the name gets the new flag and the cache is recounted; an unknown name changes nothing and reports failure |
| `Registry.Scheduler.Stop` | index.ts:169-175 | the first job with the name becomes inactive, nothing else changes, and the cached count equals the number of active jobs; an unknown name fails with no change |
| `Registry.Scheduler.Start` | index.ts:177-183 | the first job with the name becomes active, nothing else changes, and the cached count equals the number of active jobs; an unknown name fails with no change |
| `Registry.SilentAfterStartAll` | index.ts:157-167 | after `StopAll`, `Stop(name)` and `StartAll` a job is active while the cached count is 0, and the tick evaluates and invokes nothing |
| `Registry.TickingAfterStopAllStartAll` | index.ts:157-167 | after `init`, `StopAll` and `StartAll` the cache still reads 1, so the tick evaluates and fires the job |

## Left out

- The timer (`setInterval`, 60 000 ms): `Tick` is one firing of the callback.
- Service resolution (`Micro.getCurrentService`) and the call `service[job.method]()`: a parameter `invocable(service, method)` says whether a live instance with that method exists, and an invocation is recorded as the job's position in `fired`. What the invoked method does, including a failure it throws, is not modelled; in the source such a throw is not caught.
- Registry.Scheduler.Tick: "exactly the active due jobs are invoked" holds only when no invoked method throws or changes the registry. In the source a synchronous throw from job k ends the `for…of` pass, so the jobs after k are not evaluated and the exception leaves the timer callback. An invoked method that calls `Stop`/`StopAll`/`Start`/`StartAll` during the pass changes the flags the rest of the pass reads. The model evaluates the whole pass over the registry as it was when the tick began.
- The sharing of a list field: `parseSchedule` stores the caller's own array as the expanded field, so mutating that array after `CRON` changes the job's schedule. The model's `seq` values are immutable and cannot show this aliasing.
- Logging through `Micro.logger`: informational only.
- The decorator mechanics and the name `lower(className)/method`: the name, the owning class and the method name are given to `Register`.
- The singleton guard of the plugin constructor, the `ready`/`live` flags, and `init` starting the timer; only `init`'s recount of `activeCount` is modelled, as `Init`.
- Reading the clock: `Tick` takes one clock reading, which `CheckJob` decomposes with `ParseDate` for every evaluated job. The source calls `new Date()` again for each evaluated job, so one pass that straddles a minute boundary can see two minutes; the model does not capture that.
- Falsy field values other than step 0 (`NaN`, an explicit `undefined` or `null`) are not modelled; the source skips them like an absent field.
- Parsing `"a-b"` with `split('-')` and unary `+`: a range is an already-parsed pair of integers. Non-numeric tokens, negative bounds and fractional or NaN steps are not modelled; numbers are unbounded integers.
- Negative steps: the source's step loop never ends for them, so `StepsTerminate` requires every step to be at least 0.
- Unknown names in `Stop`/`Start`: the source throws a `TypeError` from dereferencing `undefined`; the model reports `found == false` and changes nothing, which is what the state looks like after the throw.
- The order in which `for…in` visits properties: the loops pick the next field in an unspecified order; neither the expansion nor the verdict depends on it.
- Properties of a schedule object other than the five fields.
