# Habit tracker core, modelled in Dafny

The habit tracker is a single-page app. The user creates habits, marks each
one done for the current day, and sees a streak of consecutive completed
days. Its logic lives in the `Home` component of
`habit-tracker/app/page.tsx`. This project models that logic in two parts.

- **The habit list.** A `Habit` record holds `id`, `name`, `color`,
  `createdAt`, `completedDates` and an optional `reminderTime`. Three
  operations rebuild the `habits` list:
  - `addHabit` appends a new habit unless the name is blank after `trim()`.
  - `deleteHabit` keeps the habits whose id differs (`filter`).
  - `toggleHabitToday` removes today from the matching habit's
    `completedDates` if it is there, and appends it otherwise (`map`).

  Module `Habits` gives each operation as a function on sequences
  (`Added`, `Deleted`, `Toggled`). Class `Store.HabitStore` holds the list
  as a field that its methods replace, the way `setHabits` does. `Text`
  models `String.prototype.trim`. `SeqUtil` models `Array.prototype.filter`.
- **The streak engine.** `isCompletedToday` is a membership test.
  `calculateStreak` works in four steps:
  1. It sorts the days most recent first.
  2. It returns 0 when the most recent day is more than one day before
     today.
  3. It walks the sorted days with a cursor that starts at today.
  4. Each match adds one and moves the cursor back a day. The first
     mismatch ends the walk.

  Module `Streak` gives the loop as a method (`CalculateStreak`) and proves
  it against the function `StreakOf`. Further lemmas prove what the streak
  means.

Modelling choices:

- A calendar day is an integer day number. Consecutive days differ by one.
- The current day is a parameter, and so is the new habit's id. The source
  takes them from `new Date()` and `Date.now()`.
- The default `sort()` compares `YYYY-MM-DD` strings, which is the
  chronological order. `sort().reverse()` is therefore modelled as one sort
  into descending order.

What the model shows about the streak:

- The walk starts at TODAY. So a run of completed days that ends yesterday,
  with today not yet marked, passes the `daysDiff > 1` guard and still
  gives 0 (`StreakExampleRunEndingYesterday`). The model follows the code
  here. The source's own comment at habit-tracker/app/page.tsx:93 ("Check
  if completed today or yesterday") suggests a run ending yesterday was
  meant to count. But the cursor starts at today (line 91) and the first
  mismatch breaks the loop (lines 106-111), so the code does not count it.
- `StreakIsRunEndingToday` needs two preconditions:
  - no day is listed twice, which `toggleHabitToday` maintains;
  - no listed day is later than today.

  Under these, the streak is exactly the length of the run of completed
  days ending today. A listed day after today makes the streak 0, because
  the walk compares it with today first (`StreakZeroWithFutureDay`). With a
  duplicate, the walk also stops early: the second copy of a day does not
  match the cursor, which has already moved back.

## Model

| member | source | states |
|---|---|---|
| `SeqUtil.Filter` | habit-tracker/app/page.tsx:63 | `filter` keeps exactly the elements that pass the test, each as often as before, in their original order; when every element passes, the list is unchanged |
| `Text.Trim` | habit-tracker/app/page.tsx:40 | `trim()` returns a contiguous slice of the name, and everything before and after that slice is whitespace; the slice is empty exactly when the name is all whitespace, and otherwise it neither starts nor ends with whitespace |
| `Text.IsBlank` | habit-tracker/app/page.tsx:40 | `!name.trim()` holds exactly when every character of the name is whitespace (the empty name included) |
| `Habits.Added` | habit-tracker/app/page.tsx:39-51 | a blank name leaves the list unchanged; otherwise exactly one habit is appended at the end and the earlier habits are unchanged and in order; the new habit has the given id, the untrimmed name, the colour, `createdAt` = today, no completed days and the reminder time |
| `Habits.Deleted` | habit-tracker/app/page.tsx:62-64 | no habit with the id remains; every other habit keeps its number of occurrences and its relative order; an absent id changes nothing |
| `Habits.DeleteIdempotent` | habit-tracker/app/page.tsx:63 | deleting the same id twice equals deleting it once |
| `Habits.ToggledDates` | habit-tracker/app/page.tsx:70-75 | today is in the result exactly when it was not in the input; every other day keeps its count; removal keeps the order, and addition appends today after the unchanged days; a duplicate-free list stays duplicate-free |
| `Habits.Toggled` | habit-tracker/app/page.tsx:66-80 | the list keeps its length; habits with another id are unchanged; on a matching habit only `completedDates` changes, to the toggled days |
| `Habits.ToggledDatesTwice` | habit-tracker/app/page.tsx:70-75 | toggling twice on a duplicate-free list gives back the same days (the same multiset); if today was absent, it gives back the very same list. If today was present, the second toggle appends it at the end, so the order can change |
| `Habits.ToggledDatesTwiceMovesToday` | habit-tracker/app/page.tsx:70-75 | toggling day 3 twice on days 1, 3, 5 gives 1, 5, 3: the same days with today moved to the end |
| `Habits.ToggledTwice` | habit-tracker/app/page.tsx:68-79 | toggling the same id twice restores every habit whose completed days have no duplicate (even when ids repeat): all fields other than `completedDates` are equal, and `completedDates` holds the same days |
| `Habits.IsCompletedToday` | habit-tracker/app/page.tsx:117-119 | true exactly when today occurs at some position of `completedDates`, which is exactly when toggling today would remove it |
| `Habits.ToggleFlipsCompletedToday` | habit-tracker/app/page.tsx:117-119 | after the toggle, `isCompletedToday` of a matching habit is the negation of its value before |
| `Habits.AddedKeepsWellFormed` | habit-tracker/app/page.tsx:39-51 | adding under an id no habit has keeps ids unique, completed days duplicate-free and names non-blank |
| `Habits.DeletedKeepsWellFormed` | habit-tracker/app/page.tsx:62-64 | deleting keeps the same three invariants |
| `Habits.ToggledKeepsWellFormed` | habit-tracker/app/page.tsx:66-80 | toggling keeps the same three invariants |
| `Streak.SortDescending` | habit-tracker/app/page.tsx:85 | the sorted copy is in descending order and is a permutation of the completed days |
| `Streak.SortThree` | habit-tracker/app/page.tsx:85 | three days in increasing order sort to the reverse order |
| `Streak.Walk` | habit-tracker/app/page.tsx:99-112 | the walk counts at most as many days as the list holds |
| `Streak.WalkCountsRun` | habit-tracker/app/page.tsx:99-112 | on a strictly decreasing list whose days are all at or before the cursor, the walk's count is the length of the run of listed days ending at the cursor: every day in the run is listed, and the day before the run is not |
| `Streak.StreakOf` | habit-tracker/app/page.tsx:82-115 | the value `calculateStreak` returns: 0 for no completed days, never more than the number of completed days, and positive only when today is completed |
| `Streak.CalculateStreak` | habit-tracker/app/page.tsx:82-115 | the loop with its cursor and early `break` returns `StreakOf` of the completed days and today, and at most the number of completed days |
| `Streak.StreakIsRunEndingToday` | habit-tracker/app/page.tsx:82-115 | with no duplicate and no future day, the streak is the largest k such that today, today-1, ..., today-k+1 are all completed: every day after today-streak up to today is completed, and today-streak is not |
| `Streak.StreakPositiveIffCompletedToday` | habit-tracker/app/page.tsx:82-119 | with no future day, the streak is positive exactly when `isCompletedToday` holds |
| `Streak.StreakZeroWhenLastCompletionStale` | habit-tracker/app/page.tsx:94-97 | when every completed day is more than one day before today, the streak is 0 |
| `Streak.StreakZeroWithFutureDay` | habit-tracker/app/page.tsx:99-111 | a completed day after today makes the streak 0 |
| `Streak.StreakExampleStale` | habit-tracker/app/page.tsx:94-97 | a single completed day four days back gives 0 |
| `Streak.StreakExampleFullRun` | habit-tracker/app/page.tsx:99-112 | days 1, 2, 3 with today 3 give 3 |
| `Streak.StreakExampleRunEndingYesterday` | habit-tracker/app/page.tsx:91-111 | days 1, 2 with today 3 give 0: the walk starts at today and stops at once |
| `Streak.StreakExampleGap` | habit-tracker/app/page.tsx:106-111 | days 1 and 3 with today 3 give 1: the missing day 2 ends the walk |
| `Store.HabitStore.constructor` | habit-tracker/app/page.tsx:16 | the store starts with an empty list, which satisfies the invariants |
| `Store.HabitStore.AddHabit` | habit-tracker/app/page.tsx:39-60 | the list becomes `Added` of the old list: unchanged for a blank name, else the old list plus one habit; the invariants are kept when the id is fresh |
| `Store.HabitStore.DeleteHabit` | habit-tracker/app/page.tsx:62-64 | the list becomes `Deleted` of the old list: no habit with the id remains, and an absent id changes nothing; the invariants are kept |
| `Store.HabitStore.ToggleHabitToday` | habit-tracker/app/page.tsx:66-80 | the list becomes `Toggled` of the old list: same length, and `isCompletedToday` flips on every matching habit; the invariants are kept |

## Left out

- Rendering, the form state and its resets, and the colour palette
  (habit-tracker/app/page.tsx:17-20, 52-54, 121-295) are user interface
  only. No computation reads `color`.
- Loading from and saving to `localStorage`
  (habit-tracker/app/page.tsx:22-33) is browser I/O and JSON parsing. Note
  that the save effect is skipped when the list becomes empty, so deleting
  the last habit is not persisted.
- `Notification.requestPermission` (habit-tracker/app/page.tsx:57-59) is a
  browser side effect.
- `Date` handling is abstracted to day numbers:
  - `toISOString` yields a UTC day.
  - `new Date("YYYY-MM-DD")` parses as UTC midnight, while `setHours(0, 0, 0, 0)`
    normalises to local midnight, so behaviour can differ by timezone.
  - `daysDiff` divides milliseconds inside `Math.floor`.

  The model compares whole days.
- Id generation by `Date.now().toString()` reads the clock and is not
  guaranteed unique. The id is a parameter; the invariants are kept only for
  an id no habit already has.
- `Habits.Added` records the reminder time as present, as the page always
  sets it. Records loaded from storage may lack it, which the `Option`
  field allows.
