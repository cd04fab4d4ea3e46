/** The habit record and the three operations of the page that rebuild the
    habit list: adding a habit (spread-append), deleting one (`filter`) and
    toggling today's completion (`map`). Calendar days are day numbers; the
    current day and the new habit's id are parameters. */
module Habits {
  import opened SeqUtil
  import opened Text

  /** A calendar day, as a day number (consecutive days differ by one). */
  type Day = int

  datatype Option<T> = None | Some(value: T)

  /** One tracked habit; `reminderTime` is optional in stored records. */
  datatype Habit = Habit(
    id: string,
    name: string,
    color: string,
    createdAt: Day,
    completedDates: seq<Day>,
    reminderTime: Option<string>)

  /** The collection invariants every operation keeps: ids are unique, no
      habit lists a day twice, and no name is blank. */
  ghost predicate WellFormed(habits: seq<Habit>)
  {
    && (forall i, j :: 0 <= i < j < |habits| ==> habits[i].id != habits[j].id)
    && (forall i :: 0 <= i < |habits| ==> NoDuplicates(habits[i].completedDates))
    && (forall i :: 0 <= i < |habits| ==> !IsBlank(habits[i].name))
  }

  /** No habit of `habits` already carries `id`. */
  ghost predicate IdIsFresh(habits: seq<Habit>, id: string)
  {
    forall h :: h in habits ==> h.id != id
  }

  /** Whether `today` is among the habit's completed days. */
  predicate IsCompletedToday(habit: Habit, today: Day)
    ensures IsCompletedToday(habit, today) <==>
      exists k :: 0 <= k < |habit.completedDates| && habit.completedDates[k] == today
    ensures IsCompletedToday(habit, today) <==> today !in ToggledDates(habit.completedDates, today)
  {
    today in habit.completedDates
  }

  /** The test `d => d !== today` of the toggle's `filter`. */
  function IsOtherDay(today: Day): Day -> bool
  {
    d => d != today
  }

  /** The test `h => h.id !== id` of the delete's `filter`. */
  function HasOtherId(id: string): Habit -> bool
  {
    (h: Habit) => h.id != id
  }

  /** The completed days after toggling `today`: removed (every copy) when
      present, appended at the end when absent. */
  function ToggledDates(dates: seq<Day>, today: Day): (r: seq<Day>)
    ensures today in r <==> today !in dates
    ensures forall d :: d != today ==> multiset(r)[d] == multiset(dates)[d]
    ensures today in dates ==> IsSubsequence(r, dates)
    ensures today !in dates ==> |r| == |dates| + 1 && r[..|dates|] == dates
    ensures NoDuplicates(dates) ==> NoDuplicates(r)
  {
    if today in dates then
      var r := Filter(dates, IsOtherDay(today));
      assert NoDuplicates(dates) ==> NoDuplicates(r) by {
        if NoDuplicates(dates) {
          FilterKeepsNoDuplicates(dates, IsOtherDay(today));
        }
      }
      r
    else
      dates + [today]
  }

  /** The list after adding a habit named `name`: unchanged when the name is
      blank, otherwise one new habit at the end, created today with no
      completed days and its name as typed (not trimmed). */
  function Added(habits: seq<Habit>, name: string, color: string, reminderTime: string,
                 id: string, today: Day): (r: seq<Habit>)
    ensures IsBlank(name) ==> r == habits
    ensures !IsBlank(name) ==> |r| == |habits| + 1 && r[..|habits|] == habits
    ensures !IsBlank(name) ==>
      && r[|habits|].id == id
      && r[|habits|].name == name
      && r[|habits|].color == color
      && r[|habits|].createdAt == today
      && r[|habits|].completedDates == []
      && r[|habits|].reminderTime == Some(reminderTime)
  {
    if IsBlank(name) then habits
    else habits + [Habit(id, name, color, today, [], Some(reminderTime))]
  }

  /** The list after deleting `id`: every habit with that id is gone, every
      other habit keeps its number of occurrences and its relative order, and
      an absent id changes nothing. */
  function Deleted(habits: seq<Habit>, id: string): (r: seq<Habit>)
    ensures forall h :: h in r ==> h.id != id
    ensures forall h: Habit :: h.id != id ==> multiset(r)[h] == multiset(habits)[h]
    ensures IsSubsequence(r, habits)
    ensures IdIsFresh(habits, id) ==> r == habits
  {
    Filter(habits, HasOtherId(id))
  }

  /** `habit` with today's completion toggled when its id is `id`. */
  function ToggledHabit(habit: Habit, id: string, today: Day): Habit
  {
    if habit.id == id then habit.(completedDates := ToggledDates(habit.completedDates, today))
    else habit
  }

  /** The list after toggling today on `id`: same length, habits with another
      id unchanged, and on a matching habit only `completedDates` changes. */
  function Toggled(habits: seq<Habit>, id: string, today: Day): (r: seq<Habit>)
    ensures |r| == |habits|
    ensures forall i :: 0 <= i < |habits| && habits[i].id != id ==> r[i] == habits[i]
    ensures forall i :: 0 <= i < |habits| && habits[i].id == id ==>
      r[i] == habits[i].(completedDates := ToggledDates(habits[i].completedDates, today))
  {
    seq(|habits|, i requires 0 <= i < |habits| => ToggledHabit(habits[i], id, today))
  }

  /** Deleting twice is deleting once. */
  lemma DeleteIdempotent(habits: seq<Habit>, id: string)
    ensures Deleted(Deleted(habits, id), id) == Deleted(habits, id)
  {
  }

  /** Toggling today twice on a duplicate-free list gives back the same days;
      when today was absent it gives back the very same list. */
  lemma ToggledDatesTwice(dates: seq<Day>, today: Day)
    requires NoDuplicates(dates)
    ensures multiset(ToggledDates(ToggledDates(dates, today), today)) == multiset(dates)
    ensures today !in dates ==> ToggledDates(ToggledDates(dates, today), today) == dates
  {
    var once := ToggledDates(dates, today);
    var twice := ToggledDates(once, today);
    if today in dates {
      assert twice == once + [today];
      NoDuplicatesCountsAtMostOne(dates, today);
      assert forall d :: multiset(twice)[d] == multiset(dates)[d];
    } else {
      FilterSnoc(dates, today, IsOtherDay(today));
    }
  }

  /** When today was present, toggling twice moves it to the end: the days
      come back as the same multiset, not the same sequence. */
  lemma ToggledDatesTwiceMovesToday()
    ensures ToggledDates(ToggledDates([1, 3, 5], 3), 3) == [1, 5, 3]
  {
    assert [1, 3, 5][1..] == [3, 5] && [3, 5][1..] == [5] && [5][1..] == [];
    assert Filter([5], IsOtherDay(3)) == [5];
    assert Filter([3, 5], IsOtherDay(3)) == [5];
    assert Filter([1, 3, 5], IsOtherDay(3)) == [1, 5];
  }

  /** `isCompletedToday` of a matching habit flips under `toggleHabitToday`. */
  lemma ToggleFlipsCompletedToday(habits: seq<Habit>, id: string, today: Day, i: nat)
    requires i < |habits| && habits[i].id == id
    ensures IsCompletedToday(Toggled(habits, id, today)[i], today) == !IsCompletedToday(habits[i], today)
  {
  }

  /** Toggling the same habit twice restores every habit: other fields are
      untouched and the completed days are the same set again. */
  lemma ToggledTwice(habits: seq<Habit>, id: string, today: Day, i: nat)
    requires i < |habits| && NoDuplicates(habits[i].completedDates)
    ensures var h := Toggled(Toggled(habits, id, today), id, today)[i];
      && h.(completedDates := habits[i].completedDates) == habits[i]
      && multiset(h.completedDates) == multiset(habits[i].completedDates)
  {
    if habits[i].id == id {
      ToggledDatesTwice(habits[i].completedDates, today);
    }
  }

  /** Adding a habit under a fresh id keeps the collection invariants. */
  lemma AddedKeepsWellFormed(habits: seq<Habit>, name: string, color: string,
                             reminderTime: string, id: string, today: Day)
    requires WellFormed(habits) && IdIsFresh(habits, id)
    ensures WellFormed(Added(habits, name, color, reminderTime, id, today))
  {
    var r := Added(habits, name, color, reminderTime, id, today);
    if !IsBlank(name) {
      forall i, j | 0 <= i < j < |r| ensures r[i].id != r[j].id {
        if j == |habits| {
          assert r[i] == habits[i];
        }
      }
    }
  }

  /** Deleting keeps the collection invariants. */
  lemma DeletedKeepsWellFormed(habits: seq<Habit>, id: string)
    requires WellFormed(habits)
    ensures WellFormed(Deleted(habits, id))
  {
    var r := Deleted(habits, id);
    assert NoDuplicates(habits);
    forall i, j | 0 <= i < j < |r| ensures r[i].id != r[j].id {
      assert r[i] in r && r[j] in r;
      var k :| 0 <= k < |habits| && habits[k] == r[i];
      var l :| 0 <= l < |habits| && habits[l] == r[j];
      if k == l {
        RepeatCountsTwice(r, i, j);
        NoDuplicatesCountsAtMostOne(habits, r[i]);
        assert false;
      }
    }
    forall i | 0 <= i < |r|
      ensures NoDuplicates(r[i].completedDates) && !IsBlank(r[i].name)
    {
      assert r[i] in r;
      var k :| 0 <= k < |habits| && habits[k] == r[i];
    }
  }

  /** Toggling today keeps the collection invariants. */
  lemma ToggledKeepsWellFormed(habits: seq<Habit>, id: string, today: Day)
    requires WellFormed(habits)
    ensures WellFormed(Toggled(habits, id, today))
  {
  }
}
