/** The page's `habits` state: a list that each operation replaces with a
    rebuilt one (`setHabits`). */
module Store {
  import opened Text
  import opened Habits

  class HabitStore {
    var habits: seq<Habit>

    /** The collection invariants. */
    ghost predicate Valid()
      reads this
    {
      WellFormed(habits)
    }

    /** `useState<Habit[]>([])`: the page starts with no habits. */
    constructor ()
      ensures Valid() && habits == []
    {
      habits := [];
    }

    /** `addHabit`, with the clock's id and day passed in: a blank name
        leaves the list alone, otherwise the new habit goes at the end. */
    method AddHabit(name: string, color: string, reminderTime: string, id: string, today: Day)
      modifies this
      ensures habits == Added(old(habits), name, color, reminderTime, id, today)
      ensures IsBlank(name) ==> habits == old(habits)
      ensures !IsBlank(name) ==> |habits| == |old(habits)| + 1 && habits[..|old(habits)|] == old(habits)
      ensures old(Valid()) && IdIsFresh(old(habits), id) ==> Valid()
    {
      if Valid() && IdIsFresh(habits, id) {
        AddedKeepsWellFormed(habits, name, color, reminderTime, id, today);
      }
      habits := Added(habits, name, color, reminderTime, id, today);
    }

    /** `deleteHabit(id)`: drops every habit with that id. */
    method DeleteHabit(id: string)
      modifies this
      ensures habits == Deleted(old(habits), id)
      ensures forall h :: h in habits ==> h.id != id
      ensures IdIsFresh(old(habits), id) ==> habits == old(habits)
      ensures old(Valid()) ==> Valid()
    {
      if Valid() {
        DeletedKeepsWellFormed(habits, id);
      }
      habits := Deleted(habits, id);
    }

    /** `toggleHabitToday(id)`, with the current day passed in: flips whether
        `today` is completed on every habit with that id. */
    method ToggleHabitToday(id: string, today: Day)
      modifies this
      ensures habits == Toggled(old(habits), id, today)
      ensures |habits| == |old(habits)|
      ensures forall i :: 0 <= i < |habits| && old(habits)[i].id == id ==>
        IsCompletedToday(habits[i], today) == !IsCompletedToday(old(habits)[i], today)
      ensures old(Valid()) ==> Valid()
    {
      if Valid() {
        ToggledKeepsWellFormed(habits, id, today);
      }
      habits := Toggled(habits, id, today);
    }
  }
}
