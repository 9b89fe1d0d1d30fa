/** The `deadlines` table: one window per program month, holding when
    volunteers may sign up, when rewards are dropped off, and when teachers
    may claim them. The current window is the newest row (largest id), not
    the one whose month is today's. */
module Deadlines {
  import opened Rows
  import opened Dates

  /** One row of `deadlines`. `volunteerStart` is never written by app.py;
      `teacherStart` stays unset until the window is pushed to teachers. */
  datatype Window = Window(
    monthYear: YearMonth,
    volunteerStart: Option<Date>,
    volunteerEnd: Date,
    dropoffStart: Date,
    dropoffEnd: Date,
    teacherStart: Option<Date>,
    teacherEnd: Date)

  /** A drop-off date of the window: between its bounds, both included. */
  predicate InDropoff(w: Window, d: Date) {
    DateLe(w.dropoffStart, d) && DateLe(d, w.dropoffEnd)
  }

  class DeadlineStore {
    var rows: map<nat, Window>
    var nextId: nat

    predicate Valid()
      reads this
    {
      IdsBelow(rows, nextId)
    }

    constructor ()
      ensures Valid() && rows == map[]
    {
      rows, nextId := map[], 0;
    }

    /** `SELECT ... FROM deadlines ORDER BY id DESC LIMIT 1`: the id of the
        newest window, whatever its month. */
    function Current(): (r: Option<nat>)
      reads this
      requires Valid()
      ensures r.Some? ==> r.value in rows && forall k :: k in rows ==> k <= r.value
      ensures r.None? <==> rows == map[]
    {
      MaxKey(rows, nextId)
    }

    /** `SELECT ... FROM deadlines WHERE month_year = ?`, first row: the
        window labelled with that month, by exact equality of the label. */
    function ForMonth(month: YearMonth): (r: Option<nat>)
      reads this
      requires Valid()
      ensures r.Some? ==> r.value in rows && rows[r.value].monthYear == month
      ensures r.Some? ==> forall k :: k in rows && k < r.value ==> rows[k].monthYear != month
      ensures r.None? <==> forall k :: k in rows ==> rows[k].monthYear != month
    {
      FirstKey(rows, (w: Window) => w.monthYear == month, nextId)
    }

    /** `set_volunteer_dates`, POST: a new window for `month` whose
        teacher deadline is three days before the drop-off range starts, with
        no teacher start yet. It becomes the current window. Subtracting the
        three days fails (and nothing is stored) only before 0001-01-04. */
    method Create(month: YearMonth, rangeStart: Date, rangeEnd: Date, deadline: Date) returns (id: Option<nat>)
      requires Valid() && ValidDate(rangeStart)
      modifies this
      ensures Valid()
      ensures id.None? <==> DayNumber(rangeStart) <= 3
      ensures id.None? ==> rows == old(rows)
      ensures id.Some? ==> id.value !in old(rows) && forall k :: k in old(rows) ==> k < id.value
      ensures id.Some? ==> exists teacherEnd: Date ::
                ValidDate(teacherEnd) && DayNumber(teacherEnd) == DayNumber(rangeStart) - 3 &&
                rows == old(rows)[id.value := Window(month, None, deadline, rangeStart, rangeEnd, None, teacherEnd)]
      ensures id.Some? ==> Current() == id
    {
      var teacherEnd := TeacherEnd(rangeStart);
      if teacherEnd.None? {
        return None;
      }
      id := Some(nextId);
      rows := rows[nextId := Window(month, None, deadline, rangeStart, rangeEnd, None, teacherEnd.value)];
      nextId := nextId + 1;
    }

    /** `edit_deadline`, POST. The action `delete` removes the row; any other
        action rewrites its month, volunteer deadline and drop-off range and
        leaves both teacher dates as they were. A missing id changes nothing. */
    method Edit(id: nat, action: Option<string>, month: YearMonth, rangeStart: Date, rangeEnd: Date, deadline: Date)
      requires Valid()
      modifies this
      ensures Valid() && nextId == old(nextId)
      ensures action == Some("delete") ==> rows == old(rows) - {id}
      ensures action != Some("delete") ==> rows.Keys == old(rows).Keys
      ensures action != Some("delete") ==> forall k :: k in rows && k != id ==> rows[k] == old(rows)[k]
      ensures action != Some("delete") && id in rows ==>
                rows[id] == Window(month, old(rows)[id].volunteerStart, deadline, rangeStart, rangeEnd,
                                   old(rows)[id].teacherStart, old(rows)[id].teacherEnd)
    {
      if action == Some("delete") {
        rows := rows - {id};
        return;
      }
      if id in rows {
        rows := rows[id := rows[id].(monthYear := month, volunteerEnd := deadline, dropoffStart := rangeStart, dropoffEnd := rangeEnd)];
      }
    }

    /** `push_teachers`: opens claiming now by setting the teacher start of
        the newest window to today; no other row changes. */
    method Push(today: Date)
      requires Valid()
      modifies this
      ensures Valid() && nextId == old(nextId)
      ensures rows.Keys == old(rows).Keys
      ensures old(Current()).Some? ==> rows == old(rows)[old(Current()).value := old(rows)[old(Current()).value].(teacherStart := Some(today))]
      ensures forall k :: k in rows && Some(k) != old(Current()) ==> rows[k] == old(rows)[k]
    {
      var current := Current();
      if current.Some? {
        rows := rows[current.value := rows[current.value].(teacherStart := Some(today))];
      }
    }
  }
}
