/** Which e-mails `admin_send_emails` sends: one per meal that a teacher
    has claimed and whose date falls in the drop-off range of the deadline
    window labelled with the current month. The message text and its
    delivery are not part of this model; a notice carries what the message
    is built from. */
module Notifications {
  import opened Rows
  import opened Text
  import opened Dates
  import opened Deadlines
  import opened Ledger
  import opened Claims

  /** The fields of one selected row: the e-mail goes to the teacher with
      the volunteer in copy. `mealId` says which row it came from. */
  datatype Notice = Notice(
    mealId: nat,
    teacherName: string, teacherEmail: string,
    volunteerName: string, volunteerEmail: string,
    mealName: string, dropoffDate: Date)

  /** Meal `k` is selected: its recipe, volunteer and claiming teacher all
      exist (three inner joins, a NULL teacher joins nothing) and its date is
      within the window's drop-off range. */
  predicate Notified(t: Tables, w: Window, k: nat) {
    k in t.meals && t.meals[k].recipeId in t.recipes && t.meals[k].volunteerId in t.volunteers &&
    t.meals[k].teacherId.Some? && t.meals[k].teacherId.value in t.teachers &&
    InDropoff(w, t.meals[k].date)
  }

  function NoticeFor(t: Tables, w: Window, k: nat): Notice
    requires Notified(t, w, k)
  {
    var m := t.meals[k];
    var teacher := t.teachers[m.teacherId.value];
    var volunteer := t.volunteers[m.volunteerId];
    Notice(k, teacher.name, teacher.email, volunteer.name, volunteer.email, t.recipes[m.recipeId].name, m.date)
  }

  function NotifiedIds(t: Tables, w: Window): set<nat> {
    set k | k in t.meals && Notified(t, w, k)
  }

  function NoticeIds(s: seq<Notice>): set<nat> {
    set i | 0 <= i < |s| :: s[i].mealId
  }

  lemma NoticeIdsAppend(s: seq<Notice>, x: Notice)
    ensures NoticeIds(s + [x]) == NoticeIds(s) + {x.mealId}
  {
    forall id | id in NoticeIds(s)
      ensures id in NoticeIds(s + [x])
    {
      var i :| 0 <= i < |s| && s[i].mealId == id;
      assert (s + [x])[i] == s[i];
    }
    assert (s + [x])[|s|] == x;
  }

  /** `sent` holds exactly one correct notice for each selected meal outside
      `todo`. */
  predicate SentOutside(t: Tables, w: Window, sent: seq<Notice>, todo: set<nat>) {
    (forall i, j :: 0 <= i < j < |sent| ==> sent[i].mealId != sent[j].mealId) &&
    NoticeIds(sent) == NotifiedIds(t, w) - todo &&
    forall n :: n in sent ==> Notified(t, w, n.mealId) && n == NoticeFor(t, w, n.mealId)
  }

  /** `sent` holds exactly one correct notice per selected meal. */
  predicate IsSelection(t: Tables, w: Window, sent: seq<Notice>) {
    SentOutside(t, w, sent, {})
  }

  /** One turn of the send loop: meal `k` leaves `todo`, with its notice if
      it is selected. */
  lemma SelectStep(t: Tables, w: Window, sent: seq<Notice>, todo: set<nat>, k: nat)
    requires SentOutside(t, w, sent, todo) && k in todo
    ensures Notified(t, w, k) ==> SentOutside(t, w, sent + [NoticeFor(t, w, k)], todo - {k})
    ensures !Notified(t, w, k) ==> SentOutside(t, w, sent, todo - {k})
  {
    if Notified(t, w, k) {
      var sent' := sent + [NoticeFor(t, w, k)];
      NoticeIdsAppend(sent, NoticeFor(t, w, k));
      forall i | 0 <= i < |sent|
        ensures sent'[i].mealId != k
      {
        assert sent[i].mealId in NoticeIds(sent);
      }
    }
  }

  /** The selection query and the send loop over its rows: one notice per
      selected meal. */
  method SelectNotices(t: Tables, w: Window) returns (sent: seq<Notice>)
    ensures IsSelection(t, w, sent)
  {
    sent := [];
    var todo := t.meals.Keys;
    while todo != {}
      invariant todo <= t.meals.Keys
      invariant SentOutside(t, w, sent, todo)
      decreases |todo|
    {
      var k :| k in todo;
      SelectStep(t, w, sent, todo, k);
      if Notified(t, w, k) {
        sent := sent + [NoticeFor(t, w, k)];
      }
      todo := todo - {k};
    }
  }

  /** `admin_send_emails`: without a window labelled with the current month
      the handler fails before anything is sent; otherwise the notices are
      those of that window's drop-off range. */
  method DropoffNotices(l: Ledger, store: DeadlineStore, today: Date) returns (r: Option<seq<Notice>>)
    requires store.Valid()
    ensures r.None? <==> store.ForMonth(MonthOf(today)).None?
    ensures r.Some? ==> IsSelection(l.State(), store.rows[store.ForMonth(MonthOf(today)).value], r.value)
  {
    var window := store.ForMonth(MonthOf(today));
    if window.None? {
      return None;
    }
    var sent := SelectNotices(l.State(), store.rows[window.value]);
    r := Some(sent);
  }

  /** A meal that nobody has claimed is never announced. */
  lemma UnclaimedNotNotified(t: Tables, w: Window, k: nat)
    requires k in t.meals && t.meals[k].teacherId.None?
    ensures k !in NotifiedIds(t, w)
  {
  }

  /** A teacher's claim on a meal inside the drop-off range, whose recipe
      and volunteer exist, selects that meal for a notice addressed to that
      teacher. */
  lemma ClaimedMealNotified(t: Tables, w: Window, name: Option<string>, email: Option<string>, idText: Option<string>)
    requires ValidTables(t) && Accepted(name, email, idText, Some("meals"))
    requires var id := ParseDecimal(idText.value);
             id.Some? && id.value in t.meals && t.meals[id.value].recipeId in t.recipes &&
             t.meals[id.value].volunteerId in t.volunteers && InDropoff(w, t.meals[id.value].date)
    ensures var r := ClaimEffect(t, name, email, idText, Some("meals"));
            var k := ParseDecimal(idText.value).value;
            Notified(r, w, k) && NoticeFor(r, w, k).teacherName == name.value && NoticeFor(r, w, k).teacherEmail == email.value
  {
    ClaimOutcome(t, name, email, idText, Some("meals"));
  }
}
