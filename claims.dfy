/** A teacher's claim of a reward (`teachers_reward_signup`, POST): after
    the form is validated, the teacher is recorded once per (name, email)
    and the chosen meal or gift card is assigned to that teacher, replacing
    any earlier claimant. */
module Claims {
  import opened Rows
  import opened Text
  import opened Ledger

  /** The form passes validation: all four fields given and non-empty, and
      the reward type names one of the two reward tables. */
  predicate Accepted(name: Option<string>, email: Option<string>, idText: Option<string>, rewardType: Option<string>)
    ensures name == None || email == None || idText == None || rewardType == None ==> !Accepted(name, email, idText, rewardType)
    ensures name == Some("") || email == Some("") || idText == Some("") ==> !Accepted(name, email, idText, rewardType)
    ensures rewardType != Some("meals") && rewardType != Some("gift_cards") ==> !Accepted(name, email, idText, rewardType)
    ensures Truthy(name) && Truthy(email) && Truthy(idText) && (rewardType == Some("meals") || rewardType == Some("gift_cards"))
            ==> Accepted(name, email, idText, rewardType)
  {
    Truthy(name) && Truthy(email) && Truthy(idText) && Truthy(rewardType) &&
    (rewardType == Some("meals") || rewardType == Some("gift_cards"))
  }

  /** The teachers table after `INSERT OR IGNORE`, with the id the
      sub-select then finds for (name, email). */
  function RecordTeacher(t: Tables, name: string, email: string): (r: (Tables, nat))
    requires ValidTables(t)
    ensures ValidTables(r.0)
    ensures TeacherFor(r.0.teachers, r.0.nextTeacher, name, email) == Some(r.1)
    ensures TeacherFor(t.teachers, t.nextTeacher, name, email).Some? ==> r.0 == t
    ensures TeacherFor(t.teachers, t.nextTeacher, name, email).None? ==>
              r.1 !in t.teachers && r.0 == t.(teachers := t.teachers[r.1 := Teacher(name, email)], nextTeacher := r.1 + 1)
  {
    match TeacherFor(t.teachers, t.nextTeacher, name, email)
    case Some(k) => (t, k)
    case None =>
      var t' := t.(teachers := t.teachers[t.nextTeacher := Teacher(name, email)], nextTeacher := t.nextTeacher + 1);
      assert TeachersUnique(t'.teachers);
      assert t'.teachers[t.nextTeacher] == Teacher(name, email);
      var found := TeacherFor(t'.teachers, t'.nextTeacher, name, email);
      assert found.Some? && found.value == t.nextTeacher;
      (t', t.nextTeacher)
  }

  /** The `UPDATE` of the chosen row's claimant. The id field is text; it
      names a row only when it is a plain decimal number, and an id naming no
      row updates nothing. */
  function AssignClaimant(t: Tables, rewardType: Option<string>, id: Option<nat>, teacher: nat): (r: Tables)
    requires ValidTables(t)
    ensures ValidTables(r)
    ensures r.(meals := t.meals, giftCards := t.giftCards) == t
    ensures r.meals.Keys == t.meals.Keys && r.giftCards.Keys == t.giftCards.Keys
    ensures forall k :: k in t.meals && Some(k) != id ==> r.meals[k] == t.meals[k]
    ensures forall k :: k in t.giftCards && Some(k) != id ==> r.giftCards[k] == t.giftCards[k]
  {
    if id.None? then t
    else if rewardType == Some("meals") then
      if id.value in t.meals then t.(meals := t.meals[id.value := t.meals[id.value].(teacherId := Some(teacher))])
      else t
    else
      if id.value in t.giftCards then t.(giftCards := t.giftCards[id.value := t.giftCards[id.value].(teacherId := Some(teacher))])
      else t
  }

  /** The whole effect of a claim on the tables: an invalid form changes
      nothing (ClaimOutcome states the effect of a valid one). */
  function ClaimEffect(t: Tables, name: Option<string>, email: Option<string>, idText: Option<string>, rewardType: Option<string>): (r: Tables)
    requires ValidTables(t)
    ensures ValidTables(r)
    ensures !Accepted(name, email, idText, rewardType) ==> r == t
  {
    if !Accepted(name, email, idText, rewardType) then t
    else
      var (t', teacher) := RecordTeacher(t, name.value, email.value);
      AssignClaimant(t', rewardType, ParseDecimal(idText.value), teacher)
  }

  /** A valid claim records the teacher, adds no other teacher, leaves the
      volunteers and recipes alone and sets that teacher on the named row of
      the named table, when the id names one, and on no other row. */
  lemma ClaimOutcome(t: Tables, name: Option<string>, email: Option<string>, idText: Option<string>, rewardType: Option<string>)
    requires ValidTables(t) && Accepted(name, email, idText, rewardType)
    ensures var r := ClaimEffect(t, name, email, idText, rewardType);
            var teacher := TeacherFor(r.teachers, r.nextTeacher, name.value, email.value);
            var id := ParseDecimal(idText.value);
            teacher.Some? &&
            r.volunteers == t.volunteers && r.recipes == t.recipes &&
            r.teachers.Keys >= t.teachers.Keys &&
            (forall k :: k in t.teachers ==> r.teachers[k] == t.teachers[k]) &&
            (forall k :: k in r.teachers && k !in t.teachers ==> k == teacher.value) &&
            (if rewardType == Some("meals") && id.Some? && id.value in t.meals
             then r.meals == t.meals[id.value := t.meals[id.value].(teacherId := teacher)]
             else r.meals == t.meals) &&
            (if rewardType == Some("gift_cards") && id.Some? && id.value in t.giftCards
             then r.giftCards == t.giftCards[id.value := t.giftCards[id.value].(teacherId := teacher)]
             else r.giftCards == t.giftCards)
  {
    ClaimTeacherOutcome(t, name, email, idText, rewardType);
    ClaimRowOutcome(t, name, email, idText, rewardType);
  }

  /** The teacher half of ClaimOutcome. */
  lemma ClaimTeacherOutcome(t: Tables, name: Option<string>, email: Option<string>, idText: Option<string>, rewardType: Option<string>)
    requires ValidTables(t) && Accepted(name, email, idText, rewardType)
    ensures var r := ClaimEffect(t, name, email, idText, rewardType);
            var (t1, teacher) := RecordTeacher(t, name.value, email.value);
            r.(meals := t1.meals, giftCards := t1.giftCards) == t1 &&
            TeacherFor(r.teachers, r.nextTeacher, name.value, email.value) == Some(teacher) &&
            r.volunteers == t.volunteers && r.recipes == t.recipes &&
            r.teachers.Keys >= t.teachers.Keys &&
            (forall k :: k in t.teachers ==> r.teachers[k] == t.teachers[k]) &&
            (forall k :: k in r.teachers && k !in t.teachers ==> k == teacher)
  {
    var (t1, teacher) := RecordTeacher(t, name.value, email.value);
    var r := AssignClaimant(t1, rewardType, ParseDecimal(idText.value), teacher);
    assert r == ClaimEffect(t, name, email, idText, rewardType);
    assert r.teachers == t1.teachers && r.nextTeacher == t1.nextTeacher;
  }

  /** The row half of ClaimOutcome. */
  lemma ClaimRowOutcome(t: Tables, name: Option<string>, email: Option<string>, idText: Option<string>, rewardType: Option<string>)
    requires ValidTables(t) && Accepted(name, email, idText, rewardType)
    ensures var r := ClaimEffect(t, name, email, idText, rewardType);
            var teacher := Some(RecordTeacher(t, name.value, email.value).1);
            var id := ParseDecimal(idText.value);
            (if rewardType == Some("meals") && id.Some? && id.value in t.meals
             then r.meals == t.meals[id.value := t.meals[id.value].(teacherId := teacher)]
             else r.meals == t.meals) &&
            (if rewardType == Some("gift_cards") && id.Some? && id.value in t.giftCards
             then r.giftCards == t.giftCards[id.value := t.giftCards[id.value].(teacherId := teacher)]
             else r.giftCards == t.giftCards)
  {
    var (t1, teacher) := RecordTeacher(t, name.value, email.value);
    assert t1.meals == t.meals && t1.giftCards == t.giftCards;
  }

  /** Assigning the same claimant again changes nothing. */
  lemma AssignIdempotent(t: Tables, rewardType: Option<string>, id: Option<nat>, teacher: nat)
    requires ValidTables(t)
    ensures var once := AssignClaimant(t, rewardType, id, teacher);
            AssignClaimant(once, rewardType, id, teacher) == once
  {
    var once := AssignClaimant(t, rewardType, id, teacher);
    if id.Some? && rewardType == Some("meals") && id.value in t.meals {
      assert once.meals[id.value := once.meals[id.value].(teacherId := Some(teacher))] == once.meals;
    } else if id.Some? && rewardType != Some("meals") && id.value in t.giftCards {
      assert once.giftCards[id.value := once.giftCards[id.value].(teacherId := Some(teacher))] == once.giftCards;
    }
  }

  /** Submitting the same claim twice has the effect of submitting it once:
      the teacher is not recorded again and the row keeps that teacher. */
  lemma ClaimIdempotent(t: Tables, name: Option<string>, email: Option<string>, idText: Option<string>, rewardType: Option<string>)
    requires ValidTables(t)
    ensures ClaimEffect(ClaimEffect(t, name, email, idText, rewardType), name, email, idText, rewardType)
            == ClaimEffect(t, name, email, idText, rewardType)
  {
    if Accepted(name, email, idText, rewardType) {
      var (t1, teacher) := RecordTeacher(t, name.value, email.value);
      var id := ParseDecimal(idText.value);
      var once := AssignClaimant(t1, rewardType, id, teacher);
      assert RecordTeacher(once, name.value, email.value) == (once, teacher);
      AssignIdempotent(t1, rewardType, id, teacher);
    }
  }

  /** Of two accepted claims on the same row, the later one wins: the row
      ends up assigned to the second claimant, whoever held it before. */
  lemma ClaimLastWriterWins(t: Tables, name1: Option<string>, email1: Option<string>,
                            name2: Option<string>, email2: Option<string>, idText: Option<string>, rewardType: Option<string>)
    requires ValidTables(t)
    requires Accepted(name1, email1, idText, rewardType) && Accepted(name2, email2, idText, rewardType)
    ensures var r := ClaimEffect(ClaimEffect(t, name1, email1, idText, rewardType), name2, email2, idText, rewardType);
            var id := ParseDecimal(idText.value);
            var teacher := TeacherFor(r.teachers, r.nextTeacher, name2.value, email2.value);
            (rewardType == Some("meals") && id.Some? && id.value in t.meals ==>
               id.value in r.meals && r.meals[id.value].teacherId == teacher) &&
            (rewardType == Some("gift_cards") && id.Some? && id.value in t.giftCards ==>
               id.value in r.giftCards && r.giftCards[id.value].teacherId == teacher)
  {
    var once := ClaimEffect(t, name1, email1, idText, rewardType);
    ClaimOutcome(t, name1, email1, idText, rewardType);
    ClaimOutcome(once, name2, email2, idText, rewardType);
    assert once.meals.Keys == t.meals.Keys && once.giftCards.Keys == t.giftCards.Keys;
  }

  /** A claim touches one row: every other meal and gift card keeps its
      claimant, and no booking is added or removed. */
  lemma ClaimTouchesOneRow(t: Tables, name: Option<string>, email: Option<string>, idText: Option<string>, rewardType: Option<string>, k: nat)
    requires ValidTables(t)
    requires !(Accepted(name, email, idText, rewardType) && ParseDecimal(idText.value) == Some(k))
    ensures var r := ClaimEffect(t, name, email, idText, rewardType);
            r.meals.Keys == t.meals.Keys && r.giftCards.Keys == t.giftCards.Keys &&
            (k in t.meals ==> r.meals[k] == t.meals[k]) &&
            (k in t.giftCards ==> r.giftCards[k] == t.giftCards[k])
  {
    if Accepted(name, email, idText, rewardType) {
      ClaimOutcome(t, name, email, idText, rewardType);
    }
  }

  /** The teacher insert on the live tables, skipped for a known (name,
      email), and the sub-select of the teacher's id. */
  method RecordClaimant(l: Ledger, name: string, email: string) returns (teacher: nat)
    requires l.Valid()
    modifies l
    ensures l.State() == RecordTeacher(old(l.State()), name, email).0
    ensures teacher == RecordTeacher(old(l.State()), name, email).1
  {
    var found := TeacherFor(l.teachers, l.nextTeacher, name, email);
    if found.Some? {
      return found.value;
    }
    teacher := l.nextTeacher;
    l.teachers := l.teachers[l.nextTeacher := Teacher(name, email)];
    l.nextTeacher := l.nextTeacher + 1;
  }

  /** The update of the chosen row on the live tables. */
  method AssignRow(l: Ledger, rewardType: Option<string>, id: Option<nat>, teacher: nat)
    requires l.Valid()
    modifies l
    ensures l.State() == AssignClaimant(old(l.State()), rewardType, id, teacher)
  {
    if id.Some? {
      if rewardType == Some("meals") {
        if id.value in l.meals {
          l.meals := l.meals[id.value := l.meals[id.value].(teacherId := Some(teacher))];
        }
      } else if id.value in l.giftCards {
        l.giftCards := l.giftCards[id.value := l.giftCards[id.value].(teacherId := Some(teacher))];
      }
    }
  }

  /** The claim handler on the live tables: validation, the teacher insert,
      then the update of the chosen row's claimant. */
  method Claim(l: Ledger, name: Option<string>, email: Option<string>, idText: Option<string>, rewardType: Option<string>)
    requires l.Valid()
    modifies l
    ensures l.Valid()
    ensures l.State() == ClaimEffect(old(l.State()), name, email, idText, rewardType)
  {
    if !Accepted(name, email, idText, rewardType) {
      return;
    }
    var teacher := RecordClaimant(l, name.value, email.value);
    AssignRow(l, rewardType, ParseDecimal(idText.value), teacher);
  }
}
