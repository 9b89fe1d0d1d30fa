/** The booking tables of app.py: volunteers, recipes, teachers, meals and
    gift cards, and the handlers that insert, rewrite and delete their rows.
    Foreign keys are not enforced, so a meal may keep the id of a volunteer
    who has since been deleted; the joins of the listings drop such rows. */
module Ledger {
  import opened Rows
  import opened Dates

  datatype Volunteer = Volunteer(name: string, email: string, phone: string, dateAdded: Date)

  datatype Recipe = Recipe(name: string, creatorId: nat)

  datatype Teacher = Teacher(name: string, email: string)

  /** A meal booking; `teacherId` is set once a teacher claims it. */
  datatype Meal = Meal(recipeId: nat, date: Date, volunteerId: nat, teacherId: Option<nat>)

  datatype GiftCard = GiftCard(name: string, date: Date, volunteerId: nat, teacherId: Option<nat>)

  /** The whole database as one value, each table with the counter that
      stays above its ids. */
  datatype Tables = Tables(
    volunteers: map<nat, Volunteer>, nextVolunteer: nat,
    recipes: map<nat, Recipe>, nextRecipe: nat,
    teachers: map<nat, Teacher>, nextTeacher: nat,
    meals: map<nat, Meal>, nextMeal: nat,
    giftCards: map<nat, GiftCard>, nextGiftCard: nat)

  /** No two teacher rows share both name and email: the uniqueness that
      `INSERT OR IGNORE INTO teachers (name, email)` relies on. */
  predicate TeachersUnique(teachers: map<nat, Teacher>) {
    forall i, j :: i in teachers && j in teachers && i != j ==> teachers[i] != teachers[j]
  }

  predicate ValidTables(t: Tables) {
    IdsBelow(t.volunteers, t.nextVolunteer) && IdsBelow(t.recipes, t.nextRecipe) &&
    IdsBelow(t.teachers, t.nextTeacher) && IdsBelow(t.meals, t.nextMeal) &&
    IdsBelow(t.giftCards, t.nextGiftCard) && TeachersUnique(t.teachers)
  }

  /** `SELECT id FROM volunteers WHERE name = ?`, first row. A missing form
      field is bound as NULL and matches no row. */
  function VolunteerNamed(volunteers: map<nat, Volunteer>, limit: nat, name: Option<string>): (r: Option<nat>)
    requires IdsBelow(volunteers, limit)
    ensures r.Some? ==> r.value in volunteers && name == Some(volunteers[r.value].name)
    ensures r.Some? ==> forall k :: k in volunteers && k < r.value ==> name != Some(volunteers[k].name)
    ensures r.None? <==> forall k :: k in volunteers ==> name != Some(volunteers[k].name)
  {
    FirstKey(volunteers, (v: Volunteer) => name == Some(v.name), limit)
  }

  /** `SELECT id FROM recipes WHERE name = ?`, first row. */
  function RecipeNamed(recipes: map<nat, Recipe>, limit: nat, name: Option<string>): (r: Option<nat>)
    requires IdsBelow(recipes, limit)
    ensures r.Some? ==> r.value in recipes && name == Some(recipes[r.value].name)
    ensures r.Some? ==> forall k :: k in recipes && k < r.value ==> name != Some(recipes[k].name)
    ensures r.None? <==> forall k :: k in recipes ==> name != Some(recipes[k].name)
  {
    FirstKey(recipes, (c: Recipe) => name == Some(c.name), limit)
  }

  /** `SELECT id FROM teachers WHERE name = ? AND email = ?`; with unique
      (name, email) pairs there is at most one such row. */
  function TeacherFor(teachers: map<nat, Teacher>, limit: nat, name: string, email: string): (r: Option<nat>)
    requires IdsBelow(teachers, limit) && TeachersUnique(teachers)
    ensures r.Some? ==> r.value in teachers && teachers[r.value] == Teacher(name, email)
    ensures r.Some? ==> forall k :: k in teachers && teachers[k] == Teacher(name, email) ==> k == r.value
    ensures r.None? <==> forall k :: k in teachers ==> teachers[k] != Teacher(name, email)
  {
    FirstKey(teachers, (c: Teacher) => c == Teacher(name, email), limit)
  }

  /** Outcome of a signup: the id of the new row, or the failed lookup that
      made the handler raise before inserting. */
  datatype Signup = Booked(id: nat) | NoSuchRecipe | NoSuchVolunteer

  /** The two edit pages: the volunteers' own and the administrator's
      override. */
  datatype Surface = VolunteerSurface | AdminSurface

  /** Whether an edit POST rewrites the row: the volunteer page does so for
      every action but `delete`, the administrator page only for `edit`. */
  predicate Rewrites(surface: Surface, action: Option<string>)
    ensures action == Some("delete") ==> !Rewrites(surface, action)
    ensures surface == VolunteerSurface ==> (Rewrites(surface, action) <==> action != Some("delete"))
    ensures surface == AdminSurface ==> (Rewrites(surface, action) <==> action == Some("edit"))
  {
    action != Some("delete") && (surface == VolunteerSurface || action == Some("edit"))
  }

  class Ledger {
    var volunteers: map<nat, Volunteer>
    var nextVolunteer: nat
    var recipes: map<nat, Recipe>
    var nextRecipe: nat
    var teachers: map<nat, Teacher>
    var nextTeacher: nat
    var meals: map<nat, Meal>
    var nextMeal: nat
    var giftCards: map<nat, GiftCard>
    var nextGiftCard: nat

    function State(): Tables
      reads this
    {
      Tables(volunteers, nextVolunteer, recipes, nextRecipe, teachers, nextTeacher,
             meals, nextMeal, giftCards, nextGiftCard)
    }

    predicate Valid()
      reads this
    {
      ValidTables(State())
    }

    constructor ()
      ensures Valid()
      ensures volunteers == map[] && recipes == map[] && teachers == map[] && meals == map[] && giftCards == map[]
    {
      volunteers, recipes, teachers, meals, giftCards := map[], map[], map[], map[], map[];
      nextVolunteer, nextRecipe, nextTeacher, nextMeal, nextGiftCard := 0, 0, 0, 0, 0;
    }

    /** `meal_signup` and `admin_add_meal`, POST: the recipe is looked up by
        name, then the volunteer; if either is missing the handler fails and
        nothing is inserted. Otherwise a new, unclaimed meal is booked under
        a fresh id; no other row changes. */
    method SignUpMeal(volunteerName: Option<string>, mealName: Option<string>, date: Date) returns (r: Signup)
      requires Valid()
      modifies this
      ensures Valid()
      ensures r == NoSuchRecipe <==> RecipeNamed(old(recipes), old(nextRecipe), mealName).None?
      ensures RecipeNamed(old(recipes), old(nextRecipe), mealName).Some? ==>
                (r == NoSuchVolunteer <==> VolunteerNamed(old(volunteers), old(nextVolunteer), volunteerName).None?)
      ensures (RecipeNamed(old(recipes), old(nextRecipe), mealName).Some? &&
               VolunteerNamed(old(volunteers), old(nextVolunteer), volunteerName).Some?)
              ==> r.Booked?
      ensures !r.Booked? ==> unchanged(this)
      ensures r.Booked? ==>
                r.id !in old(meals) &&
                meals == old(meals)[r.id := Meal(RecipeNamed(old(recipes), old(nextRecipe), mealName).value, date,
                                                 VolunteerNamed(old(volunteers), old(nextVolunteer), volunteerName).value, None)]
      ensures r.Booked? ==> volunteers == old(volunteers) && recipes == old(recipes) &&
                            teachers == old(teachers) && giftCards == old(giftCards)
    {
      var recipeId := RecipeNamed(recipes, nextRecipe, mealName);
      if recipeId.None? {
        return NoSuchRecipe;
      }
      var volunteerId := VolunteerNamed(volunteers, nextVolunteer, volunteerName);
      if volunteerId.None? {
        return NoSuchVolunteer;
      }
      r := Booked(nextMeal);
      meals := meals[nextMeal := Meal(recipeId.value, date, volunteerId.value, None)];
      nextMeal := nextMeal + 1;
    }

    /** `gc_signup` and `admin_add_gc`, POST: the same with the volunteer
        lookup only. */
    method SignUpGiftCard(volunteerName: Option<string>, cardName: string, date: Date) returns (r: Signup)
      requires Valid()
      modifies this
      ensures Valid()
      ensures r != NoSuchRecipe
      ensures r == NoSuchVolunteer <==> VolunteerNamed(old(volunteers), old(nextVolunteer), volunteerName).None?
      ensures !r.Booked? ==> unchanged(this)
      ensures r.Booked? ==>
                r.id !in old(giftCards) &&
                giftCards == old(giftCards)[r.id := GiftCard(cardName, date,
                                                             VolunteerNamed(old(volunteers), old(nextVolunteer), volunteerName).value, None)]
      ensures r.Booked? ==> volunteers == old(volunteers) && recipes == old(recipes) &&
                            teachers == old(teachers) && meals == old(meals)
    {
      var volunteerId := VolunteerNamed(volunteers, nextVolunteer, volunteerName);
      if volunteerId.None? {
        return NoSuchVolunteer;
      }
      r := Booked(nextGiftCard);
      giftCards := giftCards[nextGiftCard := GiftCard(cardName, date, volunteerId.value, None)];
      nextGiftCard := nextGiftCard + 1;
    }

    /** `edit_meal` and `admin_edit_meal`, POST: `delete` removes the meal
        with that id; a rewrite sets its date and recipe and keeps its
        volunteer and teacher; a missing id or, on the administrator page, an
        unknown action changes nothing. */
    method EditMeal(surface: Surface, id: nat, action: Option<string>, date: Date, recipeId: nat)
      requires Valid()
      modifies this
      ensures Valid()
      ensures volunteers == old(volunteers) && recipes == old(recipes) && teachers == old(teachers) &&
              giftCards == old(giftCards) && nextMeal == old(nextMeal)
      ensures action == Some("delete") ==> meals == old(meals) - {id}
      ensures Rewrites(surface, action) && id in old(meals) ==>
                meals == old(meals)[id := old(meals)[id].(date := date, recipeId := recipeId)]
      ensures action != Some("delete") && (!Rewrites(surface, action) || id !in old(meals)) ==> meals == old(meals)
    {
      if action == Some("delete") {
        meals := meals - {id};
      } else if Rewrites(surface, action) && id in meals {
        meals := meals[id := meals[id].(date := date, recipeId := recipeId)];
      }
    }

    /** `edit_gc` and `admin_edit_gc`, POST: as EditMeal, a rewrite setting
        the card's name and date. */
    method EditGiftCard(surface: Surface, id: nat, action: Option<string>, cardName: string, date: Date)
      requires Valid()
      modifies this
      ensures Valid()
      ensures volunteers == old(volunteers) && recipes == old(recipes) && teachers == old(teachers) &&
              meals == old(meals) && nextGiftCard == old(nextGiftCard)
      ensures action == Some("delete") ==> giftCards == old(giftCards) - {id}
      ensures Rewrites(surface, action) && id in old(giftCards) ==>
                giftCards == old(giftCards)[id := old(giftCards)[id].(name := cardName, date := date)]
      ensures action != Some("delete") && (!Rewrites(surface, action) || id !in old(giftCards)) ==> giftCards == old(giftCards)
    {
      if action == Some("delete") {
        giftCards := giftCards - {id};
      } else if Rewrites(surface, action) && id in giftCards {
        giftCards := giftCards[id := giftCards[id].(name := cardName, date := date)];
      }
    }

    /** `add_volunteer`, POST: a volunteer is added, dated today, only when
        name, email and phone are all given and non-empty. */
    method AddVolunteer(name: Option<string>, email: Option<string>, phone: Option<string>, today: Date) returns (id: Option<nat>)
      requires Valid()
      modifies this
      ensures Valid()
      ensures id.Some? <==> Truthy(name) && Truthy(email) && Truthy(phone)
      ensures id.None? ==> unchanged(this)
      ensures id.Some? ==> id.value !in old(volunteers) &&
                           volunteers == old(volunteers)[id.value := Volunteer(name.value, email.value, phone.value, today)]
      ensures recipes == old(recipes) && teachers == old(teachers) && meals == old(meals) && giftCards == old(giftCards)
    {
      if !(Truthy(name) && Truthy(email) && Truthy(phone)) {
        return None;
      }
      id := Some(nextVolunteer);
      volunteers := volunteers[nextVolunteer := Volunteer(name.value, email.value, phone.value, today)];
      nextVolunteer := nextVolunteer + 1;
    }

    /** `delete_volunteer`: removes that volunteer row and nothing else; the
        volunteer's bookings and recipes stay behind. */
    method DeleteVolunteer(id: nat)
      requires Valid()
      modifies this
      ensures Valid()
      ensures volunteers == old(volunteers) - {id} && nextVolunteer == old(nextVolunteer)
      ensures recipes == old(recipes) && teachers == old(teachers) && meals == old(meals) && giftCards == old(giftCards)
    {
      volunteers := volunteers - {id};
    }
  }
}
