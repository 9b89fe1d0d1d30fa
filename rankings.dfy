/** The administrator's rankings (`admin_rankings`): for every volunteer
    the number of bookings (gift cards and meals) made under their id, and
    for every recipe whose creator still exists the number of meals that
    bring it. */
module Rankings {
  import opened Rows
  import opened Ledger

  /** The ids of the rows that satisfy `p`. */
  function Matching<T>(rows: map<nat, T>, p: T -> bool): set<nat> {
    set k | k in rows && p(rows[k])
  }

  /** `SELECT COUNT(...) FROM table WHERE ...`: how many rows satisfy `p`. */
  function CountWhere<T>(rows: map<nat, T>, p: T -> bool): nat {
    |Matching(rows, p)|
  }

  /** A new row adds one to every count it satisfies and nothing to the
      others. */
  lemma CountInsert<T>(rows: map<nat, T>, p: T -> bool, k: nat, x: T)
    requires k !in rows
    ensures CountWhere(rows[k := x], p) == CountWhere(rows, p) + (if p(x) then 1 else 0)
  {
    if p(x) {
      assert Matching(rows[k := x], p) == Matching(rows, p) + {k};
    } else {
      assert Matching(rows[k := x], p) == Matching(rows, p);
    }
  }

  /** Removing a row takes one from every count it satisfied. */
  lemma CountRemove<T>(rows: map<nat, T>, p: T -> bool, k: nat)
    ensures CountWhere(rows - {k}, p) == CountWhere(rows, p) - (if k in rows && p(rows[k]) then 1 else 0)
  {
    if k in rows && p(rows[k]) {
      assert Matching(rows, p) == Matching(rows - {k}, p) + {k};
    } else {
      assert Matching(rows - {k}, p) == Matching(rows, p);
    }
  }

  /** The ids of the rows outside `todo` that satisfy `p`. */
  function MatchingOutside<T>(rows: map<nat, T>, p: T -> bool, todo: set<nat>): set<nat> {
    set k | k in rows && k !in todo && p(rows[k])
  }

  /** The count query, evaluated row by row. */
  method Count<T>(rows: map<nat, T>, p: T -> bool) returns (n: nat)
    ensures n == CountWhere(rows, p)
  {
    n := 0;
    var todo := rows.Keys;
    assert MatchingOutside(rows, p, todo) == {};
    while todo != {}
      invariant todo <= rows.Keys
      invariant n == |MatchingOutside(rows, p, todo)|
      decreases |todo|
    {
      var k :| k in todo;
      if p(rows[k]) {
        assert MatchingOutside(rows, p, todo - {k}) == MatchingOutside(rows, p, todo) + {k};
        n := n + 1;
      } else {
        assert MatchingOutside(rows, p, todo - {k}) == MatchingOutside(rows, p, todo);
      }
      todo := todo - {k};
    }
    assert MatchingOutside(rows, p, todo) == Matching(rows, p);
  }

  /** The `WHERE` conditions of the three count queries. */
  function CardBy(v: nat): GiftCard -> bool {
    (c: GiftCard) => c.volunteerId == v
  }

  function MealBy(v: nat): Meal -> bool {
    (m: Meal) => m.volunteerId == v
  }

  function MealOf(r: nat): Meal -> bool {
    (m: Meal) => m.recipeId == r
  }

  /** A volunteer's reward count: gift cards plus meals booked under the id. */
  function VolunteerTotal(t: Tables, v: nat): nat {
    CountWhere(t.giftCards, CardBy(v)) + CountWhere(t.meals, MealBy(v))
  }

  /** How many meals bring recipe `r`. */
  function RecipeTotal(t: Tables, r: nat): nat {
    CountWhere(t.meals, MealOf(r))
  }

  datatype VolunteerRank = VolunteerRank(id: nat, name: string, count: nat)

  datatype RecipeRank = RecipeRank(id: nat, recipe: string, creator: string, count: nat)

  function VolunteerIds(s: seq<VolunteerRank>): set<nat> {
    set i | 0 <= i < |s| :: s[i].id
  }

  function RecipeIds(s: seq<RecipeRank>): set<nat> {
    set i | 0 <= i < |s| :: s[i].id
  }

  lemma VolunteerIdsAppend(s: seq<VolunteerRank>, x: VolunteerRank)
    ensures VolunteerIds(s + [x]) == VolunteerIds(s) + {x.id}
  {
    forall id | id in VolunteerIds(s)
      ensures id in VolunteerIds(s + [x])
    {
      var i :| 0 <= i < |s| && s[i].id == id;
      assert (s + [x])[i] == s[i];
    }
    assert (s + [x])[|s|] == x;
  }

  lemma RecipeIdsAppend(s: seq<RecipeRank>, x: RecipeRank)
    ensures RecipeIds(s + [x]) == RecipeIds(s) + {x.id}
  {
    forall id | id in RecipeIds(s)
      ensures id in RecipeIds(s + [x])
    {
      var i :| 0 <= i < |s| && s[i].id == id;
      assert (s + [x])[i] == s[i];
    }
    assert (s + [x])[|s|] == x;
  }

  /** An entry correctly reports volunteer `y.id`. */
  predicate VolunteerRanked(t: Tables, y: VolunteerRank) {
    y.id in t.volunteers && y.name == t.volunteers[y.id].name && y.count == VolunteerTotal(t, y.id)
  }

  /** An entry correctly reports recipe `y.id` and its creator. */
  predicate RecipeRanked(t: Tables, y: RecipeRank) {
    y.id in t.recipes && t.recipes[y.id].creatorId in t.volunteers &&
    y.recipe == t.recipes[y.id].name && y.creator == t.volunteers[t.recipes[y.id].creatorId].name &&
    y.count == RecipeTotal(t, y.id)
  }

  /** The recipes outside `todo` that survive the join with their creator. */
  function CreatedRecipes(t: Tables, todo: set<nat>): set<nat> {
    set r | r in t.recipes && r !in todo && t.recipes[r].creatorId in t.volunteers
  }

  /** `ranks` holds exactly one correct entry for each volunteer outside
      `todo`. */
  predicate VolunteersRankedOutside(t: Tables, ranks: seq<VolunteerRank>, todo: set<nat>) {
    todo <= t.volunteers.Keys &&
    (forall i, j :: 0 <= i < j < |ranks| ==> ranks[i].id != ranks[j].id) &&
    VolunteerIds(ranks) == t.volunteers.Keys - todo &&
    forall y :: y in ranks ==> VolunteerRanked(t, y)
  }

  /** One turn of the volunteer loop. */
  lemma VolunteerStep(t: Tables, ranks: seq<VolunteerRank>, todo: set<nat>, v: nat)
    requires VolunteersRankedOutside(t, ranks, todo) && v in todo
    ensures VolunteersRankedOutside(t, ranks + [VolunteerRank(v, t.volunteers[v].name, VolunteerTotal(t, v))], todo - {v})
  {
    var rank := VolunteerRank(v, t.volunteers[v].name, VolunteerTotal(t, v));
    VolunteerIdsAppend(ranks, rank);
    forall i | 0 <= i < |ranks|
      ensures ranks[i].id != v
    {
      assert ranks[i].id in VolunteerIds(ranks);
    }
  }

  /** The first half of `admin_rankings`: one entry per volunteer row. */
  method VolunteerTotals(l: Ledger) returns (ranks: seq<VolunteerRank>)
    ensures forall i, j :: 0 <= i < j < |ranks| ==> ranks[i].id != ranks[j].id
    ensures VolunteerIds(ranks) == l.volunteers.Keys
    ensures forall y :: y in ranks ==> VolunteerRanked(l.State(), y)
  {
    var t := l.State();
    ranks := [];
    var todo := t.volunteers.Keys;
    while todo != {}
      invariant VolunteersRankedOutside(t, ranks, todo)
      decreases |todo|
    {
      var v :| v in todo;
      var cards := Count(t.giftCards, CardBy(v));
      var meals := Count(t.meals, MealBy(v));
      VolunteerStep(t, ranks, todo, v);
      ranks := ranks + [VolunteerRank(v, t.volunteers[v].name, cards + meals)];
      todo := todo - {v};
    }
  }

  /** `ranks` holds exactly one correct entry for each recipe outside `todo`
      whose creator exists. */
  predicate RecipesRankedOutside(t: Tables, ranks: seq<RecipeRank>, todo: set<nat>) {
    todo <= t.recipes.Keys &&
    (forall i, j :: 0 <= i < j < |ranks| ==> ranks[i].id != ranks[j].id) &&
    RecipeIds(ranks) == CreatedRecipes(t, todo) &&
    forall y :: y in ranks ==> RecipeRanked(t, y)
  }

  /** One turn of the recipe loop: a recipe whose creator is gone drops out
      of the join. */
  lemma RecipeStep(t: Tables, ranks: seq<RecipeRank>, todo: set<nat>, r: nat)
    requires RecipesRankedOutside(t, ranks, todo) && r in todo
    ensures t.recipes[r].creatorId in t.volunteers ==>
              RecipesRankedOutside(t, ranks + [RecipeRank(r, t.recipes[r].name, t.volunteers[t.recipes[r].creatorId].name, RecipeTotal(t, r))], todo - {r})
    ensures t.recipes[r].creatorId !in t.volunteers ==> RecipesRankedOutside(t, ranks, todo - {r})
  {
    if t.recipes[r].creatorId in t.volunteers {
      var rank := RecipeRank(r, t.recipes[r].name, t.volunteers[t.recipes[r].creatorId].name, RecipeTotal(t, r));
      RecipeIdsAppend(ranks, rank);
      assert CreatedRecipes(t, todo - {r}) == CreatedRecipes(t, todo) + {r};
      forall i | 0 <= i < |ranks|
        ensures ranks[i].id != r
      {
        assert ranks[i].id in RecipeIds(ranks);
      }
    } else {
      assert CreatedRecipes(t, todo - {r}) == CreatedRecipes(t, todo);
    }
  }

  /** The second half: one entry per recipe whose creator is a volunteer
      row (the inner join on `creator_id`). */
  method RecipeTotals(l: Ledger) returns (ranks: seq<RecipeRank>)
    ensures forall i, j :: 0 <= i < j < |ranks| ==> ranks[i].id != ranks[j].id
    ensures RecipeIds(ranks) == CreatedRecipes(l.State(), {})
    ensures forall y :: y in ranks ==> RecipeRanked(l.State(), y)
  {
    var t := l.State();
    ranks := [];
    var todo := t.recipes.Keys;
    assert CreatedRecipes(t, todo) == {};
    while todo != {}
      invariant RecipesRankedOutside(t, ranks, todo)
      decreases |todo|
    {
      var r :| r in todo;
      RecipeStep(t, ranks, todo, r);
      if t.recipes[r].creatorId in t.volunteers {
        var n := Count(t.meals, MealOf(r));
        ranks := ranks + [RecipeRank(r, t.recipes[r].name, t.volunteers[t.recipes[r].creatorId].name, n)];
      }
      todo := todo - {r};
    }
  }

  /** A new meal booking raises its volunteer's count and its recipe's
      count by one and leaves every other count as it was. */
  lemma BookingCounts(t: Tables, k: nat, m: Meal, v: nat, r: nat)
    requires k !in t.meals
    ensures VolunteerTotal(t.(meals := t.meals[k := m]), v) == VolunteerTotal(t, v) + (if m.volunteerId == v then 1 else 0)
    ensures RecipeTotal(t.(meals := t.meals[k := m]), r) == RecipeTotal(t, r) + (if m.recipeId == r then 1 else 0)
  {
    CountInsert(t.meals, MealBy(v), k, m);
    CountInsert(t.meals, MealOf(r), k, m);
  }

  /** Deleting a meal lowers its volunteer's and its recipe's counts by one. */
  lemma DeletionCounts(t: Tables, k: nat, v: nat, r: nat)
    requires k in t.meals
    ensures VolunteerTotal(t.(meals := t.meals - {k}), v) == VolunteerTotal(t, v) - (if t.meals[k].volunteerId == v then 1 else 0)
    ensures RecipeTotal(t.(meals := t.meals - {k}), r) == RecipeTotal(t, r) - (if t.meals[k].recipeId == r then 1 else 0)
  {
    CountRemove(t.meals, MealBy(v), k);
    CountRemove(t.meals, MealOf(r), k);
  }
}
