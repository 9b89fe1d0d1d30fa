/** The signup listings of app.py: the meals and the gift cards booked on
    or after a given day, each joined with its volunteer (and, for a meal,
    its recipe) and ordered by volunteer name, then date. Rows whose
    volunteer or recipe no longer exists drop out of the inner joins. The
    bound is the first of the current month for the current signups and the
    administrator's override page, and August 1 of the season for the
    all-time page. */
module Listings {
  import opened Rows
  import opened Text
  import opened Dates
  import opened Deadlines
  import opened Ledger

  /** One row of a listing: the booking's id, what is brought (the recipe's
      name or the gift card's name), the date and the volunteer's name. */
  datatype Line = Line(id: nat, item: string, date: Date, volunteer: string)

  /** `ORDER BY volunteer_name, date`: names in code-point order, then dates
      (the stored ISO texts order as the dates, IsoDates.IsoOrder). */
  predicate LineLe(a: Line, b: Line) {
    if a.volunteer == b.volunteer then DateLe(a.date, b.date) else StrLe(a.volunteer, b.volunteer)
  }

  lemma LineLeTotal(a: Line, b: Line)
    ensures LineLe(a, b) || LineLe(b, a)
  {
    StrLeTotal(a.volunteer, b.volunteer);
  }

  lemma LineLeTrans(a: Line, b: Line, c: Line)
    requires LineLe(a, b) && LineLe(b, c)
    ensures LineLe(a, c)
  {
    if a.volunteer != b.volunteer && b.volunteer != c.volunteer {
      StrLeTrans(a.volunteer, b.volunteer, c.volunteer);
      if a.volunteer == c.volunteer {
        StrLeAntisym(a.volunteer, b.volunteer);
      }
    }
  }

  predicate Sorted(s: seq<Line>) {
    forall i, j :: 0 <= i < j < |s| ==> LineLe(s[i], s[j])
  }

  function LineIds(s: seq<Line>): set<nat> {
    set i | 0 <= i < |s| :: s[i].id
  }

  /** Each booking appears at most once. */
  predicate DistinctIds(s: seq<Line>) {
    forall i, j :: 0 <= i < j < |s| ==> s[i].id != s[j].id
  }

  /** Where a new line goes in a sorted listing: after every line that does
      not come later than it. */
  function InsertPos(s: seq<Line>, x: Line): (p: nat)
    ensures p <= |s|
    ensures forall i :: 0 <= i < p ==> LineLe(s[i], x)
    ensures p < |s| ==> !LineLe(s[p], x)
  {
    if s == [] || !LineLe(s[0], x) then 0 else 1 + InsertPos(s[1..], x)
  }

  /** The listing with `x` spliced in at its place. */
  function Insert(s: seq<Line>, x: Line): seq<Line> {
    s[..InsertPos(s, x)] + [x] + s[InsertPos(s, x)..]
  }

  /** Putting a line at its InsertPos keeps a listing sorted. */
  lemma {:induction false} InsertSorted(s: seq<Line>, x: Line)
    requires Sorted(s)
    ensures Sorted(Insert(s, x))
  {
    var p := InsertPos(s, x);
    var r := Insert(s, x);
    if p < |s| {
      LineLeTotal(s[p], x);
    }
    forall i, j | 0 <= i < j < |r|
      ensures LineLe(r[i], r[j])
    {
      if j < p {
        assert r[i] == s[i] && r[j] == s[j];
      } else if j == p {
        assert r[i] == s[i] && r[j] == x;
      } else if i == p {
        assert r[j] == s[j - 1];
        if j - 1 > p {
          LineLeTrans(x, s[p], s[j - 1]);
        }
      } else if i < p {
        assert r[i] == s[i] && r[j] == s[j - 1];
      } else {
        assert r[i] == s[i - 1] && r[j] == s[j - 1];
      }
    }
  }

  /** Where each line of a splice comes from. */
  lemma SpliceIndex(s: seq<Line>, p: nat, x: Line)
    requires p <= |s|
    ensures var r := s[..p] + [x] + s[p..];
            |r| == |s| + 1 &&
            forall i :: 0 <= i < |r| ==> r[i] == (if i < p then s[i] else if i == p then x else s[i - 1])
  {
  }

  /** Splicing a line into a listing adds exactly that line. */
  lemma SpliceMembers(s: seq<Line>, p: nat, x: Line)
    requires p <= |s|
    ensures forall y :: y in s[..p] + [x] + s[p..] <==> y in s || y == x
  {
    var r := s[..p] + [x] + s[p..];
    SpliceIndex(s, p, x);
    forall y | y in r
      ensures y in s || y == x
    {
      var i :| 0 <= i < |r| && r[i] == y;
      if i < p {
        assert y == s[i];
      } else if i > p {
        assert y == s[i - 1];
      }
    }
    forall y | y in s
      ensures y in r
    {
      var i :| 0 <= i < |s| && s[i] == y;
      if i < p {
        assert r[i] == y;
      } else {
        assert r[i + 1] == y;
      }
    }
    assert r[p] == x;
  }

  /** ... and adds exactly its id. */
  lemma SpliceIds(s: seq<Line>, p: nat, x: Line)
    requires p <= |s|
    ensures LineIds(s[..p] + [x] + s[p..]) == LineIds(s) + {x.id}
  {
    var r := s[..p] + [x] + s[p..];
    SpliceIndex(s, p, x);
    forall id | id in LineIds(r)
      ensures id in LineIds(s) + {x.id}
    {
      var i :| 0 <= i < |r| && r[i].id == id;
      if i < p {
        assert r[i] == s[i];
      } else if i > p {
        assert r[i] == s[i - 1];
      }
    }
    forall id | id in LineIds(s)
      ensures id in LineIds(r)
    {
      var i :| 0 <= i < |s| && s[i].id == id;
      if i < p {
        assert r[i] == s[i];
      } else {
        assert r[i + 1] == s[i];
      }
    }
    assert r[p] == x;
  }

  /** A line whose id is new keeps the ids distinct. */
  lemma SpliceDistinct(s: seq<Line>, p: nat, x: Line)
    requires p <= |s| && DistinctIds(s) && x.id !in LineIds(s)
    ensures DistinctIds(s[..p] + [x] + s[p..])
  {
    var r := s[..p] + [x] + s[p..];
    SpliceIndex(s, p, x);
    forall i, j | 0 <= i < j < |r|
      ensures r[i].id != r[j].id
    {
      var i' := if i < p then i else i - 1;
      var j' := if j < p then j else j - 1;
      if i == p {
        assert r[j] == s[j'];
        assert s[j'].id in LineIds(s);
      } else if j == p {
        assert r[i] == s[i'];
        assert s[i'].id in LineIds(s);
      } else {
        assert r[i] == s[i'] && r[j] == s[j'];
      }
    }
  }

  /** Meal `k` is listed from day `from` on: its volunteer and recipe exist
      and its date is not earlier. */
  predicate MealShown(t: Tables, k: nat, from: Date) {
    k in t.meals && t.meals[k].volunteerId in t.volunteers && t.meals[k].recipeId in t.recipes &&
    DateLe(from, t.meals[k].date)
  }

  function MealLine(t: Tables, k: nat): Line
    requires k in t.meals && t.meals[k].volunteerId in t.volunteers && t.meals[k].recipeId in t.recipes
  {
    var m := t.meals[k];
    Line(k, t.recipes[m.recipeId].name, m.date, t.volunteers[m.volunteerId].name)
  }

  function ShownMeals(t: Tables, from: Date): set<nat> {
    set k | k in t.meals && MealShown(t, k, from)
  }

  /** What the meal query returns: one correctly joined line for each shown
      meal and nothing else, in listing order. */
  predicate IsMealListing(t: Tables, from: Date, lines: seq<Line>) {
    Sorted(lines) && DistinctIds(lines) && LineIds(lines) == ShownMeals(t, from) &&
    forall y :: y in lines ==> MealShown(t, y.id, from) && y == MealLine(t, y.id)
  }

  predicate CardShown(t: Tables, k: nat, from: Date) {
    k in t.giftCards && t.giftCards[k].volunteerId in t.volunteers && DateLe(from, t.giftCards[k].date)
  }

  function CardLine(t: Tables, k: nat): Line
    requires k in t.giftCards && t.giftCards[k].volunteerId in t.volunteers
  {
    var c := t.giftCards[k];
    Line(k, c.name, c.date, t.volunteers[c.volunteerId].name)
  }

  function ShownCards(t: Tables, from: Date): set<nat> {
    set k | k in t.giftCards && CardShown(t, k, from)
  }

  predicate IsCardListing(t: Tables, from: Date, lines: seq<Line>) {
    Sorted(lines) && DistinctIds(lines) && LineIds(lines) == ShownCards(t, from) &&
    forall y :: y in lines ==> CardShown(t, y.id, from) && y == CardLine(t, y.id)
  }

  /** `lines` is the sorted listing of the shown meals outside `todo`. */
  predicate MealsListedOutside(t: Tables, from: Date, lines: seq<Line>, todo: set<nat>) {
    todo <= t.meals.Keys && Sorted(lines) && DistinctIds(lines) &&
    LineIds(lines) == ShownMeals(t, from) - todo &&
    forall y :: y in lines ==> MealShown(t, y.id, from) && y == MealLine(t, y.id)
  }

  /** One turn of the meal loop: meal `k` joins the listing at its place if
      it is shown. */
  lemma MealStep(t: Tables, from: Date, lines: seq<Line>, todo: set<nat>, k: nat)
    requires MealsListedOutside(t, from, lines, todo) && k in todo
    ensures MealShown(t, k, from) ==> MealsListedOutside(t, from, Insert(lines, MealLine(t, k)), todo - {k})
    ensures !MealShown(t, k, from) ==> MealsListedOutside(t, from, lines, todo - {k})
  {
    if MealShown(t, k, from) {
      var line := MealLine(t, k);
      InsertSorted(lines, line);
      var p := InsertPos(lines, line);
      SpliceMembers(lines, p, line);
      SpliceIds(lines, p, line);
      SpliceDistinct(lines, p, line);
    }
  }

  /** The meal query of the signup pages, evaluated row by row. */
  method ListMeals(l: Ledger, from: Date) returns (lines: seq<Line>)
    ensures IsMealListing(l.State(), from, lines)
  {
    var t := l.State();
    lines := [];
    var todo := t.meals.Keys;
    while todo != {}
      invariant MealsListedOutside(t, from, lines, todo)
      decreases |todo|
    {
      var k :| k in todo;
      MealStep(t, from, lines, todo, k);
      if MealShown(t, k, from) {
        lines := Insert(lines, MealLine(t, k));
      }
      todo := todo - {k};
    }
  }

  /** `lines` is the sorted listing of the shown gift cards outside `todo`. */
  predicate CardsListedOutside(t: Tables, from: Date, lines: seq<Line>, todo: set<nat>) {
    todo <= t.giftCards.Keys && Sorted(lines) && DistinctIds(lines) &&
    LineIds(lines) == ShownCards(t, from) - todo &&
    forall y :: y in lines ==> CardShown(t, y.id, from) && y == CardLine(t, y.id)
  }

  /** One turn of the gift-card loop. */
  lemma CardStep(t: Tables, from: Date, lines: seq<Line>, todo: set<nat>, k: nat)
    requires CardsListedOutside(t, from, lines, todo) && k in todo
    ensures CardShown(t, k, from) ==> CardsListedOutside(t, from, Insert(lines, CardLine(t, k)), todo - {k})
    ensures !CardShown(t, k, from) ==> CardsListedOutside(t, from, lines, todo - {k})
  {
    if CardShown(t, k, from) {
      var line := CardLine(t, k);
      InsertSorted(lines, line);
      var p := InsertPos(lines, line);
      SpliceMembers(lines, p, line);
      SpliceIds(lines, p, line);
      SpliceDistinct(lines, p, line);
    }
  }

  /** The gift-card query of the signup pages, evaluated row by row. */
  method ListGiftCards(l: Ledger, from: Date) returns (lines: seq<Line>)
    ensures IsCardListing(l.State(), from, lines)
  {
    var t := l.State();
    lines := [];
    var todo := t.giftCards.Keys;
    while todo != {}
      invariant CardsListedOutside(t, from, lines, todo)
      decreases |todo|
    {
      var k :| k in todo;
      CardStep(t, from, lines, todo, k);
      if CardShown(t, k, from) {
        lines := Insert(lines, CardLine(t, k));
      }
      todo := todo - {k};
    }
  }

  /** `override_signup`: bookings from the first of the current month on. */
  method SignupsThisMonth(l: Ledger, today: Date) returns (meals: seq<Line>, cards: seq<Line>)
    requires ValidDate(today)
    ensures IsMealListing(l.State(), MonthStart(today), meals)
    ensures IsCardListing(l.State(), MonthStart(today), cards)
  {
    meals := ListMeals(l, MonthStart(today));
    cards := ListGiftCards(l, MonthStart(today));
  }

  /** `volunteer_signups`: the same listings, after which the page reads the
      newest deadline window and parses its volunteer start. Without a window,
      or when that window has no volunteer start, the page fails. */
  method VolunteerSignups(l: Ledger, store: DeadlineStore, today: Date) returns (r: Option<(seq<Line>, seq<Line>)>)
    requires ValidDate(today) && store.Valid()
    ensures r.None? <==> store.Current().None? || store.rows[store.Current().value].volunteerStart.None?
    ensures r.Some? ==> IsMealListing(l.State(), MonthStart(today), r.value.0)
    ensures r.Some? ==> IsCardListing(l.State(), MonthStart(today), r.value.1)
  {
    var meals, cards := SignupsThisMonth(l, today);
    var current := store.Current();
    if current.None? || store.rows[current.value].volunteerStart.None? {
      return None;
    }
    r := Some((meals, cards));
  }

  /** `volunteer_signups_all`: bookings of the whole program season. */
  method SignupsThisSeason(l: Ledger, today: Date) returns (meals: seq<Line>, cards: seq<Line>)
    requires ValidDate(today)
    ensures IsMealListing(l.State(), SeasonStart(today), meals)
    ensures IsCardListing(l.State(), SeasonStart(today), cards)
  {
    meals := ListMeals(l, SeasonStart(today));
    cards := ListGiftCards(l, SeasonStart(today));
  }

  /** A listing has one line per shown booking. */
  lemma {:induction false} ListingLength(lines: seq<Line>)
    requires DistinctIds(lines)
    ensures |LineIds(lines)| == |lines|
  {
    if lines != [] {
      var last := lines[|lines| - 1];
      var front := lines[..|lines| - 1];
      ListingLength(front);
      assert LineIds(lines) == LineIds(front) + {last.id};
      assert last.id !in LineIds(front);
    }
  }

  /** A meal booked on or after the bound joins the listing, with nothing
      else changing in it. */
  lemma BookingShown(t: Tables, k: nat, m: Meal, from: Date)
    requires k !in t.meals && m.volunteerId in t.volunteers && m.recipeId in t.recipes && DateLe(from, m.date)
    ensures ShownMeals(t.(meals := t.meals[k := m]), from) == ShownMeals(t, from) + {k}
  {
  }

  /** Deleting a volunteer hides the volunteer's meals from every listing,
      although the meal rows themselves stay. */
  lemma DeletedVolunteerHidden(t: Tables, v: nat, from: Date)
    ensures ShownMeals(t.(volunteers := t.volunteers - {v}), from)
            == ShownMeals(t, from) - set k | k in t.meals && t.meals[k].volunteerId == v
  {
  }
}
