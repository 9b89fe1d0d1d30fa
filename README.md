# Meals of Gratitude: a verified model of the application core

Meals of Gratitude is a small Flask application (`app.py`) that runs a school
program in which parent volunteers bring meals or gift cards to teachers.
Underneath its routes it keeps a handful of SQLite tables and a signed session
cookie. This project models that state and the handlers that change it in
Dafny, and proves what the handlers promise.

- **Access.** The administrator logs in with a password. The hash comparison
  is a function parameter. Volunteers and teachers each enter a shared access
  code. Each code series is append-only, and its newest row is the current
  code. A session remembers the id of the code it entered, so appending a code
  shuts out every earlier session. The three `before_request` hooks are
  modelled as `Access.Session.Gate`. (`access.dfy`)
- **Deadline windows.** Each program month has one row. The current window is
  the row with the largest id. Creating a window derives the teacher deadline
  as three days before drop-off starts. Editing rewrites four columns. Push
  stamps the teacher start on the newest row only. (`deadlines.dfy`, with
  calendar arithmetic in `dates.dfy`)
- **Bookings.**
  - Meal and gift-card signups resolve the volunteer, and for a meal the
    recipe, by exact name. If a lookup fails, the handler fails before it
    inserts anything.
  - Edits and deletes come from two pages: the volunteer page and the
    administrator's override page. They treat unknown actions differently.
  - Volunteers can be added and deleted. (`ledger.dfy`)
- **Claims.** A teacher claims a meal or gift card by id. The teacher is
  recorded once per (name, email). The chosen row's claimant is overwritten,
  so the last claim wins. (`claims.dfy`)
- **Read-only views.**
  - The signup listings join bookings with volunteers and recipes, filter by
    date and sort by (volunteer name, date). (`listings.dfy`)
  - The rankings count bookings per volunteer and meals per recipe.
    (`rankings.dfy`)
  - The e-mail selection picks claimed meals inside the current month's
    drop-off range. (`notifications.dfy`)

Tables are maps from row id to row, each with a counter kept above every id in
use. A new row therefore gets an id larger than all present ones, as SQLite's
rowid does. A lookup with `one=True` and no `ORDER BY` is modelled as yielding the
matching row with the smallest id (`Rows.FirstKey`). SQL leaves that row open;
the model assumes SQLite's scan in rowid order, which is what a table without a
usable index gives. `ORDER BY id DESC LIMIT 1` yields the
largest id (`Rows.MaxKey`). Dates are validated (year, month, day) values of
years 1 to 9999. `IsoDates.IsoOrder` proves that SQLite's text comparison of
the stored `YYYY-MM-DD` strings agrees with date order. That is why the model
filters and sorts on dates directly. The lower bounds the listing pages build
are written in that form only for years from 1000 on; see "## Left out".

app.py leaves some rules to its database schema, which is not part of this
model. What app.py itself does, and what the model assumes of the schema:

- `add_volunteer` does not check whether a volunteer's name is already taken,
  and the model assumes no uniqueness constraint on `volunteers.name`: adding
  a volunteer always inserts a row. A name lookup yields the oldest matching
  volunteer.
- `set_volunteer_dates` does not check whether a month already has a window,
  and the model assumes no uniqueness constraint on `deadlines.month_year`:
  creating a window always inserts a row.
- Neither deadline handler checks the order of a window's dates, and the model
  assumes no check constraint on them.
- The model assumes a uniqueness constraint on (name, email) in `teachers`.
  That constraint is what `INSERT OR IGNORE` in the claim handler relies on.

## Model

| member | source | states |
|---|---|---|
| `Rows.FirstKey` | app.py:39-48 | the row a `one=True` lookup returns: a matching id with no smaller matching id, or none exactly when no row matches |
| `Rows.MaxKey` | app.py:111 | `ORDER BY id DESC LIMIT 1`: an id at least every id present, none exactly for an empty table |
| `Text.StrLeTotal` | app.py:136-138 | the text order used by `ORDER BY` is total |
| `Text.StrLeTrans` | app.py:136-138 | the text order is transitive |
| `Text.StrLeAntisym` | app.py:136-138 | the text order is antisymmetric |
| `Text.ParseDecimal` | app.py:338-339 | the id text names a row exactly when it is a non-empty string of decimal digits |
| `Text.DecimalRoundTrip` | app.py:338-339 | an id written in decimal, as the reward page renders it (app.py:353), reads back as that id |
| `Text.DigitsRoundTrip` | app.py:693 | a zero-padded field reads back as the number written |
| `Text.DigitsOrder` | app.py:693 | zero-padded fields of one width compare as their numbers, and distinct numbers give distinct fields |
| `Dates.DaysInMonth` | app.py:352 | `monthrange` day count: 28 to 31, and 29 exactly for February of a leap year |
| `Dates.DateLeIffDayNumber` | app.py:678-679 | calendar order is the order of day ordinals |
| `Dates.PrevDay` | app.py:679 | the previous day has ordinal one less; there is none only for 0001-01-01 |
| `Dates.MinusDays` | app.py:679 | `d - timedelta(days=n)` has ordinal exactly n less, and fails exactly when that would precede day 1 |
| `Dates.TeacherEnd` | app.py:678-679 | the teacher deadline is exactly three days before the drop-off start; the subtraction fails exactly when the start is one of the first three days of year 1 |
| `Dates.TeacherEndExample` | app.py:678-679 | a range starting 2025-04-10 gives teachers until 2025-04-07 |
| `Dates.NextMonth` | app.py:685-692 | the next month is valid and exactly one month later, so December rolls over to January of the next year |
| `Dates.MonthIndexInjective` | app.py:685-692 | month indexes identify valid months, so NextMonth's contract fixes its result |
| `Dates.SeasonStart` | app.py:163-168 | the latest August 1 not after today |
| `Dates.SeasonStartExamples` | app.py:163-168 | 2025-07-31 belongs to the season begun 2024-08-01, 2025-08-01 begins a new one |
| `Dates.MonthStart` | app.py:134-135 | the first day of today's month, not after any date of that month |
| `Dates.MonthEnd` | app.py:350-352 | the last day of today's month, not before any date of that month |
| `Dates.InMonthBounds` | app.py:350-356 | a date lies between the month bounds exactly when it is in today's month |
| `IsoDates.IsoOrder` | app.py:136-139 | stored ISO texts compare exactly as their dates and are equal exactly for equal dates |
| `IsoDates.ParseMonthField` | app.py:674 | `strptime` of the month field, for four-digit years and two-digit months: only four digits naming a year from 1 to 9999, a dash and a two-digit month 01 to 12 are read, giving a valid month |
| `IsoDates.ParseMonthFieldYearZero` | app.py:674 | the field `0000-05` is refused, while `0001-05` is read as May of year 1 |
| `IsoDates.MonthFieldRoundTrip` | app.py:673-675 | a `YYYY-MM` month field is read back as the month written |
| `IsoDates.NextMonthField` | app.py:685-693 | the default month offered by the deadline form reads back as next month |
| `Access.AdminGate` | app.py:89-93 | admits exactly the requests that are not for a gated administrator page or come from a logged-in session; every other request goes to the login page |
| `Access.NewestId` | app.py:98 | `ORDER BY id DESC LIMIT 1` on a code table: an id present and at least every id present, none exactly for an empty table |
| `Access.NewestCode` | app.py:483 | the code stored under an id that is at least every id present, none exactly for an empty table |
| `Access.AppendCode` | app.py:480 | the inserted code gets an id above every id in use, every earlier row stays, and the new row becomes the newest id and code |
| `Access.CodeGate` | app.py:95-107 | off the area or on its code page the request passes; otherwise an empty code table fails, a session verified with the newest id passes, and any other goes to the code page |
| `Access.Session.Gate` | app.py:89-107 | a request passes exactly when all three hooks pass it, and a refusal by the login hook, registered first, is the answer |
| `Access.CodeLog.SetCode` | app.py:474-481 | an empty or missing code inserts nothing; any other is inserted under an id above every earlier id and becomes the newest code |
| `Access.Session.EnterCode` | app.py:118-128 | on the code table of the audience entering: an empty table fails; a wrong code leaves the session unchanged; the newest code marks only that audience verified with the newest id, which the gate then admits (also `enter_teacher_code`, app.py:312-324) |
| `Access.Session.AdminLogin` | app.py:420-433 | an empty password, a missing hash or a failed check leaves the session unchanged; a passing check sets only the login flag |
| `Access.Session.Logout` | app.py:469-472 | clears the session, after which every admin page but the login page redirects to it |
| `Access.AdminAdmission` | app.py:89-93 | on admin pages the decision is the login flag's alone |
| `Access.AreaAdmission` | app.py:95-107 | on an audience's pages only that audience's check applies: admitted exactly when the code table is non-empty and the session is verified with its newest id |
| `Access.RotationRevokes` | app.py:95-107 | inserting a code redirects every session admitted before, since its version is no longer the newest id |
| `Access.RotationIsPerAudience` | app.py:95-107 | inserting one audience's code changes no decision on the other audience's pages |
| `Deadlines.DeadlineStore.Current` | app.py:111 | the current window is the newest row, whatever its month |
| `Deadlines.DeadlineStore.ForMonth` | app.py:304 | the first window whose month label equals the given month, none exactly when no label equals it |
| `Deadlines.DeadlineStore.Create` | app.py:670-683 | stores the window with teacher deadline exactly three days before drop-off start and no teacher start; the new row becomes current |
| `Deadlines.DeadlineStore.Edit` | app.py:696-711 | `delete` removes the row; otherwise only month, volunteer deadline and drop-off range of that id change |
| `Deadlines.DeadlineStore.Push` | app.py:499-503 | sets today's teacher start on the newest row only |
| `Ledger.VolunteerNamed` | app.py:262 | the oldest volunteer with exactly that name; none for a missing name or no match |
| `Ledger.RecipeNamed` | app.py:281 | the oldest recipe with exactly that name; none for a missing name or no match |
| `Ledger.TeacherFor` | app.py:338 | the one teacher row with that name and email, if any |
| `Ledger.Ledger.SignUpMeal` | app.py:276-287 | a missing recipe, then a missing volunteer, fails with nothing inserted; otherwise one unclaimed meal is added under a fresh id (also `admin_add_meal`, app.py:578-589) |
| `Ledger.Ledger.SignUpGiftCard` | app.py:256-264 | a missing volunteer fails with nothing inserted; otherwise one unclaimed gift card is added under a fresh id (also `admin_add_gc`, app.py:595-603) |
| `Ledger.Rewrites` | app.py:193-198 | `delete` never rewrites; the volunteer page rewrites for every other action, the administrator page (app.py:533-535) only for `edit` |
| `Ledger.Ledger.EditMeal` | app.py:188-199 | `delete` removes exactly that meal; a rewrite sets date and recipe only; the admin page (app.py:528-539) rewrites only for `edit` |
| `Ledger.Ledger.EditGiftCard` | app.py:224-235 | the same for gift cards, setting name and date (admin page app.py:555-566) |
| `Ledger.Ledger.AddVolunteer` | app.py:448-458 | a volunteer dated today is added exactly when name, email and phone are all non-empty |
| `Ledger.Ledger.DeleteVolunteer` | app.py:462-467 | removes that volunteer and nothing else; bookings stay |
| `Claims.Accepted` | app.py:333-336 | a form with a missing or empty name, email or id, or any reward type but `meals` or `gift_cards`, is rejected; a complete form for either table is accepted |
| `Claims.RecordTeacher` | app.py:337-338 | after insert-or-ignore the pair has exactly one teacher row; a known pair changes nothing, a new one gets a fresh id |
| `Claims.AssignClaimant` | app.py:338-339 | the update touches no table but the two reward tables, adds or removes no row, and leaves every row but the one the id names as it was |
| `Claims.ClaimEffect` | app.py:326-340 | an invalid form changes nothing; every claim keeps ids below their counters and (name, email) pairs unique |
| `Claims.ClaimOutcome` | app.py:337-339 | a valid claim records the teacher, adds no other teacher, and sets that teacher on the named row of the named table only |
| `Claims.ClaimIdempotent` | app.py:337-339 | repeating a claim changes nothing further |
| `Claims.ClaimLastWriterWins` | app.py:338-339 | of two claims on one row the later claimant holds it |
| `Claims.ClaimTouchesOneRow` | app.py:338-339 | every booking other than the named one keeps its claimant, and none is added or removed |
| `Claims.RecordClaimant` | app.py:337-338 | the insert-or-ignore and the sub-select on the live tables act as RecordTeacher |
| `Claims.AssignRow` | app.py:338-339 | the update on the live tables acts as AssignClaimant |
| `Claims.AssignIdempotent` | app.py:338-339 | setting the same claimant on the same row twice is the same as once |
| `Claims.Claim` | app.py:326-340 | the handler's steps have exactly the effect ClaimEffect describes |
| `Listings.LineLeTotal` | app.py:138 | the listing order is total |
| `Listings.LineLeTrans` | app.py:138 | the listing order is transitive |
| `Listings.InsertSorted` | app.py:138 | inserting at that point keeps the listing sorted |
| `Listings.ListMeals` | app.py:136-148 | one correctly joined line per meal with existing volunteer and recipe dated on or after the bound, each once, sorted by volunteer name then date |
| `Listings.ListGiftCards` | app.py:140-152 | the same for gift cards joined with their volunteers |
| `Listings.SignupsThisMonth` | app.py:505-526 | the override page lists bookings from the first of the current month |
| `Listings.VolunteerSignups` | app.py:132-159 | the current signups list the same bookings, and fail exactly when there is no deadline window or the newest one has no volunteer start |
| `Listings.SignupsThisSeason` | app.py:161-186 | the all-time page lists bookings from the season's August 1 |
| `Listings.ListingLength` | app.py:145-152 | a listing has as many lines as bookings shown |
| `Listings.BookingShown` | app.py:285-286 | a new meal with existing volunteer and recipe dated on or after the bound joins the listing |
| `Listings.DeletedVolunteerHidden` | app.py:466 | deleting a volunteer hides exactly their meals from the listing |
| `Rankings.CountInsert` | app.py:726-729 | a new row adds one to each count whose condition it meets |
| `Rankings.CountRemove` | app.py:726-729 | a deleted row takes one from each count whose condition it met |
| `Rankings.Count` | app.py:726-729 | the count query equals the number of rows meeting its condition |
| `Rankings.VolunteerTotals` | app.py:720-731 | one entry per volunteer, each with that volunteer's gift cards plus meals |
| `Rankings.RecipeTotals` | app.py:732-739 | one entry per recipe whose creator exists, each with its number of meals |
| `Rankings.BookingCounts` | app.py:728-738 | booking a meal raises its volunteer's and recipe's counts by one and no other count |
| `Rankings.DeletionCounts` | app.py:728-738 | deleting a meal lowers its volunteer's and recipe's counts by one |
| `Notifications.SelectNotices` | app.py:747-754 | one notice per claimed meal with existing recipe, volunteer and teacher inside the drop-off range, each once, carrying that meal's joined fields, and no other |
| `Notifications.DropoffNotices` | app.py:742-755 | fails exactly when no window is labelled with today's month; otherwise the notices are SelectNotices' for that window |
| `Notifications.UnclaimedNotNotified` | app.py:747-751 | an unclaimed meal is never announced |
| `Notifications.ClaimedMealNotified` | app.py:747-751 | a valid claim on a meal inside the range makes its notice go to that teacher |

## Left out

- Routing, templates, redirects and the connection lifecycle are not modelled. A handler's outcome is its effect on the tables and the session, or a result value.
- The GET pages other than the signup listings, the rankings and the e-mail selection are not modelled: the area landing pages, the forms and the teacher reward page only render the current or this month's window and the tables. Their reads of the newest window are `Deadlines.DeadlineStore.Current`. No handler writes `volunteer_start`, so `volunteers()` (app.py:109-116) fails in the same way as `Listings.VolunteerSignups` does.
- The e-mail subject, body and SMTP delivery are not modelled; a notice carries the fields the message is built from.
- `check_password_hash` is a function parameter; the hashing itself is not modelled.
- The clock is not modelled; `today` is a parameter. Month names from `strftime("%B %Y")` are represented by the (year, month) they name.
- Recipe upload, recipe editing and image files are not modelled. They are outside the booking and claim flows; the recipes table is only read here.
- The session cookie's signing and the secret key are not modelled.
- Ids are unbounded; SQLite's 64-bit rowid limit is not modelled.
- Row order where SQL leaves it open is not modelled: ties in a listing, and the order of notices and ranking entries. The model fixes one order, and the contracts of the listings, rankings and notices assert only the order SQL guarantees. The single-row lookups without `ORDER BY` (`Rows.FirstKey`, `Ledger.VolunteerNamed`, `Ledger.RecipeNamed`, `Deadlines.DeadlineStore.ForMonth`) do assert the smallest matching id; that rests on the rowid scan order assumed above, not on SQL.
- Ledger.Ledger.SignUpMeal: the date is a typed value. A missing or malformed form date, which app.py would store as NULL or as text, is not modelled. The same holds for `SignUpGiftCard`, `EditMeal` and `EditGiftCard` and their name and recipe fields.
- Deadlines.DeadlineStore.Create: takes the parsed month and dates. `strptime` failing on a malformed field is not modelled, and neither is Python's acceptance of a one-digit month. It always inserts once the dates are valid: a uniqueness constraint on `deadlines.month_year` in the schema would make the insert at app.py:681-682 fail for a month posted twice, and that is not modelled.
- Deadlines.DeadlineStore.Edit: takes the parsed month and dates, as Create does.
- Claims.ClaimOutcome: the id text names a row only when it is plain decimal digits. SQLite's integer-affinity conversion also accepts a few other spellings, for example with a sign; those are treated as naming no row.
- IsoDates.MonthFieldRoundTrip: holds for four-digit years only. Earlier years are written unpadded by `f"{year}"` and do not read back.
- Listings.VolunteerSignups: the schema is not part of this model. A column default for `volunteer_start` there would let the page succeed where the model fails.
- Ledger.Ledger.AddVolunteer: always inserts once the three fields are given. A uniqueness constraint on `volunteers.name` in the schema would make the insert at app.py:457 fail on a repeated name, and that is not modelled.
- IsoDates.ParseMonthField: reads two-digit months only. `strptime`'s `%m` also reads a one-digit month (`2025-5`), and `%Y` and `%m` also read non-ASCII decimal digits; those fields are refused by the model and read by app.py.
- Listings.SignupsThisSeason: lists from the typed August 1 of the season year. app.py:168 writes that bound as `f"{year}-08-01"`, unpadded, so for a season year below 1000 the text comparison in SQLite differs from date order (`999-08-01` is above `0999-08-20` as text), and the page omits bookings the model lists. The model holds for season years 1000 to 9999.
- Listings.SignupsThisMonth: lists from the typed first of the month. app.py:507 and app.py:134 write that bound with `strftime("%Y-%m")`, whose year is not zero-padded below 1000 on every platform; the model holds for years 1000 to 9999, as for `Listings.SignupsThisSeason`. The same applies to `Listings.VolunteerSignups`.
