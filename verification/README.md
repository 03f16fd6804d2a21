# beerfest in Dafny

A model of the core of *beerfest*, a small Django application for a beer festival.
It covers:

- the festival schema (breweries, bars, beers, and the per-user `UserBeer` rows) and
  its constraints;
- the views that read and write a user's rows: the annotated beer listing, the
  star/unstar handler and the profile list;
- the `beer_tags` template filters and tags;
- data migration 0005, which turns the `abv` column from a whole count of tenths into
  a one-decimal percentage.

The model is made of pure functions over one immutable database value:

- `Models.Db` holds each table as a map keyed by primary key.
- The `UserBeer` rows are keyed by their `(user, beer)` pair.
- A beer's `abv` is held as a whole number of tenths of a percent (`Some(45)` is 4.5%).
  Inside the migration, the exact `Decimal` values are `real`s.

Modules:

- `Wrappers`: `Option` (a nullable value) and `Result` (a value or a raised error).
- `Numerals`: decimal numerals, plus the `{:.1f}` formatter with its parser.
- `Models`: the schema and the `Valid` predicate, which collects every constraint
  the schema declares.
- `Views`: `get_queryset` of `BeerListView`, `post`/`get_object` of
  `StarBeerBaseView`, and the profile's `beer_list`.
- `BeerTags`: `nullable_number`, `abv`, `user_starred_beer` and the two table
  inclusion tags.
- `AbvMigration`: `forwards_func` and `reverse_func`. Each is written twice: as a
  function over the whole table, and as a method with the loop of the source.

Two facts about the star and unstar handlers shape the model:

- The star and unstar endpoints accept only `POST` (`http_method_names = ['post']`).
- A handler without its `star_beer` flag fails when a request is handled, not at
  startup. Before that failure comes the login check of `dispatch`.

## Model

| member | source | states |
|---|---|---|
| Models.ValidAbvRange | beerfest/models.py:32-33 | an ABV fits `DecimalField(max_digits=3, decimal_places=1)` exactly when it lies between -99.9% and 99.9% |
| Models.AbvExamples | beerfest/models.py:32-33 | 0.0%, 0.1%, 1.0%, 99.9% and null fit the column; 100.0% does not |
| Models.NewBeerKeepsValid | beerfest/models.py:26-42 | creating a beer from bar, brewery and name, with no number, not reserved, a null ABV and empty notes, under the next free id, keeps a valid database valid exactly when the bar and brewery exist, the name fits its 200 characters and the brewery has no beer of that name yet |
| Models.BeerLabel | beerfest/models.py:37-38 | a beer's label is its name, then " by ", then its brewery's name, each recoverable from its position |
| Models.BreweryNameIdentifiesBrewery | beerfest/models.py:6 | in a valid database two breweries with the same name are the same brewery |
| Models.BarNameIdentifiesBar | beerfest/models.py:17 | in a valid database two bars with the same name are the same bar |
| Models.BreweryAndNameIdentifyBeer | beerfest/models.py:42 | brewery and name together identify a beer, whichever bar pours it |
| Models.SameNameAtAnotherBarIsInvalid | beerfest/models.py:42 | one brewery's beer listed under the same name at two bars is not a valid state |
| Models.LabelsDistinctWithinBrewery | beerfest/models.py:37-42 | distinct beers of one brewery never share a display label |
| Models.RelationRowsUnique | beerfest/models.py:60 | a valid relation table never holds two rows for one `(user, beer)` pair |
| Models.RelationRowsKeepValid | beerfest/models.py:45-60 | replacing the relation rows by rows keyed by their own pair, on known beers, keeps a valid database valid |
| Models.NewUserBeerKeepsValid | beerfest/models.py:45-60 | adding a fresh row for an existing beer keeps a valid database valid |
| Models.IdOrder | beerfest/models.py:13 | the `ordering = ["id"]` order: strictly increasing, and holding exactly the ids of the set |
| Models.IdOrderLength | beerfest/models.py:41 | the ordering lists as many ids as the set holds below the bound, so none is listed twice |
| Models.IdOrderCoversAll | beerfest/models.py:41 | when every id lies below the auto-increment counter, the ordering lists as many ids as the table holds |
| Views.BeerList | beerfest/views.py:47-61 | the listing holds every beer once, in id order, with its stored fields; an anonymous caller sees no `starred` column; a signed-in caller sees, on each beer, their row's flag, or false when there is no row |
| Views.ListingIdsIgnoreRelationRows | beerfest/views.py:52-61 | the listed ids depend on the beer table alone, never on relation rows or on who asks |
| Views.OtherUsersRowsIrrelevant | beerfest/views.py:53-56 | a caller's listing is unchanged by other users' rows |
| Views.StarPost | beerfest/views.py:68-87 | in order: no signed-in caller gives 403; no `star_beer` flag gives a misconfiguration; a primary key missing from the beer table (`get_object`) gives 404; otherwise 204. On a failure nothing changes. On success the caller's row carries the flag; an existing row keeps its `tried` and `rating`; a missing row is created unrated and untried; every other row and table is unchanged |
| Views.StarCreatesFreshRow | beerfest/views.py:83-86 | a first star on a beer creates exactly the fresh row of the schema: starred, not tried, unrated; a first unstar creates the same row unstarred |
| Views.StarBeer | beerfest/views.py:90-91 | the star view is never misconfigured; it succeeds exactly for a signed-in caller and an existing beer, leaving that row starred |
| Views.UnstarBeer | beerfest/views.py:94-95 | the unstar view is never misconfigured; it succeeds exactly for a signed-in caller and an existing beer, leaving that row present and unstarred |
| Views.StarPostIdempotent | beerfest/views.py:83-87 | posting the same request twice leaves the same state and reply as posting it once |
| Views.StarPostKeepsValid | beerfest/views.py:83-86 | the handler keeps a valid database valid |
| Views.ListingShowsPostedFlag | beerfest/views.py:53-59 | after a successful post, the caller's listing shows the posted flag on that beer |
| Views.ProfileBeers | beerfest/views.py:34-39 | the profile holds each beer once, in id order, exactly when the user's row for it is starred, tried or rated |
| Views.ProfileWithinListing | beerfest/views.py:34-39 | every beer on a profile also appears in the listing |
| Views.StarAddsToProfile | beerfest/views.py:34-39 | starring a beer puts it on the starrer's profile |
| Views.UnstarRemovesFromProfile | beerfest/views.py:34-39 | unstarring a beer that was never tried or rated takes it off the profile |
| Views.OtherUsersPostLeavesProfile | beerfest/views.py:34-39 | another user's star or unstar never changes a user's profile |
| BeerTags.NullableNumberLossless | beerfest/templatetags/beer_tags.py:9-14 | distinct inputs never give the same output |
| BeerTags.NullableNumberTextExactlyForNull | beerfest/templatetags/beer_tags.py:9-14 | the cell is text, and empty, exactly for a null value; a number comes out exactly when that number went in |
| BeerTags.Abv | beerfest/templatetags/beer_tags.py:17-22 | the output is "TBC" exactly for a null ABV; otherwise it ends in a digit after a point and a percent sign, and it parses back to the value |
| BeerTags.AbvInjective | beerfest/templatetags/beer_tags.py:17-22 | distinct ABVs never render alike |
| BeerTags.AbvExamples | beerfest/templatetags/beer_tags.py:17-22 | null renders "TBC"; 0, 1 and 10 tenths render "0.0%", "0.1%" and "1.0%" |
| BeerTags.AbvTwoDigitExamples | beerfest/templatetags/beer_tags.py:17-22 | 100 and 999 tenths render "10.0%" and "99.9%" |
| BeerTags.UserStarredBeerAgreesWithListing | beerfest/templatetags/beer_tags.py:25-29 | read over the star pairs taken from the starred relation rows, the tag answers as the listing's `starred` column does for that user and beer |
| BeerTags.UserStarredBeerArgumentOrder | beerfest/templatetags/beer_tags.py:25-29 | the tag takes the user id first: for any distinct user and beer ids, a table holding that user's one star on that beer answers true, and false once the ids are swapped |
| BeerTags.TableTagsDifferOnlyInStars | beerfest/templatetags/beer_tags.py:32-39 | the two table tags hand the template the same list and user and differ in the `show_stars` flag alone, which only the second sets |
| Numerals.FormatTenths | beerfest/templatetags/beer_tags.py:22 | `{:.1f}` writes a sign only for negative values, then the whole part, a point and one digit; the parser reads back the value written |
| Numerals.NatToStringRoundTrip | beerfest/templatetags/beer_tags.py:22 | reading back a numeral gives the number written |
| Numerals.StringToNatRoundTrip | beerfest/templatetags/beer_tags.py:22 | writing the value of a canonical digit string gives that string back |
| Numerals.NumeralLength | beerfest/models.py:32-33 | a number has at most `k` digits exactly when it is below 10 to the `k` |
| Numerals.FormatTenthsInjective | beerfest/templatetags/beer_tags.py:22 | distinct values never format alike |
| Numerals.ParseTenthsOnlyFormats | beerfest/templatetags/beer_tags.py:22 | every string the parser accepts is the formatting of the value it reads |
| AbvMigration.TruncateToInt | beerfest/migrations/0005_alter_beer_abv_updated.py:28 | `int()` truncates toward zero, and is exact on whole values |
| AbvMigration.ForwardValue | beerfest/migrations/0005_alter_beer_abv_updated.py:11-17 | one value is accepted exactly when it is below 1000 tenths; it then becomes the percentage old/10, below 100; otherwise the error names the rescaled value |
| AbvMigration.ReverseValue | beerfest/migrations/0005_alter_beer_abv_updated.py:28 | `int(value * 10)` is exact on one-decimal values and truncates toward zero otherwise |
| AbvMigration.ValueRoundTripForward | beerfest/migrations/0005_alter_beer_abv_updated.py:11-28 | reversing a rescaled value gives back the stored integer |
| AbvMigration.ValueRoundTripReverse | beerfest/migrations/0005_alter_beer_abv_updated.py:11-28 | rescaling a reversed value below 100% gives back the column value |
| AbvMigration.ValueExamples | beerfest/migrations/0005_alter_beer_abv_updated.py:11-28 | 0, 1, 10 and 999 become 0.0, 0.1, 1.0 and 99.9; 0.1, 1.1 and 99.9 reverse to 1, 11 and 999 |
| AbvMigration.ForwardPassFailure | beerfest/migrations/0005_alter_beer_abv_updated.py:6-16 | the loop raises exactly when a visited beer is too large, with the message of the first such beer |
| AbvMigration.ForwardPassSuccess | beerfest/migrations/0005_alter_beer_abv_updated.py:6-18 | a loop that finishes rescales each visited beer with a value and writes nothing else |
| AbvMigration.Forward | beerfest/migrations/0005_alter_beer_abv_updated.py:4-18 | the migration fails exactly when some beer would reach 100%, with the message of the too-large beer of least id; otherwise only ABVs change, each to old/10 and below 100% |
| AbvMigration.ForwardsFunc | beerfest/migrations/0005_alter_beer_abv_updated.py:4-18 | the loop over the beers in id order computes `Forward` |
| AbvMigration.ReversePassOutcome | beerfest/migrations/0005_alter_beer_abv_updated.py:23-29 | the loop writes each visited beer with a value and nothing else |
| AbvMigration.Reverse | beerfest/migrations/0005_alter_beer_abv_updated.py:21-29 | reversing keeps every beer and every other field; a null stays null; a value becomes ten times the percentage |
| AbvMigration.ReverseFunc | beerfest/migrations/0005_alter_beer_abv_updated.py:21-29 | the loop over the beers in id order computes `Reverse` |
| AbvMigration.RescaleKeepsStoredNumber | beerfest/migrations/0005_alter_beer_abv_updated.py:11-28 | in whole tenths, rescaling and reversing leave the stored number as it was: only its unit changes |
| AbvMigration.ForwardKeepsStoredNumbers | beerfest/migrations/0005_alter_beer_abv_updated.py:4-18 | a successful forward migration stores the same integers, now read as tenths of a percent |
| AbvMigration.ReverseKeepsStoredNumbers | beerfest/migrations/0005_alter_beer_abv_updated.py:21-29 | the reverse migration stores the same integers |
| AbvMigration.ForwardThenReverse | beerfest/migrations/0005_alter_beer_abv_updated.py:46 | a forward migration that succeeds is undone exactly by the reverse |
| AbvMigration.ReverseThenForward | beerfest/migrations/0005_alter_beer_abv_updated.py:46 | reversing a valid database and migrating it forward again succeeds and restores it |
| AbvMigration.ForwardFitsColumn | beerfest/migrations/0005_alter_beer_abv_updated.py:39-52 | after success, every old value of at least -999 fits the final `max_digits=3` column |
| AbvMigration.OneHundredPercentRefused | beerfest/migrations/0005_alter_beer_abv_updated.py:11-16 | a first too-large beer stored as 1000 stops the migration, and the message shows the value as "100.0" |

## Left out

- Django's ORM, SQL, query sets and `select_related` are left out. The tables are maps and the queries are functions over them.
- HTTP routing, URL patterns, templates and the rendered HTML are left out. Only the values the views and tags compute are modelled.
- Authentication is reduced to the caller being signed in or not, and the login redirect of the profile view is left out. The handler treats a request without a `user` attribute as anonymous (403). In the source, the login check would fail on the missing attribute instead.
- `IndexView`, `BeerDetailView`, the serializers and the admin are left out: they only forward to the framework.
- `__str__` of `Brewery`, `Bar` and `UserBeer` is left out. The first two return the stored name. The third joins the user's name, and users are not part of this model.
- The transaction the framework wraps a migration in is left out. A failing migration is a `Failure` that carries no database, because none of its writes are kept.
- The `AlterField` steps of migration 0005 are modelled only through the column bound in `ForwardFitsColumn`. Migration 0004 is left out.
- `user_starred_beer` imports a `StarBeer` model that `models.py` does not define. Its table is a parameter, a set of `(user, beer)` pairs, and `StarRowsOf` links it to the starred relation rows.
- AbvMigration.ForwardFitsColumn: requires old values of at least -999. `forwards_func` checks only the upper bound, so an old value of -1000 or below passes and would not fit the final column. The type of the old column is not part of this model, so this is not claimed as a defect.
- The database's integer widths are not modelled. `number` and `rating` are unbounded naturals, with no small-integer upper limit.
- Decimal rounding modes and contexts are left out. All values involved have one decimal and are exact as `real`s.
- Other schema revisions of the per-user relation (a separate rating table, ratings from 1 to 5) are left out. They are not part of this code.
