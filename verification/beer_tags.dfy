/** The template filters and tags of the `beer_tags` library. */
module BeerTags {
  import opened Wrappers
  import opened Numerals
  import opened Models
  import Views

  /** What `nullable_number` hands to the template: text, or the number as it was. */
  datatype Filtered = Text(text: string) | Number(value: int)

  /** `nullable_number`: null becomes the empty string, any number passes unchanged. */
  function NullableNumber(value: Option<int>): (r: Filtered)
    ensures value.None? ==> r == Text("")
    ensures value.Some? ==> r == Number(value.value)
  {
    match value
    case None => Text("")
    case Some(n) => Number(n)
  }

  /** No two inputs of `nullable_number` render alike. */
  lemma NullableNumberLossless(a: Option<int>, b: Option<int>)
    requires NullableNumber(a) == NullableNumber(b)
    ensures a == b
  {
  }

  /** A cell is text, and then empty, exactly for a null value; otherwise it
      carries that value. */
  lemma NullableNumberTextExactlyForNull(value: Option<int>)
    ensures NullableNumber(value).Text? <==> value.None?
    ensures NullableNumber(value).Text? ==> NullableNumber(value).text == ""
    ensures forall n :: NullableNumber(value) == Number(n) <==> value == Some(n)
  {
  }

  /** `abv`: a null ABV is "TBC"; otherwise the value with one fractional
      digit and a percent sign. */
  function Abv(value: Option<int>): (s: string)
    ensures value.None? <==> s == "TBC"
    ensures value.Some? ==> |s| >= 4 && s[|s| - 1] == '%' && s[|s| - 3] == '.' && IsDigit(s[|s| - 2])
    ensures ParseAbv(s) == Some(value)
  {
    match value
    case None => "TBC"
    case Some(tenths) =>
      var s := FormatTenths(tenths) + "%";
      assert s[..|s| - 1] == FormatTenths(tenths);
      s
  }

  /** Reads an `abv` rendering back: `Some(None)` for "TBC", `Some(Some(t))`
      for a formatted value of `t` tenths, `None` for anything else. */
  function ParseAbv(s: string): Option<Option<int>>
  {
    if s == "TBC" then Some(None)
    else if |s| >= 1 && s[|s| - 1] == '%' then
      match ParseTenths(s[..|s| - 1])
      case Some(t) => Some(Some(t))
      case None => None
    else None
  }

  /** Distinct ABVs never render alike. */
  lemma AbvInjective(a: Option<int>, b: Option<int>)
    requires Abv(a) == Abv(b)
    ensures a == b
  {
    assert ParseAbv(Abv(a)) == Some(a);
  }

  lemma AbvExamples()
    ensures Abv(None) == "TBC"
    ensures Abv(Some(0)) == "0.0%"
    ensures Abv(Some(1)) == "0.1%"
    ensures Abv(Some(10)) == "1.0%"
  {
    SmallNumerals();
    AbvOf(0, "0", '0');
    AbvOf(1, "0", '1');
    AbvOf(10, "1", '0');
  }

  lemma AbvTwoDigitExamples()
    ensures Abv(Some(100)) == "10.0%"
    ensures Abv(Some(999)) == "99.9%"
  {
    SmallNumerals();
    AbvOf(100, "10", '0');
    AbvOf(999, "99", '9');
  }

  lemma AbvOf(tenths: nat, whole: string, tenth: char)
    requires NatToString(tenths / 10) == whole
    requires DigitChar(tenths % 10) == tenth
    ensures Abv(Some(tenths)) == whole + "." + [tenth] + "%"
  {
    FormatFromParts(tenths, whole, tenth, whole + "." + [tenth]);
  }

  /** The `StarBeer` table the `user_starred_beer` tag queries: one
      `(user, beer)` pair per star. */
  type StarRows = set<(UserId, BeerId)>

  /** `user_starred_beer(user_id, beer_id)`. */
  function UserStarredBeer(stars: StarRows, userId: UserId, beerId: BeerId): bool
  {
    (userId, beerId) in stars
  }

  /** Star rows as the starred relation rows of a `UserBeer` table. */
  function StarRowsOf(rows: map<(UserId, BeerId), UserBeer>): (stars: StarRows)
    ensures forall k :: k in stars <==> k in rows && rows[k].starred
  {
    set k | k in rows && rows[k].starred
  }

  /** Read over the starred rows, the tag agrees with the listing's
      `starred` annotation for the same user and beer. */
  lemma UserStarredBeerAgreesWithListing(db: Db, user: UserId, i: nat)
    requires IdsBounded(db)
    requires i < |Views.BeerList(db, Views.Authenticated(user))|
    ensures var row := Views.BeerList(db, Views.Authenticated(user))[i];
      row.starred == Some(UserStarredBeer(StarRowsOf(db.userBeers), user, row.id))
  {
  }

  /** The tag's arguments are ordered: on a table holding the one star of
      `user` on `beer`, with distinct ids, swapping the ids asks about a
      pair nobody starred. */
  lemma UserStarredBeerArgumentOrder(user: UserId, beer: BeerId)
    requires user != beer
    ensures UserStarredBeer({(user, beer)}, user, beer)
    ensures !UserStarredBeer({(user, beer)}, beer, user)
  {
  }

  /** The context an inclusion tag hands to `beer_list_table.html`. */
  datatype TableContext<L, U> = TableContext(beerList: L, user: U, showStars: bool)

  /** `display_beer_table`: the list and user unchanged, stars hidden. */
  function DisplayBeerTable<L, U>(beerList: L, user: U): (c: TableContext<L, U>)
    ensures c.beerList == beerList && c.user == user && !c.showStars
  {
    TableContext(beerList, user, false)
  }

  /** `display_beer_table_with_stars`: the list and user unchanged, stars shown. */
  function DisplayBeerTableWithStars<L, U>(beerList: L, user: U): (c: TableContext<L, U>)
    ensures c.beerList == beerList && c.user == user && c.showStars
  {
    TableContext(beerList, user, true)
  }

  /** Both table tags hand the template the list and user they were given;
      they differ in the `show_stars` flag alone, set only by the second. */
  lemma TableTagsDifferOnlyInStars<L, U>(beerList: L, user: U)
    ensures DisplayBeerTable(beerList, user).beerList == beerList && DisplayBeerTable(beerList, user).user == user
    ensures !DisplayBeerTable(beerList, user).showStars && DisplayBeerTableWithStars(beerList, user).showStars
    ensures DisplayBeerTableWithStars(beerList, user) == DisplayBeerTable(beerList, user).(showStars := true)
    ensures DisplayBeerTableWithStars(beerList, user) != DisplayBeerTable(beerList, user)
  {
  }
}
