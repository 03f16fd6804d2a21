/** The schema of the festival database: breweries, bars, beers, and the
    per-user `UserBeer` relation rows, with the constraints the schema
    declares gathered into one validity predicate over a database state. */
module Models {
  import opened Wrappers
  import opened Numerals

  type BreweryId = nat
  type BarId = nat
  type BeerId = nat
  type UserId = nat

  /** `max_length` of every `CharField` in the schema. */
  const MaxNameLength := 200
  /** `max_digits` and `decimal_places` of `Beer.abv`. */
  const AbvMaxDigits := 3
  const AbvDecimalPlaces := 1

  datatype Brewery = Brewery(name: string, location: string)

  datatype Bar = Bar(name: string)

  /** A beer; `abv` is held as a whole number of tenths of a percent,
      so 4.5% is `Some(45)`, and `None` is a null column. */
  datatype Beer = Beer(
    bar: BarId,
    brewery: BreweryId,
    name: string,
    number: Option<nat>,
    reserved: bool,
    abv: Option<int>,
    tastingNotes: string,
    notes: string)

  /** A user's relation to one beer. */
  datatype UserBeer = UserBeer(
    user: UserId,
    beer: BeerId,
    starred: bool,
    tried: bool,
    rating: Option<nat>)

  /** The database: each table keyed by its primary key; relation rows keyed
      by their `(user, beer)` pair; `nextBeerId` is the beer table's
      auto-increment counter, above every id handed out so far. */
  datatype Db = Db(
    breweries: map<BreweryId, Brewery>,
    bars: map<BarId, Bar>,
    beers: map<BeerId, Beer>,
    nextBeerId: nat,
    userBeers: map<(UserId, BeerId), UserBeer>)

  /** The digits of an ABV before the decimal point. */
  function WholeDigits(tenths: int): nat
  {
    |NatToString(Abs(tenths) / 10)|
  }

  /** The `DecimalField(max_digits=3, decimal_places=1)` rule: null, or at
      most two digits before the decimal point. */
  predicate ValidAbv(abv: Option<int>)
  {
    abv.Some? ==> WholeDigits(abv.value) <= AbvMaxDigits - AbvDecimalPlaces
  }

  predicate ValidBrewery(b: Brewery)
  {
    |b.name| <= MaxNameLength && |b.location| <= MaxNameLength
  }

  predicate ValidBar(b: Bar)
  {
    |b.name| <= MaxNameLength
  }

  predicate ValidBeer(db: Db, b: Beer)
  {
    && b.bar in db.bars
    && b.brewery in db.breweries
    && |b.name| <= MaxNameLength
    && ValidAbv(b.abv)
  }

  predicate BreweryNamesUnique(breweries: map<BreweryId, Brewery>)
  {
    forall a, b :: a in breweries && b in breweries && a != b ==> breweries[a].name != breweries[b].name
  }

  predicate BarNamesUnique(bars: map<BarId, Bar>)
  {
    forall a, b :: a in bars && b in bars && a != b ==> bars[a].name != bars[b].name
  }

  /** `unique_together = ["brewery", "name"]` on beers. */
  predicate BeerNamesUniquePerBrewery(beers: map<BeerId, Beer>)
  {
    forall a, b :: a in beers && b in beers && a != b ==>
      beers[a].brewery != beers[b].brewery || beers[a].name != beers[b].name
  }

  /** Every relation row sits under its own `(user, beer)` key. */
  predicate RowsKeyedByPair(rows: map<(UserId, BeerId), UserBeer>)
  {
    forall k :: k in rows ==> rows[k].user == k.0 && rows[k].beer == k.1
  }

  /** Every beer id lies below the table's auto-increment counter. */
  predicate IdsBounded(db: Db)
  {
    forall id :: id in db.beers ==> id < db.nextBeerId
  }

  predicate Valid(db: Db)
  {
    && (forall id :: id in db.breweries ==> ValidBrewery(db.breweries[id]))
    && (forall id :: id in db.bars ==> ValidBar(db.bars[id]))
    && IdsBounded(db)
    && (forall id :: id in db.beers ==> ValidBeer(db, db.beers[id]))
    && BreweryNamesUnique(db.breweries)
    && BarNamesUnique(db.bars)
    && BeerNamesUniquePerBrewery(db.beers)
    && RowsKeyedByPair(db.userBeers)
    && (forall k :: k in db.userBeers ==> k.1 in db.beers)
  }

  /** Two digits before the point is the range -99.9 .. 99.9. */
  lemma ValidAbvRange(tenths: int)
    ensures ValidAbv(Some(tenths)) <==> -999 <= tenths <= 999
  {
    NumeralLength(Abs(tenths) / 10, 2);
    assert Pow10(2) == 100;
  }

  lemma AbvExamples()
    ensures ValidAbv(Some(0)) && ValidAbv(Some(1)) && ValidAbv(Some(10)) && ValidAbv(Some(999))
    ensures ValidAbv(None)
    ensures !ValidAbv(Some(1000))
  {
    ValidAbvRange(0);
    ValidAbvRange(1);
    ValidAbvRange(10);
    ValidAbvRange(999);
    ValidAbvRange(1000);
  }

  /** A beer created with only its required fields. */
  function NewBeer(bar: BarId, brewery: BreweryId, name: string): (b: Beer)
    ensures b.number.None? && !b.reserved && b.abv.None?
    ensures b.tastingNotes == "" && b.notes == ""
    ensures b.bar == bar && b.brewery == brewery && b.name == name
  {
    Beer(bar, brewery, name, None, false, None, "", "")
  }

  /** A relation row created with only its keys. */
  function NewUserBeer(user: UserId, beer: BeerId): (r: UserBeer)
    ensures r.user == user && r.beer == beer
    ensures r.starred && !r.tried && r.rating.None?
  {
    UserBeer(user, beer, true, false, None)
  }

  /** `Beer.__str__`, given the beer's brewery. */
  function BeerLabel(beer: Beer, brewery: Brewery): (s: string)
    ensures |s| == |beer.name| + 4 + |brewery.name|
    ensures s[..|beer.name|] == beer.name
    ensures s[|beer.name|..|beer.name| + 4] == " by "
    ensures s[|beer.name| + 4..] == brewery.name
  {
    beer.name + " by " + brewery.name
  }

  lemma BreweryNameIdentifiesBrewery(db: Db, a: BreweryId, b: BreweryId)
    requires Valid(db) && a in db.breweries && b in db.breweries
    requires db.breweries[a].name == db.breweries[b].name
    ensures a == b
  {
  }

  lemma BarNameIdentifiesBar(db: Db, a: BarId, b: BarId)
    requires Valid(db) && a in db.bars && b in db.bars
    requires db.bars[a].name == db.bars[b].name
    ensures a == b
  {
  }

  /** The pair `(brewery, name)` identifies a beer, whatever its bar. */
  lemma BreweryAndNameIdentifyBeer(db: Db, a: BeerId, b: BeerId)
    requires Valid(db) && a in db.beers && b in db.beers
    requires db.beers[a].brewery == db.beers[b].brewery
    requires db.beers[a].name == db.beers[b].name
    ensures a == b
  {
  }

  /** A database with one brewery's beer named twice, at two different
      bars, is not a valid state. */
  lemma SameNameAtAnotherBarIsInvalid(db: Db, a: BeerId, b: BeerId)
    requires a in db.beers && b in db.beers
    requires db.beers[a].brewery == db.beers[b].brewery && db.beers[a].name == db.beers[b].name
    requires db.beers[a].bar != db.beers[b].bar
    ensures !Valid(db)
  {
  }

  /** The database after `Beer.objects.create(bar=…, brewery=…, name=…)`:
      the new beer takes the counter's id, and the counter moves on. */
  function AddBeer(db: Db, bar: BarId, brewery: BreweryId, name: string): Db
  {
    db.(beers := db.beers[db.nextBeerId := NewBeer(bar, brewery, name)], nextBeerId := db.nextBeerId + 1)
  }

  /** Creating a beer with its defaults keeps a valid database valid exactly
      when its bar and brewery exist, its name fits the column, and its
      brewery has no beer of that name yet; the new id was free. */
  lemma NewBeerKeepsValid(db: Db, bar: BarId, brewery: BreweryId, name: string)
    requires Valid(db)
    ensures db.nextBeerId !in db.beers
    ensures Valid(AddBeer(db, bar, brewery, name)) <==>
      && bar in db.bars && brewery in db.breweries && |name| <= MaxNameLength
      && (forall id :: id in db.beers && db.beers[id].brewery == brewery ==> db.beers[id].name != name)
  {
    var after := AddBeer(db, bar, brewery, name);
    var newId := db.nextBeerId;
    assert after.beers[newId] == NewBeer(bar, brewery, name);
    if Valid(after) {
      forall id | id in db.beers && db.beers[id].brewery == brewery
        ensures db.beers[id].name != name
      {
        assert id in after.beers && after.beers[id] == db.beers[id] && id != newId;
      }
    }
    if && bar in db.bars && brewery in db.breweries && |name| <= MaxNameLength
       && (forall id :: id in db.beers && db.beers[id].brewery == brewery ==> db.beers[id].name != name)
    {
      AddBeerValid(db, bar, brewery, name);
    }
  }

  lemma AddBeerValid(db: Db, bar: BarId, brewery: BreweryId, name: string)
    requires Valid(db) && bar in db.bars && brewery in db.breweries && |name| <= MaxNameLength
    requires forall id :: id in db.beers && db.beers[id].brewery == brewery ==> db.beers[id].name != name
    ensures Valid(AddBeer(db, bar, brewery, name))
  {
    var after := AddBeer(db, bar, brewery, name);
    assert ValidAbv(None);
    forall id | id in after.beers
      ensures ValidBeer(after, after.beers[id])
    {
      if id != db.nextBeerId {
        assert ValidBeer(db, db.beers[id]);
      }
    }
    assert BeerNamesUniquePerBrewery(after.beers);
  }

  /** Within one brewery, distinct beers have distinct display labels. */
  lemma LabelsDistinctWithinBrewery(db: Db, a: BeerId, b: BeerId)
    requires Valid(db) && a in db.beers && b in db.beers && a != b
    requires db.beers[a].brewery == db.beers[b].brewery
    ensures BeerLabel(db.beers[a], db.breweries[db.beers[a].brewery])
         != BeerLabel(db.beers[b], db.breweries[db.beers[b].brewery])
  {
    var brewery := db.breweries[db.beers[a].brewery];
    var na := db.beers[a].name;
    var nb := db.beers[b].name;
    assert na != nb;
    var la := BeerLabel(db.beers[a], brewery);
    var lb := BeerLabel(db.beers[b], brewery);
    assert |la| != |lb| || la[..|na|] != lb[..|nb|];
  }

  /** No two rows of a valid relation table share a `(user, beer)` pair. */
  lemma RelationRowsUnique(db: Db, r1: UserBeer, r2: UserBeer)
    requires Valid(db)
    requires r1 in db.userBeers.Values && r2 in db.userBeers.Values
    requires r1.user == r2.user && r1.beer == r2.beer
    ensures r1 == r2
  {
    var k1 :| k1 in db.userBeers && db.userBeers[k1] == r1;
    var k2 :| k2 in db.userBeers && db.userBeers[k2] == r2;
    assert k1 == (r1.user, r1.beer) && k2 == (r2.user, r2.beer);
  }

  /** A fresh row for an existing beer keeps the database valid. */
  lemma NewUserBeerKeepsValid(db: Db, user: UserId, beer: BeerId)
    requires Valid(db) && beer in db.beers
    ensures Valid(db.(userBeers := db.userBeers[(user, beer) := NewUserBeer(user, beer)]))
  {
    RelationRowsKeepValid(db, db.userBeers[(user, beer) := NewUserBeer(user, beer)]);
  }

  /** The relation rows are checked on their own: replacing them by rows
      keyed by their own pair, each naming a known beer, keeps a valid
      database valid. */
  lemma RelationRowsKeepValid(db: Db, rows: map<(UserId, BeerId), UserBeer>)
    requires Valid(db) && RowsKeyedByPair(rows)
    requires forall k :: k in rows ==> k.1 in db.beers
    ensures Valid(db.(userBeers := rows))
  {
    var after := db.(userBeers := rows);
    forall id | id in after.beers
      ensures ValidBeer(after, after.beers[id])
    {
      assert ValidBeer(db, db.beers[id]);
    }
  }

  /** Ids below `bound` that lie in `ids`, in increasing order: the order
      `Meta.ordering = ["id"]` gives every query on these tables. */
  function IdOrder(ids: set<nat>, bound: nat): (r: seq<nat>)
    ensures forall i, j :: 0 <= i < j < |r| ==> r[i] < r[j]
    ensures forall id :: id in r <==> id in ids && id < bound
    decreases bound
  {
    if bound == 0 then []
    else
      var prefix := IdOrder(ids, bound - 1);
      assert forall i :: 0 <= i < |prefix| ==> prefix[i] in prefix;
      prefix + (if bound - 1 in ids then [bound - 1] else [])
  }

  function IdsBelow(ids: set<nat>, bound: nat): set<nat>
  {
    set id | id in ids && id < bound
  }

  /** The ordered ids hold each id of the set below the bound exactly once. */
  lemma {:induction false} IdOrderLength(ids: set<nat>, bound: nat)
    ensures |IdOrder(ids, bound)| == |IdsBelow(ids, bound)|
    decreases bound
  {
    if bound == 0 {
      assert IdsBelow(ids, bound) == {};
    } else {
      IdOrderLength(ids, bound - 1);
      IdsBelowStep(ids, bound);
    }
  }

  lemma IdsBelowStep(ids: set<nat>, bound: nat)
    requires bound > 0
    ensures |IdsBelow(ids, bound)| == |IdsBelow(ids, bound - 1)| + (if bound - 1 in ids then 1 else 0)
  {
    var below := IdsBelow(ids, bound - 1);
    if bound - 1 in ids {
      assert IdsBelow(ids, bound) == below + {bound - 1};
    } else {
      assert IdsBelow(ids, bound) == below;
    }
  }

  /** When every id lies below the bound, the ordering lists all of them. */
  lemma IdOrderCoversAll(ids: set<nat>, bound: nat)
    requires forall id :: id in ids ==> id < bound
    ensures |IdOrder(ids, bound)| == |ids|
  {
    IdOrderLength(ids, bound);
    assert IdsBelow(ids, bound) == ids;
  }
}
