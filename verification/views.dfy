/** The request handlers that read or write per-user relation rows: the
    annotated beer listing, the star/unstar handler, and the profile list. */
module Views {
  import opened Wrappers
  import opened Models

  /** Who sends a request: `NoUser` is a request with no `user` attribute. */
  datatype Caller = NoUser | Anonymous | Authenticated(id: UserId)

  /** One row of a beer query; `starred` is `None` when the query carries
      no `starred` annotation. */
  datatype ListedBeer = ListedBeer(id: BeerId, beer: Beer, starred: Option<bool>)

  function Ids(rows: seq<ListedBeer>): (ids: seq<BeerId>)
    ensures |ids| == |rows|
    ensures forall i :: 0 <= i < |rows| ==> ids[i] == rows[i].id
  {
    seq(|rows|, i requires 0 <= i < |rows| => rows[i].id)
  }

  /** Two relation tables that hold the same rows for `user`. */
  predicate SameRowsFor(a: map<(UserId, BeerId), UserBeer>, b: map<(UserId, BeerId), UserBeer>, user: UserId)
  {
    && (forall k :: k in a && k.0 == user ==> k in b && a[k] == b[k])
    && (forall k :: k in b && k.0 == user ==> k in a)
  }

  /** The caller's `starred` annotation for one beer: the flag of the
      caller's row for it, or false when there is no such row. */
  function StarredFlag(rows: map<(UserId, BeerId), UserBeer>, user: UserId, beer: BeerId): bool
  {
    if (user, beer) in rows then rows[(user, beer)].starred else false
  }

  function Annotation(db: Db, caller: Caller, beer: BeerId): Option<bool>
  {
    if caller.Authenticated? then Some(StarredFlag(db.userBeers, caller.id, beer)) else None
  }

  /** The `ListedBeer` rows of the given ids, annotated by `caller`. */
  function Rows(db: Db, ids: seq<BeerId>, caller: Caller): (r: seq<ListedBeer>)
    requires forall i :: 0 <= i < |ids| ==> ids[i] in db.beers
    ensures Ids(r) == ids
  {
    seq(|ids|, i requires 0 <= i < |ids| => ListedBeer(ids[i], db.beers[ids[i]], Annotation(db, caller, ids[i])))
  }

  /** `BeerListView.get_queryset`: every beer once, in id order; for an
      authenticated caller each carries the caller's `starred` flag. */
  function BeerList(db: Db, caller: Caller): (r: seq<ListedBeer>)
    requires IdsBounded(db)
    ensures |r| == |db.beers|
    ensures forall i, j :: 0 <= i < j < |r| ==> r[i].id < r[j].id
    ensures forall id :: id in db.beers <==> id in Ids(r)
    ensures forall i :: 0 <= i < |r| ==> r[i].id in db.beers && r[i].beer == db.beers[r[i].id]
    ensures !caller.Authenticated? ==> forall i :: 0 <= i < |r| ==> r[i].starred.None?
    ensures caller.Authenticated? ==> forall i :: 0 <= i < |r| ==>
      r[i].starred == Some((caller.id, r[i].id) in db.userBeers && db.userBeers[(caller.id, r[i].id)].starred)
  {
    var ids := IdOrder(db.beers.Keys, db.nextBeerId);
    IdOrderCoversAll(db.beers.Keys, db.nextBeerId);
    Rows(db, ids, caller)
  }

  /** Relation rows, however many, never duplicate or drop listed beers:
      the listed ids depend on the beer table alone. */
  lemma ListingIdsIgnoreRelationRows(db1: Db, c1: Caller, db2: Db, c2: Caller)
    requires IdsBounded(db1)
    requires db2.beers == db1.beers && db2.nextBeerId == db1.nextBeerId
    ensures Ids(BeerList(db1, c1)) == Ids(BeerList(db2, c2))
  {
  }

  /** Other users' rows never change the caller's listing. */
  lemma OtherUsersRowsIrrelevant(db1: Db, db2: Db, user: UserId)
    requires IdsBounded(db1)
    requires db2.beers == db1.beers && db2.nextBeerId == db1.nextBeerId
    requires SameRowsFor(db1.userBeers, db2.userBeers, user)
    ensures BeerList(db1, Authenticated(user)) == BeerList(db2, Authenticated(user))
  {
    var l1 := BeerList(db1, Authenticated(user));
    var l2 := BeerList(db2, Authenticated(user));
    forall i | 0 <= i < |l1|
      ensures l1[i] == l2[i]
    {
      var k := (user, l1[i].id);
      assert k.0 == user;
    }
  }

  /** Result of a star or unstar request, with the database after it. */
  datatype Reply = NoContent | Forbidden | NotFound | ImproperlyConfigured

  datatype Response = Response(reply: Reply, db: Db)

  /** `StarBeerBaseView.get_object`: the beer with primary key `pk`. */
  function GetObject(db: Db, pk: BeerId): (r: Option<Beer>)
    ensures r.Some? <==> pk in db.beers
    ensures r.Some? ==> r.value == db.beers[pk]
  {
    if pk in db.beers then Some(db.beers[pk]) else None
  }

  /** `update_or_create(user, beer, defaults={"starred": starred})`. */
  function UpdateOrCreate(rows: map<(UserId, BeerId), UserBeer>, user: UserId, beer: BeerId, starred: bool)
    : map<(UserId, BeerId), UserBeer>
  {
    var key := (user, beer);
    if key in rows then rows[key := rows[key].(starred := starred)]
    else rows[key := NewUserBeer(user, beer).(starred := starred)]
  }

  /** `StarBeerBaseView.post` behind the login check of its `dispatch`;
      `starBeer` is the view's `star_beer` attribute (`None` when unset). */
  function StarPost(db: Db, caller: Caller, starBeer: Option<bool>, pk: BeerId): (r: Response)
    ensures r.reply == NoContent <==> caller.Authenticated? && starBeer.Some? && pk in db.beers
    ensures !caller.Authenticated? ==> r.reply == Forbidden
    ensures caller.Authenticated? && starBeer.None? ==> r.reply == ImproperlyConfigured
    ensures caller.Authenticated? && starBeer.Some? && pk !in db.beers ==> r.reply == NotFound
    ensures r.reply != NoContent ==> r.db == db
    ensures r.reply == NoContent ==>
      var key := (caller.id, pk);
      var rows := r.db.userBeers;
      && r.db == db.(userBeers := rows)
      && key in rows
      && rows[key].starred == starBeer.value
      && (key in db.userBeers ==> rows[key].tried == db.userBeers[key].tried && rows[key].rating == db.userBeers[key].rating)
      && (key !in db.userBeers ==> rows[key] == UserBeer(caller.id, pk, starBeer.value, false, None))
      && (forall k :: k != key ==> (k in rows <==> k in db.userBeers))
      && (forall k :: k != key && k in rows ==> rows[k] == db.userBeers[k])
  {
    if !caller.Authenticated? then Response(Forbidden, db)
    else if starBeer.None? then Response(ImproperlyConfigured, db)
    else match GetObject(db, pk)
      case None => Response(NotFound, db)
      case Some(_) =>
        Response(NoContent, db.(userBeers := UpdateOrCreate(db.userBeers, caller.id, pk, starBeer.value)))
  }

  /** `StarBeerView`: its `star_beer` is set, so it is never misconfigured;
      a signed-in post on an existing beer leaves the caller's row starred. */
  function StarBeer(db: Db, caller: Caller, pk: BeerId): (r: Response)
    ensures r.reply != ImproperlyConfigured
    ensures r.reply == NoContent <==> caller.Authenticated? && pk in db.beers
    ensures r.reply == NoContent ==> (caller.id, pk) in r.db.userBeers && r.db.userBeers[(caller.id, pk)].starred
  {
    StarPost(db, caller, Some(true), pk)
  }

  /** `UnstarBeerView`: as `StarBeerView`, leaving the row unstarred; the
      row itself stays. */
  function UnstarBeer(db: Db, caller: Caller, pk: BeerId): (r: Response)
    ensures r.reply != ImproperlyConfigured
    ensures r.reply == NoContent <==> caller.Authenticated? && pk in db.beers
    ensures r.reply == NoContent ==> (caller.id, pk) in r.db.userBeers && !r.db.userBeers[(caller.id, pk)].starred
  {
    StarPost(db, caller, Some(false), pk)
  }

  /** A user's first star on a beer creates exactly the row the schema's
      defaults describe; a first unstar creates it unstarred. */
  lemma StarCreatesFreshRow(db: Db, user: UserId, pk: BeerId)
    requires pk in db.beers && (user, pk) !in db.userBeers
    ensures StarBeer(db, Authenticated(user), pk).db.userBeers[(user, pk)] == NewUserBeer(user, pk)
    ensures UnstarBeer(db, Authenticated(user), pk).db.userBeers[(user, pk)] == NewUserBeer(user, pk).(starred := false)
  {
  }

  /** Posting the same request twice leaves the same state as posting it once. */
  lemma StarPostIdempotent(db: Db, caller: Caller, starBeer: Option<bool>, pk: BeerId)
    ensures StarPost(StarPost(db, caller, starBeer, pk).db, caller, starBeer, pk) == StarPost(db, caller, starBeer, pk)
  {
    var once := StarPost(db, caller, starBeer, pk);
    if once.reply == NoContent {
      var key := (caller.id, pk);
      var rows := once.db.userBeers;
      assert rows[key].(starred := starBeer.value) == rows[key];
      assert rows[key := rows[key]] == rows;
    }
  }

  /** The handler keeps a valid database valid. */
  lemma StarPostKeepsValid(db: Db, caller: Caller, starBeer: Option<bool>, pk: BeerId)
    requires Valid(db)
    ensures Valid(StarPost(db, caller, starBeer, pk).db)
  {
    var r := StarPost(db, caller, starBeer, pk);
    if r.reply == NoContent {
      var key := (caller.id, pk);
      var rows := r.db.userBeers;
      assert rows[key].user == caller.id && rows[key].beer == pk by {
        assert rows == UpdateOrCreate(db.userBeers, caller.id, pk, starBeer.value);
      }
      RelationRowsKeepValid(db, rows);
    }
  }

  /** After a successful post, the caller's listing shows the posted flag
      on that beer. */
  lemma ListingShowsPostedFlag(db: Db, user: UserId, flag: bool, pk: BeerId, i: nat)
    requires IdsBounded(db) && pk in db.beers
    requires i < |BeerList(db, Authenticated(user))| && BeerList(db, Authenticated(user))[i].id == pk
    ensures BeerList(StarPost(db, Authenticated(user), Some(flag), pk).db, Authenticated(user))[i].starred == Some(flag)
  {
    var after := StarPost(db, Authenticated(user), Some(flag), pk).db;
    assert Ids(BeerList(after, Authenticated(user)))[i] == Ids(BeerList(db, Authenticated(user)))[i];
  }

  /** A user's row shows interest in its beer when starred, tried or rated. */
  predicate Interested(row: UserBeer)
  {
    row.starred || row.tried || row.rating.Some?
  }

  function InterestingIds(db: Db, user: UserId): set<BeerId>
  {
    set id | id in db.beers && (user, id) in db.userBeers && Interested(db.userBeers[(user, id)])
  }

  /** `UserProfileView.get_context_data`'s `beer_list`: each beer once, in
      id order, whose row for `user` is starred, tried or rated. */
  function ProfileBeers(db: Db, user: UserId): (r: seq<ListedBeer>)
    requires IdsBounded(db)
    ensures forall i, j :: 0 <= i < j < |r| ==> r[i].id < r[j].id
    ensures forall i :: 0 <= i < |r| ==> r[i].id in db.beers && r[i].beer == db.beers[r[i].id] && r[i].starred.None?
    ensures forall id :: id in Ids(r) <==>
      && id in db.beers
      && (user, id) in db.userBeers
      && (db.userBeers[(user, id)].starred || db.userBeers[(user, id)].tried || db.userBeers[(user, id)].rating.Some?)
  {
    var ids := IdOrder(InterestingIds(db, user), db.nextBeerId);
    assert forall i :: 0 <= i < |ids| ==> ids[i] in ids;
    Rows(db, ids, NoUser)
  }

  /** Every beer on the profile also appears in the listing. */
  lemma ProfileWithinListing(db: Db, user: UserId, caller: Caller)
    requires IdsBounded(db)
    ensures forall id :: id in Ids(ProfileBeers(db, user)) ==> id in Ids(BeerList(db, caller))
  {
  }

  /** Starring a beer puts it on the starrer's profile. */
  lemma StarAddsToProfile(db: Db, user: UserId, pk: BeerId)
    requires IdsBounded(db) && pk in db.beers
    ensures pk in Ids(ProfileBeers(StarBeer(db, Authenticated(user), pk).db, user))
  {
  }

  /** Unstarring a beer the user never tried or rated takes it off their profile. */
  lemma UnstarRemovesFromProfile(db: Db, user: UserId, pk: BeerId)
    requires IdsBounded(db) && pk in db.beers
    requires (user, pk) in db.userBeers ==> !db.userBeers[(user, pk)].tried && db.userBeers[(user, pk)].rating.None?
    ensures pk !in Ids(ProfileBeers(UnstarBeer(db, Authenticated(user), pk).db, user))
  {
  }

  /** Another user's request never changes `user`'s profile. */
  lemma OtherUsersPostLeavesProfile(db: Db, user: UserId, other: UserId, flag: bool, pk: BeerId)
    requires IdsBounded(db) && other != user
    ensures ProfileBeers(StarPost(db, Authenticated(other), Some(flag), pk).db, user) == ProfileBeers(db, user)
  {
    var after := StarPost(db, Authenticated(other), Some(flag), pk).db;
    assert InterestingIds(after, user) == InterestingIds(db, user);
  }
}
