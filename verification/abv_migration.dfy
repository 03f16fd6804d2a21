/** Data migration 0005: the `abv` column changes from an integer count of
    tenths of a percent to a one-decimal percentage. The Python `Decimal`
    values involved are exact, so they are modelled as `real`s; the column
    itself stores whole tenths either way. */
module AbvMigration {
  import opened Wrappers
  import opened Numerals
  import opened Models

  /** The percentage a one-decimal column value of `tenths` denotes. */
  function Percent(tenths: int): real
  {
    tenths as real / 10.0
  }

  predicate IsOneDecimal(x: real)
  {
    (x * 10.0).Floor as real == x * 10.0
  }

  /** The one-decimal column value, in tenths, that stores `x`. */
  function ColumnTenths(x: real): (t: int)
    requires IsOneDecimal(x)
    ensures Percent(t) == x
  {
    (x * 10.0).Floor
  }

  /** Python's `int()` on an exact decimal: truncation toward zero. */
  function TruncateToInt(x: real): (n: int)
    ensures x >= 0.0 ==> n as real <= x < n as real + 1.0
    ensures x < 0.0 ==> n as real - 1.0 < x <= n as real
    ensures x.Floor as real == x ==> n as real == x
  {
    if x >= 0.0 then x.Floor
    else
      assert x.Floor as real == x ==> (-x).Floor == -x.Floor;
      -((-x).Floor)
  }

  /** The error `forwards_func` raises for a rescaled value of `tenths`. */
  function ErrorMessage(tenths: int): string
  {
    "ABV " + FormatTenths(tenths) + "% greater than or equal to 100%. Aborting migration"
  }

  /** `old_abv / 10`, stored in the one-decimal column. */
  function Rescale(stored: int): (t: int)
    ensures Percent(t) == stored as real / 10.0
  {
    ColumnTenths(stored as real / 10.0)
  }

  /** `forwards_func` on one non-null value: rescale, refusing 100% or more. */
  function ForwardValue(stored: int): (r: Result<int, string>)
    ensures r.Success? <==> stored < 1000
    ensures r.Success? ==> Percent(r.value) == stored as real / 10.0 && Percent(r.value) < 100.0
    ensures r.Failure? ==> r.error == ErrorMessage(stored)
  {
    var newAbv := stored as real / 10.0;
    if newAbv >= 100.0 then Failure(ErrorMessage(Rescale(stored)))
    else Success(Rescale(stored))
  }

  /** `reverse_func` on one non-null value: `int(value * 10)`, exact on
      one-decimal values and truncating toward zero otherwise. */
  function ReverseValue(x: real): (n: int)
    ensures IsOneDecimal(x) ==> n as real == x * 10.0
    ensures x >= 0.0 ==> n as real <= x * 10.0 < n as real + 1.0
    ensures x < 0.0 ==> n as real - 1.0 < x * 10.0 <= n as real
  {
    TruncateToInt(x * 10.0)
  }

  /** Rescaling then reversing gives back every stored integer. */
  lemma ValueRoundTripForward(stored: int)
    requires stored < 1000
    ensures ReverseValue(Percent(ForwardValue(stored).value)) == stored
  {
  }

  /** Reversing then rescaling gives back every column value below 100%. */
  lemma ValueRoundTripReverse(tenths: int)
    requires tenths < 1000
    ensures ForwardValue(ReverseValue(Percent(tenths))) == Success(tenths)
  {
  }

  lemma ValueExamples()
    ensures ForwardValue(0) == Success(0) && Percent(0) == 0.0
    ensures ForwardValue(1) == Success(1) && Percent(1) == 0.1
    ensures ForwardValue(10) == Success(10) && Percent(10) == 1.0
    ensures ForwardValue(999) == Success(999) && Percent(999) == 99.9
    ensures ReverseValue(0.1) == 1 && ReverseValue(1.1) == 11 && ReverseValue(99.9) == 999
  {
  }

  /** The rescaled value of this beer would be 100% or more: `old / 10 >= 100`
      in whole tenths (`ForwardValue` states the equivalence). */
  predicate TooLarge(beer: Beer)
  {
    beer.abv.Some? && beer.abv.value >= 1000
  }

  function RescaledBeer(beer: Beer): Beer
  {
    match beer.abv
    case None => beer
    case Some(stored) => beer.(abv := Some(Rescale(stored)))
  }

  /** `after` is `before` with its ABV, a count of tenths, read as a
      percentage below 100, and nothing else changed. */
  predicate RescaledFrom(after: Beer, before: Beer)
  {
    && after.(abv := before.abv) == before
    && (after.abv.None? <==> before.abv.None?)
    && (before.abv.Some? ==>
          Percent(after.abv.value) == before.abv.value as real / 10.0 && Percent(after.abv.value) < 100.0)
  }

  lemma RescaledBeerIsRescaled(beer: Beer)
    requires !TooLarge(beer)
    ensures RescaledFrom(RescaledBeer(beer), beer)
  {
  }

  /** The ids a pass visits: increasing, and present in the table read and
      in the table written. */
  predicate PassIds(orig: map<BeerId, Beer>, ids: seq<BeerId>, acc: map<BeerId, Beer>)
  {
    && (forall i, j :: 0 <= i < j < |ids| ==> ids[i] < ids[j])
    && (forall i :: 0 <= i < |ids| ==> ids[i] in orig && ids[i] in acc)
  }

  /** The loop of `forwards_func` over `ids[k..]`: each beer is read as it
      was in `orig` and its rescaled value written into `acc`; the first
      value that would reach 100% raises. */
  function ForwardPass(orig: map<BeerId, Beer>, ids: seq<BeerId>, k: nat, acc: map<BeerId, Beer>)
    : Result<map<BeerId, Beer>, string>
    decreases |ids| - k
  {
    if k >= |ids| then Success(acc)
    else if ids[k] !in orig || orig[ids[k]].abv.None? then
      ForwardPass(orig, ids, k + 1, acc)
    else
      var beer := orig[ids[k]];
      match ForwardValue(beer.abv.value)
      case Failure(message) => Failure(message)
      case Success(_) => ForwardPass(orig, ids, k + 1, acc[ids[k] := RescaledBeer(beer)])
  }

  /** Position of the first too-large beer in `ids[k..]`, or `|ids|` when
      there is none. */
  function FirstTooLarge(orig: map<BeerId, Beer>, ids: seq<BeerId>, k: nat): (i: nat)
    requires k <= |ids|
    ensures k <= i <= |ids|
    ensures forall j :: k <= j < i ==> !(ids[j] in orig && TooLarge(orig[ids[j]]))
    ensures i < |ids| ==> ids[i] in orig && TooLarge(orig[ids[i]])
    decreases |ids| - k
  {
    if k == |ids| || (ids[k] in orig && TooLarge(orig[ids[k]])) then k
    else FirstTooLarge(orig, ids, k + 1)
  }

  /** The pass fails exactly when some visited beer is too large, and then
      with the message of the first such beer. */
  lemma {:induction false} ForwardPassFailure(orig: map<BeerId, Beer>, ids: seq<BeerId>, k: nat, acc: map<BeerId, Beer>)
    requires PassIds(orig, ids, acc) && k <= |ids|
    ensures var r := ForwardPass(orig, ids, k, acc);
      var i := FirstTooLarge(orig, ids, k);
      && (r.Failure? <==> i < |ids|)
      && (r.Failure? ==> r.error == ErrorMessage(orig[ids[i]].abv.value))
    decreases |ids| - k
  {
    if k < |ids| && !TooLarge(orig[ids[k]]) {
      var beer := orig[ids[k]];
      var next := if beer.abv.Some? then acc[ids[k] := RescaledBeer(beer)] else acc;
      ForwardPassFailure(orig, ids, k + 1, next);
      assert ForwardPass(orig, ids, k, acc) == ForwardPass(orig, ids, k + 1, next);
    }
  }

  /** A pass that succeeds rescales every visited beer that has a value and
      leaves the rest of `acc` alone. */
  lemma {:induction false} ForwardPassSuccess(orig: map<BeerId, Beer>, ids: seq<BeerId>, k: nat, acc: map<BeerId, Beer>)
    requires PassIds(orig, ids, acc) && k <= |ids|
    ensures var r := ForwardPass(orig, ids, k, acc);
      && (r.Success? ==> r.value.Keys == acc.Keys)
      && (r.Success? ==> forall id :: id in acc ==>
            r.value[id] == (if id in ids[k..] && orig[id].abv.Some? then RescaledBeer(orig[id]) else acc[id]))
    decreases |ids| - k
  {
    if k < |ids| {
      var beer := orig[ids[k]];
      var next := if beer.abv.Some? && !TooLarge(beer) then acc[ids[k] := RescaledBeer(beer)] else acc;
      ForwardPassSuccess(orig, ids, k + 1, next);
      assert ids[k..] == [ids[k]] + ids[k + 1..];
      if !TooLarge(beer) {
        assert ForwardPass(orig, ids, k, acc) == ForwardPass(orig, ids, k + 1, next);
      }
    }
  }

  /** The beers in the order both passes visit them: all of them, by id. */
  function BeerOrder(db: Db): (ids: seq<BeerId>)
    requires IdsBounded(db)
    ensures PassIds(db.beers, ids, db.beers)
    ensures forall id :: id in db.beers ==> id in ids
  {
    var ids := IdOrder(db.beers.Keys, db.nextBeerId);
    assert forall i :: 0 <= i < |ids| ==> ids[i] in ids;
    ids
  }

  /** `forwards_func` on the whole table. It raises at the first beer whose
      value would reach 100%, and the enclosing transaction then keeps
      none of its writes; otherwise every non-null ABV is rescaled. */
  function Forward(db: Db): (r: Result<Db, string>)
    requires IdsBounded(db)
    ensures r.Failure? <==> exists id :: id in db.beers && TooLarge(db.beers[id])
    ensures r.Failure? ==>
      exists id :: && id in db.beers && TooLarge(db.beers[id])
                   && (forall other :: other in db.beers && TooLarge(db.beers[other]) ==> id <= other)
                   && r.error == ErrorMessage(db.beers[id].abv.value)
    ensures r.Success? ==> r.value == db.(beers := r.value.beers) && r.value.beers.Keys == db.beers.Keys
    ensures r.Success? ==> forall id :: id in db.beers ==> RescaledFrom(r.value.beers[id], db.beers[id])
  {
    var ids := BeerOrder(db);
    ForwardFailureFacts(db, ids);
    match ForwardPass(db.beers, ids, 0, db.beers)
    case Failure(message) =>
      Failure(message)
    case Success(beers) =>
      ForwardSuccessFacts(db, ids, beers);
      Success(db.(beers := beers))
  }

  /** The pass over the whole table fails exactly when some beer is too
      large, with the message of the too-large beer of least id. */
  lemma ForwardFailureFacts(db: Db, ids: seq<BeerId>)
    requires PassIds(db.beers, ids, db.beers)
    requires forall id :: id in db.beers ==> id in ids
    ensures var r := ForwardPass(db.beers, ids, 0, db.beers);
      && (r.Failure? <==> exists id :: id in db.beers && TooLarge(db.beers[id]))
      && (r.Failure? ==>
            exists id :: && id in db.beers && TooLarge(db.beers[id])
                         && (forall other :: other in db.beers && TooLarge(db.beers[other]) ==> id <= other)
                         && r.error == ErrorMessage(db.beers[id].abv.value))
  {
    ForwardPassFailure(db.beers, ids, 0, db.beers);
    var i := FirstTooLarge(db.beers, ids, 0);
    forall other | other in db.beers && TooLarge(db.beers[other])
      ensures i < |ids| && ids[i] <= other
    {
      var m :| 0 <= m < |ids| && ids[m] == other;
      assert i <= m;
      assert i < m ==> ids[i] < ids[m];
    }
    if i < |ids| {
      assert ids[i] in db.beers && TooLarge(db.beers[ids[i]]);
    }
  }

  /** A pass over the whole table that succeeds rescales every beer. */
  lemma ForwardSuccessFacts(db: Db, ids: seq<BeerId>, beers: map<BeerId, Beer>)
    requires PassIds(db.beers, ids, db.beers)
    requires forall id :: id in db.beers ==> id in ids
    requires ForwardPass(db.beers, ids, 0, db.beers) == Success(beers)
    ensures beers.Keys == db.beers.Keys
    ensures forall id :: id in db.beers ==> RescaledFrom(beers[id], db.beers[id])
  {
    ForwardPassFailure(db.beers, ids, 0, db.beers);
    ForwardPassSuccess(db.beers, ids, 0, db.beers);
    assert ids[0..] == ids;
    forall id | id in db.beers
      ensures RescaledFrom(beers[id], db.beers[id])
    {
      var m :| 0 <= m < |ids| && ids[m] == id;
      assert !TooLarge(db.beers[id]);
      RescaledBeerIsRescaled(db.beers[id]);
    }
  }

  /** `forwards_func` as written: one pass over the beers in id order. */
  method ForwardsFunc(db: Db) returns (r: Result<Db, string>)
    requires IdsBounded(db)
    ensures r == Forward(db)
  {
    var ids := BeerOrder(db);
    var beers := db.beers;
    ghost var outcome := ForwardPass(db.beers, ids, 0, db.beers);
    var i := 0;
    while i < |ids|
      invariant 0 <= i <= |ids|
      invariant ForwardPass(db.beers, ids, i, beers) == outcome
    {
      var id := ids[i];
      var beer := db.beers[id];
      if beer.abv.Some? {
        match ForwardValue(beer.abv.value)
        case Failure(message) =>
          return Failure(message);
        case Success(_) =>
          beers := beers[id := RescaledBeer(beer)];
      }
      i := i + 1;
    }
    r := Success(db.(beers := beers));
  }

  function ReversedBeer(beer: Beer): Beer
  {
    match beer.abv
    case None => beer
    case Some(t) => beer.(abv := Some(ReverseValue(Percent(t))))
  }

  /** `after` is `before` with its ABV read as a percentage and multiplied
      by ten, and nothing else changed. */
  predicate ReversedFrom(after: Beer, before: Beer)
  {
    && after.(abv := before.abv) == before
    && (after.abv.None? <==> before.abv.None?)
    && (before.abv.Some? ==> after.abv.value as real == Percent(before.abv.value) * 10.0)
  }

  lemma ReversedBeerIsReversed(beer: Beer)
    ensures ReversedFrom(ReversedBeer(beer), beer)
  {
    if beer.abv.Some? {
      assert IsOneDecimal(Percent(beer.abv.value));
    }
  }

  /** The loop of `reverse_func` over `ids[k..]`: each beer is read as it
      was in `orig` and its value `int(abv * 10)` written into `acc`. */
  function ReversePass(orig: map<BeerId, Beer>, ids: seq<BeerId>, k: nat, acc: map<BeerId, Beer>): map<BeerId, Beer>
    decreases |ids| - k
  {
    if k >= |ids| then acc
    else if ids[k] !in orig || orig[ids[k]].abv.None? then ReversePass(orig, ids, k + 1, acc)
    else ReversePass(orig, ids, k + 1, acc[ids[k] := ReversedBeer(orig[ids[k]])])
  }

  /** The pass reverses every visited beer that has a value and leaves the
      rest of `acc` alone. */
  lemma {:induction false} ReversePassOutcome(orig: map<BeerId, Beer>, ids: seq<BeerId>, k: nat, acc: map<BeerId, Beer>)
    requires PassIds(orig, ids, acc) && k <= |ids|
    ensures ReversePass(orig, ids, k, acc).Keys == acc.Keys
    ensures forall id :: id in acc ==>
      ReversePass(orig, ids, k, acc)[id] == (if id in ids[k..] && orig[id].abv.Some? then ReversedBeer(orig[id]) else acc[id])
    decreases |ids| - k
  {
    if k < |ids| {
      var beer := orig[ids[k]];
      ReversePassOutcome(orig, ids, k + 1, if beer.abv.Some? then acc[ids[k] := ReversedBeer(beer)] else acc);
      assert ids[k..] == [ids[k]] + ids[k + 1..];
    }
  }

  /** `reverse_func` on the whole table: every non-null ABV becomes
      `int(abv * 10)`; nothing else changes. */
  function Reverse(db: Db): (r: Db)
    requires IdsBounded(db)
    ensures r == db.(beers := r.beers) && r.beers.Keys == db.beers.Keys
    ensures forall id :: id in db.beers ==> ReversedFrom(r.beers[id], db.beers[id])
  {
    var ids := BeerOrder(db);
    ReversePassOutcome(db.beers, ids, 0, db.beers);
    var beers := ReversePass(db.beers, ids, 0, db.beers);
    forall id | id in db.beers
      ensures ReversedFrom(beers[id], db.beers[id])
    {
      ReversedBeerIsReversed(db.beers[id]);
    }
    db.(beers := beers)
  }

  /** `reverse_func` as written: one pass over the beers in id order. */
  method ReverseFunc(db: Db) returns (r: Db)
    requires IdsBounded(db)
    ensures r == Reverse(db)
  {
    var ids := BeerOrder(db);
    var beers := db.beers;
    ghost var outcome := ReversePass(db.beers, ids, 0, db.beers);
    var i := 0;
    while i < |ids|
      invariant 0 <= i <= |ids|
      invariant ReversePass(db.beers, ids, i, beers) == outcome
    {
      var id := ids[i];
      var beer := db.beers[id];
      if beer.abv.Some? {
        beers := beers[id := ReversedBeer(beer)];
      }
      i := i + 1;
    }
    r := db.(beers := beers);
  }

  /** In whole tenths the stored numbers do not change: the migration
      changes the unit the column is read in, from an integer count of
      tenths to a percentage with one decimal. */
  lemma RescaleKeepsStoredNumber(stored: int)
    ensures Rescale(stored) == stored
    ensures ReverseValue(Percent(stored)) == stored
  {
  }

  lemma ForwardKeepsStoredNumbers(db: Db)
    requires IdsBounded(db) && Forward(db).Success?
    ensures Forward(db).value == db
  {
    var after := Forward(db).value;
    forall id | id in db.beers
      ensures after.beers[id] == db.beers[id]
    {
      RescaledFromIsSame(after.beers[id], db.beers[id]);
    }
    assert after.beers == db.beers;
  }

  lemma ReverseKeepsStoredNumbers(db: Db)
    requires IdsBounded(db)
    ensures Reverse(db) == db
  {
    var after := Reverse(db);
    forall id | id in db.beers
      ensures after.beers[id] == db.beers[id]
    {
      ReversedFromIsSame(after.beers[id], db.beers[id]);
    }
    assert after.beers == db.beers;
  }

  /** A rescaled beer holds the same whole number of tenths as before. */
  lemma RescaledFromIsSame(after: Beer, before: Beer)
    requires RescaledFrom(after, before)
    ensures after == before
  {
    if before.abv.Some? {
      assert after.abv.value as real == before.abv.value as real;
    }
  }

  /** A reversed beer holds the same whole number of tenths as before. */
  lemma ReversedFromIsSame(after: Beer, before: Beer)
    requires ReversedFrom(after, before)
    ensures after == before
  {
    if before.abv.Some? {
      assert after.abv.value as real == before.abv.value as real;
    }
  }

  /** A migration that succeeds forward is undone exactly by the reverse. */
  lemma ForwardThenReverse(db: Db)
    requires IdsBounded(db) && Forward(db).Success?
    ensures Reverse(Forward(db).value) == db
  {
    ForwardKeepsStoredNumbers(db);
    ReverseKeepsStoredNumbers(db);
  }

  /** Reversing a valid table and migrating it forward again succeeds and
      restores it. */
  lemma ReverseThenForward(db: Db)
    requires Valid(db)
    ensures IdsBounded(Reverse(db))
    ensures Forward(Reverse(db)) == Success(db)
  {
    ReverseKeepsStoredNumbers(db);
    forall id | id in db.beers
      ensures !TooLarge(db.beers[id])
    {
      if db.beers[id].abv.Some? {
        ValidAbvRange(db.beers[id].abv.value);
      }
    }
    ForwardKeepsStoredNumbers(db);
  }

  /** On success, every old value of at least -99.9% lands in range of the
      final `max_digits=3` column. */
  lemma ForwardFitsColumn(db: Db)
    requires IdsBounded(db) && Forward(db).Success?
    requires forall id :: id in db.beers && db.beers[id].abv.Some? ==> db.beers[id].abv.value >= -999
    ensures forall id :: id in Forward(db).value.beers ==> ValidAbv(Forward(db).value.beers[id].abv)
  {
    var after := Forward(db).value;
    forall id | id in after.beers
      ensures ValidAbv(after.beers[id].abv)
    {
      if after.beers[id].abv.Some? {
        ValidAbvRange(after.beers[id].abv.value);
      }
    }
  }

  /** A first beer stored as 1000 stops the migration, with the value
      shown to one decimal. */
  lemma OneHundredPercentRefused(db: Db, id: BeerId)
    requires IdsBounded(db) && id in db.beers && db.beers[id].abv == Some(1000)
    requires forall other :: other in db.beers && other < id ==> !TooLarge(db.beers[other])
    ensures Forward(db) == Failure(ErrorMessage(1000))
    ensures FormatTenths(1000) == "100.0"
  {
    assert TooLarge(db.beers[id]);
    var r := Forward(db);
    var first :| && first in db.beers && TooLarge(db.beers[first])
                 && (forall other :: other in db.beers && TooLarge(db.beers[other]) ==> first <= other)
                 && r.error == ErrorMessage(db.beers[first].abv.value);
    assert first == id;
    FormatOneHundred();
  }

  lemma FormatOneHundred()
    ensures FormatTenths(1000) == "100.0"
  {
    SmallNumerals();
    FormatFromParts(1000, "100", '0', "100.0");
  }
}
