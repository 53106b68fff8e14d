/*******************************************************************************
 *  Allocation: the SupplyAllocation relation as a list of rows, the checks
 *  that guard inserting into it, the co-residency join, the supply editor,
 *  and Water's allocation and expiry sweep. Time is `now`, in seconds.
 *******************************************************************************/

module Allocation {
  import opened Wrappers
  import opened JavaText
  import opened Supplies
  import opened Persons
  import opened Locations
  import opened Tables
  import opened Registry

  /* ---------------------------------------------------------------------------
   *  Inserting allocation rows
   * ------------------------------------------------------------------------- */

  /** `allocateSupplyToPerson`: the person id is checked first, then the supply id;
      nothing checks for an earlier allocation, so each call adds one more row. */
  function AllocateSupplyToPerson(db: Registry, rows: seq<AllocationRow>, supplyId: int, personId: int)
    : (r: Result<seq<AllocationRow>, Fault>)
    ensures personId !in db.persons ==> r == Failure(InvalidPersonId(personId))
    ensures personId in db.persons && supplyId !in db.supplies ==> r == Failure(InvalidSupplyId(supplyId))
    ensures r.Success? <==> personId in db.persons && supplyId in db.supplies
    ensures r.Success? ==> r.value == rows + [AllocationRow(supplyId, Some(personId), None, None)]
  {
    if personId !in db.persons then Failure(InvalidPersonId(personId))
    else if supplyId !in db.supplies then Failure(InvalidSupplyId(supplyId))
    else Success(rows + [AllocationRow(supplyId, Some(personId), None, None)])
  }

  /** `allocateSupplyToLocation`: the location id is checked first, then the supply id. */
  function AllocateSupplyToLocation(db: Registry, rows: seq<AllocationRow>, supplyId: int, locationId: int)
    : (r: Result<seq<AllocationRow>, Fault>)
    ensures locationId !in db.locations ==> r == Failure(InvalidLocationId(locationId))
    ensures locationId in db.locations && supplyId !in db.supplies ==> r == Failure(InvalidSupplyId(supplyId))
    ensures r.Success? <==> locationId in db.locations && supplyId in db.supplies
    ensures r.Success? ==> r.value == rows + [AllocationRow(supplyId, None, Some(locationId), None)]
  {
    if locationId !in db.locations then Failure(InvalidLocationId(locationId))
    else if supplyId !in db.supplies then Failure(InvalidSupplyId(supplyId))
    else Success(rows + [AllocationRow(supplyId, None, Some(locationId), None)])
  }

  /** How many rows of `rows` are allocations of `supplyId`. */
  function RowsFor(rows: seq<AllocationRow>, supplyId: int): nat {
    if |rows| == 0 then 0 else RowsFor(rows[..|rows| - 1], supplyId) + (if rows[|rows| - 1].supplyId == supplyId then 1 else 0)
  }

  /** Allocating the same supply twice leaves two rows for it. */
  lemma RepeatedAllocationAddsRows(db: Registry, rows: seq<AllocationRow>, supplyId: int, personId: int)
    requires personId in db.persons && supplyId in db.supplies
    ensures var once := AllocateSupplyToPerson(db, rows, supplyId, personId).value;
      RowsFor(AllocateSupplyToPerson(db, once, supplyId, personId).value, supplyId) == RowsFor(rows, supplyId) + 2
  {
    var once := AllocateSupplyToPerson(db, rows, supplyId, personId).value;
    var twice := AllocateSupplyToPerson(db, once, supplyId, personId).value;
    assert twice[..|twice| - 1] == once;
    assert once[..|once| - 1] == rows;
  }

  /* ---------------------------------------------------------------------------
   *  The co-residency join
   * ------------------------------------------------------------------------- */

  /** One pair of the join `PersonLocation pl JOIN SupplyAllocation sa ON
      pl.location_id = sa.location_id` that the filter keeps. A null location joins
      nothing. */
  predicate Joins(pl: PersonLocationRow, a: AllocationRow, supplyId: int, personId: int) {
    pl.personId == Some(personId) && a.supplyId == supplyId && pl.locationId.Some? && a.locationId == pl.locationId
  }

  function PairsWith(pl: PersonLocationRow, allocs: seq<AllocationRow>, supplyId: int, personId: int): nat {
    if |allocs| == 0 then 0
    else PairsWith(pl, allocs[1..], supplyId, personId) + (if Joins(pl, allocs[0], supplyId, personId) then 1 else 0)
  }

  /** `SELECT COUNT(*)` of the join. */
  function JoinCount(pls: seq<PersonLocationRow>, allocs: seq<AllocationRow>, supplyId: int, personId: int): nat {
    if |pls| == 0 then 0
    else JoinCount(pls[1..], allocs, supplyId, personId) + PairsWith(pls[0], allocs, supplyId, personId)
  }

  lemma {:induction false} PairsWithPositive(pl: PersonLocationRow, allocs: seq<AllocationRow>, supplyId: int, personId: int)
    ensures PairsWith(pl, allocs, supplyId, personId) > 0 <==> exists j | 0 <= j < |allocs| :: Joins(pl, allocs[j], supplyId, personId)
    decreases |allocs|
  {
    if 0 < |allocs| {
      PairsWithPositive(pl, allocs[1..], supplyId, personId);
      if exists j | 0 <= j < |allocs| :: Joins(pl, allocs[j], supplyId, personId) {
        var j :| 0 <= j < |allocs| && Joins(pl, allocs[j], supplyId, personId);
        if 0 < j {
          assert allocs[1..][j - 1] == allocs[j];
        }
      }
      if exists j | 0 <= j < |allocs| - 1 :: Joins(pl, allocs[1..][j], supplyId, personId) {
        var j :| 0 <= j < |allocs| - 1 && Joins(pl, allocs[1..][j], supplyId, personId);
        assert allocs[1..][j] == allocs[j + 1];
      }
    }
  }

  lemma {:induction false} JoinCountPositive(pls: seq<PersonLocationRow>, allocs: seq<AllocationRow>, supplyId: int, personId: int)
    ensures JoinCount(pls, allocs, supplyId, personId) > 0
        <==> exists i, j | 0 <= i < |pls| && 0 <= j < |allocs| :: Joins(pls[i], allocs[j], supplyId, personId)
    decreases |pls|
  {
    if 0 < |pls| {
      JoinCountPositive(pls[1..], allocs, supplyId, personId);
      PairsWithPositive(pls[0], allocs, supplyId, personId);
      if exists i, j | 0 <= i < |pls| && 0 <= j < |allocs| :: Joins(pls[i], allocs[j], supplyId, personId) {
        var i, j :| 0 <= i < |pls| && 0 <= j < |allocs| && Joins(pls[i], allocs[j], supplyId, personId);
        if 0 < i {
          assert pls[1..][i - 1] == pls[i];
        }
      }
      if exists i, j | 0 <= i < |pls| - 1 && 0 <= j < |allocs| :: Joins(pls[1..][i], allocs[j], supplyId, personId) {
        var i, j :| 0 <= i < |pls| - 1 && 0 <= j < |allocs| && Joins(pls[1..][i], allocs[j], supplyId, personId);
        assert pls[1..][i] == pls[i + 1];
      }
    }
  }

  /** `checkLocationMatch(supplyId, personId)`: the person is recorded at some location
      to which the supply is allocated. */
  function CheckLocationMatch(pls: seq<PersonLocationRow>, allocs: seq<AllocationRow>, supplyId: int, personId: int): (r: bool)
    ensures r <==> exists i, j | 0 <= i < |pls| && 0 <= j < |allocs| :: Joins(pls[i], allocs[j], supplyId, personId)
  {
    JoinCountPositive(pls, allocs, supplyId, personId);
    JoinCount(pls, allocs, supplyId, personId) > 0
  }

  /* ---------------------------------------------------------------------------
   *  The allocation dialogue
   * ------------------------------------------------------------------------- */

  const InvalidInput := "invalid_input"
  const InvalidSupply := "invalid_supply"
  const SupplyAllocated := "supply_allocated"
  const LocationMismatch := "location_mismatch"
  const InvalidChoice := "invalid_choice"
  const ErrorAllocating := "error_allocating_supply"
  const InvalidSupplyIdMessage := "invalid_supply_id"
  const UpdateSuccessful := "update_successful"
  const UpdateFailed := "update_failed"

  /** The message key shown, the in-memory registry, and the allocation table. */
  datatype Outcome = Outcome(message: string, reg: Registry, allocations: seq<AllocationRow>)

  /** `selectPerson`: the typed id when it names a person, else -1. `None` is input
      that is not a number. */
  function SelectPerson(persons: map<int, Person>, input: Option<int>): (id: int)
    ensures id != -1 ==> id in persons
    ensures input.Some? && input.value in persons ==> id == input.value
  {
    if input.Some? && input.value in persons then input.value else -1
  }

  /** `selectLocation`: the typed id when it names a location, else 0. */
  function SelectLocation(locations: map<int, Location>, input: Option<int>): (id: int)
    ensures id != 0 ==> id in locations
    ensures input.Some? && input.value in locations ==> id == input.value
  {
    if input.Some? && input.value in locations then input.value else 0
  }

  /** `allocateSupplies` with the user's answers as parameters: the supply number, the
      "p"/"l" choice (compared after lower-casing), and the person or location number.
      A person allocation needs a known person who shares a location with the supply;
      a location allocation adds a row and appends the supply to the location. */
  function AllocateSupplies(db: Registry, pls: seq<PersonLocationRow>, allocs: seq<AllocationRow>,
                            supplyInput: Option<int>, choice: string,
                            personInput: Option<int>, locationInput: Option<int>): (r: Outcome)
    ensures r.message == SupplyAllocated <==>
      supplyInput.Some? && supplyInput.value in db.supplies
      && ((ToLowerAscii(choice) == "p" && SelectPerson(db.persons, personInput) != -1
           && CheckLocationMatch(pls, allocs, supplyInput.value, SelectPerson(db.persons, personInput)))
          || (ToLowerAscii(choice) == "l" && SelectLocation(db.locations, locationInput) in db.locations))
    ensures r.message == SupplyAllocated && ToLowerAscii(choice) == "p" ==>
      r.reg == db && r.allocations == allocs + [AllocationRow(supplyInput.value, Some(personInput.value), None, None)]
    ensures r.message == SupplyAllocated && ToLowerAscii(choice) == "l" ==>
      var l := SelectLocation(db.locations, locationInput);
      && r.allocations == allocs + [AllocationRow(supplyInput.value, None, Some(l), None)]
      && r.reg == db.(locations := db.locations[l := AddSupply(db.locations[l], Some(db.supplies[supplyInput.value]))])
    ensures r.message != SupplyAllocated ==> r.reg == db && r.allocations == allocs
  {
    if supplyInput.None? then Outcome(InvalidInput, db, allocs)
    else if supplyInput.value !in db.supplies then Outcome(InvalidSupply, db, allocs)
    else
      var supplyId := supplyInput.value;
      var lowered := ToLowerAscii(choice);
      if lowered == "p" then
        var personId := SelectPerson(db.persons, personInput);
        if personId != -1 && CheckLocationMatch(pls, allocs, supplyId, personId) then
          match AllocateSupplyToPerson(db, allocs, supplyId, personId)
          case Success(rows) => Outcome(SupplyAllocated, db, rows)
          case Failure(_) => Outcome(ErrorAllocating, db, allocs)
        else Outcome(LocationMismatch, db, allocs)
      else if lowered == "l" then
        var locationId := SelectLocation(db.locations, locationInput);
        match AllocateSupplyToLocation(db, allocs, supplyId, locationId)
        case Success(rows) =>
          var reg := db.(locations := db.locations[locationId := AddSupply(db.locations[locationId], Some(db.supplies[supplyId]))]);
          Outcome(SupplyAllocated, reg, rows)
        case Failure(_) => Outcome(ErrorAllocating, db, allocs)
      else Outcome(InvalidChoice, db, allocs)
  }

  /** A location allocation reaches everyone recorded at that location: the join
      then matches each of them, so a person allocation of the same supply to one of
      them goes through (unless the id is -1, which `selectPerson` reserves for "none"). */
  lemma LocationAllocationReachesOccupants(db: Registry, pls: seq<PersonLocationRow>, allocs: seq<AllocationRow>,
                                           supplyInput: Option<int>, choice: string,
                                           personInput: Option<int>, locationInput: Option<int>, p: int)
    requires AllocateSupplies(db, pls, allocs, supplyInput, choice, personInput, locationInput).message == SupplyAllocated
    requires ToLowerAscii(choice) == "l"
    requires exists i | 0 <= i < |pls| :: pls[i].personId == Some(p) && pls[i].locationId == Some(SelectLocation(db.locations, locationInput))
    ensures var r := AllocateSupplies(db, pls, allocs, supplyInput, choice, personInput, locationInput);
      CheckLocationMatch(pls, r.allocations, supplyInput.value, p)
    ensures var r := AllocateSupplies(db, pls, allocs, supplyInput, choice, personInput, locationInput);
      p in db.persons && p != -1 ==> AllocateSupplies(r.reg, pls, r.allocations, supplyInput, "p", Some(p), None).message == SupplyAllocated
  {
    var r := AllocateSupplies(db, pls, allocs, supplyInput, choice, personInput, locationInput);
    var i :| 0 <= i < |pls| && pls[i].personId == Some(p) && pls[i].locationId == Some(SelectLocation(db.locations, locationInput));
    assert Joins(pls[i], r.allocations[|allocs|], supplyInput.value, p);
    assert ToLowerAscii("p") == "p";
  }

  /* ---------------------------------------------------------------------------
   *  Editing a supply
   * ------------------------------------------------------------------------- */

  /** `updateDatabase`: a non-positive id is refused before any write; otherwise every
      row with the id takes the supply's type (the empty string for none) and comments,
      and no such row is an error. */
  function UpdateSupplyRow(rows: seq<SupplyRow>, s: Supply): (r: Result<seq<SupplyRow>, Fault>)
    ensures s.id <= 0 ==> r == Failure(NonPositiveSupplyId)
    ensures 0 < s.id && (forall i | 0 <= i < |rows| :: rows[i].id != s.id) ==> r == Failure(SupplyNotFound(s.id))
    ensures r.Success? <==> 0 < s.id && exists i | 0 <= i < |rows| :: rows[i].id == s.id
    ensures r.Success? ==> |r.value| == |rows| && forall i | 0 <= i < |rows| ::
      r.value[i] == if rows[i].id == s.id then SupplyRow(s.id, Some(s.supplyType.GetOr("")), s.comments) else rows[i]
  {
    if s.id <= 0 then Failure(NonPositiveSupplyId)
    else if forall i | 0 <= i < |rows| :: rows[i].id != s.id then Failure(SupplyNotFound(s.id))
    else Success(seq(|rows|, i requires 0 <= i < |rows| =>
                   if rows[i].id == s.id then SupplyRow(s.id, Some(s.supplyType.GetOr("")), s.comments) else rows[i]))
  }

  /** `editSupply` with the user's answers as parameters: a new type is applied only
      when one is given, the comments are always overwritten, and the in-memory change
      stays even when the database update fails. */
  function EditSupply(db: Registry, rows: seq<SupplyRow>, supplyInput: Option<int>, newType: JStr, newComments: JStr)
    : (r: (string, Registry, seq<SupplyRow>))
    ensures supplyInput.None? ==> r == (InvalidInput, db, rows)
    ensures supplyInput.Some? && supplyInput.value !in db.supplies ==> r == (InvalidSupplyIdMessage, db, rows)
    ensures supplyInput.Some? && supplyInput.value in db.supplies ==> supplyInput.value in r.1.supplies
    ensures supplyInput.Some? && supplyInput.value in db.supplies ==>
      var before := db.supplies[supplyInput.value];
      var edited := r.1.supplies[supplyInput.value];
      && r.1 == db.(supplies := db.supplies[supplyInput.value := edited])
      && edited.comments == newComments
      && edited.supplyType == (if newType.Some? then newType else before.supplyType)
      && edited.id == before.id && edited.kind == before.kind
      && (r.0 == UpdateSuccessful <==> UpdateSupplyRow(rows, edited).Success?)
      && (r.0 == UpdateSuccessful ==> r.2 == UpdateSupplyRow(rows, edited).value)
      && (r.0 != UpdateSuccessful ==> r.0 == UpdateFailed && r.2 == rows)
  {
    if supplyInput.None? then (InvalidInput, db, rows)
    else if supplyInput.value !in db.supplies then (InvalidSupplyIdMessage, db, rows)
    else
      var s := db.supplies[supplyInput.value];
      var typed := if newType.Some? then SetType(s, newType) else s;
      var edited := SetComments(typed, newComments);
      var reg := db.(supplies := db.supplies[supplyInput.value := edited]);
      match UpdateSupplyRow(rows, edited)
      case Success(updated) => (UpdateSuccessful, reg, updated)
      case Failure(_) => (UpdateFailed, reg, rows)
  }

  /** After a successful update, the row for the supply reads back its type and
      comments, so a second identical update changes nothing more. */
  lemma UpdateSupplyRowIdempotent(rows: seq<SupplyRow>, s: Supply)
    requires UpdateSupplyRow(rows, s).Success?
    ensures UpdateSupplyRow(UpdateSupplyRow(rows, s).value, s) == UpdateSupplyRow(rows, s)
  {
    var once := UpdateSupplyRow(rows, s).value;
    var i :| 0 <= i < |rows| && rows[i].id == s.id;
    assert once[i].id == s.id;
    var again := UpdateSupplyRow(once, s).value;
    assert |again| == |once|;
    forall j | 0 <= j < |once| ensures again[j] == once[j] {
    }
    assert again == once;
  }

  /** After an edit that the database accepts, every row for the supply reads back
      the edited type (the empty string for none) and the new comments, and at least
      one such row exists. */
  lemma EditSupplyReadsBack(db: Registry, rows: seq<SupplyRow>, id: int, newType: JStr, newComments: JStr)
    requires id in db.supplies
    requires EditSupply(db, rows, Some(id), newType, newComments).0 == UpdateSuccessful
    ensures var r := EditSupply(db, rows, Some(id), newType, newComments);
      var sid := db.supplies[id].id;
      var shown := Some((if newType.Some? then newType else db.supplies[id].supplyType).GetOr(""));
      && (exists i | 0 <= i < |r.2| :: r.2[i].id == sid)
      && forall i | 0 <= i < |r.2| && r.2[i].id == sid :: r.2[i].supplyType == shown && r.2[i].comments == newComments
  {
    var r := EditSupply(db, rows, Some(id), newType, newComments);
    var edited := r.1.supplies[id];
    var i :| 0 <= i < |rows| && rows[i].id == edited.id;
    assert r.2[i].id == edited.id;
  }

  /** Repeating an edit with the same answers changes nothing more, whether or not
      the database accepted the first one. */
  lemma EditSupplyIdempotent(db: Registry, rows: seq<SupplyRow>, supplyInput: Option<int>, newType: JStr, newComments: JStr)
    ensures var r := EditSupply(db, rows, supplyInput, newType, newComments);
      EditSupply(r.1, r.2, supplyInput, newType, newComments) == r
  {
    var r := EditSupply(db, rows, supplyInput, newType, newComments);
    if supplyInput.Some? && supplyInput.value in db.supplies {
      var edited := r.1.supplies[supplyInput.value];
      var again := EditSupply(r.1, r.2, supplyInput, newType, newComments).1.supplies[supplyInput.value];
      assert again == Supply(edited.id, edited.supplyType, edited.comments, edited.kind);
      assert r.1.supplies[supplyInput.value := again] == r.1.supplies;
      if UpdateSupplyRow(rows, edited).Success? {
        UpdateSupplyRowIdempotent(rows, edited);
        assert UpdateSupplyRow(r.2, again) == Success(r.2);
      }
    }
  }

  /* ---------------------------------------------------------------------------
   *  Water
   * ------------------------------------------------------------------------- */

  /** `allocateToPersonWithExpiry` at instant `now`: an unset id (0) is refused first,
      then an unknown person; on success one person row stamped `now` is added and the
      water's allocation date becomes `now`. A refusal leaves the water as it was. */
  function AllocateWaterToPerson(db: Registry, rows: seq<AllocationRow>, w: Supply, personId: int, now: int)
    : (r: Result<(Supply, seq<AllocationRow>), Fault>)
    requires w.kind.WaterItem?
    ensures w.id == 0 ==> r == Failure(WaterIdNotSet)
    ensures w.id != 0 && personId !in db.persons ==> r == Failure(InvalidPersonId(personId))
    ensures r.Success? <==> w.id != 0 && personId in db.persons
    ensures r.Success? ==> r.value.0 == w.(kind := WaterItem(Some(now)))
    ensures r.Success? ==> r.value.1 == rows + [AllocationRow(w.id, Some(personId), None, Some(now))]
  {
    if w.id == 0 then Failure(WaterIdNotSet)
    else if personId !in db.persons then Failure(InvalidPersonId(personId))
    else Success((w.(kind := WaterItem(Some(now))), rows + [AllocationRow(w.id, Some(personId), None, Some(now))]))
  }

  /** `allocateToLocation` at instant `now`: the same checks for a location; the row
      names the location and no person, and the water itself is not touched, so it
      never starts to expire. */
  function AllocateWaterToLocation(db: Registry, rows: seq<AllocationRow>, w: Supply, locationId: int, now: int)
    : (r: Result<seq<AllocationRow>, Fault>)
    requires w.kind.WaterItem?
    ensures w.id == 0 ==> r == Failure(WaterIdNotSet)
    ensures w.id != 0 && locationId !in db.locations ==> r == Failure(InvalidLocationId(locationId))
    ensures r.Success? <==> w.id != 0 && locationId in db.locations
    ensures r.Success? ==> r.value == rows + [AllocationRow(w.id, None, Some(locationId), Some(now))]
  {
    if w.id == 0 then Failure(WaterIdNotSet)
    else if locationId !in db.locations then Failure(InvalidLocationId(locationId))
    else Success(rows + [AllocationRow(w.id, None, Some(locationId), Some(now))])
  }

  /** Water handed to a person at `now` is expired exactly at instants past one day
      later; water never handed to a person never expires. */
  lemma WaterExpiresAfterOneDay(db: Registry, rows: seq<AllocationRow>, w: Supply, personId: int, now: int, later: int)
    requires w.kind == WaterItem(None) && w.id != 0 && personId in db.persons
    ensures IsExpired(AllocateWaterToPerson(db, rows, w, personId, now).value.0, later) <==> later > now + Day
    ensures !IsExpired(w, later)
  {
  }

  /** The supply ids whose Supply row has type exactly "water". */
  predicate IsWaterSupply(supplies: seq<SupplyRow>, supplyId: int) {
    exists s | s in supplies :: s.id == supplyId && s.supplyType == Some(WaterType)
  }

  /** The rows the expired-water sweep deletes: water held by a person and allocated
      more than one day before `now`. */
  predicate ExpiredWaterRow(supplies: seq<SupplyRow>, a: AllocationRow, now: int) {
    IsWaterSupply(supplies, a.supplyId) && a.allocationDate.Some? && a.allocationDate.value < now - Day
    && a.personId.Some?
  }

  /** The rows that survive the sweep, in their order. */
  function Surviving(supplies: seq<SupplyRow>, rows: seq<AllocationRow>, now: int): (r: seq<AllocationRow>)
    ensures forall i | 0 <= i < |r| :: !ExpiredWaterRow(supplies, r[i], now)
  {
    if |rows| == 0 then []
    else
      var last := rows[|rows| - 1];
      Surviving(supplies, rows[..|rows| - 1], now) + (if ExpiredWaterRow(supplies, last, now) then [] else [last])
  }

  /** The sweep deletes exactly the expired person-held water rows and keeps every
      other row. */
  lemma {:induction false} SurvivingExact(supplies: seq<SupplyRow>, rows: seq<AllocationRow>, now: int)
    ensures forall a :: a in Surviving(supplies, rows, now) <==> a in rows && !ExpiredWaterRow(supplies, a, now)
    ensures |Surviving(supplies, rows, now)| <= |rows|
    decreases |rows|
  {
    if 0 < |rows| {
      SurvivingExact(supplies, rows[..|rows| - 1], now);
      assert rows == rows[..|rows| - 1] + [rows[|rows| - 1]];
    }
  }

  /** The SQL test `allocation_date < now - 1 day` is `isExpired` of the water at that
      date. */
  lemma SweepAgreesWithIsExpired(supplies: seq<SupplyRow>, a: AllocationRow, w: Supply, now: int)
    requires w.kind == WaterItem(a.allocationDate)
    ensures ExpiredWaterRow(supplies, a, now)
        <==> IsWaterSupply(supplies, a.supplyId) && a.personId.Some? && IsExpired(w, now)
  {
  }

  /** `cleanupExpiredWater`: deletes the expired person-held water rows and answers how
      many it deleted, or -1 and no change when the database refuses (`refused`). */
  method CleanupExpiredWater(supplies: seq<SupplyRow>, rows: seq<AllocationRow>, now: int, refused: bool)
    returns (deleted: int, kept: seq<AllocationRow>)
    ensures refused ==> deleted == -1 && kept == rows
    ensures !refused ==> kept == Surviving(supplies, rows, now) && deleted == |rows| - |kept|
    ensures !refused ==> forall a :: a in kept <==> a in rows && !ExpiredWaterRow(supplies, a, now)
  {
    if refused {
      return -1, rows;
    }
    kept := [];
    deleted := 0;
    var i := 0;
    while i < |rows|
      invariant 0 <= i <= |rows|
      invariant kept == Surviving(supplies, rows[..i], now)
      invariant deleted == i - |kept|
    {
      assert rows[..i + 1][..i] == rows[..i];
      if ExpiredWaterRow(supplies, rows[i], now) {
        deleted := deleted + 1;
      } else {
        kept := kept + [rows[i]];
      }
      i := i + 1;
    }
    assert rows[..i] == rows;
    SurvivingExact(supplies, rows, now);
  }

  /** A second sweep at the same instant deletes nothing. */
  lemma {:induction false} SweepIsIdempotent(supplies: seq<SupplyRow>, rows: seq<AllocationRow>, now: int)
    ensures Surviving(supplies, Surviving(supplies, rows, now), now) == Surviving(supplies, rows, now)
    decreases |rows|
  {
    if 0 < |rows| {
      var init := rows[..|rows| - 1];
      var last := rows[|rows| - 1];
      SweepIsIdempotent(supplies, init, now);
      var s := Surviving(supplies, init, now);
      if !ExpiredWaterRow(supplies, last, now) {
        var t := s + [last];
        assert Surviving(supplies, rows, now) == t;
        assert t[..|t| - 1] == s && t[|t| - 1] == last;
        assert Surviving(supplies, t, now) == Surviving(supplies, s, now) + [last];
      } else {
        assert Surviving(supplies, rows, now) == s + [];
        assert s + [] == s;
      }
    }
  }
}
