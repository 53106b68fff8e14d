/*******************************************************************************
 *  Loader: `loadData` and `loadAssociations` as a function from the current
 *  table rows to a fresh registry. Each table is read in row order; the
 *  occupancy and allocation rows are then wired into the locations, and the
 *  expired-water sweep runs over the allocation table last.
 *******************************************************************************/

module Loader {
  import opened Wrappers
  import opened JavaText
  import opened Supplies
  import opened Persons
  import opened Locations
  import opened Inquiries
  import opened MedicalRecords
  import opened Tables
  import opened Registry
  import opened Allocation

  /** A table read row by row into a map: each row's value is stored under its id, a
      later row replacing an earlier one, and the first row that throws aborts the
      read with its exception. */
  function Collect<T>(ids: seq<int>, results: seq<Result<T, Fault>>): (r: Result<map<int, T>, Fault>)
    requires |ids| == |results|
    ensures r.Success? <==> forall i | 0 <= i < |results| :: results[i].Success?
    ensures r.Success? ==> forall k :: k in r.value <==> exists i | 0 <= i < |ids| :: ids[i] == k
    ensures r.Success? ==> forall k | k in r.value :: exists i | 0 <= i < |ids| :: ids[i] == k && results[i] == Success(r.value[k])
    ensures r.Failure? ==> exists i | 0 <= i < |results| ::
      results[i] == Failure(r.error) && forall j | 0 <= j < i :: results[j].Success?
  {
    if |ids| == 0 then Success(map[])
    else
      var n := |ids| - 1;
      assert forall i | 0 <= i < n :: ids[..n][i] == ids[i] && results[..n][i] == results[i];
      var m :- Collect(ids[..n], results[..n]);
      var x :- results[n];
      Success(m[ids[n] := x])
  }

  /* ---------------------------------------------------------------------------
   *  Persons and family groups
   * ------------------------------------------------------------------------- */

  /** `SELECT COUNT(*) FROM Inquiry WHERE inquirer_id = id` is positive; a null
      inquirer id matches nobody. */
  predicate IsInquirerId(inquiries: seq<InquiryRow>, id: int) {
    exists i | 0 <= i < |inquiries| :: inquiries[i].inquirerId == Some(id)
  }

  /** The family group column, 0 when null. */
  function GroupOf(row: PersonRow): int {
    row.familyGroup.GetOr(0)
  }

  /** A person row becomes an Inquirer (empty message, counted as a victim) when some
      inquiry names it, and otherwise a DisasterVictim of type "Unknown"; id and gender
      are set, and the date of birth is read but not kept. */
  function BuildPerson(row: PersonRow, inquiries: seq<InquiryRow>): (p: Person)
    ensures p.kind.InquirerOf? <==> IsInquirerId(inquiries, row.id)
    ensures p.kind.InquirerOf? ==> p.kind == InquirerOf(Some(""), true)
    ensures !p.kind.InquirerOf? ==> p.kind == Victim(Some("Unknown"))
    ensures p.id == row.id && p.gender == row.gender && p.dateOfBirth == None
    ensures p.firstName == row.firstName && p.lastName == row.lastName && p.phoneNumber == row.phoneNumber
    ensures p.allocatedSupplies == []
  {
    var base := if IsInquirerId(inquiries, row.id)
                then NewInquirer(row.firstName, row.lastName, row.phoneNumber, Some(""), true)
                else NewVictim(row.firstName, row.lastName, row.phoneNumber, Some("Unknown"));
    base.(id := row.id, gender := row.gender)
  }

  /** The persons map after the Person rows: each row is stored under its id, a later
      row replacing an earlier one. */
  function PersonMap(rows: seq<PersonRow>, inquiries: seq<InquiryRow>): (r: map<int, Person>)
    ensures forall k | k in r :: r[k].id == k
  {
    if |rows| == 0 then map[]
    else
      var row := rows[|rows| - 1];
      PersonMap(rows[..|rows| - 1], inquiries)[row.id := BuildPerson(row, inquiries)]
  }

  /** The family groups after the Person rows: a row with a nonzero group joins it,
      the group being created as a placeholder on its first reference. */
  function GroupMap(rows: seq<PersonRow>, inquiries: seq<InquiryRow>): (r: map<int, FamilyGroup>)
    ensures 0 !in r
  {
    if |rows| == 0 then map[]
    else
      var row := rows[|rows| - 1];
      var groups := GroupMap(rows[..|rows| - 1], inquiries);
      if GroupOf(row) == 0 then groups else JoinGroup(groups, GroupOf(row), BuildPerson(row, inquiries))
  }

  /** Reference definition: the persons built from the rows naming group `k`, in row order. */
  function RowsInGroup(rows: seq<PersonRow>, inquiries: seq<InquiryRow>, k: int): seq<Person> {
    if |rows| == 0 then []
    else
      var row := rows[|rows| - 1];
      RowsInGroup(rows[..|rows| - 1], inquiries, k) + (if GroupOf(row) == k then [BuildPerson(row, inquiries)] else [])
  }

  /** The persons map has one entry per distinct id, built from a row with that id,
      and a person is an Inquirer exactly when some inquiry names it. */
  lemma PersonMapExact(rows: seq<PersonRow>, inquiries: seq<InquiryRow>)
    ensures forall k :: k in PersonMap(rows, inquiries) <==> exists i | 0 <= i < |rows| :: rows[i].id == k
    ensures forall k | k in PersonMap(rows, inquiries) ::
      (exists i | 0 <= i < |rows| :: rows[i].id == k && PersonMap(rows, inquiries)[k] == BuildPerson(rows[i], inquiries))
    ensures forall k | k in PersonMap(rows, inquiries) ::
      PersonMap(rows, inquiries)[k].kind.InquirerOf? <==> IsInquirerId(inquiries, k)
  {
    PersonMapKeys(rows, inquiries);
    PersonMapBuiltFrom(rows, inquiries);
    forall k | k in PersonMap(rows, inquiries)
      ensures PersonMap(rows, inquiries)[k].kind.InquirerOf? <==> IsInquirerId(inquiries, k)
    {
      var i :| 0 <= i < |rows| && rows[i].id == k && PersonMap(rows, inquiries)[k] == BuildPerson(rows[i], inquiries);
    }
  }

  lemma {:induction false} PersonMapKeys(rows: seq<PersonRow>, inquiries: seq<InquiryRow>)
    ensures forall k :: k in PersonMap(rows, inquiries) <==> exists i | 0 <= i < |rows| :: rows[i].id == k
    decreases |rows|
  {
    if 0 < |rows| {
      var init := rows[..|rows| - 1];
      PersonMapKeys(init, inquiries);
      forall k ensures k in PersonMap(rows, inquiries) <==> exists i | 0 <= i < |rows| :: rows[i].id == k {
        if exists i | 0 <= i < |rows| :: rows[i].id == k {
          var i :| 0 <= i < |rows| && rows[i].id == k;
          if i < |init| {
            assert init[i] == rows[i];
          }
        }
        if exists i | 0 <= i < |init| :: init[i].id == k {
          var i :| 0 <= i < |init| && init[i].id == k;
          assert rows[i] == init[i];
        }
      }
    }
  }

  lemma {:induction false} PersonMapBuiltFrom(rows: seq<PersonRow>, inquiries: seq<InquiryRow>)
    ensures forall k | k in PersonMap(rows, inquiries) ::
      (exists i | 0 <= i < |rows| :: rows[i].id == k && PersonMap(rows, inquiries)[k] == BuildPerson(rows[i], inquiries))
    decreases |rows|
  {
    if 0 < |rows| {
      var init := rows[..|rows| - 1];
      PersonMapBuiltFrom(init, inquiries);
      var last := rows[|rows| - 1];
      assert PersonMap(rows, inquiries) == PersonMap(init, inquiries)[last.id := BuildPerson(last, inquiries)];
      forall k | k in PersonMap(rows, inquiries)
        ensures exists i | 0 <= i < |rows| :: rows[i].id == k && PersonMap(rows, inquiries)[k] == BuildPerson(rows[i], inquiries)
      {
        if k != last.id {
          assert k in PersonMap(init, inquiries) && PersonMap(rows, inquiries)[k] == PersonMap(init, inquiries)[k];
          var i :| 0 <= i < |init| && init[i].id == k && PersonMap(init, inquiries)[k] == BuildPerson(init[i], inquiries);
          assert rows[i] == init[i];
        }
      }
    }
  }

  /** A group exists exactly for the nonzero ids some row names. */
  lemma {:induction false} GroupMapKeys(rows: seq<PersonRow>, inquiries: seq<InquiryRow>)
    ensures forall k :: k in GroupMap(rows, inquiries) <==> k != 0 && exists i | 0 <= i < |rows| :: GroupOf(rows[i]) == k
    decreases |rows|
  {
    if 0 < |rows| {
      var init := rows[..|rows| - 1];
      GroupMapKeys(init, inquiries);
      forall k ensures k in GroupMap(rows, inquiries) <==> k != 0 && exists i | 0 <= i < |rows| :: GroupOf(rows[i]) == k {
        if exists i | 0 <= i < |rows| :: GroupOf(rows[i]) == k {
          var i :| 0 <= i < |rows| && GroupOf(rows[i]) == k;
          if i < |init| {
            assert init[i] == rows[i];
          }
        }
        if exists i | 0 <= i < |init| :: GroupOf(init[i]) == k {
          var i :| 0 <= i < |init| && GroupOf(init[i]) == k;
          assert rows[i] == init[i];
        }
      }
    }
  }

  /** Each group is the placeholder for its id, holding the persons of the rows that
      name it, in row order. */
  lemma {:induction false} GroupMapMembers(rows: seq<PersonRow>, inquiries: seq<InquiryRow>)
    ensures forall k | k in GroupMap(rows, inquiries) ::
      Members(GroupMap(rows, inquiries)[k]) == RowsInGroup(rows, inquiries, k)
      && GroupMap(rows, inquiries)[k].(kind := Group([])) == PlaceholderGroup(k)
    decreases |rows|
  {
    if 0 < |rows| {
      var init := rows[..|rows| - 1];
      var row := rows[|rows| - 1];
      var before := GroupMap(init, inquiries);
      var after := GroupMap(rows, inquiries);
      GroupMapMembers(init, inquiries);
      GroupMapKeys(init, inquiries);
      forall k | k in after
        ensures Members(after[k]) == RowsInGroup(rows, inquiries, k)
        ensures after[k].(kind := Group([])) == PlaceholderGroup(k)
      {
        if GroupOf(row) != 0 && GroupOf(row) == k {
          var p := BuildPerson(row, inquiries);
          assert RowsInGroup(rows, inquiries, k) == RowsInGroup(init, inquiries, k) + [p];
          assert Members(after[k]) == Members(GroupOrPlaceholder(before, k)) + [p];
          if k !in before {
            NoRowsNoMembers(init, inquiries, k);
          }
        } else {
          assert after[k] == before[k];
          assert RowsInGroup(rows, inquiries, k) == RowsInGroup(init, inquiries, k) + [];
        }
      }
    }
  }

  lemma {:induction false} NoRowsNoMembers(rows: seq<PersonRow>, inquiries: seq<InquiryRow>, k: int)
    requires forall i | 0 <= i < |rows| :: GroupOf(rows[i]) != k
    ensures RowsInGroup(rows, inquiries, k) == []
    decreases |rows|
  {
    if 0 < |rows| {
      var init := rows[..|rows| - 1];
      assert forall i | 0 <= i < |init| :: init[i] == rows[i];
      NoRowsNoMembers(init, inquiries, k);
    }
  }

  /* ---------------------------------------------------------------------------
   *  Locations and supplies
   * ------------------------------------------------------------------------- */

  /** The locations after the Location rows: empty, named as the row says. */
  function LocationMap(rows: seq<LocationRow>): (m: map<int, Location>)
    ensures forall k | k in m :: m[k].occupants == [] && m[k].supplies == []
    ensures forall k :: k in m <==> exists i | 0 <= i < |rows| :: rows[i].id == k
  {
    if |rows| == 0 then map[]
    else
      var row := rows[|rows| - 1];
      var m := LocationMap(rows[..|rows| - 1]);
      assert forall i | 0 <= i < |rows| - 1 :: rows[..|rows| - 1][i] == rows[i];
      m[row.id := NewLocation(row.name, row.address)]
  }

  /** A Supply row by its lower-cased type: "cot" and "personal item" keep the
      comments, "blanket" and "water" drop them, any other type becomes a generic
      supply of that type without comments. A null type throws. The row id is set. */
  function BuildSupply(row: SupplyRow): (r: Result<Supply, Fault>)
    ensures r.Failure? <==> row.supplyType.None?
    ensures r.Success? ==> r.value.id == row.id
    ensures r.Success? ==>
      var tag := ToLowerAscii(row.supplyType.value);
      && (tag == CotType ==> r.value.kind == CotItem && r.value.comments == row.comments && r.value.supplyType == Some(CotType))
      && (tag == BlanketType ==> r.value.kind == BlanketItem && r.value.comments == None && r.value.supplyType == Some(BlanketType))
      && (tag == PersonalItemType ==> r.value.kind == PersonalItem && r.value.comments == row.comments
                                      && r.value.supplyType == Some(PersonalItemType))
      && (tag == WaterType ==> r.value.kind == WaterItem(None) && r.value.comments == None && r.value.supplyType == Some(WaterType))
      && (tag !in {CotType, BlanketType, PersonalItemType, WaterType} ==>
            r.value.kind == General && r.value.comments == None && r.value.supplyType == row.supplyType)
  {
    match row.supplyType
    case None => Failure(NullPointer("type is null"))
    case Some(t) =>
      var tag := ToLowerAscii(t);
      var s := if tag == CotType then NewCot(row.comments)
               else if tag == BlanketType then NewBlanket()
               else if tag == PersonalItemType then NewPersonalBelonging(row.comments)
               else if tag == WaterType then NewWater()
               else NewSupply(row.supplyType, 1);
      Success(SetId(s, row.id))
  }

  /** The supplies after the Supply rows; the first row without a type aborts. */
  function SupplyMap(rows: seq<SupplyRow>): (r: Result<map<int, Supply>, Fault>)
    ensures r.Success? <==> forall i | 0 <= i < |rows| :: rows[i].supplyType.Some?
    ensures r.Success? ==> forall k :: k in r.value <==> exists i | 0 <= i < |rows| :: rows[i].id == k
    ensures r.Success? ==> forall k | k in r.value :: r.value[k].id == k
  {
    var ids := seq(|rows|, i requires 0 <= i < |rows| => rows[i].id);
    var built := seq(|rows|, i requires 0 <= i < |rows| => BuildSupply(rows[i]));
    assert forall i | 0 <= i < |rows| :: ids[i] == rows[i].id && built[i] == BuildSupply(rows[i]);
    Collect(ids, built)
  }

  /* ---------------------------------------------------------------------------
   *  Inquiries and medical records
   * ------------------------------------------------------------------------- */

  /** `inquirerId != null ? (Inquirer) persons.get(inquirerId) : null`: a null id or an
      unknown one yields null; a person who is not an Inquirer fails the cast. */
  function InquirerFor(persons: map<int, Person>, inquirerId: Option<int>): (r: Result<Option<Inquirer>, Fault>)
    ensures r.Failure? <==> inquirerId.Some? && inquirerId.value in persons && !persons[inquirerId.value].kind.InquirerOf?
    ensures r.Failure? ==> r.error == ClassCast
    ensures r.Success? && r.value.Some? ==> inquirerId.Some? && inquirerId.value in persons && r.value.value == persons[inquirerId.value]
    ensures r.Success? && r.value.None? ==> inquirerId.None? || inquirerId.value !in persons
  {
    match inquirerId
    case None => Success(None)
    case Some(k) =>
      if k !in persons then Success(None)
      else if persons[k].kind.InquirerOf? then Success(Some(persons[k]))
      else Failure(ClassCast)
  }

  /** An Inquiry row: the cast first, then the constructor's checks, then id and
      seeking id. */
  function BuildInquiry(row: InquiryRow, persons: map<int, Person>): (r: Result<Inquiry, Fault>)
    ensures r.Success? ==> r.value.id == row.id && r.value.seekingId == row.seekingId
    ensures r.Success? ==> row.comments == Some(r.value.inquiryMessage)
    ensures r.Success? ==> row.inquirerId.Some? && row.inquirerId.value in persons
                           && r.value.inquirer == persons[row.inquirerId.value]
    ensures row.inquirerId.None? ==> r == Failure(NullPointer("Inquirer cannot be null"))
  {
    var inquirer :- InquirerFor(persons, row.inquirerId);
    var q :- NewInquiry(inquirer, row.comments);
    Success(q.(id := row.id, seekingId := row.seekingId))
  }

  /** The inquiries after the Inquiry rows; the first failing row aborts. */
  function InquiryMap(rows: seq<InquiryRow>, persons: map<int, Person>): (r: Result<map<int, Inquiry>, Fault>)
    ensures r.Success? <==> forall i | 0 <= i < |rows| :: BuildInquiry(rows[i], persons).Success?
    ensures r.Success? ==> forall k :: k in r.value <==> exists i | 0 <= i < |rows| :: rows[i].id == k
    ensures r.Success? ==> forall k | k in r.value ::
      exists i | 0 <= i < |rows| :: rows[i].id == k && BuildInquiry(rows[i], persons) == Success(r.value[k])
  {
    var ids := seq(|rows|, i requires 0 <= i < |rows| => rows[i].id);
    var built := seq(|rows|, i requires 0 <= i < |rows| => BuildInquiry(rows[i], persons));
    assert forall i | 0 <= i < |rows| :: ids[i] == rows[i].id && built[i] == BuildInquiry(rows[i], persons);
    Collect(ids, built)
  }

  /** A MedicalRecord row: the location may be unknown (null); a null timestamp, or
      one shorter than ten characters, throws before the constructor sees its first
      ten characters. */
  function BuildRecord(row: MedicalRow, locations: map<int, Location>): (r: Result<MedicalRecord, Fault>)
    ensures row.treatedAt.None? ==> r.Failure?
    ensures row.treatedAt.Some? && |row.treatedAt.value| < 10 ==> r == Failure(IndexOutOfBounds)
    ensures r.Success? ==>
      && row.treatedAt.Some? && 10 <= |row.treatedAt.value|
      && r.value.dateOfTreatment == row.treatedAt.value[..10]
      && r.value.treatmentDetails == row.treatmentDetails
      && r.value.location == (if row.locationId in locations then Some(locations[row.locationId]) else None)
  {
    match row.treatedAt
    case None => Failure(NullPointer("treatment timestamp is null"))
    case Some(text) =>
      if |text| < 10 then Failure(IndexOutOfBounds)
      else
        var location := if row.locationId in locations then Some(locations[row.locationId]) else None;
        NewMedicalRecord(location, row.treatmentDetails, Some(text[..10]))
  }

  /** Past the timestamp checks, a row is accepted exactly when its first ten
      characters are a valid date from 1900 on. */
  lemma BuildRecordChecksDate(row: MedicalRow, locations: map<int, Location>)
    requires row.treatedAt.Some? && 10 <= |row.treatedAt.value|
    ensures var date := Some(row.treatedAt.value[..10]);
      BuildRecord(row, locations).Success?
      <==> IsValidDateFormat(date) && MinimumYear <= ParseIsoLocalDate(date.value).value.year
  {
  }

  /** The medical records after the MedicalRecord rows; the first failing row aborts. */
  function RecordMap(rows: seq<MedicalRow>, locations: map<int, Location>): (r: Result<map<int, MedicalRecord>, Fault>)
    ensures r.Success? <==> forall i | 0 <= i < |rows| :: BuildRecord(rows[i], locations).Success?
    ensures r.Success? ==> forall k :: k in r.value <==> exists i | 0 <= i < |rows| :: rows[i].id == k
  {
    var ids := seq(|rows|, i requires 0 <= i < |rows| => rows[i].id);
    var built := seq(|rows|, i requires 0 <= i < |rows| => BuildRecord(rows[i], locations));
    assert forall i | 0 <= i < |rows| :: ids[i] == rows[i].id && built[i] == BuildRecord(rows[i], locations);
    Collect(ids, built)
  }

  /* ---------------------------------------------------------------------------
   *  Associations
   * ------------------------------------------------------------------------- */

  /** The victim a PersonLocation row places at location `l`, if any: both columns read
      as 0 when null, the person must be a DisasterVictim and the location known. */
  function Placed(row: PersonLocationRow, persons: map<int, Person>, l: int): seq<DisasterVictim> {
    var pid := row.personId.GetOr(0);
    if row.locationId.GetOr(0) == l && pid in persons && persons[pid].kind.Victim? then [persons[pid]] else []
  }

  /** The occupancy rows applied in order. */
  function PlaceOccupants(rows: seq<PersonLocationRow>, persons: map<int, Person>, locs: map<int, Location>)
    : (r: map<int, Location>)
    ensures r.Keys == locs.Keys
  {
    if |rows| == 0 then locs
    else
      var row := rows[|rows| - 1];
      var m := PlaceOccupants(rows[..|rows| - 1], persons, locs);
      var pid := row.personId.GetOr(0);
      var lid := row.locationId.GetOr(0);
      if pid in persons && persons[pid].kind.Victim? && lid in m then m[lid := AddOccupant(m[lid], Some(persons[pid]))]
      else m
  }

  /** Reference definition: the victims the rows place at `l`, in row order. */
  function OccupantsFrom(rows: seq<PersonLocationRow>, persons: map<int, Person>, l: int): seq<DisasterVictim> {
    if |rows| == 0 then [] else OccupantsFrom(rows[..|rows| - 1], persons, l) + Placed(rows[|rows| - 1], persons, l)
  }

  /** Each location gains exactly the victims its rows place there, in row order, and
      nothing else about it changes. */
  lemma {:induction false} PlaceOccupantsExact(rows: seq<PersonLocationRow>, persons: map<int, Person>, locs: map<int, Location>)
    ensures var r := PlaceOccupants(rows, persons, locs);
      forall l | l in locs :: r[l] == locs[l].(occupants := locs[l].occupants + OccupantsFrom(rows, persons, l))
    decreases |rows|
  {
    if 0 < |rows| {
      PlaceOccupantsExact(rows[..|rows| - 1], persons, locs);
    }
  }

  /** The supply an allocation row adds to location `l`, if any. `wasNull` there reports
      on the location column, the last one read: a row with a location and with a
      person id (0 when null) that is a known person changes nothing; otherwise a row
      whose location is known adds the supply to it. Rows for unknown supplies are
      skipped. */
  function Stocked(row: AllocationRow, persons: map<int, Person>, supplies: map<int, Supply>, l: int)
    : seq<Option<Supply>>
  {
    if row.supplyId in supplies && row.locationId == Some(l) && row.personId.GetOr(0) !in persons
    then [Some(supplies[row.supplyId])] else []
  }

  function PlaceSupplies(rows: seq<AllocationRow>, persons: map<int, Person>, supplies: map<int, Supply>,
                         locs: map<int, Location>): (r: map<int, Location>)
    ensures r.Keys == locs.Keys
  {
    if |rows| == 0 then locs
    else
      var row := rows[|rows| - 1];
      var m := PlaceSupplies(rows[..|rows| - 1], persons, supplies, locs);
      if row.supplyId !in supplies then m
      else if row.locationId.Some? && row.personId.GetOr(0) in persons then m
      else if row.locationId.Some? && row.locationId.value in m then
        m[row.locationId.value := AddSupply(m[row.locationId.value], Some(supplies[row.supplyId]))]
      else m
  }

  function SuppliesFrom(rows: seq<AllocationRow>, persons: map<int, Person>, supplies: map<int, Supply>, l: int)
    : seq<Option<Supply>>
  {
    if |rows| == 0 then [] else SuppliesFrom(rows[..|rows| - 1], persons, supplies, l) + Stocked(rows[|rows| - 1], persons, supplies, l)
  }

  /** Each location's supply list gains exactly the supplies its allocation rows name,
      in row order; occupants and names do not change. */
  lemma {:induction false} PlaceSuppliesExact(rows: seq<AllocationRow>, persons: map<int, Person>, supplies: map<int, Supply>,
                                              locs: map<int, Location>)
    ensures var r := PlaceSupplies(rows, persons, supplies, locs);
      forall l | l in locs :: r[l] == locs[l].(supplies := locs[l].supplies + SuppliesFrom(rows, persons, supplies, l))
    decreases |rows|
  {
    if 0 < |rows| {
      PlaceSuppliesExact(rows[..|rows| - 1], persons, supplies, locs);
    }
  }

  /* ---------------------------------------------------------------------------
   *  The whole load
   * ------------------------------------------------------------------------- */

  /** The locations once the occupancy and allocation rows are wired in. */
  function WiredLocations(t: Tables, persons: map<int, Person>, supplies: map<int, Supply>): (r: map<int, Location>)
    ensures forall k :: k in r <==> exists i | 0 <= i < |t.locations| :: t.locations[i].id == k
  {
    PlaceSupplies(t.allocations, persons, supplies, PlaceOccupants(t.personLocations, persons, LocationMap(t.locations)))
  }

  /** `loadData` at instant `now`: a registry built from the rows alone (whatever was
      loaded before is discarded), and the allocation table after the expired-water
      sweep, which leaves it as it was when the database refuses (`sweepRefused`).
      Medical records see their location as wired. Any exception aborts the load. */
  function LoadData(t: Tables, now: int, sweepRefused: bool): (r: Result<(Registry, seq<AllocationRow>), Fault>)
    ensures r.Success? <==>
      && SupplyMap(t.supplies).Success?
      && InquiryMap(t.inquiries, PersonMap(t.persons, t.inquiries)).Success?
      && RecordMap(t.medicalRecords, WiredLocations(t, PersonMap(t.persons, t.inquiries), SupplyMap(t.supplies).value)).Success?
    ensures r.Success? ==>
      var reg := r.value.0;
      && reg.persons == PersonMap(t.persons, t.inquiries)
      && reg.familyGroups == GroupMap(t.persons, t.inquiries)
      && reg.supplies == SupplyMap(t.supplies).value
      && reg.locations == WiredLocations(t, reg.persons, reg.supplies)
      && reg.inquiries == InquiryMap(t.inquiries, reg.persons).value
      && reg.medicalRecords == RecordMap(t.medicalRecords, reg.locations).value
      && r.value.1 == (if sweepRefused then t.allocations else Surviving(t.supplies, t.allocations, now))
  {
    var persons := PersonMap(t.persons, t.inquiries);
    var groups := GroupMap(t.persons, t.inquiries);
    var supplies :- SupplyMap(t.supplies);
    var inquiries :- InquiryMap(t.inquiries, persons);
    var locations := WiredLocations(t, persons, supplies);
    var records :- RecordMap(t.medicalRecords, locations);
    var rows := if sweepRefused then t.allocations else Surviving(t.supplies, t.allocations, now);
    Success((Registry(persons, locations, supplies, inquiries, records, groups), rows))
  }

  /** Every location of a load holds exactly the victims its occupancy rows place there
      and the supplies its allocation rows name, each in row order. */
  lemma LoadedLocations(t: Tables, now: int, sweepRefused: bool)
    requires LoadData(t, now, sweepRefused).Success?
    ensures var reg := LoadData(t, now, sweepRefused).value.0;
      forall l | l in reg.locations ::
        && reg.locations[l].occupants == OccupantsFrom(t.personLocations, reg.persons, l)
        && reg.locations[l].supplies == SuppliesFrom(t.allocations, reg.persons, reg.supplies, l)
  {
    var reg := LoadData(t, now, sweepRefused).value.0;
    var bare := LocationMap(t.locations);
    var placed := PlaceOccupants(t.personLocations, reg.persons, bare);
    PlaceOccupantsExact(t.personLocations, reg.persons, bare);
    PlaceSuppliesExact(t.allocations, reg.persons, reg.supplies, placed);
  }

  /** The cast in the inquiry loop never fails on a load: a person any inquiry names
      was classified as an Inquirer. */
  lemma LoadNeverFailsTheCast(t: Tables)
    ensures forall i | 0 <= i < |t.inquiries| :: InquirerFor(PersonMap(t.persons, t.inquiries), t.inquiries[i].inquirerId).Success?
  {
    PersonMapExact(t.persons, t.inquiries);
    var persons := PersonMap(t.persons, t.inquiries);
    forall i | 0 <= i < |t.inquiries| ensures InquirerFor(persons, t.inquiries[i].inquirerId).Success? {
      if t.inquiries[i].inquirerId.Some? && t.inquiries[i].inquirerId.value in persons {
        assert IsInquirerId(t.inquiries, t.inquiries[i].inquirerId.value);
      }
    }
  }

  /** After a load, the inquirer of every stored inquiry is the person that
      `selectInquirer` picks for that inquirer's id. */
  lemma LoadedInquirersAreSelectable(t: Tables, now: int, sweepRefused: bool, q: int)
    requires LoadData(t, now, sweepRefused).Success? && q in LoadData(t, now, sweepRefused).value.0.inquiries
    ensures var reg := LoadData(t, now, sweepRefused).value.0;
      SelectInquirer(reg.persons, Some(reg.inquiries[q].inquirer.id)) == Selected(reg.inquiries[q].inquirer)
  {
    var reg := LoadData(t, now, sweepRefused).value.0;
    var inq := reg.inquiries[q];
    var i :| 0 <= i < |t.inquiries| && t.inquiries[i].id == q && BuildInquiry(t.inquiries[i], reg.persons) == Success(inq);
    var k := t.inquiries[i].inquirerId.value;
    assert k in reg.persons && inq.inquirer == reg.persons[k];
  }

  /** An inquiry row with a null inquirer id aborts the whole load. */
  lemma NullInquirerAbortsLoad(t: Tables, now: int, sweepRefused: bool, i: int)
    requires 0 <= i < |t.inquiries| && t.inquiries[i].inquirerId.None?
    ensures LoadData(t, now, sweepRefused).Failure?
  {
    assert !BuildInquiry(t.inquiries[i], PersonMap(t.persons, t.inquiries)).Success?;
  }
}
