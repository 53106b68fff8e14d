/*******************************************************************************
 *  The in-memory connector that stands in for the database: a fixed fixture of
 *  three persons, two locations, three supplies, one inquiry, one medical
 *  record and one family group, failure injection, the referential-integrity
 *  check and the water cleanup. The connector is a value: its "closed" flag
 *  and the six maps.
 *******************************************************************************/

module MockStore {
  import opened Wrappers
  import opened JavaText
  import opened Persons
  import opened Locations
  import opened Inquiries
  import opened Supplies
  import opened MedicalRecords
  import opened Registry

  datatype MockConnection = MockConnection(closed: bool, data: Registry)

  /* ---------------------------------------------------------------------------
   *  The fixture
   * ------------------------------------------------------------------------- */

  const JohnDoe: DisasterVictim :=
    Person(1, Some("John"), Some("Doe"), Some("555-1234"), Some("Male"), None, [], Victim(Some("Unknown")))
  const JaneSmith: DisasterVictim :=
    Person(2, Some("Jane"), Some("Smith"), Some("555-5678"), Some("Female"), None, [], Victim(Some("Unknown")))
  const BobJohnson: Inquirer :=
    Person(3, Some("Bob"), Some("Johnson"), Some("555-9012"), Some("Male"), None, [], InquirerOf(Some(""), true))

  const StandardCot := Supply(1, Some(CotType), Some("Standard issue"), CotItem)
  const FixtureBlanket := Supply(2, Some(BlanketType), None, BlanketItem)
  const FixtureWater := Supply(3, Some(WaterType), None, WaterItem(None))

  /** The locations as the fixture leaves them: the occupants and supplies linked at
      the end are visible through every reference to the location. */
  const MainShelter :=
    Location(Some("Main Shelter"), Some("123 Main St"), [JohnDoe], [Some(StandardCot), Some(FixtureBlanket)])
  const CityHospital := Location(Some("City Hospital"), Some("456 Medical Dr"), [JaneSmith], [Some(FixtureWater)])

  const FirstAid := MedicalRecord(Some(CityHospital), Some("First aid treatment"), "2025-04-01")

  const LookingForJohn := Inquiry(BobJohnson, "Looking for family member", 1, 1)

  const FamilyOne: FamilyGroup := Person(0, Some("Family"), Some("1"), None, None, None, [], Group([JohnDoe, JaneSmith]))

  /** The fixture's persons are what the constructors and setters build. */
  lemma FixturePersonsAreBuilt()
    ensures JohnDoe == NewVictim(Some("John"), Some("Doe"), Some("555-1234"), Some("Unknown")).(id := 1, gender := Some("Male"))
    ensures JaneSmith == NewVictim(Some("Jane"), Some("Smith"), Some("555-5678"), Some("Unknown")).(id := 2, gender := Some("Female"))
    ensures BobJohnson == NewInquirer(Some("Bob"), Some("Johnson"), Some("555-9012"), Some(""), true).(id := 3, gender := Some("Male"))
    ensures FamilyOne == AddFamilyMember(AddFamilyMember(NewFamilyGroup(Some("Family"), Some("1"), None), Some(JohnDoe)), Some(JaneSmith))
  {
  }

  /** The fixture's supplies and locations are what the constructors, `setId`,
      `addOccupant` and `addSupply` build. */
  lemma FixtureLocationsAreBuilt()
    ensures StandardCot == SetId(NewCot(Some("Standard issue")), 1)
    ensures FixtureBlanket == SetId(NewBlanket(), 2) && FixtureWater == SetId(NewWater(), 3)
    ensures MainShelter == AddSupply(AddSupply(AddOccupant(NewLocation(Some("Main Shelter"), Some("123 Main St")), Some(JohnDoe)),
                                               Some(StandardCot)), Some(FixtureBlanket))
    ensures CityHospital == AddSupply(AddOccupant(NewLocation(Some("City Hospital"), Some("456 Medical Dr")), Some(JaneSmith)),
                                      Some(FixtureWater))
  {
  }

  /** `populateTestData()`: the fixture, every reference shared with the maps. */
  function PopulateTestData(): (r: Registry)
    ensures r.persons.Keys == {1, 2, 3} && r.locations.Keys == {1, 2} && r.supplies.Keys == {1, 2, 3}
    ensures r.inquiries.Keys == {1} && r.medicalRecords.Keys == {1} && r.familyGroups.Keys == {1}
    ensures forall k | k in r.persons :: r.persons[k].id == k
    ensures forall k | k in r.supplies :: r.supplies[k].id == k
    ensures r.persons[1].kind.Victim? && r.persons[2].kind.Victim? && r.persons[3].kind.InquirerOf?
    ensures r.locations[1].occupants == [r.persons[1]] && r.locations[2].occupants == [r.persons[2]]
    ensures r.locations[1].supplies == [Some(r.supplies[1]), Some(r.supplies[2])]
    ensures r.locations[2].supplies == [Some(r.supplies[3])]
    ensures Members(r.familyGroups[1]) == [r.persons[1], r.persons[2]]
    ensures r.inquiries[1].inquirer == r.persons[3] && r.inquiries[1].seekingId in r.persons
    ensures r.medicalRecords[1].location == Some(r.locations[2])
  {
    Registry(
      map[1 := JohnDoe, 2 := JaneSmith, 3 := BobJohnson],
      map[1 := MainShelter, 2 := CityHospital],
      map[1 := StandardCot, 2 := FixtureBlanket, 3 := FixtureWater],
      map[1 := LookingForJohn],
      map[1 := FirstAid],
      map[1 := FamilyOne])
  }

  /** The fixture's record is one the MedicalRecord constructor accepts. */
  lemma FixtureRecordIsAccepted()
    ensures NewMedicalRecord(Some(CityHospital), Some("First aid treatment"), Some("2025-04-01")) == Success(FirstAid)
  {
    var d := Date(2025, 4, 1);
    assert FormatDate(d) == "2025-04-01";
    ConstructorAcceptsFrom1900(Some(CityHospital), Some("First aid treatment"), d);
  }

  /** The fixture's inquiry is the one the Inquiry constructor builds, with its ids set. */
  lemma FixtureInquiryIsBuilt()
    ensures NewInquiry(Some(BobJohnson), Some("Looking for family member")).Success?
    ensures NewInquiry(Some(BobJohnson), Some("Looking for family member")).value.(id := 1, seekingId := 1)
         == LookingForJohn
  {
  }

  /** A stored person is always found among the stored values: the comparison with
      itself answers before any field is read. */
  lemma StoredIsContained(persons: map<int, Person>, k: int)
    requires k in persons
    ensures ContainsValue(persons, persons[k])
  {
    assert Matches(persons[k], persons[k]);
  }

  /** A registry shaped like the fixture, whose occupants, members and inquirer are the
      stored persons themselves, is consistent. */
  lemma SharedReferencesAreKnown(r: Registry)
    requires r.locations.Keys == {1, 2} && r.familyGroups.Keys == {1} && r.inquiries.Keys == {1}
    requires 1 in r.persons && 2 in r.persons && 3 in r.persons
    requires r.locations[1].occupants == [r.persons[1]] && r.locations[2].occupants == [r.persons[2]]
    requires Members(r.familyGroups[1]) == [r.persons[1], r.persons[2]]
    requires r.inquiries[1].inquirer == r.persons[3] && r.inquiries[1].seekingId in r.persons
    ensures Consistent(r)
  {
    StoredIsContained(r.persons, 1);
    StoredIsContained(r.persons, 2);
    StoredIsContained(r.persons, 3);
  }

  /** Every reference in the fixture is to a stored person. */
  lemma FixtureIsConsistent()
    ensures Consistent(PopulateTestData())
  {
    SharedReferencesAreKnown(PopulateTestData());
  }

  /* ---------------------------------------------------------------------------
   *  Connection life cycle and failure injection
   * ------------------------------------------------------------------------- */

  /** `reset()`: all six maps cleared; the connection state is kept. */
  function Reset(c: MockConnection): (r: MockConnection)
    ensures r.closed == c.closed
    ensures |r.data.persons| == 0 && |r.data.locations| == 0 && |r.data.supplies| == 0
    ensures |r.data.inquiries| == 0 && |r.data.medicalRecords| == 0 && |r.data.familyGroups| == 0
  {
    c.(data := EmptyRegistry)
  }

  /** `getInstance()`: the existing connector unless there is none or it was closed,
      in which case a fresh, open one holding the fixture. */
  function GetInstance(instance: Option<MockConnection>): (r: MockConnection)
    ensures !r.closed
    ensures instance.Some? && !instance.value.closed ==> r == instance.value
    ensures instance.None? || instance.value.closed ==> r.data == PopulateTestData()
  {
    if instance.None? || instance.value.closed then MockConnection(false, PopulateTestData())
    else instance.value
  }

  /** `closeConnection()`: marks the connector closed; the data stay. */
  function CloseConnection(c: MockConnection): (r: MockConnection)
    ensures r.closed && r.data == c.data
  {
    c.(closed := true)
  }

  /** `loadData()`: the fixture is restored only when no person is stored. */
  function LoadData(c: MockConnection): (r: MockConnection)
    ensures r.closed == c.closed
    ensures |c.data.persons| == 0 ==> r.data == PopulateTestData()
    ensures |c.data.persons| != 0 ==> r == c
    ensures |r.data.persons| != 0
  {
    if |c.data.persons| == 0 then c.(data := PopulateTestData()) else c
  }

  /** A second load changes nothing. */
  lemma LoadDataIsIdempotent(c: MockConnection)
    ensures LoadData(LoadData(c)) == LoadData(c)
  {
  }

  /** `simulateFailure(kind)`, the kind compared without regard to case: "connection"
      closes, "data" clears every map, "partial" clears the persons only,
      "exception" throws, anything else does nothing; a null kind throws. */
  function SimulateFailure(c: MockConnection, kind: JStr): (r: Result<MockConnection, Fault>)
    ensures kind.None? ==> r.Failure? && r.error.NullPointer?
    ensures kind.Some? && ToLowerAscii(kind.value) == "exception" ==> r == Failure(SimulatedFailure)
    ensures r.Failure? ==> kind.None? || ToLowerAscii(kind.value) == "exception"
    ensures r.Success? && ToLowerAscii(kind.value) == "connection" ==> r.value == c.(closed := true)
    ensures r.Success? && ToLowerAscii(kind.value) == "data" ==> r.value == c.(data := EmptyRegistry)
    ensures r.Success? && ToLowerAscii(kind.value) == "partial" ==> r.value == c.(data := c.data.(persons := map[]))
    ensures r.Success? && ToLowerAscii(kind.value) !in {"connection", "data", "partial"} ==> r.value == c
  {
    if kind.None? then Failure(NullPointer("toLowerCase on a null failure type"))
    else
      var k := ToLowerAscii(kind.value);
      if k == "connection" then Success(CloseConnection(c))
      else if k == "data" then Success(Reset(c))
      else if k == "partial" then Success(c.(data := c.data.(persons := map[])))
      else if k == "exception" then Failure(SimulatedFailure)
      else Success(c)
  }

  /** The failure kinds, as spelt in the lemmas below, after lower-casing. */
  lemma FailureKindsLowered()
    ensures ToLowerAscii("data") == "data" && ToLowerAscii("partial") == "partial"
    ensures ToLowerAscii("PARTIAL") == "partial" && ToLowerAscii("Connection") == "connection"
  {
    assert ToLowerAscii("data") == "data";
    assert ToLowerAscii("partial") == "partial";
    assert ToLowerAscii("PARTIAL") == "partial";
    assert ToLowerAscii("Connection") == "connection";
  }

  /** After losing its data, wholly or only the persons, a load brings back the full
      fixture; after losing the connection, asking for the instance gives a fresh one
      holding the fixture. */
  lemma LoadRecoversFromFailure(c: MockConnection)
    ensures LoadData(SimulateFailure(c, Some("data")).value).data == PopulateTestData()
    ensures LoadData(SimulateFailure(c, Some("PARTIAL")).value).data == PopulateTestData()
    ensures GetInstance(Some(SimulateFailure(c, Some("Connection")).value)) == MockConnection(false, PopulateTestData())
  {
    FailureKindsLowered();
  }

  /** With no person stored, an occupied location makes the registry inconsistent. */
  lemma OccupantWithoutPersons(r: Registry, l: int)
    requires |r.persons| == 0 && l in r.locations && 0 < |r.locations[l].occupants|
    ensures !Consistent(r)
  {
    assert !ContainsValue(r.persons, r.locations[l].occupants[0]);
  }

  /** Losing only the persons leaves the fixture's occupants dangling. */
  lemma PartialFailureBreaksConsistency()
    ensures !Consistent(SimulateFailure(MockConnection(false, PopulateTestData()), Some("partial")).value.data)
  {
    FailureKindsLowered();
    OccupantWithoutPersons(SimulateFailure(MockConnection(false, PopulateTestData()), Some("partial")).value.data, 1);
  }

  /* ---------------------------------------------------------------------------
   *  validateDataConsistency
   * ------------------------------------------------------------------------- */

  lemma HasElement(s: set<int>)
    requires s != {}
    ensures exists x :: x in s
  {
    if forall x :: x !in s {
      assert false;
    }
  }

  /** The inner scan: every element is a stored person; stops at the first that is not. */
  method AllKnown(persons: map<int, Person>, xs: seq<Person>) returns (all: bool)
    ensures all <==> forall i | 0 <= i < |xs| :: ContainsValue(persons, xs[i])
  {
    all := true;
    var i := 0;
    while i < |xs|
      invariant 0 <= i <= |xs|
      invariant all <==> forall j | 0 <= j < i :: ContainsValue(persons, xs[j])
    {
      if !ContainsValue(persons, xs[i]) {
        all := false;
        break;
      }
      i := i + 1;
    }
  }

  /** The first check: every occupant of every location is stored. */
  method CheckOccupants(reg: Registry) returns (ok: bool)
    ensures ok <==> OccupantsKnown(reg)
  {
    ok := true;
    var pending := reg.locations.Keys;
    while pending != {}
      invariant pending <= reg.locations.Keys
      invariant ok <==> forall l, i | l in reg.locations && l !in pending && 0 <= i < |reg.locations[l].occupants| ::
                          ContainsValue(reg.persons, reg.locations[l].occupants[i])
      decreases pending
    {
      HasElement(pending);
      var l :| l in pending;
      var all := AllKnown(reg.persons, reg.locations[l].occupants);
      ok := ok && all;
      pending := pending - {l};
    }
  }

  /** The second check: every member of every family group is stored. */
  method CheckMembers(reg: Registry) returns (ok: bool)
    ensures ok <==> MembersKnown(reg)
  {
    ok := true;
    var pending := reg.familyGroups.Keys;
    while pending != {}
      invariant pending <= reg.familyGroups.Keys
      invariant ok <==> forall g, i | g in reg.familyGroups && g !in pending && 0 <= i < |Members(reg.familyGroups[g])| ::
                          ContainsValue(reg.persons, Members(reg.familyGroups[g])[i])
      decreases pending
    {
      HasElement(pending);
      var g :| g in pending;
      var all := AllKnown(reg.persons, Members(reg.familyGroups[g]));
      ok := ok && all;
      pending := pending - {g};
    }
  }

  /** The third check: each inquiry's inquirer is stored and a positive seeking id is a
      person key; the scan stops at the first inquiry that fails. */
  method CheckInquiries(reg: Registry) returns (ok: bool)
    ensures ok <==> InquiriesKnown(reg)
  {
    ok := true;
    var pending := reg.inquiries.Keys;
    while pending != {}
      invariant pending <= reg.inquiries.Keys
      invariant ok
      invariant forall q | q in reg.inquiries && q !in pending ::
                  ContainsValue(reg.persons, reg.inquiries[q].inquirer)
                  && (reg.inquiries[q].seekingId > 0 ==> reg.inquiries[q].seekingId in reg.persons)
      decreases pending
    {
      HasElement(pending);
      var q :| q in pending;
      var inquiry := reg.inquiries[q];
      if !ContainsValue(reg.persons, inquiry.inquirer) {
        ok := false;
        break;
      }
      if inquiry.seekingId > 0 && inquiry.seekingId !in reg.persons {
        ok := false;
        break;
      }
      pending := pending - {q};
    }
  }

  /** `validateDataConsistency()`: the three checks, each run in full. */
  method ValidateDataConsistency(reg: Registry) returns (consistent: bool)
    ensures consistent <==> Consistent(reg)
  {
    var occupants := CheckOccupants(reg);
    var members := CheckMembers(reg);
    var inquiries := CheckInquiries(reg);
    consistent := occupants && members && inquiries;
  }

  /* ---------------------------------------------------------------------------
   *  cleanupExpiredWater
   * ------------------------------------------------------------------------- */

  predicate ExpiredWater(s: Supply, now: int) {
    s.kind.WaterItem? && IsExpired(s, now)
  }

  /** `cleanupExpiredWater()`: every water supply that has expired at `now` leaves the
      supplies map; nothing else changes. */
  function MockCleanup(reg: Registry, now: int): (r: Registry)
    ensures forall k | k in reg.supplies :: k in r.supplies <==> !ExpiredWater(reg.supplies[k], now)
    ensures r.supplies.Keys <= reg.supplies.Keys
    ensures forall k | k in r.supplies :: r.supplies[k] == reg.supplies[k]
    ensures r.(supplies := reg.supplies) == reg
  {
    reg.(supplies := map k | k in reg.supplies && !ExpiredWater(reg.supplies[k], now) :: reg.supplies[k])
  }

  /** A second cleanup at the same instant removes nothing more, and a cleanup at a
      later instant removes at least what an earlier one did. */
  lemma MockCleanupSettles(reg: Registry, now: int, later: int)
    requires now <= later
    ensures MockCleanup(MockCleanup(reg, now), now) == MockCleanup(reg, now)
    ensures MockCleanup(reg, later).supplies.Keys <= MockCleanup(reg, now).supplies.Keys
  {
    forall k | k in reg.supplies && reg.supplies[k].kind.WaterItem?
      ensures IsExpired(reg.supplies[k], now) ==> IsExpired(reg.supplies[k], later)
    {
      ExpiryIsMonotone(reg.supplies[k], now, later);
    }
  }

  /** The fixture's water was never allocated, so a cleanup at any instant keeps it. */
  lemma FixtureSurvivesCleanup(now: int)
    ensures MockCleanup(PopulateTestData(), now) == PopulateTestData()
  {
    var r := PopulateTestData();
    assert !ExpiredWater(r.supplies[3], now);
  }
}
