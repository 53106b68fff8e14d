/*******************************************************************************
 *  The in-memory registry: six id-keyed maps shared by the loader, the mock
 *  connector and the victim operations. Relocation, regrouping and the
 *  in-memory effects of registering a new victim act on it.
 *******************************************************************************/

module Registry {
  import opened Wrappers
  import opened JavaText
  import opened Persons
  import opened Locations
  import opened Inquiries
  import Supplies
  import MedicalRecords

  datatype Registry = Registry(
    persons: map<int, Person>,
    locations: map<int, Location>,
    supplies: map<int, Supplies.Supply>,
    inquiries: map<int, Inquiry>,
    medicalRecords: map<int, MedicalRecords.MedicalRecord>,
    familyGroups: map<int, FamilyGroup>)

  /** All six maps cleared. */
  const EmptyRegistry := Registry(map[], map[], map[], map[], map[], map[])

  /** The group created on the first reference to group id `k`: contact "Group",
      last name the decimal id, no phone. */
  function PlaceholderGroup(k: int): (g: FamilyGroup)
    ensures g.firstName == Some("Group") && g.lastName == Some(IntToString(k)) && g.phoneNumber == None
    ensures FamilySize(g) == 0 && g.id == 0
  {
    NewFamilyGroup(Some("Group"), Some(IntToString(k)), None)
  }

  /** `groups.computeIfAbsent(k, placeholder)`. */
  function GroupOrPlaceholder(groups: map<int, FamilyGroup>, k: int): (g: FamilyGroup)
    ensures k in groups ==> g == groups[k]
    ensures k !in groups ==> g == PlaceholderGroup(k)
  {
    if k in groups then groups[k] else PlaceholderGroup(k)
  }

  /** `computeIfAbsent(k, placeholder).addFamilyMember(member)`. */
  function JoinGroup(groups: map<int, FamilyGroup>, k: int, member: Person): (r: map<int, FamilyGroup>)
    ensures r.Keys == groups.Keys + {k}
    ensures Members(r[k]) == Members(GroupOrPlaceholder(groups, k)) + [member]
    ensures forall j | j in groups && j != k :: r[j] == groups[j]
  {
    groups[k := AddFamilyMember(GroupOrPlaceholder(groups, k), Some(member))]
  }

  /* ---------------------------------------------------------------------------
   *  Referential integrity
   * ------------------------------------------------------------------------- */

  /** `persons.containsValue(x)`: some stored person is one `x` declares equal. */
  predicate ContainsValue(persons: map<int, Person>, x: Person) {
    exists k | k in persons :: Matches(x, persons[k])
  }

  predicate OccupantsKnown(reg: Registry) {
    forall l, i | l in reg.locations && 0 <= i < |reg.locations[l].occupants| ::
      ContainsValue(reg.persons, reg.locations[l].occupants[i])
  }

  predicate MembersKnown(reg: Registry) {
    forall g, i | g in reg.familyGroups && 0 <= i < |Members(reg.familyGroups[g])| ::
      ContainsValue(reg.persons, Members(reg.familyGroups[g])[i])
  }

  /** Every inquirer is a stored person, and a positive seeking id is a person key;
      a seeking id of 0 or below means "nobody in particular". */
  predicate InquiriesKnown(reg: Registry) {
    forall q | q in reg.inquiries ::
      ContainsValue(reg.persons, reg.inquiries[q].inquirer)
      && (reg.inquiries[q].seekingId > 0 ==> reg.inquiries[q].seekingId in reg.persons)
  }

  /** The object graph refers only to stored persons. */
  predicate Consistent(reg: Registry) {
    OccupantsKnown(reg) && MembersKnown(reg) && InquiriesKnown(reg)
  }

  /* ---------------------------------------------------------------------------
   *  Moving a victim between locations and groups
   * ------------------------------------------------------------------------- */

  /** Every location after `location.removeOccupant(v)`, or `None` when some
      comparison throws. */
  function RemoveFromAllLocations(locs: map<int, Location>, v: DisasterVictim): (r: Option<map<int, Location>>)
    ensures r.Some? <==> forall k | k in locs :: RemoveOccupant(locs[k], Some(v)).Success?
    ensures r.Some? ==> r.value.Keys == locs.Keys
    ensures r.Some? ==> forall k | k in locs :: r.value[k] == RemoveOccupant(locs[k], Some(v)).value
  {
    if forall k | k in locs :: RemoveOccupant(locs[k], Some(v)).Success? then
      Some(map k | k in locs :: RemoveOccupant(locs[k], Some(v)).value)
    else None
  }

  /** `updateLocation`: a selection of 0 changes nothing; otherwise one equal occurrence
      of the victim leaves every location and the victim is appended to the chosen one.
      A throwing comparison or an unknown target ends in an exception. */
  function Relocate(reg: Registry, v: DisasterVictim, locationId: int): (r: Result<Registry, Fault>)
    ensures locationId == 0 ==> r == Success(reg)
    ensures locationId != 0 && r.Success? ==>
      locationId in reg.locations && r.value.locations.Keys == reg.locations.Keys
      && (forall k | k in reg.locations ::
            RemoveFirstMatch(reg.locations[k].occupants, v).Success?
            && r.value.locations[k].occupants
               == RemoveFirstMatch(reg.locations[k].occupants, v).value + (if k == locationId then [v] else [])
            && r.value.locations[k].supplies == reg.locations[k].supplies)
    ensures r.Success? ==> r.value.(locations := reg.locations) == reg
    ensures locationId != 0 ==>
      (r.Success? <==> (locationId in reg.locations
                        && forall k | k in reg.locations :: RemoveFirstMatch(reg.locations[k].occupants, v).Success?))
  {
    if locationId == 0 then Success(reg)
    else
      match RemoveFromAllLocations(reg.locations, v)
      case None => Failure(NullName)
      case Some(cleared) =>
        if locationId !in cleared then Failure(NullPointer("no location with that id"))
        else Success(reg.(locations := cleared[locationId := AddOccupant(cleared[locationId], Some(v))]))
  }

  /** Every group after `group.removeFamilyMember(v)`, or `None` when some comparison
      throws. */
  function RemoveFromAllGroups(groups: map<int, FamilyGroup>, v: Person): (r: Option<map<int, FamilyGroup>>)
    ensures r.Some? <==> forall k | k in groups :: RemoveFamilyMember(groups[k], Some(v)).Success?
    ensures r.Some? ==> r.value.Keys == groups.Keys
    ensures r.Some? ==> forall k | k in groups :: r.value[k] == RemoveFamilyMember(groups[k], Some(v)).value
  {
    if forall k | k in groups :: RemoveFamilyMember(groups[k], Some(v)).Success? then
      Some(map k | k in groups :: RemoveFamilyMember(groups[k], Some(v)).value)
    else None
  }

  /** `updateFamilyGroup`: a selection of 0 changes nothing; otherwise one equal
      occurrence leaves every group and the victim is appended to the chosen one. */
  function Regroup(reg: Registry, v: DisasterVictim, groupId: int): (r: Result<Registry, Fault>)
    ensures groupId == 0 ==> r == Success(reg)
    ensures groupId != 0 && r.Success? ==>
      groupId in reg.familyGroups && r.value.familyGroups.Keys == reg.familyGroups.Keys
      && (forall k | k in reg.familyGroups ::
            RemoveFirstMatch(Members(reg.familyGroups[k]), v).Success?
            && Members(r.value.familyGroups[k])
               == RemoveFirstMatch(Members(reg.familyGroups[k]), v).value + (if k == groupId then [v] else []))
    ensures r.Success? ==> r.value.(familyGroups := reg.familyGroups) == reg
    ensures groupId != 0 ==>
      (r.Success? <==> (groupId in reg.familyGroups
                        && forall k | k in reg.familyGroups :: RemoveFirstMatch(Members(reg.familyGroups[k]), v).Success?))
  {
    if groupId == 0 then Success(reg)
    else
      match RemoveFromAllGroups(reg.familyGroups, v)
      case None => Failure(NullName)
      case Some(cleared) =>
        if groupId !in cleared then Failure(NullPointer("no family group with that id"))
        else Success(reg.(familyGroups := cleared[groupId := AddFamilyMember(cleared[groupId], Some(v))]))
  }

  lemma {:induction false} CountMatchesAppend(xs: seq<Person>, x: Person, y: Person)
    ensures CountMatches(xs + [y], x) == CountMatches(xs, x) + (if Matches(x, y) then 1 else 0)
    decreases |xs|
  {
    if |xs| == 0 {
      assert ([] + [y])[1..] == [];
    } else {
      assert (xs + [y])[1..] == xs[1..] + [y];
      CountMatchesAppend(xs[1..], x, y);
    }
  }

  /** One list of a relocation: after removing `v` (held at most once) and appending
      it to the target only, `v` is held once there and nowhere else. */
  lemma MoveWithinList(xs: seq<Person>, v: Person, target: bool)
    requires HasNames(v) && CountMatches(xs, v) <= 1
    ensures RemoveFirstMatch(xs, v).Success?
    ensures CountMatches(RemoveFirstMatch(xs, v).value + (if target then [v] else []), v) == if target then 1 else 0
  {
    RemoveFirstMatchCount(xs, v);
    if target {
      CountMatchesAppend(RemoveFirstMatch(xs, v).value, v, v);
    } else {
      assert RemoveFirstMatch(xs, v).value + [] == RemoveFirstMatch(xs, v).value;
    }
  }

  /** A victim with names, held at most once per location, ends up held exactly once,
      in the chosen location, after a relocation. */
  lemma RelocateMoves(reg: Registry, v: DisasterVictim, locationId: int)
    requires HasNames(v) && locationId != 0 && locationId in reg.locations
    requires forall k | k in reg.locations :: CountMatches(reg.locations[k].occupants, v) <= 1
    ensures Relocate(reg, v, locationId).Success?
    ensures var after := Relocate(reg, v, locationId).value.locations;
      forall k | k in after :: CountMatches(after[k].occupants, v) == if k == locationId then 1 else 0
  {
    forall k | k in reg.locations
      ensures RemoveFirstMatch(reg.locations[k].occupants, v).Success?
      ensures CountMatches(RemoveFirstMatch(reg.locations[k].occupants, v).value + (if k == locationId then [v] else []), v)
              == if k == locationId then 1 else 0
    {
      MoveWithinList(reg.locations[k].occupants, v, k == locationId);
    }
  }

  /** The same for family groups. */
  lemma RegroupMoves(reg: Registry, v: DisasterVictim, groupId: int)
    requires HasNames(v) && groupId != 0 && groupId in reg.familyGroups
    requires forall k | k in reg.familyGroups :: CountMatches(Members(reg.familyGroups[k]), v) <= 1
    ensures Regroup(reg, v, groupId).Success?
    ensures var after := Regroup(reg, v, groupId).value.familyGroups;
      forall k | k in after :: CountMatches(Members(after[k]), v) == if k == groupId then 1 else 0
  {
    forall k | k in reg.familyGroups
      ensures RemoveFirstMatch(Members(reg.familyGroups[k]), v).Success?
      ensures CountMatches(RemoveFirstMatch(Members(reg.familyGroups[k]), v).value + (if k == groupId then [v] else []), v)
              == if k == groupId then 1 else 0
    {
      MoveWithinList(Members(reg.familyGroups[k]), v, k == groupId);
    }
  }

  /* ---------------------------------------------------------------------------
   *  Registering a new victim
   * ------------------------------------------------------------------------- */

  /** The in-memory effects of `addDisasterVictim` once the inputs are collected and
      the database has returned `personId`: the victim (disaster type "Unknown", with
      date of birth and gender) is stored under that id and appended to the chosen
      location; a nonzero group id appends it to that group, created as a placeholder
      when absent. A location selection of 0 (retries exhausted) returns before the
      database is touched and changes nothing. An unknown nonzero location ends in an
      exception; the location dialogue only ever returns a known id or 0, so that
      branch is out of the dialogue's reach. */
  function RegisterVictim(reg: Registry, firstName: JStr, lastName: JStr, phone: JStr, dateOfBirth: JStr,
                          gender: JStr, personId: int, locationId: int, familyGroupId: int): (r: Result<Registry, Fault>)
    ensures locationId == 0 ==> r == Success(reg)
    ensures locationId != 0 ==> (r.Success? <==> locationId in reg.locations)
    ensures locationId != 0 && r.Success? ==> personId in r.value.persons
    ensures locationId != 0 && r.Success? ==>
      var v := r.value.persons[personId];
      && v.kind == Victim(Some("Unknown")) && v.id == personId
      && v.firstName == firstName && v.lastName == lastName && v.phoneNumber == phone
      && v.dateOfBirth == dateOfBirth && v.gender == gender && v.allocatedSupplies == []
      && r.value.persons == reg.persons[personId := v]
      && r.value.locations == reg.locations[locationId := AddOccupant(reg.locations[locationId], Some(v))]
      && r.value.familyGroups == (if familyGroupId == 0 then reg.familyGroups else JoinGroup(reg.familyGroups, familyGroupId, v))
      && r.value.supplies == reg.supplies && r.value.inquiries == reg.inquiries
      && r.value.medicalRecords == reg.medicalRecords
  {
    var built := NewVictim(firstName, lastName, phone, Some("Unknown"));
    var v: DisasterVictim := built.(dateOfBirth := dateOfBirth, gender := gender, id := personId);
    if locationId == 0 then Success(reg)
    else if locationId !in reg.locations then Failure(NullPointer("no location with that id"))
    else
      var groups := if familyGroupId == 0 then reg.familyGroups else JoinGroup(reg.familyGroups, familyGroupId, v);
      Success(reg.(persons := reg.persons[personId := v],
                   locations := reg.locations[locationId := AddOccupant(reg.locations[locationId], Some(v))],
                   familyGroups := groups))
  }

  /** Storing a person under a fresh key keeps every stored person stored. */
  lemma FreshKeyKeepsValues(persons: map<int, Person>, k: int, p: Person, x: Person)
    requires k !in persons && ContainsValue(persons, x)
    ensures ContainsValue(persons[k := p], x)
  {
    var j :| j in persons && Matches(x, persons[j]);
    assert persons[k := p][j] == persons[j];
  }

  /** Appending a known person to a group, perhaps a fresh placeholder, keeps the
      group's members known. */
  lemma JoinGroupKeepsKnown(groups: map<int, FamilyGroup>, persons: map<int, Person>, k: int, v: Person)
    requires forall g, i | g in groups && 0 <= i < |Members(groups[g])| :: ContainsValue(persons, Members(groups[g])[i])
    requires ContainsValue(persons, v)
    ensures var after := JoinGroup(groups, k, v);
      forall g, i | g in after && 0 <= i < |Members(after[g])| :: ContainsValue(persons, Members(after[g])[i])
  {
    var after := JoinGroup(groups, k, v);
    var before := Members(GroupOrPlaceholder(groups, k));
    assert forall i | 0 <= i < |before| :: ContainsValue(persons, before[i]);
    assert Members(after[k]) == before + [v];
  }

  /** Under a fresh person id, registration keeps the registry consistent. */
  lemma RegisterVictimKeepsConsistency(reg: Registry, firstName: JStr, lastName: JStr, phone: JStr, dateOfBirth: JStr,
                                       gender: JStr, personId: int, locationId: int, familyGroupId: int)
    requires Consistent(reg) && personId !in reg.persons && locationId in reg.locations
    ensures Consistent(RegisterVictim(reg, firstName, lastName, phone, dateOfBirth, gender, personId, locationId, familyGroupId).value)
  {
    if locationId == 0 {
      return;
    }
    var after := RegisterVictim(reg, firstName, lastName, phone, dateOfBirth, gender, personId, locationId, familyGroupId).value;
    var v := after.persons[personId];
    assert Matches(v, after.persons[personId]);
    forall x | ContainsValue(reg.persons, x) ensures ContainsValue(after.persons, x) {
      FreshKeyKeepsValues(reg.persons, personId, v, x);
    }
    assert OccupantsKnown(after) by {
      forall l, i | l in after.locations && 0 <= i < |after.locations[l].occupants|
        ensures ContainsValue(after.persons, after.locations[l].occupants[i])
      {
        if l == locationId && i == |reg.locations[l].occupants| {
          assert after.locations[l].occupants[i] == v;
        } else {
          assert after.locations[l].occupants[i] == reg.locations[l].occupants[i];
        }
      }
    }
    assert MembersKnown(after) by {
      if familyGroupId != 0 {
        JoinGroupKeepsKnown(reg.familyGroups, after.persons, familyGroupId, v);
      }
    }
  }

  /** Whatever survives a removal was in the list before. */
  lemma RemovalKeepsKnown(persons: map<int, Person>, xs: seq<Person>, v: Person)
    requires forall i | 0 <= i < |xs| :: ContainsValue(persons, xs[i])
    requires RemoveFirstMatch(xs, v).Success?
    ensures var kept := RemoveFirstMatch(xs, v).value; forall i | 0 <= i < |kept| :: ContainsValue(persons, kept[i])
  {
    var kept := RemoveFirstMatch(xs, v).value;
    forall i | 0 <= i < |kept| ensures ContainsValue(persons, kept[i]) {
      assert kept[i] in multiset(kept);
      assert kept[i] in multiset(xs);
      var j :| 0 <= j < |xs| && xs[j] == kept[i];
    }
  }

  /** A relocation keeps the registry consistent when the victim is a stored person. */
  lemma RelocateKeepsConsistency(reg: Registry, v: DisasterVictim, locationId: int)
    requires Consistent(reg) && ContainsValue(reg.persons, v) && Relocate(reg, v, locationId).Success?
    ensures Consistent(Relocate(reg, v, locationId).value)
  {
    var after := Relocate(reg, v, locationId).value;
    if locationId != 0 {
      forall l | l in after.locations
        ensures forall i | 0 <= i < |after.locations[l].occupants| :: ContainsValue(after.persons, after.locations[l].occupants[i])
      {
        var kept := RemoveFirstMatch(reg.locations[l].occupants, v).value;
        RemovalKeepsKnown(reg.persons, reg.locations[l].occupants, v);
        assert after.locations[l].occupants == kept + (if l == locationId then [v] else []);
      }
    }
  }

  /** Moving a stored victim between family groups keeps the registry consistent. */
  lemma RegroupKeepsConsistency(reg: Registry, v: DisasterVictim, groupId: int)
    requires Consistent(reg) && ContainsValue(reg.persons, v) && Regroup(reg, v, groupId).Success?
    ensures Consistent(Regroup(reg, v, groupId).value)
  {
    var after := Regroup(reg, v, groupId).value;
    if groupId != 0 {
      forall g | g in after.familyGroups
        ensures forall i | 0 <= i < |Members(after.familyGroups[g])| :: ContainsValue(after.persons, Members(after.familyGroups[g])[i])
      {
        var kept := RemoveFirstMatch(Members(reg.familyGroups[g]), v).value;
        RemovalKeepsKnown(reg.persons, Members(reg.familyGroups[g]), v);
        assert Members(after.familyGroups[g]) == kept + (if g == groupId then [v] else []);
      }
    }
  }
}
