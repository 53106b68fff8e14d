/*******************************************************************************
 *  Locations: a shelter or hospital with its occupant list (victims only, null
 *  refused) and its supply list (no null guard).
 *******************************************************************************/

module Locations {
  import opened Wrappers
  import opened JavaText
  import opened Persons
  import Supplies

  datatype Location = Location(
    name: JStr,
    address: JStr,
    occupants: seq<DisasterVictim>,
    supplies: seq<Option<Supplies.Supply>>)

  /** `new Location(name, address)`: no occupants and no supplies yet. */
  function NewLocation(name: JStr, address: JStr): (loc: Location)
    ensures loc.name == name && loc.address == address
    ensures loc.occupants == [] && loc.supplies == []
  {
    Location(name, address, [], [])
  }

  /** `setName`. */
  function SetName(loc: Location, name: JStr): (r: Location)
    ensures r.name == name && r.(name := loc.name) == loc
  {
    loc.(name := name)
  }

  /** `setAddress`. */
  function SetAddress(loc: Location, address: JStr): (r: Location)
    ensures r.address == address && r.(address := loc.address) == loc
  {
    loc.(address := address)
  }

  /** `setOccupants(list)`: a copy of the list is stored; copying a null list throws. */
  function SetOccupants(loc: Location, occupants: Option<seq<DisasterVictim>>): (r: Result<Location, Fault>)
    ensures r.Success? <==> occupants.Some?
    ensures r.Failure? ==> r.error.NullPointer?
    ensures r.Success? ==> r.value.occupants == occupants.value && r.value.(occupants := loc.occupants) == loc
  {
    match occupants
    case None => Failure(NullPointer("copying a null occupant list"))
    case Some(xs) => Success(loc.(occupants := xs))
  }

  /** `setSupplies(list)`: a copy of the list is stored; copying a null list throws. */
  function SetSupplies(loc: Location, supplies: Option<seq<Option<Supplies.Supply>>>): (r: Result<Location, Fault>)
    ensures r.Success? <==> supplies.Some?
    ensures r.Failure? ==> r.error.NullPointer?
    ensures r.Success? ==> r.value.supplies == supplies.value && r.value.(supplies := loc.supplies) == loc
  {
    match supplies
    case None => Failure(NullPointer("copying a null supply list"))
    case Some(xs) => Success(loc.(supplies := xs))
  }

  /** `addOccupant(v)`: a null victim is refused and leaves the location unchanged;
      any other victim is appended, even one already present. */
  function AddOccupant(loc: Location, v: Option<DisasterVictim>): (r: Location)
    ensures v.None? ==> r == loc
    ensures v.Some? ==> r.occupants == loc.occupants + [v.value]
    ensures r.name == loc.name && r.address == loc.address && r.supplies == loc.supplies
  {
    match v
    case None => loc
    case Some(victim) => loc.(occupants := loc.occupants + [victim])
  }

  /** `removeOccupant(v)`: `ArrayList.remove` with `Person.equals`. Occupants here are
      never null (`addOccupant` skips null), so removing null changes nothing. The
      supplies are never touched. */
  function RemoveOccupant(loc: Location, v: Option<DisasterVictim>): (r: Result<Location, Fault>)
    ensures v.None? ==> r == Success(loc)
    ensures v.Some? ==> r.Success? == RemoveFirstMatch(loc.occupants, v.value).Success?
    ensures v.Some? && r.Success? ==> r.value.occupants == RemoveFirstMatch(loc.occupants, v.value).value
    ensures r.Success? ==> r.value.name == loc.name && r.value.address == loc.address && r.value.supplies == loc.supplies
  {
    match v
    case None => Success(loc)
    case Some(victim) =>
      var rest :- RemoveFirstMatch(loc.occupants, victim);
      assert forall i | 0 <= i < |rest| :: rest[i].kind.Victim? by {
        forall i | 0 <= i < |rest| ensures rest[i].kind.Victim? {
          assert rest[i] in multiset(rest);
          assert rest[i] in loc.occupants;
        }
      }
      var victims: seq<DisasterVictim> := rest;
      Success(loc.(occupants := victims))
  }

  /** `addSupply(s)`: appended as given; unlike `addOccupant`, `null` is accepted. */
  function AddSupply(loc: Location, s: Option<Supplies.Supply>): (r: Location)
    ensures r.supplies == loc.supplies + [s]
    ensures r.name == loc.name && r.address == loc.address && r.occupants == loc.occupants
  {
    loc.(supplies := loc.supplies + [s])
  }

  /** Index of the first occurrence of `x`. */
  function IndexOf<T(==)>(xs: seq<T>, x: T): (i: nat)
    requires x in xs
    ensures i < |xs| && xs[i] == x && x !in xs[..i]
  {
    if xs[0] == x then 0
    else
      var j := IndexOf(xs[1..], x);
      assert xs[..j + 1] == [xs[0]] + xs[1..][..j];
      j + 1
  }

  /** `list.remove(x)` where equality is the element's identity: the first occurrence
      is removed, and nothing else moves. */
  function RemoveFirst<T(==)>(xs: seq<T>, x: T): (r: seq<T>)
    ensures x !in xs ==> r == xs
    ensures x in xs ==> r == xs[..IndexOf(xs, x)] + xs[IndexOf(xs, x) + 1..]
    ensures multiset(r) == multiset(xs) - multiset{x}
  {
    if x !in xs then xs
    else
      var i := IndexOf(xs, x);
      assert xs == xs[..i] + [x] + xs[i + 1..];
      xs[..i] + xs[i + 1..]
  }

  /** `removeSupply(s)`: Supply does not override `equals`, so the first entry that is
      the same object (or the first `null`, for `null`) is removed. */
  function RemoveSupply(loc: Location, s: Option<Supplies.Supply>): (r: Location)
    ensures multiset(r.supplies) == multiset(loc.supplies) - multiset{s}
    ensures s !in loc.supplies ==> r == loc
    ensures r.name == loc.name && r.address == loc.address && r.occupants == loc.occupants
  {
    loc.(supplies := RemoveFirst(loc.supplies, s))
  }

  lemma {:induction false} CountMatchesZero(xs: seq<Person>, x: Person)
    ensures CountMatches(xs, x) == 0 <==> forall i | 0 <= i < |xs| :: !Matches(x, xs[i])
    decreases |xs|
  {
    if 0 < |xs| {
      CountMatchesZero(xs[1..], x);
      assert forall i | 1 <= i < |xs| :: xs[i] == xs[1..][i - 1];
    }
  }

  /** Adding a victim the location does not hold yet and removing it again restores the
      location. */
  lemma AddThenRemoveOccupant(loc: Location, v: DisasterVictim)
    requires HasNames(v) && CountMatches(loc.occupants, v) == 0
    ensures RemoveOccupant(AddOccupant(loc, Some(v)), Some(v)) == Success(loc)
  {
    var xs := AddOccupant(loc, Some(v)).occupants;
    CountMatchesZero(loc.occupants, v);
    assert PassesBefore(xs, v, |loc.occupants|) by {
      forall j | 0 <= j < |loc.occupants| ensures Equals(v, Some(xs[j])) == Success(false) {
        assert xs[j] == loc.occupants[j];
      }
    }
    RemoveFirstMatchDropsFirst(xs, v, |loc.occupants|);
    assert xs[..|loc.occupants|] + xs[|loc.occupants| + 1..] == loc.occupants;
  }

  /** Adding a supply the location does not hold yet and removing it again restores
      the location. */
  lemma AddThenRemoveSupply(loc: Location, s: Option<Supplies.Supply>)
    requires s !in loc.supplies
    ensures RemoveSupply(AddSupply(loc, s), s) == loc
  {
    var xs := loc.supplies + [s];
    assert IndexOf(xs, s) == |loc.supplies|;
    assert xs[..|loc.supplies|] + xs[|loc.supplies| + 1..] == loc.supplies;
  }

  /** The occupant list and the supply list are independent: adding to one and then
      the other gives the same location in either order, and replacing the occupants
      leaves a later supply addition unaffected. */
  lemma OccupantsAndSuppliesIndependent(loc: Location, v: Option<DisasterVictim>, s: Option<Supplies.Supply>,
                                        xs: seq<DisasterVictim>)
    ensures AddSupply(AddOccupant(loc, v), s) == AddOccupant(AddSupply(loc, s), v)
    ensures SetOccupants(AddSupply(loc, s), Some(xs)) == Success(AddSupply(SetOccupants(loc, Some(xs)).value, s))
  {
  }
}
