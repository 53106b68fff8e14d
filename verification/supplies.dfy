/*******************************************************************************
 *  Supplies: the generic Supply record and its four specialisations (Cot,
 *  Blanket, PersonalBelonging, Water), with Water's one-day expiry rule.
 *******************************************************************************/

module Supplies {
  import opened Wrappers
  import opened JavaText

  /** Time is a count of seconds; `plusDays(1)` adds one day of them. */
  const Day: int := 86400

  const CotType := "cot"
  const BlanketType := "blanket"
  const PersonalItemType := "personal item"
  const WaterType := "water"

  /** The runtime class of a supply; a Water carries its allocation instant, `None`
      until it is allocated to a person. */
  datatype SupplyKind =
    | General
    | CotItem
    | BlanketItem
    | PersonalItem
    | WaterItem(allocationDate: Option<int>)

  datatype Supply = Supply(id: int, supplyType: JStr, comments: JStr, kind: SupplyKind)

  /** `new Supply(type, id)`. */
  function NewSupply(supplyType: JStr, id: int): (s: Supply)
    ensures s.id == id && s.supplyType == supplyType
    ensures s.comments == None && s.kind == General
  {
    Supply(id, supplyType, None, General)
  }

  /** `new Supply(type)`: the id is left at Java's default of 0. */
  function NewSupplyOfType(supplyType: JStr): (s: Supply)
    ensures s.id == 0 && s.supplyType == supplyType
    ensures s.comments == None && s.kind == General
  {
    Supply(0, supplyType, None, General)
  }

  /** `new Cot(location)`: the room or grid location is kept as the comments. */
  function NewCot(location: JStr): (s: Supply)
    ensures s.supplyType == Some(CotType) && s.comments == location
    ensures s.id == 0 && s.kind == CotItem
  {
    SetComments(NewSupplyOfType(Some(CotType)).(kind := CotItem), location)
  }

  /** `new Blanket()`. */
  function NewBlanket(): (s: Supply)
    ensures s.supplyType == Some(BlanketType) && s.comments == None
    ensures s.id == 0 && s.kind == BlanketItem
  {
    NewSupplyOfType(Some(BlanketType)).(kind := BlanketItem)
  }

  /** `new PersonalBelonging(description)`: the description is kept as the comments. */
  function NewPersonalBelonging(description: JStr): (s: Supply)
    ensures s.supplyType == Some(PersonalItemType) && s.comments == description
    ensures s.id == 0 && s.kind == PersonalItem
  {
    SetComments(NewSupplyOfType(Some(PersonalItemType)).(kind := PersonalItem), description)
  }

  /** `new Water()`: not yet allocated, so without an allocation date. */
  function NewWater(): (s: Supply)
    ensures s.supplyType == Some(WaterType) && s.comments == None
    ensures s.id == 0 && s.kind == WaterItem(None)
  {
    NewSupplyOfType(Some(WaterType)).(kind := WaterItem(None))
  }

  /** `setComments`, which Cot and PersonalBelonging inherit unchanged: any value,
      null and the empty string included, is stored as given and nothing else moves. */
  function SetComments(s: Supply, comments: JStr): (r: Supply)
    ensures r.comments == comments
    ensures r.id == s.id && r.supplyType == s.supplyType && r.kind == s.kind
  {
    s.(comments := comments)
  }

  /** `setId`: no range check, so 0 and negative ids are stored as well. */
  function SetId(s: Supply, id: int): (r: Supply)
    ensures r.id == id
    ensures r.supplyType == s.supplyType && r.comments == s.comments && r.kind == s.kind
  {
    s.(id := id)
  }

  /** `setType`: renames the supply without changing its runtime class. */
  function SetType(s: Supply, supplyType: JStr): (r: Supply)
    ensures r.supplyType == supplyType
    ensures r.id == s.id && r.comments == s.comments && r.kind == s.kind
  {
    s.(supplyType := supplyType)
  }

  /** `Water.isExpired()` at instant `now`: allocated, and `now` is strictly after the
      allocation instant plus one day. */
  function IsExpired(w: Supply, now: int): (r: bool)
    requires w.kind.WaterItem?
    ensures r ==> w.kind.allocationDate.Some?
  {
    match w.kind.allocationDate
    case None => false
    case Some(at) => now > at + Day
  }

  /** Water that has expired stays expired as time goes on, and water that is not
      allocated never expires. */
  lemma ExpiryIsMonotone(w: Supply, now: int, later: int)
    requires w.kind.WaterItem? && now <= later
    ensures IsExpired(w, now) ==> IsExpired(w, later)
    ensures w.kind.allocationDate.None? ==> !IsExpired(w, later)
  {
  }

  /** The one-day boundary: 23 hours after allocation the water is fresh, exactly one
      day after it is still fresh, one second later (and 25 hours later) it has expired. */
  lemma ExpiryBoundary(at: int)
    ensures !IsExpired(NewWater().(kind := WaterItem(Some(at))), at + 23 * 3600)
    ensures !IsExpired(NewWater().(kind := WaterItem(Some(at))), at + Day)
    ensures IsExpired(NewWater().(kind := WaterItem(Some(at))), at + Day + 1)
    ensures IsExpired(NewWater().(kind := WaterItem(Some(at))), at + 25 * 3600)
  {
  }
}
