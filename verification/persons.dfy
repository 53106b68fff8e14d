/*******************************************************************************
 *  Persons: the Person base record and its three subclasses (DisasterVictim,
 *  Inquirer, FamilyGroup), Person.equals, the toString renderings, and the
 *  ArrayList.remove(Object) that the occupant and member lists rely on.
 *******************************************************************************/

module Persons {
  import opened Wrappers
  import opened JavaText
  import Supplies

  /** The runtime class of a person together with the fields that class adds. */
  datatype PersonKind =
    | Plain
    | Victim(disasterType: JStr)
    | InquirerOf(inquiryMessage: JStr, isVictim: bool)
    | Group(members: seq<Person>)

  /** The fields every Person has; `allocatedSupplies` may hold `null` entries
      because `addAllocatedSupply` does not guard against them. */
  datatype Person = Person(
    id: int,
    firstName: JStr,
    lastName: JStr,
    phoneNumber: JStr,
    gender: JStr,
    dateOfBirth: JStr,
    allocatedSupplies: seq<Option<Supplies.Supply>>,
    kind: PersonKind)

  type DisasterVictim = p: Person | p.kind.Victim?
    witness Person(0, None, None, None, None, None, [], Victim(None))

  type Inquirer = p: Person | p.kind.InquirerOf?
    witness Person(0, None, None, None, None, None, [], InquirerOf(None, false))

  type FamilyGroup = p: Person | p.kind.Group?
    witness Person(0, None, None, None, None, None, [], Group([]))

  /** What every constructor that takes names leaves behind: id 0, no gender, no
      date of birth, no supplies. */
  predicate FreshlyBuilt(p: Person, firstName: JStr, lastName: JStr, phoneNumber: JStr) {
    p.id == 0 && p.firstName == firstName && p.lastName == lastName && p.phoneNumber == phoneNumber
    && p.gender == None && p.dateOfBirth == None && p.allocatedSupplies == []
  }

  /** `new Person(firstName, lastName, phoneNumber)`. */
  function NewPerson(firstName: JStr, lastName: JStr, phoneNumber: JStr): (p: Person)
    ensures FreshlyBuilt(p, firstName, lastName, phoneNumber) && p.kind == Plain
  {
    Person(0, firstName, lastName, phoneNumber, None, None, [], Plain)
  }

  /** `new DisasterVictim(firstName, lastName, phoneNumber, disasterType)`. */
  function NewVictim(firstName: JStr, lastName: JStr, phoneNumber: JStr, disasterType: JStr): (v: DisasterVictim)
    ensures FreshlyBuilt(v, firstName, lastName, phoneNumber) && v.kind.disasterType == disasterType
  {
    NewPerson(firstName, lastName, phoneNumber).(kind := Victim(disasterType))
  }

  /** `new Inquirer(firstName, lastName, phoneNumber, inquiryMessage, isVictim)`. */
  function NewInquirer(firstName: JStr, lastName: JStr, phoneNumber: JStr, inquiryMessage: JStr, isVictim: bool): (q: Inquirer)
    ensures FreshlyBuilt(q, firstName, lastName, phoneNumber)
    ensures q.kind.inquiryMessage == inquiryMessage && q.kind.isVictim == isVictim
  {
    NewPerson(firstName, lastName, phoneNumber).(kind := InquirerOf(inquiryMessage, isVictim))
  }

  /** `new FamilyGroup(firstName, lastName, phoneNumber)`: a group with no members. */
  function NewFamilyGroup(firstName: JStr, lastName: JStr, phoneNumber: JStr): (g: FamilyGroup)
    ensures FreshlyBuilt(g, firstName, lastName, phoneNumber) && FamilySize(g) == 0
  {
    NewPerson(firstName, lastName, phoneNumber).(kind := Group([]))
  }

  /* ---------------------------------------------------------------------------
   *  Setters: each stores its argument as given and touches no other field
   * ------------------------------------------------------------------------- */

  function SetPersonId(p: Person, id: int): (r: Person)
    ensures r.id == id && r.(id := p.id) == p
  {
    p.(id := id)
  }

  function SetFirstName(p: Person, firstName: JStr): (r: Person)
    ensures r.firstName == firstName && r.(firstName := p.firstName) == p
  {
    p.(firstName := firstName)
  }

  function SetLastName(p: Person, lastName: JStr): (r: Person)
    ensures r.lastName == lastName && r.(lastName := p.lastName) == p
  {
    p.(lastName := lastName)
  }

  function SetPhoneNumber(p: Person, phoneNumber: JStr): (r: Person)
    ensures r.phoneNumber == phoneNumber && r.(phoneNumber := p.phoneNumber) == p
  {
    p.(phoneNumber := phoneNumber)
  }

  /** `setGender`: no check against a list of genders. */
  function SetGender(p: Person, gender: JStr): (r: Person)
    ensures r.gender == gender && r.(gender := p.gender) == p
  {
    p.(gender := gender)
  }

  /** `setDateOfBirth`: no check of the date's format. */
  function SetDateOfBirth(p: Person, dateOfBirth: JStr): (r: Person)
    ensures r.dateOfBirth == dateOfBirth && r.(dateOfBirth := p.dateOfBirth) == p
  {
    p.(dateOfBirth := dateOfBirth)
  }

  /** `DisasterVictim.setDisasterType`. */
  function SetDisasterType(v: DisasterVictim, disasterType: JStr): (r: DisasterVictim)
    ensures r.kind.disasterType == disasterType && r.(kind := v.kind) == v
  {
    v.(kind := Victim(disasterType))
  }

  /* ---------------------------------------------------------------------------
   *  Names and renderings
   * ------------------------------------------------------------------------- */

  /** `getFullName()`: first name, one space, last name; a null part reads "null". */
  function FullName(p: Person): (r: string)
    ensures |r| == |Show(p.firstName)| + 1 + |Show(p.lastName)|
  {
    Show(p.firstName) + " " + Show(p.lastName)
  }

  /** Splits a text at its first space; the space itself is dropped. */
  function SplitAtFirstSpace(s: string): (string, string) {
    if |s| == 0 then ("", "")
    else if s[0] == ' ' then ("", s[1..])
    else var (head, tail) := SplitAtFirstSpace(s[1..]); ([s[0]] + head, tail)
  }

  lemma {:induction false} SplitAfterSpaceFreePrefix(a: string, b: string)
    requires ' ' !in a
    ensures SplitAtFirstSpace(a + " " + b) == (a, b)
  {
    if |a| == 0 {
      assert a + " " + b == [' '] + b;
    } else {
      assert (a + " " + b)[1..] == a[1..] + " " + b;
      SplitAfterSpaceFreePrefix(a[1..], b);
      assert [a[0]] + a[1..] == a;
    }
  }

  /** When the first name has no space, the full name splits back into the two names. */
  lemma FullNameSplitsBack(p: Person)
    requires ' ' !in Show(p.firstName)
    ensures SplitAtFirstSpace(FullName(p)) == (Show(p.firstName), Show(p.lastName))
  {
    SplitAfterSpaceFreePrefix(Show(p.firstName), Show(p.lastName));
  }

  /** `String.join(", ", parts)`, as `ArrayList.toString` separates its elements. */
  function JoinWithCommas(parts: seq<string>): string {
    if |parts| == 0 then ""
    else if |parts| == 1 then parts[0]
    else parts[0] + ", " + JoinWithCommas(parts[1..])
  }

  function Quoted(field: string, value: JStr): string {
    field + "='" + Show(value) + "'"
  }

  const PersonPrefix := "Person{id="
  const VictimPrefix := "DisasterVictim{"
  const InquirerPrefix := "Inquirer [ID="
  const GroupPrefix := "FamilyGroup{"

  /** `toString()` of each runtime class (Person, DisasterVictim, Inquirer, FamilyGroup). */
  function ToString(p: Person): (r: string)
    ensures StartsWith(r, ClassPrefix(p.kind))
    decreases p, 1
  {
    match p.kind
    case Plain => PersonPrefix + (IntToString(p.id) + PlainTail(p))
    case Victim(_) => VictimPrefix + VictimTail(p)
    case InquirerOf(_, _) => InquirerPrefix + (IntToString(p.id) + InquirerTail(p))
    case Group(_) => GroupPrefix + GroupTail(p)
  }

  /** `FamilyGroup.toString()` prints the member list as `ArrayList.toString` does. */
  function GroupTail(g: Person): string
    requires g.kind.Group?
    decreases g, 0
  {
    var ms := g.kind.members;
    "familyMembers=[" + JoinWithCommas(seq(|ms|, i requires 0 <= i < |ms| => ToString(ms[i]))) + "]" + NamesTail(g)
  }

  function NamesTail(p: Person): string {
    ", " + Quoted("firstName", p.firstName) + ", " + Quoted("lastName", p.lastName) + ", "
    + Quoted("phoneNumber", p.phoneNumber) + "}"
  }

  function PlainTail(p: Person): string {
    ", " + Quoted("firstName", p.firstName) + ", " + Quoted("lastName", p.lastName) + ", "
    + Quoted("phoneNumber", p.phoneNumber) + ", " + Quoted("gender", p.gender) + "}"
  }

  function VictimTail(p: Person): string
    requires p.kind.Victim?
  {
    Quoted("disasterType", p.kind.disasterType) + ", " + Quoted("firstName", p.firstName) + ", "
    + Quoted("lastName", p.lastName) + ", " + Quoted("phoneNumber", p.phoneNumber) + ", "
    + Quoted("dateOfBirth", p.dateOfBirth) + "}"
  }

  function InquirerTail(p: Person): string
    requires p.kind.InquirerOf?
  {
    ", Name=" + Show(p.firstName) + " " + Show(p.lastName) + ", Phone=" + Show(p.phoneNumber)
    + ", Message=" + Show(p.kind.inquiryMessage) + ", IsVictim=" + BoolToString(p.kind.isVictim) + "]"
  }

  lemma PrefixOfConcat(a: string, b: string)
    ensures StartsWith(a + b, a)
    ensures 0 < |a| ==> (a + b)[0] == a[0]
  {
    assert (a + b)[..|a|] == a;
  }

  /** The opening text of each runtime class's rendering. */
  function ClassPrefix(k: PersonKind): string {
    match k
    case Plain => PersonPrefix
    case Victim(_) => VictimPrefix
    case InquirerOf(_, _) => InquirerPrefix
    case Group(_) => GroupPrefix
  }

  /** The rendering names the runtime class: it opens with that class's prefix, and the
      four prefixes already differ in their first character. */
  lemma ToStringNamesTheClass(p: Person)
    ensures StartsWith(ToString(p), ClassPrefix(p.kind))
    ensures forall k: PersonKind :: StartsWith(ToString(p), ClassPrefix(k)) <==> ClassOf(k) == ClassOf(p.kind)
  {
    var tail := match p.kind
      case Plain => IntToString(p.id) + PlainTail(p)
      case Victim(_) => VictimTail(p)
      case InquirerOf(_, _) => IntToString(p.id) + InquirerTail(p)
      case Group(_) => GroupTail(p);
    var prefix := ClassPrefix(p.kind);
    assert ToString(p) == prefix + tail;
    PrefixOfConcat(prefix, tail);
    forall k: PersonKind ensures StartsWith(ToString(p), ClassPrefix(k)) ==> ClassOf(k) == ClassOf(p.kind) {
      if StartsWith(ToString(p), ClassPrefix(k)) {
        assert ClassPrefix(k)[0] == ToString(p)[0] == prefix[0];
      }
    }
  }

  /** The id of a plain person or an inquirer can be read back from its rendering. */
  lemma ToStringReadsBackId(p: Person)
    requires p.kind.Plain? || p.kind.InquirerOf?
    ensures p.kind.Plain? ==> ParseDecimal(NumericPrefix(ToString(p)[|PersonPrefix|..])) == Some(p.id)
    ensures p.kind.InquirerOf? ==> ParseDecimal(NumericPrefix(ToString(p)[|InquirerPrefix|..])) == Some(p.id)
  {
    var s := ToString(p);
    var prefix, rest := if p.kind.Plain? then PersonPrefix else InquirerPrefix,
                        if p.kind.Plain? then PlainTail(p) else InquirerTail(p);
    assert s == prefix + IntToString(p.id) + rest;
    assert s[|prefix|..] == IntToString(p.id) + rest;
    assert rest[0] == ',';
    IntToStringReadsBack(p.id, rest);
  }

  /* ---------------------------------------------------------------------------
   *  Person.equals
   * ------------------------------------------------------------------------- */

  function ClassOf(k: PersonKind): nat {
    match k
    case Plain => 0
    case Victim(_) => 1
    case InquirerOf(_, _) => 2
    case Group(_) => 3
  }

  /** `getClass() == other.getClass()`. */
  predicate SameClass(a: Person, b: Person) {
    ClassOf(a.kind) == ClassOf(b.kind)
  }

  /** The three fields `equals` dereferences are all non-null. */
  predicate HasNames(p: Person) {
    p.firstName.Some? && p.lastName.Some? && p.phoneNumber.Some?
  }

  /** The four fields `equals` compares. */
  predicate SameIdentity(a: Person, b: Person) {
    a.id == b.id && a.firstName == b.firstName && a.lastName == b.lastName && a.phoneNumber == b.phoneNumber
  }

  /** The exception `equals` throws when it dereferences a null name. */
  const NullName: Fault := NullPointer("equals on a null name")

  /** `s.equals(t)` on two string references; dereferencing a null `s` throws. */
  function StringEquals(s: JStr, t: JStr): Result<bool, Fault> {
    match s
    case None => Failure(NullName)
    case Some(v) => Success(t == Some(v))
  }

  /** `a.equals(other)`. The value `a` itself stands for the same reference. Two persons
      of one runtime class are equal when id, first name, last name and phone number
      match; gender, date of birth, supplies and the subclass fields play no part.
      A null name in `a` throws once the comparison reaches it. */
  function Equals(a: Person, other: Option<Person>): (r: Result<bool, Fault>)
    ensures other == Some(a) ==> r == Success(true)
    ensures other.None? ==> r == Success(false)
    ensures HasNames(a) ==> r == Success(other.Some? && SameClass(a, other.value) && SameIdentity(a, other.value))
    ensures r.Failure? ==> !HasNames(a) && other.Some? && other.value != a
                           && SameClass(a, other.value) && a.id == other.value.id && r.error == NullName
  {
    if other == Some(a) then Success(true)
    else if other.None? || !SameClass(a, other.value) then Success(false)
    else
      var b := other.value;
      if a.id != b.id then Success(false)
      else
        var first :- StringEquals(a.firstName, b.firstName);
        if !first then Success(false)
        else
          var last :- StringEquals(a.lastName, b.lastName);
          if !last then Success(false)
          else StringEquals(a.phoneNumber, b.phoneNumber)
  }

  /** Between persons with names, `equals` is symmetric. */
  lemma EqualsIsSymmetric(a: Person, b: Person)
    requires HasNames(a) && HasNames(b)
    ensures Equals(a, Some(b)) == Equals(b, Some(a))
  {
  }

  /** A null first name makes `equals` throw against a different person of the same
      class and id, while `equals(null)` and comparison with itself still answer. */
  lemma EqualsThrowsOnNullName(b: Person)
    requires b.firstName.Some?
    ensures Equals(b.(firstName := None), Some(b)).Failure?
    ensures Equals(b.(firstName := None), None) == Success(false)
    ensures Equals(b.(firstName := None), Some(b.(firstName := None))) == Success(true)
  {
  }

  /** `equals` ignores gender and date of birth: a copy that differs only there is
      still equal, in both directions. */
  lemma EqualsIgnoresGenderAndBirth(p: Person, gender: JStr, dateOfBirth: JStr)
    requires HasNames(p)
    ensures Equals(p, Some(SetGender(SetDateOfBirth(p, dateOfBirth), gender))) == Success(true)
    ensures Equals(SetGender(SetDateOfBirth(p, dateOfBirth), gender), Some(p)) == Success(true)
  {
  }

  /** `equals` does read the id and the names: changing one of them makes the copy
      equal exactly when the new value is the old one. */
  lemma EqualsReadsIdAndNames(p: Person, id: int, first: string, last: string, phone: string)
    requires HasNames(p)
    ensures Equals(p, Some(SetPersonId(p, id))) == Success(id == p.id)
    ensures Equals(p, Some(SetFirstName(p, Some(first)))) == Success(Some(first) == p.firstName)
    ensures Equals(p, Some(SetLastName(p, Some(last)))) == Success(Some(last) == p.lastName)
    ensures Equals(p, Some(SetPhoneNumber(p, Some(phone)))) == Success(Some(phone) == p.phoneNumber)
  {
  }

  predicate Matches(x: Person, y: Person) {
    Equals(x, Some(y)) == Success(true)
  }

  /** No element before index `i` stops a scan for `x`: each compares unequal. */
  predicate PassesBefore(xs: seq<Person>, x: Person, i: int)
    requires 0 <= i <= |xs|
  {
    forall j | 0 <= j < i :: Equals(x, Some(xs[j])) == Success(false)
  }

  /** How many elements of `xs` the person `x` declares equal. */
  function CountMatches(xs: seq<Person>, x: Person): nat {
    if |xs| == 0 then 0 else (if Matches(x, xs[0]) then 1 else 0) + CountMatches(xs[1..], x)
  }

  /** `list.remove(x)` on a list of persons: the scan compares `x` with each element
      in turn and stops at the first one it equals, which is dropped; a comparison
      that throws aborts the call. */
  function RemoveFirstMatch(xs: seq<Person>, x: Person): (r: Result<seq<Person>, Fault>)
    ensures r.Success? ==> multiset(r.value) <= multiset(xs)
    ensures r.Failure? ==> r.error == NullName
    decreases |xs|
  {
    if |xs| == 0 then Success(xs)
    else
      match Equals(x, Some(xs[0]))
      case Failure(e) => Failure(e)
      case Success(found) =>
        assert xs == [xs[0]] + xs[1..];
        if found then Success(xs[1..])
        else
          var rest :- RemoveFirstMatch(xs[1..], x);
          Success([xs[0]] + rest)
  }

  /** When every element compares unequal, the list comes back unchanged. */
  lemma {:induction false} RemoveFirstMatchKeepsUnmatched(xs: seq<Person>, x: Person)
    requires PassesBefore(xs, x, |xs|)
    ensures RemoveFirstMatch(xs, x) == Success(xs)
    decreases |xs|
  {
    if 0 < |xs| {
      assert PassesBefore(xs[1..], x, |xs| - 1) by {
        forall j | 0 <= j < |xs| - 1 ensures Equals(x, Some(xs[1..][j])) == Success(false) {
          assert xs[1..][j] == xs[j + 1];
        }
      }
      RemoveFirstMatchKeepsUnmatched(xs[1..], x);
      assert [xs[0]] + xs[1..] == xs;
    }
  }

  /** A scan that passes the first `i` elements passes the element at the head and,
      in the tail, the first `i - 1`. */
  lemma PassesBeforeTail(xs: seq<Person>, x: Person, i: int)
    requires 0 < i <= |xs| && PassesBefore(xs, x, i)
    ensures Equals(x, Some(xs[0])) == Success(false) && PassesBefore(xs[1..], x, i - 1)
  {
    forall j | 0 <= j < i - 1 ensures Equals(x, Some(xs[1..][j])) == Success(false) {
      assert xs[1..][j] == xs[j + 1];
    }
  }

  /** One step of the scan past an element that compares unequal: what the tail loses,
      the whole list loses. */
  lemma RemoveFirstMatchStep(xs: seq<Person>, x: Person, i: int)
    requires 0 < i < |xs| && Equals(x, Some(xs[0])) == Success(false)
    requires RemoveFirstMatch(xs[1..], x) == Success(xs[1..][..i - 1] + xs[1..][i..])
    ensures RemoveFirstMatch(xs, x) == Success(xs[..i] + xs[i + 1..])
  {
    assert [xs[0]] + (xs[1..][..i - 1] + xs[1..][i..]) == xs[..i] + xs[i + 1..];
  }

  /** The first element `x` equals, with only unequal ones before it, is the one removed. */
  lemma {:induction false} RemoveFirstMatchDropsFirst(xs: seq<Person>, x: Person, i: int)
    requires 0 <= i < |xs| && Matches(x, xs[i]) && PassesBefore(xs, x, i)
    ensures RemoveFirstMatch(xs, x) == Success(xs[..i] + xs[i + 1..])
    decreases i
  {
    if 0 < i {
      PassesBeforeTail(xs, x, i);
      assert xs[1..][i - 1] == xs[i];
      RemoveFirstMatchDropsFirst(xs[1..], x, i - 1);
      RemoveFirstMatchStep(xs, x, i);
    } else {
      assert xs[..0] + xs[1..] == xs[1..];
    }
  }

  /** A failed removal comes from a comparison that threw before any match. */
  lemma {:induction false} RemoveFirstMatchFailure(xs: seq<Person>, x: Person)
    requires RemoveFirstMatch(xs, x).Failure?
    ensures exists i | 0 <= i < |xs| :: Equals(x, Some(xs[i])).Failure? && PassesBefore(xs, x, i)
    decreases |xs|
  {
    if Equals(x, Some(xs[0])).Failure? {
      assert PassesBefore(xs, x, 0);
    } else {
      RemoveFirstMatchFailure(xs[1..], x);
      var i :| 0 <= i < |xs| - 1 && Equals(x, Some(xs[1..][i])).Failure? && PassesBefore(xs[1..], x, i);
      assert xs[1..][i] == xs[i + 1];
      assert PassesBefore(xs, x, i + 1) by {
        forall j | 0 <= j < i + 1 ensures Equals(x, Some(xs[j])) == Success(false) {
          if 0 < j {
            assert xs[1..][j - 1] == xs[j];
          }
        }
      }
    }
  }

  /** For a person with names no comparison throws, and exactly one equal element, if
      there is any, leaves the list. */
  lemma {:induction false} RemoveFirstMatchCount(xs: seq<Person>, x: Person)
    requires HasNames(x)
    ensures RemoveFirstMatch(xs, x).Success?
    ensures CountMatches(RemoveFirstMatch(xs, x).value, x)
         == if CountMatches(xs, x) == 0 then 0 else CountMatches(xs, x) - 1
    decreases |xs|
  {
    if 0 < |xs| && !Matches(x, xs[0]) {
      RemoveFirstMatchCount(xs[1..], x);
      var rest := RemoveFirstMatch(xs[1..], x).value;
      assert ([xs[0]] + rest)[1..] == rest;
    }
  }

  /* ---------------------------------------------------------------------------
   *  Subclass operations
   * ------------------------------------------------------------------------- */

  /** `addAllocatedSupply(supply)`: appended as given, `null` included. The supply
      list is not among the fields `equals` compares. */
  function AddAllocatedSupply(p: Person, supply: Option<Supplies.Supply>): (r: Person)
    ensures r.allocatedSupplies == p.allocatedSupplies + [supply]
    ensures r.(allocatedSupplies := p.allocatedSupplies) == p
    ensures HasNames(p) ==> forall q :: Equals(r, Some(q)) == Equals(p, Some(q)) || q == p || q == r
  {
    p.(allocatedSupplies := p.allocatedSupplies + [supply])
  }

  /** `setInquiryMessage`: any message, null included, replaces the old one. */
  function SetInquiryMessage(q: Inquirer, message: JStr): (r: Inquirer)
    ensures r.kind.inquiryMessage == message && r.kind.isVictim == q.kind.isVictim
    ensures r.(kind := q.kind) == q
  {
    q.(kind := InquirerOf(message, q.kind.isVictim))
  }

  /** `setVictim`. */
  function SetVictim(q: Inquirer, isVictim: bool): (r: Inquirer)
    ensures r.kind.isVictim == isVictim && r.kind.inquiryMessage == q.kind.inquiryMessage
    ensures r.(kind := q.kind) == q
  {
    q.(kind := InquirerOf(q.kind.inquiryMessage, isVictim))
  }

  /** `getFamilyMembers()`. */
  function Members(g: FamilyGroup): seq<Person> {
    g.kind.members
  }

  /** `getFamilySize()`. */
  function FamilySize(g: FamilyGroup): nat {
    |Members(g)|
  }

  /** `addFamilyMember(member)`: a null member is refused, anything else appended. */
  function AddFamilyMember(g: FamilyGroup, member: Option<Person>): (r: FamilyGroup)
    ensures member.None? ==> r == g
    ensures member.Some? ==> Members(r) == Members(g) + [member.value] && FamilySize(r) == FamilySize(g) + 1
    ensures r.(kind := g.kind) == g
  {
    match member
    case None => g
    case Some(m) => g.(kind := Group(Members(g) + [m]))
  }

  /** `removeFamilyMember(member)`: `ArrayList.remove` on the member list. The list
      never holds `null`, so removing `null` changes nothing. */
  function RemoveFamilyMember(g: FamilyGroup, member: Option<Person>): (r: Result<FamilyGroup, Fault>)
    ensures member.None? ==> r == Success(g)
    ensures member.Some? ==> r.Success? == RemoveFirstMatch(Members(g), member.value).Success?
    ensures member.Some? && r.Success? ==> Members(r.value) == RemoveFirstMatch(Members(g), member.value).value
    ensures r.Success? ==> r.value.(kind := g.kind) == g
  {
    match member
    case None => Success(g)
    case Some(m) =>
      var rest :- RemoveFirstMatch(Members(g), m);
      Success(g.(kind := Group(rest)))
  }
}
