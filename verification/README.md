# Disaster relief registry — a verified model

This project models the in-memory core of a disaster-relief management system in Dafny. That system is a Java application. It tracks:

- disaster victims, inquirers and family groups;
- shelters and other locations, with their occupants and stocked supplies;
- supplies: cots, blankets, personal belongings, and water that expires;
- medical records and inquiries.

The model covers these parts of the system:

- **Entity model.** Person, DisasterVictim, Inquirer and FamilyGroup are one `Person` datatype with a `PersonKind`. Supplies and their variants are one `Supply` datatype with a `SupplyKind`. There are also `Location`, `Inquiry` and `MedicalRecord`. A Java `null` is an `Option`, and a thrown exception is a `Result` failure with a `Fault`.
- **Allocation rules.** The SupplyAllocation table is a sequence of rows. The co-residency check is a relational join over PersonLocation and SupplyAllocation. Water expires strictly more than one day after it is handed to a person, and the expired-water sweep deletes exactly those rows.
- **Loader.** The database loader is a pure function from table rows to a registry of six id-keyed maps. It covers person classification, supply type dispatch, placeholder family groups, and occupancy and supply wiring.
- **Victim moves.** The registry's relocation, regrouping and registration updates.
- **Mock connector.** The in-memory test connector: its fixture, reset, load, failure simulation, consistency check and water sweep.
- **Language files.** The line-oriented key/value parser of the language support class, the fallback to `en-CA`, and lookup with a default.

Time is an integer number of seconds passed in as `now`, and one day is 86400 seconds. The database tables, the user's menu choices and the contents of the language files are all parameters.

Modules follow the Java classes:

| module | file | models |
|---|---|---|
| `Wrappers` | `wrappers.dfy` | `Option`, `Result`, and `Fault` (the exceptions the code throws) |
| `JavaText` | `java_text.dfy` | the `String` operations the code relies on: `String.valueOf`, `Integer.parseInt`, `trim`, `replace`, `startsWith`/`endsWith`, `toLowerCase` |
| `Supplies` | `supplies.dfy` | `Supply`, `Cot`, `Blanket`, `PersonalBelonging`, `Water` |
| `Persons` | `persons.dfy` | `Person`, `DisasterVictim`, `Inquirer`, `FamilyGroup` |
| `Locations` | `locations.dfy` | `Location` |
| `MedicalRecords` | `medical_records.dfy` | `MedicalRecord` and the strict `ISO_LOCAL_DATE` grammar it validates against |
| `Inquiries` | `inquiries.dfy` | `Inquiry`, and `Inquirer.selectInquirer` |
| `Registry` | `registry.dfy` | the six-map registry, referential integrity, victim relocation, regrouping and registration |
| `Tables` | `tables.dfy` | the database rows |
| `Allocation` | `allocation.dfy` | the allocation, edit and expiry rules of `Supply` and `Water` |
| `Loader` | `loader.dfy` | `DatabaseConnection.loadData` and `loadAssociations` |
| `MockStore` | `mock_store.dfy` | `MockDatabaseConnectionImpl` |
| `Language` | `language.dfy` | `LanguageSupport` |

The getters hand out copies (`new ArrayList<>(…)`, `new HashMap<>(…)`). In a value model every read is already a copy, so no getter has its own member. A setter that stores "a copy of the argument" stores the argument's value.

The map copies do matter in one place. When the interface receives its connector (UserInterfaceImplied.java:54-59), it keeps its own copies of the six maps (DatabaseConnection.java:257-266). The `Location` objects inside them are shared with the connector, but the maps are not. The model has a single `Registry`, which stands for the interface's copy:
- The victim moves and registration write that copy, as the Java does.
- The person checks inside the generic and water allocations read it too. In Java they read the connector's maps (Supply.java:314, Water.java:76).

## Model

| member | source | states |
|---|---|---|
| Supplies.NewSupply | src/edu/ucalgary/oop/Supply.java:29-32 | The two-argument constructor stores both type and id; comments stay null. |
| Supplies.NewSupplyOfType | src/edu/ucalgary/oop/Supply.java:39-41 | The one-argument constructor stores the type and leaves id 0 and comments null. |
| Supplies.NewCot | src/edu/ucalgary/oop/Cot.java:22-25 | A cot is tagged "cot", has id 0, and its comments are the constructor argument verbatim, null included. |
| Supplies.NewBlanket | src/edu/ucalgary/oop/Blanket.java:22-24 | A blanket is tagged "blanket", with id 0 and null comments. |
| Supplies.NewPersonalBelonging | src/edu/ucalgary/oop/PersonalBelonging.java:20-23 | A personal belonging is tagged "personal item"; its comments are the description, null included. |
| Supplies.NewWater | src/edu/ucalgary/oop/Water.java:28-30 | Water is tagged "water" and starts with no allocation date. |
| Supplies.SetComments | src/edu/ucalgary/oop/Supply.java:108-110 | Stores any comments, null included, and changes nothing else. |
| Supplies.SetId | src/edu/ucalgary/oop/Supply.java:63-65 | Stores any id and changes nothing else. |
| Supplies.SetType | src/edu/ucalgary/oop/Supply.java:90-92 | Stores any type and changes nothing else. |
| Supplies.IsExpired | src/edu/ucalgary/oop/Water.java:56-62 | Water that was never handed out never expires. |
| Supplies.ExpiryIsMonotone | src/edu/ucalgary/oop/Water.java:56-62 | Expired water stays expired at every later instant; unallocated water is never expired. |
| Supplies.ExpiryBoundary | src/edu/ucalgary/oop/Water.java:60-61 | Expiry is strict: water is fresh after 23 hours and after exactly one day, and expired one second later and after 25 hours. |
| Persons.NewPerson | src/edu/ucalgary/oop/Person.java:35-39 | A new person stores the names and phone, with id 0, no gender, no birth date and no supplies. |
| Persons.NewVictim | src/edu/ucalgary/oop/DisasterVictim.java:26-29 | A new victim is a fresh person carrying the given disaster type. |
| Persons.NewInquirer | src/edu/ucalgary/oop/Inquirer.java:31-35 | A new inquirer is a fresh person carrying the given message and victim flag. |
| Persons.NewFamilyGroup | src/edu/ucalgary/oop/FamilyGroup.java:29-32 | A new group is a fresh person with no members. |
| Persons.SetPersonId | src/edu/ucalgary/oop/Person.java:60-62 | Stores any id and leaves every other field as it was. |
| Persons.SetFirstName | src/edu/ucalgary/oop/Person.java:78-80 | Stores any first name, null included, and leaves every other field as it was. |
| Persons.SetLastName | src/edu/ucalgary/oop/Person.java:96-98 | Stores any last name and leaves every other field as it was. |
| Persons.SetPhoneNumber | src/edu/ucalgary/oop/Person.java:114-116 | Stores any phone number without format checks and leaves every other field as it was. |
| Persons.SetGender | src/edu/ucalgary/oop/Person.java:141-143 | Stores any gender without validation and leaves every other field as it was. |
| Persons.SetDateOfBirth | src/edu/ucalgary/oop/Person.java:159-161 | Stores any birth-date text without validation and leaves every other field as it was. |
| Persons.SetDisasterType | src/edu/ucalgary/oop/DisasterVictim.java:43 | Stores the disaster type and leaves the rest of the victim as it was. |
| Persons.FullName | src/edu/ucalgary/oop/Person.java:123-125 | The full name is one character longer than the two names together, so two empty names give one blank. |
| Persons.FullNameSplitsBack | src/edu/ucalgary/oop/Person.java:123-125 | Splitting the full name at its first blank gives back the first and the last name, whenever the first name has no blank. |
| Persons.ToStringNamesTheClass | src/edu/ucalgary/oop/Person.java:205-213 | Every rendering opens with its class's prefix (`Person{id=`, `DisasterVictim{`, `Inquirer [ID=`, `FamilyGroup{`), so no two classes render alike. |
| Persons.ToStringReadsBackId | src/edu/ucalgary/oop/Person.java:205-213 | The digits after `Person{id=` or `Inquirer [ID=` parse back to the person's id. |
| Persons.ToString | src/edu/ucalgary/oop/Person.java:205-213 | Every rendering opens with the prefix of its runtime class. |
| Persons.Equals | src/edu/ucalgary/oop/Person.java:222-229 | `equals` is true for the same object, false for null, and otherwise is same-class plus equal id, names and phone. It throws only when the receiver has a null name. |
| Persons.EqualsIsSymmetric | src/edu/ucalgary/oop/Person.java:222-229 | Between two persons with names, `equals` is symmetric. |
| Persons.EqualsThrowsOnNullName | src/edu/ucalgary/oop/Person.java:225-229 | A receiver with a null first name throws when compared with an equal-id person; it is still false against null and true against itself. |
| Persons.EqualsIgnoresGenderAndBirth | src/edu/ucalgary/oop/Person.java:225-229 | Changing gender and birth date never changes the answer of `equals`, in either direction. |
| Persons.EqualsReadsIdAndNames | src/edu/ucalgary/oop/Person.java:225-229 | Changing any one of id, first name, last name or phone makes `equals` false exactly when the value really differs. |
| Persons.RemoveFirstMatch | src/edu/ucalgary/oop/Location.java:106 | `List.remove(Object)` removes at most one element, and fails only by a thrown comparison. |
| Persons.RemoveFirstMatchKeepsUnmatched | src/edu/ucalgary/oop/Location.java:106 | Removing an absent person leaves the list unchanged. |
| Persons.RemoveFirstMatchDropsFirst | src/edu/ucalgary/oop/Location.java:106 | Removal drops exactly the first equal element and keeps the order of the rest. |
| Persons.RemoveFirstMatchFailure | src/edu/ucalgary/oop/Location.java:106 | A removal fails only when a comparison before any match throws. |
| Persons.RemoveFirstMatchCount | src/edu/ucalgary/oop/Location.java:106 | For a person with names, removal never fails and lowers the number of equal elements by one, or leaves it at zero. |
| Persons.AddAllocatedSupply | src/edu/ucalgary/oop/Person.java:168-170 | Appends exactly one supply, null included, keeps earlier entries, and does not change what `equals` says. |
| Persons.SetInquiryMessage | src/edu/ucalgary/oop/Inquirer.java:56-58 | Stores any message, null and "" included, and keeps the victim flag. |
| Persons.SetVictim | src/edu/ucalgary/oop/Inquirer.java:74-76 | Stores the victim flag and keeps the message. |
| Persons.AddFamilyMember | src/edu/ucalgary/oop/FamilyGroup.java:39-46 | A null member changes nothing; any other member is appended, duplicates included, and the size grows by one. |
| Persons.RemoveFamilyMember | src/edu/ucalgary/oop/FamilyGroup.java:110-112 | The member list loses exactly what a first-equal removal drops; nothing else about the group changes. |
| Locations.NewLocation | src/edu/ucalgary/oop/Location.java:25-28 | A new location stores name and address and starts with no occupants and no supplies. |
| Locations.SetName | src/edu/ucalgary/oop/Location.java:42 | Changes only the name. |
| Locations.SetAddress | src/edu/ucalgary/oop/Location.java:56 | Changes only the address. |
| Locations.SetOccupants | src/edu/ucalgary/oop/Location.java:71 | A null list throws; any other list becomes the occupant list and nothing else changes. |
| Locations.SetSupplies | src/edu/ucalgary/oop/Location.java:86 | A null list throws; any other list becomes the supply list and nothing else changes. |
| Locations.AddOccupant | src/edu/ucalgary/oop/Location.java:93-99 | A null victim changes nothing; any other victim is appended, duplicates included; supplies are untouched. |
| Locations.RemoveOccupant | src/edu/ucalgary/oop/Location.java:106 | The occupant list loses exactly what a first-equal removal drops; name, address and supplies are untouched. |
| Locations.AddSupply | src/edu/ucalgary/oop/Location.java:113 | Appends the supply with no null guard; occupants are untouched. |
| Locations.RemoveFirst | src/edu/ucalgary/oop/Location.java:120 | Removes the first identical element and keeps the order of the rest; an absent element changes nothing. |
| Locations.RemoveSupply | src/edu/ucalgary/oop/Location.java:120 | Takes away one copy of the supply, is a no-op when the supply is absent, and leaves occupants untouched. |
| Locations.CountMatchesZero | src/edu/ucalgary/oop/Location.java:106 | A list holds no person equal to `x` exactly when no element matches. |
| Locations.AddThenRemoveOccupant | src/edu/ucalgary/oop/Location.java:93-106 | Adding a victim who was not present and then removing them restores the location. |
| Locations.AddThenRemoveSupply | src/edu/ucalgary/oop/Location.java:113-120 | Adding an absent supply and then removing it restores the location. |
| Locations.OccupantsAndSuppliesIndependent | src/edu/ucalgary/oop/Location.java:71-113 | Occupant and supply changes commute. |
| MedicalRecords.DigitRun | src/edu/ucalgary/oop/MedicalRecord.java:100-107 | The scanned year field is a maximal run of digits. |
| MedicalRecords.ParseIsoLocalDate | src/edu/ucalgary/oop/MedicalRecord.java:100-107 | Whatever the date parser accepts is a real Gregorian date. |
| MedicalRecords.IsValidDateFormat | src/edu/ucalgary/oop/MedicalRecord.java:100-107 | A date passes the check only when it is present and names a real calendar day. |
| MedicalRecords.FormatThenParse | src/edu/ucalgary/oop/MedicalRecord.java:100-107 | Every real date in the parser's year range, rendered as `YYYY-MM-DD`, parses back to itself. |
| MedicalRecords.ParsedYearShape | src/edu/ucalgary/oop/MedicalRecord.java:100-107 | An accepted year has four digits, or more digits and a sign; so `10000-01-01` is rejected and `+10000-01-01` accepted. |
| MedicalRecords.NewMedicalRecord | src/edu/ucalgary/oop/MedicalRecord.java:33-44 | Construction fails for a bad date first, then for a year before 1900; otherwise the date text is stored verbatim. |
| MedicalRecords.ConstructorAcceptsFrom1900 | src/edu/ucalgary/oop/MedicalRecord.java:33-44 | A rendered real date is accepted by the constructor exactly when its year is 1900 or later, while the setter accepts it in every year. |
| MedicalRecords.SetLocation | src/edu/ucalgary/oop/MedicalRecord.java:58 | Stores any location, null included, and nothing else. |
| MedicalRecords.SetTreatmentDetails | src/edu/ucalgary/oop/MedicalRecord.java:72 | Stores any treatment details and nothing else. |
| MedicalRecords.SetDateOfTreatment | src/edu/ucalgary/oop/MedicalRecord.java:87-92 | The setter checks the format only, with no 1900 floor; a rejected date leaves the record unchanged. |
| Inquiries.NewInquiry | src/edu/ucalgary/oop/Inquiry.java:28-35 | A null inquirer throws first, then a null message; otherwise both are stored verbatim. |
| Inquiries.SetInquiryId | src/edu/ucalgary/oop/Inquiry.java:42-44 | Stores the id and nothing else. |
| Inquiries.SetSeekingId | src/edu/ucalgary/oop/Inquiry.java:78-80 | Stores the sought person's id and nothing else. |
| Inquiries.EditInquiry | src/edu/ucalgary/oop/Inquiry.java:160-179 | A cancelled edit changes nothing. An accepted one sets the inquiry's message and its own inquirer's message to the same text, and keeps ids and the victim flag. |
| Inquiries.TextAfterLastFinds | src/edu/ucalgary/oop/Inquiry.java:330-336 | The text after the last separator is exactly what follows it. |
| Inquiries.SeekingIdReadsBack | src/edu/ucalgary/oop/Inquiry.java:330-336 | The text after the last `=` in the rendering parses back to the seeking id. |
| Inquiries.SetSeekingIdShows | src/edu/ucalgary/oop/Inquiry.java:78-80 | After `setSeekingId(n)` the rendering ends with a number that reads back as `n`. |
| Inquiries.InquirerOfInquiryReadsBack | src/edu/ucalgary/oop/Inquiry.java:330-336 | The rendering embeds the inquirer's own rendering, whose id reads back. |
| Inquiries.InquiryToString | src/edu/ucalgary/oop/Inquiry.java:330-336 | The rendering opens with `Inquiry{inquirer=` followed by the inquirer's own `Inquirer [ID=` rendering. |
| Inquiries.EditInquiryShows | src/edu/ucalgary/oop/Inquiry.java:160-179 | After an accepted edit, the rendering ends with the new message followed by the unchanged seeking id, and the seeking id still reads back. |
| Inquiries.EditInquiryIdempotent | src/edu/ucalgary/oop/Inquiry.java:160-179 | Repeating an edit with the same answer changes nothing more. |
| Inquiries.SelectInquirer | src/edu/ucalgary/oop/Inquirer.java:85-113 | An empty registry leads to creating an inquirer; otherwise a person is selected exactly when the id is known and names an inquirer. |
| JavaText.NatToStringValue | src/edu/ucalgary/oop/Person.java:205-213 | The decimal rendering of a number has the number's value. |
| JavaText.IntToStringRoundTrip | src/edu/ucalgary/oop/Person.java:205-213 | A rendered integer parses back to itself. |
| JavaText.IntToStringReadsBack | src/edu/ucalgary/oop/Person.java:205-213 | A rendered integer followed by a non-digit reads back as the integer. |
| JavaText.TrimStart | src/edu/ucalgary/oop/LanguageSupport.java:53 | Drops exactly the leading characters at or below the blank. |
| JavaText.TrimEnd | src/edu/ucalgary/oop/LanguageSupport.java:53 | Drops exactly the trailing characters at or below the blank. |
| JavaText.Trim | src/edu/ucalgary/oop/LanguageSupport.java:53 | The result is the middle slice, and everything cut from either end is blank-or-control. |
| JavaText.TrimOfTrimmed | src/edu/ucalgary/oop/LanguageSupport.java:53 | Trimming an already trimmed string changes nothing. |
| JavaText.RemoveAllKeepsPlainPrefix | src/edu/ucalgary/oop/LanguageSupport.java:55 | `replace` leaves untouched a prefix that cannot start an occurrence. |
| JavaText.ToLowerAscii | test/edu/ucalgary/oop/MockDatabaseConnectionImpl.java:168 | No ASCII upper-case letter survives lower-casing, other characters are kept, and a text with no upper-case letter comes back unchanged. |
| JavaText.ToLowerAsciiIdempotent | test/edu/ucalgary/oop/MockDatabaseConnectionImpl.java:168 | Lower-casing twice is lower-casing once. |
| Registry.PlaceholderGroup | src/edu/ucalgary/oop/DisasterVictim.java:109-111 | The placeholder for group `k` is an empty group named "Group" with the decimal id as last name. |
| Registry.JoinGroup | src/edu/ucalgary/oop/DisasterVictim.java:109-111 | The member is appended to group `k`, which is created as a placeholder if absent; every other group is untouched. |
| Registry.RemoveFromAllLocations | src/edu/ucalgary/oop/DisasterVictim.java:561 | Every location loses one equal copy of the victim; no location is added or dropped. |
| Registry.Relocate | src/edu/ucalgary/oop/DisasterVictim.java:558-564 | Location 0 changes nothing; otherwise the victim is removed everywhere and appended to the target; only locations change. |
| Registry.RemoveFromAllGroups | src/edu/ucalgary/oop/DisasterVictim.java:576 | Every group loses one equal copy of the victim; no group is added or dropped. |
| Registry.Regroup | src/edu/ucalgary/oop/DisasterVictim.java:573-579 | Group 0 changes nothing; otherwise the victim is removed everywhere and appended to the target group; only groups change. |
| Registry.CountMatchesAppend | src/edu/ucalgary/oop/DisasterVictim.java:561-562 | Appending one person adds one to the count of equal elements exactly when it matches. |
| Registry.MoveWithinList | src/edu/ucalgary/oop/DisasterVictim.java:561-562 | After a remove-then-maybe-append, the list holds the victim once in the target and nowhere else. |
| Registry.RelocateMoves | src/edu/ucalgary/oop/DisasterVictim.java:558-564 | A victim held at most once per location ends up in exactly the target location, once. |
| Registry.RegroupMoves | src/edu/ucalgary/oop/DisasterVictim.java:573-579 | A victim held at most once per group ends up in exactly the target group, once. |
| Registry.RegisterVictim | src/edu/ucalgary/oop/DisasterVictim.java:91-112 | A location selection of 0 changes nothing. Otherwise registration needs a known location; the new victim is stored under the returned id, appended to the location, and appended to its group when the group id is nonzero. |
| Registry.FreshKeyKeepsValues | src/edu/ucalgary/oop/DisasterVictim.java:107 | Storing under a fresh key keeps every stored person findable. |
| Registry.JoinGroupKeepsKnown | src/edu/ucalgary/oop/DisasterVictim.java:109-111 | Joining a known person to a group keeps every group member known. |
| Registry.RegisterVictimKeepsConsistency | src/edu/ucalgary/oop/DisasterVictim.java:101-112 | Registering a victim under a fresh id at a known location keeps the registry consistent. |
| Registry.RemovalKeepsKnown | src/edu/ucalgary/oop/DisasterVictim.java:561 | Removing from a list of known persons leaves only known persons. |
| Registry.RelocateKeepsConsistency | src/edu/ucalgary/oop/DisasterVictim.java:558-564 | Relocating a known victim keeps the registry consistent. |
| Registry.RegroupKeepsConsistency | src/edu/ucalgary/oop/DisasterVictim.java:573-579 | Moving a known victim between family groups keeps the registry consistent. |
| Allocation.AllocateSupplyToPerson | src/edu/ucalgary/oop/Supply.java:312-325 | An unknown person fails first, then an unknown supply; otherwise exactly one (supply, person) row is appended. |
| Allocation.AllocateSupplyToLocation | src/edu/ucalgary/oop/Supply.java:339-352 | An unknown location fails first, then an unknown supply; otherwise exactly one (supply, location) row is appended. |
| Allocation.RepeatedAllocationAddsRows | src/edu/ucalgary/oop/Supply.java:312-325 | Nothing stops a second allocation of the same supply; it adds one more row. |
| Allocation.PairsWithPositive | src/edu/ucalgary/oop/Supply.java:287-298 | The per-row join count is positive exactly when some allocation row joins that person-location row. |
| Allocation.JoinCountPositive | src/edu/ucalgary/oop/Supply.java:287-298 | `COUNT(*) > 0` holds exactly when some pair of rows joins. |
| Allocation.CheckLocationMatch | src/edu/ucalgary/oop/Supply.java:287-298 | The check holds exactly when the supply is allocated to a location where the person is placed. |
| Allocation.SelectPerson | src/edu/ucalgary/oop/Supply.java:262-271 | The selection is -1 or a known person, and a known id is returned as given. |
| Allocation.SelectLocation | src/edu/ucalgary/oop/Supply.java:354-372 | The selection is 0 or a known location, and a known id is returned as given. |
| Allocation.AllocateSupplies | src/edu/ucalgary/oop/Supply.java:118-154 | Allocation succeeds exactly for a known supply plus a matched person or a known location. A location allocation also appends the supply to that location. Every other outcome changes nothing. |
| Allocation.LocationAllocationReachesOccupants | src/edu/ucalgary/oop/Supply.java:287-298 | After a location allocation, the join matches every person recorded at that location. A person allocation of the same supply to any of them (id not -1) then succeeds. |
| Allocation.UpdateSupplyRow | src/edu/ucalgary/oop/Supply.java:232-248 | An id of 0 or below fails before any write, and an unmatched id fails; otherwise exactly the matching rows get the new type and comments. |
| Allocation.UpdateSupplyRowIdempotent | src/edu/ucalgary/oop/Supply.java:232-248 | Writing the same supply twice is the same as writing it once. |
| Allocation.EditSupply | src/edu/ucalgary/oop/Supply.java:189-224 | An unknown or unparsable id changes nothing. Otherwise a missing new type keeps the old one, comments are always overwritten, and the row update decides success or failure. |
| Allocation.EditSupplyReadsBack | src/edu/ucalgary/oop/Supply.java:232-245 | After an accepted edit, some row carries the supply's id, and every such row reads back the edited type (empty for none) and the new comments. |
| Allocation.EditSupplyIdempotent | src/edu/ucalgary/oop/Supply.java:189-224 | Repeating an edit with the same answers changes nothing more, whether or not the database accepted the first one. |
| Allocation.AllocateWaterToPerson | src/edu/ucalgary/oop/Water.java:72-93 | A zero id fails first, then an unknown person; success writes one person row dated `now` and sets the allocation date to `now`. |
| Allocation.AllocateWaterToLocation | src/edu/ucalgary/oop/Water.java:102-121 | A zero id fails first, then an unknown location; success writes one location row and leaves the water undated. |
| Allocation.WaterExpiresAfterOneDay | src/edu/ucalgary/oop/Water.java:56-93 | Water handed to a person at `now` is expired at `later` exactly when `later > now + 86400`; undated water is never expired. |
| Allocation.SurvivingExact | src/edu/ucalgary/oop/Water.java:130-143 | The sweep keeps exactly the rows that are not expired person-held water. |
| Allocation.Surviving | src/edu/ucalgary/oop/Water.java:130-143 | No row left after the sweep is expired person-held water. |
| Allocation.SweepAgreesWithIsExpired | src/edu/ucalgary/oop/Water.java:56-143 | The SQL sweep deletes a person-held water row exactly when that water's `isExpired` holds. |
| Allocation.CleanupExpiredWater | src/edu/ucalgary/oop/Water.java:130-143 | A refused statement returns -1 and deletes nothing; otherwise the expired person-held water rows are deleted and their number returned. |
| Allocation.SweepIsIdempotent | src/edu/ucalgary/oop/Water.java:130-143 | A second sweep at the same instant deletes nothing more. |
| Loader.Collect | src/edu/ucalgary/oop/DatabaseConnection.java:149-190 | Putting each row's object under its id succeeds exactly when every row builds. The keys are exactly the row ids, each value comes from a row with that id, and a failure is some row's failure. |
| Loader.BuildPerson | src/edu/ucalgary/oop/DatabaseConnection.java:110-133 | A person is an inquirer (empty message, victim) exactly when some inquiry names it, else a victim of type "Unknown"; id, names, phone and gender come from the row and the birth date is never set. |
| Loader.PersonMapExact | src/edu/ucalgary/oop/DatabaseConnection.java:110-139 | The person map holds exactly the row ids; each person is built from a row with its id, and is an inquirer exactly when some inquiry names it. |
| Loader.PersonMapKeys | src/edu/ucalgary/oop/DatabaseConnection.java:110-139 | The person map's keys are exactly the ids of the Person rows. |
| Loader.PersonMapBuiltFrom | src/edu/ucalgary/oop/DatabaseConnection.java:110-139 | Each stored person is the one built from some row with that id. |
| Loader.PersonMap | src/edu/ucalgary/oop/DatabaseConnection.java:110-139 | Every loaded person is stored under its own id. |
| Loader.GroupMap | src/edu/ucalgary/oop/DatabaseConnection.java:118-138 | A null or zero family group column creates no group, so no group has id 0. |
| Loader.GroupMapKeys | src/edu/ucalgary/oop/DatabaseConnection.java:118-138 | A group exists exactly for each nonzero group id some person row names. |
| Loader.GroupMapMembers | src/edu/ucalgary/oop/DatabaseConnection.java:135-138 | Each group is a placeholder holding, in row order, the persons whose row names it. |
| Loader.NoRowsNoMembers | src/edu/ucalgary/oop/DatabaseConnection.java:135-138 | A group id no row names collects no members. |
| Loader.LocationMap | src/edu/ucalgary/oop/DatabaseConnection.java:141-147 | Loaded locations are exactly the row ids, each with no occupants and no supplies yet. |
| Loader.BuildSupply | src/edu/ucalgary/oop/DatabaseConnection.java:149-164 | Dispatch on the lower-cased type: cot and personal item keep comments, blanket and water drop them, others keep the type and drop the comments, and a null type throws. |
| Loader.SupplyMap | src/edu/ucalgary/oop/DatabaseConnection.java:149-164 | Supplies load exactly when no type is null, and each one's id is its key. |
| Loader.InquirerFor | src/edu/ucalgary/oop/DatabaseConnection.java:169-173 | The cast fails exactly for a known non-inquirer; a null or unknown id gives null. |
| Loader.BuildInquiry | src/edu/ucalgary/oop/DatabaseConnection.java:166-179 | A null inquirer id aborts; a built inquiry carries the row's id, seeking id and comments. |
| Loader.InquiryMap | src/edu/ucalgary/oop/DatabaseConnection.java:166-179 | Inquiries load exactly when every row builds, keyed by row id. |
| Loader.BuildRecord | src/edu/ucalgary/oop/DatabaseConnection.java:181-190 | A null timestamp, or one shorter than ten characters, aborts; otherwise the first ten characters go through the record's date check. |
| Loader.BuildRecordChecksDate | src/edu/ucalgary/oop/DatabaseConnection.java:184-188 | A record row builds exactly when the constructor accepts its date prefix. |
| Loader.RecordMap | src/edu/ucalgary/oop/DatabaseConnection.java:181-190 | Records load exactly when every row builds, keyed by row id. |
| Loader.PlaceOccupantsExact | src/edu/ucalgary/oop/DatabaseConnection.java:206-215 | Each location's occupants are, in row order, the victims placed there; other persons and unknown locations are skipped. |
| Loader.PlaceSuppliesExact | src/edu/ucalgary/oop/DatabaseConnection.java:217-230 | Each location receives, in row order, the known supplies allocated to it by location rows. |
| Loader.PlaceOccupants | src/edu/ucalgary/oop/DatabaseConnection.java:206-215 | Placing occupants neither adds nor drops a location. |
| Loader.PlaceSupplies | src/edu/ucalgary/oop/DatabaseConnection.java:217-230 | Placing supplies neither adds nor drops a location. |
| Loader.WiredLocations | src/edu/ucalgary/oop/DatabaseConnection.java:141-147 | The wired locations are exactly the Location row ids. |
| Loader.LoadData | src/edu/ucalgary/oop/DatabaseConnection.java:100-198 | The load succeeds exactly when every supply, inquiry and record row builds. The registry is rebuilt from the rows alone, and the allocation rows come back swept of expired water. |
| Loader.LoadedLocations | src/edu/ucalgary/oop/DatabaseConnection.java:141-147 | Every loaded location holds exactly the victims its occupancy rows place there and the supplies its location rows name, each in row order. |
| Loader.LoadNeverFailsTheCast | src/edu/ucalgary/oop/DatabaseConnection.java:128-133 | The inquirer cast can never fail, because every person an inquiry names was classified as an inquirer. |
| Loader.NullInquirerAbortsLoad | src/edu/ucalgary/oop/DatabaseConnection.java:169-175 | An inquiry row with a null inquirer aborts the whole load. |
| Loader.LoadedInquirersAreSelectable | src/edu/ucalgary/oop/DatabaseConnection.java:166-179 | After a load, the inquirer of every stored inquiry is the person `selectInquirer` picks for that inquirer's id. |
| MockStore.FixturePersonsAreBuilt | test/edu/ucalgary/oop/MockDatabaseConnectionImpl.java:91-104 | The fixture persons are what the constructors and setters build. |
| MockStore.FixtureLocationsAreBuilt | test/edu/ucalgary/oop/MockDatabaseConnectionImpl.java:107-149 | The fixture supplies and locations are what the constructors and adders build. |
| MockStore.PopulateTestData | test/edu/ucalgary/oop/MockDatabaseConnectionImpl.java:87-150 | The fixture holds persons 1-3, locations 1-2, supplies 1-3 and one each of inquiry, record and group. Ids match keys, and the shared objects are the stored ones. |
| MockStore.FixtureRecordIsAccepted | test/edu/ucalgary/oop/MockDatabaseConnectionImpl.java:133 | The fixture's medical record passes the constructor's date check. |
| MockStore.FixtureInquiryIsBuilt | test/edu/ucalgary/oop/MockDatabaseConnectionImpl.java:127-130 | The fixture's inquiry is what the constructor and setters build. |
| MockStore.SharedReferencesAreKnown | test/edu/ucalgary/oop/MockDatabaseConnectionImpl.java:189-226 | A registry shaped like the fixture is consistent. |
| MockStore.FixtureIsConsistent | test/edu/ucalgary/oop/MockDatabaseConnectionImpl.java:87-150 | The fixture passes the consistency check. |
| MockStore.Reset | test/edu/ucalgary/oop/MockDatabaseConnectionImpl.java:74-81 | All six maps are emptied and the connection state is kept. |
| MockStore.GetInstance | test/edu/ucalgary/oop/MockDatabaseConnectionImpl.java:46-51 | An open instance is returned as is; a missing or closed one is replaced by an open one holding the fixture. |
| MockStore.CloseConnection | test/edu/ucalgary/oop/MockDatabaseConnectionImpl.java:66-68 | Closing marks the connection closed and keeps the data. |
| MockStore.LoadData | test/edu/ucalgary/oop/MockDatabaseConnectionImpl.java:156-161 | Loading repopulates exactly when there are no persons, and always leaves some. |
| MockStore.LoadDataIsIdempotent | test/edu/ucalgary/oop/MockDatabaseConnectionImpl.java:156-161 | Loading twice is loading once. |
| MockStore.SimulateFailure | test/edu/ucalgary/oop/MockDatabaseConnectionImpl.java:167-183 | A null kind throws and "exception" throws. "connection" closes, "data" clears everything and "partial" clears only persons, case-insensitively. Any other kind changes nothing. |
| MockStore.LoadRecoversFromFailure | test/edu/ucalgary/oop/MockDatabaseConnectionImpl.java:156-183 | After a data or partial failure a load restores the fixture; after a connection failure the next instance is fresh. |
| MockStore.OccupantWithoutPersons | test/edu/ucalgary/oop/MockDatabaseConnectionImpl.java:193-200 | An occupant with no stored persons makes the registry inconsistent. |
| MockStore.PartialFailureBreaksConsistency | test/edu/ucalgary/oop/MockDatabaseConnectionImpl.java:175-177 | Clearing only persons leaves the fixture inconsistent. |
| MockStore.AllKnown | test/edu/ucalgary/oop/MockDatabaseConnectionImpl.java:194-199 | The inner loop answers whether every listed person is stored. |
| MockStore.CheckOccupants | test/edu/ucalgary/oop/MockDatabaseConnectionImpl.java:192-200 | The occupant pass answers exactly whether every occupant is stored. |
| MockStore.CheckMembers | test/edu/ucalgary/oop/MockDatabaseConnectionImpl.java:202-210 | The family pass answers exactly whether every group member is stored. |
| MockStore.CheckInquiries | test/edu/ucalgary/oop/MockDatabaseConnectionImpl.java:212-223 | The inquiry pass answers exactly whether every inquirer is stored and every positive seeking id is a person key. |
| MockStore.ValidateDataConsistency | test/edu/ucalgary/oop/MockDatabaseConnectionImpl.java:189-226 | The check returns true exactly when the registry is consistent. |
| MockStore.MockCleanup | test/edu/ucalgary/oop/MockDatabaseConnectionImpl.java:232-236 | Exactly the expired water entries are removed; every other entry and every other map is kept. |
| MockStore.MockCleanupSettles | test/edu/ucalgary/oop/MockDatabaseConnectionImpl.java:232-236 | Cleaning twice at one instant is cleaning once, and a later cleanup removes at least as much. |
| MockStore.FixtureSurvivesCleanup | test/edu/ucalgary/oop/MockDatabaseConnectionImpl.java:232-236 | The fixture's water was never handed out, so cleanup keeps the fixture at every instant. |
| Language.Pend | src/edu/ucalgary/oop/LanguageSupport.java:54-58 | A key line sets the pending key, otherwise a value line sets the pending value, with tags stripped and trimmed; any other line changes nothing. |
| Language.Flush | src/edu/ucalgary/oop/LanguageSupport.java:59-63 | When key and value are both pending, one entry is stored and both are cleared. |
| Language.ParseStep | src/edu/ucalgary/oop/LanguageSupport.java:52-64 | After each line, key and value are never both pending. |
| Language.LoadTranslations | src/edu/ucalgary/oop/LanguageSupport.java:49-64 | The reading loop builds exactly the table of the line-by-line fold. |
| Language.FoldAppend | src/edu/ucalgary/oop/LanguageSupport.java:52-64 | Reading two files' lines one after the other equals reading the second from where the first stopped. |
| Language.ParseFromAppend | src/edu/ucalgary/oop/LanguageSupport.java:52-64 | The parser's state after `a + b` is its state after `b` started from the state after `a`. |
| Language.Render | src/edu/ucalgary/oop/LanguageSupport.java:52-64 | A rendered file has two lines per entry. |
| Language.Overlay | src/edu/ucalgary/oop/LanguageSupport.java:60 | The overlaid table has the old keys plus every entry's key. |
| Language.StripTags | src/edu/ucalgary/oop/LanguageSupport.java:55-57 | Stripping the open and close tags from a tagged tag-free text gives back the text. |
| Language.KeyLineShape | src/edu/ucalgary/oop/LanguageSupport.java:54-55 | A rendered key line is trimmed, is a key line, and unwraps to its key. |
| Language.ValueLineShape | src/edu/ucalgary/oop/LanguageSupport.java:56-57 | A rendered value line is trimmed, is a value line but not a key line, and unwraps to its value. |
| Language.EntryReads | src/edu/ucalgary/oop/LanguageSupport.java:52-64 | A key line followed by its value line stores exactly that entry and clears both. |
| Language.RenderReadsBack | src/edu/ucalgary/oop/LanguageSupport.java:52-64 | Parsing rendered entries overlays them on the table in order. |
| Language.TranslationsOfRendered | src/edu/ucalgary/oop/LanguageSupport.java:49-64 | A file rendered from entries parses back to exactly those entries, the later one winning. |
| Language.Translations | src/edu/ucalgary/oop/LanguageSupport.java:49-64 | Every key and value in the table is trimmed: neither starts nor ends with a character at or below the space. |
| Language.LaterEntryWins | src/edu/ucalgary/oop/LanguageSupport.java:60 | A later entry for a key overwrites the earlier one. |
| Language.ValueBeforeKeyPairs | src/edu/ucalgary/oop/LanguageSupport.java:59-63 | A value line before its key line still pairs up. |
| Language.UnpairedTailDropped | src/edu/ucalgary/oop/LanguageSupport.java:59-64 | A trailing unpaired key or value is dropped. |
| Language.IgnoredLine | src/edu/ucalgary/oop/LanguageSupport.java:54-58 | A line that is neither a key line nor a value line can be removed without changing the table. |
| Language.LoadLanguageFile | src/edu/ucalgary/oop/LanguageSupport.java:37-74 | An existing file replaces the table with its parse. A missing file on a first attempt falls back to en-CA, and on the fallback attempt changes nothing. The code ends as the requested one or en-CA. |
| Language.NewLanguageSupport | src/edu/ucalgary/oop/LanguageSupport.java:26-29 | The constructor keeps the requested code when its file exists, else en-CA. The table is read from the requested file, else from the en-CA file, else stays empty. |
| Language.SetLanguageCode | src/edu/ucalgary/oop/LanguageSupport.java:89-92 | Switching keeps the requested code when its file exists, else en-CA. |
| Language.SwitchReplacesTable | src/edu/ucalgary/oop/LanguageSupport.java:50 | When some file loads, switching forgets the previous table entirely. |
| Language.SwitchWithoutAnyFile | src/edu/ucalgary/oop/LanguageSupport.java:39-47 | With neither the requested nor the default file, switching sets en-CA and keeps the old table. |
| Language.GetText | src/edu/ucalgary/oop/LanguageSupport.java:82 | A stored key gives its translation; a missing key gives "Missing translation for key: " followed by the key. |
| Language.GetTextAfterSwitch | src/edu/ucalgary/oop/LanguageSupport.java:82-92 | After switching to a file rendered from entries, lookup returns the entry's value or the missing-key text. |

## Left out

- SQL and JDBC: statement text, `PreparedStatement`/`ResultSet` handling, `executeCustomQuery` and `updateRecord` are not modelled. The tables are sequences of row datatypes, and an insert or delete is a sequence update.
- The singleton reconnect-and-reload in `DatabaseConnection.getConnection`/`getInstance` is not modelled, because it is connection management. The mock connector's singleton is modelled as `MockStore.GetInstance`.
- The console user interface, menus, regex-validated prompts, `Main`, table printing (`viewSupplies`, `viewInquiries`, `displayInquirerList`, the victim tables) and `chooseLanguage` are not modelled. What the user types arrives as parameters: `Option` for a cancelled or unparsable entry.
- Error logging to files (`logError` in all three classes) and console messages are not modelled, because they have no effect on the registry.
- `FamilyGroup.createNewFamilyGroup`, `Inquirer.createInquirer`, `Inquiry.logInquiry` and the `save…ToDatabase` helpers are not modelled, because they generate ids with database queries. Registration takes the new person id as a parameter.
- Wall-clock time is an integer `now` in seconds, and a day is 86400 seconds. Time zones and daylight saving are not modelled.
- Treatment dates with an offset suffix (such as `2025-04-02Z`) are not modelled. The model parses only offset-free dates.
- Case conversion covers ASCII letters only; Unicode case mapping is not modelled.
- Integers are unbounded. The model does not wrap 32-bit `int` values, so ids near `Integer.MAX_VALUE` do not overflow.
- `HashMap` iteration order is not modelled. Every pass over a map is order-independent in this model.
- When an operation throws part-way through, the model discards the partial mutations already applied to shared objects. The Java objects would keep them.
- Object identity is not modelled. Two equal values are the same value here, so `removeSupply` removes the first equal supply (a `Supply` has no `equals`, so Java compares identity).
- A null language code is not modelled. Java would look up the file `data/null.xml`.
- The `FileNotFoundException` branch of `loadLanguageFile` is not modelled separately, because it repeats the missing-file fallback. File existence is a parameter: the map of available files.
- `loadData` reads a null `inquirer_id` as null (DatabaseConnection.java:169-173) and passes it to the `Inquiry` constructor, which throws (Inquiry.java:28-35). So a single such row aborts the whole load (`Loader.NullInquirerAbortsLoad`).
- MockStore.ValidateDataConsistency: a `Person.equals` comparison that throws (receiver with a null name) counts as "no match" instead of aborting the check. Whether Java reaches such a comparison depends on `HashMap` iteration order.
- Persons.ToString: the full rendering of each class is stated through `Persons.ToStringNamesTheClass`, `Persons.ToStringReadsBackId` and `Inquiries.InquirerOfInquiryReadsBack` (class prefix and id read-back), not character by character.
- Registry.RegisterVictim: the registry is the interface's copy of the maps. In Java, a victim registered in the session goes only into that copy (DisasterVictim.java:107), and so does a new placeholder group. The connector's maps do not see either until the next reload. `Registry.RegisterVictimKeepsConsistency` is a statement about the interface's copy. On the connector's side, the shared location then holds a person its `persons` map lacks.
- Allocation.AllocateSupplyToPerson: the generic allocation rows carry no allocation date, because the column default is not part of this model.
- Allocation.AllocateSupplyToPerson: the "Invalid person ID" check reads the registry, which is the interface's copy. In Java it reads the connector's `persons` (Supply.java:314), so it refuses a person registered in the same session until a reload. The model accepts that person.
- Allocation.AllocateWaterToPerson: the same holds for the water allocation's person check (Water.java:76).
- Allocation.EditSupply: only the `supplies` entry takes the edit. In Java the edited `Supply` object is also the one held in location supply lists and allocated-supply lists, so the edit shows there too; without object identity the model cannot tell which held copies are that object.
- Inquiries.EditInquiry: only the inquiry and its own copy of the inquirer take the new message. In Java that inquirer is the same object as `persons[inquirerId]` and the inquirer of any other inquiry it made, so the message changes there too; without object identity this is not modelled.
