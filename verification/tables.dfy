/*******************************************************************************
 *  Tables: the database rows the registry is loaded from and the allocation
 *  rules write to. A nullable column is an `Option`.
 *******************************************************************************/

module Tables {
  import opened Wrappers
  import opened JavaText

  datatype PersonRow = PersonRow(
    id: int,
    firstName: JStr,
    lastName: JStr,
    dateOfBirth: JStr,
    gender: JStr,
    phoneNumber: JStr,
    familyGroup: Option<int>)

  datatype LocationRow = LocationRow(id: int, name: JStr, address: JStr)

  datatype SupplyRow = SupplyRow(id: int, supplyType: JStr, comments: JStr)

  /** `seekingId` holds what `getInt` reads, 0 for a null column. */
  datatype InquiryRow = InquiryRow(id: int, inquirerId: Option<int>, seekingId: int, comments: JStr)

  /** `locationId` holds what `getInt` reads, 0 for a null column; `treatedAt` is the
      text of the treatment timestamp, `None` for a null column. */
  datatype MedicalRow = MedicalRow(id: int, locationId: int, treatmentDetails: JStr, treatedAt: Option<string>)

  datatype PersonLocationRow = PersonLocationRow(personId: Option<int>, locationId: Option<int>)

  /** One row of SupplyAllocation; the allocation instant is in seconds. */
  datatype AllocationRow = AllocationRow(supplyId: int, personId: Option<int>, locationId: Option<int>, allocationDate: Option<int>)

  datatype Tables = Tables(
    persons: seq<PersonRow>,
    locations: seq<LocationRow>,
    supplies: seq<SupplyRow>,
    inquiries: seq<InquiryRow>,
    medicalRecords: seq<MedicalRow>,
    personLocations: seq<PersonLocationRow>,
    allocations: seq<AllocationRow>)
}
