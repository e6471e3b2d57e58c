/**
 * The older program: the same three fixed-capacity tables, but records
 * carry a numeric (Year, Month, Day) date and a result text, prices are
 * whole numbers, IDs are handed out by count (start + n), a delete shifts
 * the contents left while every slot keeps its own ID, and the binary
 * search by ID runs over the closed slot range [0, n].
 */
module Legacy {
  import opened Wrappers
  import opened Text
  import opened Dates
  import opened Store
  import Sorting
  import Orders
  import Entities

  /** Slots per table. */
  const NMAX: nat := 100

  const PACKAGE_ID_START := 10001
  const PATIENT_ID_START := 20001
  const RECORD_ID_START := 30001

  type Patient = Entities.Patient

  /** A package of the older program: its price is an integer. */
  datatype Package = Package(id: int, name: string, category: string, price: int)

  /** A check-up record: value copies of the patient and package, a numeric date and a result. */
  datatype Record = Record(id: int, patient: Patient, package: Package, year: int, month: int, day: int, result: string)

  const NO_PACKAGE := Package(0, "", "", 0)
  const NO_RECORD := Record(0, Entities.NO_PATIENT, NO_PACKAGE, 0, 0, 0, "")

  function PatientId(p: Patient): int { p.id }
  function PackageId(p: Package): int { p.id }
  function RecordId(r: Record): int { r.id }
  function PatientName(p: Patient): string { p.name }
  function PackageName(p: Package): string { p.name }

  /** The entry with its ID replaced, as the delete loop writes it back. */
  function PatientWithId(p: Patient, id: int): Patient { p.(id := id) }
  function PackageWithId(p: Package, id: int): Package { p.(id := id) }
  function RecordWithId(r: Record, id: int): Record { r.(id := id) }

  // ---------------------------------------------------------------------
  // validDate

  /** The days of a month by the older program's switch; 0 for a month that does not exist. */
  function MonthLength(month: int, year: int): int
  {
    if month == 1 || month == 3 || month == 5 || month == 7 || month == 8 || month == 10 || month == 12 then 31
    else if month == 2 then (if IsLeapYear(year) then 29 else 28)
    else if month == 4 || month == 6 || month == 9 || month == 11 then 30
    else 0
  }

  /** Any positive year; a month of the switch; a day from 1 to the month's length. */
  predicate ValidDate(year: int, month: int, day: int)
  {
    if year <= 0 then false
    else if MonthLength(month, year) == 0 then false
    else 0 < day <= MonthLength(month, year)
  }

  /** The older validator accepts exactly the calendar dates of positive years. */
  lemma ValidDateIff(year: int, month: int, day: int)
    ensures ValidDate(year, month, day) <==>
      year > 0 && 1 <= month <= 12 && 1 <= day <= CalendarDays(month, year)
  {
  }

  /** Within 1900 to 2100 the older and the current validator agree. */
  lemma ValidDateAgrees(year: int, month: int, day: int)
    requires 1900 <= year <= 2100
    ensures ValidDate(year, month, day) <==> IsValidDate(day, month, year)
  {
    ValidDateIff(year, month, day);
    IsValidDateIff(day, month, year);
  }

  /** Outside that range they differ: the older one has no upper bound and accepts year 1. */
  lemma ValidDateYears()
    ensures ValidDate(2101, 1, 1) && !IsValidDate(1, 1, 2101)
    ensures ValidDate(1, 1, 1) && !IsValidDate(1, 1, 1)
    ensures !ValidDate(0, 1, 1) && ValidDate(2400, 2, 29) && !ValidDate(2100, 2, 29)
  {
  }

  // ---------------------------------------------------------------------
  // Newest first, by (Year, Month, Day)

  function DateOf(r: Record): (int, int, int) { (r.year, r.month, r.day) }

  /** x comes before y when its date is strictly later. */
  predicate Newer(x: Record, y: Record)
  {
    Later(x.year, x.month, x.day, y.year, y.month, y.day)
  }

  lemma NewerIsStrictWeak()
    ensures Sorting.StrictWeakOrder(Newer)
  {
    Orders.LaterKeyed(Newer, DateOf);
  }

  /** insertionSort_record on a table: stable, newest first. */
  method InsertionSortRecords(tab: Table<Record>)
    requires tab.Valid()
    modifies tab.daftar
    ensures tab.Items() == Sorting.InsertionSorted(old(tab.Items()), Newer)
    ensures Sorting.SortedBy(tab.Items(), Newer)
    ensures multiset(tab.Items()) == multiset(old(tab.Items()))
    ensures forall k :: Sorting.SameKey(tab.Items(), k, Newer) == Sorting.SameKey(old(tab.Items()), k, Newer)
    ensures tab.daftar[tab.n..] == old(tab.daftar[tab.n..])
  {
    ghost var s := tab.Items();
    NewerIsStrictWeak();
    Sorting.InsertionSort(tab.daftar, tab.n, Newer);
    Sorting.InsertionSortedPerm(s, Newer);
    Sorting.InsertionSortedSorted(s, Newer);
    forall k ensures Sorting.SameKey(tab.Items(), k, Newer) == Sorting.SameKey(s, k, Newer) {
      Sorting.InsertionSortedStable(s, k, Newer);
    }
  }

  /** selectionSort_record on a table: newest first. */
  method SelectionSortRecords(tab: Table<Record>)
    requires tab.Valid()
    modifies tab.daftar
    ensures Sorting.SortedBy(tab.Items(), Newer)
    ensures multiset(tab.Items()) == multiset(old(tab.Items()))
    ensures tab.daftar[tab.n..] == old(tab.daftar[tab.n..])
  {
    NewerIsStrictWeak();
    Sorting.SelectionSort(tab.daftar, tab.n, Newer);
  }

  // ---------------------------------------------------------------------
  // Income sums

  function PriceSum(s: seq<Record>): int
  {
    if |s| == 0 then 0 else PriceSum(s[..|s| - 1]) + s[|s| - 1].package.price
  }

  predicate InMonth(r: Record, year: int, month: int)
  {
    r.month == month && r.year == year
  }

  function MonthSum(s: seq<Record>, year: int, month: int): int
  {
    if |s| == 0 then 0
    else MonthSum(s[..|s| - 1], year, month) + (if InMonth(s[|s| - 1], year, month) then s[|s| - 1].package.price else 0)
  }

  function MonthCount(s: seq<Record>, year: int, month: int): (c: nat)
    ensures c <= |s|
  {
    if |s| == 0 then 0
    else MonthCount(s[..|s| - 1], year, month) + (if InMonth(s[|s| - 1], year, month) then 1 else 0)
  }

  predicate PricedOk(r: Record) { r.package.price >= 0 }

  /** With no negative prices a month's income lies between zero and the total. */
  lemma {:induction false} MonthSumBounds(s: seq<Record>, year: int, month: int)
    requires All(s, PricedOk)
    ensures 0 <= MonthSum(s, year, month) <= PriceSum(s)
  {
    if |s| > 0 {
      var init := s[..|s| - 1];
      assert All(init, PricedOk) by {
        forall i | 0 <= i < |init| ensures PricedOk(init[i]) {
          assert init[i] == s[i];
        }
      }
      assert PricedOk(s[|s| - 1]);
      MonthSumBounds(init, year, month);
    }
  }

  /** A month with no record brings in nothing. */
  lemma {:induction false} MonthSumEmpty(s: seq<Record>, year: int, month: int)
    requires MonthCount(s, year, month) == 0
    ensures MonthSum(s, year, month) == 0
  {
    if |s| > 0 {
      MonthSumEmpty(s[..|s| - 1], year, month);
    }
  }

  // ---------------------------------------------------------------------
  // The program state

  /** The three categories of the older program. */
  const CATEGORIES: seq<string> := ["Basic", "Standard", "Advanced"]

  /** What fmt.Scan reads: a non-empty run of non-space characters. */
  predicate IsToken(s: string)
  {
    |s| > 0 && forall i :: 0 <= i < |s| ==> !IsSpace(s[i])
  }

  predicate PatientFieldsOk(p: Patient) { IsToken(p.name) && Entities.IsGender(p.gender) && p.age > 0 }

  predicate PackageFieldsOk(p: Package) { IsToken(p.name) && p.category in CATEGORIES && p.price >= 0 }

  /** Holds for every package slot, the empty ones included. */
  predicate PricedPackage(p: Package) { p.price >= 0 }

  predicate RecordOk(r: Record) { r.package.price >= 0 && ValidDate(r.year, r.month, r.day) }

  /** x sits in slots with the given name, and no later slot has that name. */
  ghost predicate IsLastNamed<T>(slots: seq<T>, nameOf: T -> string, name: string, x: T)
  {
    exists i :: 0 <= i < |slots| && slots[i] == x && nameOf(x) == name &&
      forall j :: i < j < |slots| ==> nameOf(slots[j]) != name
  }

  /**
   * One pass of record_add. Called from the menu (preset false), a
   * patient name of "0" cancels, "list" only lists, and an unknown name
   * adds nothing this pass. Called for a given patient (preset true), the
   * name is not checked, and when no slot carries it the record gets the
   * zero patient. For the package, "0" cancels, "list" only lists and an
   * unknown name adds nothing. Both lookups take the last slot, live or
   * not, whose name matches exactly.
   */
  function RecordToAdd(patientSlots: seq<Patient>, packageSlots: seq<Package>, preset: bool,
                       patientName: string, packageName: string, id: int,
                       year: int, month: int, day: int, result: string): (r: Option<Record>)
    ensures r.None? <==>
      (!preset && (patientName == "0" || patientName == "list" || patientName !in Names(patientSlots, PatientName))) ||
      packageName == "0" || packageName == "list" || packageName !in Names(packageSlots, PackageName)
    ensures r.Some? ==>
      r.value.id == id && r.value.year == year && r.value.month == month && r.value.day == day && r.value.result == result &&
      IsLastNamed(packageSlots, PackageName, packageName, r.value.package)
    ensures r.Some? ==>
      if patientName in Names(patientSlots, PatientName) then IsLastNamed(patientSlots, PatientName, patientName, r.value.patient)
      else preset && r.value.patient == Entities.NO_PATIENT
  {
    var pi := LastIndexOf(Names(patientSlots, PatientName), patientName);
    var ki := LastIndexOf(Names(packageSlots, PackageName), packageName);
    if !preset && (patientName == "0" || patientName == "list" || pi == -1) then None
    else if packageName == "0" || packageName == "list" || ki == -1 then None
    else
      var patient := if pi == -1 then Entities.NO_PATIENT else patientSlots[pi];
      assert pi != -1 ==> IsLastNamed(patientSlots, PatientName, patientName, patient) by {
        if pi != -1 {
          LastIndexIsLast(patientSlots, PatientName, patientName, pi);
        }
      }
      LastIndexIsLast(packageSlots, PackageName, packageName, ki);
      Some(Record(id, patient, packageSlots[ki], year, month, day, result))
  }

  lemma LastIndexIsLast<T>(slots: seq<T>, nameOf: T -> string, name: string, i: int)
    requires i == LastIndexOf(Names(slots, nameOf), name) && i != -1
    ensures IsLastNamed(slots, nameOf, name, slots[i])
  {
    var names := Names(slots, nameOf);
    assert names[i] == nameOf(slots[i]);
    forall j | i < j < |slots| ensures nameOf(slots[j]) != name {
      assert names[j] == nameOf(slots[j]);
    }
  }

  class Archive {
    const patients: Table<Patient>
    const packages: Table<Package>
    const records: Table<Record>

    /**
     * Each table has NMAX slots and positional IDs start + i on its live
     * slots; no package slot, live or not, has a negative price; every
     * live record has a valid date and a non-negative price.
     */
    ghost predicate Valid()
      reads this, patients, packages, records, patients.daftar, packages.daftar, records.daftar
    {
      Separate() && PatientsValid() && PackagesValid() && RecordsValid()
    }

    predicate Separate()
      reads this, patients, packages, records
    {
      var pa: object, pd: object := patients, patients.daftar;
      var ka: object, kd: object := packages, packages.daftar;
      var ra: object, rd: object := records, records.daftar;
      pa != ka && pa != kd && pd != ka && pd != kd &&
      pa != ra && pa != rd && pd != ra && pd != rd &&
      ka != ra && ka != rd && kd != ra && kd != rd
    }

    ghost predicate PatientsValid()
      reads this, patients, patients.daftar
    {
      patients.Valid() && patients.cap == NMAX &&
      Positional(Ids(patients.Items(), PatientId), PATIENT_ID_START) &&
      All(patients.Items(), PatientFieldsOk)
    }

    ghost predicate PackagesValid()
      reads this, packages, packages.daftar
    {
      packages.Valid() && packages.cap == NMAX &&
      Positional(Ids(packages.Items(), PackageId), PACKAGE_ID_START) &&
      All(packages.daftar[..], PricedPackage) &&
      All(packages.Items(), PackageFieldsOk)
    }

    ghost predicate RecordsValid()
      reads this, records, records.daftar
    {
      records.Valid() && records.cap == NMAX &&
      Positional(Ids(records.Items(), RecordId), RECORD_ID_START) &&
      All(records.Items(), RecordOk)
    }

    constructor ()
      ensures Valid()
      ensures fresh(patients) && fresh(patients.daftar) && patients.n == 0
      ensures fresh(packages) && fresh(packages.daftar) && packages.n == 0
      ensures fresh(records) && fresh(records.daftar) && records.n == 0
    {
      patients := new Table(NMAX, Entities.NO_PATIENT);
      packages := new Table(NMAX, NO_PACKAGE);
      records := new Table(NMAX, NO_RECORD);
    }

    // -------------------------------------------------------------------
    // Adding: ID start + n at slot n, with no capacity check of its own

    /**
     * patient_add: the new patient gets ID 20001 + n. The prompts repeat
     * until the age is positive and the gender is M or F.
     */
    method AddPatient(name: string, gender: string, age: int) returns (id: int)
      requires Valid() && patients.n < NMAX
      requires IsToken(name) && Entities.IsGender(gender) && age > 0
      modifies patients, patients.daftar
      ensures Valid()
      ensures id == PATIENT_ID_START + old(patients.n)
      ensures patients.Items() == old(patients.Items()) + [Entities.Patient(id, name, gender, age)]
      ensures patients.daftar[..] == old(patients.daftar[..])[old(patients.n) := Entities.Patient(id, name, gender, age)]
    {
      id := PATIENT_ID_START + patients.n;
      var p := Entities.Patient(id, name, gender, age);
      AppendPositional(patients.Items(), p, PatientId, PatientFieldsOk, PATIENT_ID_START);
      patients.Append(p);
    }

    /**
     * package_add: the new package gets ID 10001 + n. The prompts repeat
     * until the category is one of the three and the price is not negative.
     * The confirmation then prints slot n + 1, so the table must keep two free
     * slots: with 99 packages that read is past the array.
     */
    method AddPackage(name: string, category: string, price: int) returns (id: int)
      requires Valid() && packages.n < NMAX - 1
      requires IsToken(name) && category in CATEGORIES && price >= 0
      modifies packages, packages.daftar
      ensures Valid()
      ensures id == PACKAGE_ID_START + old(packages.n)
      ensures packages.Items() == old(packages.Items()) + [Package(id, name, category, price)]
      ensures packages.daftar[..] == old(packages.daftar[..])[old(packages.n) := Package(id, name, category, price)]
    {
      id := PACKAGE_ID_START + packages.n;
      var p := Package(id, name, category, price);
      AppendPositional(packages.Items(), p, PackageId, PackageFieldsOk, PACKAGE_ID_START);
      UpdateKeepsAll(packages.daftar[..], packages.n, p, PricedPackage);
      packages.Append(p);
    }

    /**
     * The lookups of record_add: the last slot with the patient's name and
     * the last slot with the package's name, combined as RecordToAdd says.
     */
    method RecordFor(preset: bool, patientName: string, packageName: string, id: int,
                     year: int, month: int, day: int, result: string) returns (o: Option<Record>)
      requires Valid()
      ensures o == RecordToAdd(patients.daftar[..], packages.daftar[..], preset, patientName, packageName,
                               id, year, month, day, result)
    {
      if !preset && (patientName == "0" || patientName == "list") {
        return None;
      }
      var pi := patients.LastWithName(PatientName, patientName);
      if !preset && pi == -1 {
        return None;
      }
      var patient := if pi == -1 then Entities.NO_PATIENT else patients.daftar[pi];
      if packageName == "0" || packageName == "list" {
        return None;
      }
      var ki := packages.LastWithName(PackageName, packageName);
      if ki == -1 {
        return None;
      }
      return Some(Record(id, patient, packages.daftar[ki], year, month, day, result));
    }

    /**
     * record_add, one pass; the date prompt repeats until the date is
     * valid. The record RecordToAdd describes, with ID 30001 + n, is
     * written at slot n and counted; without one nothing changes.
     */
    method AddRecord(preset: bool, patientName: string, packageName: string, year: int, month: int, day: int, result: string)
      returns (r: Option<int>)
      requires Valid() && records.n < NMAX && ValidDate(year, month, day)
      modifies records, records.daftar
      ensures Valid()
      ensures var rec := RecordToAdd(patients.daftar[..], packages.daftar[..], preset, patientName, packageName,
                                     RECORD_ID_START + old(records.n), year, month, day, result);
        match rec
        case None =>
          r == None && records.n == old(records.n) && records.daftar[..] == old(records.daftar[..])
        case Some(x) =>
          r == Some(x.id) && records.Items() == old(records.Items()) + [x] &&
          records.daftar[..] == old(records.daftar[..])[old(records.n) := x]
    {
      var o := RecordFor(preset, patientName, packageName, RECORD_ID_START + records.n, year, month, day, result);
      if o.None? {
        return None;
      }
      var rec := o.value;
      assert IsLastNamed(packages.daftar[..], PackageName, packageName, rec.package);
      assert PricedPackage(rec.package);
      AppendPositional(records.Items(), rec, RecordId, RecordOk, RECORD_ID_START);
      records.Append(rec);
      return Some(rec.id);
    }

    // -------------------------------------------------------------------
    // binarySearch_idToIndex: the closed range [0, n]

    /** binarySearch_idToIndex("patient", id). */
    method FindPatient(id: int) returns (r: int)
      requires Valid() && patients.n < NMAX
      ensures r == BinarySearch(Ids(patients.daftar[..patients.n + 1], PatientId), 0, patients.n, id)
      ensures r == -1 || (0 <= r <= patients.n && patients.daftar[r].id == id)
      ensures PATIENT_ID_START <= id < PATIENT_ID_START + patients.n ==> r == id - PATIENT_ID_START
    {
      r := FindClosed(patients, PatientId, PATIENT_ID_START, id);
    }

    /** binarySearch_idToIndex("package", id). */
    method FindPackage(id: int) returns (r: int)
      requires Valid() && packages.n < NMAX
      ensures r == BinarySearch(Ids(packages.daftar[..packages.n + 1], PackageId), 0, packages.n, id)
      ensures r == -1 || (0 <= r <= packages.n && packages.daftar[r].id == id)
      ensures PACKAGE_ID_START <= id < PACKAGE_ID_START + packages.n ==> r == id - PACKAGE_ID_START
    {
      r := FindClosed(packages, PackageId, PACKAGE_ID_START, id);
    }

    /** binarySearch_idToIndex("record", id). */
    method FindRecord(id: int) returns (r: int)
      requires Valid() && records.n < NMAX
      ensures r == BinarySearch(Ids(records.daftar[..records.n + 1], RecordId), 0, records.n, id)
      ensures r == -1 || (0 <= r <= records.n && records.daftar[r].id == id)
      ensures RECORD_ID_START <= id < RECORD_ID_START + records.n ==> r == id - RECORD_ID_START
    {
      r := FindClosed(records, RecordId, RECORD_ID_START, id);
    }

    /** The search as intended, over the live slots [0, n - 1]: exactly the live IDs are found. */
    method FindPatientLive(id: int) returns (r: int)
      requires Valid()
      ensures -1 <= r < patients.n
      ensures r == -1 <==> !(PATIENT_ID_START <= id < PATIENT_ID_START + patients.n)
      ensures r != -1 ==> r == id - PATIENT_ID_START && patients.daftar[r].id == id
    {
      r := patients.BinarySearchById(PatientId, id);
      LiveSearchExact(Ids(patients.Items(), PatientId), PATIENT_ID_START, id);
    }

    method FindPackageLive(id: int) returns (r: int)
      requires Valid()
      ensures -1 <= r < packages.n
      ensures r == -1 <==> !(PACKAGE_ID_START <= id < PACKAGE_ID_START + packages.n)
      ensures r != -1 ==> r == id - PACKAGE_ID_START && packages.daftar[r].id == id
    {
      r := packages.BinarySearchById(PackageId, id);
      LiveSearchExact(Ids(packages.Items(), PackageId), PACKAGE_ID_START, id);
    }

    method FindRecordLive(id: int) returns (r: int)
      requires Valid()
      ensures -1 <= r < records.n
      ensures r == -1 <==> !(RECORD_ID_START <= id < RECORD_ID_START + records.n)
      ensures r != -1 ==> r == id - RECORD_ID_START && records.daftar[r].id == id
    {
      r := records.BinarySearchById(RecordId, id);
      LiveSearchExact(Ids(records.Items(), RecordId), RECORD_ID_START, id);
    }

    // -------------------------------------------------------------------
    // Deleting: the contents shift left, the IDs stay where they are

    /**
     * patient_delete on "yes": slots idx .. n - 1 take their right
     * neighbour's fields but keep their own IDs, slot n is reset and n
     * drops by one. The loop reads slot n. idx comes from the closed
     * search, so it may be n itself: then only slot n is reset and the
     * last live entry drops out of the count. Any other answer changes
     * nothing.
     */
    method DeletePatient(idx: nat, accept: string) returns (deleted: bool)
      requires Valid() && idx <= patients.n && 0 < patients.n < NMAX
      modifies patients, patients.daftar
      ensures Valid()
      ensures deleted == (accept == "yes")
      ensures deleted ==> (patients.n == old(patients.n) - 1 &&
        patients.daftar[..] == KeepIdsShift(old(patients.daftar[..]), idx, old(patients.n), PatientId, PatientWithId, Entities.NO_PATIENT))
      ensures !deleted ==> patients.n == old(patients.n) && patients.daftar[..] == old(patients.daftar[..])
    {
      if accept != "yes" {
        return false;
      }
      ghost var s := patients.daftar[..];
      KeepIdsShiftPositional(s, idx, patients.n, PatientId, PatientWithId, Entities.NO_PATIENT, PATIENT_ID_START);
      KeepIdsShiftAll(s, idx, patients.n, PatientId, PatientWithId, Entities.NO_PATIENT, PatientFieldsOk);
      patients.DeleteKeepingIds(idx, PatientId, PatientWithId, Entities.NO_PATIENT);
      return true;
    }

    method DeletePackage(idx: nat, accept: string) returns (deleted: bool)
      requires Valid() && idx <= packages.n && 0 < packages.n < NMAX
      modifies packages, packages.daftar
      ensures Valid()
      ensures deleted == (accept == "yes")
      ensures deleted ==> (packages.n == old(packages.n) - 1 &&
        packages.daftar[..] == KeepIdsShift(old(packages.daftar[..]), idx, old(packages.n), PackageId, PackageWithId, NO_PACKAGE))
      ensures !deleted ==> packages.n == old(packages.n) && packages.daftar[..] == old(packages.daftar[..])
    {
      if accept != "yes" {
        return false;
      }
      ghost var s := packages.daftar[..];
      KeepIdsShiftPositional(s, idx, packages.n, PackageId, PackageWithId, NO_PACKAGE, PACKAGE_ID_START);
      KeepIdsShiftAll(s, idx, packages.n, PackageId, PackageWithId, NO_PACKAGE, PricedPackage);
      KeepIdsShiftAll(s, idx, packages.n, PackageId, PackageWithId, NO_PACKAGE, PackageFieldsOk);
      packages.DeleteKeepingIds(idx, PackageId, PackageWithId, NO_PACKAGE);
      return true;
    }

    method DeleteRecord(idx: nat, accept: string) returns (deleted: bool)
      requires Valid() && idx <= records.n && 0 < records.n < NMAX
      modifies records, records.daftar
      ensures Valid()
      ensures deleted == (accept == "yes")
      ensures deleted ==> (records.n == old(records.n) - 1 &&
        records.daftar[..] == KeepIdsShift(old(records.daftar[..]), idx, old(records.n), RecordId, RecordWithId, NO_RECORD))
      ensures !deleted ==> records.n == old(records.n) && records.daftar[..] == old(records.daftar[..])
    {
      if accept != "yes" {
        return false;
      }
      ghost var s := records.daftar[..];
      KeepIdsShiftPositional(s, idx, records.n, RecordId, RecordWithId, NO_RECORD, RECORD_ID_START);
      KeepIdsShiftAll(s, idx, records.n, RecordId, RecordWithId, NO_RECORD, RecordOk);
      records.DeleteKeepingIds(idx, RecordId, RecordWithId, NO_RECORD);
      return true;
    }

    // -------------------------------------------------------------------
    // Record views: both sorts run on a value copy of the table

    /** The records newest first, as patient_show lists them; the table keeps its order. */
    method RecordsNewestFirst() returns (view: seq<Record>)
      requires Valid()
      ensures view == Sorting.InsertionSorted(records.Items(), Newer)
      ensures Sorting.SortedBy(view, Newer) && multiset(view) == multiset(records.Items())
    {
      var copy := new Table.Copy(records);
      InsertionSortRecords(copy);
      view := copy.Items();
    }

    /** The records newest first, as patient_select lists them; the table keeps its order. */
    method RecordsNewestFirstBySelection() returns (view: seq<Record>)
      requires Valid()
      ensures Sorting.SortedBy(view, Newer) && multiset(view) == multiset(records.Items())
    {
      var copy := new Table.Copy(records);
      SelectionSortRecords(copy);
      view := copy.Items();
    }

    // -------------------------------------------------------------------
    // report_management

    /** The total income: the package prices of all live records. */
    method TotalIncome() returns (income: int)
      requires Valid()
      ensures income == PriceSum(records.Items())
      ensures income >= 0
    {
      ghost var s := records.Items();
      income := 0;
      var i := 0;
      while i < records.n
        invariant i <= records.n
        invariant income == PriceSum(s[..i])
      {
        ghost var t := s[..i + 1];
        assert t[..i] == s[..i] && t[i] == records.daftar[i];
        income := income + records.daftar[i].package.price;
        i := i + 1;
      }
      assert s[..records.n] == s;
      assert All(s, PricedOk) by {
        forall k | 0 <= k < |s| ensures PricedOk(s[k]) {
          assert RecordOk(s[k]);
        }
      }
      MonthSumBounds(s, 0, 0);
    }

    /** Income and record count of one month, by the records' Month and Year. */
    method MonthlyIncome(year: int, month: int) returns (income: int, nRecord: nat)
      requires Valid()
      ensures income == MonthSum(records.Items(), year, month)
      ensures nRecord == MonthCount(records.Items(), year, month)
      ensures nRecord <= records.n
      ensures 0 <= income <= PriceSum(records.Items())
    {
      ghost var s := records.Items();
      income, nRecord := 0, 0;
      var i := 0;
      while i < records.n
        invariant i <= records.n
        invariant income == MonthSum(s[..i], year, month)
        invariant nRecord == MonthCount(s[..i], year, month)
      {
        ghost var t := s[..i + 1];
        assert t[..i] == s[..i] && t[i] == records.daftar[i];
        if records.daftar[i].month == month && records.daftar[i].year == year {
          income := income + records.daftar[i].package.price;
          nRecord := nRecord + 1;
        }
        i := i + 1;
      }
      assert s[..records.n] == s;
      assert All(s, PricedOk) by {
        forall k | 0 <= k < |s| ensures PricedOk(s[k]) {
          assert RecordOk(s[k]);
        }
      }
      MonthSumBounds(s, year, month);
    }
  }

  /**
   * The search over the closed slot range [0, n], which reads slot n as
   * well and so needs a free slot behind the live ones. On positional IDs
   * it finds every live ID at its slot.
   */
  method FindClosed<T>(tab: Table<T>, idOf: T -> int, start: int, id: int) returns (r: int)
    requires tab.Valid() && tab.n < tab.cap && Positional(Ids(tab.Items(), idOf), start)
    ensures r == BinarySearch(Ids(tab.daftar[..tab.n + 1], idOf), 0, tab.n, id)
    ensures r == -1 || (0 <= r <= tab.n && idOf(tab.daftar[r]) == id)
    ensures start <= id < start + tab.n ==> r == id - start
  {
    r := tab.BinarySearchClosed(idOf, id);
    if start <= id < start + tab.n {
      assert tab.daftar[..][..tab.n] == tab.Items();
      ClosedSearchLive(tab.daftar[..], tab.n, idOf, start, id - start);
    }
  }

  /** On positional live IDs the closed search finds live slot k. */
  lemma ClosedSearchLive<T>(slots: seq<T>, n: nat, idOf: T -> int, start: int, k: nat)
    requires k < n < |slots|
    requires Positional(Ids(slots[..n], idOf), start)
    ensures BinarySearch(Ids(slots[..n + 1], idOf), 0, n, start + k) == k
  {
    var ids := Ids(slots[..n + 1], idOf);
    IdsPrefix(slots, n, idOf);
    assert ids[..n] == Ids(slots[..n], idOf);
    ClosedSearchFindsLive(ids, n, start, k);
  }

  /** On positional IDs the live-range search succeeds exactly on start .. start + n - 1. */
  lemma LiveSearchExact(ids: seq<int>, start: int, id: int)
    requires Positional(ids, start)
    ensures var r := BinarySearch(ids, 0, |ids| - 1, id);
      (r == -1 <==> !(start <= id < start + |ids|)) && (r != -1 ==> r == id - start)
  {
    PositionalAscending(ids, start);
    BinarySearchComplete(ids, id);
    if start <= id < start + |ids| {
      assert ids[id - start] == id;
      BinarySearchFindsPresent(ids, id, id - start);
    }
  }

  /**
   * After a delete the closed search still lands on slot n, which is no
   * longer live: with packages 10001 and 10002, deleting the first one
   * leaves slot 1 carrying ID 10002, and the search for 10002 returns 1
   * although only slot 0 is live.
   */
  lemma PhantomSlotAfterDelete(s: seq<Package>, idx: nat, n: nat)
    requires idx < n < |s|
    requires Positional(Ids(s[..n], PackageId), PACKAGE_ID_START)
    ensures var r := DeletePackageSlots(s, idx, n);
      BinarySearch(Ids(r[..n], PackageId), 0, n - 1, PACKAGE_ID_START + (n - 1)) == n - 1 &&
      PACKAGE_ID_START + (n - 1) !in Ids(r[..n - 1], PackageId) &&
      BinarySearch(Ids(r[..n - 1], PackageId), 0, n - 2, PACKAGE_ID_START + (n - 1)) == -1
  {
    ClosedSearchFindsStaleSlot(s, idx, n, PackageId, PackageWithId, NO_PACKAGE, PACKAGE_ID_START);
    KeepIdsShiftPositional(s, idx, n, PackageId, PackageWithId, NO_PACKAGE, PACKAGE_ID_START);
    var r := KeepIdsShift(s, idx, n, PackageId, PackageWithId, NO_PACKAGE);
    LiveSearchExact(Ids(r[..n - 1], PackageId), PACKAGE_ID_START, PACKAGE_ID_START + (n - 1));
  }

  /**
   * Deleting the stale slot the closed search lands on (slot n - 1 of the
   * shortened table, PhantomSlotAfterDelete) loses an entry nobody chose:
   * with packages 10001, 10002 and 10003, deleting 10001 leaves 10003 on
   * a stale slot 2; deleting that slot drops the live 10002, now on slot
   * 1, out of the count.
   */
  lemma PhantomDeleteDropsLast(s: seq<Package>, idx: nat, n: nat)
    requires idx < n < |s| && n >= 2
    requires Positional(Ids(s[..n], PackageId), PACKAGE_ID_START)
    ensures PACKAGE_ID_START + (n - 2) in Ids(DeletePackageSlots(s, idx, n)[..n - 1], PackageId)
    ensures PACKAGE_ID_START + (n - 2) !in Ids(DeletePackageSlots(DeletePackageSlots(s, idx, n), n - 1, n - 1)[..n - 2], PackageId)
  {
    var r := DeletePackageSlots(s, idx, n);
    KeepIdsShiftPositional(s, idx, n, PackageId, PackageWithId, NO_PACKAGE, PACKAGE_ID_START);
    var m := n - 1;
    assert Positional(Ids(r[..m], PackageId), PACKAGE_ID_START);
    DeleteAtCountDrops(r, m, PackageId, PackageWithId, NO_PACKAGE, PACKAGE_ID_START);
    assert DeletePackageSlots(r, m, m) == KeepIdsShift(r, m, m, PackageId, PackageWithId, NO_PACKAGE);
    assert PACKAGE_ID_START + (n - 2) == PACKAGE_ID_START + (m - 1);
  }

  /** The package slots after the older delete at idx with n live entries. */
  function DeletePackageSlots(s: seq<Package>, idx: nat, n: nat): seq<Package>
    requires idx <= n < |s|
  {
    KeepIdsShift(s, idx, n, PackageId, PackageWithId, NO_PACKAGE)
  }
}
