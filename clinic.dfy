/**
 * The current program's three tables -- patients, packages and medical
 * records, 100 slots each -- and the store mutations behind its add,
 * update, delete, list, search and report commands. Each command is one
 * call that receives the values its prompts returned.
 */
module Clinic {
  import opened Wrappers
  import opened Text
  import opened Dates
  import opened Store
  import Sorting
  import opened Entities

  const NMAX: nat := 100

  datatype AddRecordOutcome = RecordAdded(id: int) | RecordsFull | NoPatients | NoPackages

  /** Binary search by ID stays complete only while the IDs are ascending. */
  ghost predicate IdsAscending<T>(s: seq<T>, idOf: T -> int)
  {
    StrictlyAscending(Ids(s, idOf))
  }

  /** The first slot a linear scan with HasRecordId reports is the first occurrence of the ID. */
  lemma FirstWithIdIsIndexOf(s: seq<Record>, id: int, r: int)
    requires -1 <= r < |s|
    requires r >= 0 ==> HasRecordId(id)(s[r])
    requires forall i :: 0 <= i < |s| && (r == -1 || i < r) ==> !HasRecordId(id)(s[i])
    ensures r == IndexOf(Ids(s, RecordId), id)
  {
    var ids := Ids(s, RecordId);
    var k := IndexOf(ids, id);
    if k != -1 {
      assert HasRecordId(id)(s[k]);
    }
  }

  class Clinic {
    const patients: Table<Patient>
    const packages: Table<Package>
    const records: Table<Record>

    /** Three full-size tables whose live entries went through the prompts and have distinct IDs. */
    ghost predicate Valid()
      reads this, patients, packages, records, patients.daftar, packages.daftar, records.daftar
    {
      Separate() && PatientsValid() && PackagesValid() && RecordsValid()
    }

    /** The three tables and their arrays are six distinct objects. */
    predicate Separate()
      reads this, patients, packages, records
    {
      var pa: object, pd: object := patients, patients.daftar;
      var ka: object, kd: object := packages, packages.daftar;
      var ra: object, rd: object := records, records.daftar;
      pa != ka && pa != kd && pd != ka && pd != kd &&
      pa != ra && pa != rd && pd != ra && pd != rd &&
      ka != ra && ka != rd && kd != ra && kd != rd
    }

    ghost predicate PatientsValid()
      reads this, patients, patients.daftar
    {
      patients.Valid() && patients.cap == NMAX &&
      All(patients.Items(), PatientOk) && DistinctBy(patients.Items(), PatientId)
    }

    ghost predicate PackagesValid()
      reads this, packages, packages.daftar
    {
      packages.Valid() && packages.cap == NMAX &&
      All(packages.Items(), PackageOk) && DistinctBy(packages.Items(), PackageId)
    }

    ghost predicate RecordsValid()
      reads this, records, records.daftar
    {
      records.Valid() && records.cap == NMAX &&
      All(records.Items(), RecordOk) && DistinctBy(records.Items(), RecordId)
    }

    constructor ()
      ensures Valid() && fresh(patients) && fresh(packages) && fresh(records)
      ensures fresh(patients.daftar) && fresh(packages.daftar) && fresh(records.daftar)
      ensures patients.n == 0 && packages.n == 0 && records.n == 0
    {
      patients := new Table(NMAX, NO_PATIENT);
      packages := new Table(NMAX, NO_PACKAGE);
      records := new Table(NMAX, NO_RECORD);
    }

    // -------------------------------------------------------------------
    // Add: refused at capacity, otherwise the next free ID is written at slot n

    method AddPatient(name: string, gender: string, age: int) returns (r: Option<int>)
      requires Valid() && IsInputText(name) && IsGender(gender) && 0 <= age <= 150
      modifies patients, patients.daftar
      ensures Valid()
      ensures old(patients.n) >= NMAX ==> r.None? && patients.n == old(patients.n) && patients.daftar[..] == old(patients.daftar[..])
      ensures old(patients.n) < NMAX ==>
        r == Some(NextIdOf(Ids(old(patients.Items()), PatientId), PATIENT_ID_START)) &&
        patients.daftar[..] == old(patients.daftar[..])[old(patients.n) := Patient(r.value, name, gender, age)] &&
        patients.Items() == old(patients.Items()) + [Patient(r.value, name, gender, age)]
      ensures IdsAscending(old(patients.Items()), PatientId) ==> IdsAscending(patients.Items(), PatientId)
    {
      if patients.n >= NMAX {
        return None;
      }
      ghost var s := patients.Items();
      var id := patients.NextId(PatientId, PATIENT_ID_START);
      NextIdOfBounds(Ids(s, PatientId), PATIENT_ID_START);
      var p := Patient(id, name, gender, age);
      AppendFresh(s, p, PatientId, PatientOk, PATIENT_ID_START);
      patients.Append(p);
      return Some(id);
    }
    method AddPackage(name: string, category: string, price: real) returns (r: Option<int>)
      requires Valid() && IsInputText(name) && category in CATEGORIES && price >= 0.0
      modifies packages, packages.daftar
      ensures Valid()
      ensures old(packages.n) >= NMAX ==> r.None? && packages.n == old(packages.n) && packages.daftar[..] == old(packages.daftar[..])
      ensures old(packages.n) < NMAX ==>
        r == Some(NextIdOf(Ids(old(packages.Items()), PackageId), PACKAGE_ID_START)) &&
        packages.daftar[..] == old(packages.daftar[..])[old(packages.n) := Package(r.value, name, category, price)] &&
        packages.Items() == old(packages.Items()) + [Package(r.value, name, category, price)]
      ensures IdsAscending(old(packages.Items()), PackageId) ==> IdsAscending(packages.Items(), PackageId)
    {
      if packages.n >= NMAX {
        return None;
      }
      ghost var s := packages.Items();
      var id := packages.NextId(PackageId, PACKAGE_ID_START);
      NextIdOfBounds(Ids(s, PackageId), PACKAGE_ID_START);
      var p := Package(id, name, category, price);
      AppendFresh(s, p, PackageId, PackageOk, PACKAGE_ID_START);
      packages.Append(p);
      return Some(id);
    }

    /**
     * Refused when the record table is full, then when there is no
     * patient, then when there is no package. Otherwise the record holds
     * copies of the chosen patient and package (menu numbers count from 1)
     * and the zero-padded date.
     */
    method AddRecord(patientChoice: int, packageChoice: int, day: nat, month: nat, year: nat) returns (r: AddRecordOutcome)
      requires Valid() && IsValidDate(day, month, year)
      requires patients.n > 0 ==> 1 <= patientChoice <= patients.n
      requires packages.n > 0 ==> 1 <= packageChoice <= packages.n
      modifies records, records.daftar
      ensures Valid()
      ensures r == (if old(records.n) >= NMAX then RecordsFull
        else if patients.n == 0 then NoPatients
        else if packages.n == 0 then NoPackages
        else RecordAdded(NextIdOf(Ids(old(records.Items()), RecordId), RECORD_ID_START)))
      ensures !r.RecordAdded? ==> records.n == old(records.n) && records.daftar[..] == old(records.daftar[..])
      ensures r.RecordAdded? ==>
        var added := Record(r.id, patients.daftar[patientChoice - 1], packages.daftar[packageChoice - 1], FormatDate(day, month, year));
        records.daftar[..] == old(records.daftar[..])[old(records.n) := added] &&
        records.Items() == old(records.Items()) + [added]
    {
      if records.n >= NMAX {
        return RecordsFull;
      }
      if patients.n == 0 {
        return NoPatients;
      }
      if packages.n == 0 {
        return NoPackages;
      }
      var selectedPatient := patients.daftar[patientChoice - 1];
      var selectedPackage := packages.daftar[packageChoice - 1];
      var date := FormatDate(day, month, year);
      assert IsDateText(date);
      ghost var s := records.Items();
      var id := records.NextId(RecordId, RECORD_ID_START);
      NextIdOfBounds(Ids(s, RecordId), RECORD_ID_START);
      var rec := Record(id, selectedPatient, selectedPackage, date);
      assert PatientOk(selectedPatient) by {
        assert selectedPatient == patients.Items()[patientChoice - 1];
      }
      assert PackageOk(selectedPackage) by {
        assert selectedPackage == packages.Items()[packageChoice - 1];
      }
      AppendFresh(s, rec, RecordId, RecordOk, RECORD_ID_START);
      records.Append(rec);
      return RecordAdded(id);
    }

    // -------------------------------------------------------------------
    // Update: binary search by ID, then the chosen fields of that one slot

    method UpdatePatient(id: int, choice: int, name: string, gender: string, age: int) returns (found: bool)
      requires Valid() && PatientUpdateOk(choice, name, gender, age)
      modifies patients.daftar
      ensures Valid()
      ensures var k := BinarySearch(Ids(old(patients.Items()), PatientId), 0, patients.n - 1, id);
        found == (k != -1) &&
        (found ==> patients.daftar[..] == old(patients.daftar[..])[k := UpdatePatientFields(old(patients.daftar[k]), choice, name, gender, age)]) &&
        (!found ==> patients.daftar[..] == old(patients.daftar[..]))
      ensures Ids(patients.Items(), PatientId) == Ids(old(patients.Items()), PatientId)
    {
      var idx := patients.BinarySearchById(PatientId, id);
      if idx == -1 {
        return false;
      }
      ghost var s := patients.Items();
      ghost var before := patients.daftar[..];
      var current := patients.daftar[idx];
      var p := UpdatePatientFields(current, choice, name, gender, age);
      UpdatePatientOk(current, choice, name, gender, age);
      ReplaceKeeps(s, idx, p, PatientId, PatientOk);
      patients.SetAt(idx, p);
      assert patients.Items() == s[idx := p];
      assert patients.daftar[..] == before[idx := p];
      return true;
    }

    method UpdatePackage(id: int, choice: int, name: string, category: string, price: real) returns (found: bool)
      requires Valid() && PackageUpdateOk(choice, name, category, price)
      modifies packages.daftar
      ensures Valid()
      ensures var k := BinarySearch(Ids(old(packages.Items()), PackageId), 0, packages.n - 1, id);
        found == (k != -1) &&
        (found ==> packages.daftar[..] == old(packages.daftar[..])[k := UpdatePackageFields(old(packages.daftar[k]), choice, name, category, price)]) &&
        (!found ==> packages.daftar[..] == old(packages.daftar[..]))
      ensures Ids(packages.Items(), PackageId) == Ids(old(packages.Items()), PackageId)
    {
      var idx := packages.BinarySearchById(PackageId, id);
      if idx == -1 {
        return false;
      }
      ghost var s := packages.Items();
      ghost var before := packages.daftar[..];
      var current := packages.daftar[idx];
      var p := UpdatePackageFields(current, choice, name, category, price);
      UpdatePackageOk(current, choice, name, category, price);
      ReplaceKeeps(s, idx, p, PackageId, PackageOk);
      packages.SetAt(idx, p);
      assert packages.Items() == s[idx := p];
      assert packages.daftar[..] == before[idx := p];
      return true;
    }

    // -------------------------------------------------------------------
    // Delete: locate the slot, ask for confirmation, shift the rest left

    method DeletePatient(id: int, confirm: string) returns (deleted: bool)
      requires Valid()
      modifies patients, patients.daftar
      ensures Valid()
      ensures var k := BinarySearch(Ids(old(patients.Items()), PatientId), 0, old(patients.n) - 1, id);
        deleted == (k != -1 && IsYes(confirm)) &&
        (deleted ==> patients.Items() == old(patients.Items()[..k] + patients.Items()[k + 1..])) &&
        (!deleted ==> patients.n == old(patients.n) && patients.daftar[..] == old(patients.daftar[..]))
      ensures IdsAscending(old(patients.Items()), PatientId) ==> IdsAscending(patients.Items(), PatientId)
    {
      var idx := patients.BinarySearchById(PatientId, id);
      if idx == -1 || !IsYes(confirm) {
        return false;
      }
      RemoveKeeps(patients.Items(), idx, PatientId, PatientOk);
      patients.DeleteAt(idx);
      return true;
    }

    method DeletePackage(id: int, confirm: string) returns (deleted: bool)
      requires Valid()
      modifies packages, packages.daftar
      ensures Valid()
      ensures var k := BinarySearch(Ids(old(packages.Items()), PackageId), 0, old(packages.n) - 1, id);
        deleted == (k != -1 && IsYes(confirm)) &&
        (deleted ==> packages.Items() == old(packages.Items()[..k] + packages.Items()[k + 1..])) &&
        (!deleted ==> packages.n == old(packages.n) && packages.daftar[..] == old(packages.daftar[..]))
      ensures IdsAscending(old(packages.Items()), PackageId) ==> IdsAscending(packages.Items(), PackageId)
    {
      var idx := packages.BinarySearchById(PackageId, id);
      if idx == -1 || !IsYes(confirm) {
        return false;
      }
      RemoveKeeps(packages.Items(), idx, PackageId, PackageOk);
      packages.DeleteAt(idx);
      return true;
    }

    /** Records are located by a linear scan for the first slot with the ID. */
    method DeleteRecord(id: int, confirm: string) returns (deleted: bool)
      requires Valid()
      modifies records, records.daftar
      ensures Valid()
      ensures var k := IndexOf(Ids(old(records.Items()), RecordId), id);
        deleted == (k != -1 && IsYes(confirm)) &&
        (deleted ==> records.Items() == old(records.Items()[..k] + records.Items()[k + 1..])) &&
        (!deleted ==> records.n == old(records.n) && records.daftar[..] == old(records.daftar[..]))
    {
      ghost var s := records.Items();
      var idx := records.FirstWhere(HasRecordId(id));
      FirstWithIdIsIndexOf(s, id, idx);
      if idx == -1 || !IsYes(confirm) {
        return false;
      }
      RemoveKeeps(s, idx, RecordId, RecordOk);
      records.DeleteAt(idx);
      assert records.Items() == s[..idx] + s[idx + 1..];
      return true;
    }
    // -------------------------------------------------------------------
    // The list views. Each sort reorders the live slots of the table
    // itself, so the new order outlasts the listing.

    /** selectionSortPatientsByName. */
    method SortPatientsByName()
      requires Valid()
      modifies patients.daftar
      ensures Valid()
      ensures Sorting.SortedBy(patients.Items(), NameBefore)
      ensures multiset(patients.Items()) == multiset(old(patients.Items()))
      ensures patients.daftar[patients.n..] == old(patients.daftar[patients.n..])
    {
      ghost var s := patients.Items();
      OrdersAreStrictWeak();
      Sorting.SelectionSort(patients.daftar, patients.n, NameBefore);
      PermKeeps(s, patients.Items(), PatientId, PatientOk);
    }

    /** The inline insertion sort of the age view: stable, youngest first. */
    method SortPatientsByAge()
      requires Valid()
      modifies patients.daftar
      ensures Valid()
      ensures patients.Items() == Sorting.InsertionSorted(old(patients.Items()), AgeBefore)
      ensures Sorting.SortedBy(patients.Items(), AgeBefore)
      ensures multiset(patients.Items()) == multiset(old(patients.Items()))
      ensures forall k :: Sorting.SameKey(patients.Items(), k, AgeBefore) == Sorting.SameKey(old(patients.Items()), k, AgeBefore)
      ensures patients.daftar[patients.n..] == old(patients.daftar[patients.n..])
    {
      ghost var s := patients.Items();
      OrdersAreStrictWeak();
      Sorting.InsertionSort(patients.daftar, patients.n, AgeBefore);
      Sorting.InsertionSortedPerm(s, AgeBefore);
      Sorting.InsertionSortedSorted(s, AgeBefore);
      forall k ensures Sorting.SameKey(patients.Items(), k, AgeBefore) == Sorting.SameKey(s, k, AgeBefore) {
        Sorting.InsertionSortedStable(s, k, AgeBefore);
      }
      PermKeeps(s, patients.Items(), PatientId, PatientOk);
    }

    /** displayPatients: 1 sorts by name, 2 by age, 3 keeps the table order. */
    method DisplayPatients(choice: int)
      requires Valid() && 1 <= choice <= 3
      modifies patients.daftar
      ensures Valid()
      ensures patients.n == 0 || choice == 3 ==> patients.daftar[..] == old(patients.daftar[..])
      ensures patients.n > 0 && choice == 1 ==>
        Sorting.SortedBy(patients.Items(), NameBefore) && multiset(patients.Items()) == multiset(old(patients.Items()))
      ensures patients.n > 0 && choice == 2 ==> patients.Items() == Sorting.InsertionSorted(old(patients.Items()), AgeBefore)
      ensures patients.daftar[patients.n..] == old(patients.daftar[patients.n..])
    {
      if patients.n == 0 {
        return;
      }
      if choice == 1 {
        SortPatientsByName();
      } else if choice == 2 {
        SortPatientsByAge();
      }
    }

    /** selectionSortPackagesByPrice. */
    method SortPackagesByPrice()
      requires Valid()
      modifies packages.daftar
      ensures Valid()
      ensures Sorting.SortedBy(packages.Items(), PriceBefore)
      ensures multiset(packages.Items()) == multiset(old(packages.Items()))
      ensures packages.daftar[packages.n..] == old(packages.daftar[packages.n..])
    {
      ghost var s := packages.Items();
      OrdersAreStrictWeak();
      Sorting.SelectionSort(packages.daftar, packages.n, PriceBefore);
      PermKeeps(s, packages.Items(), PackageId, PackageOk);
    }

    /** The inline selection sort of the package name view. */
    method SortPackagesByName()
      requires Valid()
      modifies packages.daftar
      ensures Valid()
      ensures Sorting.SortedBy(packages.Items(), PackageNameBefore)
      ensures multiset(packages.Items()) == multiset(old(packages.Items()))
      ensures packages.daftar[packages.n..] == old(packages.daftar[packages.n..])
    {
      ghost var s := packages.Items();
      OrdersAreStrictWeak();
      Sorting.SelectionSort(packages.daftar, packages.n, PackageNameBefore);
      PermKeeps(s, packages.Items(), PackageId, PackageOk);
    }

    /** The inline insertion sort of the category view: stable, by lower-cased category. */
    method SortPackagesByCategory()
      requires Valid()
      modifies packages.daftar
      ensures Valid()
      ensures packages.Items() == Sorting.InsertionSorted(old(packages.Items()), CategoryBefore)
      ensures Sorting.SortedBy(packages.Items(), CategoryBefore)
      ensures multiset(packages.Items()) == multiset(old(packages.Items()))
      ensures forall k :: Sorting.SameKey(packages.Items(), k, CategoryBefore) == Sorting.SameKey(old(packages.Items()), k, CategoryBefore)
      ensures packages.daftar[packages.n..] == old(packages.daftar[packages.n..])
    {
      ghost var s := packages.Items();
      OrdersAreStrictWeak();
      Sorting.InsertionSort(packages.daftar, packages.n, CategoryBefore);
      Sorting.InsertionSortedPerm(s, CategoryBefore);
      Sorting.InsertionSortedSorted(s, CategoryBefore);
      forall k ensures Sorting.SameKey(packages.Items(), k, CategoryBefore) == Sorting.SameKey(s, k, CategoryBefore) {
        Sorting.InsertionSortedStable(s, k, CategoryBefore);
      }
      PermKeeps(s, packages.Items(), PackageId, PackageOk);
    }

    /** displayPackages: 1 sorts by name, 2 by price, 3 by category. */
    method DisplayPackages(choice: int)
      requires Valid() && 1 <= choice <= 3
      modifies packages.daftar
      ensures Valid()
      ensures packages.n == 0 ==> packages.daftar[..] == old(packages.daftar[..])
      ensures packages.n > 0 && choice == 1 ==>
        Sorting.SortedBy(packages.Items(), PackageNameBefore) && multiset(packages.Items()) == multiset(old(packages.Items()))
      ensures packages.n > 0 && choice == 2 ==>
        Sorting.SortedBy(packages.Items(), PriceBefore) && multiset(packages.Items()) == multiset(old(packages.Items()))
      ensures packages.n > 0 && choice == 3 ==> packages.Items() == Sorting.InsertionSorted(old(packages.Items()), CategoryBefore)
      ensures packages.daftar[packages.n..] == old(packages.daftar[packages.n..])
    {
      if packages.n == 0 {
        return;
      }
      if choice == 1 {
        SortPackagesByName();
      } else if choice == 2 {
        SortPackagesByPrice();
      } else {
        SortPackagesByCategory();
      }
    }

    /**
     * insertionSortRecordsByDate: "newest first", comparing the date
     * strings. The result is ordered by DateTextNewer, which is not the
     * calendar order (Dates.StringOrderIsNotChronological).
     */
    method SortRecordsByDate()
      requires Valid()
      modifies records.daftar
      ensures Valid()
      ensures records.Items() == Sorting.InsertionSorted(old(records.Items()), DateTextNewer)
      ensures Sorting.SortedBy(records.Items(), DateTextNewer)
      ensures multiset(records.Items()) == multiset(old(records.Items()))
      ensures records.daftar[records.n..] == old(records.daftar[records.n..])
    {
      ghost var s := records.Items();
      OrdersAreStrictWeak();
      Sorting.InsertionSort(records.daftar, records.n, DateTextNewer);
      Sorting.InsertionSortedPerm(s, DateTextNewer);
      Sorting.InsertionSortedSorted(s, DateTextNewer);
      PermKeeps(s, records.Items(), RecordId, RecordOk);
    }

    /** The date view as intended: newest first by the calendar, ties kept in table order. */
    method SortRecordsChronologically()
      requires Valid()
      modifies records.daftar
      ensures Valid()
      ensures records.Items() == Sorting.InsertionSorted(old(records.Items()), ChronoBefore)
      ensures Sorting.SortedBy(records.Items(), ChronoBefore)
      ensures multiset(records.Items()) == multiset(old(records.Items()))
      ensures forall k :: Sorting.SameKey(records.Items(), k, ChronoBefore) == Sorting.SameKey(old(records.Items()), k, ChronoBefore)
      ensures records.daftar[records.n..] == old(records.daftar[records.n..])
    {
      ghost var s := records.Items();
      OrdersAreStrictWeak();
      Sorting.InsertionSort(records.daftar, records.n, ChronoBefore);
      Sorting.InsertionSortedPerm(s, ChronoBefore);
      Sorting.InsertionSortedSorted(s, ChronoBefore);
      forall k ensures Sorting.SameKey(records.Items(), k, ChronoBefore) == Sorting.SameKey(s, k, ChronoBefore) {
        Sorting.InsertionSortedStable(s, k, ChronoBefore);
      }
      PermKeeps(s, records.Items(), RecordId, RecordOk);
    }

    /** The inline selection sort of the patient-name view of the records. */
    method SortRecordsByPatientName()
      requires Valid()
      modifies records.daftar
      ensures Valid()
      ensures Sorting.SortedBy(records.Items(), PatientNameBefore)
      ensures multiset(records.Items()) == multiset(old(records.Items()))
      ensures records.daftar[records.n..] == old(records.daftar[records.n..])
    {
      ghost var s := records.Items();
      OrdersAreStrictWeak();
      Sorting.SelectionSort(records.daftar, records.n, PatientNameBefore);
      PermKeeps(s, records.Items(), RecordId, RecordOk);
    }

    /** The inline insertion sort of the package-name view of the records. */
    method SortRecordsByPackageName()
      requires Valid()
      modifies records.daftar
      ensures Valid()
      ensures records.Items() == Sorting.InsertionSorted(old(records.Items()), PackageNameOfRecordBefore)
      ensures Sorting.SortedBy(records.Items(), PackageNameOfRecordBefore)
      ensures multiset(records.Items()) == multiset(old(records.Items()))
      ensures records.daftar[records.n..] == old(records.daftar[records.n..])
    {
      ghost var s := records.Items();
      OrdersAreStrictWeak();
      Sorting.InsertionSort(records.daftar, records.n, PackageNameOfRecordBefore);
      Sorting.InsertionSortedPerm(s, PackageNameOfRecordBefore);
      Sorting.InsertionSortedSorted(s, PackageNameOfRecordBefore);
      PermKeeps(s, records.Items(), RecordId, RecordOk);
    }

    /** displayRecords: 1 sorts by date string, 2 by patient name, 3 by package name. */
    method DisplayRecords(choice: int)
      requires Valid() && 1 <= choice <= 3
      modifies records.daftar
      ensures Valid()
      ensures records.n == 0 ==> records.daftar[..] == old(records.daftar[..])
      ensures records.n > 0 && choice == 1 ==> records.Items() == Sorting.InsertionSorted(old(records.Items()), DateTextNewer)
      ensures records.n > 0 && choice == 2 ==>
        Sorting.SortedBy(records.Items(), PatientNameBefore) && multiset(records.Items()) == multiset(old(records.Items()))
      ensures records.n > 0 && choice == 3 ==> records.Items() == Sorting.InsertionSorted(old(records.Items()), PackageNameOfRecordBefore)
      ensures records.daftar[records.n..] == old(records.daftar[records.n..])
    {
      if records.n == 0 {
        return;
      }
      if choice == 1 {
        SortRecordsByDate();
      } else if choice == 2 {
        SortRecordsByPatientName();
      } else {
        SortRecordsByPackageName();
      }
    }

    /**
     * The name view without the side effect: the listing is sorted in a
     * copy and the table keeps its ID order, so binary search by ID keeps
     * working afterwards.
     */
    method PatientsByName() returns (view: seq<Patient>)
      requires Valid()
      ensures Sorting.SortedBy(view, NameBefore)
      ensures multiset(view) == multiset(patients.Items())
    {
      var copy := new Patient[NMAX];
      forall i | 0 <= i < NMAX {
        copy[i] := patients.daftar[i];
      }
      assert copy[..patients.n] == patients.Items();
      OrdersAreStrictWeak();
      Sorting.SelectionSort(copy, patients.n, NameBefore);
      view := copy[..patients.n];
    }

    /**
     * The age view without the side effect: the insertion sort runs on a
     * copy, which is not written back, so the table keeps its ID order.
     */
    method PatientsByAge() returns (view: seq<Patient>)
      requires Valid()
      ensures view == Sorting.InsertionSorted(patients.Items(), AgeBefore)
      ensures Sorting.SortedBy(view, AgeBefore) && multiset(view) == multiset(patients.Items())
    {
      var copy := new Patient[NMAX];
      forall i | 0 <= i < NMAX {
        copy[i] := patients.daftar[i];
      }
      assert copy[..patients.n] == patients.Items();
      Sorting.InsertionSort(copy, patients.n, AgeBefore);
      view := copy[..patients.n];
      OrdersAreStrictWeak();
      Sorting.InsertionSortedSorted(patients.Items(), AgeBefore);
      Sorting.InsertionSortedPerm(patients.Items(), AgeBefore);
    }

    // -------------------------------------------------------------------
    // Searches

    /** searchPackage by category: the first live slot in exactly that category, or -1. */
    method SearchPackageByCategory(category: string) returns (r: int)
      requires Valid()
      ensures -1 <= r < packages.n
      ensures r >= 0 ==> packages.daftar[r].category == category
      ensures forall i :: 0 <= i < packages.n && (r == -1 || i < r) ==> packages.daftar[i].category != category
    {
      r := packages.FirstWhere(InCategory(category));
    }

    /** searchRecords by patient name: every live slot whose patient name contains the query, ignoring case. */
    method RecordsForPatientName(query: string) returns (found: seq<nat>)
      requires Valid()
      ensures forall i :: i in found <==> 0 <= i < records.n && Contains(Lower(records.daftar[i].patient.name), Lower(query))
      ensures forall a, b :: 0 <= a < b < |found| ==> found[a] < found[b]
    {
      found := records.MatchingIndices(PatientNameContains(Lower(query)));
    }

    /** searchRecords by package name. */
    method RecordsForPackageName(query: string) returns (found: seq<nat>)
      requires Valid()
      ensures forall i :: i in found <==> 0 <= i < records.n && Contains(Lower(records.daftar[i].package.name), Lower(query))
      ensures forall a, b :: 0 <= a < b < |found| ==> found[a] < found[b]
    {
      found := records.MatchingIndices(PackageNameContains(Lower(query)));
    }

    /** searchRecords by date: the date text must match exactly. */
    method RecordsOnDate(date: string) returns (found: seq<nat>)
      requires Valid()
      ensures forall i :: i in found <==> 0 <= i < records.n && records.daftar[i].date == date
      ensures forall a, b :: 0 <= a < b < |found| ==> found[a] < found[b]
    {
      found := records.MatchingIndices(OnDate(date));
    }

    /** searchRecords by ID: the first live slot with that ID, or -1. */
    method RecordWithId(id: int) returns (r: int)
      requires Valid()
      ensures r == IndexOf(Ids(records.Items(), RecordId), id)
    {
      r := records.FirstWhere(HasRecordId(id));
      FirstWithIdIsIndexOf(records.Items(), id, r);
    }

    // -------------------------------------------------------------------
    // Reports

    /** generatePatientReport's counts: nothing for an empty table. */
    method PatientReport() returns (r: Option<PatientStats>)
      requires Valid()
      ensures r.None? <==> patients.n == 0
      ensures r.Some? ==> r.value == PatientStats(patients.n,
        CountGender(patients.Items(), "M"), patients.n - CountGender(patients.Items(), "M"),
        SumAges(patients.Items()), MinAgeFrom(patients.Items(), 999), MaxAgeFrom(patients.Items(), 0))
    {
      if patients.n == 0 {
        return None;
      }
      ghost var s := patients.Items();
      var maleCount, femaleCount := 0, 0;
      var totalAge, minAge, maxAge := 0, 999, 0;
      var i := 0;
      while i < patients.n
        invariant i <= patients.n
        invariant maleCount == CountGender(s[..i], "M") && femaleCount == i - maleCount
        invariant totalAge == SumAges(s[..i])
        invariant minAge == MinAgeFrom(s[..i], 999) && maxAge == MaxAgeFrom(s[..i], 0)
      {
        var p := patients.daftar[i];
        ghost var t := s[..i + 1];
        assert t[..i] == s[..i] && t[i] == p;
        if p.gender == "M" {
          maleCount := maleCount + 1;
        } else {
          femaleCount := femaleCount + 1;
        }
        totalAge := totalAge + p.age;
        if p.age < minAge {
          minAge := p.age;
        }
        if p.age > maxAge {
          maxAge := p.age;
        }
        i := i + 1;
      }
      assert s[..patients.n] == s;
      return Some(PatientStats(patients.n, maleCount, femaleCount, totalAge, minAge, maxAge));
    }

    /** generatePackageReport's counts and extremes: nothing for an empty table. */
    method PackageReport() returns (r: Option<PackageStats>)
      requires Valid()
      ensures r.None? <==> packages.n == 0
      ensures r.Some? ==> r.value == PackageStats(packages.n, CategoryCounts(packages.Items()),
        MinPriceFrom(packages.Items(), 999999.0), MaxPriceFrom(packages.Items(), 0.0))
    {
      if packages.n == 0 {
        return None;
      }
      var categoryCount, minPrice, maxPrice := PackageTotals(packages);
      return Some(PackageStats(packages.n, categoryCount, minPrice, maxPrice));
    }
  }

  /** The loop of generatePackageReport over one table. */
  method PackageTotals(tab: Table<Package>) returns (categoryCount: map<string, nat>, minPrice: real, maxPrice: real)
    requires tab.Valid()
    ensures categoryCount == CategoryCounts(tab.Items())
    ensures minPrice == MinPriceFrom(tab.Items(), 999999.0) && maxPrice == MaxPriceFrom(tab.Items(), 0.0)
  {
    ghost var s := tab.Items();
    categoryCount := map[];
    minPrice, maxPrice := 999999.0, 0.0;
    var i := 0;
    while i < tab.n
      invariant i <= tab.n
      invariant categoryCount == CategoryCounts(s[..i])
      invariant minPrice == MinPriceFrom(s[..i], 999999.0) && maxPrice == MaxPriceFrom(s[..i], 0.0)
    {
      var p := tab.daftar[i];
      ghost var t := s[..i + 1];
      assert t[..i] == s[..i] && t[i] == p;
      var c := p.category;
      categoryCount := categoryCount[c := (if c in categoryCount then categoryCount[c] else 0) + 1];
      if p.price < minPrice {
        minPrice := p.price;
      }
      if p.price > maxPrice {
        maxPrice := p.price;
      }
      i := i + 1;
    }
    assert s[..tab.n] == s;
  }

  /** What the report's figures mean on a valid table. */
  lemma PatientReportMeaning(s: seq<Patient>, st: PatientStats)
    requires |s| > 0 && All(s, PatientOk)
    requires st == PatientStats(|s|, CountGender(s, "M"), |s| - CountGender(s, "M"), SumAges(s), MinAgeFrom(s, 999), MaxAgeFrom(s, 0))
    ensures st.male + st.female == st.total && st.female == CountGender(s, "F")
    ensures exists i :: 0 <= i < |s| && st.minAge == s[i].age
    ensures exists i :: 0 <= i < |s| && st.maxAge == s[i].age
    ensures forall i :: 0 <= i < |s| ==> st.minAge <= s[i].age <= st.maxAge
  {
    GenderSplit(s);
    ReportAgeExtremes(s);
  }

  /** What the package report's figures mean on a valid table; its minimum is only a lower bound. */
  lemma PackageReportMeaning(s: seq<Package>, st: PackageStats)
    requires |s| > 0 && All(s, PackageOk)
    requires st == PackageStats(|s|, CategoryCounts(s), MinPriceFrom(s, 999999.0), MaxPriceFrom(s, 0.0))
    ensures forall c :: c in st.byCategory <==> CountCategory(s, c) > 0
    ensures forall c :: c in st.byCategory ==> st.byCategory[c] == CountCategory(s, c)
    ensures CountCategory(s, "Basic") + CountCategory(s, "Standard") +
      CountCategory(s, "Premium") + CountCategory(s, "Executive") == st.total
    ensures exists i :: 0 <= i < |s| && st.maxPrice == s[i].price
    ensures forall i :: 0 <= i < |s| ==> st.minPrice <= s[i].price <= st.maxPrice
    ensures st.minPrice <= 999999.0
  {
    CategoryCountsSpec(s);
    CategoriesPartition(s);
    ReportMaxPrice(s);
    MinPriceFromSpec(s, 999999.0);
  }

  /**
   * Sorting the live table by name breaks binary search by ID: patients
   * 20001 "Zed" and 20002 "Amy" are in ID order; sorted by name Amy comes
   * first, and the search for 20001 then returns -1 although the patient
   * is there.
   */
  lemma NameSortBreaksIdSearch()
    ensures var zed, amy := Patient(20001, "Zed", "M", 40), Patient(20002, "Amy", "F", 30);
      StrictlyAscending(Ids([zed, amy], PatientId)) &&
      Sorting.SortedBy([amy, zed], NameBefore) && multiset([amy, zed]) == multiset([zed, amy]) &&
      20001 in Ids([amy, zed], PatientId) &&
      BinarySearch(Ids([amy, zed], PatientId), 0, 1, 20001) == -1
  {
    var zed, amy := Patient(20001, "Zed", "M", 40), Patient(20002, "Amy", "F", 30);
    assert Lower("Amy") == "amy" && Lower("Zed") == "zed";
    assert Ids([amy, zed], PatientId) == [20002, 20001];
    assert Ids([zed, amy], PatientId) == [20001, 20002];
  }

  /**
   * The age view writes its sorted copy back, so it breaks binary search by
   * ID as well: sorted by age, Amy (30) comes before Zed (40), and the search
   * for 20001 returns -1 although the patient is there.
   */
  lemma AgeSortBreaksIdSearch()
    ensures var zed, amy := Patient(20001, "Zed", "M", 40), Patient(20002, "Amy", "F", 30);
      StrictlyAscending(Ids([zed, amy], PatientId)) &&
      Sorting.InsertionSorted([zed, amy], AgeBefore) == [amy, zed] &&
      20001 in Ids([amy, zed], PatientId) &&
      BinarySearch(Ids([amy, zed], PatientId), 0, 1, 20001) == -1
  {
    var zed, amy := Patient(20001, "Zed", "M", 40), Patient(20002, "Amy", "F", 30);
    InsertionSortedPair(zed, amy, AgeBefore);
    assert Ids([amy, zed], PatientId) == [20002, 20001];
    assert Ids([zed, amy], PatientId) == [20001, 20002];
  }

  /**
   * The date listing as written: a record on 15/06/2023 entered before one on
   * 01/07/2023 stays first under the newest-first sort on the date text,
   * while the calendar sort lists 01/07/2023 first.
   */
  lemma DateSortListsOlderFirst()
    ensures var june, july := Record(30001, NO_PATIENT, NO_PACKAGE, "15/06/2023"),
                              Record(30002, NO_PATIENT, NO_PACKAGE, "01/07/2023");
      Sorting.InsertionSorted([june, july], DateTextNewer) == [june, july] &&
      Sorting.InsertionSorted([june, july], ChronoBefore) == [july, june]
  {
    var june, july := Record(30001, NO_PATIENT, NO_PACKAGE, "15/06/2023"),
                      Record(30002, NO_PATIENT, NO_PACKAGE, "01/07/2023");
    StringOrderIsNotChronological();
    LessOrder("01/07/2023", "15/06/2023", "01/07/2023");
    assert !DateTextNewer(july, june);
    ChronoNewerFormatted(1, 7, 2023, 15, 6, 2023);
    assert ChronoBefore(july, june);
    InsertionSortedPair(june, july, DateTextNewer);
    InsertionSortedPair(june, july, ChronoBefore);
  }

  /** Insertion sort of two entries swaps them exactly when the second goes before the first. */
  lemma InsertionSortedPair<T>(x: T, y: T, before: (T, T) -> bool)
    ensures Sorting.InsertionSorted([x, y], before) == if before(y, x) then [y, x] else [x, y]
  {
    assert [x, y][..1] == [x] && [x][..0] == [];
    assert Sorting.InsertionSorted([x], before) == [x];
    assert Sorting.Insert(y, [x], before) == if before(y, x) then [y, x] else [x, y];
  }
}
