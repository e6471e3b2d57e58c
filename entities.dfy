/**
 * The entities of the current program -- a patient, a check-up package
 * and a medical record -- and the pure logic around them: the values its
 * input prompts accept, the orders its list views sort by, the field-wise
 * update menus, and the statistics of its two reports.
 */
module Entities {
  import opened Wrappers
  import opened Text
  import opened Dates
  import Sorting
  import Orders

  const PATIENT_ID_START: int := 20001
  const PACKAGE_ID_START: int := 10001
  const RECORD_ID_START: int := 30001

  /** The four package categories, in the order the category menu lists them. */
  const CATEGORIES: seq<string> := ["Basic", "Standard", "Premium", "Executive"]

  datatype Patient = Patient(id: int, name: string, gender: string, age: int)

  /** The price is a float64 in the program; only its order is used here. */
  datatype Package = Package(id: int, name: string, category: string, price: real)

  /** A record holds value copies of the patient and package chosen when it was added. */
  datatype Record = Record(id: int, patient: Patient, package: Package, date: string)

  /** The zero values of the three entity types: what an unused array slot holds. */
  const NO_PATIENT := Patient(0, "", "", 0)
  const NO_PACKAGE := Package(0, "", "", 0.0)
  const NO_RECORD := Record(0, NO_PATIENT, NO_PACKAGE, "")

  function PatientId(p: Patient): int { p.id }
  function PatientName(p: Patient): string { p.name }
  function PackageId(p: Package): int { p.id }
  function PackageName(p: Package): string { p.name }
  function RecordId(r: Record): int { r.id }
  function HasRecordId(id: int): Record -> bool { (r: Record) => r.id == id }
  function InCategory(c: string): Package -> bool { (p: Package) => p.category == c }
  function OnDate(date: string): Record -> bool { (r: Record) => r.date == date }
  /** The search predicates get the query already lower-cased, as the program computes it once. */
  function PatientNameContains(q: string): Record -> bool { (r: Record) => Contains(Lower(r.patient.name), q) }
  function PackageNameContains(q: string): Record -> bool { (r: Record) => Contains(Lower(r.package.name), q) }

  // ---------------------------------------------------------------------
  // One pass of each input prompt; None stands for "print an error and ask again"

  /** What getValidInput returns: no white space at either end, and not empty. */
  predicate IsInputText(s: string)
  {
    |s| > 0 && !IsSpace(s[0]) && !IsSpace(s[|s| - 1])
  }

  /** getValidInput: the trimmed line, unless nothing is left. */
  function ReadText(line: string): (r: Option<string>)
    ensures r.Some? ==> IsInputText(r.value)
    ensures r.None? <==> TrimSpace(line) == ""
  {
    TrimSpaceSpec(line);
    var t := TrimSpace(line);
    if t == "" then None else Some(t)
  }

  /** A value the prompt accepted is accepted again unchanged. */
  lemma ReadTextInput(s: string)
    requires IsInputText(s)
    ensures ReadText(s) == Some(s)
  {
    TrimSpaceNoop(s);
  }

  /** getValidInt: the trimmed line read by strconv.Atoi, if it lies in [min, max]. */
  function ReadInt(line: string, min: int, max: int): (r: Option<int>)
    ensures r.Some? ==> min <= r.value <= max
  {
    match ReadText(line)
    case None => None
    case Some(t) =>
      var v := Atoi(t);
      if v.Some? && min <= v.value <= max then v else None
  }

  /** Typing a number of the range in decimal is accepted as that number. */
  lemma ReadIntDecimal(v: nat, min: int, max: int)
    requires min <= v <= max && v <= MAX_INT64
    ensures ReadInt(Decimal(v), min, max) == Some(v)
  {
    var s := Decimal(v);
    assert ZeroPad(v, 0) == s;
    AtoiZeroPad(v, 0);
    assert IsDigit(s[0]) && IsDigit(s[|s| - 1]);
    ReadTextInput(s);
  }

  predicate IsGender(g: string)
  {
    g == "M" || g == "F"
  }

  /** getValidGender: the trimmed line upper-cased, if it is "M" or "F". */
  function ReadGender(line: string): (r: Option<string>)
    ensures r.Some? ==> IsGender(r.value)
  {
    match ReadText(line)
    case None => None
    case Some(t) =>
      var g := Upper(t);
      if IsGender(g) then Some(g) else None
  }

  /** Exactly the one-letter answers m, M, f and F are accepted, in either case. */
  lemma ReadGenderIff(line: string)
    ensures ReadGender(line).Some? <==> TrimSpace(line) in {"M", "m", "F", "f"}
  {
    var t := TrimSpace(line);
    if ReadGender(line).Some? {
      assert ReadText(line) == Some(t);
      var g := Upper(t);
      assert IsGender(g) && |t| == 1;
      assert g[0] == UpperChar(t[0]);
      assert t == [t[0]];
    }
    if t in {"M", "m", "F", "f"} {
      assert Upper(t) == [UpperChar(t[0])];
    }
  }

  /** getValidCategory: menu choice 1 to 4 picks the category at that position. */
  function ReadCategory(line: string): (r: Option<string>)
    ensures r.Some? ==> r.value in CATEGORIES
  {
    match ReadInt(line, 1, 4)
    case None => None
    case Some(choice) => Some(CATEGORIES[choice - 1])
  }

  lemma ReadCategoryChoice(k: nat)
    requires 1 <= k <= 4
    ensures ReadCategory(Decimal(k)) == Some(CATEGORIES[k - 1])
  {
    ReadIntDecimal(k, 1, 4);
  }

  /** The delete confirmation: "y" or "yes" in any mix of case. */
  predicate IsYes(confirm: string)
  {
    Lower(confirm) == "y" || Lower(confirm) == "yes"
  }

  // ---------------------------------------------------------------------
  // What a stored entry looks like after it went through the prompts

  predicate PatientOk(p: Patient)
  {
    p.id >= PATIENT_ID_START && IsInputText(p.name) && IsGender(p.gender) && 0 <= p.age <= 150
  }

  predicate PackageOk(p: Package)
  {
    p.id >= PACKAGE_ID_START && IsInputText(p.name) && p.category in CATEGORIES && p.price >= 0.0
  }

  /** A date string the date prompt can produce: a valid date, zero-padded. */
  ghost predicate IsDateText(s: string)
  {
    exists d: nat, m: nat, y: nat :: IsValidDate(d, m, y) && s == FormatDate(d, m, y)
  }

  ghost predicate RecordOk(r: Record)
  {
    r.id >= RECORD_ID_START && PatientOk(r.patient) && PackageOk(r.package) && IsDateText(r.date)
  }

  /** Typing a stored date into the date prompt again yields the same string. */
  lemma DateTextReparses(s: string)
    requires IsDateText(s)
    ensures ParseDate(s) == Some(s)
  {
    var d: nat, m: nat, y: nat :| IsValidDate(d, m, y) && s == FormatDate(d, m, y);
    ParseFormatted(d, m, y);
  }

  // ---------------------------------------------------------------------
  // The field-wise update menus: 1, 2, 3 change one field, 4 changes all three

  function UpdatePatientFields(p: Patient, choice: int, name: string, gender: string, age: int): (q: Patient)
    requires 1 <= choice <= 4
    ensures q.id == p.id
    ensures q.name == (if choice == 1 || choice == 4 then name else p.name)
    ensures q.gender == (if choice == 2 || choice == 4 then gender else p.gender)
    ensures q.age == (if choice == 3 || choice == 4 then age else p.age)
  {
    match choice
    case 1 => p.(name := name)
    case 2 => p.(gender := gender)
    case 3 => p.(age := age)
    case _ => p.(name := name, gender := gender, age := age)
  }

  function UpdatePackageFields(p: Package, choice: int, name: string, category: string, price: real): (q: Package)
    requires 1 <= choice <= 4
    ensures q.id == p.id
    ensures q.name == (if choice == 1 || choice == 4 then name else p.name)
    ensures q.category == (if choice == 2 || choice == 4 then category else p.category)
    ensures q.price == (if choice == 3 || choice == 4 then price else p.price)
  {
    match choice
    case 1 => p.(name := name)
    case 2 => p.(category := category)
    case 3 => p.(price := price)
    case _ => p.(name := name, category := category, price := price)
  }

  /** The values the prompts of the chosen update fields can return. */
  predicate PatientUpdateOk(choice: int, name: string, gender: string, age: int)
  {
    1 <= choice <= 4 &&
    (choice == 1 || choice == 4 ==> IsInputText(name)) &&
    (choice == 2 || choice == 4 ==> IsGender(gender)) &&
    (choice == 3 || choice == 4 ==> 0 <= age <= 150)
  }

  predicate PackageUpdateOk(choice: int, name: string, category: string, price: real)
  {
    1 <= choice <= 4 &&
    (choice == 1 || choice == 4 ==> IsInputText(name)) &&
    (choice == 2 || choice == 4 ==> category in CATEGORIES) &&
    (choice == 3 || choice == 4 ==> price >= 0.0)
  }

  /** An update with prompt-checked values keeps a well-formed patient well-formed. */
  lemma UpdatePatientOk(p: Patient, choice: int, name: string, gender: string, age: int)
    requires PatientOk(p) && PatientUpdateOk(choice, name, gender, age)
    ensures PatientOk(UpdatePatientFields(p, choice, name, gender, age))
  {
  }

  lemma UpdatePackageOk(p: Package, choice: int, name: string, category: string, price: real)
    requires PackageOk(p) && PackageUpdateOk(choice, name, category, price)
    ensures PackageOk(UpdatePackageFields(p, choice, name, category, price))
  {
  }

  // ---------------------------------------------------------------------
  // The orders of the list views; before(x, y) means x is listed first

  predicate NameBefore(p: Patient, q: Patient) { Less(Lower(p.name), Lower(q.name)) }
  predicate AgeBefore(p: Patient, q: Patient) { p.age < q.age }
  predicate PackageNameBefore(p: Package, q: Package) { Less(Lower(p.name), Lower(q.name)) }
  predicate PriceBefore(p: Package, q: Package) { p.price < q.price }
  predicate CategoryBefore(p: Package, q: Package) { Less(Lower(p.category), Lower(q.category)) }
  predicate PatientNameBefore(x: Record, y: Record) { Less(Lower(x.patient.name), Lower(y.patient.name)) }
  predicate PackageNameOfRecordBefore(x: Record, y: Record) { Less(Lower(x.package.name), Lower(y.package.name)) }

  /** "Newest first" as the program compares: the date strings, character by character. */
  predicate DateTextNewer(x: Record, y: Record) { Less(y.date, x.date) }

  /** "Newest first" by the calendar. */
  predicate ChronoBefore(x: Record, y: Record) { ChronoNewer(x.date, y.date) }

  function PatientNameKey(p: Patient): string { Lower(p.name) }
  function PackageNameKey(p: Package): string { Lower(p.name) }
  function CategoryKey(p: Package): string { Lower(p.category) }
  function RecordPatientKey(r: Record): string { Lower(r.patient.name) }
  function RecordPackageKey(r: Record): string { Lower(r.package.name) }
  function RecordDateText(r: Record): string { r.date }
  function RecordDateKey(r: Record): (int, int, int) { DateKey(r.date) }

  /** Every list-view order is a strict weak order, as the sorting proofs require. */
  lemma OrdersAreStrictWeak()
    ensures Sorting.StrictWeakOrder(NameBefore) && Sorting.StrictWeakOrder(AgeBefore)
    ensures Sorting.StrictWeakOrder(PackageNameBefore) && Sorting.StrictWeakOrder(PriceBefore)
    ensures Sorting.StrictWeakOrder(CategoryBefore)
    ensures Sorting.StrictWeakOrder(PatientNameBefore) && Sorting.StrictWeakOrder(PackageNameOfRecordBefore)
    ensures Sorting.StrictWeakOrder(DateTextNewer) && Sorting.StrictWeakOrder(ChronoBefore)
  {
    Orders.StringKeyed(NameBefore, PatientNameKey);
    Orders.IntKeyed(AgeBefore, PatientAge);
    Orders.StringKeyed(PackageNameBefore, PackageNameKey);
    Orders.RealKeyed(PriceBefore, PackagePrice);
    Orders.StringKeyed(CategoryBefore, CategoryKey);
    Orders.StringKeyed(PatientNameBefore, RecordPatientKey);
    Orders.StringKeyed(PackageNameOfRecordBefore, RecordPackageKey);
    Orders.StringKeyedReversed(DateTextNewer, RecordDateText);
    Orders.LaterKeyed(ChronoBefore, RecordDateKey);
  }

  function PatientAge(p: Patient): int { p.age }
  function PackagePrice(p: Package): real { p.price }

  // ---------------------------------------------------------------------
  // The patient report

  datatype PatientStats = PatientStats(total: nat, male: nat, female: nat, totalAge: int, minAge: int, maxAge: int)

  /** How many patients have gender g. */
  function CountGender(s: seq<Patient>, g: string): (c: nat)
    ensures c <= |s|
    decreases |s|
  {
    if |s| == 0 then 0
    else CountGender(s[..|s| - 1], g) + (if s[|s| - 1].gender == g then 1 else 0)
  }

  function SumAges(s: seq<Patient>): int
    decreases |s|
  {
    if |s| == 0 then 0 else SumAges(s[..|s| - 1]) + s[|s| - 1].age
  }

  /** The running minimum of the report loop, started at init. */
  function MinAgeFrom(s: seq<Patient>, init: int): int
    decreases |s|
  {
    if |s| == 0 then init
    else
      var m := MinAgeFrom(s[..|s| - 1], init);
      if s[|s| - 1].age < m then s[|s| - 1].age else m
  }

  /** The running maximum of the report loop, started at init. */
  function MaxAgeFrom(s: seq<Patient>, init: int): int
    decreases |s|
  {
    if |s| == 0 then init
    else
      var m := MaxAgeFrom(s[..|s| - 1], init);
      if s[|s| - 1].age > m then s[|s| - 1].age else m
  }

  /** The running minimum is at most init and every age, and is init or one of the ages. */
  lemma {:induction false} MinAgeFromSpec(s: seq<Patient>, init: int)
    ensures var r := MinAgeFrom(s, init);
      r <= init && (forall i :: 0 <= i < |s| ==> r <= s[i].age) &&
      (r == init || exists i :: 0 <= i < |s| && r == s[i].age)
    decreases |s|
  {
    if |s| > 0 {
      var init' := s[..|s| - 1];
      MinAgeFromSpec(init', init);
      assert forall i :: 0 <= i < |init'| ==> init'[i] == s[i];
    }
  }

  lemma {:induction false} MaxAgeFromSpec(s: seq<Patient>, init: int)
    ensures var r := MaxAgeFrom(s, init);
      r >= init && (forall i :: 0 <= i < |s| ==> r >= s[i].age) &&
      (r == init || exists i :: 0 <= i < |s| && r == s[i].age)
    decreases |s|
  {
    if |s| > 0 {
      var init' := s[..|s| - 1];
      MaxAgeFromSpec(init', init);
      assert forall i :: 0 <= i < |init'| ==> init'[i] == s[i];
    }
  }

  /**
   * With ages in 0..150 the report's starting values 999 and 0 never
   * distort the result: youngest and oldest are true ages of the table.
   */
  lemma ReportAgeExtremes(s: seq<Patient>)
    requires |s| > 0 && forall i :: 0 <= i < |s| ==> 0 <= s[i].age <= 150
    ensures exists i :: 0 <= i < |s| && MinAgeFrom(s, 999) == s[i].age
    ensures exists i :: 0 <= i < |s| && MaxAgeFrom(s, 0) == s[i].age
    ensures forall i :: 0 <= i < |s| ==> MinAgeFrom(s, 999) <= s[i].age <= MaxAgeFrom(s, 0)
  {
    MinAgeFromSpec(s, 999);
    MaxAgeFromSpec(s, 0);
    if MaxAgeFrom(s, 0) == 0 {
      assert s[0].age == 0;
    }
  }

  /** Genders are M or F, so the "everyone else" count is the number of women. */
  lemma {:induction false} GenderSplit(s: seq<Patient>)
    requires forall i :: 0 <= i < |s| ==> IsGender(s[i].gender)
    ensures CountGender(s, "M") + CountGender(s, "F") == |s|
    decreases |s|
  {
    if |s| > 0 {
      var init := s[..|s| - 1];
      assert forall i :: 0 <= i < |init| ==> init[i] == s[i];
      GenderSplit(init);
    }
  }

  // ---------------------------------------------------------------------
  // The package report

  datatype PackageStats = PackageStats(total: nat, byCategory: map<string, nat>, minPrice: real, maxPrice: real)

  function CountCategory(s: seq<Package>, c: string): (k: nat)
    ensures k <= |s|
    decreases |s|
  {
    if |s| == 0 then 0
    else CountCategory(s[..|s| - 1], c) + (if s[|s| - 1].category == c then 1 else 0)
  }

  /** The categoryCount map the report loop builds: one increment per package. */
  function CategoryCounts(s: seq<Package>): map<string, nat>
    decreases |s|
  {
    if |s| == 0 then map[]
    else
      var m := CategoryCounts(s[..|s| - 1]);
      var c := s[|s| - 1].category;
      m[c := (if c in m then m[c] else 0) + 1]
  }

  /** The map holds exactly the categories that occur, each with its number of packages. */
  lemma {:induction false} CategoryCountsSpec(s: seq<Package>)
    ensures forall c :: c in CategoryCounts(s) <==> CountCategory(s, c) > 0
    ensures forall c :: c in CategoryCounts(s) ==> CategoryCounts(s)[c] == CountCategory(s, c)
    decreases |s|
  {
    if |s| > 0 {
      CategoryCountsSpec(s[..|s| - 1]);
    }
  }

  /** With every category one of the four, the four counts add up to the number of packages. */
  lemma {:induction false} CategoriesPartition(s: seq<Package>)
    requires forall i :: 0 <= i < |s| ==> s[i].category in CATEGORIES
    ensures CountCategory(s, "Basic") + CountCategory(s, "Standard") +
      CountCategory(s, "Premium") + CountCategory(s, "Executive") == |s|
    decreases |s|
  {
    if |s| > 0 {
      var init := s[..|s| - 1];
      assert forall i :: 0 <= i < |init| ==> init[i] == s[i];
      CategoriesPartition(init);
    }
  }

  function MinPriceFrom(s: seq<Package>, init: real): real
    decreases |s|
  {
    if |s| == 0 then init
    else
      var m := MinPriceFrom(s[..|s| - 1], init);
      if s[|s| - 1].price < m then s[|s| - 1].price else m
  }

  function MaxPriceFrom(s: seq<Package>, init: real): real
    decreases |s|
  {
    if |s| == 0 then init
    else
      var m := MaxPriceFrom(s[..|s| - 1], init);
      if s[|s| - 1].price > m then s[|s| - 1].price else m
  }

  lemma {:induction false} MinPriceFromSpec(s: seq<Package>, init: real)
    ensures var r := MinPriceFrom(s, init);
      r <= init && (forall i :: 0 <= i < |s| ==> r <= s[i].price) &&
      (r == init || exists i :: 0 <= i < |s| && r == s[i].price)
    decreases |s|
  {
    if |s| > 0 {
      var init' := s[..|s| - 1];
      MinPriceFromSpec(init', init);
      assert forall i :: 0 <= i < |init'| ==> init'[i] == s[i];
    }
  }

  lemma {:induction false} MaxPriceFromSpec(s: seq<Package>, init: real)
    ensures var r := MaxPriceFrom(s, init);
      r >= init && (forall i :: 0 <= i < |s| ==> r >= s[i].price) &&
      (r == init || exists i :: 0 <= i < |s| && r == s[i].price)
    decreases |s|
  {
    if |s| > 0 {
      var init' := s[..|s| - 1];
      MaxPriceFromSpec(init', init);
      assert forall i :: 0 <= i < |init'| ==> init'[i] == s[i];
    }
  }

  /** Prices are at least 0, so the report's starting maximum 0 never distorts the result. */
  lemma ReportMaxPrice(s: seq<Package>)
    requires |s| > 0 && forall i :: 0 <= i < |s| ==> s[i].price >= 0.0
    ensures exists i :: 0 <= i < |s| && MaxPriceFrom(s, 0.0) == s[i].price
    ensures forall i :: 0 <= i < |s| ==> s[i].price <= MaxPriceFrom(s, 0.0)
  {
    MaxPriceFromSpec(s, 0.0);
    if MaxPriceFrom(s, 0.0) == 0.0 {
      assert s[0].price == 0.0;
    }
  }

  /**
   * The report starts its minimum at 999999, but prices have no upper
   * bound: a table whose only package costs 1500000 reports 999999 as its
   * cheapest price, which no package has.
   */
  lemma SentinelMinPrice()
    ensures var s := [Package(10001, "Full Body", "Executive", 1500000.0)];
      PackageOk(s[0]) && MinPriceFrom(s, 999999.0) == 999999.0 &&
      forall i :: 0 <= i < |s| ==> MinPriceFrom(s, 999999.0) != s[i].price
  {
    var s := [Package(10001, "Full Body", "Executive", 1500000.0)];
    assert s[..0] == [];
  }

  /** The cheapest price, with the running minimum started at the first package. */
  function CheapestPrice(s: seq<Package>): real
    requires |s| > 0
  {
    MinPriceFrom(s, s[0].price)
  }

  lemma CheapestPriceIsMinimum(s: seq<Package>)
    requires |s| > 0
    ensures exists i :: 0 <= i < |s| && CheapestPrice(s) == s[i].price
    ensures forall i :: 0 <= i < |s| ==> CheapestPrice(s) <= s[i].price
  {
    MinPriceFromSpec(s, s[0].price);
  }
}
