# MedicalCheckUp in Dafny

This project models MedicalCheckUp, a console program for a medical check-up
clinic. The program keeps three fixed-capacity tables: patients, check-up
packages, and the records that say which patient took which package on which
date. Each table is an array of `NMAX = 100` slots and a count `N`. The
repository holds two programs, and both are modelled:

- `main.go` is the current program. A new entity's ID is one more than the
  largest ID in use, starting at 20001 for patients, 10001 for packages and
  30001 for records. It validates input through retry prompts and searches patients and
  packages by binary search on ID. Its displays sort by name, age, price,
  category or date, and it has deletes that shift the table left, record
  searches, and patient and package reports.
- `Archive/main_old.go` is the older program. An entity's ID is its slot
  (start + index); a delete shifts the later entries left but keeps each slot's
  ID. Its binary search runs over the closed range `[0, N]`, it has its own date
  validator, record lookup by last matching name, record sorts by date, and an
  income report.

Module layout:

| file | module | contents |
|---|---|---|
| `wrappers.dfy` | `Wrappers` | `Option` |
| `text.dfy` | `Text` | ASCII lower-casing, substring search, Go's byte-wise string order, `TrimSpace`, `Split`, `Atoi`, zero-padded decimal formatting |
| `sorting.dfy` | `Sorting` | strict weak orders; selection sort and insertion sort in place on an array prefix, with insertion sort specified by the functional `InsertionSorted` |
| `store.dfy` | `Store` | the generic `Table<T>` class (array `daftar`, count `n`) and the search, ID and shift operations shared by both programs, with lemmas |
| `dates.dfy` | `Dates` | `main.go`'s leap-year and date validation, date parsing and `DD/MM/YYYY` formatting, and the chronological order |
| `orders.dfy` | `Orders` | every key-based comparison used by a sort is a strict weak order |
| `entities.dfy` | `Entities` | `main.go`'s entities, input readers, field updates, comparators and report folds |
| `clinic.dfy` | `Clinic` | the `main.go` program state (`Clinic` class) and its operations |
| `legacy.dfy` | `Legacy` | the `Archive/main_old.go` program state (`Archive` class) and its operations |

Both programs are plain imperative Go over global arrays. In the model each
table is an object (`Store.Table`) whose array is updated in place, each
program's globals are a class, and each operation is a method proved against
functions on the table's contents.

## Model

| member | source | states |
|---|---|---|
| Text.LowerIdempotent | main.go:268-270 | lower-casing twice is the same as lower-casing once; the name search lower-cases both sides |
| Text.ContainsIff | main.go:268-270 | `Contains(s, sub)` holds exactly when `sub` occurs at some index of `s` |
| Text.ContainsEmpty | main.go:268-270 | the empty query is contained in every name |
| Text.LessOrder | main.go:322 | Go's string `<` is irreflexive and transitive, and its incomparability is transitive |
| Text.LessTotal | main.go:322 | any two distinct strings are ordered one way or the other |
| Text.TrimSpaceSpec | main.go:116 | the trimmed input is a slice of the line with only white space removed on each side, and it neither starts nor ends with white space; white space is every rune `unicode.IsSpace` accepts, the Unicode spaces above Latin-1 included |
| Text.SplitJoin | main.go:201 | joining the parts of `Split` with the separator gives back the line, and no part contains the separator |
| Text.DecimalValue | main.go:209 | the decimal text of a number denotes that number |
| Text.ZeroPadLength | main.go:209 | `%02d` and `%04d` produce exactly the width when the value fits |
| Text.ZeroPadValue | main.go:209 | zero-padding does not change the value denoted |
| Text.Atoi | main.go:204-206 | a parsed value lies in Go's 64-bit `int` range |
| Text.AtoiZeroPad | main.go:204-206 | `Atoi` reads back every zero-padded number it could have produced |
| Sorting.SelectionSort | main.go:318-330 | the prefix ends sorted and is a permutation of the old prefix; slots past the count are unchanged |
| Sorting.InsertionSort | main.go:346-358 | the prefix ends equal to `InsertionSorted` of the old prefix; slots past the count are unchanged |
| Sorting.InsertionSortedPerm | main.go:439-447 | insertion sort returns a permutation of its input |
| Sorting.InsertionSortedSorted | main.go:439-447 | for a strict weak order, insertion sort returns a sorted sequence |
| Sorting.InsertionSortedStable | main.go:439-447 | insertion sort keeps the input order among entries with equal keys |
| Store.BinarySearch | main.go:287-315 | a hit is an index in range holding the ID searched for |
| Store.BinarySearchFindsPresent | main.go:287-300 | on strictly ascending IDs, the search returns the index of a present ID |
| Store.BinarySearchComplete | main.go:287-300 | on strictly ascending IDs, the search returns -1 exactly when the ID is absent |
| Store.BinarySearchLocates | Archive/main_old.go:233-276 | the search over a range returns `k` when the IDs before `k` are smaller and those after are larger |
| Store.ClosedSearchFindsLive | Archive/main_old.go:233-276 | the closed-range search finds each live positional ID at its own slot |
| Store.ClosedSearchFindsStaleSlot | Archive/main_old.go:233-276 | after a positional delete, the closed-range search still finds the ID left in the vacated slot, which is no longer live |
| Store.IndexOf | main.go:943-956 | the first index holding the ID, or -1 exactly when the ID is absent |
| Store.NextIdOfBounds | main.go:361-389 | the next ID is at least the start, exceeds every ID in use, and is the start or one more than an ID in use |
| Store.NextIdOfUnique | main.go:361-389 | those three properties determine the next ID |
| Store.NextIdOfPermutation | main.go:361-389 | the next ID does not depend on the order of the table |
| Store.NextIdOfFresh | main.go:361-389 | appending the next ID keeps IDs distinct, and keeps them ascending when they were |
| Store.PermPreservesDistinct | main.go:318-330 | reordering a table keeps its IDs distinct |
| Store.AppendFresh | main.go:405-413 | appending an entry with the next ID keeps IDs distinct and ascending and keeps every entry well-formed |
| Store.RemoveKeeps | main.go:565-569 | removing one entry keeps the rest distinct, ascending and well-formed |
| Store.ReplaceKeeps | main.go:520-533 | replacing an entry by one with the same ID keeps the IDs and well-formedness |
| Store.PermKeeps | main.go:318-330 | a permutation keeps well-formedness and distinct IDs |
| Store.KeepIdsShiftPositional | Archive/main_old.go:562-571 | a positional delete keeps the live IDs positional; entries before the slot stay, later entries move down one slot and take that slot's ID |
| Store.KeepIdsShiftAll | Archive/main_old.go:562-571 | a positional delete keeps every live entry well-formed |
| Store.DeleteAtCountDrops | Archive/main_old.go:562-571 | deleting at slot `N` removes the last live ID |
| Store.AppendPositional | Archive/main_old.go:494-498 | appending the entry whose ID is start + N keeps IDs positional and entries well-formed |
| Store.LastIndexOf | Archive/main_old.go:1266-1275 | the last index holding the name, or -1 exactly when the name is absent |
| Store.Table.constructor | main.go:55-58 | an empty table of the given capacity |
| Store.Table.Copy | Archive/main_old.go:105-106 | a fresh table with the same count and slots |
| Store.Table.Append | main.go:412-413 | writes slot `N` and increments the count; the items gain the entry at the end |
| Store.Table.SetAt | main.go:520-533 | only the given slot changes |
| Store.Table.DeleteAt | main.go:565-569 | the items lose exactly the entry at the index; the array is shifted left by one |
| Store.Table.DeleteKeepingIds | Archive/main_old.go:562-571 | the array becomes the positional shift of the old array and the count drops by one |
| Store.Table.SearchByName | main.go:267-285 | the first slot whose lower-cased name contains the lower-cased query, or -1 when none does |
| Store.Table.MatchingIndices | main.go:902-909 | exactly the matching slots, in ascending order |
| Store.Table.FirstWhere | main.go:672-677 | the first matching slot, or -1 when none matches |
| Store.Table.LastWithName | Archive/main_old.go:1266-1275 | the slot of the last entry in the whole array with that name |
| Store.Table.BinarySearchById | main.go:287-315 | the binary search over the live items, and a hit holds the ID |
| Store.Table.BinarySearchClosed | Archive/main_old.go:233-276 | the binary search over slots `0..N` inclusive, and a hit holds the ID |
| Store.Table.NextId | main.go:361-389 | the next ID of the live items |
| Dates.IsValidDateIff | main.go:180-194 | a date is valid exactly when the year is 1900–2100, the month 1–12 and the day within the month's length for that year |
| Dates.IsValidDateExamples | main.go:176-194 | the Gregorian leap-year rule on century years, and boundary dates on both sides |
| Dates.ParseDate | main.go:196-215 | an accepted date is the formatted text of a valid date |
| Dates.ParseDateAccepts | main.go:201-209 | a trimmed line of three numeric fields forming a valid date is accepted and reformatted |
| Dates.FormatDateShape | main.go:209 | the formatted date is `DD/MM/YYYY`: ten characters with slashes at positions 2 and 5 and digits elsewhere |
| Dates.FormatDateFields | main.go:209 | each field of a formatted date reads back as that field |
| Dates.ParseFormatted | main.go:196-215 | parsing a formatted valid date gives the same text back |
| Dates.ChronoNewerFormatted | main.go:352 | the chronological comparison of two formatted dates agrees with the comparison of their year, month and day |
| Dates.StringOrderIsNotChronological | main.go:352 | "01/07/2023" sorts before "15/06/2023" as a string, although it is the later date |
| Orders.StringKeyed | main.go:322 | sorting by a string key is a strict weak order |
| Orders.StringKeyedReversed | main.go:352 | sorting descending by a string key is a strict weak order |
| Orders.IntKeyed | main.go:439-447 | sorting by an integer key is a strict weak order |
| Orders.RealKeyed | main.go:332-344 | sorting by a price is a strict weak order |
| Orders.LaterKeyed | Archive/main_old.go:284 | newest-first by (year, month, day) is a strict weak order |
| Entities.ReadText | main.go:112-123 | a blank line is refused and an accepted value is non-empty trimmed text |
| Entities.ReadTextInput | main.go:112-123 | every non-empty trimmed value is accepted unchanged |
| Entities.ReadInt | main.go:125-137 | an accepted number lies within the prompt's bounds |
| Entities.ReadIntDecimal | main.go:125-137 | every number within the bounds is accepted when typed in decimal |
| Entities.ReadGender | main.go:153-161 | an accepted gender is "M" or "F" |
| Entities.ReadGenderIff | main.go:153-161 | a gender is accepted exactly when the trimmed line is M, m, F or f |
| Entities.ReadCategory | main.go:163-174 | an accepted category is one of the four categories |
| Entities.ReadCategoryChoice | main.go:163-174 | choices 1 to 4 select Basic, Standard, Premium and Executive |
| Entities.DateTextReparses | main.go:196-215 | a stored record date parses to itself |
| Entities.UpdatePatientFields | main.go:520-533 | choice 1, 2 or 3 changes only the name, gender or age, choice 4 changes all three, and the ID never changes |
| Entities.UpdatePackageFields | main.go:719-732 | choice 1, 2 or 3 changes only the name, category or price, choice 4 changes all three, and the ID never changes |
| Entities.UpdatePatientOk | main.go:520-533 | an update with values the prompts accept keeps a patient well-formed |
| Entities.UpdatePackageOk | main.go:719-732 | an update with values the prompts accept keeps a package well-formed |
| Entities.OrdersAreStrictWeak | main.go:318-358 | every comparator the displays sort by is a strict weak order |
| Entities.MinAgeFromSpec | main.go:1019-1039 | the running minimum is at most the start value and every age, and is the start value or some age |
| Entities.MaxAgeFromSpec | main.go:1019-1039 | the running maximum is at least the start value and every age, and is the start value or some age |
| Entities.ReportAgeExtremes | main.go:1019-1039 | for ages 0–150 and the start values 999 and 0, the report's youngest and oldest ages are actual ages bounding all others |
| Entities.GenderSplit | main.go:1019-1039 | male plus female counts equal the number of patients |
| Entities.CategoryCountsSpec | main.go:1063-1079 | the category map holds exactly the categories present, each with its count |
| Entities.CategoriesPartition | main.go:1063-1079 | the four category counts add up to the number of packages |
| Entities.MinPriceFromSpec | main.go:1063-1079 | the running minimum price is at most the start value and every price, and is the start value or some price |
| Entities.MaxPriceFromSpec | main.go:1063-1079 | the running maximum price is at least the start value and every price, and is the start value or some price |
| Entities.ReportMaxPrice | main.go:1063-1079 | with non-negative prices, the report's highest price is an actual price bounding all others |
| Entities.SentinelMinPrice | main.go:1065 | a table whose only package costs 1500000 reports 999999 as its lowest price, which no package has |
| Entities.CheapestPriceIsMinimum | main.go:1065 | the corrected lowest price is an actual price and bounds all others |
| Clinic.FirstWithIdIsIndexOf | main.go:972-977 | the delete's linear scan finds the first record with the ID |
| Clinic.Clinic.constructor | main.go:77-80 | three empty tables of capacity `NMAX` |
| Clinic.Clinic.AddPatient | main.go:392-417 | a full table is left unchanged; otherwise the patient with the next patient ID is appended and the ID returned, keeping IDs ascending |
| Clinic.Clinic.AddPackage | main.go:576-601 | a full table is left unchanged; otherwise the package with the next package ID is appended and the ID returned, keeping IDs ascending |
| Clinic.Clinic.AddRecord | main.go:775-831 | a full record table, no patients or no packages each leave the table unchanged with that outcome; otherwise the chosen patient, package and formatted date are appended under the next record ID |
| Clinic.Clinic.UpdatePatient | main.go:495-537 | the patient found by binary search gets the chosen fields and nothing else changes; IDs stay the same |
| Clinic.Clinic.UpdatePackage | main.go:694-736 | the package found by binary search gets the chosen fields and nothing else changes; IDs stay the same |
| Clinic.Clinic.DeletePatient | main.go:539-573 | deletes exactly the patient found by binary search, and only when the confirmation is "y" or "yes" in any case; otherwise nothing changes |
| Clinic.Clinic.DeletePackage | main.go:738-772 | deletes exactly the package found by binary search, and only when the confirmation is "y" or "yes" in any case; otherwise nothing changes |
| Clinic.Clinic.DeleteRecord | main.go:966-1007 | deletes exactly the first record with the ID, and only when the confirmation is "y" or "yes" in any case; otherwise nothing changes |
| Clinic.Clinic.SortPatientsByName | main.go:318-330 | the patients end sorted by lower-cased name and are a permutation of the old ones |
| Clinic.Clinic.SortPatientsByAge | main.go:439-448 | the patients end as the stable insertion sort by age of the old ones |
| Clinic.Clinic.DisplayPatients | main.go:419-462 | choice 1 sorts the live table by name, choice 2 by age, choice 3 leaves it as it is |
| Clinic.Clinic.SortPackagesByPrice | main.go:332-344 | the packages end sorted by price and are a permutation of the old ones |
| Clinic.Clinic.SortPackagesByName | main.go:617-628 | the packages end sorted by lower-cased name and are a permutation of the old ones |
| Clinic.Clinic.SortPackagesByCategory | main.go:632-641 | the packages end as the stable insertion sort by lower-cased category |
| Clinic.Clinic.DisplayPackages | main.go:603-653 | choice 1 sorts by name, 2 by price, 3 by category |
| Clinic.Clinic.SortRecordsByDate | main.go:346-358 | the records end as the insertion sort by date text, descending, and are a permutation of the old ones |
| Clinic.Clinic.SortRecordsChronologically | main.go:346-358 | the corrected date sort: newest first by calendar date, stable, a permutation |
| Clinic.Clinic.SortRecordsByPatientName | main.go:849-860 | the records end sorted by lower-cased patient name and are a permutation of the old ones |
| Clinic.Clinic.SortRecordsByPackageName | main.go:862-871 | the records end as the stable insertion sort by lower-cased package name |
| Clinic.Clinic.DisplayRecords | main.go:833-884 | choice 1 sorts by date text, 2 by patient name, 3 by package name |
| Clinic.Clinic.PatientsByName | main.go:432-436 | the corrected display: a name-sorted permutation of the patients, leaving the table unchanged |
| Clinic.Clinic.PatientsByAge | main.go:439-448 | the corrected age display: the stable insertion sort by age of the patients, sorted and a permutation, leaving the table unchanged |
| Clinic.Clinic.SearchPackageByCategory | main.go:671-677 | the first package of that category, or -1 when there is none |
| Clinic.Clinic.RecordsForPatientName | main.go:895-909 | exactly the records whose lower-cased patient name contains the query, in table order |
| Clinic.Clinic.RecordsForPackageName | main.go:911-925 | exactly the records whose lower-cased package name contains the query, in table order |
| Clinic.Clinic.RecordsOnDate | main.go:927-940 | exactly the records on that date, in table order |
| Clinic.Clinic.RecordWithId | main.go:943-956 | the first record with the ID, or -1 |
| Clinic.Clinic.PatientReport | main.go:1010-1052 | none for an empty table; otherwise the total, the gender counts, the age sum and the folds from 999 and 0 |
| Clinic.Clinic.PackageReport | main.go:1054-1096 | none for an empty table; otherwise the total, the category map and the price folds from 999999 and 0 |
| Clinic.PatientReportMeaning | main.go:1010-1052 | the counts add up, and the youngest and oldest ages are actual ages that bound all others |
| Clinic.PackageReportMeaning | main.go:1054-1096 | the category map counts each category present, the counts add up, the highest price is an actual one, and all prices lie between the reported bounds |
| Clinic.NameSortBreaksIdSearch | main.go:432-436 | once two patients are sorted by name, binary search no longer finds an ID that is present |
| Clinic.AgeSortBreaksIdSearch | main.go:439-448 | once the age view writes its sorted copy back, binary search no longer finds an ID that is present |
| Clinic.DateSortListsOlderFirst | main.go:346-358 | the date sort keeps a 15/06/2023 record ahead of a 01/07/2023 one in the newest-first listing, while the calendar sort swaps them |
| Legacy.ValidDateIff | Archive/main_old.go:70-99 | a date is valid exactly when the year is positive, the month 1–12 and the day within the month's length |
| Legacy.ValidDateAgrees | Archive/main_old.go:70-99 | for years 1900–2100 the legacy validator agrees with the current one |
| Legacy.ValidDateYears | Archive/main_old.go:73-76 | year 2101 and year 1 are accepted, year 0 is not, and the leap-year rule applies on century years |
| Legacy.NewerIsStrictWeak | Archive/main_old.go:284 | newest-first by (year, month, day) is a strict weak order |
| Legacy.InsertionSortRecords | Archive/main_old.go:278-292 | the records end as the stable insertion sort newest first, sorted and a permutation; later slots unchanged |
| Legacy.SelectionSortRecords | Archive/main_old.go:294-312 | the records end sorted newest first and a permutation; later slots unchanged |
| Legacy.MonthSumBounds | Archive/main_old.go:1527-1539 | with non-negative prices, a month's income is between 0 and the total income |
| Legacy.MonthSumEmpty | Archive/main_old.go:1527-1539 | a month with no records has no income |
| Legacy.RecordToAdd | Archive/main_old.go:1251-1320 | the lookup fails exactly on "0", "list" or an unknown name; otherwise it takes the last patient and last package with those names, or the blank patient for an unknown preset name |
| Legacy.Archive.constructor | Archive/main_old.go:52-54 | three empty tables of capacity `NMAX` |
| Legacy.Archive.AddPatient | Archive/main_old.go:814-856 | appends the patient with ID 20001 + N and returns that ID |
| Legacy.Archive.AddPackage | Archive/main_old.go:472-500 | appends the package with ID 10001 + N and returns that ID, while two slots are free for the confirmation that reads slot N + 1 |
| Legacy.Archive.RecordFor | Archive/main_old.go:1251-1320 | the record the lookups produce, as `RecordToAdd` |
| Legacy.Archive.AddRecord | Archive/main_old.go:1241-1346 | appends the record with ID 30001 + N when the lookups succeed, and changes nothing otherwise |
| Legacy.Archive.FindPatient | Archive/main_old.go:233-276 | the closed-range search over slots `0..N`; a hit holds the ID, and a live ID is found at its own slot |
| Legacy.Archive.FindPackage | Archive/main_old.go:233-276 | the closed-range search over slots `0..N`; a hit holds the ID, and a live ID is found at its own slot |
| Legacy.Archive.FindRecord | Archive/main_old.go:233-276 | the closed-range search over slots `0..N`; a hit holds the ID, and a live ID is found at its own slot |
| Legacy.Archive.FindPatientLive | Archive/main_old.go:233-276 | the corrected search: an ID is found within the live slots exactly when it is live, and at its own slot |
| Legacy.Archive.FindPackageLive | Archive/main_old.go:233-276 | the corrected search: an ID is found within the live slots exactly when it is live, and at its own slot |
| Legacy.Archive.FindRecordLive | Archive/main_old.go:233-276 | the corrected search: an ID is found within the live slots exactly when it is live, and at its own slot |
| Legacy.Archive.DeletePatient | Archive/main_old.go:989-1016 | on "yes", the positional shift with the count one lower; otherwise nothing changes |
| Legacy.Archive.DeletePackage | Archive/main_old.go:554-581 | on "yes", the positional shift with the count one lower; otherwise nothing changes |
| Legacy.Archive.DeleteRecord | Archive/main_old.go:1467-1493 | on "yes", the positional shift with the count one lower; otherwise nothing changes |
| Legacy.Archive.RecordsNewestFirst | Archive/main_old.go:673-679 | a copy of the records sorted newest first by insertion sort; the table is unchanged |
| Legacy.Archive.RecordsNewestFirstBySelection | Archive/main_old.go:101-106 | a copy of the records sorted newest first by selection sort; the table is unchanged |
| Legacy.Archive.TotalIncome | Archive/main_old.go:1511-1513 | the sum of the package prices of all records, which is non-negative |
| Legacy.Archive.MonthlyIncome | Archive/main_old.go:1527-1539 | the income and the count of the records in that year and month, bounded by the totals |
| Legacy.FindClosed | Archive/main_old.go:233-276 | the loop computes the closed-range binary search |
| Legacy.LiveSearchExact | Archive/main_old.go:233-276 | over positional IDs, the search of the live slots returns the slot exactly for a live ID and -1 otherwise |
| Legacy.PhantomSlotAfterDelete | Archive/main_old.go:562-571 | after a package delete, the closed search still returns slot N-1 for an ID that is no longer live, while the live search returns -1 |
| Legacy.PhantomDeleteDropsLast | Archive/main_old.go:554-581 | deleting that stale slot removes the last live package ID instead |

## Left out

- Menus, screen clearing, colours, pauses and every `fmt.Print` are left out. Each operation is modelled as one pass with the values its prompts accepted, and the retry loops become `requires` clauses or `Option` results of the input readers.
- Saving and loading JSON (`saveData`, `loadData`, `saveArray`, `loadArray`) is file I/O and is not part of this model.
- Floating-point averages and percentages in the reports and the revenue report are left out. Prices in `main.go` are `float64`, modelled as `real`, and only compared; rounding is not modelled.
- Lower-casing is ASCII only. Go's `strings.ToLower` also folds non-ASCII letters.
- Go's random map iteration order when printing category counts is not modelled; the count map is a `map` value.
- Record listings that only print, such as the rows filtered by patient ID in `patient_show` and `patient_select`, keep only the sorting they do.
- `package_edit`, `patient_edit` and `record_edit` of `Archive/main_old.go` are not part of this model. The invariant that package prices are non-negative relies on their price prompt refusing negative prices.
- The `tests` directory is not part of this model.
- The "0" and "list" commands of the legacy record prompt are modelled only as lookups that fail. Listing the table is output.
- Legacy.Archive.FindPatient: requires `N < NMAX`. With a full table the source reads slot `N`, which is past the array, and panics.
- Legacy.Archive.AddPatient: requires `N < NMAX`. The source has no capacity check and panics on a full table; AddRecord is the same.
- Legacy.Archive.AddPackage: requires `N < NMAX - 1`. After the count goes up, the confirmation prints the slot at the new count; with 99 packages that is slot 100, past the array, and the source panics. For a smaller table the confirmation prints the empty slot after the new package, which is output and not modelled.
- Legacy.Archive.DeletePatient: requires `0 < N < NMAX`. When the closed search lets a delete through on an empty table, the source drives `N` to -1, and the model's count is a natural number. The shift loop reads slot `N`, which is past the array on a full table, so the source panics there. DeletePackage and DeleteRecord are the same.
- Legacy.Archive.TotalIncome: prices and sums are unbounded integers. Go's `int` wraps around at 2^63, which is not modelled.
- Clinic.Clinic.SortPatientsByAge: the source sorts a copy and then assigns it back to the table; the model sorts in place, which gives the same final table.
- Clinic.Clinic.AddRecord: a patient or package choice is passed in already within range, as the retry prompt guarantees.

## Findings

| source | as written | input that shows it | evidently intended | confidence | as-written member | corrected member |
|---|---|---|---|---|---|---|
| main.go:352 | records are sorted "by date" by comparing the `DD/MM/YYYY` strings | records on 15/06/2023 and 01/07/2023: the string order puts 15/06/2023 first in the newest-first list | newest first by calendar date | not executed | Clinic.DateSortListsOlderFirst | Clinic.Clinic.SortRecordsChronologically |
| Archive/main_old.go:233-276 | the binary search covers slots `0..N`, and a delete keeps slot IDs positional, so the vacated slot `N` still holds the last ID | packages 10001 and 10002; delete 10001; a search for 10002 returns slot 1, which is no longer live, and deleting slot 1 then drops the one live package | a search only over the live slots `0..N-1` | not executed | Legacy.PhantomSlotAfterDelete | Legacy.Archive.FindPackageLive |
| main.go:432-449 | `displayPatients` makes a copy, but choice 1 sorts the live table by name and choice 2 writes its age-sorted copy back, so both views leave the table out of ID order for the binary search by ID at main.go:287-300; Clinic.AgeSortBreaksIdSearch shows the age case | patients 20001 "Zed" aged 40 and 20002 "Amy" aged 30: after either view, binary search for 20001 returns -1 | the views sort the copy and leave the table in ID order, as the unused `tempPatients` copy for choice 1 suggests; the write-back for choice 2 may be deliberate, so the intent is not certain | not executed | Clinic.NameSortBreaksIdSearch | Clinic.Clinic.PatientsByName |
| main.go:1065 | the lowest package price starts from the sentinel 999999 | one package priced 1500000: the report's lowest price is 999999 | the lowest actual price | not executed | Entities.SentinelMinPrice | Entities.CheapestPriceIsMinimum |
