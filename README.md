# Employee Management API — a verified model of its service layer

This project models the business core of a Spring Boot application that manages
employees (`Employe`), departments (`Departement`) and daily attendance records
(`Presence`: one clock-in and one clock-out per employee and date). It models:

- the four services: `EmployeService`, `DepartementService`, `PresenceService`
  and `RapportService`;
- the `Presence` entity and the hook that derives its worked minutes;
- the three mappers: `EmployeMapper`, `DepartementMapper` and `PresenceMapper`.

The repositories are three in-memory tables keyed by id, held in
`Database.Store`. One predicate, `Database.WellFormed`, gathers the rules the
tables keep. Some are declared by the schema itself:

- unique e-mail addresses (`Employe.java:25`);
- unique department names (`Departement.java:17`);
- every employee has an existing department (non-null foreign key, `Employe.java:28-29`);
- every presence row has an existing employee and an arrival (`Presence.java:18-26`).

The others are invariants that only the services and the entity hook maintain;
the schema has no constraint for them:

- a manager is an existing employee: `manager_id` is a plain column, checked by
  `DepartementService` on create and update;
- at most one presence row per employee and date: checked by `pointageArrivee`
  (`PresenceService.java:45-50`);
- the stored worked minutes agree with arrival and departure: recomputed by the
  `@PrePersist`/`@PreUpdate` hook (`Presence.java:101-108`).

Each state-changing service operation is modelled twice:

- A pure `…Step` function on a snapshot `Db`. It gives the error each rule
  produces, in the order the source checks them, as an if-and-only-if. It also
  gives the exact new tables, and states that a failed call changes nothing.
- A `method` on the mutable `Store`. It performs the same checks and writes
  step by step. Its contract says that its outcome and the new tables are those
  of the step function, and that `WellFormed` is preserved.

Lemmas about the step functions prove properties of the operations:

- the attendance state machine: no row, then an open row, then a closed row;
- idempotence of deactivation;
- creating a department and then deleting it;
- the manager rule after an update.

The reports are modelled on top of generic building blocks:

- filtering, stable sorting and flat-mapping of lists;
- a `groupingBy`/`summingLong` grouping whose buckets come out sorted by key;
- `Collectors.toMap` where the first entry of a key wins;
- half-up rounding for both `BigDecimal.divide` and `Math.round`.

Each view of the trend report is proved to hold exactly the keys the data
produces, each with the formatted sum of its minutes. The four list views are
also proved to be in increasing key order; the day-of-week view is a map, so
it has no order.
The salary summaries are proved to be one line per department, sorted by name,
with the average between the lowest and the highest salary.

Representations:

- Java's `long` `/` and `%` truncate toward zero; they are written out in
  `Common.JavaDiv` and `Common.JavaRem`.
- Money (`BigDecimal`) is a whole number of cents. The source does not limit
  the scale of amounts; see "Left out".
- `String.compareTo` compares the UTF-16 code units of the two strings, so a
  character above U+FFFF is compared through its surrogate pair.
- A `LocalTime` is the second of the day.
- A `LocalDate` is a valid proleptic Gregorian date in Java's year range.
- A null reference is `None`.

## Model

| member | source | states |
|---|---|---|
| Common.JavaDiv | src/main/java/com/gestionemployes/employee_management_api/service/RapportService.java:47 | Java's `/` on long truncates toward zero: the quotient brackets the dividend from below for a non-negative one and from above for a negative one |
| Common.JavaRem | src/main/java/com/gestionemployes/employee_management_api/service/RapportService.java:48 | Java's `%`: quotient times divisor plus remainder is the dividend, and the remainder has the dividend's sign and is smaller than the divisor |
| Text.Digits | src/main/java/com/gestionemployes/employee_management_api/service/RapportService.java:49 | `%d` of a non-negative number is a non-empty run of decimal digits, one digit exactly below ten, starting with 0 only for zero itself |
| Text.DigitsRoundTrip | src/main/java/com/gestionemployes/employee_management_api/service/RapportService.java:49 | reading the printed digits back gives the number |
| Text.JavaDecimal | src/main/java/com/gestionemployes/employee_management_api/service/RapportService.java:49 | `%d` of a non-negative number is a run of digits whose value is the number, with no leading zero; of a negative number a minus sign followed by such digits for its magnitude |
| Text.LeadingZerosValue | src/main/java/com/gestionemployes/employee_management_api/service/RapportService.java:49 | zeros put in front of digits, as `%02d` and `%04d` pad, leave their value unchanged |
| Text.DigitsLength | src/main/java/com/gestionemployes/employee_management_api/service/RapportService.java:100 | a number below ten to the power w prints in at most w digits, so a year up to 9999 fits the four-digit pad |
| Text.ZeroPad2 | src/main/java/com/gestionemployes/employee_management_api/service/RapportService.java:49 | `%02d` of 0..99 is exactly two digits whose value is the number |
| Text.HoursMinutes | src/main/java/com/gestionemployes/employee_management_api/mapper/PresenceMapper.java:17-22 | for non-negative minutes the text is the hours, "h ", the two-digit minute remainder and "m" |
| Text.HoursMinutesExamples | src/main/java/com/gestionemployes/employee_management_api/service/RapportService.java:43-50 | 480 minutes read "8h 00m", 960 read "16h 00m", 125 read "2h 05m" and -90 read "-1h -30m" (Java's signed remainder) |
| Text.HoursMinutesRoundTrip | src/main/java/com/gestionemployes/employee_management_api/service/RapportService.java:43-50 | the "Xh MMm" text of any non-negative minute count parses back to that count |
| Text.HoursMinutesInjective | src/main/java/com/gestionemployes/employee_management_api/mapper/PresenceMapper.java:17-22 | two different non-negative minute counts never give the same text |
| Text.CodeUnits | src/main/java/com/gestionemployes/employee_management_api/service/RapportService.java:192 | a character takes one UTF-16 code unit below U+10000 and a surrogate pair above, the pair starting with a high surrogate that no single unit can be |
| Text.CodeUnitsInjective | src/main/java/com/gestionemployes/employee_management_api/service/RapportService.java:192 | different characters have different code units |
| Text.Utf16Injective | src/main/java/com/gestionemployes/employee_management_api/service/RapportService.java:192 | different strings have different UTF-16 encodings, so comparing encodings tells different strings apart |
| Text.StringLessIsStrictTotal | src/main/java/com/gestionemployes/employee_management_api/service/RapportService.java:192 | `String.compareTo`, which compares UTF-16 code units lexicographically, is a strict total order, as sorting by name requires |
| Text.StringLessExamples | src/main/java/com/gestionemployes/employee_management_api/service/RapportService.java:192 | "Finance" sorts before "RH", a string before its extensions, and U+1F600 before U+FFFF because its high surrogate is smaller |
| Text.TrimIsInnerPiece | src/main/java/com/gestionemployes/employee_management_api/service/EmployeService.java:115 | `trim()` is the contiguous piece of the string left after dropping the characters up to U+0020 at both ends, and it neither starts nor ends with one |
| Text.TrimEmptyIffBlank | src/main/java/com/gestionemployes/employee_management_api/service/EmployeService.java:115 | `trim().isEmpty()` holds exactly when every character is at most U+0020 |
| Orders.IntLessIsStrictTotal | src/main/java/com/gestionemployes/employee_management_api/service/RapportService.java:88 | the natural order of Integer and Long keys is a strict total order |
| Calendar.LengthOfMonth | src/main/java/com/gestionemployes/employee_management_api/service/PresenceService.java:84 | a month has 28 to 31 days, and 29 exactly for February of a leap year |
| Calendar.IsBeforeIsStrictTotal | src/main/java/com/gestionemployes/employee_management_api/repository/PresenceRepository.java:16 | `LocalDate.isBefore` is a strict total order, the order of the date-sorted query |
| Calendar.FirstOfMonth | src/main/java/com/gestionemployes/employee_management_api/service/PresenceService.java:83 | `LocalDate.of(year, month, 1)` succeeds exactly for a month in 1..12 of a representable year, and fails with a date error otherwise |
| Calendar.EndOfMonth | src/main/java/com/gestionemployes/employee_management_api/service/PresenceService.java:84 | `plusMonths(1).minusDays(1)` of a first day is that month's last day; it fails only for December of the last representable year |
| Calendar.PlusOneMonth | src/main/java/com/gestionemployes/employee_management_api/service/PresenceService.java:84 | `plusMonths(1)` moves to the next month, the next year after December; the day stays unless the month is shorter, when it becomes the last day; only December of the last representable year fails |
| Calendar.MinusOneDay | src/main/java/com/gestionemployes/employee_management_api/service/PresenceService.java:84 | `minusDays(1)` gives an earlier date and fails only on the first representable date |
| Calendar.MinusOneDayIsPrevious | src/main/java/com/gestionemployes/employee_management_api/service/PresenceService.java:84 | no date lies strictly between `d.minusDays(1)` and `d` |
| Calendar.LeapDaysStep | src/main/java/com/gestionemployes/employee_management_api/service/RapportService.java:69 | the leap days counted before a year grow by one exactly when the previous year is a leap year |
| Calendar.DaysBeforeMonthStep | src/main/java/com/gestionemployes/employee_management_api/service/RapportService.java:69 | each month starts where the previous one ends, January at day 0, and December ends the year after 365 or 366 days |
| Calendar.MinusOneDayEpoch | src/main/java/com/gestionemployes/employee_management_api/service/RapportService.java:69 | `toEpochDay`, behind `getDayOfWeek`, is exactly one less on the previous day, across month and year ends |
| Calendar.EpochExamples | src/main/java/com/gestionemployes/employee_management_api/service/RapportService.java:69 | 1970-01-01 is epoch day 0, 2024-06-20 day 19894 and 2000-03-01 day 11017 |
| Calendar.DayOfWeekOfEpochDayNext | src/main/java/com/gestionemployes/employee_management_api/service/RapportService.java:69 | the next epoch day falls on the next day of the week |
| Calendar.GetDayOfWeekAdvances | src/main/java/com/gestionemployes/employee_management_api/service/RapportService.java:69 | consecutive dates fall on consecutive days of the week, SUNDAY followed by MONDAY |
| Calendar.ZeroPad | src/main/java/com/gestionemployes/employee_management_api/service/RapportService.java:100 | zero padding gives digits whose value is the number, exactly the width when the number fits |
| Calendar.YearOfEraText | src/main/java/com/gestionemployes/employee_management_api/service/RapportService.java:100 | pattern "yyyy" prints years 1 to 9999 as four digits with their value, and a larger year of era as '+' and its digits |
| Calendar.YearMonthText | src/main/java/com/gestionemployes/employee_management_api/service/RapportService.java:100 | the "yyyy-MM" text ends with a dash and the month on two digits; for years 1 to 9999 it is seven characters, the first four spelling the year |
| Calendar.InMonthIff | src/main/java/com/gestionemployes/employee_management_api/service/PresenceService.java:89 | a date is neither before the first nor after the last day of a month exactly when it has that year and month |
| Calendar.DayNamesDistinct | src/main/java/com/gestionemployes/employee_management_api/service/RapportService.java:69 | two weekdays print the same name only when they are the same weekday |
| Calendar.KnownWeekdays | src/test/java/com/gestionemployes/employee_management_api/unit/RapportServiceTest.java:135-161 | 1970-01-01 and 2024-06-20 are Thursdays and 2024-06-21 is a Friday |
| Lists.Filter | src/main/java/com/gestionemployes/employee_management_api/service/PresenceService.java:88-90 | the result keeps the elements satisfying the test and only those, with no new copies |
| Lists.FilterAppend | src/main/java/com/gestionemployes/employee_management_api/service/PresenceService.java:88-90 | filtering a concatenation filters each part in order |
| Lists.FilterFilter | src/main/java/com/gestionemployes/employee_management_api/service/RapportService.java:129 | filtering twice is filtering once by both tests |
| Lists.FilterEquivalent | src/main/java/com/gestionemployes/employee_management_api/service/PresenceService.java:89 | two tests that agree on every element filter to the same list |
| Lists.FilterSorted | src/main/java/com/gestionemployes/employee_management_api/service/PresenceService.java:86-90 | filtering a date-sorted list keeps it sorted |
| Lists.InsertBy | src/main/java/com/gestionemployes/employee_management_api/service/RapportService.java:192 | insertion adds exactly one element, as a multiset |
| Lists.SortBy | src/main/java/com/gestionemployes/employee_management_api/service/RapportService.java:192 | sorting returns a permutation of its input |
| Lists.SortByMembership | src/main/java/com/gestionemployes/employee_management_api/service/RapportService.java:192 | sorting keeps exactly the elements it was given |
| Lists.InsertBySorted | src/main/java/com/gestionemployes/employee_management_api/service/RapportService.java:192 | inserting into a sorted list keeps it sorted |
| Lists.SortBySorted | src/main/java/com/gestionemployes/employee_management_api/service/RapportService.java:192 | the sorted result is ordered by the key |
| Lists.SortBySortedIsIdentity | src/main/java/com/gestionemployes/employee_management_api/service/RapportService.java:192 | a list already sorted by the key is returned unchanged |
| Lists.Mapped | src/main/java/com/gestionemployes/employee_management_api/service/RapportService.java:170 | `map(f)` keeps the length and applies `f` at every position |
| Lists.MappedMembership | src/main/java/com/gestionemployes/employee_management_api/service/RapportService.java:170-191 | a value is in the mapped list exactly when it is `f` of some element |
| Lists.FlatMapLength | src/main/java/com/gestionemployes/employee_management_api/service/PresenceService.java:102-104 | the flat-mapped list is as long as its parts together |
| Lists.FlatMapMembership | src/main/java/com/gestionemployes/employee_management_api/service/PresenceService.java:102-104 | an element is in the flat-mapped list exactly when some part holds it |
| Lists.SumAppend | src/main/java/com/gestionemployes/employee_management_api/service/RapportService.java:173-175 | the sum of a concatenation is the sum of the sums |
| Lists.MaxOr | src/main/java/com/gestionemployes/employee_management_api/service/RapportService.java:207 | `max(...).orElse(ZERO)`: zero for no values, otherwise one of the values and no value above it |
| Lists.MinOr | src/main/java/com/gestionemployes/employee_management_api/service/RapportService.java:208 | `min(...).orElse(ZERO)`: zero for no values, otherwise one of the values and no value below it |
| Grouping.AddToBucket | src/main/java/com/gestionemployes/employee_management_api/service/RapportService.java:68-71 | adding an entry raises the total and the sum of its key by its value, leaves every other key's sum, and adds its key |
| Grouping.GroupSum | src/main/java/com/gestionemployes/employee_management_api/service/RapportService.java:68-71 | `groupingBy(key, summingLong)`: the buckets keep the total, the sum filed under every key and the key set of the entries |
| Grouping.AddToBucketIncreasing | src/main/java/com/gestionemployes/employee_management_api/service/RapportService.java:87-88 | adding an entry to buckets sorted by key keeps them sorted with one bucket per key |
| Grouping.GroupSumIncreasing | src/main/java/com/gestionemployes/employee_management_api/service/RapportService.java:87-88 | the buckets come out in strictly increasing key order, as `sorted(comparingByKey())` leaves them |
| Grouping.BucketHoldsItsSum | src/main/java/com/gestionemployes/employee_management_api/service/RapportService.java:68-71 | with one bucket per key, the sum filed under a bucket's key is that bucket's value |
| Grouping.NoOtherBucket | src/main/java/com/gestionemployes/employee_management_api/service/RapportService.java:68-71 | a key below every bucket's key has nothing filed under it |
| Grouping.GroupSumSpec | src/main/java/com/gestionemployes/employee_management_api/service/RapportService.java:81-94 | the grouped view is sorted by key, has exactly the entries' keys, gives each key the sum of the entries filed under it, and keeps the total |
| Grouping.ToMapFirstWins | src/main/java/com/gestionemployes/employee_management_api/service/RapportService.java:200-219 | `toMap(..., (e1, e2) -> e1)`: the map's keys are the entries' keys and the first entry of each key decides its value |
| Grouping.KeysOfBuilt | src/main/java/com/gestionemployes/employee_management_api/service/RapportService.java:199-201 | entries built one per element have exactly the elements' keys |
| Grouping.FirstBuiltWins | src/main/java/com/gestionemployes/employee_management_api/service/RapportService.java:217 | built one per element, the first element with a key decides that key's value |
| Grouping.DistinctKeysToMap | src/main/java/com/gestionemployes/employee_management_api/service/RapportService.java:87-94 | with strictly increasing keys nothing is merged: the map has one key per entry, each with its own value |
| Grouping.KeysCount | src/main/java/com/gestionemployes/employee_management_api/service/RapportService.java:114-123 | strictly increasing keys are distinct, so there are as many keys as buckets |
| Rounding.RoundedMean | src/main/java/com/gestionemployes/employee_management_api/service/RapportService.java:120-124 | `Math.round(sum / n)`: the nearest integer to the mean, a tie going up |
| Rounding.HalfUpDiv | src/main/java/com/gestionemployes/employee_management_api/service/RapportService.java:181 | `divide(n, HALF_UP)`: the nearest integer to the quotient, a tie going away from zero |
| Rounding.HalfUpDivOdd | src/main/java/com/gestionemployes/employee_management_api/service/RapportService.java:181 | rounding half up is symmetric: negating the total negates the result |
| Rounding.HalfUpDivExact | src/main/java/com/gestionemployes/employee_management_api/service/RapportService.java:181 | an exact quotient is returned unchanged |
| Rounding.RoundedMeanExact | src/main/java/com/gestionemployes/employee_management_api/service/RapportService.java:124 | the rounded mean of equal values is that value |
| PresenceModel.WorkedMinutes | src/main/java/com/gestionemployes/employee_management_api/model/Presence.java:102-108 | null unless both times are set; otherwise the whole minutes between them, truncated toward zero on either side |
| PresenceModel.WorkedMinutesExamples | src/test/java/com/gestionemployes/employee_management_api/unit/PresenceServiceTest.java:133-146 | 09:00 to 17:00 is 480 minutes; equal times and 59 seconds give 0 |
| PresenceModel.Presence.constructor | src/main/java/com/gestionemployes/employee_management_api/model/Presence.java:39-44 | a new presence has the employee, date and arrival, no id, no departure and no worked minutes |
| PresenceModel.Presence.Load | src/main/java/com/gestionemployes/employee_management_api/model/Presence.java:15-32 | a loaded entity holds exactly the stored row |
| PresenceModel.Presence.SetId | src/main/java/com/gestionemployes/employee_management_api/model/Presence.java:51-53 | only the id changes |
| PresenceModel.Presence.SetArrivee | src/main/java/com/gestionemployes/employee_management_api/model/Presence.java:75-77 | only the arrival changes; the worked minutes wait for the next recomputation |
| PresenceModel.Presence.SetDepart | src/main/java/com/gestionemployes/employee_management_api/model/Presence.java:83-87 | the departure is stored and the worked minutes are recomputed from it at once |
| PresenceModel.Presence.CalculateHeuresTravaillees | src/main/java/com/gestionemployes/employee_management_api/model/Presence.java:101-108 | only the worked minutes change, to the minutes between arrival and departure; on a consistent record nothing changes |
| EmployeMapper.ToEntity | src/main/java/com/gestionemployes/employee_management_api/mapper/EmployeMapper.java:12-22 | an unsaved employee with every field of the request and the department's id |
| EmployeMapper.ToDto | src/main/java/com/gestionemployes/employee_management_api/mapper/EmployeMapper.java:24-39 | every field copied, the department id null when there is none |
| EmployeMapper.RoundTrip | src/main/java/com/gestionemployes/employee_management_api/mapper/EmployeMapper.java:12-39 | request to entity to DTO gives the request's fields, the department's id and no id |
| EmployeMapper.ToDtoInjective | src/main/java/com/gestionemployes/employee_management_api/mapper/EmployeMapper.java:24-39 | two employees with the same DTO are the same employee |
| DepartementMapper.ToEntity | src/main/java/com/gestionemployes/employee_management_api/mapper/DepartementMapper.java:11-17 | an unsaved department with the request's name, manager and budget |
| DepartementMapper.ToDto | src/main/java/com/gestionemployes/employee_management_api/mapper/DepartementMapper.java:19-26 | id, name, manager and budget copied |
| DepartementMapper.RoundTrip | src/main/java/com/gestionemployes/employee_management_api/mapper/DepartementMapper.java:11-26 | request to entity to DTO gives the request's fields and no id |
| DepartementMapper.ToDtoInjective | src/main/java/com/gestionemployes/employee_management_api/mapper/DepartementMapper.java:19-26 | two departments with the same DTO are the same department |
| PresenceMapper.ToDto | src/main/java/com/gestionemployes/employee_management_api/mapper/PresenceMapper.java:10-32 | null for null; otherwise the fields copied and non-negative worked minutes as exactly `%dh %02dm` of hours and remaining minutes, text that parses back to them, null staying null |
| PresenceMapper.FormatHeures | src/main/java/com/gestionemployes/employee_management_api/mapper/PresenceMapper.java:17-22 | null stays null; non-negative minutes give exactly the hour digits without leading zero, "h ", the two-digit remainder and "m", text that parses back to them |
| PresenceMapper.ToDtoExamples | src/main/java/com/gestionemployes/employee_management_api/mapper/PresenceMapper.java:17-22 | 480 minutes give "8h 00m" and 125 give "2h 05m" |
| Database.SortedKeys | src/main/java/com/gestionemployes/employee_management_api/repository/DepartementRepository.java:10 | the ids of a table, each once, strictly ascending |
| Database.FindAll | src/main/java/com/gestionemployes/employee_management_api/service/RapportService.java:169 | `findAll()` returns every row of the table once |
| Database.ExistsByEmailIffListed | src/main/java/com/gestionemployes/employee_management_api/repository/EmployeRepository.java:17 | `existsByEmail` holds exactly when some employee of `findAll()` has that email |
| Database.ExistsByNomIffListed | src/main/java/com/gestionemployes/employee_management_api/repository/DepartementRepository.java:14 | `existsByNom` holds exactly when some department of `findAll()` has that name |
| Database.ExistsByDepartementIdIffFound | src/main/java/com/gestionemployes/employee_management_api/repository/EmployeRepository.java:24-26 | `existsByDepartementId` holds exactly when `findByDepartementId` returns some employee |
| Database.ExistsByEmployeIdIffFound | src/main/java/com/gestionemployes/employee_management_api/repository/PresenceRepository.java:16-18 | `existsByEmployeId` holds exactly when `findByEmployeIdOrderByDateAsc` returns some row |
| Database.FindByDepartementId | src/main/java/com/gestionemployes/employee_management_api/repository/EmployeRepository.java:26 | exactly the employees that reference the department, one per id |
| Database.EmployeIdsOf | src/main/java/com/gestionemployes/employee_management_api/repository/EmployeRepository.java:22 | exactly the ids of the department's employees |
| Database.PresencesOf | src/main/java/com/gestionemployes/employee_management_api/repository/PresenceRepository.java:16 | exactly the employee's presence rows |
| Database.FindByEmployeIdOrderByDateAsc | src/main/java/com/gestionemployes/employee_management_api/repository/PresenceRepository.java:16 | a permutation of the employee's rows, holding exactly those rows |
| Database.FindByEmployeIdOrderByDateAscSorted | src/main/java/com/gestionemployes/employee_management_api/repository/PresenceRepository.java:16 | its rows come out sorted by date |
| Database.FindByEmployeIdAndDate | src/main/java/com/gestionemployes/employee_management_api/repository/PresenceRepository.java:14 | absent exactly when no row has that employee and date; otherwise the id of such a row |
| Database.EmptyValid | src/main/java/com/gestionemployes/employee_management_api/model/Employe.java:10-30 | the empty database satisfies every integrity rule |
| Database.PutEmployeKeepsWellFormed | src/main/java/com/gestionemployes/employee_management_api/model/Employe.java:10-30 | writing an employee with an existing department and an email no other employee has keeps every rule |
| Database.PutDepartementKeepsWellFormed | src/main/java/com/gestionemployes/employee_management_api/model/Departement.java:13-17 | writing a department with a known manager and a name no other department has keeps every rule |
| Database.RemoveDepartementKeepsWellFormed | src/main/java/com/gestionemployes/employee_management_api/service/DepartementService.java:97-101 | removing a department no employee references keeps every rule |
| Database.NextPresenceIdFree | src/main/java/com/gestionemployes/employee_management_api/model/Presence.java:13-14 | the identity sequence is ahead of every stored presence id |
| Database.AddPresenceKeepsWellFormed | src/main/java/com/gestionemployes/employee_management_api/service/PresenceService.java:45-53 | adding an open row for a known employee and a date without a row keeps every rule |
| Database.PresenceWriteKeepsPeopleRules | src/main/java/com/gestionemployes/employee_management_api/service/PresenceService.java:53 | writing the presence table leaves the employee and department rules intact |
| Database.ClosePresenceKeepsWellFormed | src/main/java/com/gestionemployes/employee_management_api/service/PresenceService.java:61-73 | closing a row at a time not before its arrival keeps every rule |
| Database.ClosePresenceKeepsRows | src/main/java/com/gestionemployes/employee_management_api/service/PresenceService.java:66-71 | after closing, every row is still sound and has an arrival |
| Database.PutKeepsOnePerDay | src/main/java/com/gestionemployes/employee_management_api/service/PresenceService.java:45-50 | a row whose employee and date no other row has keeps at most one row per employee and date |
| Database.Store.constructor | src/main/java/com/gestionemployes/employee_management_api/model/Employe.java:15-16 | the tables start empty with every identity sequence at 1, and sound |
| Database.Store.InsertEmploye | src/main/java/com/gestionemployes/employee_management_api/service/EmployeService.java:58 | the new employee gets the next id and is the only change |
| Database.Store.PutEmploye | src/main/java/com/gestionemployes/employee_management_api/service/EmployeService.java:90 | only the employee under that id is overwritten |
| Database.Store.InsertDepartement | src/main/java/com/gestionemployes/employee_management_api/service/DepartementService.java:55 | the new department gets the next id and is the only change |
| Database.Store.PutDepartement | src/main/java/com/gestionemployes/employee_management_api/service/DepartementService.java:89 | only the department under that id is overwritten |
| Database.Store.RemoveDepartement | src/main/java/com/gestionemployes/employee_management_api/service/DepartementService.java:101 | only that department is removed |
| Database.Store.LoadPresence | src/main/java/com/gestionemployes/employee_management_api/service/PresenceService.java:58-59 | a fresh entity holding the stored row |
| Database.Store.InsertPresence | src/main/java/com/gestionemployes/employee_management_api/service/PresenceService.java:52-53 | the hook recomputes the minutes, the row gets the next id and is stored, nothing else changes |
| Database.Store.SavePresence | src/main/java/com/gestionemployes/employee_management_api/service/PresenceService.java:73 | the hook recomputes the minutes and the row is written back under its id, nothing else changes |
| EmployeService.CreateEmployeStep | src/main/java/com/gestionemployes/employee_management_api/service/EmployeService.java:39-59 | duplicate email, unknown department, non-positive salary and a salary over (or without) a budget each fail in that order and change nothing; otherwise the new employee with the request's fields gets the next id |
| EmployeService.UpdateEmployeStep | src/main/java/com/gestionemployes/employee_management_api/service/EmployeService.java:62-91 | unknown employee, an email changed to a taken one, unknown department, non-positive salary and over budget each fail in that order and change nothing; otherwise every field but the id is overwritten |
| EmployeService.DeactivateEmployeStep | src/main/java/com/gestionemployes/employee_management_api/service/EmployeService.java:94-105 | unknown employee and an employee with presence rows fail and change nothing; otherwise only the status becomes "INACTIF" |
| EmployeService.GetEmployeById | src/main/java/com/gestionemployes/employee_management_api/service/EmployeService.java:108-111 | the stored employee, or not found exactly when the id is unknown |
| EmployeService.GetAllEmployesQuery | src/main/java/com/gestionemployes/employee_management_api/service/EmployeService.java:114-119 | the search query is used exactly when the term is present and not blank, with the term as given |
| EmployeService.CreateEmployeKeepsWellFormed | src/main/java/com/gestionemployes/employee_management_api/service/EmployeService.java:39-59 | hiring keeps the integrity rules, including unique emails |
| EmployeService.UpdateEmployeKeepsWellFormed | src/main/java/com/gestionemployes/employee_management_api/service/EmployeService.java:62-91 | updating keeps the integrity rules |
| EmployeService.DeactivateEmployeKeepsWellFormed | src/main/java/com/gestionemployes/employee_management_api/service/EmployeService.java:94-105 | deactivating keeps the integrity rules |
| EmployeService.DeactivateIdempotent | src/main/java/com/gestionemployes/employee_management_api/service/EmployeService.java:103-104 | deactivating again after a success succeeds and changes nothing |
| EmployeService.UpdateWithSameValues | src/main/java/com/gestionemployes/employee_management_api/service/EmployeService.java:82-90 | an update with the employee's own values succeeds and changes nothing |
| EmployeService.CreateEmploye | src/main/java/com/gestionemployes/employee_management_api/service/EmployeService.java:39-59 | the outcome and the new tables are those of CreateEmployeStep, and the tables stay sound |
| EmployeService.UpdateEmploye | src/main/java/com/gestionemployes/employee_management_api/service/EmployeService.java:62-91 | the outcome and the new tables are those of UpdateEmployeStep, and the tables stay sound |
| EmployeService.DeactivateEmploye | src/main/java/com/gestionemployes/employee_management_api/service/EmployeService.java:94-105 | the outcome and the new tables are those of DeactivateEmployeStep, and the tables stay sound |
| DepartementService.CreateDepartementStep | src/main/java/com/gestionemployes/employee_management_api/service/DepartementService.java:40-56 | a taken name and an unknown manager each fail in that order and change nothing; otherwise the department gets the next id |
| DepartementService.UpdateDepartementStep | src/main/java/com/gestionemployes/employee_management_api/service/DepartementService.java:59-90 | unknown department, a name changed to a taken one, unknown manager and a manager outside the department fail in that order and change nothing; otherwise name, budget and manager (cleared when absent) are overwritten |
| DepartementService.DeleteDepartementStep | src/main/java/com/gestionemployes/employee_management_api/service/DepartementService.java:93-102 | unknown department and a department with employees fail and change nothing; otherwise exactly that department is removed |
| DepartementService.GetDepartementById | src/main/java/com/gestionemployes/employee_management_api/service/DepartementService.java:105-108 | the stored department, or not found exactly when the id is unknown |
| DepartementService.GetAllDepartements | src/main/java/com/gestionemployes/employee_management_api/service/DepartementService.java:111-113 | every department once |
| DepartementService.ToDtos | src/main/java/com/gestionemployes/employee_management_api/service/DepartementService.java:120-123 | the DTO of each employee, position by position |
| DepartementService.GetEmployesByDepartementId | src/main/java/com/gestionemployes/employee_management_api/service/DepartementService.java:116-124 | not found for an unknown department; otherwise one DTO per member, every member's DTO present, each naming the department |
| DepartementService.GetDepartementBudgetAnalysis | src/main/java/com/gestionemployes/employee_management_api/service/DepartementService.java:127-132 | the stored budget as it is, or not found |
| DepartementService.CreateDepartementKeepsWellFormed | src/main/java/com/gestionemployes/employee_management_api/service/DepartementService.java:40-56 | creating keeps the integrity rules, including unique names |
| DepartementService.UpdateDepartementKeepsWellFormed | src/main/java/com/gestionemployes/employee_management_api/service/DepartementService.java:59-90 | updating keeps the integrity rules |
| DepartementService.DeleteDepartementKeepsWellFormed | src/main/java/com/gestionemployes/employee_management_api/service/DepartementService.java:93-102 | deleting keeps the integrity rules: no employee is left without its department |
| DepartementService.UpdatedManagerBelongs | src/main/java/com/gestionemployes/employee_management_api/service/DepartementService.java:76-84 | after an update naming a manager, that manager is an employee of this department |
| DepartementService.SameNameNeverTaken | src/main/java/com/gestionemployes/employee_management_api/service/DepartementService.java:65-70 | keeping the department's own name never fails on the name |
| DepartementService.CreateThenDelete | src/main/java/com/gestionemployes/employee_management_api/service/DepartementService.java:93-101 | a department just created can be deleted, and that restores the tables but for the id sequence |
| DepartementService.CreateDepartement | src/main/java/com/gestionemployes/employee_management_api/service/DepartementService.java:40-56 | the outcome and the new tables are those of CreateDepartementStep, and the tables stay sound |
| DepartementService.UpdateDepartement | src/main/java/com/gestionemployes/employee_management_api/service/DepartementService.java:59-90 | the outcome and the new tables are those of UpdateDepartementStep, and the tables stay sound |
| DepartementService.DeleteDepartement | src/main/java/com/gestionemployes/employee_management_api/service/DepartementService.java:93-102 | the outcome and the new tables are those of DeleteDepartementStep, and the tables stay sound |
| PresenceService.AttendanceOf | src/main/java/com/gestionemployes/employee_management_api/service/PresenceService.java:45-50 | an employee is absent on a date exactly when no row has that employee and date |
| PresenceService.AttendanceOfRow | src/main/java/com/gestionemployes/employee_management_api/service/PresenceService.java:45-50 | with one row per day, the attendance on a row's date is open or closed as that row's departure says |
| PresenceService.PointageArriveeStep | src/main/java/com/gestionemployes/employee_management_api/service/PresenceService.java:40-54 | unknown employee, an open row and a closed row for the date fail and change nothing; otherwise a new open row with the arrival and no minutes gets the next id |
| PresenceService.PointageDepartStep | src/main/java/com/gestionemployes/employee_management_api/service/PresenceService.java:57-74 | unknown row, a row already closed and a departure before the arrival fail and change nothing; otherwise only that row gets the departure and the whole minutes worked, which are non-negative |
| PresenceService.ArriveeOpens | src/main/java/com/gestionemployes/employee_management_api/service/PresenceService.java:52-53 | after a clock-in the employee's attendance for that date is open |
| PresenceService.ArriveeKeepsOthers | src/main/java/com/gestionemployes/employee_management_api/service/PresenceService.java:52-53 | a clock-in changes no other employee's or date's attendance |
| PresenceService.DepartCloses | src/main/java/com/gestionemployes/employee_management_api/service/PresenceService.java:61-70 | a clock-out finds the row open and leaves it closed |
| PresenceService.DepartExample | src/test/java/com/gestionemployes/employee_management_api/unit/PresenceServiceTest.java:133-146 | 09:00 to 17:00 on an open row succeeds with 480 worked minutes |
| PresenceService.PointageArriveeKeepsWellFormed | src/main/java/com/gestionemployes/employee_management_api/service/PresenceService.java:40-54 | clocking in keeps the integrity rules, including one row per employee and date |
| PresenceService.PointageDepartKeepsWellFormed | src/main/java/com/gestionemployes/employee_management_api/service/PresenceService.java:57-74 | in sound tables an open row has an arrival, and clocking out keeps the integrity rules |
| PresenceService.GetMonthlyPresenceReport | src/main/java/com/gestionemployes/employee_management_api/service/PresenceService.java:77-91 | not found for an unknown employee, a date error for an invalid month; otherwise exactly the employee's rows of that year and month, sorted by date |
| PresenceService.MonthlyReportIsSameMonthFilter | src/main/java/com/gestionemployes/employee_management_api/service/PresenceService.java:83-90 | the report is the date-sorted list filtered on year and month |
| PresenceService.GetDepartementPresenceSummary | src/main/java/com/gestionemployes/employee_management_api/service/PresenceService.java:94-105 | not found for an unknown department; otherwise as many rows as its members have together |
| PresenceService.SummaryMembership | src/main/java/com/gestionemployes/employee_management_api/service/PresenceService.java:100-104 | in sound tables the summary holds exactly the rows of the department's employees |
| PresenceService.PointageArrivee | src/main/java/com/gestionemployes/employee_management_api/service/PresenceService.java:40-54 | the outcome and the new tables are those of PointageArriveeStep, and the tables stay sound |
| PresenceService.ArriveeCommitted | src/main/java/com/gestionemployes/employee_management_api/service/PresenceService.java:52-53 | the row the method saves is the one PointageArriveeStep describes, and the tables stay sound |
| PresenceService.PointageDepart | src/main/java/com/gestionemployes/employee_management_api/service/PresenceService.java:57-74 | the outcome and the new tables are those of PointageDepartStep, and the tables stay sound |
| PresenceService.NoOpenRowWithoutArrivee | src/main/java/com/gestionemployes/employee_management_api/service/PresenceService.java:66 | every stored row has an arrival, so the comparison with the departure is defined |
| PresenceService.DepartCommitted | src/main/java/com/gestionemployes/employee_management_api/service/PresenceService.java:70-73 | the row the method saves is the one PointageDepartStep describes, and the tables stay sound |
| RapportService.FormatMinutesToHoursMinutes | src/main/java/com/gestionemployes/employee_management_api/service/RapportService.java:43-50 | null gives "0h 00m"; non-negative minutes give exactly the hour digits without leading zero, "h ", the two-digit remainder and "m", text that parses back to them |
| RapportService.FormatExamples | src/main/java/com/gestionemployes/employee_management_api/service/RapportService.java:43-50 | null reads like zero; 480 minutes read "8h 00m", 960 read "16h 00m", 510 read "8h 30m" |
| RapportService.WorkedRows | src/main/java/com/gestionemployes/employee_management_api/service/RapportService.java:59-67 | exactly the stored rows with worked minutes |
| RapportService.Entries | src/main/java/com/gestionemployes/employee_management_api/service/RapportService.java:68-70 | one (key, minutes) entry per row, in order |
| RapportService.EntriesTotal | src/main/java/com/gestionemployes/employee_management_api/service/RapportService.java:70 | the entries add up to the rows' worked minutes |
| RapportService.EntriesSumFor | src/main/java/com/gestionemployes/employee_management_api/service/RapportService.java:68-71 | the entries filed under a key add up to the minutes of the rows with that key |
| RapportService.EntriesKeys | src/main/java/com/gestionemployes/employee_management_api/service/RapportService.java:68-71 | the entries' keys are the keys the rows produce |
| RapportService.Formatted | src/main/java/com/gestionemployes/employee_management_api/service/RapportService.java:72-78 | each bucket keeps its key and gets its minute sum formatted |
| RapportService.ViewSpec | src/main/java/com/gestionemployes/employee_management_api/service/RapportService.java:81-94 | a view is sorted by key, has exactly the keys the rows produce, shows for each key the formatted minutes of its rows, and its sums add up to all the minutes |
| RapportService.DepartementNameOf | src/main/java/com/gestionemployes/employee_management_api/service/RapportService.java:145-147 | a name exactly when the row's employee and that employee's department are stored |
| RapportService.EmployeRows | src/main/java/com/gestionemployes/employee_management_api/service/RapportService.java:128-129 | exactly the rows with worked minutes and an employee |
| RapportService.DepartementRows | src/main/java/com/gestionemployes/employee_management_api/service/RapportService.java:144-145 | exactly the rows with worked minutes whose employee and that employee's department are stored |
| RapportService.GetPresenceTrendsAndStats | src/main/java/com/gestionemployes/employee_management_api/service/RapportService.java:58-160 | the month, month-year, employee and department views each come out strictly increasing by key |
| RapportService.DayOfWeekView | src/main/java/com/gestionemployes/employee_management_api/service/RapportService.java:66-78 | `TotalHoursByDayOfWeek`: the weekday map has exactly the weekdays with data, each with its formatted minutes, and is empty without data |
| RapportService.MonthView | src/main/java/com/gestionemployes/employee_management_api/service/RapportService.java:81-94 | `TotalHoursByMonth`: the months with data in increasing order, each with its formatted minutes, the sums adding up to all minutes |
| RapportService.MonthKeysInRange | src/main/java/com/gestionemployes/employee_management_api/service/RapportService.java:84 | every month key is between 1 and 12 |
| RapportService.MonthYearView | src/main/java/com/gestionemployes/employee_management_api/service/RapportService.java:97-110 | `TotalHoursByMonthYear`: the "yyyy-MM" texts with data in increasing order, each with its formatted minutes |
| RapportService.EmployeeIdView | src/main/java/com/gestionemployes/employee_management_api/service/RapportService.java:128-141 | `TotalHoursByEmployeeId`: the employee ids with data in increasing order, each with its formatted minutes |
| RapportService.DepartementNameView | src/main/java/com/gestionemployes/employee_management_api/service/RapportService.java:144-157 | `TotalHoursByDepartementName`: the department names with data in increasing `compareTo` order, each with its formatted minutes |
| RapportService.AverageDaily | src/main/java/com/gestionemployes/employee_management_api/service/RapportService.java:114-124 | `AverageDailyMinutes`: 0 without data; otherwise all worked minutes over the number of distinct dates with data, rounded half up |
| RapportService.MembersOf | src/main/java/com/gestionemployes/employee_management_api/service/RapportService.java:171 | exactly the stored employees that reference the department; none for a department without id |
| RapportService.AverageSalary | src/main/java/com/gestionemployes/employee_management_api/service/RapportService.java:179-182 | zero without employees; otherwise the total over the count rounded half up to the cent |
| RapportService.SummarizeSpec | src/main/java/com/gestionemployes/employee_management_api/service/RapportService.java:170-191 | a line names its department and counts its members; zeros without members; otherwise the average lies between the lowest and highest salary |
| RapportService.AverageWithinSalaries | src/main/java/com/gestionemployes/employee_management_api/service/RapportService.java:181 | the rounded average salary lies between the lowest and the highest salary |
| RapportService.SumBetween | src/main/java/com/gestionemployes/employee_management_api/service/RapportService.java:173-175 | salaries between two bounds put the total between count times each bound |
| RapportService.MeanWithinBounds | src/main/java/com/gestionemployes/employee_management_api/service/RapportService.java:181 | a mean rounded to the nearest whole stays within whole bounds of the values |
| RapportService.GetResumeSalairesByDepartement | src/main/java/com/gestionemployes/employee_management_api/service/RapportService.java:168-193 | one line per department, every department's own line present, the lines a permutation of the per-department summaries, sorted by name |
| RapportService.StatsSpec | src/main/java/com/gestionemployes/employee_management_api/service/RapportService.java:202-215 | total and average agree with the summary line; zeros without members; otherwise max and min are members' salaries bounding all others, with the average between them |
| RapportService.EntryNames | src/main/java/com/gestionemployes/employee_management_api/service/RapportService.java:199-201 | the (name, stats) entries carry every department name and nothing else |
| RapportService.GetResumeSalairesParDepartement | src/main/java/com/gestionemployes/employee_management_api/service/RapportService.java:198-220 | the map's keys are exactly the department names |
| RapportService.ParDepartementFirstWins | src/main/java/com/gestionemployes/employee_management_api/service/RapportService.java:217 | on a shared name the first department in `findAll()` order decides the stats |
| RapportService.ParDepartementOfWellFormed | src/main/java/com/gestionemployes/employee_management_api/service/RapportService.java:199-219 | with unique names every department's own stats are under its name |

## Left out

- Controllers, request validation annotations, the OpenAPI configuration and exception messages: outside the service core; an exception is modelled by its kind (`Common.Error`).
- Transactions and concurrency: each service call is modelled as one atomic step; rollback is the rule that a failed call leaves the tables as they were.
- Pagination and the case-insensitive search of `getAllEmployes` and `getAllDepartements`: they are repository queries. The model states which query runs (`EmployeService.GetAllEmployesQuery`) and that every department is returned.
- Entity identity, lazy loading and aliasing: references between entities are held as ids, and a loaded `Presence` is a fresh object holding its stored row. A reference to a row that is not stored is treated as null; sound tables never hold one.
- The no-argument `Presence` constructor and the setters `setEmploye` and `setDate`: no service calls them. The `Employe.presences` collection and the employee list of `Departement` are also left out: no core operation reads them.
- Row order of `findAll()` and of the derived queries: the database does not fix it. The model returns rows in ascending id order.
- The day-of-week view is modelled as a map: the source collects it from a `HashMap`, whose iteration order is unspecified.
- Long overflow: sums of worked minutes are `long` in the source and unbounded integers here. Salaries are `BigDecimal`, which does not overflow.
- Floating point: the daily average divides exactly and rounds as `Math.round` does. The source divides in `double`, which can differ only for sums of 2^52 minutes or more (three dates totalling 3·2^51 + 1 minutes round to 2^51 + 1 in `double` and to 2^51 here).
- Amounts with more than two decimals: a salary or budget such as 1000.005 is not representable. The request types only require a positive number, and the source compares such amounts exactly against the budget (`EmployeService.java:52` and `:78`); the model compares whole cents.
- `BigDecimal` scale: an average of scale 2 and `BigDecimal.ZERO` are both a number of cents. Equality that depends on scale is not modelled.
- Sub-second times: `LocalTime` is kept to the second, so `Duration.toMinutes` truncates whole seconds.
- PresenceService.PointageDepartStep: it requires that an open row has an arrival. The source would throw a NullPointerException on a row without one, and the model does not describe that exception. Sound tables always have an arrival (`PresenceService.NoOpenRowWithoutArrivee`).
- Database.FindByEmployeIdAndDate: with several rows for one employee and date it returns the smallest id, where the repository would throw. Sound tables never hold two such rows (`Database.OnePresencePerDay`).
- PresenceService.GetDepartementPresenceSummary: its contract states the length of the result. Which rows it holds is stated separately, for sound tables, by `PresenceService.SummaryMembership`. The order (member by member, then by date) follows from the definition but is not stated as a separate property.
- RapportService.GetPresenceTrendsAndStats: its contract states only that the ordered views are increasing by key. What each view holds is proved per view by the `…View` lemmas and by `RapportService.AverageDaily`.
- RapportService.GetResumeSalairesByDepartement: "nothing but the departments' summaries" is stated as a multiset equality with the per-department summaries.
- RapportService.GetResumeSalairesParDepartement: its contract states the key set. The value under each name is given separately: per position by `RapportService.ParDepartementFirstWins`, and for unique names by `RapportService.ParDepartementOfWellFormed`.
- RapportService.FormatMinutesToHoursMinutes, PresenceMapper.FormatHeures and PresenceMapper.ToDto: the text is characterised only for non-negative minutes. Negative minutes never reach them from sound tables; `Text.HoursMinutesExamples` shows one negative case.
