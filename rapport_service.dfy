/**
 * RapportService: the attendance trend report (worked minutes summed per
 * weekday, month, "yyyy-MM", employee and department, and the average over
 * days) and the two salary summaries per department.
 */
module RapportService {
  import opened Common
  import opened Orders
  import opened Text
  import opened Calendar
  import opened Lists
  import opened Entities
  import opened Database
  import opened Grouping
  import opened Rounding

  // ----- formatting -----

  /**
   * `formatMinutesToHoursMinutes(totalMinutes)`: "0h 00m" for null, otherwise
   * "%dh %02dm" of the truncated hours and remaining minutes; the text of a
   * non-negative count reads back as that count.
   */
  function FormatMinutesToHoursMinutes(totalMinutes: Option<int>): (s: string)
    ensures totalMinutes.None? ==> s == "0h 00m"
    ensures totalMinutes.Some? && totalMinutes.value >= 0 ==> ParseHoursMinutes(s) == Some(totalMinutes.value)
    ensures totalMinutes.Some? && totalMinutes.value >= 0 ==>
              s == Digits(totalMinutes.value / 60) + "h " + ZeroPad2(totalMinutes.value % 60) + "m"
  {
    match totalMinutes
    case None => "0h 00m"
    case Some(m) =>
      if m >= 0 then HoursMinutesRoundTrip(m); HoursMinutes(m)
      else HoursMinutes(m)
  }

  /** Null reads as no time at all; 480 minutes read "8h 00m", 960 "16h 00m", 510 "8h 30m". */
  lemma FormatExamples()
    ensures FormatMinutesToHoursMinutes(None) == FormatMinutesToHoursMinutes(Some(0))
    ensures FormatMinutesToHoursMinutes(Some(480)) == "8h 00m"
    ensures FormatMinutesToHoursMinutes(Some(960)) == "16h 00m"
    ensures FormatMinutesToHoursMinutes(Some(510)) == "8h 30m"
  {
    HoursMinutesExamples();
    assert JavaDiv(0, 60) == 0 && JavaRem(0, 60) == 0;
    assert JavaDiv(510, 60) == 8 && JavaRem(510, 60) == 30;
    assert Digits(30) == Digits(3) + ['0'] == "30";
  }

  // ----- the rows the attendance report aggregates -----

  /** The worked minutes of a row, read only on rows where they are set. */
  function Minutes(p: PresenceRecord): int {
    if p.heuresTravaillees.Some? then p.heuresTravaillees.value else 0
  }

  predicate HasMinutes(p: PresenceRecord) {
    p.heuresTravaillees.Some?
  }

  /** `findAll()` filtered on `getHeuresTravaillees() != null`: the rows every view starts from. */
  function WorkedRows(db: Db): (r: seq<PresenceRecord>)
    ensures forall p :: p in r <==> p in db.presences.Values && p.heuresTravaillees.Some?
    ensures |r| <= |db.presences|
  {
    Filter(FindAll(db.presences), HasMinutes)
  }

  /** Each row as a (key, worked minutes) entry, the input of `groupingBy(key, summingLong(...))`. */
  function Entries<K>(rows: seq<PresenceRecord>, key: PresenceRecord -> K): (r: seq<(K, int)>)
    ensures |r| == |rows|
    ensures forall i :: 0 <= i < |r| ==> r[i] == (key(rows[i]), Minutes(rows[i]))
  {
    seq(|rows|, i requires 0 <= i < |rows| => (key(rows[i]), Minutes(rows[i])))
  }

  /** The worked minutes of the rows whose key is `k`: what the bucket of `k` must hold. */
  ghost function MinutesFiledUnder<K>(rows: seq<PresenceRecord>, key: PresenceRecord -> K, k: K): int {
    Sum(Filter(rows, p => key(p) == k), Minutes)
  }

  /** The keys the rows produce. */
  ghost function KeysAmong<K>(rows: seq<PresenceRecord>, key: PresenceRecord -> K): set<K> {
    set p | p in rows :: key(p)
  }

  lemma {:induction false} EntriesTotal<K>(rows: seq<PresenceRecord>, key: PresenceRecord -> K)
    ensures Total(Entries(rows, key)) == Sum(rows, Minutes)
  {
    if rows != [] {
      assert Entries(rows, key)[1..] == Entries(rows[1..], key);
      EntriesTotal(rows[1..], key);
    }
  }

  lemma {:induction false} EntriesSumFor<K>(rows: seq<PresenceRecord>, key: PresenceRecord -> K, k: K)
    ensures SumFor(Entries(rows, key), k) == MinutesFiledUnder(rows, key, k)
  {
    if rows != [] {
      assert Entries(rows, key)[1..] == Entries(rows[1..], key);
      EntriesSumFor(rows[1..], key, k);
      var f := Filter(rows, p => key(p) == k);
      if key(rows[0]) == k {
        assert f[1..] == Filter(rows[1..], p => key(p) == k);
      }
    }
  }

  lemma EntriesKeys<K>(rows: seq<PresenceRecord>, key: PresenceRecord -> K)
    ensures KeysOf(Entries(rows, key)) == KeysAmong(rows, key)
  {
    var e := Entries(rows, key);
    forall k | k in KeysAmong(rows, key) ensures k in KeysOf(e) {
      var p :| p in rows && key(p) == k;
      var i :| 0 <= i < |rows| && rows[i] == p;
      assert e[i].0 == k;
    }
  }

  // ----- one view: group, sum, sort by key, format -----

  /** The buckets with their minute sums formatted, in the buckets' order. */
  function Formatted<K>(buckets: seq<(K, int)>): (v: seq<(K, string)>)
    ensures |v| == |buckets|
    ensures forall i :: 0 <= i < |v| ==> v[i] == (buckets[i].0, FormatMinutesToHoursMinutes(Some(buckets[i].1)))
  {
    seq(|buckets|, i requires 0 <= i < |buckets| => (buckets[i].0, FormatMinutesToHoursMinutes(Some(buckets[i].1))))
  }

  /**
   * `groupingBy(key, summingLong(getHeuresTravaillees))`, then the entries
   * `sorted(comparingByKey())` into a LinkedHashMap of formatted sums.
   */
  function View<K(==,!new)>(rows: seq<PresenceRecord>, key: PresenceRecord -> K, lt: (K, K) -> bool): seq<(K, string)> {
    Formatted(GroupSum(Entries(rows, key), lt))
  }

  /**
   * What every view delivers: keys in ascending order, one entry per key that
   * occurs among the rows, each the formatted sum of that key's minutes; the
   * sums add up to the minutes of all rows.
   */
  lemma ViewSpec<K(!new)>(rows: seq<PresenceRecord>, key: PresenceRecord -> K, lt: (K, K) -> bool)
    requires StrictTotalOrder(lt)
    ensures KeysIncreasing(View(rows, key, lt), lt)
    ensures KeysOf(View(rows, key, lt)) == KeysAmong(rows, key)
    ensures forall i :: 0 <= i < |View(rows, key, lt)| ==>
              View(rows, key, lt)[i].1 == FormatMinutesToHoursMinutes(Some(MinutesFiledUnder(rows, key, View(rows, key, lt)[i].0)))
    ensures Total(GroupSum(Entries(rows, key), lt)) == Sum(rows, Minutes)
  {
    var entries := Entries(rows, key);
    var buckets := GroupSum(entries, lt);
    var v := View(rows, key, lt);
    GroupSumSpec(entries, lt);
    EntriesKeys(rows, key);
    EntriesTotal(rows, key);
    assert KeysOf(v) == KeysOf(buckets) by {
      assert forall i :: 0 <= i < |v| ==> v[i].0 == buckets[i].0;
    }
    forall i | 0 <= i < |v|
      ensures v[i].1 == FormatMinutesToHoursMinutes(Some(MinutesFiledUnder(rows, key, v[i].0)))
    {
      EntriesSumFor(rows, key, v[i].0);
    }
  }

  // ----- the views of the report -----

  /** `getDate().getDayOfWeek().toString()`. */
  function DayOfWeekKey(p: PresenceRecord): string {
    GetDayOfWeek(p.date).Name()
  }

  /** `getDate().getMonthValue()`. */
  function MonthKey(p: PresenceRecord): int {
    p.date.month
  }

  /** `getDate().format(ofPattern("yyyy-MM"))`. */
  function MonthYearKey(p: PresenceRecord): string {
    YearMonthText(p.date)
  }

  /** `Presence::getDate`. */
  function DateKey(p: PresenceRecord): Date {
    p.date
  }

  /** `getEmploye().getId()`, read only on rows that have an employee. */
  function EmployeKey(p: PresenceRecord): int {
    if p.employeId.Some? then p.employeId.value else 0
  }

  predicate HasEmploye(p: PresenceRecord) {
    p.employeId.Some?
  }

  /** `getEmploye().getDepartement().getNom()`, or None when the row has no employee or the employee no department. */
  function DepartementNameOf(db: Db, p: PresenceRecord): (n: Option<string>)
    ensures n.Some? <==> p.employeId.Some? && p.employeId.value in db.employes
                         && db.employes[p.employeId.value].departementId.Some?
                         && db.employes[p.employeId.value].departementId.value in db.departements
  {
    if p.employeId.Some? && p.employeId.value in db.employes then
      var e := db.employes[p.employeId.value];
      if e.departementId.Some? && e.departementId.value in db.departements then
        Some(db.departements[e.departementId.value].nom)
      else None
    else None
  }

  function DepartementKey(db: Db): PresenceRecord -> string {
    (p: PresenceRecord) => var n := DepartementNameOf(db, p); if n.Some? then n.value else ""
  }

  function HasDepartement(db: Db): PresenceRecord -> bool {
    (p: PresenceRecord) => DepartementNameOf(db, p).Some?
  }

  /** Rows with minutes and an employee: the filter of the per-employee view. */
  function EmployeRows(db: Db): (r: seq<PresenceRecord>)
    ensures forall p :: p in r <==> p in db.presences.Values && p.heuresTravaillees.Some? && p.employeId.Some?
  {
    Filter(WorkedRows(db), HasEmploye)
  }

  /** Rows with minutes, an employee and a department: the filter of the per-department view. */
  function DepartementRows(db: Db): (r: seq<PresenceRecord>)
    ensures forall p :: p in r <==> p in db.presences.Values && p.heuresTravaillees.Some? && DepartementNameOf(db, p).Some?
  {
    Filter(WorkedRows(db), HasDepartement(db))
  }

  /** The weekday view: a map, so only its keys and values matter, not its order. */
  function TotalHoursByDayOfWeek(db: Db): map<string, string> {
    ToMapFirstWins(View(WorkedRows(db), DayOfWeekKey, StringLess))
  }

  function TotalHoursByMonth(db: Db): seq<(int, string)> {
    View(WorkedRows(db), MonthKey, IntLess)
  }

  function TotalHoursByMonthYear(db: Db): seq<(string, string)> {
    View(WorkedRows(db), MonthYearKey, StringLess)
  }

  function TotalHoursByEmployeeId(db: Db): seq<(int, string)> {
    View(EmployeRows(db), EmployeKey, IntLess)
  }

  function TotalHoursByDepartementName(db: Db): seq<(string, string)> {
    View(DepartementRows(db), DepartementKey(db), StringLess)
  }

  /**
   * The per-date totals averaged over the dates that have data, rounded with
   * `Math.round`; no date at all gives 0 (`orElse(0.0)`).
   */
  function AverageDailyMinutes(db: Db): int {
    var days := GroupSum(Entries(WorkedRows(db), DateKey), IsBefore);
    if days == [] then 0 else RoundedMean(Total(days), |days|)
  }

  datatype PresenceTrendReport = PresenceTrendReport(
    totalHoursByDayOfWeek: map<string, string>,
    totalHoursByMonth: seq<(int, string)>,
    totalHoursByMonthYear: seq<(string, string)>,
    averageDailyHoursAcrossAllEmployees: string,
    totalHoursByEmployeeId: seq<(int, string)>,
    totalHoursByDepartementName: seq<(string, string)>)

  /**
   * `getPresenceTrendsAndStats()`: the six views. Every ordered view lists
   * its keys in ascending order, each key once.
   */
  function GetPresenceTrendsAndStats(db: Db): (r: PresenceTrendReport)
    ensures KeysIncreasing(r.totalHoursByMonth, IntLess)
    ensures KeysIncreasing(r.totalHoursByMonthYear, StringLess)
    ensures KeysIncreasing(r.totalHoursByEmployeeId, IntLess)
    ensures KeysIncreasing(r.totalHoursByDepartementName, StringLess)
  {
    IntLessIsStrictTotal();
    StringLessIsStrictTotal();
    GroupSumIncreasing(Entries(WorkedRows(db), MonthKey), IntLess);
    GroupSumIncreasing(Entries(WorkedRows(db), MonthYearKey), StringLess);
    GroupSumIncreasing(Entries(EmployeRows(db), EmployeKey), IntLess);
    GroupSumIncreasing(Entries(DepartementRows(db), DepartementKey(db)), StringLess);
    PresenceTrendReport(
      TotalHoursByDayOfWeek(db),
      TotalHoursByMonth(db),
      TotalHoursByMonthYear(db),
      FormatMinutesToHoursMinutes(Some(AverageDailyMinutes(db))),
      TotalHoursByEmployeeId(db),
      TotalHoursByDepartementName(db))
  }

  // ----- what each view holds -----

  /**
   * One key per weekday that has worked minutes, holding the formatted sum of
   * that weekday's minutes; no such row, no key.
   */
  lemma DayOfWeekView(db: Db)
    ensures TotalHoursByDayOfWeek(db).Keys == KeysAmong(WorkedRows(db), DayOfWeekKey)
    ensures forall k :: k in TotalHoursByDayOfWeek(db) ==>
              TotalHoursByDayOfWeek(db)[k] == FormatMinutesToHoursMinutes(Some(MinutesFiledUnder(WorkedRows(db), DayOfWeekKey, k)))
    ensures WorkedRows(db) == [] ==> TotalHoursByDayOfWeek(db) == map[]
  {
    var v := View(WorkedRows(db), DayOfWeekKey, StringLess);
    StringLessIsStrictTotal();
    ViewSpec(WorkedRows(db), DayOfWeekKey, StringLess);
    DistinctKeysToMap(v, StringLess);
    forall k | k in TotalHoursByDayOfWeek(db)
      ensures TotalHoursByDayOfWeek(db)[k] == FormatMinutesToHoursMinutes(Some(MinutesFiledUnder(WorkedRows(db), DayOfWeekKey, k)))
    {
      var i :| 0 <= i < |v| && v[i].0 == k;
    }
  }

  /** The month view: ascending months that have data, each with the formatted sum of its minutes. */
  lemma MonthView(db: Db)
    ensures KeysIncreasing(TotalHoursByMonth(db), IntLess)
    ensures KeysOf(TotalHoursByMonth(db)) == KeysAmong(WorkedRows(db), MonthKey)
    ensures forall i :: 0 <= i < |TotalHoursByMonth(db)| ==>
              TotalHoursByMonth(db)[i].1 == FormatMinutesToHoursMinutes(Some(MinutesFiledUnder(WorkedRows(db), MonthKey, TotalHoursByMonth(db)[i].0)))
    ensures Total(GroupSum(Entries(WorkedRows(db), MonthKey), IntLess)) == Sum(WorkedRows(db), Minutes)
  {
    IntLessIsStrictTotal();
    ViewSpec(WorkedRows(db), MonthKey, IntLess);
  }

  /** Every key of the month view is a month number, 1 to 12. */
  lemma MonthKeysInRange(db: Db)
    ensures forall i :: 0 <= i < |TotalHoursByMonth(db)| ==> 1 <= TotalHoursByMonth(db)[i].0 <= 12
  {
    var v := TotalHoursByMonth(db);
    MonthView(db);
    forall i | 0 <= i < |v| ensures 1 <= v[i].0 <= 12 {
      assert v[i].0 in KeysOf(v);
    }
  }

  /** The "yyyy-MM" view: ascending texts, each with the formatted sum of that month's minutes. */
  lemma MonthYearView(db: Db)
    ensures KeysIncreasing(TotalHoursByMonthYear(db), StringLess)
    ensures KeysOf(TotalHoursByMonthYear(db)) == KeysAmong(WorkedRows(db), MonthYearKey)
    ensures forall i :: 0 <= i < |TotalHoursByMonthYear(db)| ==>
              TotalHoursByMonthYear(db)[i].1 == FormatMinutesToHoursMinutes(Some(MinutesFiledUnder(WorkedRows(db), MonthYearKey, TotalHoursByMonthYear(db)[i].0)))
    ensures Total(GroupSum(Entries(WorkedRows(db), MonthYearKey), StringLess)) == Sum(WorkedRows(db), Minutes)
  {
    StringLessIsStrictTotal();
    ViewSpec(WorkedRows(db), MonthYearKey, StringLess);
  }

  /**
   * The employee view: ascending ids of the employees that have worked rows,
   * each with the formatted sum of their minutes; rows without an employee
   * are not counted.
   */
  lemma EmployeeIdView(db: Db)
    ensures KeysIncreasing(TotalHoursByEmployeeId(db), IntLess)
    ensures KeysOf(TotalHoursByEmployeeId(db)) == KeysAmong(EmployeRows(db), EmployeKey)
    ensures forall i :: 0 <= i < |TotalHoursByEmployeeId(db)| ==>
              TotalHoursByEmployeeId(db)[i].1 == FormatMinutesToHoursMinutes(Some(MinutesFiledUnder(EmployeRows(db), EmployeKey, TotalHoursByEmployeeId(db)[i].0)))
    ensures Total(GroupSum(Entries(EmployeRows(db), EmployeKey), IntLess)) == Sum(EmployeRows(db), Minutes)
  {
    IntLessIsStrictTotal();
    ViewSpec(EmployeRows(db), EmployeKey, IntLess);
  }

  /**
   * The department view: ascending names of the departments whose employees
   * have worked rows, each with the formatted sum of their minutes; rows
   * without an employee or department are not counted.
   */
  lemma DepartementNameView(db: Db)
    ensures KeysIncreasing(TotalHoursByDepartementName(db), StringLess)
    ensures KeysOf(TotalHoursByDepartementName(db)) == KeysAmong(DepartementRows(db), DepartementKey(db))
    ensures forall i :: 0 <= i < |TotalHoursByDepartementName(db)| ==>
              TotalHoursByDepartementName(db)[i].1 ==
                FormatMinutesToHoursMinutes(Some(MinutesFiledUnder(DepartementRows(db), DepartementKey(db), TotalHoursByDepartementName(db)[i].0)))
    ensures Total(GroupSum(Entries(DepartementRows(db), DepartementKey(db)), StringLess)) == Sum(DepartementRows(db), Minutes)
  {
    StringLessIsStrictTotal();
    ViewSpec(DepartementRows(db), DepartementKey(db), StringLess);
  }

  /**
   * The daily average: all worked minutes divided by the number of distinct
   * dates with data, rounded half up; 0 when there is no data.
   */
  lemma AverageDaily(db: Db)
    ensures WorkedRows(db) == [] ==> AverageDailyMinutes(db) == 0
    ensures WorkedRows(db) != [] ==>
              |KeysAmong(WorkedRows(db), DateKey)| > 0 &&
              AverageDailyMinutes(db) == RoundedMean(Sum(WorkedRows(db), Minutes), |KeysAmong(WorkedRows(db), DateKey)|)
  {
    var rows := WorkedRows(db);
    var entries := Entries(rows, DateKey);
    var days := GroupSum(entries, IsBefore);
    IsBeforeIsStrictTotal();
    GroupSumSpec(entries, IsBefore);
    EntriesKeys(rows, DateKey);
    EntriesTotal(rows, DateKey);
    KeysCount(days, IsBefore);
    if rows != [] {
      assert DateKey(rows[0]) in KeysOf(entries);
    }
  }

  // ----- salaries -----

  /** Salaries are whole cents; the average keeps two decimals, so it is in cents too. */
  function Salaire(e: Employe): int {
    e.salaire
  }

  /** `employeRepository.findByDepartementId(departement.getId())`. */
  function MembersOf(db: Db, d: Departement): (r: seq<Employe>)
    ensures forall e :: e in r <==> d.id.Some? && e in db.employes.Values && e.departementId == d.id
  {
    if d.id.Some? then FindByDepartementId(db.employes, d.id.value) else []
  }

  /** `total.divide(n, 2, HALF_UP)` when there are employees, otherwise zero. */
  function AverageSalary(total: int, n: nat): (r: int)
    ensures n == 0 ==> r == 0
    ensures n > 0 && total >= 0 ==> 2 * total - n < 2 * n * r <= 2 * total + n
    ensures n > 0 && total < 0 ==> 2 * total - n <= 2 * n * r < 2 * total + n
  {
    if n > 0 then HalfUpDiv(total, n) else 0
  }

  datatype DepartementSalarySummary = DepartementSalarySummary(
    departementId: Option<nat>,
    departementNom: string,
    totalSalaries: int,
    numberOfEmployees: nat,
    averageSalary: int)

  /** The summary line of a department with the given members. */
  function Summarize(d: Departement, members: seq<Employe>): DepartementSalarySummary {
    var total := Sum(members, Salaire);
    DepartementSalarySummary(d.id, d.nom, total, |members|, AverageSalary(total, |members|))
  }

  /**
   * A summary line names its department and counts its members; with none,
   * total and average are zero; otherwise the average lies between the
   * lowest and the highest salary.
   */
  lemma SummarizeSpec(d: Departement, members: seq<Employe>)
    ensures Summarize(d, members).departementId == d.id && Summarize(d, members).departementNom == d.nom
    ensures Summarize(d, members).numberOfEmployees == |members|
    ensures members == [] ==> Summarize(d, members).totalSalaries == 0 && Summarize(d, members).averageSalary == 0
    ensures members != [] ==>
              MinOr(members, Salaire, 0) <= Summarize(d, members).averageSalary <= MaxOr(members, Salaire, 0)
  {
    AverageWithinSalaries(members);
  }

  /** The rounded average salary lies between the lowest and the highest salary. */
  lemma AverageWithinSalaries(members: seq<Employe>)
    ensures members != [] ==>
              MinOr(members, Salaire, 0) <= AverageSalary(Sum(members, Salaire), |members|) <= MaxOr(members, Salaire, 0)
  {
    if members != [] {
      var lo := MinOr(members, Salaire, 0);
      var hi := MaxOr(members, Salaire, 0);
      var total := Sum(members, Salaire);
      SumBetween(members, Salaire, lo, hi);
      MeanWithinBounds(total, |members|, lo, hi, AverageSalary(total, |members|));
    }
  }

  /** Every value between `lo` and `hi` puts the sum between `|s| * lo` and `|s| * hi`. */
  lemma {:induction false} SumBetween<T>(s: seq<T>, value: T -> int, lo: int, hi: int)
    requires forall i :: 0 <= i < |s| ==> lo <= value(s[i]) <= hi
    ensures |s| * lo <= Sum(s, value) <= |s| * hi
  {
    if s != [] {
      assert forall i :: 0 <= i < |s| - 1 ==> s[1..][i] == s[i + 1];
      SumBetween(s[1..], value, lo, hi);
      assert |s| * lo == lo + (|s| - 1) * lo;
      assert |s| * hi == hi + (|s| - 1) * hi;
    }
  }

  /** A mean rounded to the nearest whole stays within the whole bounds of the values. */
  lemma MeanWithinBounds(total: int, n: int, lo: int, hi: int, r: int)
    requires n > 0
    requires n * lo <= total <= n * hi
    requires 2 * total - n <= 2 * n * r <= 2 * total + n
    requires 2 * n * r != 2 * total - n || 2 * n * r != 2 * total + n
    ensures lo <= r <= hi
  {
    if r < lo {
      LeftMul(n, lo - r);
    }
    if r > hi {
      LeftMul(n, r - hi);
    }
  }

  /** One department's line of `getResumeSalairesByDepartement()`. */
  function SummaryOf(db: Db, d: Departement): DepartementSalarySummary {
    Summarize(d, MembersOf(db, d))
  }

  function SummaryFor(db: Db): Departement -> DepartementSalarySummary {
    (d: Departement) => SummaryOf(db, d)
  }

  function NomOf(s: DepartementSalarySummary): string {
    s.departementNom
  }

  /**
   * `getResumeSalairesByDepartement()`: the summaries of all departments,
   * empty ones included, rearranged into department-name order.
   */
  function GetResumeSalairesByDepartement(db: Db): (r: seq<DepartementSalarySummary>)
    ensures |r| == |db.departements|
    ensures forall k :: k in db.departements ==> SummaryOf(db, db.departements[k]) in r
    ensures multiset(r) == multiset(Mapped(FindAll(db.departements), SummaryFor(db)))
    ensures SortedBy(r, NomOf, StringLess)
  {
    var all := Mapped(FindAll(db.departements), SummaryFor(db));
    StringLessIsStrictTotal();
    SortBySorted(all, NomOf, StringLess);
    SortByMembership(all, NomOf, StringLess);
    MappedMembership(FindAll(db.departements), SummaryFor(db));
    SortBy(all, NomOf, StringLess)
  }

  datatype SalaryStats = SalaryStats(totalSalary: int, averageSalary: int, maxSalary: int, minSalary: int)

  /** The four statistics of a department with the given members. */
  function Stats(members: seq<Employe>): SalaryStats {
    var total := Sum(members, Salaire);
    SalaryStats(total, AverageSalary(total, |members|), MaxOr(members, Salaire, 0), MinOr(members, Salaire, 0))
  }

  /**
   * Total and average agree with the department's summary line; max and min
   * are salaries of members bounding every other; the average lies between
   * them; no members gives zeros throughout.
   */
  lemma StatsSpec(d: Departement, members: seq<Employe>)
    ensures Stats(members).totalSalary == Summarize(d, members).totalSalaries
    ensures Stats(members).averageSalary == Summarize(d, members).averageSalary
    ensures members == [] ==> Stats(members) == SalaryStats(0, 0, 0, 0)
    ensures members != [] ==>
              && (exists e :: e in members && Stats(members).maxSalary == e.salaire)
              && (exists e :: e in members && Stats(members).minSalary == e.salaire)
              && (forall e :: e in members ==> Stats(members).minSalary <= e.salaire <= Stats(members).maxSalary)
              && Stats(members).minSalary <= Stats(members).averageSalary <= Stats(members).maxSalary
  {
    var st := Stats(members);
    AverageWithinSalaries(members);
    if members != [] {
      var i :| 0 <= i < |members| && st.maxSalary == Salaire(members[i]);
      var j :| 0 <= j < |members| && st.minSalary == Salaire(members[j]);
      assert members[i] in members && members[j] in members;
      forall e | e in members ensures st.minSalary <= e.salaire <= st.maxSalary {
        var k :| 0 <= k < |members| && members[k] == e;
      }
    }
  }

  /** One department's value in `getResumeSalairesParDepartement()`. */
  function StatsOf(db: Db, d: Departement): SalaryStats {
    Stats(MembersOf(db, d))
  }

  function StatsEntryFor(db: Db): Departement -> (string, SalaryStats) {
    (d: Departement) => (d.nom, StatsOf(db, d))
  }

  function NomOfDepartement(d: Departement): string {
    d.nom
  }

  /** Every department name occurs among the (name, stats) entries, and nothing else. */
  lemma EntryNames(db: Db)
    ensures KeysOf(Mapped(FindAll(db.departements), StatsEntryFor(db))) == set d | d in db.departements.Values :: d.nom
  {
    var ds := FindAll(db.departements);
    KeysOfBuilt(ds, Mapped(ds, StatsEntryFor(db)), NomOfDepartement);
  }

  /**
   * `getResumeSalairesParDepartement()`: a map from every department name to
   * the stats of a department bearing it.
   */
  function GetResumeSalairesParDepartement(db: Db): (m: map<string, SalaryStats>)
    ensures m.Keys == set d | d in db.departements.Values :: d.nom
  {
    EntryNames(db);
    ToMapFirstWins(Mapped(FindAll(db.departements), StatsEntryFor(db)))
  }

  /** No department before position `i` of `ds` bears the name of the one at `i`. */
  ghost predicate FirstOfItsName(ds: seq<Departement>, i: nat)
    requires i < |ds|
  {
    forall j :: 0 <= j < i ==> ds[j].nom != ds[i].nom
  }

  /** On a shared name the first department in `findAll()` order wins (`(e1, e2) -> e1`). */
  lemma ParDepartementFirstWins(db: Db, i: nat)
    requires i < |FindAll(db.departements)| && FirstOfItsName(FindAll(db.departements), i)
    ensures GetResumeSalairesParDepartement(db)[FindAll(db.departements)[i].nom] == StatsOf(db, FindAll(db.departements)[i])
  {
    var ds := FindAll(db.departements);
    FirstBuiltWins(ds, Mapped(ds, StatsEntryFor(db)), NomOfDepartement, i);
  }

  /** With department names unique, as the store keeps them, every department's own stats are listed. */
  lemma ParDepartementOfWellFormed(db: Db)
    requires DepartementsValid(db)
    ensures forall d :: d in db.departements.Values ==> GetResumeSalairesParDepartement(db)[d.nom] == StatsOf(db, d)
  {
    var ds := FindAll(db.departements);
    forall d | d in db.departements.Values ensures GetResumeSalairesParDepartement(db)[d.nom] == StatsOf(db, d) {
      var i := FirstIndex(ds, d);
      forall j | 0 <= j < i ensures ds[j].nom != ds[i].nom {
        assert ds[j] in db.departements.Values;
        var a :| a in db.departements && db.departements[a] == ds[j];
        var b :| b in db.departements && db.departements[b] == d;
      }
      ParDepartementFirstWins(db, i);
    }
  }
}
