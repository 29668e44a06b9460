/**
 * PresenceService: clocking in and out, and the two attendance queries.
 *
 * For one employee and one date the attendance goes from no row (Absent) to
 * an open row (Open, arrival only) to a closed row (Closed, departure set);
 * clocking in succeeds only from Absent, clocking out only from Open.
 */
module PresenceService {
  import opened Common
  import opened Calendar
  import opened Lists
  import opened Entities
  import opened PresenceModel
  import opened Database

  datatype Attendance = Absent | Open | Closed

  /** The attendance of an employee on a date, as `findByEmployeIdAndDate` and the row's departure tell it. */
  function AttendanceOf(presences: map<nat, PresenceRecord>, employeId: nat, date: LocalDate): (a: Attendance)
    ensures a == Absent <==>
              !exists k :: k in presences && presences[k].employeId == Some(employeId) && presences[k].date == date
  {
    match FindByEmployeIdAndDate(presences, employeId, date)
    case None => Absent
    case Some(k) => if presences[k].depart.None? then Open else Closed
  }

  /** With one row per day, the attendance of a row's employee on its date is that row's state. */
  lemma AttendanceOfRow(presences: map<nat, PresenceRecord>, k: nat)
    requires OnePresencePerDay(presences)
    requires k in presences && presences[k].employeId.Some?
    ensures AttendanceOf(presences, presences[k].employeId.value, presences[k].date)
         == (if presences[k].depart.None? then Open else Closed)
  {
    var found := FindByEmployeIdAndDate(presences, presences[k].employeId.value, presences[k].date);
    assert found.Some?;
    assert presences[found.value].date == presences[k].date;
  }

  /**
   * `pointageArrivee`: the employee must exist and have no row for the date,
   * open or closed; the new row then holds the employee, the date and the
   * arrival, no departure and no worked minutes, under the next id.
   */
  function PointageArriveeStep(db: Db, req: PresenceArriveeRequest): (st: Step<PresenceRecord>)
    ensures st.result == Err(NotFound(EmployeEntity)) <==> req.employeId !in db.employes
    ensures st.result == Err(BadRequest(AlreadyClockedIn)) <==>
              req.employeId in db.employes && AttendanceOf(db.presences, req.employeId, req.date) == Open
    ensures st.result == Err(BadRequest(AlreadyCompleted)) <==>
              req.employeId in db.employes && AttendanceOf(db.presences, req.employeId, req.date) == Closed
    ensures st.result.Ok? <==>
              req.employeId in db.employes && AttendanceOf(db.presences, req.employeId, req.date) == Absent
    ensures st.result.Err? ==> st.db == db
    ensures st.result.Ok? ==>
              && st.result.value == PresenceRecord(Some(db.nextPresenceId), Some(req.employeId), req.date,
                                                   Some(req.arrivee), None, None)
              && st.db == db.(presences := db.presences[db.nextPresenceId := st.result.value],
                              nextPresenceId := db.nextPresenceId + 1)
  {
    if req.employeId !in db.employes then Step(Err(NotFound(EmployeEntity)), db)
    else
      match AttendanceOf(db.presences, req.employeId, req.date)
      case Open => Step(Err(BadRequest(AlreadyClockedIn)), db)
      case Closed => Step(Err(BadRequest(AlreadyCompleted)), db)
      case Absent =>
        var saved := PresenceRecord(Some(db.nextPresenceId), Some(req.employeId), req.date, Some(req.arrivee), None, None);
        Step(Ok(saved), db.(presences := db.presences[db.nextPresenceId := saved], nextPresenceId := db.nextPresenceId + 1))
  }

  /** The source compares the departure with the row's arrival, so a row still open must have one. */
  predicate ArriveeKnown(db: Db, presenceId: nat) {
    presenceId in db.presences && db.presences[presenceId].depart.None? ==> db.presences[presenceId].arrivee.Some?
  }

  /**
   * `pointageDepart`: the row must exist, be open, and the departure must
   * not be before the arrival; the row then gets the departure and the
   * whole minutes between arrival and departure, and nothing else changes.
   */
  function PointageDepartStep(db: Db, req: PresenceDepartRequest): (st: Step<PresenceRecord>)
    requires ArriveeKnown(db, req.presenceId)
    ensures st.result == Err(NotFound(PresenceEntity)) <==> req.presenceId !in db.presences
    ensures st.result == Err(BadRequest(AlreadyClockedOut)) <==>
              req.presenceId in db.presences && db.presences[req.presenceId].depart.Some?
    ensures st.result == Err(BadRequest(DepartBeforeArrivee)) <==>
              && req.presenceId in db.presences && db.presences[req.presenceId].depart.None?
              && req.depart < db.presences[req.presenceId].arrivee.value
    ensures st.result.Ok? <==>
              && req.presenceId in db.presences && db.presences[req.presenceId].depart.None?
              && db.presences[req.presenceId].arrivee.value <= req.depart
    ensures st.result.Err? ==> st.db == db
    ensures st.result.Ok? ==>
              && st.result.value == db.presences[req.presenceId].(depart := Some(req.depart),
                                      heuresTravaillees := WorkedMinutes(db.presences[req.presenceId].arrivee, Some(req.depart)))
              && st.db == db.(presences := db.presences[req.presenceId := st.result.value])
    ensures st.result.Ok? ==>
              && st.result.value.heuresTravaillees.Some?
              && 0 <= st.result.value.heuresTravaillees.value
              && 60 * st.result.value.heuresTravaillees.value
                   <= req.depart - db.presences[req.presenceId].arrivee.value
                   < 60 * st.result.value.heuresTravaillees.value + 60
  {
    if req.presenceId !in db.presences then Step(Err(NotFound(PresenceEntity)), db)
    else
      var presence := db.presences[req.presenceId];
      if presence.depart.Some? then Step(Err(BadRequest(AlreadyClockedOut)), db)
      else if req.depart < presence.arrivee.value then Step(Err(BadRequest(DepartBeforeArrivee)), db)
      else
        var closed := presence.(depart := Some(req.depart), heuresTravaillees := WorkedMinutes(presence.arrivee, Some(req.depart)));
        Step(Ok(closed), db.(presences := db.presences[req.presenceId := closed]))
  }

  // ----- the attendance state machine -----

  /** A successful clock-in leaves the employee's attendance for that date Open. */
  lemma ArriveeOpens(db: Db, req: PresenceArriveeRequest)
    requires PointageArriveeStep(db, req).result.Ok?
    ensures AttendanceOf(PointageArriveeStep(db, req).db.presences, req.employeId, req.date) == Open
  {
    var m := PointageArriveeStep(db, req).db.presences;
    var k := db.nextPresenceId;
    var found := FindByEmployeIdAndDate(m, req.employeId, req.date);
    assert m[k].employeId == Some(req.employeId) && m[k].date == req.date;
    assert found.Some? && found.value == k;
  }

  /** A successful clock-in changes no other employee's or date's attendance. */
  lemma ArriveeKeepsOthers(db: Db, req: PresenceArriveeRequest, employeId: nat, date: LocalDate)
    requires db.nextPresenceId !in db.presences
    requires PointageArriveeStep(db, req).result.Ok?
    requires employeId != req.employeId || date != req.date
    ensures AttendanceOf(PointageArriveeStep(db, req).db.presences, employeId, date)
         == AttendanceOf(db.presences, employeId, date)
  {
    var m := PointageArriveeStep(db, req).db.presences;
    var k := db.nextPresenceId;
    var before := set j: nat | j in db.presences && db.presences[j].employeId == Some(employeId) && db.presences[j].date == date;
    var after := set j: nat | j in m && m[j].employeId == Some(employeId) && m[j].date == date;
    assert before == after;
  }

  /** A successful clock-out finds the row Open and leaves it Closed. */
  lemma DepartCloses(db: Db, req: PresenceDepartRequest)
    requires WellFormed(db) && ArriveeKnown(db, req.presenceId)
    requires PointageDepartStep(db, req).result.Ok?
    ensures var row := db.presences[req.presenceId];
            && row.employeId.Some?
            && AttendanceOf(db.presences, row.employeId.value, row.date) == Open
            && AttendanceOf(PointageDepartStep(db, req).db.presences, row.employeId.value, row.date) == Closed
  {
    var k := req.presenceId;
    var m := PointageDepartStep(db, req).db.presences;
    assert PresenceValid(db, k);
    AttendanceOfRow(db.presences, k);
    PutKeepsOnePerDay(db.presences, k, m[k]);
    AttendanceOfRow(m, k);
  }

  /** 09:00 to 17:00 on an open row gives 480 worked minutes. */
  lemma DepartExample(db: Db, req: PresenceDepartRequest)
    requires req.presenceId in db.presences
    requires db.presences[req.presenceId].arrivee == Some(9 * 3600) && db.presences[req.presenceId].depart.None?
    requires req.depart == 17 * 3600
    ensures PointageDepartStep(db, req).result.Ok?
    ensures PointageDepartStep(db, req).result.value.heuresTravaillees == Some(480)
  {
    WorkedMinutesExamples();
  }

  // ----- the operations keep the integrity rules -----

  lemma PointageArriveeKeepsWellFormed(db: Db, req: PresenceArriveeRequest)
    requires WellFormed(db)
    ensures WellFormed(PointageArriveeStep(db, req).db)
  {
    var st := PointageArriveeStep(db, req);
    if st.result.Ok? {
      AddPresenceKeepsWellFormed(db, st.result.value, st.db);
    }
  }

  lemma PointageDepartKeepsWellFormed(db: Db, req: PresenceDepartRequest)
    requires WellFormed(db)
    ensures ArriveeKnown(db, req.presenceId)
    ensures WellFormed(PointageDepartStep(db, req).db)
  {
    var st := PointageDepartStep(db, req);
    if st.result.Ok? {
      ClosePresenceKeepsWellFormed(db, req.presenceId, req.depart, st.db);
    }
  }

  // ----- the queries -----

  /** The rows dated between `start` and `end`, both included. */
  function Between(start: LocalDate, end: LocalDate): PresenceRecord -> bool {
    (p: PresenceRecord) => !IsBefore(p.date, start) && !IsBefore(end, p.date)
  }

  /** The rows dated in the given month of the given year. */
  function InMonth(year: int, month: int): PresenceRecord -> bool {
    (p: PresenceRecord) => p.date.year == year && p.date.month == month
  }

  /**
   * `getMonthlyPresenceReport`: not found for an unknown employee, an
   * invalid date when the month cannot be built, otherwise the employee's
   * rows from the first to the last day of the month, by date.
   */
  function GetMonthlyPresenceReport(db: Db, employeId: nat, year: int, month: int): (r: Result<seq<PresenceRecord>>)
    ensures r == Err(NotFound(EmployeEntity)) <==> employeId !in db.employes
    ensures r == Err(InvalidDate) <==>
              employeId in db.employes && !(MIN_YEAR <= year <= MAX_YEAR && 1 <= month <= 12 && !(year == MAX_YEAR && month == 12))
    ensures r.Ok? ==> forall p :: p in r.value <==>
              p in db.presences.Values && p.employeId == Some(employeId) && p.date.year == year && p.date.month == month
    ensures r.Ok? ==> SortedBy(r.value, DateOf, IsBefore)
  {
    if employeId !in db.employes then Err(NotFound(EmployeEntity))
    else
      match FirstOfMonth(year, month)
      case Err(e) => Err(e)
      case Ok(start) =>
        match EndOfMonth(start)
        case Err(e) => Err(e)
        case Ok(end) =>
          var all := FindByEmployeIdOrderByDateAsc(db.presences, employeId);
          var r := Filter(all, Between(start, end));
          FindByEmployeIdOrderByDateAscSorted(db.presences, employeId);
          FilterSorted(all, Between(start, end), DateOf, IsBefore);
          forall p ensures Between(start, end)(p) == InMonth(year, month)(p) {
            InMonthIff(p.date, start, end);
          }
          Ok(r)
  }

  /** The report keeps exactly the rows of that year and month, in the order of the date-sorted list. */
  lemma MonthlyReportIsSameMonthFilter(db: Db, employeId: nat, year: int, month: int)
    requires GetMonthlyPresenceReport(db, employeId, year, month).Ok?
    ensures GetMonthlyPresenceReport(db, employeId, year, month).value
         == Filter(FindByEmployeIdOrderByDateAsc(db.presences, employeId), InMonth(year, month))
  {
    var start := FirstOfMonth(year, month).value;
    var end := EndOfMonth(start).value;
    var all := FindByEmployeIdOrderByDateAsc(db.presences, employeId);
    forall i | 0 <= i < |all| ensures Between(start, end)(all[i]) == InMonth(year, month)(all[i]) {
      InMonthIff(all[i].date, start, end);
    }
    FilterEquivalent(all, Between(start, end), InMonth(year, month));
  }

  /** The date-sorted rows of one employee; none for an employee without id. */
  function RowsOfEmploye(presences: map<nat, PresenceRecord>): Employe -> seq<PresenceRecord> {
    (e: Employe) => if e.id.Some? then FindByEmployeIdOrderByDateAsc(presences, e.id.value) else []
  }

  /**
   * `getDepartementPresenceSummary`: not found for an unknown department,
   * otherwise each member's date-sorted rows, member after member in id order.
   */
  function GetDepartementPresenceSummary(db: Db, departementId: nat): (r: Result<seq<PresenceRecord>>)
    ensures r.Err? <==> departementId !in db.departements
    ensures r.Err? ==> r.error == NotFound(DepartementEntity)
    ensures r.Ok? ==> |r.value| == SumOfLengths(FindByDepartementId(db.employes, departementId), RowsOfEmploye(db.presences))
  {
    if departementId !in db.departements then Err(NotFound(DepartementEntity))
    else
      var members := FindByDepartementId(db.employes, departementId);
      FlatMapLength(members, RowsOfEmploye(db.presences));
      Ok(FlatMap(members, RowsOfEmploye(db.presences)))
  }

  /** In a sound database the summary holds exactly the rows of the department's employees. */
  lemma SummaryMembership(db: Db, departementId: nat, p: PresenceRecord)
    requires WellFormed(db)
    requires departementId in db.departements
    ensures p in GetDepartementPresenceSummary(db, departementId).value <==>
              && p in db.presences.Values && p.employeId.Some? && p.employeId.value in db.employes
              && db.employes[p.employeId.value].departementId == Some(departementId)
  {
    var members := FindByDepartementId(db.employes, departementId);
    var f := RowsOfEmploye(db.presences);
    FlatMapMembership(members, f, p);
    if p in db.presences.Values && p.employeId.Some? && p.employeId.value in db.employes
       && db.employes[p.employeId.value].departementId == Some(departementId) {
      var e := db.employes[p.employeId.value];
      assert e in db.employes.Values;
      assert e in members && p in f(e);
    }
    if exists e :: e in members && p in f(e) {
      var e :| e in members && p in f(e);
      assert e in db.employes.Values;
      var k :| k in db.employes && db.employes[k] == e;
      assert e.id == Some(k);
    }
  }

  // ----- the transactional methods -----

  /**
   * `pointageArrivee(request)`: rejects an unknown employee and a second
   * clock-in on the same date, otherwise saves a new open row; the outcome
   * and the new tables are those of `PointageArriveeStep`.
   */
  method PointageArrivee(s: Store, req: PresenceArriveeRequest) returns (r: Result<PresenceRecord>)
    requires s.Valid()
    modifies s
    ensures s.Valid()
    ensures Step(r, s.State()) == PointageArriveeStep(old(s.State()), req)
  {
    if req.employeId !in s.employes {
      return Err(NotFound(EmployeEntity));
    }
    var existing := FindByEmployeIdAndDate(s.presences, req.employeId, req.date);
    if existing.Some? {
      if s.presences[existing.value].depart.None? {
        return Err(BadRequest(AlreadyClockedIn));
      }
      return Err(BadRequest(AlreadyCompleted));
    }
    ghost var db := s.State();
    var presence := new Presence(Some(req.employeId), req.date, req.arrivee);
    s.InsertPresence(presence);
    r := Ok(presence.Record());
    ArriveeCommitted(db, req, s.State());
  }

  /** The tables after the insert are those of the specification, and they keep every integrity rule. */
  lemma ArriveeCommitted(db: Db, req: PresenceArriveeRequest, db': Db)
    requires WellFormed(db)
    requires req.employeId in db.employes && AttendanceOf(db.presences, req.employeId, req.date) == Absent
    requires db' == db.(presences := db.presences[db.nextPresenceId :=
                          PresenceRecord(Some(db.nextPresenceId), Some(req.employeId), req.date, Some(req.arrivee), None, None)],
                        nextPresenceId := db.nextPresenceId + 1)
    ensures WellFormed(db')
    ensures PointageArriveeStep(db, req) == Step(Ok(db'.presences[db.nextPresenceId]), db')
  {
    AddPresenceKeepsWellFormed(db, db'.presences[db.nextPresenceId], db');
  }

  /**
   * `pointageDepart(request)`: loads the row, rejects an unknown id, a row
   * already closed and a departure before the arrival, otherwise sets the
   * departure, recomputes the minutes and saves; the outcome and the new
   * tables are those of `PointageDepartStep`.
   */
  method PointageDepart(s: Store, req: PresenceDepartRequest) returns (r: Result<PresenceRecord>)
    requires s.Valid()
    modifies s
    ensures s.Valid()
    ensures Step(r, s.State()) == PointageDepartStep(old(s.State()), req)
  {
    if req.presenceId !in s.presences {
      return Err(NotFound(PresenceEntity));
    }
    var presence := s.LoadPresence(req.presenceId);
    if presence.depart.Some? {
      return Err(BadRequest(AlreadyClockedOut));
    }
    NoOpenRowWithoutArrivee(s.State(), req.presenceId);
    if req.depart < presence.arrivee.value {
      return Err(BadRequest(DepartBeforeArrivee));
    }
    ghost var db := s.State();
    presence.SetDepart(Some(req.depart));
    presence.CalculateHeuresTravaillees();
    s.SavePresence(req.presenceId, presence);
    r := Ok(presence.Record());
    DepartCommitted(db, req, s.State());
  }

  /** Every stored row has an arrival, so the comparison `pointageDepart` makes is defined. */
  lemma NoOpenRowWithoutArrivee(db: Db, k: nat)
    requires WellFormed(db) && k in db.presences
    ensures ArriveeKnown(db, k) && db.presences[k].arrivee.Some?
  {
  }

  /** The tables after the update are those of the specification, and they keep every integrity rule. */
  lemma DepartCommitted(db: Db, req: PresenceDepartRequest, db': Db)
    requires WellFormed(db) && req.presenceId in db.presences
    requires db.presences[req.presenceId].depart.None? && db.presences[req.presenceId].arrivee.Some?
    requires db.presences[req.presenceId].arrivee.value <= req.depart
    requires db' == db.(presences := db.presences[req.presenceId := db.presences[req.presenceId].(depart := Some(req.depart),
                          heuresTravaillees := WorkedMinutes(db.presences[req.presenceId].arrivee, Some(req.depart)))])
    ensures WellFormed(db')
    ensures PointageDepartStep(db, req) == Step(Ok(db'.presences[req.presenceId]), db')
  {
    ClosePresenceKeepsWellFormed(db, req.presenceId, req.depart, db');
  }
}
