/**
 * EmployeService: hiring, updating and deactivating employees, each in one
 * transaction. A rule that fails raises its exception before anything is
 * written, so a failed call leaves the tables as they were.
 */
module EmployeService {
  import opened Common
  import opened Text
  import opened Entities
  import opened Database
  import EmployeMapper

  /** The department has a budget and the salary does not exceed it. */
  predicate FitsBudget(salaire: int, budget: Option<int>) {
    budget.Some? && salaire <= budget.value
  }

  /**
   * `createEmploye`: the email must be free, the department must exist, the
   * salary must be positive and within the department's budget; the new
   * employee then gets the next id.
   */
  function CreateEmployeStep(db: Db, req: EmployeRequest): (st: Step<Employe>)
    ensures st.result == Err(BadRequest(DuplicateEmail)) <==> ExistsByEmail(db.employes, req.email)
    ensures st.result == Err(NotFound(DepartementEntity)) <==>
              !ExistsByEmail(db.employes, req.email) && req.departementId !in db.departements
    ensures st.result == Err(BadRequest(NonPositiveSalary)) <==>
              !ExistsByEmail(db.employes, req.email) && req.departementId in db.departements && req.salaire <= 0
    ensures st.result == Err(BadRequest(OverBudget)) <==>
              && !ExistsByEmail(db.employes, req.email) && req.departementId in db.departements && req.salaire > 0
              && !FitsBudget(req.salaire, db.departements[req.departementId].budget)
    ensures st.result.Ok? <==>
              && !ExistsByEmail(db.employes, req.email) && req.departementId in db.departements
              && req.salaire > 0 && FitsBudget(req.salaire, db.departements[req.departementId].budget)
    ensures st.result.Err? ==> st.db == db
    ensures st.result.Ok? ==>
              && st.result.value == Employe(Some(db.nextEmployeId), req.prenom, req.nom, req.email,
                                            db.departements[req.departementId].id, req.salaire, req.dateEmbauche, req.statut)
              && st.db == db.(employes := db.employes[db.nextEmployeId := st.result.value],
                              nextEmployeId := db.nextEmployeId + 1)
  {
    if ExistsByEmail(db.employes, req.email) then Step(Err(BadRequest(DuplicateEmail)), db)
    else if req.departementId !in db.departements then Step(Err(NotFound(DepartementEntity)), db)
    else
      var departement := db.departements[req.departementId];
      if req.salaire <= 0 then Step(Err(BadRequest(NonPositiveSalary)), db)
      else if !FitsBudget(req.salaire, departement.budget) then Step(Err(BadRequest(OverBudget)), db)
      else
        var saved := EmployeMapper.ToEntity(req, departement).(id := Some(db.nextEmployeId));
        Step(Ok(saved), db.(employes := db.employes[db.nextEmployeId := saved], nextEmployeId := db.nextEmployeId + 1))
  }

  /** The email is changed to one another employee already has. */
  predicate EmailTaken(db: Db, id: nat, email: string)
    requires id in db.employes
  {
    db.employes[id].email != email && ExistsByEmail(db.employes, email)
  }

  /**
   * `updateEmploye`: the employee must exist, a changed email must be free,
   * the new department must exist, the salary must be positive and within
   * its budget; then every field except the id is overwritten.
   */
  function UpdateEmployeStep(db: Db, id: nat, req: EmployeRequest): (st: Step<Employe>)
    ensures st.result == Err(NotFound(EmployeEntity)) <==> id !in db.employes
    ensures st.result == Err(BadRequest(DuplicateEmail)) <==> id in db.employes && EmailTaken(db, id, req.email)
    ensures st.result == Err(NotFound(DepartementEntity)) <==>
              id in db.employes && !EmailTaken(db, id, req.email) && req.departementId !in db.departements
    ensures st.result == Err(BadRequest(NonPositiveSalary)) <==>
              && id in db.employes && !EmailTaken(db, id, req.email) && req.departementId in db.departements
              && req.salaire <= 0
    ensures st.result == Err(BadRequest(OverBudget)) <==>
              && id in db.employes && !EmailTaken(db, id, req.email) && req.departementId in db.departements
              && req.salaire > 0 && !FitsBudget(req.salaire, db.departements[req.departementId].budget)
    ensures st.result.Ok? <==>
              && id in db.employes && !EmailTaken(db, id, req.email) && req.departementId in db.departements
              && req.salaire > 0 && FitsBudget(req.salaire, db.departements[req.departementId].budget)
    ensures st.result.Err? ==> st.db == db
    ensures st.result.Ok? ==>
              && st.result.value == Employe(db.employes[id].id, req.prenom, req.nom, req.email,
                                            db.departements[req.departementId].id, req.salaire, req.dateEmbauche, req.statut)
              && st.db == db.(employes := db.employes[id := st.result.value])
  {
    if id !in db.employes then Step(Err(NotFound(EmployeEntity)), db)
    else if EmailTaken(db, id, req.email) then Step(Err(BadRequest(DuplicateEmail)), db)
    else if req.departementId !in db.departements then Step(Err(NotFound(DepartementEntity)), db)
    else
      var departement := db.departements[req.departementId];
      if req.salaire <= 0 then Step(Err(BadRequest(NonPositiveSalary)), db)
      else if !FitsBudget(req.salaire, departement.budget) then Step(Err(BadRequest(OverBudget)), db)
      else
        var updated := db.employes[id].(prenom := req.prenom, nom := req.nom, email := req.email,
                                        departementId := departement.id, salaire := req.salaire,
                                        dateEmbauche := req.dateEmbauche, statut := req.statut);
        Step(Ok(updated), db.(employes := db.employes[id := updated]))
  }

  /** The status a deactivated employee gets. */
  const INACTIF := "INACTIF"

  /**
   * `deactivateEmploye`: the employee must exist and have no presence
   * record; then only its status changes, to "INACTIF".
   */
  function DeactivateEmployeStep(db: Db, id: nat): (st: Step<()>)
    ensures st.result == Err(NotFound(EmployeEntity)) <==> id !in db.employes
    ensures st.result == Err(BadRequest(HasPresences)) <==> id in db.employes && ExistsByEmployeId(db.presences, id)
    ensures st.result.Ok? <==> id in db.employes && !ExistsByEmployeId(db.presences, id)
    ensures st.result.Err? ==> st.db == db
    ensures st.result.Ok? ==> st.db == db.(employes := db.employes[id := db.employes[id].(statut := INACTIF)])
  {
    if id !in db.employes then Step(Err(NotFound(EmployeEntity)), db)
    else if ExistsByEmployeId(db.presences, id) then Step(Err(BadRequest(HasPresences)), db)
    else Step(Ok(()), db.(employes := db.employes[id := db.employes[id].(statut := INACTIF)]))
  }

  /** `getEmployeById`: the stored employee, or not found. */
  function GetEmployeById(db: Db, id: nat): (r: Result<Employe>)
    ensures r.Ok? <==> id in db.employes
    ensures r.Ok? ==> r.value == db.employes[id]
    ensures r.Err? ==> r.error == NotFound(EmployeEntity)
  {
    if id in db.employes then Ok(db.employes[id]) else Err(NotFound(EmployeEntity))
  }

  /** Which repository query `getAllEmployes` runs. */
  datatype EmployeQuery = AllEmployes | SearchNomOrEmail(term: string)

  /** A search term is used only when it is present and not blank once trimmed. */
  function GetAllEmployesQuery(searchTerm: Option<string>): (q: EmployeQuery)
    ensures q.SearchNomOrEmail? <==>
              searchTerm.Some? && exists i :: 0 <= i < |searchTerm.value| && !IsTrimmable(searchTerm.value[i])
    ensures q.SearchNomOrEmail? ==> q.term == searchTerm.value
  {
    if searchTerm.Some? then
      TrimEmptyIffBlank(searchTerm.value);
      if Trim(searchTerm.value) != [] then SearchNomOrEmail(searchTerm.value) else AllEmployes
    else AllEmployes
  }

  // ----- the operations keep the integrity rules -----

  lemma CreateEmployeKeepsWellFormed(db: Db, req: EmployeRequest)
    requires WellFormed(db)
    ensures WellFormed(CreateEmployeStep(db, req).db)
  {
    var st := CreateEmployeStep(db, req);
    if st.result.Ok? {
      PutEmployeKeepsWellFormed(db, db.nextEmployeId, st.result.value, db.nextEmployeId + 1, st.db);
    }
  }

  lemma UpdateEmployeKeepsWellFormed(db: Db, id: nat, req: EmployeRequest)
    requires WellFormed(db)
    ensures WellFormed(UpdateEmployeStep(db, id, req).db)
  {
    var st := UpdateEmployeStep(db, id, req);
    if st.result.Ok? {
      PutEmployeKeepsWellFormed(db, id, st.result.value, db.nextEmployeId, st.db);
    }
  }

  lemma DeactivateEmployeKeepsWellFormed(db: Db, id: nat)
    requires WellFormed(db)
    ensures WellFormed(DeactivateEmployeStep(db, id).db)
  {
    if DeactivateEmployeStep(db, id).result.Ok? {
      PutEmployeKeepsWellFormed(db, id, db.employes[id].(statut := INACTIF), db.nextEmployeId, DeactivateEmployeStep(db, id).db);
    }
  }

  /** Deactivating twice is deactivating once, when the first call succeeded. */
  lemma DeactivateIdempotent(db: Db, id: nat)
    requires DeactivateEmployeStep(db, id).result.Ok?
    ensures DeactivateEmployeStep(DeactivateEmployeStep(db, id).db, id) == Step(Ok(()), DeactivateEmployeStep(db, id).db)
  {
    var db' := DeactivateEmployeStep(db, id).db;
    assert db'.employes[id := db'.employes[id].(statut := INACTIF)] == db'.employes;
  }

  /** Updating an employee with its own current values and department changes nothing. */
  lemma UpdateWithSameValues(db: Db, id: nat, req: EmployeRequest)
    requires WellFormed(db) && id in db.employes
    requires db.employes[id].departementId == Some(req.departementId)
    requires req == EmployeRequest(db.employes[id].prenom, db.employes[id].nom, db.employes[id].email,
                                   req.departementId, db.employes[id].salaire, db.employes[id].dateEmbauche,
                                   db.employes[id].statut)
    requires req.salaire > 0 && FitsBudget(req.salaire, db.departements[req.departementId].budget)
    ensures UpdateEmployeStep(db, id, req) == Step(Ok(db.employes[id]), db)
  {
    assert db.employes[id := db.employes[id]] == db.employes;
  }

  // ----- the transactional methods on the repositories -----

  method CreateEmploye(s: Store, req: EmployeRequest) returns (r: Result<Employe>)
    requires s.Valid()
    modifies s
    ensures s.Valid()
    ensures Step(r, s.State()) == CreateEmployeStep(old(s.State()), req)
  {
    if ExistsByEmail(s.employes, req.email) {
      return Err(BadRequest(DuplicateEmail));
    }
    if req.departementId !in s.departements {
      return Err(NotFound(DepartementEntity));
    }
    var departement := s.departements[req.departementId];
    if req.salaire <= 0 {
      return Err(BadRequest(NonPositiveSalary));
    }
    if departement.budget.None? || req.salaire > departement.budget.value {
      return Err(BadRequest(OverBudget));
    }
    ghost var db := s.State();
    var employe := EmployeMapper.ToEntity(req, departement);
    var saved := s.InsertEmploye(employe);
    r := Ok(saved);
    PutEmployeKeepsWellFormed(db, db.nextEmployeId, saved, db.nextEmployeId + 1, s.State());
  }

  method UpdateEmploye(s: Store, id: nat, req: EmployeRequest) returns (r: Result<Employe>)
    requires s.Valid()
    modifies s
    ensures s.Valid()
    ensures Step(r, s.State()) == UpdateEmployeStep(old(s.State()), id, req)
  {
    if id !in s.employes {
      return Err(NotFound(EmployeEntity));
    }
    var existing := s.employes[id];
    if existing.email != req.email && ExistsByEmail(s.employes, req.email) {
      return Err(BadRequest(DuplicateEmail));
    }
    if req.departementId !in s.departements {
      return Err(NotFound(DepartementEntity));
    }
    var departement := s.departements[req.departementId];
    if req.salaire <= 0 {
      return Err(BadRequest(NonPositiveSalary));
    }
    if departement.budget.None? || req.salaire > departement.budget.value {
      return Err(BadRequest(OverBudget));
    }
    var updated := existing.(prenom := req.prenom, nom := req.nom, email := req.email,
                             departementId := departement.id, salaire := req.salaire,
                             dateEmbauche := req.dateEmbauche, statut := req.statut);
    ghost var db := s.State();
    s.PutEmploye(id, updated);
    r := Ok(updated);
    PutEmployeKeepsWellFormed(db, id, updated, db.nextEmployeId, s.State());
  }

  method DeactivateEmploye(s: Store, id: nat) returns (r: Result<()>)
    requires s.Valid()
    modifies s
    ensures s.Valid()
    ensures Step(r, s.State()) == DeactivateEmployeStep(old(s.State()), id)
  {
    if id !in s.employes {
      return Err(NotFound(EmployeEntity));
    }
    if ExistsByEmployeId(s.presences, id) {
      return Err(BadRequest(HasPresences));
    }
    ghost var db := s.State();
    var deactivated := s.employes[id].(statut := INACTIF);
    s.PutEmploye(id, deactivated);
    r := Ok(());
    PutEmployeKeepsWellFormed(db, id, deactivated, db.nextEmployeId, s.State());
  }
}
