/**
 * DepartementService: creating, updating and deleting departments, each in
 * one transaction that leaves the tables as they were when a rule fails, and
 * the read queries on a department.
 */
module DepartementService {
  import opened Common
  import opened Entities
  import opened Database
  import DepartementMapper
  import EmployeMapper

  /**
   * `createDepartement`: the name must be free and a given manager must be
   * an employee (of any department, or of none); the new department then gets
   * the next id.
   */
  function CreateDepartementStep(db: Db, req: DepartementRequest): (st: Step<Departement>)
    ensures st.result == Err(BadRequest(DuplicateName)) <==> ExistsByNom(db.departements, req.nom)
    ensures st.result == Err(NotFound(ManagerEntity)) <==>
              !ExistsByNom(db.departements, req.nom) && req.managerId.Some? && req.managerId.value !in db.employes
    ensures st.result.Ok? <==>
              !ExistsByNom(db.departements, req.nom) && (req.managerId.Some? ==> req.managerId.value in db.employes)
    ensures st.result.Err? ==> st.db == db
    ensures st.result.Ok? ==>
              && st.result.value == Departement(Some(db.nextDepartementId), req.nom, req.managerId, req.budget)
              && st.db == db.(departements := db.departements[db.nextDepartementId := st.result.value],
                              nextDepartementId := db.nextDepartementId + 1)
  {
    if ExistsByNom(db.departements, req.nom) then Step(Err(BadRequest(DuplicateName)), db)
    else if req.managerId.Some? && req.managerId.value !in db.employes then Step(Err(NotFound(ManagerEntity)), db)
    else
      var saved := DepartementMapper.ToEntity(req).(id := Some(db.nextDepartementId));
      Step(Ok(saved), db.(departements := db.departements[db.nextDepartementId := saved],
                          nextDepartementId := db.nextDepartementId + 1))
  }

  /** The name is changed to one another department already has. */
  predicate NameTaken(db: Db, id: nat, nom: string)
    requires id in db.departements
  {
    db.departements[id].nom != nom && ExistsByNom(db.departements, nom)
  }

  /** The employee works in the department: it has one, and it is this one. */
  predicate BelongsTo(manager: Employe, departement: Departement) {
    manager.departementId.Some? && manager.departementId == departement.id
  }

  /**
   * `updateDepartement`: the department must exist, a changed name must be
   * free, and a given manager must exist and belong to this department; then
   * name, budget and manager (cleared when none is given) are overwritten.
   */
  function UpdateDepartementStep(db: Db, id: nat, req: DepartementRequest): (st: Step<Departement>)
    ensures st.result == Err(NotFound(DepartementEntity)) <==> id !in db.departements
    ensures st.result == Err(BadRequest(DuplicateName)) <==> id in db.departements && NameTaken(db, id, req.nom)
    ensures st.result == Err(NotFound(ManagerEntity)) <==>
              && id in db.departements && !NameTaken(db, id, req.nom)
              && req.managerId.Some? && req.managerId.value !in db.employes
    ensures st.result == Err(BadRequest(ManagerOutsideDepartement)) <==>
              && id in db.departements && !NameTaken(db, id, req.nom)
              && req.managerId.Some? && req.managerId.value in db.employes
              && !BelongsTo(db.employes[req.managerId.value], db.departements[id])
    ensures st.result.Ok? <==>
              && id in db.departements && !NameTaken(db, id, req.nom)
              && (req.managerId.Some? ==>
                    req.managerId.value in db.employes && BelongsTo(db.employes[req.managerId.value], db.departements[id]))
    ensures st.result.Err? ==> st.db == db
    ensures st.result.Ok? ==>
              && st.result.value == db.departements[id].(nom := req.nom, budget := req.budget, managerId := req.managerId)
              && st.db == db.(departements := db.departements[id := st.result.value])
  {
    if id !in db.departements then Step(Err(NotFound(DepartementEntity)), db)
    else if NameTaken(db, id, req.nom) then Step(Err(BadRequest(DuplicateName)), db)
    else
      var existing := db.departements[id];
      if req.managerId.Some? && req.managerId.value !in db.employes then Step(Err(NotFound(ManagerEntity)), db)
      else if req.managerId.Some? && !BelongsTo(db.employes[req.managerId.value], existing) then
        Step(Err(BadRequest(ManagerOutsideDepartement)), db)
      else
        var updated := existing.(nom := req.nom, budget := req.budget, managerId := req.managerId);
        Step(Ok(updated), db.(departements := db.departements[id := updated]))
  }

  /**
   * `deleteDepartement`: the department must exist and no employee may
   * reference it; then exactly that department is removed.
   */
  function DeleteDepartementStep(db: Db, id: nat): (st: Step<()>)
    ensures st.result == Err(NotFound(DepartementEntity)) <==> id !in db.departements
    ensures st.result == Err(BadRequest(HasEmployes)) <==>
              id in db.departements && ExistsByDepartementId(db.employes, id)
    ensures st.result.Ok? <==> id in db.departements && !ExistsByDepartementId(db.employes, id)
    ensures st.result.Err? ==> st.db == db
    ensures st.result.Ok? ==> st.db == db.(departements := db.departements - {id})
  {
    if id !in db.departements then Step(Err(NotFound(DepartementEntity)), db)
    else if ExistsByDepartementId(db.employes, id) then Step(Err(BadRequest(HasEmployes)), db)
    else Step(Ok(()), db.(departements := db.departements - {id}))
  }

  /** `getDepartementById`: the stored department, or not found. */
  function GetDepartementById(db: Db, id: nat): (r: Result<Departement>)
    ensures r.Ok? <==> id in db.departements
    ensures r.Ok? ==> r.value == db.departements[id]
    ensures r.Err? ==> r.error == NotFound(DepartementEntity)
  {
    if id in db.departements then Ok(db.departements[id]) else Err(NotFound(DepartementEntity))
  }

  /** `getAllDepartements`: every department, ascending id. */
  function GetAllDepartements(db: Db): (r: seq<Departement>)
    ensures |r| == |db.departements|
    ensures forall d :: d in r <==> d in db.departements.Values
  {
    FindAll(db.departements)
  }

  /** The DTOs of a list of employees, in the same order. */
  function ToDtos(employes: seq<Employe>): (r: seq<EmployeDto>)
    ensures |r| == |employes|
    ensures forall i :: 0 <= i < |r| ==> r[i] == EmployeMapper.ToDto(employes[i])
    ensures forall e :: e in employes ==> EmployeMapper.ToDto(e) in r
  {
    if employes == [] then []
    else
      var rest := ToDtos(employes[1..]);
      assert forall e :: e in employes ==> e == employes[0] || e in employes[1..];
      [EmployeMapper.ToDto(employes[0])] + rest
  }

  /**
   * `getEmployesByDepartementId`: not found for an unknown department,
   * otherwise the DTOs of exactly the employees that reference it, one each.
   */
  function GetEmployesByDepartementId(db: Db, departementId: nat): (r: Result<seq<EmployeDto>>)
    ensures r.Err? <==> departementId !in db.departements
    ensures r.Err? ==> r.error == NotFound(DepartementEntity)
    ensures r.Ok? ==> |r.value| == |EmployeIdsOf(db.employes, departementId)|
    ensures r.Ok? ==> forall e :: e in db.employes.Values && e.departementId == Some(departementId) ==>
                                  EmployeMapper.ToDto(e) in r.value
    ensures r.Ok? ==> forall i :: 0 <= i < |r.value| ==> r.value[i].departementId == Some(departementId)
  {
    if departementId !in db.departements then Err(NotFound(DepartementEntity))
    else
      var employes := FindByDepartementId(db.employes, departementId);
      var dtos := ToDtos(employes);
      assert forall i :: 0 <= i < |dtos| ==> dtos[i].departementId == Some(departementId) by {
        forall i | 0 <= i < |dtos| ensures dtos[i].departementId == Some(departementId) {
          assert employes[i] in employes;
        }
      }
      Ok(dtos)
  }

  /** `getDepartementBudgetAnalysis`: the stored budget as it is, possibly none. */
  function GetDepartementBudgetAnalysis(db: Db, departementId: nat): (r: Result<Option<int>>)
    ensures r.Ok? <==> departementId in db.departements
    ensures r.Ok? ==> r.value == db.departements[departementId].budget
    ensures r.Err? ==> r.error == NotFound(DepartementEntity)
  {
    if departementId in db.departements then Ok(db.departements[departementId].budget)
    else Err(NotFound(DepartementEntity))
  }

  // ----- the operations keep the integrity rules -----

  lemma CreateDepartementKeepsWellFormed(db: Db, req: DepartementRequest)
    requires WellFormed(db)
    ensures WellFormed(CreateDepartementStep(db, req).db)
  {
    var st := CreateDepartementStep(db, req);
    if st.result.Ok? {
      PutDepartementKeepsWellFormed(db, db.nextDepartementId, st.result.value, db.nextDepartementId + 1, st.db);
    }
  }

  lemma UpdateDepartementKeepsWellFormed(db: Db, id: nat, req: DepartementRequest)
    requires WellFormed(db)
    ensures WellFormed(UpdateDepartementStep(db, id, req).db)
  {
    var st := UpdateDepartementStep(db, id, req);
    if st.result.Ok? {
      PutDepartementKeepsWellFormed(db, id, st.result.value, db.nextDepartementId, st.db);
    }
  }

  lemma DeleteDepartementKeepsWellFormed(db: Db, id: nat)
    requires WellFormed(db)
    ensures WellFormed(DeleteDepartementStep(db, id).db)
  {
    var st := DeleteDepartementStep(db, id);
    if st.result.Ok? {
      RemoveDepartementKeepsWellFormed(db, id, st.db);
    }
  }

  /** After an update that names a manager, that manager works in the department. */
  lemma UpdatedManagerBelongs(db: Db, id: nat, req: DepartementRequest)
    requires WellFormed(db)
    requires UpdateDepartementStep(db, id, req).result.Ok? && req.managerId.Some?
    ensures req.managerId.value in UpdateDepartementStep(db, id, req).db.employes
    ensures UpdateDepartementStep(db, id, req).db.employes[req.managerId.value].departementId == Some(id)
  {
  }

  /** Re-submitting a department's own name never fails on the name. */
  lemma SameNameNeverTaken(db: Db, id: nat, req: DepartementRequest)
    requires id in db.departements && req.nom == db.departements[id].nom
    ensures UpdateDepartementStep(db, id, req).result != Err(BadRequest(DuplicateName))
  {
  }

  /** A department created and then deleted before anyone joins it leaves the tables as they were, but for the id counter. */
  lemma CreateThenDelete(db: Db, req: DepartementRequest)
    requires WellFormed(db)
    requires CreateDepartementStep(db, req).result.Ok?
    ensures DeleteDepartementStep(CreateDepartementStep(db, req).db, db.nextDepartementId)
         == Step(Ok(()), db.(nextDepartementId := db.nextDepartementId + 1))
  {
    var db' := CreateDepartementStep(db, req).db;
    var k := db.nextDepartementId;
    assert !ExistsByDepartementId(db'.employes, k) by {
      forall j | j in db'.employes ensures db'.employes[j].departementId != Some(k) {
        assert db.employes[j].departementId.value in db.departements;
      }
    }
    assert k !in db.departements;
    assert db'.departements - {k} == db.departements;
  }

  // ----- the transactional methods on the repositories -----

  method CreateDepartement(s: Store, req: DepartementRequest) returns (r: Result<Departement>)
    requires s.Valid()
    modifies s
    ensures s.Valid()
    ensures Step(r, s.State()) == CreateDepartementStep(old(s.State()), req)
  {
    if ExistsByNom(s.departements, req.nom) {
      return Err(BadRequest(DuplicateName));
    }
    var departement := DepartementMapper.ToEntity(req);
    if req.managerId.Some? && req.managerId.value !in s.employes {
      return Err(NotFound(ManagerEntity));
    }
    ghost var db := s.State();
    var saved := s.InsertDepartement(departement);
    r := Ok(saved);
    assert s.State() == CreateDepartementStep(db, req).db;
    PutDepartementKeepsWellFormed(db, db.nextDepartementId, saved, db.nextDepartementId + 1, s.State());
  }

  method UpdateDepartement(s: Store, id: nat, req: DepartementRequest) returns (r: Result<Departement>)
    requires s.Valid()
    modifies s
    ensures s.Valid()
    ensures Step(r, s.State()) == UpdateDepartementStep(old(s.State()), id, req)
  {
    if id !in s.departements {
      return Err(NotFound(DepartementEntity));
    }
    var existing := s.departements[id];
    if existing.nom != req.nom && ExistsByNom(s.departements, req.nom) {
      return Err(BadRequest(DuplicateName));
    }
    var updated := existing.(nom := req.nom, budget := req.budget);
    if req.managerId.Some? {
      if req.managerId.value !in s.employes {
        return Err(NotFound(ManagerEntity));
      }
      var manager := s.employes[req.managerId.value];
      if manager.departementId.None? || manager.departementId != existing.id {
        return Err(BadRequest(ManagerOutsideDepartement));
      }
      updated := updated.(managerId := req.managerId);
    } else {
      updated := updated.(managerId := None);
    }
    ghost var db := s.State();
    s.PutDepartement(id, updated);
    r := Ok(updated);
    PutDepartementKeepsWellFormed(db, id, updated, db.nextDepartementId, s.State());
  }

  method DeleteDepartement(s: Store, id: nat) returns (r: Result<()>)
    requires s.Valid()
    modifies s
    ensures s.Valid()
    ensures Step(r, s.State()) == DeleteDepartementStep(old(s.State()), id)
  {
    if id !in s.departements {
      return Err(NotFound(DepartementEntity));
    }
    if ExistsByDepartementId(s.employes, id) {
      return Err(BadRequest(HasEmployes));
    }
    ghost var db := s.State();
    s.RemoveDepartement(id);
    r := Ok(());
    RemoveDepartementKeepsWellFormed(db, id, s.State());
  }
}
