/**
 * The three repositories as in-memory tables keyed by id, the derived queries
 * the services call, the integrity rules the database and the services keep
 * together, and the `Store` object the transactional operations update.
 *
 * Rows come back in ascending id order wherever a query does not sort them
 * itself. An entity loaded with `findById(k)` carries id `k`, so saving it
 * back writes key `k`; a new entity gets the next value of its table's
 * identity sequence.
 */
module Database {
  import opened Common
  import opened Orders
  import opened Calendar
  import opened Lists
  import opened Entities
  import opened PresenceModel

  /** A snapshot of the three tables and of their identity sequences. */
  datatype Db = Db(
    employes: map<nat, Employe>,
    departements: map<nat, Departement>,
    presences: map<nat, PresenceRecord>,
    nextEmployeId: nat,
    nextDepartementId: nat,
    nextPresenceId: nat)

  /** What a transactional service call returns, and the tables once it has committed or rolled back. */
  datatype Step<T> = Step(result: Result<T>, db: Db)

  predicate IsLeast(m: nat, s: set<nat>) {
    m in s && forall x :: x in s ==> m <= x
  }

  lemma {:induction false} LeastExists(s: set<nat>)
    requires s != {}
    ensures exists m :: IsLeast(m, s)
  {
    var y :| y in s;
    var rest := s - {y};
    if rest == {} {
      forall x | x in s ensures y <= x {
        assert x == y || x in rest;
      }
      assert IsLeast(y, s);
    } else {
      LeastExists(rest);
      var m :| IsLeast(m, rest);
      var least := if y < m then y else m;
      forall x | x in s ensures least <= x {
        if x != y {
          assert x in rest;
        }
      }
      assert IsLeast(least, s);
    }
  }

  function MinOf(s: set<nat>): (m: nat)
    requires s != {}
    ensures m in s && forall x :: x in s ==> m <= x
  {
    LeastExists(s);
    var m :| IsLeast(m, s);
    m
  }

  /** Strictly ascending ids. */
  ghost predicate Ascending(s: seq<nat>) {
    forall i, j :: 0 <= i < j < |s| ==> s[i] < s[j]
  }

  /** The ids of a table, ascending. */
  function SortedKeys(s: set<nat>): (r: seq<nat>)
    ensures |r| == |s|
    ensures forall x :: x in r <==> x in s
    ensures Ascending(r)
    decreases s
  {
    if s == {} then []
    else
      var m := MinOf(s);
      var rest := SortedKeys(s - {m});
      var r := [m] + rest;
      forall i, j | 0 <= i < j < |r| ensures r[i] < r[j] {
        assert r[j] == rest[j - 1];
        assert r[j] in rest;
        assert r[j] in s - {m};
        if i > 0 {
          assert r[i] == rest[i - 1];
        }
      }
      r
  }

  /** The rows stored under the given ids, in that order. */
  function Rows<V>(table: map<nat, V>, keys: seq<nat>): (r: seq<V>)
    requires forall i :: 0 <= i < |keys| ==> keys[i] in table
    ensures |r| == |keys|
    ensures forall i :: 0 <= i < |r| ==> r[i] == table[keys[i]]
  {
    seq(|keys|, i requires 0 <= i < |keys| => table[keys[i]])
  }

  /** `findAll()`: every row once, in ascending id order. */
  function FindAll<V(==,!new)>(table: map<nat, V>): (r: seq<V>)
    ensures |r| == |table|
    ensures forall v :: v in r <==> v in table.Values
  {
    var ks := SortedKeys(table.Keys);
    var r := Rows(table, ks);
    assert forall v :: v in table.Values ==> v in r by {
      forall v | v in table.Values ensures v in r {
        var k :| k in table && table[k] == v;
        var i :| 0 <= i < |ks| && ks[i] == k;
        assert r[i] == v;
      }
    }
    r
  }

  /** `employeRepository.existsByEmail(email)`. */
  predicate ExistsByEmail(employes: map<nat, Employe>, email: string) {
    exists k :: k in employes && employes[k].email == email
  }

  /** `departementRepository.existsByNom(nom)`, also `findByNom(nom).isPresent()`. */
  predicate ExistsByNom(departements: map<nat, Departement>, nom: string) {
    exists k :: k in departements && departements[k].nom == nom
  }

  /** `employeRepository.existsByDepartementId(id)`. */
  predicate ExistsByDepartementId(employes: map<nat, Employe>, departementId: nat) {
    exists k :: k in employes && employes[k].departementId == Some(departementId)
  }

  /** `presenceRepository.existsByEmployeId(id)`. */
  predicate ExistsByEmployeId(presences: map<nat, PresenceRecord>, employeId: nat) {
    exists k :: k in presences && presences[k].employeId == Some(employeId)
  }

  /** `existsByEmail` agrees with looking for the email among `findAll()`. */
  lemma ExistsByEmailIffListed(employes: map<nat, Employe>, email: string)
    ensures ExistsByEmail(employes, email) <==> exists e :: e in FindAll(employes) && e.email == email
  {
    var all := FindAll(employes);
    if ExistsByEmail(employes, email) {
      var k :| k in employes && employes[k].email == email;
      assert employes[k] in employes.Values;
      assert employes[k] in all;
    }
    if e :| e in all && e.email == email {
      assert e in employes.Values;
      var k :| k in employes && employes[k] == e;
    }
  }

  /** `existsByNom` agrees with looking for the name among `findAll()`. */
  lemma ExistsByNomIffListed(departements: map<nat, Departement>, nom: string)
    ensures ExistsByNom(departements, nom) <==> exists d :: d in FindAll(departements) && d.nom == nom
  {
    var all := FindAll(departements);
    if ExistsByNom(departements, nom) {
      var k :| k in departements && departements[k].nom == nom;
      assert departements[k] in departements.Values;
      assert departements[k] in all;
    }
    if d :| d in all && d.nom == nom {
      assert d in departements.Values;
      var k :| k in departements && departements[k] == d;
    }
  }


  function EmployeIdsOf(employes: map<nat, Employe>, departementId: nat): (r: seq<nat>)
    ensures forall k :: k in r <==> k in employes && employes[k].departementId == Some(departementId)
    ensures |r| == |set k: nat | k in employes && employes[k].departementId == Some(departementId)|
  {
    SortedKeys(set k: nat | k in employes && employes[k].departementId == Some(departementId))
  }

  /** `employeRepository.findByDepartementId(id)`: the department's employees, ascending id. */
  function FindByDepartementId(employes: map<nat, Employe>, departementId: nat): (r: seq<Employe>)
    ensures forall e :: e in r <==> e in employes.Values && e.departementId == Some(departementId)
    ensures |r| == |EmployeIdsOf(employes, departementId)|
  {
    var ks := EmployeIdsOf(employes, departementId);
    var r := Rows(employes, ks);
    assert forall e :: e in employes.Values && e.departementId == Some(departementId) ==> e in r by {
      forall e | e in employes.Values && e.departementId == Some(departementId) ensures e in r {
        var k :| k in employes && employes[k] == e;
        var i :| 0 <= i < |ks| && ks[i] == k;
        assert r[i] == e;
      }
    }
    r
  }

  /** `existsByDepartementId(id)` holds exactly when `findByDepartementId(id)` is not empty. */
  lemma ExistsByDepartementIdIffFound(employes: map<nat, Employe>, departementId: nat)
    ensures ExistsByDepartementId(employes, departementId) <==> FindByDepartementId(employes, departementId) != []
  {
    var found := FindByDepartementId(employes, departementId);
    if ExistsByDepartementId(employes, departementId) {
      var k :| k in employes && employes[k].departementId == Some(departementId);
      assert employes[k] in employes.Values;
      assert employes[k] in found;
    }
    if found != [] {
      assert found[0] in employes.Values;
      var k :| k in employes && employes[k] == found[0];
    }
  }

  /** The ids of the employee's presence rows, ascending. */
  function PresenceIdsOf(presences: map<nat, PresenceRecord>, employeId: nat): (r: seq<nat>)
    ensures forall k :: k in r <==> k in presences && presences[k].employeId == Some(employeId)
  {
    SortedKeys(set k: nat | k in presences && presences[k].employeId == Some(employeId))
  }

  /** The employee's presence rows, ascending id. */
  function PresencesOf(presences: map<nat, PresenceRecord>, employeId: nat): (r: seq<PresenceRecord>)
    ensures forall p :: p in r <==> p in presences.Values && p.employeId == Some(employeId)
  {
    var ks := PresenceIdsOf(presences, employeId);
    var r := Rows(presences, ks);
    assert forall p :: p in presences.Values && p.employeId == Some(employeId) ==> p in r by {
      forall p | p in presences.Values && p.employeId == Some(employeId) ensures p in r {
        var k :| k in presences && presences[k] == p;
        var i :| 0 <= i < |ks| && ks[i] == k;
        assert r[i] == p;
      }
    }
    r
  }

  function DateOf(p: PresenceRecord): Date { p.date }

  /** `presenceRepository.findByEmployeIdOrderByDateAsc(id)`: the employee's rows, by date, ties by id. */
  function FindByEmployeIdOrderByDateAsc(presences: map<nat, PresenceRecord>, employeId: nat): (r: seq<PresenceRecord>)
    ensures multiset(r) == multiset(PresencesOf(presences, employeId))
    ensures forall p :: p in r <==> p in presences.Values && p.employeId == Some(employeId)
  {
    var r := SortBy(PresencesOf(presences, employeId), DateOf, IsBefore);
    assert forall p :: p in r <==> p in multiset(r);
    r
  }

  /** Its rows come out sorted by date. */
  lemma FindByEmployeIdOrderByDateAscSorted(presences: map<nat, PresenceRecord>, employeId: nat)
    ensures SortedBy(FindByEmployeIdOrderByDateAsc(presences, employeId), DateOf, IsBefore)
  {
    IsBeforeIsStrictTotal();
    SortBySorted(PresencesOf(presences, employeId), DateOf, IsBefore);
  }

  /** `existsByEmployeId(id)` holds exactly when `findByEmployeIdOrderByDateAsc(id)` is not empty. */
  lemma ExistsByEmployeIdIffFound(presences: map<nat, PresenceRecord>, employeId: nat)
    ensures ExistsByEmployeId(presences, employeId) <==> FindByEmployeIdOrderByDateAsc(presences, employeId) != []
  {
    var found := FindByEmployeIdOrderByDateAsc(presences, employeId);
    if ExistsByEmployeId(presences, employeId) {
      var k :| k in presences && presences[k].employeId == Some(employeId);
      assert presences[k] in presences.Values;
      assert presences[k] in found;
    }
    if found != [] {
      assert found[0] in presences.Values;
      var k :| k in presences && presences[k] == found[0];
    }
  }

  /** `presenceRepository.findByEmployeIdAndDate(id, date)`: the id of the matching row, if any. */
  function FindByEmployeIdAndDate(presences: map<nat, PresenceRecord>, employeId: nat, date: Date): (r: Option<nat>)
    ensures r.None? <==> !exists k :: k in presences && presences[k].employeId == Some(employeId) && presences[k].date == date
    ensures r.Some? ==> r.value in presences && presences[r.value].employeId == Some(employeId) && presences[r.value].date == date
  {
    var matching := set k: nat | k in presences && presences[k].employeId == Some(employeId) && presences[k].date == date;
    var ks := SortedKeys(matching);
    if ks == [] then
      assert forall k :: k in presences && presences[k].employeId == Some(employeId) && presences[k].date == date
                         ==> k in matching && k in ks;
      None
    else Some(ks[0])
  }

  // ----- integrity -----

  ghost predicate EmployesValid(db: Db) {
    && (forall k :: k in db.employes ==> k < db.nextEmployeId && db.employes[k].id == Some(k))
    && (forall k :: k in db.employes ==> db.employes[k].departementId.Some? && db.employes[k].departementId.value in db.departements)
    && (forall a, b {:trigger db.employes[a].email, db.employes[b].email} :: a in db.employes && b in db.employes && a != b ==> db.employes[a].email != db.employes[b].email)
  }

  ghost predicate DepartementsValid(db: Db) {
    && (forall k :: k in db.departements ==> k < db.nextDepartementId && db.departements[k].id == Some(k))
    && (forall k :: k in db.departements && db.departements[k].managerId.Some? ==> db.departements[k].managerId.value in db.employes)
    && (forall a, b {:trigger db.departements[a].nom, db.departements[b].nom} :: a in db.departements && b in db.departements && a != b ==> db.departements[a].nom != db.departements[b].nom)
  }

  /** A saved row: its own id, an existing employee, an arrival, no departure before it, consistent minutes. */
  ghost predicate PresenceValid(db: Db, k: nat)
    requires k in db.presences
  {
    var p := db.presences[k];
    && k < db.nextPresenceId
    && p.id == Some(k)
    && p.employeId.Some? && p.employeId.value in db.employes
    && (p.arrivee.Some? && p.depart.Some? ==> p.arrivee.value <= p.depart.value)
    && Consistent(p)
  }

  /** At most one row per (employee, date). */
  ghost predicate OnePresencePerDay(presences: map<nat, PresenceRecord>) {
    forall a, b {:trigger presences[a].date, presences[b].date} :: a in presences && b in presences && a != b ==>
      presences[a].employeId != presences[b].employeId || presences[a].date != presences[b].date
  }

  ghost predicate PresencesValid(db: Db) {
    && (forall k {:trigger PresenceValid(db, k)} :: k in db.presences ==> PresenceValid(db, k))
    && (forall k :: k in db.presences ==> db.presences[k].arrivee.Some?)
    && OnePresencePerDay(db.presences)
  }

  ghost predicate WellFormed(db: Db) {
    EmployesValid(db) && DepartementsValid(db) && PresencesValid(db)
  }

  /** The empty database: every identity sequence starts at 1. */
  const Empty := Db(map[], map[], map[], 1, 1, 1)

  lemma EmptyValid()
    ensures WellFormed(Empty)
  {
  }

  /** Writing one sound employee row whose email no other row has keeps every rule. */
  lemma PutEmployeKeepsWellFormed(db: Db, k: nat, e: Employe, next: nat, db': Db)
    requires WellFormed(db)
    requires k < next && db.nextEmployeId <= next
    requires e.id == Some(k) && e.departementId.Some? && e.departementId.value in db.departements
    requires forall j :: j in db.employes && j != k ==> db.employes[j].email != e.email
    requires db' == db.(employes := db.employes[k := e], nextEmployeId := next)
    ensures WellFormed(db')
  {
    assert EmployesValid(db');
    forall j | j in db'.presences ensures PresenceValid(db', j) {
      assert PresenceValid(db, j);
    }
  }

  /** Writing one sound department row whose name no other row has keeps every rule. */
  lemma PutDepartementKeepsWellFormed(db: Db, k: nat, d: Departement, next: nat, db': Db)
    requires WellFormed(db)
    requires k < next && db.nextDepartementId <= next
    requires d.id == Some(k) && (d.managerId.Some? ==> d.managerId.value in db.employes)
    requires forall j :: j in db.departements && j != k ==> db.departements[j].nom != d.nom
    requires db' == db.(departements := db.departements[k := d], nextDepartementId := next)
    ensures WellFormed(db')
  {
    assert DepartementsValid(db');
    forall j | j in db'.presences ensures PresenceValid(db', j) {
      assert PresenceValid(db, j);
    }
  }

  /** Removing a department no employee references keeps every rule. */
  lemma RemoveDepartementKeepsWellFormed(db: Db, k: nat, db': Db)
    requires WellFormed(db)
    requires !ExistsByDepartementId(db.employes, k)
    requires db' == db.(departements := db.departements - {k})
    ensures WellFormed(db')
  {
    forall j | j in db'.employes
      ensures db'.employes[j].departementId.Some? && db'.employes[j].departementId.value in db'.departements
    {
      assert db.employes[j].departementId != Some(k);
    }
    assert EmployesValid(db');
    forall j | j in db'.presences ensures PresenceValid(db', j) {
      assert PresenceValid(db, j);
    }
  }

  /** The identity sequence is ahead of every stored presence id. */
  lemma NextPresenceIdFree(db: Db)
    requires WellFormed(db)
    ensures db.nextPresenceId !in db.presences
  {
    forall k | k in db.presences ensures k < db.nextPresenceId {
      assert PresenceValid(db, k);
    }
  }

  /** Adding a fresh open row for an employee and a date that have none keeps every rule. */
  lemma AddPresenceKeepsWellFormed(db: Db, p: PresenceRecord, db': Db)
    requires WellFormed(db)
    requires p.id == Some(db.nextPresenceId) && p.employeId.Some? && p.employeId.value in db.employes
    requires p.arrivee.Some? && p.depart.None? && p.heuresTravaillees.None?
    requires forall k :: k in db.presences ==> db.presences[k].employeId != p.employeId || db.presences[k].date != p.date
    requires db' == db.(presences := db.presences[db.nextPresenceId := p], nextPresenceId := db.nextPresenceId + 1)
    ensures WellFormed(db')
  {
    forall j | j in db'.presences ensures PresenceValid(db', j) {
      if j != db.nextPresenceId {
        assert PresenceValid(db, j);
      }
    }
    PutKeepsOnePerDay(db.presences, db.nextPresenceId, p);
  }

  /** The employee and department rules do not look at the presence table. */
  lemma PresenceWriteKeepsPeopleRules(db: Db, db': Db)
    requires EmployesValid(db) && DepartementsValid(db)
    requires db'.employes == db.employes && db'.departements == db.departements
    requires db'.nextEmployeId == db.nextEmployeId && db'.nextDepartementId == db.nextDepartementId
    ensures EmployesValid(db') && DepartementsValid(db')
  {
  }

  /** Closing an open row at a time not before its arrival keeps every rule. */
  lemma ClosePresenceKeepsWellFormed(db: Db, k: nat, depart: LocalTime, db': Db)
    requires WellFormed(db) && k in db.presences
    requires db.presences[k].arrivee.Some? && db.presences[k].arrivee.value <= depart
    requires db' == db.(presences := db.presences[k := db.presences[k].(depart := Some(depart),
                          heuresTravaillees := WorkedMinutes(db.presences[k].arrivee, Some(depart)))])
    ensures WellFormed(db')
  {
    PresenceWriteKeepsPeopleRules(db, db');
    ClosePresenceKeepsRows(db, k, depart, db');
    PutKeepsOnePerDay(db.presences, k, db'.presences[k]);
  }

  lemma ClosePresenceKeepsRows(db: Db, k: nat, depart: LocalTime, db': Db)
    requires PresencesValid(db) && k in db.presences
    requires db.presences[k].arrivee.Some? && db.presences[k].arrivee.value <= depart
    requires db' == db.(presences := db.presences[k := db.presences[k].(depart := Some(depart),
                          heuresTravaillees := WorkedMinutes(db.presences[k].arrivee, Some(depart)))])
    ensures forall j :: j in db'.presences ==> PresenceValid(db', j) && db'.presences[j].arrivee.Some?
  {
    var closed := db'.presences[k];
    forall j | j in db'.presences ensures PresenceValid(db', j) && db'.presences[j].arrivee.Some? {
      assert PresenceValid(db, j);
      if j == k {
        assert Consistent(closed) && closed.arrivee.value <= closed.depart.value;
      }
    }
  }

  /** A row written under `k` whose (employee, date) no other row has keeps one row per day. */
  lemma PutKeepsOnePerDay(presences: map<nat, PresenceRecord>, k: nat, p: PresenceRecord)
    requires OnePresencePerDay(presences)
    requires forall j :: j in presences && j != k ==> presences[j].employeId != p.employeId || presences[j].date != p.date
    ensures OnePresencePerDay(presences[k := p])
  {
    var m := presences[k := p];
    forall a, b | a in m && b in m && a != b
      ensures m[a].employeId != m[b].employeId || m[a].date != m[b].date
    {
      if a != k && b != k {
        assert m[a].date == presences[a].date && m[b].date == presences[b].date;
      }
    }
  }

  // ----- the repositories as one mutable object -----

  /**
   * The three tables behind the repositories. Presence rows are kept as values:
   * `findById` materialises a fresh Presence entity from a row, and `save`
   * writes the entity's state back after running its lifecycle hook.
   */
  class Store {
    var employes: map<nat, Employe>
    var departements: map<nat, Departement>
    var presences: map<nat, PresenceRecord>
    var nextEmployeId: nat
    var nextDepartementId: nat
    var nextPresenceId: nat

    function State(): Db
      reads this
    {
      Db(employes, departements, presences, nextEmployeId, nextDepartementId, nextPresenceId)
    }

    /** The tables keep their integrity rules. */
    ghost predicate Valid()
      reads this
    {
      WellFormed(State())
    }

    constructor()
      ensures State() == Empty
      ensures Valid()
    {
      employes := map[];
      departements := map[];
      presences := map[];
      nextEmployeId := 1;
      nextDepartementId := 1;
      nextPresenceId := 1;
    }

    /** `save` of a new employee: the identity column assigns the next id. */
    method InsertEmploye(e: Employe) returns (saved: Employe)
      modifies this
      ensures saved == e.(id := Some(old(nextEmployeId)))
      ensures employes == old(employes)[old(nextEmployeId) := saved]
      ensures nextEmployeId == old(nextEmployeId) + 1
      ensures departements == old(departements) && presences == old(presences)
      ensures nextDepartementId == old(nextDepartementId) && nextPresenceId == old(nextPresenceId)
    {
      saved := e.(id := Some(nextEmployeId));
      employes := employes[nextEmployeId := saved];
      nextEmployeId := nextEmployeId + 1;
    }

    /** `save` of an employee loaded under id `k`. */
    method PutEmploye(k: nat, e: Employe)
      modifies this
      ensures employes == old(employes)[k := e]
      ensures departements == old(departements) && presences == old(presences)
      ensures nextEmployeId == old(nextEmployeId) && nextDepartementId == old(nextDepartementId)
      ensures nextPresenceId == old(nextPresenceId)
    {
      employes := employes[k := e];
    }

    /** `save` of a new department. */
    method InsertDepartement(d: Departement) returns (saved: Departement)
      modifies this
      ensures saved == d.(id := Some(old(nextDepartementId)))
      ensures departements == old(departements)[old(nextDepartementId) := saved]
      ensures nextDepartementId == old(nextDepartementId) + 1
      ensures employes == old(employes) && presences == old(presences)
      ensures nextEmployeId == old(nextEmployeId) && nextPresenceId == old(nextPresenceId)
    {
      saved := d.(id := Some(nextDepartementId));
      departements := departements[nextDepartementId := saved];
      nextDepartementId := nextDepartementId + 1;
    }

    /** `save` of a department loaded under id `k`. */
    method PutDepartement(k: nat, d: Departement)
      modifies this
      ensures departements == old(departements)[k := d]
      ensures employes == old(employes) && presences == old(presences)
      ensures nextEmployeId == old(nextEmployeId) && nextDepartementId == old(nextDepartementId)
      ensures nextPresenceId == old(nextPresenceId)
    {
      departements := departements[k := d];
    }

    /** `delete` of the department stored under `k`. */
    method RemoveDepartement(k: nat)
      modifies this
      ensures departements == old(departements) - {k}
      ensures employes == old(employes) && presences == old(presences)
      ensures nextEmployeId == old(nextEmployeId) && nextDepartementId == old(nextDepartementId)
      ensures nextPresenceId == old(nextPresenceId)
    {
      departements := departements - {k};
    }

    /** `presenceRepository.findById(k)`: a new entity holding the stored row. */
    method LoadPresence(k: nat) returns (p: Presence)
      requires k in presences
      ensures fresh(p)
      ensures p.Record() == presences[k]
    {
      p := new Presence.Load(presences[k]);
    }

    /**
     * `save` of a new Presence: the pre-persist hook recomputes the worked
     * minutes, then the identity column assigns the next id and the row is stored.
     */
    method InsertPresence(p: Presence)
      modifies this, p
      ensures p.Record() == old(p.Record()).(id := Some(old(nextPresenceId)),
                                             heuresTravaillees := WorkedMinutes(old(p.arrivee), old(p.depart)))
      ensures presences == old(presences)[old(nextPresenceId) := p.Record()]
      ensures nextPresenceId == old(nextPresenceId) + 1
      ensures employes == old(employes) && departements == old(departements)
      ensures nextEmployeId == old(nextEmployeId) && nextDepartementId == old(nextDepartementId)
    {
      p.CalculateHeuresTravaillees();
      p.SetId(nextPresenceId);
      presences := presences[nextPresenceId := p.Record()];
      nextPresenceId := nextPresenceId + 1;
    }

    /** `save` of a Presence loaded under id `k`: the pre-update hook recomputes the worked minutes. */
    method SavePresence(k: nat, p: Presence)
      modifies this, p
      ensures p.Record() == old(p.Record()).(heuresTravaillees := WorkedMinutes(old(p.arrivee), old(p.depart)))
      ensures Consistent(p.Record())
      ensures presences == old(presences)[k := p.Record()]
      ensures employes == old(employes) && departements == old(departements)
      ensures nextEmployeId == old(nextEmployeId) && nextDepartementId == old(nextDepartementId)
      ensures nextPresenceId == old(nextPresenceId)
    {
      p.CalculateHeuresTravaillees();
      presences := presences[k := p.Record()];
    }
  }
}
