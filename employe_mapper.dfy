/** EmployeMapper: request to entity, entity to DTO, field by field. */
module EmployeMapper {
  import opened Common
  import opened Entities

  /** `toEntity(request, departement)`: a new, unsaved employee attached to `departement`. */
  function ToEntity(req: EmployeRequest, departement: Departement): (e: Employe)
    ensures e.id.None?
    ensures e.departementId == departement.id
    ensures e.prenom == req.prenom && e.nom == req.nom && e.email == req.email
    ensures e.salaire == req.salaire && e.dateEmbauche == req.dateEmbauche && e.statut == req.statut
  {
    Employe(None, req.prenom, req.nom, req.email, departement.id, req.salaire, req.dateEmbauche, req.statut)
  }

  /**
   * `toDto(employe)`: every field copied; the department id is null when the
   * employee has no department or the department has no id yet.
   */
  function ToDto(e: Employe): (d: EmployeDto)
    ensures d.id == e.id && d.departementId == e.departementId
    ensures d.prenom == e.prenom && d.nom == e.nom && d.email == e.email
    ensures d.salaire == e.salaire && d.dateEmbauche == e.dateEmbauche && d.statut == e.statut
  {
    EmployeDto(e.id, e.prenom, e.nom, e.email, e.departementId, e.salaire, e.dateEmbauche, e.statut)
  }

  /** A request mapped to an entity and back gives the request's fields, the department's id and no id. */
  lemma RoundTrip(req: EmployeRequest, departement: Departement)
    ensures ToDto(ToEntity(req, departement))
         == EmployeDto(None, req.prenom, req.nom, req.email, departement.id, req.salaire, req.dateEmbauche, req.statut)
  {
  }

  /** No information is lost: two employees with the same DTO are the same employee. */
  lemma ToDtoInjective(a: Employe, b: Employe)
    requires ToDto(a) == ToDto(b)
    ensures a == b
  {
  }
}
