/** DepartementMapper: request to entity, entity to DTO, field by field. */
module DepartementMapper {
  import opened Common
  import opened Entities

  /** `toEntity(request)`: a new, unsaved department with the request's name, manager and budget. */
  function ToEntity(req: DepartementRequest): (d: Departement)
    ensures d.id.None?
    ensures d.nom == req.nom && d.managerId == req.managerId && d.budget == req.budget
  {
    Departement(None, req.nom, req.managerId, req.budget)
  }

  /** `toDto(departement)`: id, name, manager id and budget, unchanged. */
  function ToDto(d: Departement): (r: DepartementDto)
    ensures r.id == d.id && r.nom == d.nom && r.managerId == d.managerId && r.budget == d.budget
  {
    DepartementDto(d.id, d.nom, d.managerId, d.budget)
  }

  lemma RoundTrip(req: DepartementRequest)
    ensures ToDto(ToEntity(req)) == DepartementDto(None, req.nom, req.managerId, req.budget)
  {
  }

  lemma ToDtoInjective(a: Departement, b: Departement)
    requires ToDto(a) == ToDto(b)
    ensures a == b
  {
  }
}
