/**
 * The records the services exchange: the stored Employe and Departement rows,
 * a snapshot of a Presence row, the request bodies and the response DTOs.
 * Java references between entities are held as ids; a null reference or a
 * not-yet-generated id is `None`. Money (BigDecimal) is a whole number of cents.
 */
module Entities {
  import opened Common
  import opened Calendar

  /** A department row: `budget` may be null in the entity, though requests always carry one. */
  datatype Departement = Departement(id: Option<nat>, nom: string, managerId: Option<nat>, budget: Option<int>)

  /** An employee row; `departementId` is the id of the referenced Departement. */
  datatype Employe = Employe(
    id: Option<nat>,
    prenom: string,
    nom: string,
    email: string,
    departementId: Option<nat>,
    salaire: int,
    dateEmbauche: LocalDate,
    statut: string)

  /** The state of one Presence entity; `heuresTravaillees` counts minutes. */
  datatype PresenceRecord = PresenceRecord(
    id: Option<nat>,
    employeId: Option<nat>,
    date: LocalDate,
    arrivee: Option<LocalTime>,
    depart: Option<LocalTime>,
    heuresTravaillees: Option<int>)

  datatype EmployeRequest = EmployeRequest(
    prenom: string,
    nom: string,
    email: string,
    departementId: nat,
    salaire: int,
    dateEmbauche: LocalDate,
    statut: string)

  datatype DepartementRequest = DepartementRequest(nom: string, managerId: Option<nat>, budget: Option<int>)

  datatype PresenceArriveeRequest = PresenceArriveeRequest(employeId: nat, date: LocalDate, arrivee: LocalTime)

  datatype PresenceDepartRequest = PresenceDepartRequest(presenceId: nat, depart: LocalTime)

  datatype EmployeDto = EmployeDto(
    id: Option<nat>,
    prenom: string,
    nom: string,
    email: string,
    departementId: Option<nat>,
    salaire: int,
    dateEmbauche: LocalDate,
    statut: string)

  datatype DepartementDto = DepartementDto(id: Option<nat>, nom: string, managerId: Option<nat>, budget: Option<int>)

  /** `heuresTravaillees` is the "Xh MMm" text of the worked minutes. */
  datatype PresenceDto = PresenceDto(
    id: Option<nat>,
    employeId: Option<nat>,
    date: LocalDate,
    arrivee: Option<LocalTime>,
    depart: Option<LocalTime>,
    heuresTravaillees: Option<string>)
}
