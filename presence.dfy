/**
 * The Presence entity: a mutable record whose worked-minutes field is derived
 * from arrival and departure by `calculateHeuresTravaillees`, the hook JPA
 * runs before every insert and update.
 */
module PresenceModel {
  import opened Common
  import opened Calendar
  import opened Entities

  /**
   * `Duration.between(arrivee, depart).toMinutes()` when both times are set,
   * otherwise null: the signed difference in whole minutes, truncated towards zero.
   */
  function WorkedMinutes(arrivee: Option<LocalTime>, depart: Option<LocalTime>): (m: Option<int>)
    ensures m.Some? <==> arrivee.Some? && depart.Some?
    ensures m.Some? && arrivee.value <= depart.value ==>
              0 <= m.value && 60 * m.value <= depart.value - arrivee.value < 60 * m.value + 60
    ensures m.Some? && depart.value < arrivee.value ==>
              m.value <= 0 && 60 * m.value - 60 < depart.value - arrivee.value <= 60 * m.value
  {
    if arrivee.Some? && depart.Some? then Some(JavaDiv(depart.value - arrivee.value, 60)) else None
  }

  /** 09:00 to 17:00 is 480 minutes; equal times give 0; 59 seconds give 0. */
  lemma WorkedMinutesExamples()
    ensures WorkedMinutes(Some(9 * 3600), Some(17 * 3600)) == Some(480)
    ensures WorkedMinutes(Some(9 * 3600), Some(9 * 3600)) == Some(0)
    ensures WorkedMinutes(Some(9 * 3600), Some(9 * 3600 + 59)) == Some(0)
  {
  }

  /** The derived field agrees with arrival and departure. */
  ghost predicate Consistent(r: PresenceRecord) {
    r.heuresTravaillees == WorkedMinutes(r.arrivee, r.depart)
  }

  class Presence {
    var id: Option<nat>
    var employeId: Option<nat>
    var date: LocalDate
    var arrivee: Option<LocalTime>
    var depart: Option<LocalTime>
    var heuresTravaillees: Option<int>

    function Record(): PresenceRecord
      reads this
    {
      PresenceRecord(id, employeId, date, arrivee, depart, heuresTravaillees)
    }

    /** `new Presence(employe, date, arrivee)`: not yet saved, no departure, no worked minutes. */
    constructor(employeId: Option<nat>, date: LocalDate, arrivee: LocalTime)
      ensures Record() == PresenceRecord(None, employeId, date, Some(arrivee), None, None)
      ensures Consistent(Record())
    {
      this.id := None;
      this.employeId := employeId;
      this.date := date;
      this.arrivee := Some(arrivee);
      this.depart := None;
      this.heuresTravaillees := None;
    }

    /** The entity JPA materialises from a stored row. */
    constructor Load(r: PresenceRecord)
      ensures Record() == r
    {
      this.id := r.id;
      this.employeId := r.employeId;
      this.date := r.date;
      this.arrivee := r.arrivee;
      this.depart := r.depart;
      this.heuresTravaillees := r.heuresTravaillees;
    }

    /** The id JPA generates when the entity is first saved. */
    method SetId(id: nat)
      modifies this
      ensures Record() == old(Record()).(id := Some(id))
    {
      this.id := Some(id);
    }

    /** `setArrivee` leaves the worked minutes as they were, until the next save recomputes them. */
    method SetArrivee(arrivee: Option<LocalTime>)
      modifies this
      ensures Record() == old(Record()).(arrivee := arrivee)
    {
      this.arrivee := arrivee;
    }

    /** `setDepart` stores the departure and recomputes the worked minutes at once. */
    method SetDepart(depart: Option<LocalTime>)
      modifies this
      ensures Record() == old(Record()).(depart := depart, heuresTravaillees := WorkedMinutes(old(arrivee), depart))
      ensures Consistent(Record())
    {
      this.depart := depart;
      CalculateHeuresTravaillees();
    }

    /**
     * The only writer of the derived field; on a record that is already
     * consistent it changes nothing, so calling it twice is calling it once.
     */
    method CalculateHeuresTravaillees()
      modifies this
      ensures Record() == old(Record()).(heuresTravaillees := WorkedMinutes(arrivee, depart))
      ensures Consistent(Record())
      ensures old(Consistent(Record())) ==> Record() == old(Record())
    {
      if arrivee.Some? && depart.Some? {
        heuresTravaillees := Some(JavaDiv(depart.value - arrivee.value, 60));
      } else {
        heuresTravaillees := None;
      }
    }
  }
}
