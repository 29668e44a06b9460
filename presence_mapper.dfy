/** PresenceMapper: a Presence entity to its DTO, the worked minutes as "Xh MMm" text. */
module PresenceMapper {
  import opened Common
  import opened Text
  import opened Entities

  /**
   * `toDto(presence)`: null for null; otherwise the fields copied and the
   * worked minutes formatted, staying null when they are null.
   */
  function ToDto(p: Option<PresenceRecord>): (d: Option<PresenceDto>)
    ensures d.None? <==> p.None?
    ensures p.Some? ==> d.value.id == p.value.id && d.value.employeId == p.value.employeId
    ensures p.Some? ==> d.value.date == p.value.date && d.value.arrivee == p.value.arrivee && d.value.depart == p.value.depart
    ensures p.Some? ==> (d.value.heuresTravaillees.None? <==> p.value.heuresTravaillees.None?)
    ensures p.Some? && p.value.heuresTravaillees.Some? && p.value.heuresTravaillees.value >= 0 ==>
              ParseHoursMinutes(d.value.heuresTravaillees.value) == Some(p.value.heuresTravaillees.value)
    ensures p.Some? && p.value.heuresTravaillees.Some? && p.value.heuresTravaillees.value >= 0 ==>
              d.value.heuresTravaillees.value == Digits(p.value.heuresTravaillees.value / 60) + "h "
                                                 + ZeroPad2(p.value.heuresTravaillees.value % 60) + "m"
  {
    match p
    case None => None
    case Some(presence) =>
      var formatted := FormatHeures(presence.heuresTravaillees);
      Some(PresenceDto(presence.id, presence.employeId, presence.date, presence.arrivee, presence.depart, formatted))
  }

  /** The worked minutes as text, null staying null; the text reads back as the minutes. */
  function FormatHeures(heures: Option<int>): (t: Option<string>)
    ensures t.None? <==> heures.None?
    ensures heures.Some? && heures.value >= 0 ==> ParseHoursMinutes(t.value) == Some(heures.value)
    ensures heures.Some? && heures.value >= 0 ==>
              t.value == Digits(heures.value / 60) + "h " + ZeroPad2(heures.value % 60) + "m"
  {
    match heures
    case None => None
    case Some(minutes) =>
      if minutes >= 0 then HoursMinutesRoundTrip(minutes); Some(HoursMinutes(minutes))
      else Some(HoursMinutes(minutes))
  }

  /** 480 minutes read "8h 00m"; 125 minutes read "2h 05m". */
  lemma ToDtoExamples(p: PresenceRecord)
    ensures p.heuresTravaillees == Some(480) ==> ToDto(Some(p)).value.heuresTravaillees == Some("8h 00m")
    ensures p.heuresTravaillees == Some(125) ==> ToDto(Some(p)).value.heuresTravaillees == Some("2h 05m")
  {
    HoursMinutesExamples();
  }
}
