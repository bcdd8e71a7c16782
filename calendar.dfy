/** `output_calendar`: one VEVENT per event, ending at four in the morning of
    the next day. Serialisation to iCalendar text and the file write are not
    modelled; the calendar is the value handed to the serialiser. */
module Calendar {
  import opened Wrappers
  import opened Civil
  import opened Events

  const CalendarName := "Vilnius Hardcore events"
  const CalendarVersion := "2.0"
  const ProductId := "-//hcevents//wemakethings.net//"

  datatype VEvent = VEvent(uid: string, dtstart: Time, dtend: Time, dtstamp: Timestamp,
                           summary: string, description: string, altDescription: string)

  datatype Calendar = Calendar(name: string, version: string, prodid: string, events: seq<VEvent>)

  /** Adding a day past 9999-12-31 raises OverflowError. */
  datatype CalendarError = DateOverflow

  /** `(start + timedelta(days=1)).replace(hour=4, minute=0, second=0)`: the
      next calendar day at 04:00:00 with the microseconds kept, which is later
      than the start in wall-clock order. */
  function EndTime(start: Time): (r: Option<Time>)
    ensures r.None? <==> start.year == MaxYear && start.month == 12 && start.day == 31
    ensures r.Some? ==> Ordinal(r.value) == Ordinal(start) + 1
    ensures r.Some? ==> && r.value.hour == 4 && r.value.minute == 0 && r.value.second == 0
                        && r.value.microsecond == start.microsecond
    ensures r.Some? ==> Before(start, r.value)
  {
    match NextDay(start)
    case None => None
    case Some(next) => Some(next.(hour := 4, minute := 0, second := 0))
  }

  /** The calendar the loop of `output_calendar` builds, with the clock read
      once per event for DTSTAMP (`clock(i)` for the `i`-th event). Times stay
      in local wall-clock terms. */
  method OutputCalendar(events: seq<Event>, clock: nat -> Timestamp) returns (r: Result<Calendar, CalendarError>)
    ensures r.Ok? <==> forall i :: 0 <= i < |events| ==> EndTime(events[i].time).Some?
    ensures r.Err? ==> r.error == DateOverflow
    ensures r.Ok? ==> && r.value.name == CalendarName && r.value.version == CalendarVersion
                      && r.value.prodid == ProductId && |r.value.events| == |events|
    ensures r.Ok? ==> forall i :: 0 <= i < |events| ==>
      var v := r.value.events[i];
      && v.uid == events[i].url && v.dtstart == events[i].time
      && EndTime(events[i].time) == Some(v.dtend) && Before(v.dtstart, v.dtend)
      && v.dtstamp == clock(i) && v.summary == events[i].title
      && v.description == events[i].descriptionText && v.altDescription == events[i].descriptionHtml
  {
    var vevents: seq<VEvent> := [];
    for i := 0 to |events|
      invariant |vevents| == i
      invariant forall j :: 0 <= j < i ==> EndTime(events[j].time).Some?
      invariant forall j :: 0 <= j < i ==>
        vevents[j] == VEvent(events[j].url, events[j].time, EndTime(events[j].time).value, clock(j),
                             events[j].title, events[j].descriptionText, events[j].descriptionHtml)
    {
      var e := events[i];
      var endtime := EndTime(e.time);
      if endtime.None? {
        return Err(DateOverflow);
      }
      vevents := vevents + [VEvent(e.url, e.time, endtime.value, clock(i),
                                   e.title, e.descriptionText, e.descriptionHtml)];
    }
    return Ok(Calendar(CalendarName, CalendarVersion, ProductId, vevents));
  }
}
