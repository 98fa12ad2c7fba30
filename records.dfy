/** The shift record that `parseShifts` builds and the rest of the page
    reads, the raw shapes it is built from, and the user's pay settings. */
module Records {
  import opened Wrappers
  import opened Calendar

  /** The `source` field: 'walmart' or 'canes'. */
  datatype Source = Walmart | Canes

  /** `appState.payRates.walmart`, `appState.payRates.canes` and
      `appState.takeHomePercent`. */
  datatype Settings = Settings(walmartRate: real, canesRate: real, takeHomePercent: real)

  function Rate(settings: Settings, source: Source): real {
    match source
    case Walmart => settings.walmartRate
    case Canes => settings.canesRate
  }

  /** One normalised shift. `date` is the calendar date that the
      `YYYY-MM-DD` text stands for; `durationMinutes` and `paidMinutes` are
      `durationHours` and `paidHours` times 60. `hasOverlap` is absent (false)
      until `detectOverlaps` sets it. */
  datatype Shift = Shift(
    date: Date,
    start: string,
    end: string,
    durationMinutes: int,
    paidMinutes: int,
    grossPay: real,
    netPay: real,
    job: string,
    source: Source,
    hasOverlap: bool)

  /** The key shifts are grouped by (`acc[shift.date]`). Two date texts are
      equal exactly when the dates are (`DateText.FormatLocalDateInjective`). */
  function DateOf(x: Shift): Date {
    x.date
  }

  /** One entry of a Walmart week's `schedules`: the local date of
      `shiftStartTime`, the locale-formatted start and end times, and the
      first event's `jobDescription` if there is one. */
  datatype WalmartSchedule = WalmartSchedule(
    date: Date,
    startText: string,
    endText: string,
    jobDescription: Option<string>)

  /** One entry of `data.canes`: `day` (as `parseInt` reads it), `duration`
      such as "4:00 PM - 10:00 PM", and `job`. */
  datatype CanesEntry = CanesEntry(day: int, duration: Option<string>, job: Option<string>)

  /** The fetched document: `walmart.payload.weeks` (each week's
      `schedules`) when the path exists, and `canes` when it is an array. */
  datatype ScheduleData = ScheduleData(
    walmartWeeks: Option<seq<seq<WalmartSchedule>>>,
    canes: Option<seq<CanesEntry>>)
}
