/** The two kinds of document the reports page reads from the store. */
module Records {

  import opened Wrappers

  /** An instant as integer milliseconds since the epoch. */
  type Millis = int

  const MillisPerSecond: int := 1000

  /** The `seconds` field of the store's timestamp for an instant: the whole
      seconds, rounded down (Dafny's `/` rounds down for a positive divisor). */
  function Seconds(t: Millis): (s: int)
    ensures s * MillisPerSecond <= t < (s + 1) * MillisPerSecond
  {
    t / MillisPerSecond
  }

  /** The status strings the page recognises. The store's rows are cast to
      records without validation, so a status may be any string; the empty
      string stands for a missing one. */
  const PRESENT := "PRESENT"
  const LATE := "LATE"
  const ABSENT := "ABSENT"

  predicate IsRecognizedStatus(s: string) { s == PRESENT || s == LATE || s == ABSENT }

  /** An attendance entry as the page sees it. `inTime` is required by the
      record type but the row rendering still tests it, so both times are
      optional here. `overtime` is decimal hours; a missing one reads as 0. */
  datatype AttendanceRecord = AttendanceRecord(
    id: string,
    userId: string,
    date: Millis,
    inTime: Option<Millis>,
    outTime: Option<Millis>,
    status: string,
    overtime: real)

  /** The sentinel of the employee selector meaning "every employee". */
  const AllUsers := "all"

  /** A user document. A missing `name` or `email` is the empty string, which
      is as falsy as the missing value. The one place where they differ is a
      user with neither: the page then stores `undefined` as the name and the
      PDF heading prints that word, where here the name is empty. */
  datatype UserData = UserData(id: string, name: string, email: string)
}
