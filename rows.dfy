/** One table row per attendance record, as the PDF and the on-screen table
    render it. Date and time formatting belongs to a date library: a cell that
    shows a formatted instant keeps the instant. The whole-minute difference of
    two instants is the library's `differenceInMinutes`, passed in as
    `minutesBetween(later, earlier)`. */
module Rows {

  import opened Wrappers
  import opened Records
  import opened Duration
  import opened Names

  datatype TimeCell = FormattedTime(at: Millis) | Placeholder(text: string)

  /** The overtime cell: the hours (printed with two decimals and an "h"
      suffix) when positive, a dash otherwise. */
  datatype OvertimeCell = OvertimeHours(hours: real) | NoOvertime

  datatype Row = Row(
    date: Millis,
    employee: string,
    checkIn: TimeCell,
    checkOut: TimeCell,
    status: string,
    duration: string,
    overtime: OvertimeCell)

  /** The minutes between check-in and check-out, when both are there. */
  function Elapsed(r: AttendanceRecord, minutesBetween: (Millis, Millis) -> int): (e: Option<int>)
    ensures e.Some? <==> r.inTime.Some? && r.outTime.Some?
    ensures e.Some? ==> e.value == minutesBetween(r.outTime.value, r.inTime.value)
  {
    if r.inTime.Some? && r.outTime.Some? then Some(minutesBetween(r.outTime.value, r.inTime.value)) else None
  }

  /** A time cell: the formatted instant when there is one, the placeholder text otherwise. */
  function TimeOrPlaceholder(t: Option<Millis>, placeholder: string): (c: TimeCell)
    ensures c.Placeholder? <==> t.None?
    ensures c.Placeholder? ==> c.text == placeholder
    ensures c.FormattedTime? ==> c.at == t.value
  {
    if t.Some? then FormattedTime(t.value) else Placeholder(placeholder)
  }

  /** `record.overtime && record.overtime > 0`: hours are shown only when positive. */
  function Overtime(r: AttendanceRecord): (c: OvertimeCell)
    ensures c.OvertimeHours? <==> r.overtime > 0.0
    ensures c.OvertimeHours? ==> c.hours == r.overtime
  {
    if r.overtime > 0.0 then OvertimeHours(r.overtime) else NoOvertime
  }

  /** A row of the PDF table. */
  function PdfRow(r: AttendanceRecord, userNames: map<string, string>, minutesBetween: (Millis, Millis) -> int): (row: Row)
    ensures row.date == r.date
    ensures row.employee != "" && row.status != ""
    ensures r.status != "" ==> row.status == r.status
    ensures row.checkIn.Placeholder? <==> r.inTime.None?
    ensures row.checkOut.Placeholder? <==> r.outTime.None?
    ensures row.overtime.OvertimeHours? <==> r.overtime > 0.0
  {
    var elapsed := Elapsed(r, minutesBetween);
    Row(
      r.date,
      PdfEmployee(userNames, r.userId),
      TimeOrPlaceholder(r.inTime, "-"),
      TimeOrPlaceholder(r.outTime, "-"),
      if r.status != "" then r.status else "Unknown",
      if elapsed.Some? then CalculateDurationAsWritten(elapsed) else "-",
      Overtime(r))
  }

  /** A row of the on-screen table. */
  function TableRow(r: AttendanceRecord, userNames: map<string, string>, minutesBetween: (Millis, Millis) -> int): (row: Row)
    ensures row.date == r.date && row.status == r.status
    ensures row.checkIn == Placeholder("Not Marked") <==> r.inTime.None?
    ensures row.checkOut == Placeholder("Not marked") <==> r.outTime.None?
    ensures row.overtime.OvertimeHours? <==> r.overtime > 0.0
  {
    var elapsed := Elapsed(r, minutesBetween);
    Row(
      r.date,
      TableEmployee(userNames, r.userId),
      TimeOrPlaceholder(r.inTime, "Not Marked"),
      TimeOrPlaceholder(r.outTime, "Not marked"),
      r.status,
      if elapsed.Some? then CalculateDurationAsWritten(elapsed) else if r.status == ABSENT then "Absent" else "-",
      Overtime(r))
  }

  function PdfRows(records: seq<AttendanceRecord>, userNames: map<string, string>, minutesBetween: (Millis, Millis) -> int): (rows: seq<Row>)
    ensures |rows| == |records|
    ensures forall i :: 0 <= i < |records| ==> rows[i] == PdfRow(records[i], userNames, minutesBetween)
  {
    seq(|records|, i requires 0 <= i < |records| => PdfRow(records[i], userNames, minutesBetween))
  }

  /** The duration cell is computed only when both times are there, so no row
      ever reads "In Progress"; a dash (or "Absent" on screen) stands exactly
      for a missing time, and otherwise both tables show the same text. */
  lemma DurationCells(r: AttendanceRecord, userNames: map<string, string>, minutesBetween: (Millis, Millis) -> int)
    ensures PdfRow(r, userNames, minutesBetween).duration != InProgress
    ensures TableRow(r, userNames, minutesBetween).duration != InProgress
    ensures PdfRow(r, userNames, minutesBetween).duration == "-" <==> r.inTime.None? || r.outTime.None?
    ensures TableRow(r, userNames, minutesBetween).duration == "Absent" <==>
      (r.inTime.None? || r.outTime.None?) && r.status == ABSENT
    ensures Elapsed(r, minutesBetween).Some? ==>
      TableRow(r, userNames, minutesBetween).duration == PdfRow(r, userNames, minutesBetween).duration
  {
    var elapsed := Elapsed(r, minutesBetween);
    if elapsed.Some? {
      var m := elapsed.value;
      assert CalculateDurationAsWritten(elapsed) == HoursMinutes(JsFloorDiv(m, 60), JsRemainder(m, 60));
    }
  }

  /** The minutes a duration cell adds back to: the difference itself when it
      is not negative, and an hour less whenever a negative difference is not
      a whole number of hours. */
  lemma DurationCellMinutes(r: AttendanceRecord, userNames: map<string, string>, minutesBetween: (Millis, Millis) -> int)
    ensures var e := Elapsed(r, minutesBetween);
      e.Some? && e.value >= 0 ==> ShownMinutes(PdfRow(r, userNames, minutesBetween).duration) == Some(e.value)
    ensures var e := Elapsed(r, minutesBetween);
      e.Some? && e.value < 0 && JsRemainder(e.value, 60) != 0 ==>
        ShownMinutes(PdfRow(r, userNames, minutesBetween).duration) == Some(e.value - 60)
  {
    var e := Elapsed(r, minutesBetween);
    if e.Some? {
      var m := e.value;
      var cell := PdfRow(r, userNames, minutesBetween).duration;
      assert e == Some(m) && cell == CalculateDurationAsWritten(Some(m));
      AsWrittenMinutes(m);
    }
  }

  /** The two Employee cells differ only in their fallback: the PDF says
      "Unknown" where the screen shows the raw user id. */
  lemma EmployeeCells(r: AttendanceRecord, userNames: map<string, string>, minutesBetween: (Millis, Millis) -> int)
    ensures PdfRow(r, userNames, minutesBetween).employee != ""
    ensures var shown := TableRow(r, userNames, minutesBetween).employee;
      shown == PdfRow(r, userNames, minutesBetween).employee || (shown == r.userId && PdfRow(r, userNames, minutesBetween).employee == "Unknown")
  {
  }
}
