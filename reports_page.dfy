/** The state of the reports page and the operations that change it:
    loading the users, loading the attendance records for the current filter,
    and the PDF export guarded by its busy flag.

    Each asynchronous operation is modelled by what it does between its
    suspension points. The record store is the whole attendance collection,
    passed in, and whether the store answers is a parameter. The PDF export
    is split at its one `await`: `BeginGeneratePdf` is the part before it,
    `FinishGeneratePdf` the continuation, whose outcome the PDF engine decides. */
module Reports {

  import opened Wrappers
  import opened Records
  import opened Summary
  import opened Selection
  import opened Names
  import opened Rows
  import opened Export

  const FetchErrorAlert := "Error fetching records. Please try again."
  const PdfErrorAlert := "Failed to generate PDF. Please try again."

  /** What the page renders. */
  datatype Screen = PermissionDenied | LoadingSpinner | ReportView

  /** The content handed to the PDF engine: the date range (formatted by the
      date library), the Employee line, the four counts, one row per record,
      and the footer's generation instant. */
  datatype PdfDocument = PdfDocument(
    startDate: Millis,
    endDate: Millis,
    employee: string,
    stats: Stats,
    rows: seq<Row>,
    generatedAt: Millis)

  datatype PdfRequest = PdfRequest(filename: string, document: PdfDocument)

  class ReportsPage {
    const isManager: bool
    /** The date library's `differenceInMinutes(later, earlier)`. */
    const minutesBetween: (Millis, Millis) -> int

    var attendanceRecords: seq<AttendanceRecord>
    var summaryStats: Stats
    var loading: bool
    var generatingPDF: bool
    var users: seq<UserData>
    var userNames: map<string, string>
    var selectedUser: string
    var startDate: Millis
    var endDate: Millis

    /** What the page has shown with `alert`, in order. */
    var alerts: seq<string>
    /** The queries sent to the attendance collection, in order. */
    var storeQueries: seq<seq<Constraint>>
    /** What has been handed to the PDF engine, in order. */
    var pdfRequests: seq<PdfRequest>

    /** The summary always describes the records on show, and they are in
        descending date order. */
    ghost predicate Valid()
      reads this
    {
      summaryStats == SummaryStats(attendanceRecords) && SortedDescending(attendanceRecords)
    }

    /** The page as first rendered: no records, the spinner on, every
        employee selected, both dates today. */
    constructor (isManager: bool, minutesBetween: (Millis, Millis) -> int, today: Millis)
      ensures Valid()
      ensures this.isManager == isManager && this.minutesBetween == minutesBetween
      ensures attendanceRecords == [] && summaryStats == Stats(0, 0, 0, 0)
      ensures loading && !generatingPDF
      ensures users == [] && userNames == map[]
      ensures selectedUser == AllUsers && startDate == today && endDate == today
      ensures alerts == [] && storeQueries == [] && pdfRequests == []
    {
      this.isManager := isManager;
      this.minutesBetween := minutesBetween;
      attendanceRecords := [];
      summaryStats := Stats(0, 0, 0, 0);
      loading := true;
      generatingPDF := false;
      users := [];
      userNames := map[];
      selectedUser := AllUsers;
      startDate := today;
      endDate := today;
      alerts := [];
      storeQueries := [];
      pdfRequests := [];
    }

    function Screen(): (s: Screen)
      reads this
      ensures s == PermissionDenied <==> !isManager
      ensures s == LoadingSpinner <==> isManager && loading
    {
      if !isManager then PermissionDenied else if loading then LoadingSpinner else ReportView
    }

    /** The employee selector and the two date pickers. */
    method SetFilter(user: string, start: Millis, end: Millis)
      requires Valid()
      modifies this`selectedUser, this`startDate, this`endDate
      ensures Valid()
      ensures selectedUser == user && startDate == start && endDate == end
    {
      selectedUser, startDate, endDate := user, start, end;
    }

    /** `fetchUsers`: `snapshot` is the users collection, or `None` when the
        store does not answer (the rejection is not caught, so nothing changes). */
    method FetchUsers(snapshot: Option<seq<UserData>>)
      requires Valid()
      modifies this`users, this`userNames
      ensures Valid()
      ensures !isManager || snapshot.None? ==> unchanged(this)
      ensures isManager && snapshot.Some? ==>
        users == snapshot.value && userNames == NamesMap(snapshot.value)
    {
      if !isManager {
        return;
      }
      match snapshot
      case None =>
      case Some(usersData) =>
        users := usersData;
        userNames := BuildNamesMap(usersData);
    }

    /** `fetchAttendanceRecords` for the current filter. `store` is the
        attendance collection; `storeAnswers` says whether the query succeeds. */
    method FetchAttendanceRecords(store: seq<AttendanceRecord>, storeAnswers: bool)
      requires Valid()
      modifies this`loading, this`attendanceRecords, this`summaryStats, this`alerts, this`storeQueries
      ensures Valid()
      ensures !isManager ==> unchanged(this)
      ensures isManager ==> !loading && Screen() == ReportView
      ensures isManager ==> |storeQueries| == |old(storeQueries)| + 1 && storeQueries[..|old(storeQueries)|] == old(storeQueries)
      ensures isManager ==> QueryFor(storeQueries[|storeQueries| - 1], selectedUser, startDate, endDate)
      ensures isManager && storeAnswers ==>
        && SelectionOf(attendanceRecords, store, selectedUser, startDate, endDate)
        && summaryStats == SummaryStats(RunQuery(store, storeQueries[|storeQueries| - 1]))
        && alerts == old(alerts)
      ensures isManager && !storeAnswers ==>
        attendanceRecords == old(attendanceRecords) && summaryStats == old(summaryStats)
        && alerts == old(alerts) + [FetchErrorAlert]
    {
      if !isManager {
        return;
      }
      loading := true;
      var records, query := SelectRecords(store, selectedUser, startDate, endDate);
      var queries := storeQueries + [query];
      assert queries[|queries| - 1] == query && queries[..|storeQueries|] == storeQueries;
      if storeAnswers {
        StatsPermutation(records, RunQuery(store, query));
        attendanceRecords, summaryStats, storeQueries, loading :=
          records, SummaryStats(records), queries, false;
      } else {
        alerts, storeQueries, loading := alerts + [FetchErrorAlert], queries, false;
      }
    }

    /** The PDF content for the current state, generated at `now`. */
    function Document(now: Millis): (d: PdfDocument)
      reads this
      ensures |d.rows| == |attendanceRecords| && d.stats == summaryStats
      ensures d.employee == PdfEmployeeHeading(userNames, selectedUser)
      ensures d.generatedAt == now
    {
      PdfDocument(startDate, endDate, PdfEmployeeHeading(userNames, selectedUser), summaryStats,
                  PdfRows(attendanceRecords, userNames, minutesBetween), now)
    }

    /** `generatePDF` up to its `await`: returns at once while an export is
        in flight; otherwise sets the busy flag and hands the content and the
        file name to the engine. `now` is the current instant and `stamp` that
        instant formatted as yyyy-MM-dd-HHmm. */
    method BeginGeneratePdf(stamp: string, now: Millis) returns (started: bool)
      requires Valid()
      modifies this`generatingPDF, this`pdfRequests
      ensures Valid()
      ensures started == !old(generatingPDF)
      ensures !started ==> unchanged(this)
      ensures started ==>
        generatingPDF && pdfRequests == old(pdfRequests) + [PdfRequest(ExportFilename(selectedUser, userNames, stamp), Document(now))]
    {
      if generatingPDF {
        return false;
      }
      generatingPDF := true;
      var filename := ExportFilename(selectedUser, userNames, stamp);
      pdfRequests := pdfRequests + [PdfRequest(filename, Document(now))];
      started := true;
    }

    /** The rest of `generatePDF` once the engine has finished or failed: an
        alert on failure, and in every case the busy flag cleared. */
    method FinishGeneratePdf(succeeded: bool)
      requires Valid() && generatingPDF
      modifies this`generatingPDF, this`alerts
      ensures Valid()
      ensures !generatingPDF
      ensures alerts == old(alerts) + (if succeeded then [] else [PdfErrorAlert])
    {
      if !succeeded {
        alerts := alerts + [PdfErrorAlert];
      }
      generatingPDF := false;
    }

    /** One `generatePDF` call run to its end with nothing interleaved; the
        engine succeeds or fails as it will. */
    method GeneratePdf(stamp: string, now: Millis)
      requires Valid()
      modifies this`generatingPDF, this`pdfRequests, this`alerts
      ensures Valid()
      ensures old(generatingPDF) ==> unchanged(this)
      ensures !old(generatingPDF) ==> !generatingPDF
      ensures !old(generatingPDF) ==>
        pdfRequests == old(pdfRequests) + [PdfRequest(ExportFilename(selectedUser, userNames, stamp), old(Document(now)))]
        && (alerts == old(alerts) || alerts == old(alerts) + [PdfErrorAlert])
    {
      var started := BeginGeneratePdf(stamp, now);
      if started {
        var succeeded: bool := *;
        FinishGeneratePdf(succeeded);
      }
    }
  }

  /** A second click while the first export is in flight produces no second
      request, and when the first one ends the flag is down again. */
  method OverlappingExports(page: ReportsPage, stamp: string, now: Millis, succeeded: bool)
    requires page.Valid() && !page.generatingPDF
    modifies page
    ensures page.Valid()
    ensures |page.pdfRequests| == |old(page.pdfRequests)| + 1
    ensures !page.generatingPDF
  {
    var first := page.BeginGeneratePdf(stamp, now);
    assert first && page.generatingPDF;
    var second := page.BeginGeneratePdf(stamp, now);
    assert !second;
    page.FinishGeneratePdf(succeeded);
  }
}
