/** The record selection of `fetchAttendanceRecords`: the date window, the
    constraint list handed to the store, the store's filtering of the
    attendance collection, and the descending sort that follows. */
module Selection {

  import opened Records

  const MillisPerDay: int := 86400000

  /** `setHours(0, 0, 0, 0)`: the first millisecond of the day holding `t`. */
  function StartOfDay(t: Millis): (s: Millis)
    ensures s % MillisPerDay == 0
    ensures s <= t < s + MillisPerDay
  {
    t - t % MillisPerDay
  }

  /** `setHours(23, 59, 59, 999)`: the last millisecond of the day holding `t`. */
  function EndOfDay(t: Millis): (e: Millis)
    ensures e % MillisPerDay == MillisPerDay - 1
    ensures e - MillisPerDay < t <= e
  {
    StartOfDay(t) + MillisPerDay - 1
  }

  /** An instant is at or after the start of `t`'s day exactly when it falls
      on that day or a later one. */
  lemma StartOfDayBound(t: Millis, u: Millis)
    ensures StartOfDay(t) <= u <==> t / MillisPerDay <= u / MillisPerDay
  {
    var d, e := t / MillisPerDay, u / MillisPerDay;
    assert StartOfDay(t) == d * MillisPerDay;
    assert e * MillisPerDay <= u < (e + 1) * MillisPerDay;
    if d <= e {
      assert d * MillisPerDay <= e * MillisPerDay;
    }
  }

  /** An instant is at or before the end of `t`'s day exactly when it falls
      on that day or an earlier one. */
  lemma EndOfDayBound(t: Millis, u: Millis)
    ensures u <= EndOfDay(t) <==> u / MillisPerDay <= t / MillisPerDay
  {
    var d, e := t / MillisPerDay, u / MillisPerDay;
    assert EndOfDay(t) == (d + 1) * MillisPerDay - 1;
    assert e * MillisPerDay <= u < (e + 1) * MillisPerDay;
    if e <= d {
      assert (e + 1) * MillisPerDay <= (d + 1) * MillisPerDay;
    }
  }

  /** An instant lies between the start and the end of `t`'s day exactly when
      it falls on the same day. */
  lemma SameDayWindow(t: Millis, u: Millis)
    ensures StartOfDay(t) <= u <= EndOfDay(t) <==> u / MillisPerDay == t / MillisPerDay
  {
    var d := t / MillisPerDay;
    assert StartOfDay(t) == d * MillisPerDay;
    if StartOfDay(t) <= u <= EndOfDay(t) {
      assert d * MillisPerDay <= u < (d + 1) * MillisPerDay;
    }
  }

  /** The fields and operators of the `where` clauses the page builds. */
  datatype Field = DateField | UserIdField
  datatype Op = AtLeast | AtMost | EqualTo
  datatype Value = TimeValue(at: Millis) | TextValue(text: string)
  datatype Constraint = Where(field: Field, op: Op, value: Value)

  /** Whether a record passes one `where` clause. A clause comparing a field
      with a value of another kind is never built; it matches nothing here. */
  function Satisfies(r: AttendanceRecord, c: Constraint): (b: bool)
    ensures b && c.field == UserIdField ==> c == Where(UserIdField, EqualTo, TextValue(r.userId))
    ensures b && c.field == DateField ==> c.value.TimeValue?
    ensures b && c == Where(DateField, AtLeast, c.value) ==> c.value.at <= r.date
    ensures b && c == Where(DateField, AtMost, c.value) ==> r.date <= c.value.at
  {
    match (c.field, c.value)
    case (DateField, TimeValue(t)) =>
      (c.op == AtLeast && r.date >= t) || (c.op == AtMost && r.date <= t) || (c.op == EqualTo && r.date == t)
    case (UserIdField, TextValue(u)) => c.op == EqualTo && r.userId == u
    case _ => false
  }

  /** A query is the conjunction of its clauses. */
  predicate MatchesAll(r: AttendanceRecord, cs: seq<Constraint>)
  {
    forall i :: 0 <= i < |cs| ==> Satisfies(r, cs[i])
  }

  /** What the page asks for: the date falls in the window from the start of
      the start date's day to the end of the end date's day, both inclusive,
      and, unless every employee is selected, the record is the selected
      employee's. */
  function Selected(r: AttendanceRecord, selectedUser: string, startDate: Millis, endDate: Millis): (b: bool)
    ensures b <==>
      && startDate / MillisPerDay <= r.date / MillisPerDay <= endDate / MillisPerDay
      && (selectedUser != AllUsers ==> r.userId == selectedUser)
  {
    StartOfDayBound(startDate, r.date);
    EndOfDayBound(endDate, r.date);
    && StartOfDay(startDate) <= r.date <= EndOfDay(endDate)
    && (selectedUser != AllUsers ==> r.userId == selectedUser)
  }

  predicate HasUserClause(cs: seq<Constraint>)
  {
    exists i :: 0 <= i < |cs| && cs[i].field == UserIdField
  }

  /** `cs` asks the store for exactly the selected records, and filters on
      the user id exactly when one employee is selected. */
  ghost predicate QueryFor(cs: seq<Constraint>, selectedUser: string, startDate: Millis, endDate: Millis)
  {
    && (forall r :: MatchesAll(r, cs) <==> Selected(r, selectedUser, startDate, endDate))
    && (HasUserClause(cs) <==> selectedUser != AllUsers)
  }

  /** `records` holds each selected record of `store` as often as the store
      does, and nothing else. */
  ghost predicate SelectionOf(records: seq<AttendanceRecord>, store: seq<AttendanceRecord>,
                        selectedUser: string, startDate: Millis, endDate: Millis)
  {
    forall r :: multiset(records)[r] == if Selected(r, selectedUser, startDate, endDate) then multiset(store)[r] else 0
  }

  /** The `queryConstraints` list: two date bounds, with an equality on the
      user id put in front when one employee is selected. */
  method BuildQueryConstraints(selectedUser: string, startDate: Millis, endDate: Millis)
    returns (cs: seq<Constraint>)
    ensures forall r :: MatchesAll(r, cs) <==> Selected(r, selectedUser, startDate, endDate)
    ensures HasUserClause(cs) <==> selectedUser != AllUsers
    ensures forall i :: 0 <= i < |cs| && cs[i].field == UserIdField ==>
      cs[i] == Where(UserIdField, EqualTo, TextValue(selectedUser))
  {
    var startTimestamp := StartOfDay(startDate);
    var endTimestamp := EndOfDay(endDate);
    cs := [Where(DateField, AtLeast, TimeValue(startTimestamp)), Where(DateField, AtMost, TimeValue(endTimestamp))];
    if selectedUser != AllUsers {
      cs := [Where(UserIdField, EqualTo, TextValue(selectedUser))] + cs;
    }
    forall r ensures MatchesAll(r, cs) <==> Selected(r, selectedUser, startDate, endDate) {
      if selectedUser != AllUsers {
        assert MatchesAll(r, cs) <==> Satisfies(r, cs[0]) && Satisfies(r, cs[1]) && Satisfies(r, cs[2]);
      } else {
        assert MatchesAll(r, cs) <==> Satisfies(r, cs[0]) && Satisfies(r, cs[1]);
      }
    }
    if selectedUser != AllUsers {
      assert cs[0].field == UserIdField;
    }
  }

  /** The store's answer to a query over the attendance collection: the
      documents matching every clause. The store's own result order is not
      relied on, since the page sorts afterwards. */
  function RunQuery(store: seq<AttendanceRecord>, cs: seq<Constraint>): (rs: seq<AttendanceRecord>)
    ensures forall r :: r in rs <==> r in store && MatchesAll(r, cs)
    ensures forall r :: multiset(rs)[r] == if MatchesAll(r, cs) then multiset(store)[r] else 0
  {
    if store == [] then []
    else
      var init := store[..|store| - 1];
      var last := store[|store| - 1];
      assert store == init + [last];
      RunQuery(init, cs) + (if MatchesAll(last, cs) then [last] else [])
  }

  /** The sort key of `(a, b) => b.date.seconds - a.date.seconds`. */
  function SortKey(r: AttendanceRecord): (k: int)
    ensures k * MillisPerSecond <= r.date < (k + 1) * MillisPerSecond
  {
    Seconds(r.date)
  }

  predicate SortedDescending(s: seq<AttendanceRecord>)
  {
    forall i, j :: 0 <= i < j < |s| ==> SortKey(s[j]) <= SortKey(s[i])
  }

  /** Exchanges two neighbouring elements. */
  method SwapDown(a: array<AttendanceRecord>, j: nat)
    requires 0 < j < a.Length
    modifies a
    ensures a[..] == old(a[..])[j - 1 := old(a[j])][j := old(a[j - 1])]
    ensures multiset(a[..]) == multiset(old(a[..]))
  {
    a[j - 1], a[j] := a[j], a[j - 1];
  }

  /** The first `i + 1` elements are in order, except that the one at `j`
      may still have a larger key than some before it. */
  ghost predicate SortedBut(s: seq<AttendanceRecord>, i: nat, j: nat)
    requires j <= i < |s|
  {
    && (forall k, l :: 0 <= k < l <= i && k != j && l != j ==> SortKey(s[l]) <= SortKey(s[k]))
    && (forall k, l :: 0 <= k < j < l <= i ==> SortKey(s[l]) <= SortKey(s[k]))
    && (forall l :: j < l <= i ==> SortKey(s[l]) <= SortKey(s[j]))
  }

  lemma SortedButStart(s: seq<AttendanceRecord>, i: nat)
    requires i < |s| && SortedDescending(s[..i])
    ensures SortedBut(s, i, i)
  {
    assert forall k :: 0 <= k < i ==> s[..i][k] == s[k];
  }

  /** Swapping the out-of-order element with its smaller-keyed predecessor
      moves the exception one place left. */
  lemma SortedButStep(s: seq<AttendanceRecord>, i: nat, j: nat)
    requires 0 < j <= i < |s| && SortedBut(s, i, j)
    requires SortKey(s[j - 1]) < SortKey(s[j])
    ensures SortedBut(s[j - 1 := s[j]][j := s[j - 1]], i, j - 1)
  {
  }

  lemma SortedButDone(s: seq<AttendanceRecord>, i: nat, j: nat)
    requires j <= i < |s| && SortedBut(s, i, j)
    requires j == 0 || SortKey(s[j]) <= SortKey(s[j - 1])
    ensures SortedDescending(s[..i + 1])
  {
    assert forall k :: 0 <= k <= i ==> s[..i + 1][k] == s[k];
  }

  /** One insertion step: moves `a[i]` left past every element with a
      smaller key, so that the first `i + 1` elements are in order. */
  method InsertAt(a: array<AttendanceRecord>, i: nat)
    requires i < a.Length
    requires SortedDescending(a[..i])
    modifies a
    ensures SortedDescending(a[..i + 1])
    ensures multiset(a[..]) == multiset(old(a[..]))
    ensures forall k :: i < k < a.Length ==> a[k] == old(a[k])
  {
    SortedButStart(a[..], i);
    var j := i;
    while j > 0 && SortKey(a[j - 1]) < SortKey(a[j])
      invariant 0 <= j <= i
      invariant SortedBut(a[..], i, j)
      invariant multiset(a[..]) == multiset(old(a[..]))
      invariant forall k :: i < k < a.Length ==> a[k] == old(a[k])
    {
      SortedButStep(a[..], i, j);
      SwapDown(a, j);
      j := j - 1;
    }
    SortedButDone(a[..], i, j);
  }

  /** `records.sort(...)`: reorders the array in place, most recent second first. */
  method SortByDateDescending(a: array<AttendanceRecord>)
    modifies a
    ensures SortedDescending(a[..])
    ensures multiset(a[..]) == multiset(old(a[..]))
  {
    var i := 0;
    while i < a.Length
      invariant 0 <= i <= a.Length
      invariant SortedDescending(a[..i])
      invariant multiset(a[..]) == multiset(old(a[..]))
    {
      InsertAt(a, i);
      i := i + 1;
    }
    assert a[..] == a[..a.Length];
  }

  /** The fetch without its state: query the store with the constraints the
      filter gives, then sort what comes back. */
  method SelectRecords(store: seq<AttendanceRecord>, selectedUser: string, startDate: Millis, endDate: Millis)
    returns (records: seq<AttendanceRecord>, cs: seq<Constraint>)
    ensures QueryFor(cs, selectedUser, startDate, endDate)
    ensures SortedDescending(records)
    ensures multiset(records) == multiset(RunQuery(store, cs))
    ensures SelectionOf(records, store, selectedUser, startDate, endDate)
  {
    cs := BuildQueryConstraints(selectedUser, startDate, endDate);
    var fetched := RunQuery(store, cs);
    var a := new AttendanceRecord[|fetched|](i requires 0 <= i < |fetched| => fetched[i]);
    assert a[..] == fetched;
    SortByDateDescending(a);
    records := a[..];
  }
}
