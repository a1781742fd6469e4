/** `calculateSummaryStats`: the four counts shown above the table and in the PDF. */
module Summary {

  import opened Records

  datatype Stats = Stats(total: nat, present: nat, late: nat, absent: nat)

  /** `records.filter(r => r.status === status).length`. */
  function CountStatus(records: seq<AttendanceRecord>, status: string): (n: nat)
    ensures n <= |records|
    ensures n == 0 <==> forall i :: 0 <= i < |records| ==> records[i].status != status
    ensures n == |records| <==> forall i :: 0 <= i < |records| ==> records[i].status == status
  {
    if records == [] then 0
    else
      var last := records[|records| - 1];
      CountStatus(records[..|records| - 1], status) + (if last.status == status then 1 else 0)
  }

  /** The number of records whose status is none of the three recognised ones. */
  function CountUnrecognized(records: seq<AttendanceRecord>): (n: nat)
    ensures n <= |records|
    ensures n == 0 <==> forall i :: 0 <= i < |records| ==> IsRecognizedStatus(records[i].status)
  {
    if records == [] then 0
    else
      var last := records[|records| - 1];
      CountUnrecognized(records[..|records| - 1]) + (if IsRecognizedStatus(last.status) then 0 else 1)
  }

  /** The total is the number of records, and no count exceeds it (how the
      three add up is CategorySumBound). */
  function SummaryStats(records: seq<AttendanceRecord>): (s: Stats)
    ensures s.total == |records|
    ensures s.present <= s.total && s.late <= s.total && s.absent <= s.total
  {
    Stats(|records|, CountStatus(records, PRESENT), CountStatus(records, LATE), CountStatus(records, ABSENT))
  }

  lemma {:induction false} CountConcat(a: seq<AttendanceRecord>, b: seq<AttendanceRecord>, status: string)
    ensures CountStatus(a + b, status) == CountStatus(a, status) + CountStatus(b, status)
    decreases |b|
  {
    if b == [] {
      assert a + b == a;
    } else {
      assert (a + b)[..|a + b| - 1] == a + b[..|b| - 1];
      CountConcat(a, b[..|b| - 1], status);
    }
  }

  lemma CountSingle(r: AttendanceRecord, status: string)
    ensures CountStatus([r], status) == if r.status == status then 1 else 0
  {
    assert [r][..0] == [];
  }

  /** Taking one record out of a sequence takes it out of the multiset and
      removes its contribution from the count. */
  lemma RemoveAt(b: seq<AttendanceRecord>, j: nat, status: string)
    requires j < |b|
    ensures multiset(b[..j] + b[j + 1..]) == multiset(b) - multiset{b[j]}
    ensures CountStatus(b, status) ==
      CountStatus(b[..j] + b[j + 1..], status) + (if b[j].status == status then 1 else 0)
  {
    assert b == b[..j] + [b[j]] + b[j + 1..];
    CountConcat(b[..j] + [b[j]], b[j + 1..], status);
    CountConcat(b[..j], [b[j]], status);
    CountConcat(b[..j], b[j + 1..], status);
    CountSingle(b[j], status);
  }

  /** A count depends only on which records there are, not on their order:
      sorting the fetched records leaves every count unchanged. */
  lemma {:induction false} CountPermutation(a: seq<AttendanceRecord>, b: seq<AttendanceRecord>, status: string)
    requires multiset(a) == multiset(b)
    ensures CountStatus(a, status) == CountStatus(b, status)
    decreases |a|
  {
    if a != [] {
      var x := a[|a| - 1];
      var a' := a[..|a| - 1];
      assert a == a' + [x];
      assert x in multiset(b);
      var j :| 0 <= j < |b| && b[j] == x;
      RemoveAt(b, j, status);
      RemoveAt(a, |a| - 1, status);
      assert a[..|a| - 1] + a[|a|..] == a';
      CountPermutation(a', b[..j] + b[j + 1..], status);
    } else {
      assert b == [];
    }
  }

  /** The summary is the same for any ordering of the same records. */
  lemma StatsPermutation(a: seq<AttendanceRecord>, b: seq<AttendanceRecord>)
    requires multiset(a) == multiset(b)
    ensures SummaryStats(a) == SummaryStats(b)
  {
    assert |a| == |multiset(a)| == |multiset(b)| == |b|;
    CountPermutation(a, b, PRESENT);
    CountPermutation(a, b, LATE);
    CountPermutation(a, b, ABSENT);
  }

  /** Every record is counted as present, late, absent, or unrecognised, exactly once. */
  lemma {:induction false} CountsPartition(records: seq<AttendanceRecord>)
    ensures CountStatus(records, PRESENT) + CountStatus(records, LATE) + CountStatus(records, ABSENT)
      + CountUnrecognized(records) == |records|
    decreases |records|
  {
    if records != [] {
      var init := records[..|records| - 1];
      var last := records[|records| - 1];
      CountsPartition(init);
      assert CountUnrecognized(records) == CountUnrecognized(init) + (if IsRecognizedStatus(last.status) then 0 else 1);
      assert CountStatus(records, PRESENT) == CountStatus(init, PRESENT) + (if last.status == PRESENT then 1 else 0);
      assert CountStatus(records, LATE) == CountStatus(init, LATE) + (if last.status == LATE then 1 else 0);
      assert CountStatus(records, ABSENT) == CountStatus(init, ABSENT) + (if last.status == ABSENT then 1 else 0);
    }
  }

  /** present + late + absent never exceeds total, and equals it exactly when
      every record carries one of the three recognised statuses. */
  lemma CategorySumBound(records: seq<AttendanceRecord>)
    ensures var s := SummaryStats(records); s.present + s.late + s.absent <= s.total
    ensures var s := SummaryStats(records);
      s.present + s.late + s.absent == s.total <==>
      forall i :: 0 <= i < |records| ==> IsRecognizedStatus(records[i].status)
  {
    CountsPartition(records);
  }
}
