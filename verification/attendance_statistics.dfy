/** The attendance matrix of the teacher view
    (src/components/teacher/AttendanceStatistics.tsx): the column dates,
    the cell symbols, the per-student P/A/L counts and the three rates.

    Dates are `YYYY-MM-DD` strings; for those, newest first by time is
    descending string order, which is what `StrictlyDesc` states. */
module AttendanceStatistics {
  import opened Base
  import opened Text
  import opened Types

  // ---------------------------------------------------------------------
  // column dates

  /** Newest first, with no date repeated. */
  predicate StrictlyDesc(s: seq<string>) {
    forall i :: 0 <= i < |s| - 1 ==> LexLess(s[i + 1], s[i])
  }

  /** In a strictly descending list every later date is older. */
  lemma {:induction false} DescOrder(s: seq<string>, i: nat, j: nat)
    requires StrictlyDesc(s) && i < j < |s|
    ensures LexLess(s[j], s[i])
    decreases j - i
  {
    if j > i + 1 {
      DescOrder(s, i + 1, j);
      LexTransitive(s[j], s[i + 1], s[i]);
    }
  }

  /** A strictly descending list repeats no date. */
  lemma DescDistinct(s: seq<string>)
    requires StrictlyDesc(s)
    ensures forall i, j :: 0 <= i < j < |s| ==> s[i] != s[j]
  {
    forall i, j | 0 <= i < j < |s|
      ensures s[i] != s[j]
    {
      DescOrder(s, i, j);
      LexIrreflexive(s[i]);
    }
  }

  /** The head of a newest-first list is its newest date. */
  lemma HeadIsNewest(s: seq<string>, x: string)
    requires StrictlyDesc(s) && x in s
    ensures x == s[0] || LexLess(x, s[0])
  {
    var k :| 0 <= k < |s| && s[k] == x;
    if k > 0 {
      DescOrder(s, 0, k);
    }
  }

  /** Two newest-first lists of the same dates are the same list: the
      column order depends only on which dates occur. */
  lemma {:induction false} DescUnique(a: seq<string>, b: seq<string>)
    requires StrictlyDesc(a) && StrictlyDesc(b)
    requires forall x :: x in a <==> x in b
    ensures a == b
    decreases |a|
  {
    assert |a| > 0 ==> a[0] in b;
    assert |b| > 0 ==> b[0] in a;
    if |a| == 0 {
      return;
    }
    HeadIsNewest(b, a[0]);
    HeadIsNewest(a, b[0]);
    if LexLess(a[0], b[0]) {
      LexAsymmetric(a[0], b[0]);
    }
    assert a[0] == b[0];
    DescDistinct(a);
    DescDistinct(b);
    forall x | x in a[1..]
      ensures x in b[1..]
    {
      var k :| 1 <= k < |a| && a[k] == x;
      assert x in b && x != b[0];
    }
    forall x | x in b[1..]
      ensures x in a[1..]
    {
      var k :| 1 <= k < |b| && b[k] == x;
      assert x in a && x != a[0];
    }
    assert StrictlyDesc(a[1..]);
    assert StrictlyDesc(b[1..]);
    DescUnique(a[1..], b[1..]);
    assert a == [a[0]] + a[1..] && b == [b[0]] + b[1..];
  }

  /** Inserts a date into a newest-first list unless it is already there. */
  function InsertDesc(d: string, s: seq<string>): (r: seq<string>)
    requires StrictlyDesc(s)
    ensures StrictlyDesc(r)
    ensures forall x :: x in r <==> x == d || x in s
    ensures |r| > 0 && (r[0] == d || (|s| > 0 && r[0] == s[0]))
  {
    if |s| == 0 then [d]
    else if d == s[0] then s
    else if LexLess(s[0], d) then [d] + s
    else
      LexTotal(d, s[0]);
      var rest := InsertDesc(d, s[1..]);
      var r := [s[0]] + rest;
      assert forall i :: 0 < i < |r| - 1 ==> r[i + 1] == rest[i] && r[i] == rest[i - 1];
      r
  }

  /** The date of every record, in record order. */
  function Dates(recs: seq<AttendanceRecord>): seq<string> {
    seq(|recs|, i requires 0 <= i < |recs| => recs[i].date)
  }

  /** `getUniqueDates`: every record date exactly once, newest first, and
      no date that is not a record's. */
  function UniqueDates(recs: seq<AttendanceRecord>): (r: seq<string>)
    ensures StrictlyDesc(r)
    ensures forall d :: d in r <==> d in Dates(recs)
  {
    if |recs| == 0 then []
    else
      var rest := UniqueDates(recs[1..]);
      assert Dates(recs) == [recs[0].date] + Dates(recs[1..]);
      InsertDesc(recs[0].date, rest)
  }

  /** The column dates are exactly the record dates sorted newest first
      without repeats: any such list equals them. */
  lemma UniqueDatesCharacterized(recs: seq<AttendanceRecord>, cols: seq<string>)
    requires StrictlyDesc(cols)
    requires forall d :: d in cols <==> d in Dates(recs)
    ensures UniqueDates(recs) == cols
  {
    DescUnique(UniqueDates(recs), cols);
  }

  // ---------------------------------------------------------------------
  // cells and counts

  /** The cell symbol of a status. */
  function StatusSymbol(s: AttendanceStatus): (r: string)
    ensures |r| == 1 && r != "-"
    ensures r == "P" <==> s == Present
    ensures r == "A" <==> s == Absent
    ensures r == "L" <==> s == Late
  {
    match s
    case Present => "P"
    case Absent => "A"
    case Late => "L"
  }

  /** `getStatusForStudentOnDate`: the symbol of the first record of this
      student on this date, or "-" when there is none. */
  function StatusForStudentOnDate(recs: seq<AttendanceRecord>, sid: string, date: string): (r: string)
    ensures r == "-" <==> forall i :: 0 <= i < |recs| ==> recs[i].studentId != sid || recs[i].date != date
    ensures r != "-" ==> exists k :: (
      && 0 <= k < |recs| && recs[k].studentId == sid && recs[k].date == date
      && r == StatusSymbol(recs[k].status)
      && forall j :: 0 <= j < k ==> recs[j].studentId != sid || recs[j].date != date)
  {
    match FindIndex(recs, (a: AttendanceRecord) => a.studentId == sid && a.date == date)
    case None => "-"
    case Some(k) => StatusSymbol(recs[k].status)
  }

  /** The records of one student with one status (the P, A or L column). */
  function StatusRecords(recs: seq<AttendanceRecord>, sid: string, s: AttendanceStatus): (r: seq<AttendanceRecord>)
    ensures IsSubseq(r, recs)
    ensures forall a :: a in r <==> a in recs && a.studentId == sid && a.status == s
    ensures forall a :: multiset(r)[a] == if a.studentId == sid && a.status == s then multiset(recs)[a] else 0
  {
    Filter(recs, (a: AttendanceRecord) => a.studentId == sid && a.status == s)
  }

  /** All records of one student. */
  function StudentRecords(recs: seq<AttendanceRecord>, sid: string): (r: seq<AttendanceRecord>)
    ensures IsSubseq(r, recs)
    ensures forall a :: a in r <==> a in recs && a.studentId == sid
    ensures forall a :: multiset(r)[a] == if a.studentId == sid then multiset(recs)[a] else 0
  {
    Filter(recs, (a: AttendanceRecord) => a.studentId == sid)
  }

  /** The P, A and L columns of a student add up to that student's number of records. */
  lemma StatusCountsSum(recs: seq<AttendanceRecord>, sid: string)
    ensures |StatusRecords(recs, sid, Present)| + |StatusRecords(recs, sid, Absent)| + |StatusRecords(recs, sid, Late)|
         == |StudentRecords(recs, sid)|
  {
    var p := multiset(StatusRecords(recs, sid, Present));
    var a := multiset(StatusRecords(recs, sid, Absent));
    var l := multiset(StatusRecords(recs, sid, Late));
    var all := multiset(StudentRecords(recs, sid));
    assert p + a + l == all;
  }

  /** A record with a status other than "-" counts towards its column. */
  lemma CellCounted(recs: seq<AttendanceRecord>, sid: string, date: string)
    ensures var c := StatusForStudentOnDate(recs, sid, date);
            (c == "P" ==> |StatusRecords(recs, sid, Present)| > 0)
            && (c == "A" ==> |StatusRecords(recs, sid, Absent)| > 0)
            && (c == "L" ==> |StatusRecords(recs, sid, Late)| > 0)
  {
    var c := StatusForStudentOnDate(recs, sid, date);
    if c != "-" {
      var k :| 0 <= k < |recs| && recs[k].studentId == sid && recs[k].date == date && c == StatusSymbol(recs[k].status);
      assert recs[k] in StatusRecords(recs, sid, recs[k].status);
    }
  }

  // ---------------------------------------------------------------------
  // rates

  /** A rate card: `part / total * 100`, or 0 when `total` is 0 (the number
      before `toFixed(1)` rounds it). */
  function RatePercent(part: nat, total: nat): (r: real)
    ensures total == 0 ==> r == 0.0
    ensures total > 0 ==> r * total as real == part as real * 100.0
    ensures part <= total ==> 0.0 <= r <= 100.0
  {
    if total == 0 then 0.0 else part as real / total as real * 100.0
  }

  /** When every record is present, absent or late, the three rates add up to 100. */
  lemma RatesSum(stats: AttendanceStats)
    requires stats.total > 0 && stats.present + stats.absent + stats.late == stats.total
    ensures RatePercent(stats.present, stats.total) + RatePercent(stats.absent, stats.total)
          + RatePercent(stats.late, stats.total) == 100.0
  {
    var t := stats.total as real;
    var sum := RatePercent(stats.present, stats.total) + RatePercent(stats.absent, stats.total)
             + RatePercent(stats.late, stats.total);
    assert sum * t == (stats.present + stats.absent + stats.late) as real * 100.0;
  }
}
