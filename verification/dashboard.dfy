/** The admin dashboard's derived data: the seats banner (against its own
    capacity of 60), the department and year option lists, the filtered
    table and the per-department summary cards. */
module Dashboard {
  import opened Text
  import opened Seqs
  import opened ParticipantsApi

  /** The capacity the dashboard displays against. */
  const DashboardCapacity: int := 60

  /** The value of an option that disables a selector. */
  const All: string := "all"

  // ---------------------------------------------------------------------
  // Seats banner
  // ---------------------------------------------------------------------

  datatype Banner = RegistrationsFull | SeatsLeft(seats: int)

  /** `capacity - participants.length`, which goes negative past 60. */
  function SeatsRemaining(count: nat): (seats: int)
    ensures seats < 0 <==> count > DashboardCapacity
    ensures seats + count == DashboardCapacity
  {
    DashboardCapacity - count
  }

  function BannerFor(count: nat): (b: Banner)
    ensures b == RegistrationsFull <==> count >= DashboardCapacity
    ensures b.SeatsLeft? ==> 0 < b.seats <= DashboardCapacity
    ensures b.SeatsLeft? ==> b.seats + count == DashboardCapacity
  {
    var seats := SeatsRemaining(count);
    if seats <= 0 then RegistrationsFull else SeatsLeft(seats)
  }

  // ---------------------------------------------------------------------
  // Option lists
  // ---------------------------------------------------------------------

  function DepartmentsOf(rows: seq<Row>): seq<string>
  {
    seq(|rows|, i requires 0 <= i < |rows| => rows[i].department)
  }

  function YearsOf(rows: seq<Row>): seq<string>
  {
    seq(|rows|, i requires 0 <= i < |rows| => rows[i].year)
  }

  /** `Array.from(new Set(participants.map(p => p.department)))`. */
  function Departments(rows: seq<Row>): (ds: seq<string>)
    ensures Distinct(ds)
    ensures forall i :: 0 <= i < |rows| ==> rows[i].department in ds
    ensures forall d :: d in ds ==> exists i :: 0 <= i < |rows| && rows[i].department == d
  {
    var ds := Dedup(DepartmentsOf(rows));
    assert forall i :: 0 <= i < |rows| ==> DepartmentsOf(rows)[i] == rows[i].department;
    ds
  }

  /** `Array.from(new Set(participants.map(p => p.year))).sort()`. */
  function Years(rows: seq<Row>): (ys: seq<string>)
    ensures Distinct(ys) && Sorted(ys)
    ensures forall i :: 0 <= i < |rows| ==> rows[i].year in ys
    ensures forall y :: y in ys ==> exists i :: 0 <= i < |rows| && rows[i].year == y
  {
    var ys := SortedDistinct(YearsOf(rows));
    assert forall i :: 0 <= i < |rows| ==> YearsOf(rows)[i] == rows[i].year;
    ys
  }

  // ---------------------------------------------------------------------
  // Filter
  // ---------------------------------------------------------------------

  /** `name.toLowerCase().includes(term.toLowerCase()) ||
      email.toLowerCase().includes(term.toLowerCase())`. */
  predicate MatchesSearch(row: Row, term: string)
  {
    Contains(Lower(row.name), Lower(term)) || Contains(Lower(row.email), Lower(term))
  }

  /** The row passes the department selector, the year selector and the
      search box; "all" disables a selector. */
  predicate Keep(row: Row, dept: string, year: string, term: string)
  {
    && (dept == All || row.department == dept)
    && (year == All || row.year == year)
    && MatchesSearch(row, term)
  }

  /** The rows shown in the table. */
  function Filter(rows: seq<Row>, dept: string, year: string, term: string): (shown: seq<Row>)
    ensures forall i :: 0 <= i < |shown| ==> Keep(shown[i], dept, year, term)
  {
    if |rows| == 0 then []
    else
      var last := rows[|rows| - 1];
      var init := rows[..|rows| - 1];
      assert rows == init + [last];
      Filter(init, dept, year, term) + (if Keep(last, dept, year, term) then [last] else [])
  }

  /** Each kept participant appears in the table as often as in the list,
      and nobody else appears. */
  lemma {:induction false} FilterCounts(rows: seq<Row>, dept: string, year: string, term: string, r: Row)
    ensures multiset(Filter(rows, dept, year, term))[r] == if Keep(r, dept, year, term) then multiset(rows)[r] else 0
  {
    if |rows| > 0 {
      var init := rows[..|rows| - 1];
      var last := rows[|rows| - 1];
      FilterCounts(init, dept, year, term, r);
      FilterSnoc(rows, dept, year, term);
      assert rows == init + [last];
      assert multiset(rows) == multiset(init) + multiset{last};
    }
  }

  lemma FilterSnoc(rows: seq<Row>, dept: string, year: string, term: string)
    requires |rows| > 0
    ensures Filter(rows, dept, year, term)
            == Filter(rows[..|rows| - 1], dept, year, term)
               + (if Keep(rows[|rows| - 1], dept, year, term) then [rows[|rows| - 1]] else [])
  {
  }

  /** The table keeps the participants' order: it is a subsequence. */
  lemma {:induction false} FilterIsSubsequence(rows: seq<Row>, dept: string, year: string, term: string)
    ensures SubsequenceOf(Filter(rows, dept, year, term), rows)
  {
    if |rows| > 0 {
      var init := rows[..|rows| - 1];
      var f := Filter(init, dept, year, term);
      FilterIsSubsequence(init, dept, year, term);
      if Keep(rows[|rows| - 1], dept, year, term) {
        var shown := Filter(rows, dept, year, term);
        assert shown[..|shown| - 1] == f;
      } else {
        assert Filter(rows, dept, year, term) == f;
        SubsequenceDropLast(f, rows);
      }
    }
  }

  /** The empty search term occurs in every name. */
  lemma EmptySearchKeepsAll(row: Row)
    ensures MatchesSearch(row, "")
  {
    assert Lower("") == "";
    assert OccursAt(Lower(row.name), "", 0);
  }

  /** With both selectors on "all" and an empty search, the table is the
      whole list. */
  lemma FilterAllIsIdentity(rows: seq<Row>)
    ensures Filter(rows, All, All, "") == rows
  {
    forall i | 0 <= i < |rows|
      ensures Keep(rows[i], All, All, "")
    {
      EmptySearchKeepsAll(rows[i]);
    }
    FilterKeepsAllThatPass(rows, All, All, "");
  }

  /** When every row passes, nothing is filtered out. */
  lemma {:induction false} FilterKeepsAllThatPass(rows: seq<Row>, dept: string, year: string, term: string)
    requires forall i :: 0 <= i < |rows| ==> Keep(rows[i], dept, year, term)
    ensures Filter(rows, dept, year, term) == rows
  {
    if |rows| > 0 {
      var init := rows[..|rows| - 1];
      var last := rows[|rows| - 1];
      assert Keep(last, dept, year, term);
      assert forall i :: 0 <= i < |init| ==> Keep(init[i], dept, year, term) by {
        assert forall i :: 0 <= i < |init| ==> init[i] == rows[i];
      }
      FilterKeepsAllThatPass(init, dept, year, term);
      FilterSnoc(rows, dept, year, term);
      assert Filter(rows, dept, year, term) == init + [last];
      assert rows == init + [last];
    }
  }

  /** The search ignores case on both sides. */
  lemma SearchIgnoresCase(row: Row, term: string)
    ensures MatchesSearch(row, term) <==> MatchesSearch(row, Upper(term))
  {
    assert Lower(Upper(term)) == Lower(term);
  }

  // ---------------------------------------------------------------------
  // Summary cards
  // ---------------------------------------------------------------------

  /** Number of rows with department `d`. */
  function CountDept(rows: seq<Row>, d: string): nat
  {
    if |rows| == 0 then 0
    else CountDept(rows[..|rows| - 1], d) + (if rows[|rows| - 1].department == d then 1 else 0)
  }

  lemma {:induction false} CountDeptAbsent(rows: seq<Row>, d: string)
    requires d !in DepartmentsOf(rows)
    ensures CountDept(rows, d) == 0
  {
    if |rows| > 0 {
      assert DepartmentsOf(rows) == DepartmentsOf(rows[..|rows| - 1]) + [rows[|rows| - 1].department];
      CountDeptAbsent(rows[..|rows| - 1], d);
    }
  }

  /** `participants.reduce((acc, p) => { acc[p.department] = (acc[p.department] || 0) + 1; ... }, {})`. */
  function Summary(rows: seq<Row>): (m: map<string, nat>)
    ensures forall d :: d in m <==> d in DepartmentsOf(rows)
    ensures forall d :: d in m ==> m[d] == CountDept(rows, d) && m[d] > 0
  {
    if |rows| == 0 then map[]
    else
      var init := rows[..|rows| - 1];
      var d := rows[|rows| - 1].department;
      var acc := Summary(init);
      assert DepartmentsOf(rows) == DepartmentsOf(init) + [d];
      assert forall x :: CountDept(rows, x) == CountDept(init, x) + (if d == x then 1 else 0);
      assert d !in DepartmentsOf(init) ==> CountDept(init, d) == 0 by {
        if d !in DepartmentsOf(init) {
          CountDeptAbsent(init, d);
        }
      }
      acc[d := (if d in acc then acc[d] else 0) + 1]
  }

  /** Sum of the counts of the listed departments. */
  function SumCounts(rows: seq<Row>, ds: seq<string>): nat
  {
    if |ds| == 0 then 0 else CountDept(rows, ds[0]) + SumCounts(rows, ds[1..])
  }

  /** Number of times `x` is listed. */
  function Occurrences(ds: seq<string>, x: string): nat
  {
    if |ds| == 0 then 0 else (if ds[0] == x then 1 else 0) + Occurrences(ds[1..], x)
  }

  lemma {:induction false} OccurrencesOfDistinct(ds: seq<string>, x: string)
    requires Distinct(ds)
    ensures Occurrences(ds, x) == if x in ds then 1 else 0
  {
    if |ds| > 0 {
      OccurrencesOfDistinct(ds[1..], x);
    }
  }

  lemma {:induction false} SumCountsStep(rows: seq<Row>, ds: seq<string>)
    requires |rows| > 0
    ensures SumCounts(rows, ds) == SumCounts(rows[..|rows| - 1], ds) + Occurrences(ds, rows[|rows| - 1].department)
  {
    if |ds| > 0 {
      SumCountsStep(rows, ds[1..]);
    }
  }

  /** Counting over a list of distinct departments that covers every row
      counts every row once. */
  lemma {:induction false} SumCountsCovers(rows: seq<Row>, ds: seq<string>)
    requires Distinct(ds)
    requires forall i :: 0 <= i < |rows| ==> rows[i].department in ds
    ensures SumCounts(rows, ds) == |rows|
  {
    if |rows| > 0 {
      SumCountsCovers(rows[..|rows| - 1], ds);
      SumCountsStep(rows, ds);
      OccurrencesOfDistinct(ds, rows[|rows| - 1].department);
    } else {
      SumCountsOfEmpty(rows, ds);
    }
  }

  lemma {:induction false} SumCountsOfEmpty(rows: seq<Row>, ds: seq<string>)
    requires |rows| == 0
    ensures SumCounts(rows, ds) == 0
  {
    if |ds| > 0 {
      SumCountsOfEmpty(rows, ds[1..]);
    }
  }

  /** The summary cards, one per department in option order, add up to the
      total participant count. */
  lemma SummaryAddsUp(rows: seq<Row>)
    ensures forall d :: d in Summary(rows) <==> d in Departments(rows)
    ensures SumCounts(rows, Departments(rows)) == |rows|
  {
    SumCountsCovers(rows, Departments(rows));
    assert forall i :: 0 <= i < |rows| ==> DepartmentsOf(rows)[i] == rows[i].department;
  }
}
