/**
 * The row half of the upload check (frontend/src/pages/Submit.jsx): the
 * remap of every data row onto the template columns, the per-row problems,
 * the numbered row issues, the duplicate-ID detection and the preview.
 *
 * A data row is the map from header text to cell that the spreadsheet
 * reader produces.  A cell is classified by what `Number(cell)` gives,
 * except that the empty cell is kept apart, because the page tests it with
 * `=== ""` while `Number("")` is 0.
 */
module UploadRows {
  import opened Wrappers
  import opened UploadSchema

  /** The value of `Number(v)` for a cell, classified. */
  datatype Num =
    | Whole(n: int)                 // a finite integer
    | Fraction(negative: bool)      // a finite non-integer
    | NotFinite                     // NaN or an infinity

  /**
   * A cell as the page reads it: the empty string, a key the row does not
   * have (`undefined`), or anything else through its number.
   */
  datatype Cell = Blank | Undefined | Filled(num: Num)

  /** A data row (header text to cell), and also a remapped record. */
  type Row = map<string, Cell>

  /** `r[key]` */
  function Lookup(r: Row, key: string): Cell {
    if key in r then r[key] else Undefined
  }

  /** `Number(cell)`: `Number("")` is 0 and `Number(undefined)` is NaN. */
  function NumberOf(c: Cell): Num {
    match c
    case Blank => Whole(0)
    case Undefined => NotFinite
    case Filled(n) => n
  }

  // ----- remap -----

  /** The value the remap gives column `col`: the cell under the first matching header, else "". */
  function MatchedCell(headers: seq<string>, r: Row, col: string): Cell {
    var i := IndexOf(NormAll(headers), Norm(col));
    if i >= 0 then Lookup(r, headers[i]) else Blank
  }

  /** The record the remap builds from one data row. */
  function Remapped(required: seq<string>, headers: seq<string>, r: Row): (rec: Row)
    ensures rec.Keys == set c | c in required
  {
    map c | c in required :: MatchedCell(headers, r, c)
  }

  /** One step of `jsonRows.map`: fills a fresh record column by column. */
  method RemapRow(required: seq<string>, headers: seq<string>, r: Row) returns (obj: Row)
    ensures obj == Remapped(required, headers, r)
  {
    var incomingNorm := NormAll(headers);
    obj := map[];
    for idx := 0 to |required|
      invariant obj == Remapped(required[..idx], headers, r)
    {
      var col := required[idx];
      var i := IndexOf(incomingNorm, Norm(col));
      var cell := if i >= 0 then Lookup(r, headers[i]) else Blank;
      assert cell == MatchedCell(headers, r, col);
      RemappedSnoc(required[..idx], col, headers, r);
      obj := obj[col := cell];
      assert required[..idx + 1] == required[..idx] + [col];
    }
    assert required[..|required|] == required;
  }

  /** Filling one more column adds its matched cell to the record. */
  lemma RemappedSnoc(cols: seq<string>, col: string, headers: seq<string>, r: Row)
    ensures Remapped(cols + [col], headers, r) == Remapped(cols, headers, r)[col := MatchedCell(headers, r, col)]
  {
    var a, b := Remapped(cols + [col], headers, r), Remapped(cols, headers, r)[col := MatchedCell(headers, r, col)];
    assert forall c :: c in cols + [col] <==> c in cols || c == col;
    assert a.Keys == b.Keys;
  }

  /** `jsonRows.map(...)`: one record per data row, in order. */
  method RemapRows(required: seq<string>, headers: seq<string>, rows: seq<Row>) returns (recs: seq<Row>)
    ensures |recs| == |rows|
    ensures forall k :: 0 <= k < |rows| ==> recs[k] == Remapped(required, headers, rows[k])
  {
    recs := [];
    for k := 0 to |rows|
      invariant |recs| == k
      invariant forall j :: 0 <= j < k ==> recs[j] == Remapped(required, headers, rows[j])
    {
      var rec := RemapRow(required, headers, rows[k]);
      recs := recs + [rec];
    }
  }

  /** A column takes its value from the first header that normalises like it. */
  lemma RemapTakesFirstMatch(required: seq<string>, headers: seq<string>, r: Row, col: string, j: nat)
    requires col in required && j < |headers| && Norm(headers[j]) == Norm(col)
    requires forall k :: 0 <= k < j ==> Norm(headers[k]) != Norm(col)
    ensures Remapped(required, headers, r)[col] == Lookup(r, headers[j])
  {
    var n := NormAll(headers);
    assert n[j] == Norm(col);
    var i := IndexOf(n, Norm(col));
    assert n[i] == Norm(headers[i]);
    assert i >= j;
  }

  /** A column that no header normalises like is "". */
  lemma RemapUnmatchedIsBlank(required: seq<string>, headers: seq<string>, r: Row, col: string)
    requires col in required
    requires forall k :: 0 <= k < |headers| ==> Norm(headers[k]) != Norm(col)
    ensures Remapped(required, headers, r)[col] == Blank
  {
    var n := NormAll(headers);
    assert forall k :: 0 <= k < |n| ==> n[k] == Norm(headers[k]);
  }

  /** A column reported missing is "" in every record. */
  lemma MissingColumnIsBlank(required: seq<string>, headers: seq<string>, r: Row, col: string)
    requires DistinctNorms(required)
    requires col in Missing(required, NormAll(headers))
    ensures Remapped(required, headers, r)[col] == Blank
  {
    MissingExact(required, NormAll(headers));
  }

  // ----- row problems -----

  /** The four checks of one row, in the order the page runs them. */
  datatype Problem = IdEmpty | YieldEmpty | IdNotNonNegativeInteger | YieldNotNonNegative

  /** The text the page shows for a problem. */
  function Message(p: Problem): string {
    match p
    case IdEmpty => "TestObjectID is empty"
    case YieldEmpty => "CalculatedMilkYield (kg) is empty"
    case IdNotNonNegativeInteger => "TestObjectID must be a non-negative integer"
    case YieldNotNonNegative => "CalculatedMilkYield (kg) must be a number \U{2265} 0"
  }

  /** Position of a problem in the fixed order. */
  function Rank(p: Problem): nat {
    match p
    case IdEmpty => 0
    case YieldEmpty => 1
    case IdNotNonNegativeInteger => 2
    case YieldNotNonNegative => 3
  }

  /** `Number.isFinite(x) && Number.isInteger(x) && x >= 0` */
  predicate IsNonNegativeInteger(x: Num) {
    x.Whole? && x.n >= 0
  }

  /** `Number.isFinite(y) && y >= 0` */
  predicate IsFiniteNonNegative(y: Num) {
    (y.Whole? && y.n >= 0) || (y.Fraction? && !y.negative)
  }

  /** The problems of one record, every check run, in the fixed order. */
  function Problems(rec: Row): (ps: seq<Problem>)
    ensures forall i, j :: 0 <= i < j < |ps| ==> Rank(ps[i]) < Rank(ps[j])
  {
    var id, y := Lookup(rec, IdColumn), Lookup(rec, YieldColumn);
    (if id == Blank then [IdEmpty] else [])
    + (if y == Blank then [YieldEmpty] else [])
    + (if !IsNonNegativeInteger(NumberOf(id)) then [IdNotNonNegativeInteger] else [])
    + (if !IsFiniteNonNegative(NumberOf(y)) then [YieldNotNonNegative] else [])
  }

  /** A record passes every check: an integer ID of at least 0 and a finite yield of at least 0. */
  predicate IsValidRecord(rec: Row) {
    && Lookup(rec, IdColumn).Filled? && IsNonNegativeInteger(Lookup(rec, IdColumn).num)
    && Lookup(rec, YieldColumn).Filled? && IsFiniteNonNegative(Lookup(rec, YieldColumn).num)
  }

  /** A record has no problem exactly when it is valid. */
  lemma NoProblemsIffValid(rec: Row)
    ensures Problems(rec) == [] <==> IsValidRecord(rec)
  {
    var id, y := Lookup(rec, IdColumn), Lookup(rec, YieldColumn);
    if Problems(rec) == [] {
      assert id != Blank && y != Blank;
      assert IsNonNegativeInteger(NumberOf(id)) && IsFiniteNonNegative(NumberOf(y));
    }
  }

  /**
   * An empty ID is not also reported as a non-integer, since `Number("")`
   * is 0: each column has at most one problem.
   */
  lemma OneProblemPerColumn(rec: Row)
    ensures !(IdEmpty in Problems(rec) && IdNotNonNegativeInteger in Problems(rec))
    ensures !(YieldEmpty in Problems(rec) && YieldNotNonNegative in Problems(rec))
    ensures |Problems(rec)| <= 2
  {
  }

  /** The four messages are pairwise different. */
  lemma MessagesDistinct(p: Problem, q: Problem)
    ensures Message(p) == Message(q) <==> p == q
  {
    if p != q {
      assert |Message(p)| != |Message(q)|;
    }
  }

  // ----- row issues -----

  /** `{ row: rowIdx + 2, problems }` */
  datatype Issue = Issue(row: int, problems: seq<Problem>)

  /** The problem list of every record, in order. */
  function ProblemLists(recs: seq<Row>): (pss: seq<seq<Problem>>)
    ensures |pss| == |recs|
  {
    seq(|recs|, k requires 0 <= k < |recs| => Problems(recs[k]))
  }

  /**
   * The issues of rows with problem lists `pss`: one per non-empty list,
   * numbered by its spreadsheet row (the first data row is row 2), in
   * ascending order.
   */
  function IssuesOf(pss: seq<seq<Problem>>): (issues: seq<Issue>)
    ensures |issues| <= |pss|
    ensures forall j :: 0 <= j < |issues| ==>
              2 <= issues[j].row < |pss| + 2
              && issues[j].problems == pss[issues[j].row - 2] != []
    ensures forall i, j :: 0 <= i < j < |issues| ==> issues[i].row < issues[j].row
  {
    if pss == [] then []
    else
      var k := |pss| - 1;
      var prefix := pss[..k];
      assert forall i :: 0 <= i < k ==> prefix[i] == pss[i];
      IssuesOf(prefix) + (if pss[k] != [] then [Issue(k + 2, pss[k])] else [])
  }

  /** The issues of all rows are those of all but the last, then the last row's if it has problems. */
  lemma IssuesOfSnoc(pss: seq<seq<Problem>>)
    requires pss != []
    ensures var last := |pss| - 1;
            IssuesOf(pss) == IssuesOf(pss[..last]) + if pss[last] != [] then [Issue(last + 2, pss[last])] else []
  {
  }

  /** Every row with a problem has its issue. */
  lemma EveryProblemReported(pss: seq<seq<Problem>>, k: nat)
    requires k < |pss| && pss[k] != []
    ensures exists j :: 0 <= j < |IssuesOf(pss)| && IssuesOf(pss)[j].row == k + 2
  {
    var j := IssueOfRow(pss, k);
  }

  /** The position of row `k`'s issue among the issues. */
  lemma {:induction false} IssueOfRow(pss: seq<seq<Problem>>, k: nat) returns (j: nat)
    requires k < |pss| && pss[k] != []
    ensures j < |IssuesOf(pss)| && IssuesOf(pss)[j].row == k + 2
  {
    var last := |pss| - 1;
    var prefix := pss[..last];
    IssuesOfSnoc(pss);
    if k == last {
      j := |IssuesOf(prefix)|;
    } else {
      assert prefix[k] == pss[k];
      j := IssueOfRow(prefix, k);
    }
  }

  /** A record has an issue, numbered two past its index, exactly when it has a problem. */
  lemma RowIssueIffProblem(recs: seq<Row>, k: nat)
    requires k < |recs|
    ensures (exists j :: 0 <= j < |IssuesOf(ProblemLists(recs))|
                         && IssuesOf(ProblemLists(recs))[j].row == k + 2)
            <==> Problems(recs[k]) != []
  {
    var pss := ProblemLists(recs);
    if Problems(recs[k]) != [] {
      EveryProblemReported(pss, k);
    }
  }

  // ----- duplicate IDs -----

  /** `Number.isInteger(idNum)`, and then the integer. */
  function IntegerId(rec: Row): Option<int> {
    var x := NumberOf(Lookup(rec, IdColumn));
    if x.Whole? then Some(x.n) else None
  }

  /** The integer ID, if any, of every record, in order. */
  function IntegerIds(recs: seq<Row>): (ids: seq<Option<int>>)
    ensures |ids| == |recs|
  {
    seq(|recs|, k requires 0 <= k < |recs| => IntegerId(recs[k]))
  }

  /** The integer IDs met so far: the `seen` set. */
  function Seen(ids: seq<Option<int>>): set<int>
  {
    if ids == [] then {}
    else
      var k := |ids| - 1;
      Seen(ids[..k]) + (if ids[k].Some? then {ids[k].value} else {})
  }

  /** `seen` holds exactly the integer IDs met. */
  lemma {:induction false} SeenExact(ids: seq<Option<int>>)
    ensures forall v :: v in Seen(ids) <==> Some(v) in ids
  {
    if ids != [] {
      var k := |ids| - 1;
      SeenExact(ids[..k]);
      assert ids == ids[..k] + [ids[k]];
    }
  }


  /** `dupes`: an ID each time it reappears, in order. */
  function DupesOf(ids: seq<Option<int>>): seq<int>
  {
    if ids == [] then []
    else
      var k := |ids| - 1;
      DupesOf(ids[..k]) + (if ids[k].Some? && ids[k].value in Seen(ids[..k]) then [ids[k].value] else [])
  }

  /** Two rows share integer ID `v`. */
  predicate Repeated(ids: seq<Option<int>>, v: int) {
    exists i, j :: 0 <= i < j < |ids| && ids[i] == Some(v) && ids[j] == Some(v)
  }

  /** A repeat among rows is a repeat before the last row, or the last row's ID seen earlier. */
  lemma RepeatedSnoc(ids: seq<Option<int>>, v: int)
    requires ids != []
    ensures Repeated(ids, v)
            <==> Repeated(ids[..|ids| - 1], v) || (ids[|ids| - 1] == Some(v) && Some(v) in ids[..|ids| - 1])
  {
    var k := |ids| - 1;
    var prefix := ids[..k];
    if Repeated(prefix, v) {
      var i, j :| 0 <= i < j < k && prefix[i] == Some(v) && prefix[j] == Some(v);
      assert ids[i] == prefix[i] && ids[j] == prefix[j];
    }
    if ids[k] == Some(v) && Some(v) in prefix {
      var i :| 0 <= i < k && prefix[i] == Some(v);
      assert ids[i] == prefix[i];
    }
    if Repeated(ids, v) {
      var i, j :| 0 <= i < j < |ids| && ids[i] == Some(v) && ids[j] == Some(v);
      assert prefix[i] == ids[i];
      if j < k {
        assert prefix[j] == ids[j];
        assert Repeated(prefix, v);
      }
    }
  }

  /** A value is among `dupes` exactly when two rows carry it as their integer ID. */
  lemma {:induction false} DupesExact(ids: seq<Option<int>>, v: int)
    ensures v in DupesOf(ids) <==> Repeated(ids, v)
  {
    if ids != [] {
      var k := |ids| - 1;
      var prefix := ids[..k];
      DupesExact(prefix, v);
      RepeatedSnoc(ids, v);
      SeenExact(prefix);
      var tail := if ids[k].Some? && ids[k].value in Seen(prefix) then [ids[k].value] else [];
      assert DupesOf(ids) == DupesOf(prefix) + tail;
      assert v in tail <==> ids[k] == Some(v) && Some(v) in prefix;
    }
  }

  /** `[...new Set(xs)]`: the values of `xs` without repeats, in first-occurrence order. */
  function Distinct(xs: seq<int>): (r: seq<int>)
    ensures forall x :: x in r <==> x in xs
    ensures forall i, j :: 0 <= i < j < |r| ==> r[i] != r[j]
  {
    if xs == [] then []
    else
      var k := |xs| - 1;
      assert forall x :: x in xs <==> x in xs[..k] || x == xs[k];
      Distinct(xs[..k]) + (if xs[k] in xs[..k] then [] else [xs[k]])
  }

  /** Removing repeats from a sequence without any leaves it as it is. */
  lemma {:induction false} DistinctOfDistinct(xs: seq<int>)
    requires forall i, j :: 0 <= i < j < |xs| ==> xs[i] != xs[j]
    ensures Distinct(xs) == xs
  {
    if xs != [] {
      var k := |xs| - 1;
      DistinctOfDistinct(xs[..k]);
      assert xs[..k] + [xs[k]] == xs;
    }
  }

  /** `dupeIds`: the repeated integer IDs of the records, each once. */
  function DupeIds(recs: seq<Row>): seq<int> {
    Distinct(DupesOf(IntegerIds(recs)))
  }

  /** `dupeIds` holds each repeated integer ID exactly once and nothing else. */
  lemma DupeIdsExact(recs: seq<Row>)
    ensures forall v :: v in DupeIds(recs) <==> Repeated(IntegerIds(recs), v)
    ensures forall i, j :: 0 <= i < j < |DupeIds(recs)| ==> DupeIds(recs)[i] != DupeIds(recs)[j]
  {
    forall v ensures v in DupeIds(recs) <==> Repeated(IntegerIds(recs), v) {
      DupesExact(IntegerIds(recs), v);
    }
  }

  /** Two records with an empty ID report the duplicate ID 0. */
  lemma TwoEmptyIds(recs: seq<Row>)
    requires |recs| == 2 && Lookup(recs[0], IdColumn) == Blank && Lookup(recs[1], IdColumn) == Blank
    ensures DupeIds(recs) == [0]
  {
    var ids := IntegerIds(recs);
    assert ids == [Some(0), Some(0)];
    assert ids[..1] == [Some(0)] && ids[..1][..0] == [];
    assert Seen(ids[..1]) == {0};
    assert DupesOf(ids[..1]) == [];
    assert DupesOf(ids) == [0];
    assert [0][..0] == [];
  }

  /** Every record passes every check. */
  predicate AllRecordsValid(recs: seq<Row>) {
    forall k :: 0 <= k < |recs| ==> IsValidRecord(recs[k])
  }

  /** There are no row issues exactly when every record is valid. */
  lemma NoIssuesIff(recs: seq<Row>)
    ensures IssuesOf(ProblemLists(recs)) == [] <==> AllRecordsValid(recs)
  {
    var pss := ProblemLists(recs);
    if IssuesOf(pss) == [] {
      forall k | 0 <= k < |recs| ensures IsValidRecord(recs[k]) {
        NoProblemsIffValid(recs[k]);
        if pss[k] != [] {
          EveryProblemReported(pss, k);
        }
      }
    } else {
      var k := IssuesOf(pss)[0].row - 2;
      NoProblemsIffValid(recs[k]);
    }
  }

  /** There are no duplicate IDs exactly when no integer ID is carried by two records. */
  lemma NoDupesIff(recs: seq<Row>)
    ensures DupeIds(recs) == [] <==> forall v :: !Repeated(IntegerIds(recs), v)
  {
    var ds, ids := DupeIds(recs), IntegerIds(recs);
    DupeIdsExact(recs);
    if ds != [] {
      assert ds[0] in ds;
      assert Repeated(ids, ds[0]);
    } else {
      forall v ensures !Repeated(ids, v) {
        assert v !in ds;
      }
    }
  }

  /** One more row adds at most its own ID to `seen` and to `dupes`. */
  lemma SeenAndDupesSnoc(ids: seq<Option<int>>)
    requires ids != []
    ensures var k := |ids| - 1;
            && Seen(ids) == Seen(ids[..k]) + (if ids[k].Some? then {ids[k].value} else {})
            && DupesOf(ids) == DupesOf(ids[..k]) + (if ids[k].Some? && ids[k].value in Seen(ids[..k]) then [ids[k].value] else [])
  {
  }

  // ----- the validation loop -----

  /**
   * The checks of one record, each pushing its problem when it fails, and
   * the record's ID when `Number.isInteger` holds of it.
   */
  method CheckRecord(r: Row) returns (problems: seq<Problem>, id: Option<int>)
    ensures problems == Problems(r)
    ensures id == IntegerId(r)
  {
    problems := [];
    if Lookup(r, IdColumn) == Blank {
      problems := problems + [IdEmpty];
    }
    if Lookup(r, YieldColumn) == Blank {
      problems := problems + [YieldEmpty];
    }
    var idNum := NumberOf(Lookup(r, IdColumn));
    if !IsNonNegativeInteger(idNum) {
      problems := problems + [IdNotNonNegativeInteger];
    }
    var y := NumberOf(Lookup(r, YieldColumn));
    if !IsFiniteNonNegative(y) {
      problems := problems + [YieldNotNonNegative];
    }
    id := if idNum.Whole? then Some(idNum.n) else None;
  }

  /**
   * `remapped.forEach(...)`: runs every check on every record, collecting
   * the row issues and, through the `seen` set, the reappearing IDs.
   */
  method ValidateRows(recs: seq<Row>) returns (issues: seq<Issue>, dupes: seq<int>)
    ensures issues == IssuesOf(ProblemLists(recs))
    ensures dupes == DupesOf(IntegerIds(recs))
  {
    ghost var pss, ids := ProblemLists(recs), IntegerIds(recs);
    var seen: set<int> := {};
    issues, dupes := [], [];
    for rowIdx := 0 to |recs|
      invariant seen == Seen(ids[..rowIdx])
      invariant issues == IssuesOf(pss[..rowIdx])
      invariant dupes == DupesOf(ids[..rowIdx])
    {
      var problems, id := CheckRecord(recs[rowIdx]);
      IssuesStep(pss, rowIdx);
      DupesStep(ids, rowIdx);
      if id.Some? {
        if id.value in seen {
          dupes := dupes + [id.value];
        } else {
          seen := seen + {id.value};
        }
      }
      if |problems| > 0 {
        issues := issues + [Issue(rowIdx + 2, problems)];
      }
    }
    assert pss[..|recs|] == pss && ids[..|recs|] == ids;
  }

  /** One more row adds its issue, if it has problems. */
  lemma IssuesStep(pss: seq<seq<Problem>>, i: nat)
    requires i < |pss|
    ensures IssuesOf(pss[..i + 1]) == IssuesOf(pss[..i]) + if pss[i] != [] then [Issue(i + 2, pss[i])] else []
  {
    assert pss[..i + 1][..i] == pss[..i];
    IssuesOfSnoc(pss[..i + 1]);
  }

  /** One more row adds its ID to `seen`, or to `dupes` when it was seen. */
  lemma DupesStep(ids: seq<Option<int>>, i: nat)
    requires i < |ids|
    ensures Seen(ids[..i + 1]) == Seen(ids[..i]) + (if ids[i].Some? then {ids[i].value} else {})
    ensures DupesOf(ids[..i + 1]) == DupesOf(ids[..i]) + (if ids[i].Some? && ids[i].value in Seen(ids[..i]) then [ids[i].value] else [])
  {
    assert ids[..i + 1][..i] == ids[..i];
    SeenAndDupesSnoc(ids[..i + 1]);
  }

  /** `remapped.slice(0, 5)`: the first five records, or all of them when there are fewer. */
  function Preview(recs: seq<Row>): (p: seq<Row>)
    ensures |p| == if |recs| < 5 then |recs| else 5
    ensures forall k :: 0 <= k < |p| ==> p[k] == recs[k]
  {
    if |recs| <= 5 then recs else recs[..5]
  }
}
