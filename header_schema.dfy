/**
 * The header reconciliation of the upload page
 * (frontend/src/pages/Submit.jsx): the required template columns, the
 * `norm` canonicalisation of a header label, `indexOf`, and the `missing`
 * and `extra` column lists.  The functions take the schema as a parameter;
 * the page applies them to `RequiredColumns`.
 */
module UploadSchema {
  import opened JsText

  /** `REQUIRED_COLUMNS[0]`: the identity column. */
  const IdColumn: string := "TestObjectID"

  /** `REQUIRED_COLUMNS[1]`: the yield column. */
  const YieldColumn: string := "CalculatedMilkYield (kg)"

  /** `REQUIRED_COLUMNS`, in template order. */
  const RequiredColumns: seq<string> := [IdColumn, YieldColumn]

  /** The characters `norm` keeps: `[a-z0-9]`. */
  predicate IsNormChar(c: char) {
    'a' <= c <= 'z' || '0' <= c <= '9'
  }

  /** `.replace(/[^a-z0-9]/g, "")`: the subsequence of `[a-z0-9]` characters. */
  function KeepNormChars(s: string): (r: string)
    ensures |r| <= |s|
    ensures forall i :: 0 <= i < |r| ==> IsNormChar(r[i])
  {
    if s == [] then []
    else (if IsNormChar(s[0]) then [s[0]] else []) + KeepNormChars(s[1..])
  }

  /** `norm(s)`: lower-case, then keep only `[a-z0-9]`. */
  function Norm(s: string): (r: string)
    ensures forall i :: 0 <= i < |r| ==> IsNormChar(r[i])
  {
    KeepNormChars(JsLower(s))
  }

  /** `xs.map(norm)`; `REQUIRED_NORM` is `NormAll(RequiredColumns)`. */
  function NormAll(xs: seq<string>): (r: seq<string>)
    ensures |r| == |xs|
  {
    seq(|xs|, i requires 0 <= i < |xs| => Norm(xs[i]))
  }

  /** `(rows[0] || []).map(h => String(h).trim())` on the header cells' text. */
  function TrimAll(hs: seq<string>): (r: seq<string>)
    ensures |r| == |hs|
  {
    seq(|hs|, i requires 0 <= i < |hs| => Trim(hs[i]))
  }

  /** `xs.indexOf(x)`: the first position holding `x`, or -1. */
  function IndexOf(xs: seq<string>, x: string): (r: int)
    ensures -1 <= r < |xs|
    ensures r == -1 <==> x !in xs
    ensures r >= 0 ==> xs[r] == x && x !in xs[..r]
  {
    if xs == [] then -1
    else if xs[0] == x then 0
    else
      var k := IndexOf(xs[1..], x);
      assert k >= 0 ==> xs[1..][..k] == xs[1..k + 1];
      if k == -1 then -1 else k + 1
  }

  /** `needs.filter(need => !incoming.includes(need))` */
  function Absent(needs: seq<string>, incoming: seq<string>): (r: seq<string>)
    ensures |r| <= |needs|
    ensures forall x :: x in r <==> x in needs && x !in incoming
  {
    if needs == [] then []
    else (if needs[0] in incoming then [] else [needs[0]]) + Absent(needs[1..], incoming)
  }

  /**
   * `missing`: the required normalised names absent from the normalised
   * headers `incoming`, each mapped back to its original column name through
   * `REQUIRED_NORM.indexOf`.
   */
  function Missing(required: seq<string>, incoming: seq<string>): seq<string>
  {
    var requiredNorm := NormAll(required);
    var needs := Absent(requiredNorm, incoming);
    seq(|needs|, k requires 0 <= k < |needs| => required[IndexOf(requiredNorm, needs[k])])
  }

  /**
   * `extra`: the headers, in their order, whose normalised form is no
   * required normalised name.  A membership test, not a positional one.
   */
  function Extra(required: seq<string>, headers: seq<string>): (r: seq<string>)
    ensures |r| <= |headers|
    ensures forall h :: h in r <==> h in headers && Norm(h) !in NormAll(required)
  {
    if headers == [] then []
    else (if Norm(headers[0]) in NormAll(required) then [] else [headers[0]])
         + Extra(required, headers[1..])
  }

  // ----- norm -----

  lemma {:induction false} KeepNormCharsAppend(a: string, b: string)
    ensures KeepNormChars(a + b) == KeepNormChars(a) + KeepNormChars(b)
  {
    if a == [] {
      assert a + b == b;
    } else {
      assert (a + b)[0] == a[0] && (a + b)[1..] == a[1..] + b;
      KeepNormCharsAppend(a[1..], b);
    }
  }

  lemma {:induction false} KeepNormCharsOfNormChars(s: string)
    requires forall i :: 0 <= i < |s| ==> IsNormChar(s[i])
    ensures KeepNormChars(s) == s
  {
    if s != [] { KeepNormCharsOfNormChars(s[1..]); }
  }

  /** `norm` is idempotent: a normalised label is its own normal form. */
  lemma NormIdempotent(s: string)
    ensures Norm(Norm(s)) == Norm(s)
  {
    var n := Norm(s);
    JsLowerOfLowered(n);
    KeepNormCharsOfNormChars(n);
  }

  /** `norm` distributes over concatenation. */
  lemma NormAppend(a: string, b: string)
    ensures Norm(a + b) == Norm(a) + Norm(b)
  {
    JsLowerAppend(a, b);
    KeepNormCharsAppend(JsLower(a), JsLower(b));
  }

  /** Case does not matter to `norm`. */
  lemma NormIgnoresCase(s: string)
    ensures Norm(JsLower(s)) == Norm(s)
  {
    JsLowerIdempotent(s);
  }

  /** A label starting with an ASCII capital normalises to its small letter first. */
  lemma NormHead(s: string)
    requires s != [] && IsAsciiUpper(s[0])
    ensures Norm(s) != [] && Norm(s)[0] == (s[0] as int + 32) as char
  {
    assert JsLower(s) == [(s[0] as int + 32) as char] + JsLower(s[1..]);
    KeepNormCharsAppend([(s[0] as int + 32) as char], JsLower(s[1..]));
  }

  /** White space has an empty normal form. */
  lemma {:induction false} NormOfSpaces(s: string)
    requires forall k :: 0 <= k < |s| ==> IsJsSpace(s[k])
    ensures Norm(s) == []
  {
    if s != [] {
      NormOfSpaces(s[1..]);
      NormAppend([s[0]], s[1..]);
      assert [s[0]] + s[1..] == s;
      assert JsLower([s[0]]) == [s[0]];
    }
  }

  /** Dropping leading white space does not change the normal form. */
  lemma NormTrimStart(s: string)
    ensures Norm(TrimStart(s)) == Norm(s)
  {
    var t := TrimStart(s);
    var pre := s[..|s| - |t|];
    assert s == pre + t;
    NormOfSpaces(pre);
    NormAppend(pre, t);
  }

  /** Dropping trailing white space does not change the normal form. */
  lemma NormTrimEnd(s: string)
    ensures Norm(TrimEnd(s)) == Norm(s)
  {
    var t := TrimEnd(s);
    var post := s[|t|..];
    assert s == t + post;
    NormOfSpaces(post);
    NormAppend(t, post);
  }

  /** Trimming a header does not change its normal form. */
  lemma NormTrim(s: string)
    ensures Norm(Trim(s)) == Norm(s)
  {
    NormTrimStart(s);
    NormTrimEnd(TrimStart(s));
  }

  // ----- missing and extra -----

  /** No two columns of the schema share a normal form. */
  predicate DistinctNorms(required: seq<string>) {
    forall i, j :: 0 <= i < j < |required| ==> Norm(required[i]) != Norm(required[j])
  }

  /** The template's two columns have different normal forms. */
  lemma RequiredColumnsDistinct()
    ensures DistinctNorms(RequiredColumns)
  {
    DistinctCapitals(IdColumn, YieldColumn);
  }

  /** Two labels starting with different ASCII capitals have different normal forms. */
  lemma DistinctCapitals(a: string, b: string)
    requires a != [] && b != [] && IsAsciiUpper(a[0]) && IsAsciiUpper(b[0]) && a[0] != b[0]
    ensures DistinctNorms([a, b])
  {
    NormHead(a);
    NormHead(b);
  }

  /** The required columns, in schema order, whose normal form is not in `incoming`. */
  function AbsentColumns(required: seq<string>, incoming: seq<string>): (r: seq<string>)
    ensures forall c :: c in r <==> c in required && Norm(c) !in incoming
  {
    if required == [] then []
    else (if Norm(required[0]) in incoming then [] else [required[0]])
         + AbsentColumns(required[1..], incoming)
  }

  lemma NormAllAppend(a: seq<string>, b: seq<string>)
    ensures NormAll(a + b) == NormAll(a) + NormAll(b)
  {
    var l, r := NormAll(a + b), NormAll(a) + NormAll(b);
    forall i | 0 <= i < |l| ensures l[i] == r[i] {
      if i < |a| { assert (a + b)[i] == a[i]; } else { assert (a + b)[i] == b[i - |a|]; }
    }
  }

  lemma {:induction false} AbsentNorms(required: seq<string>, incoming: seq<string>)
    ensures Absent(NormAll(required), incoming) == NormAll(AbsentColumns(required, incoming))
  {
    if required != [] {
      var rn := NormAll(required);
      AbsentNorms(required[1..], incoming);
      assert rn[1..] == NormAll(required[1..]);
      assert rn[0] == Norm(required[0]);
      var head := if Norm(required[0]) in incoming then [] else [required[0]];
      var tail := AbsentColumns(required[1..], incoming);
      assert AbsentColumns(required, incoming) == head + tail;
      NormAllAppend(head, tail);
      assert NormAll(head) == if Norm(required[0]) in incoming then [] else [rn[0]];
    }
  }

  /** With distinct normal forms, `indexOf` on `REQUIRED_NORM` finds each column's own position. */
  lemma IndexOfOwnNorm(required: seq<string>, j: nat)
    requires DistinctNorms(required) && j < |required|
    ensures IndexOf(NormAll(required), Norm(required[j])) == j
  {
    var rn := NormAll(required);
    var k := IndexOf(rn, Norm(required[j]));
    assert rn[j] == Norm(required[j]);
  }

  /**
   * `missing` lists, in schema order and under their original names,
   * exactly the required columns whose normal form no header has.
   */
  lemma MissingExact(required: seq<string>, incoming: seq<string>)
    requires DistinctNorms(required)
    ensures Missing(required, incoming) == AbsentColumns(required, incoming)
  {
    var rn := NormAll(required);
    var cols := AbsentColumns(required, incoming);
    var m := Missing(required, incoming);
    AbsentNorms(required, incoming);
    forall k | 0 <= k < |cols| ensures m[k] == cols[k] {
      assert cols[k] in required;
      var j :| 0 <= j < |required| && required[j] == cols[k];
      IndexOfOwnNorm(required, j);
    }
  }

  /** Every required column is either matched by some header or missing, never both. */
  lemma MatchedOrMissing(required: seq<string>, headers: seq<string>, k: nat)
    requires DistinctNorms(required) && k < |required|
    ensures required[k] in Missing(required, NormAll(headers))
            <==> IndexOf(NormAll(headers), Norm(required[k])) == -1
  {
    MissingExact(required, NormAll(headers));
  }

  /**
   * Header order does not matter: two header rows with the same normalised
   * labels, in any order and any multiplicity, miss the same columns.
   */
  lemma MissingIgnoresOrder(required: seq<string>, h1: seq<string>, h2: seq<string>)
    requires DistinctNorms(required)
    requires forall h :: h in h1 ==> exists g :: g in h2 && Norm(g) == Norm(h)
    requires forall g :: g in h2 ==> exists h :: h in h1 && Norm(h) == Norm(g)
    ensures Missing(required, NormAll(h1)) == Missing(required, NormAll(h2))
  {
    var n1, n2 := NormAll(h1), NormAll(h2);
    NormsCovered(h1, h2);
    NormsCovered(h2, h1);
    MissingExact(required, n1);
    MissingExact(required, n2);
    AbsentColumnsSameMembers(required, n1, n2);
  }

  /** The normal form of a header is among the normal forms of its row. */
  lemma NormInNormAll(headers: seq<string>, h: string)
    requires h in headers
    ensures Norm(h) in NormAll(headers)
  {
    var i :| 0 <= i < |headers| && headers[i] == h;
    assert NormAll(headers)[i] == Norm(h);
  }

  lemma NormsCovered(h1: seq<string>, h2: seq<string>)
    requires forall h :: h in h1 ==> exists g :: g in h2 && Norm(g) == Norm(h)
    ensures forall x :: x in NormAll(h1) ==> x in NormAll(h2)
  {
    forall x | x in NormAll(h1) ensures x in NormAll(h2) {
      var i :| 0 <= i < |h1| && NormAll(h1)[i] == x;
      assert h1[i] in h1;
      var g :| g in h2 && Norm(g) == Norm(h1[i]);
      NormInNormAll(h2, g);
    }
  }

  lemma {:induction false} AbsentColumnsSameMembers(required: seq<string>, n1: seq<string>, n2: seq<string>)
    requires forall x :: x in n1 <==> x in n2
    ensures AbsentColumns(required, n1) == AbsentColumns(required, n2)
  {
    if required != [] { AbsentColumnsSameMembers(required[1..], n1, n2); }
  }

  /**
   * Whatever the case, spacing or punctuation of the labels, a header row
   * holding a label of every required column misses none.
   */
  lemma NoneMissing(required: seq<string>, headers: seq<string>)
    requires DistinctNorms(required)
    requires forall c :: c in required ==> exists h :: h in headers && Norm(h) == Norm(c)
    ensures Missing(required, NormAll(headers)) == []
  {
    var n := NormAll(headers);
    MissingExact(required, n);
    var cols := AbsentColumns(required, n);
    if cols != [] {
      assert cols[0] in required;
      var h :| h in headers && Norm(h) == Norm(cols[0]);
      NormInNormAll(headers, h);
    }
  }

  /** An empty header row misses every required column and has no extra one. */
  lemma EmptyHeaderRow(required: seq<string>)
    requires DistinctNorms(required)
    ensures Missing(required, NormAll([])) == required
    ensures Extra(required, []) == []
  {
    MissingExact(required, []);
    AbsentFromNothing(required);
  }

  lemma {:induction false} AbsentFromNothing(required: seq<string>)
    ensures AbsentColumns(required, []) == required
  {
    if required != [] { AbsentFromNothing(required[1..]); }
  }

  /** `extra` keeps the header order: it distributes over concatenation. */
  lemma {:induction false} ExtraAppend(required: seq<string>, a: seq<string>, b: seq<string>)
    ensures Extra(required, a + b) == Extra(required, a) + Extra(required, b)
  {
    if a == [] {
      assert a + b == b;
    } else {
      assert (a + b)[0] == a[0] && (a + b)[1..] == a[1..] + b;
      ExtraAppend(required, a[1..], b);
    }
  }

  /** Every column of the schema has a header that normalises like it. */
  predicate AllColumnsMatched(required: seq<string>, headers: seq<string>) {
    forall c :: c in required ==> exists h :: h in headers && Norm(h) == Norm(c)
  }

  /** Nothing is missing exactly when every column has a matching header. */
  lemma NoneMissingIff(required: seq<string>, headers: seq<string>)
    requires DistinctNorms(required)
    ensures Missing(required, NormAll(headers)) == [] <==> AllColumnsMatched(required, headers)
  {
    if AllColumnsMatched(required, headers) {
      NoneMissing(required, headers);
    } else {
      var c :| c in required && !exists h :: h in headers && Norm(h) == Norm(c);
      var n := NormAll(headers);
      forall i | 0 <= i < |n| ensures n[i] != Norm(c) {
        assert headers[i] in headers;
      }
      assert c in AbsentColumns(required, n);
      MissingExact(required, n);
    }
  }

  /** Matching depends on the headers only through their normal forms. */
  lemma MatchedTransfer(required: seq<string>, a: seq<string>, b: seq<string>)
    requires |a| == |b| && forall i :: 0 <= i < |a| ==> Norm(a[i]) == Norm(b[i])
    requires AllColumnsMatched(required, a)
    ensures AllColumnsMatched(required, b)
  {
    forall c | c in required ensures exists h :: h in b && Norm(h) == Norm(c) {
      var h :| h in a && Norm(h) == Norm(c);
      var i :| 0 <= i < |a| && a[i] == h;
      assert b[i] in b;
    }
  }

  /** Trimming the header cells does not change which columns are matched. */
  lemma MatchedAfterTrim(required: seq<string>, cells: seq<string>)
    ensures AllColumnsMatched(required, TrimAll(cells)) <==> AllColumnsMatched(required, cells)
  {
    var t := TrimAll(cells);
    forall i | 0 <= i < |cells| ensures Norm(t[i]) == Norm(cells[i]) {
      NormTrim(cells[i]);
    }
    if AllColumnsMatched(required, cells) {
      MatchedTransfer(required, cells, t);
    }
    if AllColumnsMatched(required, t) {
      MatchedTransfer(required, t, cells);
    }
  }
}
