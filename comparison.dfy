/**
 * The per-parity part of the comparison report
 * (api/v1/views/submission.py, `generate_comparison_pdf`): the grouping of
 * reference and submitted yields by parity and the choice of the sections
 * the report shows.  Yields are opaque values of type `Y`; each test ID is
 * represented by its decimal text `str(tid)`.
 */
module Comparison {
  import opened Wrappers

  // ----- parity groups -----

  /** `int(p)`: its value, or the exception that makes the code use 0. */
  datatype Parity = Parsed(n: int) | Unparseable

  /** A parity group: `str(p_int)` for parities below 3, `"3+"` otherwise. */
  datatype Label = Exact(n: int) | ThreePlus

  /** `"3+" if p_int >= 3 else str(p_int)`, with `p_int` 0 for an unparseable parity. */
  function LabelOf(p: Parity): (l: Label)
    ensures l == ThreePlus <==> p.Parsed? && p.n >= 3
    ensures l.Exact? ==> l.n < 3 && (p.Unparseable? ==> l == Exact(0))
  {
    var pInt := if p.Parsed? then p.n else 0;
    if pInt >= 3 then ThreePlus else Exact(pInt)
  }

  /** `{sid: val for sid, val in zip(sids, vals)}` over the first `n` pairs. */
  function SubmissionMapUpTo<Y>(sids: seq<string>, vals: seq<Y>, n: nat): (m: map<string, Y>)
    requires n <= |sids| && n <= |vals|
    ensures forall k :: k in m <==> exists i :: 0 <= i < n && sids[i] == k
  {
    if n == 0 then map[]
    else
      var prev := SubmissionMapUpTo(sids, vals, n - 1);
      prev[sids[n - 1] := vals[n - 1]]
  }

  /** The submission map, over the pairs `zip` makes. */
  function SubmissionMap<Y>(sids: seq<string>, vals: seq<Y>): map<string, Y> {
    SubmissionMapUpTo(sids, vals, if |sids| < |vals| then |sids| else |vals|)
  }

  /** A repeated test ID keeps the yield of its last pair. */
  lemma {:induction false} LaterPairWins<Y>(sids: seq<string>, vals: seq<Y>, n: nat, i: nat)
    requires n <= |sids| && n <= |vals| && i < n
    requires forall j :: i < j < n ==> sids[j] != sids[i]
    ensures SubmissionMapUpTo(sids, vals, n)[sids[i]] == vals[i]
  {
    if i < n - 1 {
      LaterPairWins(sids, vals, n - 1, i);
    }
  }

  /** `parity_to_ref`, `parity_to_act` and `parity_to_icar` */
  datatype Groups<Y> = Groups(ref: map<Label, seq<Y>>, act: map<Label, seq<Y>>, icar: map<Label, seq<Y>>)

  /** `m.get(l, [])` */
  function Group<Y>(m: map<Label, seq<Y>>, l: Label): seq<Y> {
    if l in m then m[l] else []
  }

  /** `m.setdefault(l, []).append(v)` */
  function Append<Y>(m: map<Label, seq<Y>>, l: Label, v: Y): map<Label, seq<Y>> {
    m[l := Group(m, l) + [v]]
  }

  /** The input of the grouping loop. */
  datatype Reference<Y> = Reference(
    testIds: seq<string>,         // `generate_obj.test_obj_ids`
    refYields: seq<Y>,            // `generate_obj.calculated_milk_yields`
    parities: seq<Parity>,        // `generate_obj.parity`
    submission: map<string, Y>,   // `submission_map`
    actual: map<string, Y>)       // `ref_map`, keyed by `str(tid)`

  /** How many triples `zip(test_ids, ref_yields, parity_list)` yields. */
  function ZipLength<Y>(r: Reference<Y>): nat {
    var a := if |r.testIds| < |r.refYields| then |r.testIds| else |r.refYields|;
    if a < |r.parities| then a else |r.parities|
  }

  /** The groups after the first `n` triples. */
  function Bucketed<Y>(r: Reference<Y>, n: nat): Groups<Y>
    requires n <= ZipLength(r)
  {
    if n == 0 then Groups(map[], map[], map[])
    else
      var g := Bucketed(r, n - 1);
      var i := n - 1;
      var tid := r.testIds[i];
      var l := LabelOf(r.parities[i]);
      if tid in r.submission then
        Groups(Append(g.ref, l, r.refYields[i]),
               Append(g.act, l, r.submission[tid]),
               if tid in r.actual then Append(g.icar, l, r.actual[tid]) else g.icar)
      else g
  }

  /** Triple `i` joins group `l`: it carries label `l` and its test ID was submitted. */
  predicate Joins<Y>(r: Reference<Y>, i: nat, l: Label)
    requires i < ZipLength(r)
  {
    LabelOf(r.parities[i]) == l && r.testIds[i] in r.submission
  }

  /**
   * A triple joining group `l` extends it by its reference and submitted
   * yields, and by its reference-data yield when there is one.
   */
  lemma BucketedJoin<Y>(r: Reference<Y>, i: nat, l: Label)
    requires i < ZipLength(r) && Joins(r, i, l)
    ensures var g, g' := Bucketed(r, i), Bucketed(r, i + 1);
            var tid := r.testIds[i];
            && l in g'.ref && l in g'.act
            && Group(g'.ref, l) == Group(g.ref, l) + [r.refYields[i]]
            && Group(g'.act, l) == Group(g.act, l) + [r.submission[tid]]
            && (tid in r.actual ==> l in g'.icar && Group(g'.icar, l) == Group(g.icar, l) + [r.actual[tid]])
            && (tid !in r.actual ==> (l in g'.icar <==> l in g.icar) && Group(g'.icar, l) == Group(g.icar, l))
  {
    var g := Bucketed(r, i);
    var tid := r.testIds[i];
    assert Bucketed(r, i + 1) == Groups(Append(g.ref, l, r.refYields[i]),
             Append(g.act, l, r.submission[tid]),
             if tid in r.actual then Append(g.icar, l, r.actual[tid]) else g.icar);
  }

  /** A triple not joining group `l` leaves it as it is. */
  lemma BucketedSkip<Y>(r: Reference<Y>, i: nat, l: Label)
    requires i < ZipLength(r) && !Joins(r, i, l)
    ensures var g, g' := Bucketed(r, i), Bucketed(r, i + 1);
            && (l in g'.ref <==> l in g.ref) && Group(g'.ref, l) == Group(g.ref, l)
            && (l in g'.act <==> l in g.act) && Group(g'.act, l) == Group(g.act, l)
            && (l in g'.icar <==> l in g.icar) && Group(g'.icar, l) == Group(g.icar, l)
  {
    var g := Bucketed(r, i);
    var tid := r.testIds[i];
    var k := LabelOf(r.parities[i]);
    if tid in r.submission {
      assert k != l;
      assert Bucketed(r, i + 1) == Groups(Append(g.ref, k, r.refYields[i]),
               Append(g.act, k, r.submission[tid]),
               if tid in r.actual then Append(g.icar, k, r.actual[tid]) else g.icar);
    } else {
      assert Bucketed(r, i + 1) == g;
    }
  }

  /** Step `i` of the grouping loop, as seen from group `l`. */
  lemma BucketedStep<Y>(r: Reference<Y>, i: nat, l: Label)
    requires i < ZipLength(r)
    ensures var g, g' := Bucketed(r, i), Bucketed(r, i + 1);
            && (l in g'.ref <==> l in g.ref || Joins(r, i, l))
            && (l in g'.act <==> l in g.act || Joins(r, i, l))
            && |Group(g'.ref, l)| == |Group(g.ref, l)| + (if Joins(r, i, l) then 1 else 0)
            && |Group(g'.act, l)| == |Group(g.act, l)| + (if Joins(r, i, l) then 1 else 0)
            && (l in g'.icar ==> l in g.icar || Joins(r, i, l))
            && |Group(g'.icar, l)| <= |Group(g.icar, l)| + (if Joins(r, i, l) then 1 else 0)
  {
    if Joins(r, i, l) {
      BucketedJoin(r, i, l);
    } else {
      BucketedSkip(r, i, l);
    }
  }

  /** In every group the reference and submitted lists have the same length. */
  lemma {:induction false} BucketedAligned<Y>(r: Reference<Y>, n: nat, l: Label)
    requires n <= ZipLength(r)
    ensures var g := Bucketed(r, n);
            (l in g.ref <==> l in g.act) && |Group(g.ref, l)| == |Group(g.act, l)|
  {
    if n > 0 {
      BucketedAligned(r, n - 1, l);
      BucketedStep(r, n - 1, l);
    }
  }

  /** A group's reference-data list is no longer than its reference list. */
  lemma {:induction false} BucketedIcarBounded<Y>(r: Reference<Y>, n: nat, l: Label)
    requires n <= ZipLength(r)
    ensures var g := Bucketed(r, n);
            (l in g.icar ==> l in g.ref) && |Group(g.icar, l)| <= |Group(g.ref, l)|
  {
    if n > 0 {
      BucketedIcarBounded(r, n - 1, l);
      BucketedStep(r, n - 1, l);
    }
  }

  /** The indices among the first `n` triples that fall in group `l`: labelled `l`, with a submitted yield. */
  function Members<Y>(r: Reference<Y>, l: Label, n: nat): (ms: seq<nat>)
    requires n <= ZipLength(r)
    ensures forall j :: 0 <= j < |ms| ==>
              ms[j] < n && LabelOf(r.parities[ms[j]]) == l && r.testIds[ms[j]] in r.submission
    ensures forall j, k :: 0 <= j < k < |ms| ==> ms[j] < ms[k]
    ensures forall i :: 0 <= i < n && LabelOf(r.parities[i]) == l && r.testIds[i] in r.submission ==> i in ms
  {
    if n == 0 then []
    else
      var prev := Members(r, l, n - 1);
      var i := n - 1;
      if LabelOf(r.parities[i]) == l && r.testIds[i] in r.submission then prev + [i] else prev
  }

  /**
   * Group `l` lists, index-aligned, the reference yields and the submitted
   * yields of exactly its members, in input order.
   */
  lemma {:induction false} BucketedAreMembers<Y>(r: Reference<Y>, l: Label, n: nat)
    requires n <= ZipLength(r)
    ensures var ms := Members(r, l, n);
            && |Group(Bucketed(r, n).ref, l)| == |ms| && |Group(Bucketed(r, n).act, l)| == |ms|
            && (forall j :: 0 <= j < |ms| ==> Group(Bucketed(r, n).ref, l)[j] == r.refYields[ms[j]])
            && (forall j :: 0 <= j < |ms| ==> Group(Bucketed(r, n).act, l)[j] == r.submission[r.testIds[ms[j]]])
  {
    if n > 0 {
      var i := n - 1;
      BucketedAreMembers(r, l, i);
      var ms, ms' := Members(r, l, i), Members(r, l, n);
      if Joins(r, i, l) {
        BucketedJoin(r, i, l);
        assert ms' == ms + [i];
      } else {
        BucketedSkip(r, i, l);
        assert ms' == ms;
      }
    }
  }


  /** With no parities there are no groups. */
  lemma NoParitiesNoGroups<Y>(r: Reference<Y>)
    requires r.parities == []
    ensures Bucketed(r, ZipLength(r)) == Groups(map[], map[], map[])
  {
  }

  /** The grouping loop over `zip(test_ids, ref_yields, parity_list)`. */
  method BucketByParity<Y>(r: Reference<Y>)
    returns (toRef: map<Label, seq<Y>>, toAct: map<Label, seq<Y>>, toIcar: map<Label, seq<Y>>)
    ensures Groups(toRef, toAct, toIcar) == Bucketed(r, ZipLength(r))
  {
    toRef, toAct, toIcar := map[], map[], map[];
    var n := ZipLength(r);
    for i := 0 to n
      invariant Groups(toRef, toAct, toIcar) == Bucketed(r, i)
    {
      var tid, refVal, p := r.testIds[i], r.refYields[i], r.parities[i];
      var pInt := if p.Parsed? then p.n else 0;
      var groupLabel := if pInt >= 3 then ThreePlus else Exact(pInt);
      if tid in r.submission {
        toRef := toRef[groupLabel := Group(toRef, groupLabel) + [refVal]];
        toAct := toAct[groupLabel := Group(toAct, groupLabel) + [r.submission[tid]]];
        if tid in r.actual {
          toIcar := toIcar[groupLabel := Group(toIcar, groupLabel) + [r.actual[tid]]];
        }
      }
    }
  }

  // ----- reported sections -----

  /** A parity section of the report: its label and the three lists it is computed from. */
  datatype Section<Y> = Section(group: Label, ref: seq<Y>, act: seq<Y>, icar: seq<Y>)

  /** The groups the report may show, in order. */
  const ReportedLabels: seq<Label> := [Exact(1), Exact(2), ThreePlus]

  /** Group `l` has a section: it exists, with two reference and two reference-data values at least. */
  predicate HasSection<Y>(g: Groups<Y>, l: Label) {
    l in g.ref && |g.ref[l]| >= 2 && |Group(g.icar, l)| >= 2
  }

  /** The position of a label among the reported ones, 3 for the others. */
  function Rank(l: Label): nat {
    if l == Exact(1) then 0 else if l == Exact(2) then 1 else if l == ThreePlus then 2 else 3
  }

  /** The section of group `l`. */
  function SectionOf<Y>(g: Groups<Y>, l: Label): Section<Y> {
    Section(l, Group(g.ref, l), Group(g.act, l), Group(g.icar, l))
  }

  /** The section of group `l` if it passes the size test, else nothing. */
  function SectionIf<Y>(g: Groups<Y>, l: Label): seq<Section<Y>> {
    if HasSection(g, l) then [SectionOf(g, l)] else []
  }

  /** The sections for the first `n` reported labels, in the order of the labels. */
  function SectionsUpTo<Y>(g: Groups<Y>, n: nat): seq<Section<Y>>
    requires n <= |ReportedLabels|
  {
    if n == 0 then [] else SectionsUpTo(g, n - 1) + SectionIf(g, ReportedLabels[n - 1])
  }

  /** The report's sections: those of "1", "2" and "3+", in that order, each when its group passes the size test. */
  lemma SectionsInOrder<Y>(g: Groups<Y>)
    ensures SectionsUpTo(g, 3) == SectionIf(g, Exact(1)) + SectionIf(g, Exact(2)) + SectionIf(g, ThreePlus)
  {
    assert SectionsUpTo(g, 1) == SectionIf(g, Exact(1));
    assert SectionsUpTo(g, 2) == SectionIf(g, Exact(1)) + SectionIf(g, Exact(2));
  }

  /**
   * A reported group has a section exactly when it passes the size test,
   * and every section is that of a reported group passing it.
   */
  lemma SectionsExact<Y>(g: Groups<Y>)
    ensures var s := SectionsUpTo(g, 3);
            && (forall l :: l in ReportedLabels ==> (SectionOf(g, l) in s <==> HasSection(g, l)))
            && (forall x :: x in s ==> x.group in ReportedLabels && HasSection(g, x.group) && x == SectionOf(g, x.group))
  {
    SectionsInOrder(g);
  }

  /**
   * In each section of the report the reference and submitted lists have
   * the same length, of two at least, and so has the reference-data list.
   */
  lemma SectionsSized<Y>(r: Reference<Y>)
    ensures var s := SectionsUpTo(Bucketed(r, ZipLength(r)), 3);
            forall x :: x in s ==> |x.ref| >= 2 && |x.icar| >= 2 && |x.act| == |x.ref|
  {
    var g := Bucketed(r, ZipLength(r));
    SectionsExact(g);
    forall x | x in SectionsUpTo(g, 3) ensures |x.ref| >= 2 && |x.icar| >= 2 && |x.act| == |x.ref| {
      BucketedAligned(r, ZipLength(r), x.group);
    }
  }

  /** The sections come in the order of their labels, "1" before "2" before "3+". */
  lemma SectionsOrdered<Y>(g: Groups<Y>)
    ensures var s := SectionsUpTo(g, 3);
            forall j, k :: 0 <= j < k < |s| ==> Rank(s[j].group) < Rank(s[k].group)
  {
    SectionsInOrder(g);
  }

  /** The selection loop over `["1", "2", "3+"]`. */
  method SelectSections<Y>(g: Groups<Y>) returns (sections: seq<Section<Y>>)
    ensures sections == SectionsUpTo(g, 3)
  {
    sections := [];
    for i := 0 to 3
      invariant sections == SectionsUpTo(g, i)
    {
      var p := ReportedLabels[i];
      if p !in g.ref {
        continue;
      }
      var refVals := g.ref[p];
      var actVals := Group(g.act, p);
      var icarVals := Group(g.icar, p);
      if |refVals| < 2 || |icarVals| < 2 {
        continue;
      }
      sections := sections + [Section(p, refVals, actVals, icarVals)];
    }
  }
}
