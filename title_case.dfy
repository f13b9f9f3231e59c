/**
 * `titleCase` of the navigation bar (frontend/src/App.js): lower-case the
 * string, split it on " ", upper-case the first character of every word and
 * join the words again with " ".
 */
module NavTitle {
  import opened Wrappers
  import opened JsText

  /** `word.charAt(0).toUpperCase() + word.slice(1)`; an empty word stays empty. */
  function Capitalize(w: string): string
  {
    if w == [] then [] else [UpperChar(w[0])] + w[1..]
  }

  /** `words.map(Capitalize)` */
  function CapitalizeAll(ws: seq<string>): seq<string>
  {
    if ws == [] then [] else [Capitalize(ws[0])] + CapitalizeAll(ws[1..])
  }

  /** `words.map(w => w.toLowerCase())` */
  function LowerAll(ws: seq<string>): seq<string>
  {
    if ws == [] then [] else [JsLower(ws[0])] + LowerAll(ws[1..])
  }

  /** The split-capitalise-join chain applied to an already lowered string. */
  function CapitalizeWords(l: string): string
  {
    Join(CapitalizeAll(Split(l, ' ')), ' ')
  }

  /**
   * `str?.toLowerCase().split(" ").map(Capitalize).join(" ")`.  `None`
   * stands for both `undefined` and `null`, for which the optional chain
   * yields `undefined`.
   */
  function TitleCase(str: Option<string>): (r: Option<string>)
    ensures r.None? <==> str.None?
  {
    match str
    case None => None
    case Some(s) => Some(CapitalizeWords(JsLower(s)))
  }

  /** Whether position `i` of `l` starts a word. */
  predicate StartsWord(l: string, i: nat)
    requires i < |l|
  {
    i == 0 || l[i - 1] == ' '
  }

  /**
   * Character by character, capitalising the words of `l` upper-cases the
   * first character of every word and keeps every other character.
   */
  lemma {:induction false} CapitalizeWordsAt(l: string)
    ensures |CapitalizeWords(l)| == |l|
    ensures forall i :: 0 <= i < |l| ==>
              CapitalizeWords(l)[i] == if StartsWord(l, i) then UpperChar(l[i]) else l[i]
    decreases |l|
  {
    var r := CapitalizeWords(l);
    if ' ' !in l {
      assert Split(l, ' ') == [l];
      assert CapitalizeAll([l]) == [Capitalize(l)];
      assert r == Capitalize(l);
      forall i | 0 <= i < |l|
        ensures r[i] == if StartsWord(l, i) then UpperChar(l[i]) else l[i]
      {
        if i > 0 { assert l[i - 1] in l; }
      }
    } else {
      var k := IndexOfChar(l, ' ');
      var head, rest := l[..k], l[k + 1..];
      var ws := Split(rest, ' ');
      assert Split(l, ' ') == [head] + ws;
      assert CapitalizeAll([head] + ws) == [Capitalize(head)] + CapitalizeAll(ws) by {
        assert ([head] + ws)[1..] == ws;
      }
      assert |CapitalizeAll(ws)| >= 1 by { CapitalizeAllLength(ws); }
      var tail := CapitalizeWords(rest);
      assert r == Capitalize(head) + [' '] + tail by {
        assert ([Capitalize(head)] + CapitalizeAll(ws))[1..] == CapitalizeAll(ws);
      }
      CapitalizeWordsAt(rest);
      assert |Capitalize(head)| == k;
      forall i | 0 <= i < |l|
        ensures r[i] == if StartsWord(l, i) then UpperChar(l[i]) else l[i]
      {
        if i < k {
          assert l[i] == head[i];
          if i > 0 { assert l[i - 1] == head[i - 1] && head[i - 1] in head; }
        } else if i == k {
          assert r[i] == ' ';
        } else {
          assert r[i] == tail[i - k - 1];
          assert l[i] == rest[i - k - 1];
          if i - k - 1 > 0 { assert l[i - 1] == rest[i - k - 2]; }
        }
      }
    }
  }

  lemma {:induction false} CapitalizeAllLength(ws: seq<string>)
    ensures |CapitalizeAll(ws)| == |ws|
  {
    if ws != [] { CapitalizeAllLength(ws[1..]); }
  }

  /**
   * The title-cased string, character by character: the lower-cased input
   * with the first character of every word upper-cased, spaces in place.
   */
  lemma TitleCaseAt(s: string)
    ensures var l := JsLower(s);
            var r := TitleCase(Some(s)).value;
            |r| == |l| &&
            forall i :: 0 <= i < |l| ==> r[i] == if StartsWord(l, i) then UpperChar(l[i]) else l[i]
  {
    CapitalizeWordsAt(JsLower(s));
  }

  /** On input without U+0130 (in particular on ASCII input) the length is kept. */
  lemma TitleCaseLength(s: string)
    requires '\U{0130}' !in s
    ensures |TitleCase(Some(s)).value| == |s|
  {
    TitleCaseAt(s);
    JsLowerPointwise(s);
  }

  /** Lower-casing a title-cased string gives back the lower-cased input. */
  lemma LowerOfTitleCase(s: string)
    ensures JsLower(TitleCase(Some(s)).value) == JsLower(s)
  {
    var l := JsLower(s);
    var r := CapitalizeWords(l);
    CapitalizeWordsAt(l);
    JsLowerIsLowered(s);
    forall i | 0 <= i < |r| ensures LowerChar(r[i]) == [l[i]] && r[i] != '\U{0130}' {
      LowerCapitalizedChar(l[i], StartsWord(l, i));
    }
    JsLowerPointwise(r);
  }

  /** A lowered character, upper-cased or not, lowers back to itself. */
  lemma LowerCapitalizedChar(c: char, start: bool)
    requires !IsAsciiUpper(c) && c != '\U{0130}' && c != '\U{212A}'
    ensures var d := if start then UpperChar(c) else c;
            LowerChar(d) == [c] && d != '\U{0130}'
  {
  }

  /** `titleCase` is idempotent. */
  lemma TitleCaseIdempotent(s: string)
    ensures TitleCase(TitleCase(Some(s))) == TitleCase(Some(s))
  {
    var r := TitleCase(Some(s)).value;
    LowerOfTitleCase(s);
    assert TitleCase(Some(r)) == Some(CapitalizeWords(JsLower(s)));
  }

  /** Spaces neither appear nor disappear when a word is lowered or capitalised. */
  lemma SpaceFreeWord(w: string)
    requires ' ' !in w
    ensures ' ' !in JsLower(w) && ' ' !in Capitalize(JsLower(w))
  {
    JsLowerSpaces(w);
  }

  lemma {:induction false} JsLowerSpaces(w: string)
    ensures ' ' in JsLower(w) <==> ' ' in w
  {
    if w != [] {
      JsLowerSpaces(w[1..]);
      assert w == [w[0]] + w[1..];
    }
  }

  /** Lower-casing distributes over a join on " ". */
  lemma {:induction false} JsLowerJoin(ws: seq<string>)
    ensures JsLower(Join(ws, ' ')) == Join(LowerAll(ws), ' ')
  {
    if |ws| > 1 {
      JsLowerJoin(ws[1..]);
      JsLowerAppend(ws[0], [' '] + Join(ws[1..], ' '));
      JsLowerAppend([' '], Join(ws[1..], ' '));
      assert ws[0] + [' '] + Join(ws[1..], ' ') == ws[0] + ([' '] + Join(ws[1..], ' '));
      assert LowerAll(ws)[1..] == LowerAll(ws[1..]);
    } else if |ws| == 1 {
      assert LowerAll(ws) == [JsLower(ws[0])];
    }
  }

  /**
   * The words of the result are the words of the input, each lower-cased and
   * then capitalised: as many words, in the same order.
   */
  lemma TitleCaseWords(s: string)
    ensures Split(TitleCase(Some(s)).value, ' ') == CapitalizeAll(LowerAll(Split(s, ' ')))
    ensures |Split(TitleCase(Some(s)).value, ' ')| == |Split(s, ' ')|
  {
    var ws := Split(s, ' ');
    SplitPiecesFree(s, ' ');
    JoinSplit(s, ' ');
    JsLowerJoin(ws);
    LowerAllSpaceFree(ws);
    SplitJoin(LowerAll(ws), ' ');
    CapitalizeAllSpaceFree(LowerAll(ws));
    SplitJoin(CapitalizeAll(LowerAll(ws)), ' ');
    CapitalizeAllLength(LowerAll(ws));
  }

  lemma {:induction false} LowerAllSpaceFree(ws: seq<string>)
    requires forall w :: w in ws ==> ' ' !in w
    ensures |LowerAll(ws)| == |ws|
    ensures forall w :: w in LowerAll(ws) ==> ' ' !in w
  {
    if ws != [] {
      LowerAllSpaceFree(ws[1..]);
      SpaceFreeWord(ws[0]);
    }
  }

  lemma {:induction false} CapitalizeAllSpaceFree(ws: seq<string>)
    requires |ws| >= 1
    requires forall w :: w in ws ==> ' ' !in w
    ensures forall w :: w in CapitalizeAll(ws) ==> ' ' !in w
  {
    if |ws| > 1 { CapitalizeAllSpaceFree(ws[1..]); }
    assert ws[0] in ws;
    assert ' ' !in Capitalize(ws[0]) by {
      if ws[0] != [] { assert ws[0][0] in ws[0]; assert forall j :: 0 <= j < |ws[0][1..]| ==> ws[0][1..][j] in ws[0]; }
    }
  }
}
