/**
 * The JavaScript string primitives the upload page and the navigation bar
 * rely on: `toLowerCase`, `trim`, `split` on a one-character separator and
 * `join`.  Strings are sequences of Unicode scalar values.
 */
module JsText {

  /** ASCII capitals. */
  predicate IsAsciiUpper(c: char) {
    'A' <= c <= 'Z'
  }

  /** ASCII small letters. */
  predicate IsAsciiLower(c: char) {
    'a' <= c <= 'z'
  }

  /**
   * The lower-case mapping of one character, as `toLowerCase` applies it.
   * Every capital whose lower case contains an ASCII letter is mapped:
   * A-Z, U+0130 (LATIN CAPITAL LETTER I WITH DOT ABOVE, which becomes "i"
   * followed by U+0307) and U+212A (KELVIN SIGN, which becomes "k").  Other
   * characters are kept as they are.
   */
  function LowerChar(c: char): seq<char>
  {
    if IsAsciiUpper(c) then [(c as int + 32) as char]
    else if c == '\U{0130}' then ['i', '\U{0307}']
    else if c == '\U{212A}' then ['k']
    else [c]
  }

  /**
   * A character's lower case is one character, except for U+0130 whose is
   * two, and holds no capital that a second lower-casing would map.
   */
  lemma LowerCharFacts(c: char)
    ensures |LowerChar(c)| == if c == '\U{0130}' then 2 else 1
    ensures forall d :: d in LowerChar(c) ==> !IsAsciiUpper(d) && d != '\U{0130}' && d != '\U{212A}'
  {
  }

  /** ASCII upper-case mapping of one character; other characters are kept. */
  function UpperChar(c: char): (r: char)
    ensures IsAsciiLower(c) ==> IsAsciiUpper(r)
    ensures !IsAsciiLower(c) ==> r == c
  {
    if IsAsciiLower(c) then (c as int - 32) as char else c
  }

  /** `s.toLowerCase()` */
  function JsLower(s: string): string
  {
    if s == [] then [] else LowerChar(s[0]) + JsLower(s[1..])
  }

  /** A string that `toLowerCase` leaves as it is. */
  predicate IsLowered(s: string) {
    forall i :: 0 <= i < |s| ==> !IsAsciiUpper(s[i]) && s[i] != '\U{0130}' && s[i] != '\U{212A}'
  }

  lemma {:induction false} JsLowerAppend(a: string, b: string)
    ensures JsLower(a + b) == JsLower(a) + JsLower(b)
  {
    if a != [] {
      assert (a + b)[0] == a[0] && (a + b)[1..] == a[1..] + b;
      JsLowerAppend(a[1..], b);
      calc {
        JsLower(a + b);
        LowerChar(a[0]) + JsLower(a[1..] + b);
        LowerChar(a[0]) + (JsLower(a[1..]) + JsLower(b));
        (LowerChar(a[0]) + JsLower(a[1..])) + JsLower(b);
      }
    } else {
      assert a + b == b;
    }
  }

  /** The result of `toLowerCase` has no capital left for a second call to map. */
  lemma {:induction false} JsLowerIsLowered(s: string)
    ensures IsLowered(JsLower(s))
  {
    if s != [] {
      JsLowerIsLowered(s[1..]);
      LowerCharFacts(s[0]);
    }
  }

  /** On a string with no capital, `toLowerCase` is the identity. */
  lemma {:induction false} JsLowerOfLowered(s: string)
    requires IsLowered(s)
    ensures JsLower(s) == s
  {
    if s != [] {
      JsLowerOfLowered(s[1..]);
    }
  }

  /** `toLowerCase` is idempotent. */
  lemma JsLowerIdempotent(s: string)
    ensures JsLower(JsLower(s)) == JsLower(s)
  {
    JsLowerIsLowered(s);
    JsLowerOfLowered(JsLower(s));
  }

  /** Without U+0130 in the input, `toLowerCase` maps character by character. */
  lemma {:induction false} JsLowerPointwise(s: string)
    requires '\U{0130}' !in s
    ensures |JsLower(s)| == |s|
    ensures forall i :: 0 <= i < |s| ==> JsLower(s)[i] == LowerChar(s[i])[0]
  {
    if s != [] {
      JsLowerPointwise(s[1..]);
      LowerCharFacts(s[0]);
    }
  }

  /**
   * The characters `String.prototype.trim` removes: the WhiteSpace and
   * LineTerminator code points of ECMAScript (section 12.2 and 12.3 of
   * ECMA-262), with the space separators of Unicode category Zs.
   */
  predicate IsJsSpace(c: char) {
    || c == '\t' || c == '\U{000B}' || c == '\U{000C}' || c == ' '
    || c == '\U{00A0}' || c == '\U{FEFF}' || c == '\U{1680}'
    || ('\U{2000}' <= c <= '\U{200A}')
    || c == '\U{202F}' || c == '\U{205F}' || c == '\U{3000}'
    || c == '\n' || c == '\r' || c == '\U{2028}' || c == '\U{2029}'
  }

  /** Drops leading white space: the result is a suffix of `s`. */
  function TrimStart(s: string): (r: string)
    ensures |r| <= |s| && r == s[|s| - |r|..]
    ensures forall k :: 0 <= k < |s| - |r| ==> IsJsSpace(s[k])
    ensures r != [] ==> !IsJsSpace(r[0])
  {
    if s != [] && IsJsSpace(s[0]) then TrimStart(s[1..]) else s
  }

  /** Drops trailing white space: the result is a prefix of `s`. */
  function TrimEnd(s: string): (r: string)
    ensures |r| <= |s| && r == s[..|r|]
    ensures forall k :: |r| <= k < |s| ==> IsJsSpace(s[k])
    ensures r != [] ==> !IsJsSpace(r[|r| - 1])
  {
    if s != [] && IsJsSpace(s[|s| - 1]) then TrimEnd(s[..|s| - 1]) else s
  }

  /**
   * `s.trim()`: the infix of `s` left after white space is removed at both
   * ends; everything removed is white space.
   */
  function Trim(s: string): (r: string)
    ensures exists i :: 0 <= i <= |s| - |r| && r == s[i..][..|r|]
                        && (forall k :: 0 <= k < i ==> IsJsSpace(s[k]))
                        && (forall k :: i + |r| <= k < |s| ==> IsJsSpace(s[k]))
    ensures r != [] ==> !IsJsSpace(r[0]) && !IsJsSpace(r[|r| - 1])
  {
    var t := TrimStart(s);
    var r := TrimEnd(t);
    var i := |s| - |t|;
    assert r == s[i..][..|r|];
    r
  }

  /** Position of the first `sep` in `s`. */
  function IndexOfChar(s: string, sep: char): (i: nat)
    requires sep in s
    ensures i < |s| && s[i] == sep && sep !in s[..i]
  {
    if s[0] == sep then 0 else 1 + IndexOfChar(s[1..], sep)
  }

  /**
   * `s.split(sep)` for a one-character separator: the pieces between the
   * separators, empty pieces included, so there is always at least one.
   */
  function Split(s: string, sep: char): (ws: seq<string>)
    ensures |ws| >= 1
    decreases |s|
  {
    if sep !in s then [s]
    else
      var i := IndexOfChar(s, sep);
      [s[..i]] + Split(s[i + 1..], sep)
  }

  /** No piece of a split holds the separator. */
  lemma {:induction false} SplitPiecesFree(s: string, sep: char)
    ensures forall w :: w in Split(s, sep) ==> sep !in w
    decreases |s|
  {
    if sep in s {
      var i := IndexOfChar(s, sep);
      SplitPiecesFree(s[i + 1..], sep);
    }
  }

  /** `ws.join(sep)` for a one-character separator. */
  function Join(ws: seq<string>, sep: char): string
  {
    if |ws| == 0 then ""
    else if |ws| == 1 then ws[0]
    else ws[0] + [sep] + Join(ws[1..], sep)
  }

  /** Joining the pieces of a split gives the string back. */
  lemma {:induction false} JoinSplit(s: string, sep: char)
    ensures Join(Split(s, sep), sep) == s
    decreases |s|
  {
    if sep in s {
      var i := IndexOfChar(s, sep);
      JoinSplit(s[i + 1..], sep);
      assert s == s[..i] + [sep] + s[i + 1..];
    }
  }

  /** Splitting a join of separator-free pieces gives the pieces back. */
  lemma {:induction false} SplitJoin(ws: seq<string>, sep: char)
    requires |ws| >= 1
    requires forall w :: w in ws ==> sep !in w
    ensures Split(Join(ws, sep), sep) == ws
  {
    if |ws| > 1 {
      var s := Join(ws, sep);
      var rest := Join(ws[1..], sep);
      assert s == ws[0] + [sep] + rest;
      assert s[|ws[0]|] == sep;
      assert ws[0] in ws && s[..|ws[0]|] == ws[0];
      var i := IndexOfChar(s, sep);
      assert s[..i] == ws[0];
      assert s[i + 1..] == rest;
      SplitJoin(ws[1..], sep);
    } else {
      assert Join(ws, sep) == ws[0];
    }
  }

  /** The last piece of a split is the text after the last separator. */
  lemma SplitLast(a: string, sep: char, e: string)
    requires sep !in e
    ensures var ws := Split(a + [sep] + e, sep); ws[|ws| - 1] == e
  {
    var wa := Split(a, sep);
    JoinSplit(a, sep);
    JoinSnoc(wa, e, sep);
    SplitPiecesFree(a, sep);
    SplitJoin(wa + [e], sep);
  }

  /** Joining one more piece appends the separator and the piece. */
  lemma {:induction false} JoinSnoc(ws: seq<string>, w: string, sep: char)
    requires |ws| >= 1
    ensures Join(ws + [w], sep) == Join(ws, sep) + [sep] + w
  {
    if |ws| > 1 {
      assert (ws + [w])[1..] == ws[1..] + [w];
      JoinSnoc(ws[1..], w, sep);
    }
  }

}
