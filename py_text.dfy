/**
 * Python's `str.strip()` with no argument, as the report back end applies it
 * to column names and test IDs.
 */
module PyText {
  /** `c.isspace()`: the characters Python counts as whitespace. */
  predicate IsPySpace(c: char) {
    c == ' ' || ('\t' <= c <= '\r') || ('\U{1C}' <= c <= '\U{1F}')
    || c == '\U{85}' || c == '\U{A0}' || c == '\U{1680}'
    || ('\U{2000}' <= c <= '\U{200A}') || c == '\U{2028}' || c == '\U{2029}'
    || c == '\U{202F}' || c == '\U{205F}' || c == '\U{3000}'
  }

  /** `s.lstrip()` */
  function StripStart(s: string): string {
    if s != [] && IsPySpace(s[0]) then StripStart(s[1..]) else s
  }

  /** `s.rstrip()` */
  function StripEnd(s: string): string {
    if s != [] && IsPySpace(s[|s| - 1]) then StripEnd(s[..|s| - 1]) else s
  }

  /** `s.strip()` */
  function Strip(s: string): string {
    StripEnd(StripStart(s))
  }

  /** Stripping the front of leading whitespace followed by a text that does not start with it gives that text. */
  lemma {:induction false} StripStartOfPadded(pre: string, t: string)
    requires forall c :: c in pre ==> IsPySpace(c)
    requires t == [] || !IsPySpace(t[0])
    ensures StripStart(pre + t) == t
  {
    if pre != [] {
      assert (pre + t)[1..] == pre[1..] + t;
      StripStartOfPadded(pre[1..], t);
    }
  }

  /** Stripping the end of a text that does not end in whitespace, followed by whitespace, gives that text. */
  lemma {:induction false} StripEndOfPadded(t: string, post: string)
    requires forall c :: c in post ==> IsPySpace(c)
    requires t == [] || !IsPySpace(t[|t| - 1])
    ensures StripEnd(t + post) == t
  {
    if post != [] {
      var post' := post[..|post| - 1];
      assert (t + post)[..|t + post| - 1] == t + post';
      assert post[|post| - 1] in post;
      StripEndOfPadded(t, post');
    }
  }

  /**
   * Whitespace around a name does not matter: `strip` gives back any text
   * that neither starts nor ends with whitespace, whatever padding surrounds it.
   */
  lemma StripPadded(pre: string, s: string, post: string)
    requires forall c :: c in pre ==> IsPySpace(c)
    requires forall c :: c in post ==> IsPySpace(c)
    requires s == [] || (!IsPySpace(s[0]) && !IsPySpace(s[|s| - 1]))
    ensures Strip(pre + s + post) == s
  {
    if s == [] {
      assert pre + s + post == (pre + post) + [];
      StripStartOfPadded(pre + post, []);
    } else {
      assert pre + s + post == pre + (s + post);
      StripStartOfPadded(pre, s + post);
      StripEndOfPadded(s, post);
    }
  }
}
