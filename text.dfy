/** Python string primitives the core relies on: the whitespace class shared by
    str.strip(), str.isspace() and the regular-expression class `\s`, stripping a
    class of characters from both ends, prefix and suffix removal, and the case
    folding used for case-insensitive matching. */
module Text {

  /** Python's whitespace characters (str.isspace): the ASCII controls TAB..CR,
      the separators U+001C..U+001F, SPACE, NEL, NO-BREAK SPACE and the Unicode
      space separators. */
  predicate IsWhitespace(c: char) {
    || ('\t' <= c <= '\r')
    || ('\U{1C}' <= c <= '\U{1F}')
    || c == ' '
    || c == '\U{85}'
    || c == '\U{A0}'
    || c == '\U{1680}'
    || ('\U{2000}' <= c <= '\U{200A}')
    || c == '\U{2028}'
    || c == '\U{2029}'
    || c == '\U{202F}'
    || c == '\U{205F}'
    || c == '\U{3000}'
  }

  predicate IsBacktick(c: char) {
    c == '`'
  }

  predicate NoWhitespace(s: string) {
    forall i :: 0 <= i < |s| ==> !IsWhitespace(s[i])
  }

  predicate AllWhitespace(s: string) {
    forall i :: 0 <= i < |s| ==> IsWhitespace(s[i])
  }

  /** Neither end of `s` is a character of the class `drop`. */
  predicate BareEnds(s: string, drop: char -> bool) {
    s == [] || (!drop(s[0]) && !drop(s[|s| - 1]))
  }

  /** str.lstrip(chars): the longest suffix of `s` that does not start with a dropped character. */
  function StripStart(s: string, drop: char -> bool): (r: string)
    ensures |r| <= |s| && r == s[|s| - |r|..]
    ensures r == [] || !drop(r[0])
    ensures forall k :: 0 <= k < |s| - |r| ==> drop(s[k])
  {
    if s != [] && drop(s[0]) then StripStart(s[1..], drop) else s
  }

  /** str.rstrip(chars): the longest prefix of `s` that does not end with a dropped character. */
  function StripEnd(s: string, drop: char -> bool): (r: string)
    ensures |r| <= |s| && r == s[..|r|]
    ensures r == [] || !drop(r[|r| - 1])
    ensures forall k :: |r| <= k < |s| ==> drop(s[k])
  {
    if s != [] && drop(s[|s| - 1]) then StripEnd(s[..|s| - 1], drop) else s
  }

  /** str.strip(chars): drop the class from both ends; a string is its own strip
      exactly when neither end belongs to the class. */
  function Strip(s: string, drop: char -> bool): (r: string)
    ensures BareEnds(r, drop)
    ensures r == s <==> BareEnds(s, drop)
  {
    var t := StripStart(s, drop);
    var r := StripEnd(t, drop);
    assert r != [] ==> r[0] == t[0];
    r
  }

  /** Any suffix of `s` meeting StripStart's contract is StripStart's result. */
  lemma {:induction false} StripStartUnique(s: string, drop: char -> bool, t: string)
    requires |t| <= |s| && t == s[|s| - |t|..]
    requires t == [] || !drop(t[0])
    requires forall k :: 0 <= k < |s| - |t| ==> drop(s[k])
    ensures StripStart(s, drop) == t
  {
    if s != [] && drop(s[0]) {
      assert t != [] ==> t[0] == s[|s| - |t|];
      assert t == s[1..][|s| - 1 - |t|..];
      StripStartUnique(s[1..], drop, t);
    }
  }

  /** Any prefix of `s` meeting StripEnd's contract is StripEnd's result. */
  lemma {:induction false} StripEndUnique(s: string, drop: char -> bool, t: string)
    requires |t| <= |s| && t == s[..|t|]
    requires t == [] || !drop(t[|t| - 1])
    requires forall k :: |t| <= k < |s| ==> drop(s[k])
    ensures StripEnd(s, drop) == t
  {
    if s != [] && drop(s[|s| - 1]) {
      assert t != [] ==> t[|t| - 1] == s[|t| - 1];
      assert t == s[..|s| - 1][..|t|];
      StripEndUnique(s[..|s| - 1], drop, t);
    }
  }

  /** Stripping a class removes any padding of that class around a bare core. */
  lemma StripPadded(pre: string, core: string, post: string, drop: char -> bool)
    requires forall k :: 0 <= k < |pre| ==> drop(pre[k])
    requires forall k :: 0 <= k < |post| ==> drop(post[k])
    requires core != [] && BareEnds(core, drop)
    ensures Strip(pre + core + post, drop) == core
  {
    var s := pre + core + post;
    StripStartUnique(s, drop, core + post);
    StripEndUnique(core + post, drop, core);
  }

  /** str.removeprefix */
  function RemovePrefix(s: string, p: string): (r: string)
    ensures p <= s ==> p + r == s
    ensures !(p <= s) ==> r == s
  {
    if p <= s then s[|p|..] else s
  }

  /** str.removesuffix */
  function RemoveSuffix(s: string, p: string): (r: string)
    ensures |p| <= |s| && s[|s| - |p|..] == p ==> r + p == s
    ensures !(|p| <= |s| && s[|s| - |p|..] == p) ==> r == s
  {
    if |p| <= |s| && s[|s| - |p|..] == p then s[..|s| - |p|] else s
  }

  /** Case folding used for case-insensitive matching (ASCII letters only). */
  function Fold(c: char): (d: char)
    ensures 'A' <= c <= 'Z' ==> 'a' <= d <= 'z' && d as int - c as int == 32
    ensures !('A' <= c <= 'Z') ==> d == c
  {
    if 'A' <= c <= 'Z' then (c as int + 32) as char else c
  }

  /** `a` and `b` are the same string up to case. */
  predicate EqualIgnoringCase(a: string, b: string) {
    |a| == |b| && forall k :: 0 <= k < |a| ==> Fold(a[k]) == Fold(b[k])
  }
}
