/**
 * The two string facilities of the JavaScript language the contact form
 * relies on: `String.prototype.trim` and the regular-expression class `\s`.
 * Both are defined over the same set of characters, the ECMAScript
 * WhiteSpace and LineTerminator code points.  The facts about stripping are
 * proved for any whitespace test `ws` and then used with `IsWs`.
 */
module JsStrings {

  /**
   * ECMAScript WhiteSpace (tab, vertical tab, form feed, the byte order mark
   * and the Zs space separators) and LineTerminator (line feed, carriage
   * return, line and paragraph separators): the characters both `trim` and
   * `\s` treat as whitespace.
   */
  predicate IsWs(c: char)
    ensures IsWs(c) ==> c != '@' && c != '.'
  {
    || c == '\t' || c == '\n' || c == '\U{000B}' || c == '\U{000C}' || c == '\r'
    || c == ' ' || c == '\U{00A0}' || c == '\U{1680}'
    || ('\U{2000}' <= c <= '\U{200A}')
    || c == '\U{2028}' || c == '\U{2029}' || c == '\U{202F}' || c == '\U{205F}'
    || c == '\U{3000}' || c == '\U{FEFF}'
  }

  /** Every whitespace character is a single UTF-16 code unit, so trimming code units and trimming characters agree. */
  lemma WsInBasicPlane(c: char)
    ensures IsWs(c) ==> c as int < 0x1_0000
  {
  }

  /** Every character of s passes ws (the empty string included). */
  predicate AllPass(ws: char -> bool, s: string)
  {
    forall i :: 0 <= i < |s| ==> ws(s[i])
  }

  /** Every character of s is whitespace (the empty string included). */
  predicate AllWs(s: string)
  {
    AllPass(IsWs, s)
  }

  /** r is the slice of s starting at lo, and only ws characters lie outside it. */
  predicate SliceBetween(ws: char -> bool, s: string, r: string, lo: int)
  {
    && 0 <= lo <= |s| - |r|
    && r == s[lo..lo + |r|]
    && (forall i :: 0 <= i < lo ==> ws(s[i]))
    && (forall i :: lo + |r| <= i < |s| ==> ws(s[i]))
  }

  /** r has no ws character at either end. */
  predicate TrimmedEnds(ws: char -> bool, r: string)
  {
    r != [] ==> !ws(r[0]) && !ws(r[|r| - 1])
  }

  /**
   * s with the ws characters at both ends removed: a slice with only ws
   * around it and none at its ends, empty exactly when s is all ws.
   */
  function Strip(ws: char -> bool, s: string): (r: string)
    ensures exists lo :: SliceBetween(ws, s, r, lo)
    ensures TrimmedEnds(ws, r)
    ensures r == [] <==> AllPass(ws, s)
    decreases |s|
  {
    if s != [] && ws(s[0]) then
      var r := Strip(ws, s[1..]);
      DropFirst(ws, s, s[1..], r);
      r
    else if s != [] && ws(s[|s| - 1]) then
      var r := Strip(ws, s[..|s| - 1]);
      DropLast(ws, s, s[..|s| - 1], r);
      r
    else
      assert SliceBetween(ws, s, s, 0);
      s
  }

  /** A leading ws character lies outside the slice and does not change whether s is all ws. */
  lemma DropFirst(ws: char -> bool, s: string, t: string, r: string)
    requires s != [] && ws(s[0]) && t == s[1..]
    requires exists lo :: SliceBetween(ws, t, r, lo)
    requires r == [] <==> AllPass(ws, t)
    ensures exists lo :: SliceBetween(ws, s, r, lo)
    ensures r == [] <==> AllPass(ws, s)
  {
    var lo :| SliceBetween(ws, t, r, lo);
    forall i | 0 < i < |s|
      ensures s[i] == t[i - 1]
    {
    }
    assert t[lo..lo + |r|] == s[lo + 1..lo + 1 + |r|];
    assert SliceBetween(ws, s, r, lo + 1);
    if AllPass(ws, s) {
      assert forall i :: 0 <= i < |t| ==> t[i] == s[i + 1];
    }
  }

  /** A trailing ws character lies outside the slice and does not change whether s is all ws. */
  lemma DropLast(ws: char -> bool, s: string, t: string, r: string)
    requires s != [] && ws(s[|s| - 1]) && t == s[..|s| - 1]
    requires exists lo :: SliceBetween(ws, t, r, lo)
    requires r == [] <==> AllPass(ws, t)
    ensures exists lo :: SliceBetween(ws, s, r, lo)
    ensures r == [] <==> AllPass(ws, s)
  {
    var lo :| SliceBetween(ws, t, r, lo);
    assert forall i :: 0 <= i < |t| ==> s[i] == t[i];
    assert t[lo..lo + |r|] == s[lo..lo + |r|];
    assert SliceBetween(ws, s, r, lo);
  }

  /** Where in s the stripped slice starts. */
  lemma StripOffset(ws: char -> bool, s: string) returns (lo: int)
    ensures SliceBetween(ws, s, Strip(ws, s), lo)
  {
    lo :| SliceBetween(ws, s, Strip(ws, s), lo);
  }

  /** A slice with no ws at its ends lies inside every slice with only ws around it. */
  lemma SliceWithin(ws: char -> bool, s: string, r: string, lo: int, t: string, lo': int)
    requires SliceBetween(ws, s, r, lo)
    requires SliceBetween(ws, s, t, lo') && TrimmedEnds(ws, t)
    ensures t != [] ==> r != [] && lo <= lo' && lo' + |t| <= lo + |r|
  {
    if t != [] {
      assert s[lo'] == t[0];
      assert s[lo' + |t| - 1] == t[|t| - 1];
    }
  }

  /** Two slices of s, each with only ws around it and none at its ends, are the same slice. */
  lemma SliceIsUnique(ws: char -> bool, s: string, r: string, lo: int, t: string, lo': int)
    requires SliceBetween(ws, s, r, lo) && TrimmedEnds(ws, r)
    requires SliceBetween(ws, s, t, lo') && TrimmedEnds(ws, t)
    ensures r == t
  {
    SliceWithin(ws, s, r, lo, t, lo');
    SliceWithin(ws, s, t, lo', r, lo);
    if t != [] {
      assert lo == lo' && |r| == |t|;
    }
  }

  /** The stripped slice is the only slice of s with only ws around it and none at its ends. */
  lemma StripIsUnique(ws: char -> bool, s: string, r: string, lo: int)
    requires SliceBetween(ws, s, r, lo)
    requires TrimmedEnds(ws, r)
    ensures Strip(ws, s) == r
  {
    var lo' := StripOffset(ws, s);
    SliceIsUnique(ws, s, r, lo, Strip(ws, s), lo');
  }

  /** A slice of s with only ws around it stays one once s is padded with ws characters. */
  lemma PaddedSlice(ws: char -> bool, pre: string, s: string, post: string, r: string, lo: int)
    requires AllPass(ws, pre) && AllPass(ws, post)
    requires SliceBetween(ws, s, r, lo)
    ensures SliceBetween(ws, pre + s + post, r, |pre| + lo)
  {
    var p := pre + s + post;
    var lo' := |pre| + lo;
    assert p[lo'..lo' + |r|] == s[lo..lo + |r|];
    forall i | 0 <= i < lo' ensures ws(p[i]) {
      if i < |pre| { assert p[i] == pre[i]; } else { assert p[i] == s[i - |pre|]; }
    }
    forall i | lo' + |r| <= i < |p| ensures ws(p[i]) {
      if i < |pre| + |s| { assert p[i] == s[i - |pre|]; } else { assert p[i] == post[i - |pre| - |s|]; }
    }
  }

  /** ws characters added at either end of s are removed again by stripping. */
  lemma StripPadded(ws: char -> bool, pre: string, s: string, post: string)
    requires AllPass(ws, pre) && AllPass(ws, post)
    ensures Strip(ws, pre + s + post) == Strip(ws, s)
  {
    var r := Strip(ws, s);
    var lo := StripOffset(ws, s);
    PaddedSlice(ws, pre, s, post, r, lo);
    StripIsUnique(ws, pre + s + post, r, |pre| + lo);
  }

  /**
   * `String.prototype.trim`: the slice of s that remains once the whitespace
   * at both ends is removed; it is empty exactly when s is all whitespace.
   */
  function Trim(s: string): (r: string)
    ensures exists lo :: SliceBetween(IsWs, s, r, lo)
    ensures r != [] ==> !IsWs(r[0]) && !IsWs(r[|r| - 1])
    ensures r == [] <==> AllWs(s)
  {
    Strip(IsWs, s)
  }

  /** Any slice of s with only whitespace around it and none at its ends is what `trim` returns. */
  lemma TrimIsUnique(s: string, r: string, lo: int)
    requires SliceBetween(IsWs, s, r, lo)
    requires r != [] ==> !IsWs(r[0]) && !IsWs(r[|r| - 1])
    ensures Trim(s) == r
  {
    StripIsUnique(IsWs, s, r, lo);
  }

  /** Whitespace added at either end of s is removed again by `trim`. */
  lemma TrimPadded(pre: string, s: string, post: string)
    requires AllWs(pre) && AllWs(post)
    ensures Trim(pre + s + post) == Trim(s)
    ensures AllWs(pre + s + post) <==> AllWs(s)
  {
    StripPadded(IsWs, pre, s, post);
  }
}
