/**
 * The ECMAScript string built-ins the plug-in relies on, over `string` (a sequence of
 * Unicode scalar values): `trim`, `replaceAll` of one character, `split` on a set of
 * separator characters and `join`.
 */
module Text {

  /** The code points `String.prototype.trim` strips: ECMAScript WhiteSpace and LineTerminator. */
  predicate IsWhiteSpace(c: char) {
    || c == '\t' || c == '\n' || c == '\U{000B}' || c == '\U{000C}' || c == '\r' || c == ' '
    || c == '\U{00A0}' || c == '\U{1680}' || ('\U{2000}' <= c <= '\U{200A}')
    || c == '\U{2028}' || c == '\U{2029}' || c == '\U{202F}' || c == '\U{205F}'
    || c == '\U{3000}' || c == '\U{FEFF}'
  }

  /** Every character of `s` is white space (the empty string included). */
  predicate Blank(s: string) {
    forall i :: 0 <= i < |s| ==> IsWhiteSpace(s[i])
  }

  /** `s` has no white space at either end. */
  predicate Trimmed(s: string) {
    s == [] || (!IsWhiteSpace(s[0]) && !IsWhiteSpace(s[|s| - 1]))
  }

  /** Drops the leading white space: the result is the suffix of `s` after it. */
  function TrimStart(s: string): (r: string)
    ensures |r| <= |s| && r == s[|s| - |r|..]
    ensures forall i :: 0 <= i < |s| - |r| ==> IsWhiteSpace(s[i])
    ensures r == [] || !IsWhiteSpace(r[0])
  {
    if s != [] && IsWhiteSpace(s[0]) then TrimStart(s[1..]) else s
  }

  /** Drops the trailing white space: the result is the prefix of `s` before it. */
  function TrimEnd(s: string): (r: string)
    ensures |r| <= |s| && r == s[..|r|]
    ensures forall i :: |r| <= i < |s| ==> IsWhiteSpace(s[i])
    ensures r == [] || !IsWhiteSpace(r[|r| - 1])
  {
    if s != [] && IsWhiteSpace(s[|s| - 1]) then TrimEnd(s[..|s| - 1]) else s
  }

  /** `String.prototype.trim`. */
  function Trim(s: string): (r: string)
    ensures |r| <= |s|
    ensures Trimmed(r)
    ensures r == [] <==> Blank(s)
  {
    var t := TrimStart(s);
    var r := TrimEnd(t);
    assert r == [] ==> t == [] by {
      if r == [] && t != [] {
        assert false;
      }
    }
    r
  }

  /** A string with no white space at either end is its own trim. */
  lemma TrimOfTrimmed(s: string)
    requires Trimmed(s)
    ensures Trim(s) == s
  {
  }

  /** Appending after a non-blank tail does not change what the leading trim removes. */
  lemma {:induction false} TrimStartAppend(v: string, w: string)
    requires v != [] && !IsWhiteSpace(v[|v| - 1])
    ensures TrimStart(v + w) == TrimStart(v) + w
  {
    if IsWhiteSpace(v[0]) {
      assert (v + w)[1..] == v[1..] + w;
      TrimStartAppend(v[1..], w);
    }
  }

  /** `s.replaceAll("\\", "/")`. */
  function ReplaceBackslashes(s: string): (r: string)
    ensures |r| == |s| && '\\' !in r
    ensures forall i :: 0 <= i < |s| && s[i] != '\\' ==> r[i] == s[i]
    ensures forall i :: 0 <= i < |s| && s[i] == '\\' ==> r[i] == '/'
  {
    seq(|s|, i requires 0 <= i < |s| => if s[i] == '\\' then '/' else s[i])
  }

  lemma ReplaceBackslashesAppend(a: string, b: string)
    ensures ReplaceBackslashes(a + b) == ReplaceBackslashes(a) + ReplaceBackslashes(b)
  {
  }

  /** A string without backslashes is left as it is. */
  lemma ReplaceBackslashesIdentity(s: string)
    requires '\\' !in s
    ensures ReplaceBackslashes(s) == s
  {
  }

  /** Replacing backslashes maps white space to white space and nothing else to it, so it commutes with the leading trim. */
  lemma {:induction false} TrimStartReplace(s: string)
    ensures TrimStart(ReplaceBackslashes(s)) == ReplaceBackslashes(TrimStart(s))
  {
    if s != [] {
      var r := ReplaceBackslashes(s);
      assert IsWhiteSpace(r[0]) <==> IsWhiteSpace(s[0]);
      if IsWhiteSpace(s[0]) {
        assert r[1..] == ReplaceBackslashes(s[1..]);
        TrimStartReplace(s[1..]);
      }
    }
  }

  lemma {:induction false} TrimEndReplace(s: string)
    ensures TrimEnd(ReplaceBackslashes(s)) == ReplaceBackslashes(TrimEnd(s))
  {
    if s != [] {
      assert ReplaceBackslashes(s)[..|s| - 1] == ReplaceBackslashes(s[..|s| - 1]);
      if IsWhiteSpace(s[|s| - 1]) {
        TrimEndReplace(s[..|s| - 1]);
      }
    }
  }

  /** `trim` and backslash replacement commute. */
  lemma TrimReplace(s: string)
    ensures Trim(ReplaceBackslashes(s)) == ReplaceBackslashes(Trim(s))
  {
    TrimStartReplace(s);
    TrimEndReplace(TrimStart(s));
  }

  /** No character of `t` is a separator. */
  predicate Free(t: string, seps: set<char>) {
    forall i :: 0 <= i < |t| ==> t[i] !in seps
  }

  /**
   * `s.split(sep)` where `sep` matches any one character of `seps` (a string separator of
   * length one, or a regular expression that is a character class): the pieces between
   * separators, in order, with an empty piece before a leading, after a trailing and between
   * two adjacent separators; the empty string splits into one empty piece.
   */
  function Split(s: string, seps: set<char>): (parts: seq<string>)
    ensures |parts| >= 1
    ensures forall k :: 0 <= k < |parts| ==> Free(parts[k], seps)
  {
    if s == [] then [""]
    else
      var rest := Split(s[1..], seps);
      if s[0] in seps then [""] + rest
      else
        assert Free(rest[0], seps);
        [[s[0]] + rest[0]] + rest[1..]
  }

  /** A string without separators is one piece. */
  lemma {:induction false} SplitFree(s: string, seps: set<char>)
    requires Free(s, seps)
    ensures Split(s, seps) == [s]
  {
    if s != [] {
      SplitFree(s[1..], seps);
      assert s[0] !in seps;
      assert [s[0]] + s[1..] == s;
    }
  }

  /** Splitting at the first separator: the piece before it, then the split of the rest. */
  lemma {:induction false} SplitAt(a: string, c: char, b: string, seps: set<char>)
    requires Free(a, seps) && c in seps
    ensures Split(a + [c] + b, seps) == [a] + Split(b, seps)
  {
    if a == [] {
      assert (a + [c] + b)[1..] == b;
    } else {
      assert (a + [c] + b)[1..] == a[1..] + [c] + b;
      assert (a + [c] + b)[0] == a[0] && a[0] !in seps;
      SplitAt(a[1..], c, b, seps);
      assert [a[0]] + a[1..] == a;
    }
  }

  /** The last piece is the longest suffix of `s` without a separator; it is all of `s` exactly when there is one piece. */
  lemma {:induction false} SplitLast(s: string, seps: set<char>)
    ensures var p := Split(s, seps); var l := p[|p| - 1];
      && |l| <= |s| && l == s[|s| - |l|..]
      && (|l| == |s| || s[|s| - |l| - 1] in seps)
      && (|p| == 1 <==> |l| == |s|)
  {
    if s != [] {
      var tail := s[1..];
      SplitLast(tail, seps);
      var rest := Split(tail, seps);
      var t := rest[|rest| - 1];
      var p := Split(s, seps);
      assert tail[|tail| - |t|..] == s[|s| - |t|..];
      if s[0] in seps {
        assert p == [""] + rest;
        assert p[|p| - 1] == t;
        if |t| < |tail| {
          assert tail[|tail| - |t| - 1] == s[|s| - |t| - 1];
        }
      } else if |rest| == 1 {
        assert p == [[s[0]] + rest[0]];
        assert [s[0]] + tail == s;
      } else {
        assert p == [[s[0]] + rest[0]] + rest[1..];
        assert p[|p| - 1] == t;
        assert tail[|tail| - |t| - 1] == s[|s| - |t| - 1];
      }
    }
  }

  /** `parts.join(sep)`. */
  function Join(parts: seq<string>, sep: string): (r: string)
    ensures |parts| == 1 ==> r == parts[0]
  {
    if parts == [] then ""
    else if |parts| == 1 then parts[0]
    else parts[0] + sep + Join(parts[1..], sep)
  }

  /** Joining with one separator character and splitting on it again gives the pieces back. */
  lemma {:induction false} SplitJoin(parts: seq<string>, c: char, seps: set<char>)
    requires |parts| >= 1 && c in seps
    requires forall k :: 0 <= k < |parts| ==> Free(parts[k], seps)
    ensures Split(Join(parts, [c]), seps) == parts
  {
    if |parts| == 1 {
      SplitFree(parts[0], seps);
    } else {
      SplitJoin(parts[1..], c, seps);
      assert Join(parts, [c]) == parts[0] + [c] + Join(parts[1..], [c]);
      SplitAt(parts[0], c, Join(parts[1..], [c]), seps);
    }
  }
}
