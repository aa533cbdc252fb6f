/**
 * ECMAScript `encodeURI` (ECMA-262, the `encodeURI` function and the abstract operation Encode
 * of the clause "URI Handling Functions"): every character outside the set the function keeps
 * is written as the UTF-8 bytes of its code point, each as `%` and two upper-case hex digits.
 */
module Uri {

  predicate IsAlphaNumeric(c: char) {
    ('a' <= c <= 'z') || ('A' <= c <= 'Z') || ('0' <= c <= '9')
  }

  /** The characters `encodeURI` copies unchanged: uriAlpha, DecimalDigit, uriMark, uriReserved and `#`. */
  predicate Unescaped(c: char) {
    || IsAlphaNumeric(c)
    || c == '-' || c == '_' || c == '.' || c == '!' || c == '~' || c == '*' || c == '\'' || c == '(' || c == ')'
    || c == ';' || c == '/' || c == '?' || c == ':' || c == '@' || c == '&' || c == '=' || c == '+' || c == '$'
    || c == ',' || c == '#'
  }

  predicate IsHexDigit(c: char) {
    ('0' <= c <= '9') || ('A' <= c <= 'F')
  }

  predicate IsByte(b: int) {
    0 <= b < 256
  }

  /** The UTF-8 encoding of one Unicode scalar value (RFC 3629, section 3). */
  function Utf8(c: char): (bytes: seq<int>)
    ensures 1 <= |bytes| <= 4
    ensures forall i :: 0 <= i < |bytes| ==> IsByte(bytes[i])
    ensures |bytes| == 1 <==> (c as int) < 0x80
    ensures |bytes| == 1 ==> bytes[0] == c as int
    ensures forall i :: 1 <= i < |bytes| ==> 0x80 <= bytes[i] < 0xC0
  {
    var n := c as int;
    if n < 0x80 then [n]
    else if n < 0x800 then [0xC0 + n / 0x40, 0x80 + n % 0x40]
    else if n < 0x1_0000 then [0xE0 + n / 0x1000, 0x80 + (n / 0x40) % 0x40, 0x80 + n % 0x40]
    else [0xF0 + n / 0x4_0000, 0x80 + (n / 0x1000) % 0x40, 0x80 + (n / 0x40) % 0x40, 0x80 + n % 0x40]
  }

  /** The upper-case hex digit of a value below 16. */
  function HexDigit(d: int): (c: char)
    requires 0 <= d < 16
    ensures IsHexDigit(c) && HexValue(c) == d
  {
    if d < 10 then ('0' as int + d) as char else ('A' as int + d - 10) as char
  }

  /** Each byte as `%` followed by its two upper-case hex digits. */
  function PercentEncode(bytes: seq<int>): (r: string)
    requires forall i :: 0 <= i < |bytes| ==> IsByte(bytes[i])
    ensures |r| == 3 * |bytes|
    ensures forall i :: 0 <= i < |r| ==> r[i] == '%' || IsHexDigit(r[i])
    ensures PercentRun(r)
  {
    if bytes == [] then ""
    else
      var b := bytes[0];
      assert IsByte(b);
      var h := ['%', HexDigit(b / 16), HexDigit(b % 16)];
      var t := PercentEncode(bytes[1..]);
      assert (h + t)[3..] == t;
      h + t
  }

  /** `s` is a run of `%XY` triples. */
  predicate PercentRun(s: string) {
    s == [] || (|s| >= 3 && s[0] == '%' && IsHexDigit(s[1]) && IsHexDigit(s[2]) && PercentRun(s[3..]))
  }

  function HexValue(c: char): (d: int)
    requires IsHexDigit(c)
    ensures 0 <= d < 16
  {
    if c <= '9' then c as int - '0' as int else c as int - 'A' as int + 10
  }

  /** Reads back the bytes of a run of `%XY` triples. */
  function PercentDecode(s: string): (bytes: seq<int>)
    requires PercentRun(s)
  {
    if s == [] then [] else [16 * HexValue(s[1]) + HexValue(s[2])] + PercentDecode(s[3..])
  }

  /** Percent-encoding loses nothing: decoding gives the bytes back. */
  lemma {:induction false} PercentRoundTrip(bytes: seq<int>)
    requires forall i :: 0 <= i < |bytes| ==> IsByte(bytes[i])
    ensures PercentDecode(PercentEncode(bytes)) == bytes
  {
    if bytes != [] {
      var b := bytes[0];
      assert IsByte(b);
      PercentRoundTrip(bytes[1..]);
      var s := PercentEncode(bytes);
      assert s[3..] == PercentEncode(bytes[1..]);
      assert HexValue(s[1]) == b / 16 && HexValue(s[2]) == b % 16;
      assert 16 * (b / 16) + b % 16 == b;
      assert PercentDecode(s) == [b] + bytes[1..];
      assert [b] + bytes[1..] == bytes;
    }
  }

  /** One character: kept, or its UTF-8 bytes percent-encoded. */
  function EncodeChar(c: char): (r: string)
    ensures Unescaped(c) ==> r == [c]
    ensures !Unescaped(c) ==> |r| >= 3 && forall i :: 0 <= i < |r| ==> r[i] == '%' || IsHexDigit(r[i])
  {
    if Unescaped(c) then [c] else PercentEncode(Utf8(c))
  }

  /** `encodeURI(s)` on a string of Unicode scalar values. */
  function EncodeURI(s: string): (r: string)
    ensures |r| >= |s|
    ensures forall i :: 0 <= i < |r| ==> Unescaped(r[i]) || r[i] == '%'
  {
    if s == [] then ""
    else
      var h := EncodeChar(s[0]);
      assert forall i :: 0 <= i < |h| ==> Unescaped(h[i]) || h[i] == '%';
      h + EncodeURI(s[1..])
  }

  lemma {:induction false} EncodeURIAppend(a: string, b: string)
    ensures EncodeURI(a + b) == EncodeURI(a) + EncodeURI(b)
  {
    if a == [] {
      assert a + b == b;
    } else {
      assert (a + b)[0] == a[0] && (a + b)[1..] == a[1..] + b;
      EncodeURIAppend(a[1..], b);
    }
  }

  /** `encodeURI` leaves a string as it is exactly when every character is one it keeps. */
  lemma {:induction false} EncodeURIIdentity(s: string)
    ensures EncodeURI(s) == s <==> forall i :: 0 <= i < |s| ==> Unescaped(s[i])
  {
    if s != [] {
      EncodeURIIdentity(s[1..]);
      if Unescaped(s[0]) {
        assert EncodeURI(s) == [s[0]] + EncodeURI(s[1..]);
        assert [s[0]] + s[1..] == s;
        if EncodeURI(s) == s {
          assert EncodeURI(s[1..]) == s[1..];
        }
        assert (forall i :: 0 <= i < |s| ==> Unescaped(s[i]))
          <==> (forall i :: 0 <= i < |s[1..]| ==> Unescaped(s[1..][i]));
      } else {
        assert |EncodeURI(s)| >= 3 + |s[1..]| > |s|;
      }
    }
  }

  /**
   * A kept punctuation character (such as `/` or `)`) appears in the encoding exactly when it
   * appears in the input: percent-encoding produces only `%` and hex digits.
   */
  lemma {:induction false} EncodeURIKeepsPunctuation(s: string, k: char)
    requires Unescaped(k) && !IsAlphaNumeric(k)
    ensures k in EncodeURI(s) <==> k in s
  {
    if s != [] {
      EncodeURIKeepsPunctuation(s[1..], k);
      var h := EncodeChar(s[0]);
      assert EncodeURI(s) == h + EncodeURI(s[1..]);
      assert k in h <==> k == s[0];
      assert k in s <==> k == s[0] || k in s[1..];
    }
  }
}
