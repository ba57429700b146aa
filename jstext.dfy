/** The pieces of JavaScript's string built-ins that the core relies on,
    written out over `seq<char>`. */
module JsText {

  /** The `\s` class of an ECMAScript regular expression: the WhiteSpace
      and LineTerminator code points. `String.prototype.trim` removes the
      same set. */
  predicate IsSpace(c: char) {
    || c == ' ' || c == '\t' || c == '\n' || c == '\U{000B}' || c == '\U{000C}' || c == '\r'
    || c == '\U{00A0}' || c == '\U{1680}' || ('\U{2000}' <= c <= '\U{200A}')
    || c == '\U{2028}' || c == '\U{2029}' || c == '\U{202F}' || c == '\U{205F}'
    || c == '\U{3000}' || c == '\U{FEFF}'
  }

  /** On ASCII, `\s` is the space and the five controls from tab to
      carriage return; no letter, digit or `_` is whitespace. */
  lemma IsSpaceClass(c: char)
    ensures c < '\U{0080}' ==> (IsSpace(c) <==> c == ' ' || '\t' <= c <= '\r')
    ensures IsSpace(c) ==> !('a' <= c <= 'z' || 'A' <= c <= 'Z' || '0' <= c <= '9' || c == '_')
  {
  }

  predicate IsUpperAscii(c: char) { 'A' <= c <= 'Z' }

  predicate IsLowerAscii(c: char) { 'a' <= c <= 'z' }

  /** `toLowerCase` on one character (ASCII letters only). */
  function LowerChar(c: char): (r: char)
    ensures !IsUpperAscii(r)
    ensures IsUpperAscii(c) ==> IsLowerAscii(r) && r as int == c as int + 32
    ensures !IsUpperAscii(c) ==> r == c
  {
    if IsUpperAscii(c) then (c as int + 32) as char else c
  }

  /** `toUpperCase` on one character (ASCII letters only). */
  function UpperChar(c: char): (r: char)
    ensures !IsLowerAscii(r)
    ensures IsLowerAscii(c) ==> IsUpperAscii(r) && r as int == c as int - 32
    ensures !IsLowerAscii(c) ==> r == c
  {
    if IsLowerAscii(c) then (c as int - 32) as char else c
  }

  /** `String.prototype.toLowerCase`. */
  function ToLower(s: string): (r: string)
    ensures |r| == |s|
    ensures forall k :: 0 <= k < |s| ==> r[k] == LowerChar(s[k])
  {
    if s == [] then [] else [LowerChar(s[0])] + ToLower(s[1..])
  }

  /** `String.prototype.toUpperCase`. */
  function ToUpper(s: string): (r: string)
    ensures |r| == |s|
    ensures forall k :: 0 <= k < |s| ==> r[k] == UpperChar(s[k])
  {
    if s == [] then [] else [UpperChar(s[0])] + ToUpper(s[1..])
  }

  predicate HasNoUpper(s: string) {
    forall k :: 0 <= k < |s| ==> !IsUpperAscii(s[k])
  }

  predicate HasNoLower(s: string) {
    forall k :: 0 <= k < |s| ==> !IsLowerAscii(s[k])
  }

  /** Lower-casing leaves no upper-case letter, and a string without one
      is its own lower-case form. */
  lemma {:induction false} ToLowerFixpoints(s: string)
    ensures HasNoUpper(ToLower(s))
    ensures ToLower(s) == s <==> HasNoUpper(s)
  {
    if HasNoUpper(s) {
      assert forall k :: 0 <= k < |s| ==> ToLower(s)[k] == s[k];
    }
  }

  /** Upper-casing leaves no lower-case letter, and is idempotent. */
  lemma {:induction false} ToUpperFixpoints(s: string)
    ensures HasNoLower(ToUpper(s))
    ensures ToUpper(s) == s <==> HasNoLower(s)
    ensures ToUpper(ToUpper(s)) == ToUpper(s)
  {
    if HasNoLower(s) {
      assert forall k :: 0 <= k < |s| ==> ToUpper(s)[k] == s[k];
    }
    var u := ToUpper(s);
    assert forall k :: 0 <= k < |u| ==> ToUpper(u)[k] == u[k];
  }

  /** `String.prototype.trimStart`: the longest suffix that does not start
      with whitespace. */
  function TrimStart(s: string): (r: string)
    ensures |r| <= |s| && r == s[|s| - |r|..]
    ensures forall k :: 0 <= k < |s| - |r| ==> IsSpace(s[k])
    ensures r == [] || !IsSpace(r[0])
  {
    if s == [] || !IsSpace(s[0]) then s else TrimStart(s[1..])
  }

  /** `String.prototype.trimEnd`: the longest prefix that does not end
      with whitespace. */
  function TrimEnd(s: string): (r: string)
    ensures |r| <= |s| && r == s[..|r|]
    ensures forall k :: |r| <= k < |s| ==> IsSpace(s[k])
    ensures r == [] || !IsSpace(r[|r| - 1])
  {
    if s == [] || !IsSpace(s[|s| - 1]) then s else TrimEnd(s[..|s| - 1])
  }

  /** `String.prototype.trim`: what is left after dropping whitespace at
      both ends. */
  function Trim(s: string): (r: string)
    ensures r == [] || (!IsSpace(r[0]) && !IsSpace(r[|r| - 1]))
    ensures exists a, b :: 0 <= a <= b <= |s| && r == s[a..b]
                           && (forall k :: 0 <= k < a ==> IsSpace(s[k]))
                           && (forall k :: b <= k < |s| ==> IsSpace(s[k]))
  {
    var t := TrimStart(s);
    var r := TrimEnd(t);
    assert r == s[|s| - |t|..|s| - |t| + |r|];
    r
  }

  /** A string with whitespace at neither end is its own trimmed form. */
  lemma TrimFixpoint(s: string)
    requires s == [] || (!IsSpace(s[0]) && !IsSpace(s[|s| - 1]))
    ensures Trim(s) == s
  {
  }

  /** `Array.prototype.join(sep)` on an array of strings. */
  function Join(parts: seq<string>, sep: string): (r: string)
    ensures parts == [] ==> r == []
    ensures |parts| == 1 ==> r == parts[0]
    ensures (exists k :: 0 <= k < |parts| && parts[k] != []) ==> r != []
  {
    if parts == [] then []
    else if |parts| == 1 then parts[0]
    else parts[0] + sep + Join(parts[1..], sep)
  }

  /** part occurs in s starting at position i. */
  predicate SliceAt(s: string, part: string, i: int) {
    0 <= i && i + |part| <= |s| && s[i..i + |part|] == part
  }

  /** `s.includes(part)`: part occurs in s as a contiguous slice. */
  predicate Contains(s: string, part: string) {
    exists i :: 0 <= i <= |s| && SliceAt(s, part, i)
  }

  /** Every part occurs, as it is, in the joined string. */
  lemma {:induction false} JoinContainsParts(parts: seq<string>, sep: string)
    ensures forall k :: 0 <= k < |parts| ==> Contains(Join(parts, sep), parts[k])
  {
    if |parts| == 1 {
      assert SliceAt(Join(parts, sep), parts[0], 0);
    } else if |parts| > 1 {
      var rest := Join(parts[1..], sep);
      var j := Join(parts, sep);
      var off := |parts[0]| + |sep|;
      assert j == parts[0] + sep + rest;
      JoinContainsParts(parts[1..], sep);
      assert SliceAt(j, parts[0], 0);
      forall k | 1 <= k < |parts|
        ensures Contains(j, parts[k])
      {
        assert parts[1..][k - 1] == parts[k];
        assert Contains(rest, parts[1..][k - 1]);
        var i :| 0 <= i <= |rest| && SliceAt(rest, parts[k], i);
        assert j[off + i..off + i + |parts[k]|] == rest[i..i + |parts[k]|];
        assert SliceAt(j, parts[k], off + i);
      }
    }
  }

  /** A separator that occurs in neither head splits a concatenation back
      into its head and its tail. */
  lemma SplitAtSeparator(a1: string, x1: string, a2: string, x2: string, c: char)
    requires c !in a1 && c !in a2
    ensures a1 + [c] + x1 == a2 + [c] + x2 <==> a1 == a2 && x1 == x2
  {
    if a1 + [c] + x1 == a2 + [c] + x2 {
      var s := a1 + [c] + x1;
      assert s[|a1|] == c && s[|a2|] == c;
      assert forall k :: 0 <= k < |a1| ==> s[k] == a1[k];
      assert forall k :: 0 <= k < |a2| ==> s[k] == a2[k];
      assert |a1| == |a2|;
      assert a1 == s[..|a1|] == a2;
      assert x1 == s[|a1| + 1..] == x2;
    }
  }

  /** Equal strings followed by the same suffix came from equal heads. */
  lemma CancelSuffix(a1: string, a2: string, x: string)
    ensures a1 + x == a2 + x <==> a1 == a2
  {
    if a1 + x == a2 + x {
      assert |a1| == |a2|;
      assert a1 == (a1 + x)[..|a1|];
    }
  }

  /** Equal strings that start with the same prefix have equal tails. */
  lemma CancelPrefix(x: string, a1: string, a2: string)
    ensures x + a1 == x + a2 <==> a1 == a2
  {
    if x + a1 == x + a2 {
      assert a1 == (x + a1)[|x|..];
    }
  }
}
