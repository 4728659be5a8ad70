/** Character classes and string helpers shared by the link parsers and the
    suggestion filter: JavaScript's `trim`, the `\s` and `.` classes of its
    regular expressions, `toLowerCase` (ASCII only) and `includes`. */
module Text {

  /** ECMAScript LineTerminator: what `.` refuses and what the `m` flag's `^` follows. */
  predicate IsLineTerminator(c: char) {
    c == '\n' || c == '\r' || c == '\U{2028}' || c == '\U{2029}'
  }

  /** ECMAScript WhiteSpace plus LineTerminator: what `trim` removes and `\s` matches. */
  predicate IsWhiteSpace(c: char) {
    IsLineTerminator(c) || c == '\t' || c == '\U{B}' || c == '\U{C}' || c == ' ' ||
    c == '\U{A0}' || c == '\U{1680}' || ('\U{2000}' <= c <= '\U{200A}') ||
    c == '\U{202F}' || c == '\U{205F}' || c == '\U{3000}' || c == '\U{FEFF}'
  }

  /** No character of `s` is a line terminator (every one of them matches `.`). */
  predicate NoLineTerminator(s: string) {
    forall i :: 0 <= i < |s| ==> !IsLineTerminator(s[i])
  }

  /** `s` with its leading white space removed. */
  function TrimStart(s: string): (r: string)
    ensures |r| <= |s| && r == s[|s| - |r|..]
    ensures forall i :: 0 <= i < |s| - |r| ==> IsWhiteSpace(s[i])
    ensures r != [] ==> !IsWhiteSpace(r[0])
  {
    if s != [] && IsWhiteSpace(s[0]) then TrimStart(s[1..]) else s
  }

  /** `s` with its trailing white space removed. */
  function TrimEnd(s: string): (r: string)
    ensures |r| <= |s| && r == s[..|r|]
    ensures forall i :: |r| <= i < |s| ==> IsWhiteSpace(s[i])
    ensures r != [] ==> !IsWhiteSpace(r[|r| - 1])
  {
    if s != [] && IsWhiteSpace(s[|s| - 1]) then TrimEnd(s[..|s| - 1]) else s
  }

  /** `String.prototype.trim`. */
  function Trim(s: string): (r: string)
    ensures |r| <= |s|
    ensures r != [] ==> !IsWhiteSpace(r[0]) && !IsWhiteSpace(r[|r| - 1])
  {
    TrimEnd(TrimStart(s))
  }

  /** Trim removes exactly a white-space prefix and a white-space suffix:
      it returns the slice of `s` starting at `i`. */
  lemma TrimSlice(s: string) returns (i: nat)
    ensures i + |Trim(s)| <= |s| && Trim(s) == s[i..i + |Trim(s)|]
    ensures forall k :: 0 <= k < i ==> IsWhiteSpace(s[k])
    ensures forall k :: i + |Trim(s)| <= k < |s| ==> IsWhiteSpace(s[k])
  {
    var u := TrimStart(s);
    i := |s| - |u|;
    var r := TrimEnd(u);
    assert r == u[..|r|];
    assert u == s[i..];
    forall k | i + |r| <= k < |s| ensures IsWhiteSpace(s[k]) {
      assert s[k] == u[k - i];
    }
  }

  /** A string that neither starts nor ends with white space is its own trim. */
  lemma TrimNoop(s: string)
    requires s != [] ==> !IsWhiteSpace(s[0]) && !IsWhiteSpace(s[|s| - 1])
    ensures Trim(s) == s
  {
  }

  /** Leading white space in front of a non-blank start is dropped by `TrimStart`. */
  lemma {:induction false} TrimStartSkips(w: string, x: string)
    requires forall k :: 0 <= k < |w| ==> IsWhiteSpace(w[k])
    requires x != [] && !IsWhiteSpace(x[0])
    ensures TrimStart(w + x) == x
  {
    if w != [] {
      assert (w + x)[1..] == w[1..] + x;
      TrimStartSkips(w[1..], x);
    }
  }

  /** Trailing white space after a non-blank end is dropped by `TrimEnd`. */
  lemma {:induction false} TrimEndSkips(x: string, w: string)
    requires forall k :: 0 <= k < |w| ==> IsWhiteSpace(w[k])
    requires x != [] && !IsWhiteSpace(x[|x| - 1])
    ensures TrimEnd(x + w) == x
  {
    if w != [] {
      assert (x + w)[..|x + w| - 1] == x + w[..|w| - 1];
      TrimEndSkips(x, w[..|w| - 1]);
    }
  }

  /** White space around a string with non-blank ends is exactly what `Trim` removes. */
  lemma TrimPadded(before: string, mid: string, after: string)
    requires forall k :: 0 <= k < |before| ==> IsWhiteSpace(before[k])
    requires forall k :: 0 <= k < |after| ==> IsWhiteSpace(after[k])
    requires mid != [] && !IsWhiteSpace(mid[0]) && !IsWhiteSpace(mid[|mid| - 1])
    ensures Trim(before + mid + after) == mid
  {
    assert before + mid + after == before + (mid + after);
    TrimStartSkips(before, mid + after);
    TrimEndSkips(mid, after);
  }

  /** ASCII approximation of `toLowerCase` on one character. */
  function LowerChar(c: char): (r: char)
    ensures 'A' <= c <= 'Z' ==> r as int == c as int + 32
    ensures !('A' <= c <= 'Z') ==> r == c
  {
    if 'A' <= c <= 'Z' then (c as int + 32) as char else c
  }

  /** ASCII approximation of `toLowerCase`. */
  function Lower(s: string): (r: string)
    ensures |r| == |s|
    ensures forall i :: 0 <= i < |s| ==> r[i] == LowerChar(s[i])
  {
    if s == [] then [] else [LowerChar(s[0])] + Lower(s[1..])
  }

  /** The two strings differ at most in the case of their ASCII letters. */
  predicate SameIgnoringCase(a: string, b: string) {
    |a| == |b| && forall i :: 0 <= i < |a| ==> LowerChar(a[i]) == LowerChar(b[i])
  }

  /** `hay.includes(needle)`: `needle` occurs in `hay` at some offset. */
  predicate Contains(hay: string, needle: string)
    ensures Contains(hay, needle) ==> |needle| <= |hay|
    ensures needle == [] ==> Contains(hay, needle)
  {
    needle <= hay || (hay != [] && Contains(hay[1..], needle))
  }

  /** `needle` occurs in `hay` at offset `k`. */
  predicate OccursAt(hay: string, needle: string, k: nat) {
    k + |needle| <= |hay| && hay[k..k + |needle|] == needle
  }

  /** An occurrence of `needle` at offset `k` makes `Contains` hold. */
  lemma {:induction false} ContainsAt(hay: string, needle: string, k: nat)
    requires OccursAt(hay, needle, k)
    ensures Contains(hay, needle)
  {
    if k > 0 {
      assert hay[1..][k - 1..k - 1 + |needle|] == needle;
      ContainsAt(hay[1..], needle, k - 1);
    } else {
      assert needle <= hay;
    }
  }

  /** Conversely, when `Contains` holds, `needle` occurs at some offset `k`. */
  lemma {:induction false} ContainsOffset(hay: string, needle: string) returns (k: nat)
    requires Contains(hay, needle)
    ensures OccursAt(hay, needle, k)
    decreases |hay|
  {
    if needle <= hay {
      k := 0;
    } else {
      var j := ContainsOffset(hay[1..], needle);
      k := j + 1;
      assert hay[k..k + |needle|] == hay[1..][j..j + |needle|];
    }
  }

  /** `Contains` holds exactly when `needle` occurs at some offset. */
  lemma ContainsIff(hay: string, needle: string)
    ensures Contains(hay, needle) <==> exists k: nat :: OccursAt(hay, needle, k)
  {
    if Contains(hay, needle) {
      var k := ContainsOffset(hay, needle);
    } else {
      forall k: nat | OccursAt(hay, needle, k) ensures false {
        ContainsAt(hay, needle, k);
      }
    }
  }
}
