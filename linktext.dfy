/** lib/utils.ts: `extractLinkText`, which trims a raw `previous` value and
    unwraps it when the whole trimmed string is `[[...]]`.  The lazy group
    `(.+?)` followed by `]]` is scanned here as the regular expression engine
    does it; both this file's pattern and the body pattern of lib/obsidian.ts
    use that scan. */
module LinkText {
  import opened Wrappers
  import opened Text

  /** `]]` can close the group at `j`: immediately (`\]\]`) or, when
      `anchored`, as the last two characters of the input (`\]\]$`). */
  predicate Closes(t: string, j: nat, anchored: bool)
    requires j <= |t|
  {
    if anchored then t[j..] == "]]" else j + 2 <= |t| && t[j..j + 2] == "]]"
  }

  /** The lazy quantifier `(.+?)`: the group has already consumed
      `t[..j-1]` up to its start and now tries to end at `j`, `j + 1`, ...,
      shortest first; a line terminator cannot be consumed by `.`. */
  function LazyGroupEnd(t: string, j: nat, anchored: bool): (r: Option<nat>)
    requires 0 < j <= |t|
    ensures r.Some? ==> j <= r.value <= |t| && Closes(t, r.value, anchored)
    decreases |t| - j
  {
    if IsLineTerminator(t[j - 1]) then None
    else if Closes(t, j, anchored) then Some(j)
    else if j == |t| then None
    else LazyGroupEnd(t, j + 1, anchored)
  }

  /** `t[q..e]` is the group `(.+?)` picks when it starts at `q`: non-empty,
      free of line terminators, closed at `e`, and closed nowhere earlier. */
  ghost predicate FirstClose(t: string, q: nat, e: nat, anchored: bool) {
    q < e <= |t| && Closes(t, e, anchored) && NoLineTerminator(t[q..e]) &&
    forall e' :: q < e' < e ==> !Closes(t, e', anchored)
  }

  /** The scan finds the shortest closable group and finds one whenever a
      closable group exists. */
  lemma {:induction false} LazyGroupEndSpec(t: string, q: nat, j: nat, anchored: bool)
    requires q < j <= |t|
    requires NoLineTerminator(t[q..j - 1])
    requires forall e' :: q < e' < j ==> !Closes(t, e', anchored)
    ensures LazyGroupEnd(t, j, anchored).Some? ==> FirstClose(t, q, LazyGroupEnd(t, j, anchored).value, anchored)
    ensures forall e :: j <= e <= |t| && Closes(t, e, anchored) && NoLineTerminator(t[q..e]) ==>
      LazyGroupEnd(t, j, anchored).Some?
    decreases |t| - j
  {
    if IsLineTerminator(t[j - 1]) {
      forall e | j <= e <= |t| && Closes(t, e, anchored)
        ensures !NoLineTerminator(t[q..e])
      {
        assert t[q..e][j - 1 - q] == t[j - 1];
      }
    } else {
      assert t[q..j] == t[q..j - 1] + [t[j - 1]];
      if !Closes(t, j, anchored) && j < |t| {
        LazyGroupEndSpec(t, q, j + 1, anchored);
        forall e | j <= e <= |t| && Closes(t, e, anchored) && NoLineTerminator(t[q..e])
          ensures LazyGroupEnd(t, j, anchored).Some?
        {
          assert e != j;
        }
      }
    }
  }

  /** The inner text of the link, or the trimmed input when it is not one
      whole `[[...]]` link. */
  function ExtractLinkText(raw: string): (r: string)
    ensures |r| <= |raw|
  {
    var t := Trim(raw);
    if |t| >= 3 && t[..2] == "[[" then
      match LazyGroupEnd(t, 3, true)
      case Some(e) => t[2..e]
      case None => t
    else t
  }

  /** `t` is one whole link `[[x]]` with a non-empty `x` free of line terminators. */
  predicate IsWholeLink(t: string) {
    |t| >= 5 && t[..2] == "[[" && t[|t| - 2..] == "]]" && NoLineTerminator(t[2..|t| - 2])
  }

  /** `extractLinkText` in closed form: the result is `trim(raw)`, or
      `trim(raw)` without its first two and last two characters exactly when
      it is a whole link. */
  lemma ExtractLinkTextClosedForm(raw: string)
    ensures var t := Trim(raw);
      ExtractLinkText(raw) == if IsWholeLink(t) then t[2..|t| - 2] else t
  {
    var t := Trim(raw);
    if |t| >= 3 && t[..2] == "[[" {
      assert NoLineTerminator(t[2..2]);
      LazyGroupEndSpec(t, 2, 3, true);
      var r := LazyGroupEnd(t, 3, true);
      if r.Some? {
        assert r.value == |t| - 2;
      }
      if IsWholeLink(t) {
        assert Closes(t, |t| - 2, true);
      }
    }
  }

  /** Unwrapping round trip: any non-empty text without a line terminator,
      even one holding `]]` or `|`, comes back out of `[[` + text + `]]`. */
  lemma UnwrapRoundTrip(r: string)
    requires r != [] && NoLineTerminator(r)
    ensures ExtractLinkText("[[" + r + "]]") == r
  {
    var t := "[[" + r + "]]";
    TrimNoop(t);
    ExtractLinkTextClosedForm(t);
    assert t[2..|t| - 2] == r;
  }

  /** Inner text holding a line terminator is not unwrapped. */
  lemma NoUnwrapAcrossLines(r: string)
    requires !NoLineTerminator(r)
    ensures ExtractLinkText("[[" + r + "]]") == "[[" + r + "]]"
  {
    var t := "[[" + r + "]]";
    TrimNoop(t);
    ExtractLinkTextClosedForm(t);
    assert t[2..|t| - 2] == r;
  }

  /** Aliases are kept: the text after `|` is part of the result. */
  lemma AliasKept(note: string, alias: string)
    requires NoLineTerminator(note) && NoLineTerminator(alias)
    ensures ExtractLinkText("[[" + note + "|" + alias + "]]") == note + "|" + alias
  {
    var r := note + "|" + alias;
    assert r[|note|] == '|';
    assert "[[" + note + "|" + alias + "]]" == "[[" + r + "]]";
    UnwrapRoundTrip(r);
  }

  /** `(.+?)` needs a character, so the empty link is returned as it is. */
  lemma EmptyLinkKept()
    ensures ExtractLinkText("[[]]") == "[[]]"
  {
    TrimNoop("[[]]");
    ShortValueKept("[[]]");
  }

  /** A trimmed value shorter than `[[x]]` is never unwrapped. */
  lemma ShortValueKept(raw: string)
    requires |Trim(raw)| < 5
    ensures ExtractLinkText(raw) == Trim(raw)
  {
    ExtractLinkTextClosedForm(raw);
  }

  /** White space outside the brackets goes, white space inside stays:
      `"  [[ a ]] "` gives `" a "`. */
  lemma InnerSpaceKept(before: string, inner: string, after: string)
    requires forall k :: 0 <= k < |before| ==> IsWhiteSpace(before[k])
    requires forall k :: 0 <= k < |after| ==> IsWhiteSpace(after[k])
    requires inner != [] && NoLineTerminator(inner)
    ensures ExtractLinkText(before + "[[" + inner + "]]" + after) == inner
  {
    var link := "[[" + inner + "]]";
    assert before + "[[" + inner + "]]" + after == before + link + after;
    TrimPadded(before, link, after);
    TrimNoop(link);
    UnwrapRoundTrip(inner);
  }
}
