/** lib/obsidian.ts: `getPreviousNoteName`.  The frontmatter value wins when
    it is present and non-empty; otherwise the note body is searched with the
    multiline pattern `^previous:\s*\[\[(.+?)\]\]` and the first match's group
    is returned.  The frontmatter value and the body text are inputs here. */
module PreviousName {
  import opened Wrappers
  import opened Text
  import opened LinkText

  const Key: string := "previous:"

  /** The multiline `^`: position `i` starts the input or follows a line terminator. */
  predicate LineStart(s: string, i: nat)
    requires i <= |s|
  {
    i == 0 || IsLineTerminator(s[i - 1])
  }

  /** Greedy `\s*` from `i`: the end of the white-space run that starts there. */
  function SkipSpace(s: string, i: nat): (k: nat)
    requires i <= |s|
    ensures i <= k <= |s|
    ensures forall j :: i <= j < k ==> IsWhiteSpace(s[j])
    ensures k == |s| || !IsWhiteSpace(s[k])
    decreases |s| - i
  {
    if i < |s| && IsWhiteSpace(s[i]) then SkipSpace(s, i + 1) else i
  }

  /** Where a match lies: `previous:` at `start`, `[[` at `open`, `]]` at `close`;
      the captured name is `s[open + 2..close]`. */
  datatype Hit = Hit(start: nat, open: nat, close: nat)

  /** The pattern tried at position `i` only, as the engine tries it. */
  function MatchAt(s: string, i: nat): (r: Option<Hit>)
    requires i <= |s|
    ensures r.Some? ==>
      r.value.start == i && i + |Key| <= r.value.open &&
      r.value.open + 2 < r.value.close && r.value.close + 2 <= |s|
  {
    if !LineStart(s, i) || !(Key <= s[i..]) then None
    else
      var k := SkipSpace(s, i + |Key|);
      if k + 2 < |s| && s[k..k + 2] == "[[" then
        match LazyGroupEnd(s, k + 3, false)
        case Some(e) => Some(Hit(i, k, e))
        case None => None
      else None
  }

  /** Leftmost search from `i`: `String.prototype.match` without the `g` flag. */
  function SearchFrom(s: string, i: nat): (r: Option<Hit>)
    requires i <= |s|
    ensures r.Some? ==>
      i <= r.value.start && r.value.start + |Key| <= r.value.open &&
      r.value.open + 2 < r.value.close && r.value.close + 2 <= |s|
    decreases |s| - i
  {
    match MatchAt(s, i)
    case Some(h) => Some(h)
    case None => if i == |s| then None else SearchFrom(s, i + 1)
  }

  /** The body fallback: `match[1]` of the first match, or null. */
  function BodyPreviousName(content: string): (r: Option<string>)
    ensures r.Some? <==> SearchFrom(content, 0).Some?
    ensures r.Some? ==> r.value != [] && |Key| + 2 + |r.value| + 2 <= |content|
  {
    match SearchFrom(content, 0)
    case Some(h) => Some(content[h.open + 2..h.close])
    case None => None
  }

  /** `getPreviousNoteName`: `frontmatter` is `cache?.frontmatter?.previous`
      (None when any part is missing) and `content` the body the vault reads. */
  function GetPreviousNoteName(frontmatter: Option<string>, content: string): (r: Option<string>)
    ensures frontmatter.Some? && frontmatter.value != "" ==> r == frontmatter
    ensures frontmatter.None? || frontmatter.value == "" ==> r == BodyPreviousName(content)
  {
    if frontmatter.Some? && frontmatter.value != "" then frontmatter
    else BodyPreviousName(content)
  }

  /** The pattern can match at `i` with `\s*` ending at `k` and the group
      `(.+?)` spanning `s[k + 2..e]`: any of the choices a backtracking engine
      may consider, not only the one it takes. */
  ghost predicate PatternAt(s: string, i: nat, k: nat, e: nat) {
    i + |Key| <= k && k + 2 < e && e + 2 <= |s| &&
    LineStart(s, i) && s[i..i + |Key|] == Key &&
    (forall j :: i + |Key| <= j < k ==> IsWhiteSpace(s[j])) &&
    s[k..k + 2] == "[[" && NoLineTerminator(s[k + 2..e]) && s[e..e + 2] == "]]"
  }

  /** What `MatchAt` finds is a match of the pattern whose group is the
      shortest one: the lazy `(.+?)` stops at the first `]]`. */
  lemma MatchAtSound(s: string, i: nat)
    requires i <= |s| && MatchAt(s, i).Some?
    ensures var h := MatchAt(s, i).value;
      PatternAt(s, i, h.open, h.close) &&
      forall e' :: h.open + 2 < e' < h.close ==> !Closes(s, e', false)
  {
    var h := MatchAt(s, i).value;
    MatchAtUnfold(s, i);
    GroupSound(s, h.open, h.close);
    assert s[i..i + |Key|] == Key by { assert Key <= s[i..]; }
  }

  /** The steps `MatchAt` took to find its match. */
  lemma MatchAtUnfold(s: string, i: nat)
    requires i <= |s| && MatchAt(s, i).Some?
    ensures var h := MatchAt(s, i).value;
      LineStart(s, i) && Key <= s[i..] && h.open == SkipSpace(s, i + |Key|) &&
      h.open + 2 < |s| && s[h.open..h.open + 2] == "[[" &&
      LazyGroupEnd(s, h.open + 3, false) == Some(h.close)
  {
  }

  /** The group the lazy scan picks after `[[` at `k` is free of line
      terminators, closed at `e`, and closed nowhere earlier. */
  lemma GroupSound(s: string, k: nat, e: nat)
    requires k + 2 < |s| && LazyGroupEnd(s, k + 3, false) == Some(e)
    ensures NoLineTerminator(s[k + 2..e]) && e + 2 <= |s| && s[e..e + 2] == "]]"
    ensures forall e' :: k + 2 < e' < e ==> !Closes(s, e', false)
  {
    assert NoLineTerminator(s[k + 2..k + 2]);
    LazyGroupEndSpec(s, k + 2, k + 3, false);
  }

  /** `MatchAt` finds a match whenever the pattern can match at `i` at all:
      the greedy `\s*` never has to give back white space, because `[` is
      not white space, and the lazy group reaches every closable end. */
  lemma MatchAtComplete(s: string, i: nat, k: nat, e: nat)
    requires i <= |s| && PatternAt(s, i, k, e)
    ensures MatchAt(s, i).Some?
  {
    assert Key <= s[i..] by { assert s[i..][..|Key|] == s[i..i + |Key|]; }
    var k0 := SkipSpace(s, i + |Key|);
    assert s[k] == '[';
    assert k0 == k;
    assert NoLineTerminator(s[k + 2..k + 2]);
    LazyGroupEndSpec(s, k + 2, k + 3, false);
    assert Closes(s, e, false);
  }

  /** The search returns the leftmost position where the pattern matches,
      and finds nothing only when it matches nowhere from `i` on. */
  lemma {:induction false} SearchFromSpec(s: string, i: nat)
    requires i <= |s|
    ensures SearchFrom(s, i).Some? ==>
      var h := SearchFrom(s, i).value;
      i <= h.start <= |s| && MatchAt(s, h.start) == Some(h) &&
      forall j :: i <= j < h.start ==> MatchAt(s, j).None?
    ensures SearchFrom(s, i).None? ==> forall j :: i <= j <= |s| ==> MatchAt(s, j).None?
    decreases |s| - i
  {
    var m := MatchAt(s, i);
    if m.Some? {
      assert SearchFrom(s, i) == m;
    } else if i < |s| {
      SearchFromSpec(s, i + 1);
      var r := SearchFrom(s, i + 1);
      assert SearchFrom(s, i) == r;
      if r.Some? {
        NoMatchExtend(s, i, r.value.start);
      } else {
        NoMatchExtend(s, i, |s| + 1);
      }
    }
  }

  /** No match at `i` and none in `(i, b)` means none in `[i, b)`. */
  lemma NoMatchExtend(s: string, i: nat, b: nat)
    requires i < b <= |s| + 1 && MatchAt(s, i).None?
    requires forall j :: i + 1 <= j < b ==> MatchAt(s, j).None?
    ensures forall j :: i <= j < b ==> MatchAt(s, j).None?
  {
  }

  /** The body fallback in terms of the pattern: a name comes back exactly
      when the pattern matches somewhere; it is the group of the leftmost
      match, non-empty, free of line terminators, and ends at the first `]]`
      after its first character. */
  lemma BodyPreviousNameSpec(content: string)
    ensures BodyPreviousName(content).Some? ==>
      exists i: nat, k: nat, e: nat :: PatternAt(content, i, k, e) && BodyPreviousName(content) == Some(content[k + 2..e])
        && (forall e' :: k + 2 < e' < e ==> !Closes(content, e', false))
        && (forall j: nat, k': nat, e': nat :: j < i ==> !PatternAt(content, j, k', e'))
    ensures BodyPreviousName(content).Some? ==>
      BodyPreviousName(content).value != [] && NoLineTerminator(BodyPreviousName(content).value)
    ensures BodyPreviousName(content).None? ==> forall i: nat, k: nat, e: nat :: !PatternAt(content, i, k, e)
  {
    SearchFromSpec(content, 0);
    if SearchFrom(content, 0).Some? {
      BodyNameFound(content);
    } else {
      forall i: nat, k: nat, e: nat | PatternAt(content, i, k, e) ensures false {
        MatchAtComplete(content, i, k, e);
      }
    }
  }

  /** The found case of `BodyPreviousNameSpec`. */
  lemma BodyNameFound(content: string)
    requires SearchFrom(content, 0).Some?
    ensures var h := SearchFrom(content, 0).value;
      PatternAt(content, h.start, h.open, h.close) &&
      BodyPreviousName(content) == Some(content[h.open + 2..h.close]) &&
      (forall e' :: h.open + 2 < e' < h.close ==> !Closes(content, e', false)) &&
      (forall j: nat, k': nat, e': nat :: j < h.start ==> !PatternAt(content, j, k', e'))
  {
    SearchFromSpec(content, 0);
    var h := SearchFrom(content, 0).value;
    MatchAtSound(content, h.start);
    NoEarlierPattern(content, h.start);
  }

  /** Where `MatchAt` finds nothing before `b`, the pattern matches nowhere before `b`. */
  lemma NoEarlierPattern(s: string, b: nat)
    requires b <= |s| + 1
    requires forall j :: 0 <= j < b ==> MatchAt(s, j).None?
    ensures forall j: nat, k: nat, e: nat :: j < b ==> !PatternAt(s, j, k, e)
  {
    forall j: nat, k: nat, e: nat | j < b && PatternAt(s, j, k, e) ensures false {
      MatchAtComplete(s, j, k, e);
    }
  }

  /** The pattern never matches at a position that does not begin a line,
      so an indented `previous:` is not seen. */
  lemma IndentedNotMatched(s: string, i: nat)
    requires 0 < i <= |s| && !IsLineTerminator(s[i - 1])
    ensures MatchAt(s, i).None?
  {
  }

  /** Laziness: `previous: [[a]] [[b]]` yields `a`. */
  lemma FirstBracketPairWins()
    ensures BodyPreviousName("previous: [[a]] [[b]]") == Some("a")
  {
    var s := "previous: [[a]] [[b]]";
    assert LineStart(s, 0);
    assert s[..9] == Key;
    assert Key <= s[0..];
    assert !IsWhiteSpace(s[10]);
    assert SkipSpace(s, 10) == 10;
    assert IsWhiteSpace(s[9]);
    assert SkipSpace(s, 9) == 10;
    assert s[10..12] == "[[";
    assert s[13..15] == "]]";
    assert Closes(s, 13, false);
    assert LazyGroupEnd(s, 13, false) == Some(13);
    assert MatchAt(s, 0) == Some(Hit(0, 10, 13));
    assert SearchFrom(s, 0) == Some(Hit(0, 10, 13));
    assert s[12..13] == "a";
  }

  /** `\s*` spans any run of white space, line breaks included, so the link
      may stand on a later line than `previous:`; a name on one line without
      `]` is returned whole. */
  lemma LinkAfterWhiteSpace(w: string, name: string)
    requires forall j :: 0 <= j < |w| ==> IsWhiteSpace(w[j])
    requires name != [] && NoLineTerminator(name)
    requires forall j :: 0 <= j < |name| ==> name[j] != ']'
    ensures BodyPreviousName(Key + w + "[[" + name + "]]") == Some(name)
  {
    var s := Key + w + "[[" + name + "]]";
    var k := |Key| + |w|;
    var e := k + 2 + |name|;
    LinkPattern(w, name);
    MatchAtComplete(s, 0, k, e);
    BodyNameFound(s);
    var h := SearchFrom(s, 0).value;
    assert h.start == 0;
    LinkHit(w, name, h.open, h.close);
  }

  /** The link text is an instance of the pattern at its start. */
  lemma LinkPattern(w: string, name: string)
    requires forall j :: 0 <= j < |w| ==> IsWhiteSpace(w[j])
    requires name != [] && NoLineTerminator(name)
    ensures var k := |Key| + |w|;
      PatternAt(Key + w + "[[" + name + "]]", 0, k, k + 2 + |name|)
  {
    LinkLayout(w, name);
  }

  /** The only instance of the pattern at the start of the link text whose
      group closes at the first `]]` is the one around `name`. */
  lemma LinkHit(w: string, name: string, open: nat, close: nat)
    requires forall j :: 0 <= j < |w| ==> IsWhiteSpace(w[j])
    requires name != [] && forall j :: 0 <= j < |name| ==> name[j] != ']'
    requires var s := Key + w + "[[" + name + "]]";
      PatternAt(s, 0, open, close) && forall e' :: open + 2 < e' < close ==> !Closes(s, e', false)
    ensures var s := Key + w + "[[" + name + "]]";
      s[open + 2..close] == name
  {
    var s := Key + w + "[[" + name + "]]";
    var k := |Key| + |w|;
    var e := k + 2 + |name|;
    LinkLayout(w, name);
    assert s[open] == '[' && s[k] == '[';
    assert open == k;
    assert s[close] == ']';
    assert forall j :: k + 2 <= j < e ==> s[j] == name[j - k - 2];
    assert Closes(s, e, false);
    assert close == e;
  }

  /** Where the parts of `Key + w + "[[" + name + "]]"` lie. */
  lemma LinkLayout(w: string, name: string)
    ensures var s := Key + w + "[[" + name + "]]";
      var k := |Key| + |w|;
      |s| == k + 4 + |name| && s[..|Key|] == Key &&
      (forall j :: |Key| <= j < k ==> s[j] == w[j - |Key|]) &&
      s[k..k + 2] == "[[" && s[k + 2..k + 2 + |name|] == name && s[k + 2 + |name|..] == "]]"
  {
    var s := Key + w + "[[" + name + "]]";
    assert s == ((Key + w) + "[[") + name + "]]";
  }

  /** A bare `previous: a` without brackets matches nothing. */
  lemma BareNameNotMatched(name: string)
    requires forall j :: 0 <= j < |name| ==> name[j] != '['
    ensures BodyPreviousName("previous: " + name).None?
  {
    var s := "previous: " + name;
    forall j | 0 <= j < |s| ensures s[j] != '[' {
      if j < 10 { assert s[j] == "previous: "[j]; } else { assert s[j] == name[j - 10]; }
    }
    forall i: nat, k: nat, e: nat ensures !PatternAt(s, i, k, e) {
      if k < |s| { assert s[k] != '['; }
    }
    BodyPreviousNameSpec(s);
  }

  /** A non-empty frontmatter value is returned verbatim, whatever the body says. */
  lemma FrontmatterShadowsBody(value: string, c1: string, c2: string)
    requires value != ""
    ensures GetPreviousNoteName(Some(value), c1) == GetPreviousNoteName(Some(value), c2) == Some(value)
  {
  }
}
