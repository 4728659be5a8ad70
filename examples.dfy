/** Concrete river shapes: a chain of three notes, a ring of two notes, a
    note with two successors, and chains of the shape the test vault's note
    generator writes (the first note `ROOT`, each later one pointing at the
    one before it). */
module Examples {
  import opened Wrappers
  import opened Notes
  import opened Walker
  import opened Suggest

  /** No two notes of `notes` are the same. */
  predicate Distinct(notes: seq<Note>) {
    forall i, j :: 0 <= i < j < |notes| ==> notes[i] != notes[j]
  }

  /** Each later note of `notes` linked to the one before it. */
  function ChainLinks(notes: seq<Note>): (m: map<Note, Note>)
    requires Distinct(notes)
    ensures forall i :: 0 < i < |notes| ==> notes[i] in m && m[notes[i]] == notes[i - 1]
    ensures |notes| > 0 ==> notes[0] !in m
    decreases |notes|
  {
    if |notes| < 2 then map[]
    else
      var n := |notes|;
      var m := ChainLinks(notes[..n - 1]);
      assert forall i :: 0 < i < n - 1 ==> notes[..n - 1][i] == notes[i];
      m[notes[n - 1] := notes[n - 2]]
  }

  /** Each earlier note of `notes` followed by the one after it. */
  function ChainSuccessors(notes: seq<Note>): (m: map<Note, seq<Note>>)
    requires Distinct(notes)
    ensures forall i :: 0 <= i < |notes| - 1 ==> notes[i] in m && m[notes[i]] == [notes[i + 1]]
    ensures |notes| > 0 ==> notes[|notes| - 1] !in m
    decreases |notes|
  {
    if |notes| < 2 then map[]
    else
      var m := ChainSuccessors(notes[1..]);
      assert forall i :: 1 <= i < |notes| ==> notes[1..][i - 1] == notes[i];
      m[notes[0] := [notes[1]]]
  }

  /** The generated chain: `notes[0]` has no previous note, every later one
      has the one before it; successors are the inverse links. */
  function GeneratedChain(notes: seq<Note>): (s: Snapshot)
    requires Distinct(notes)
    ensures forall i :: 0 < i < |notes| ==> s.Previous(notes[i]) == Some(notes[i - 1])
    ensures |notes| > 0 ==> s.Previous(notes[0]).None?
    ensures forall i :: 0 <= i < |notes| - 1 ==> s.Nexts(notes[i]) == [notes[i + 1]]
    ensures |notes| > 0 ==> s.Nexts(notes[|notes| - 1]) == []
  {
    Snapshot(ChainLinks(notes), ChainSuccessors(notes))
  }

  /** From any note of a generated chain the head walk reaches the first
      note, within as many steps as the note's position. */
  lemma GeneratedChainHead(notes: seq<Note>, k: nat)
    requires Distinct(notes) && k < |notes|
    ensures HeadFrom(GeneratedChain(notes), notes[k], notes[k], k) == Some(notes[0])
  {
    var s := GeneratedChain(notes);
    var path := seq(k + 1, j requires 0 <= j <= k => notes[k - j]);
    assert PrevPath(s, path) by {
      forall i | 0 <= i < |path| - 1 ensures s.Previous(path[i]) == Some(path[i + 1]) {
        assert path[i] == notes[k - i] && path[i + 1] == notes[k - i - 1];
      }
    }
    HeadOfPath(s, notes[k], path, k);
  }

  /** From any note of a generated chain the tail walk reaches the last
      note without asking anything. */
  lemma GeneratedChainTail(notes: seq<Note>, start: nat, k: nat, answers: seq<Option<Pick>>)
    requires Distinct(notes) && start <= k < |notes|
    ensures TailFrom(GeneratedChain(notes), notes[start], notes[k], answers, |notes| - 1 - k)
      == Some(TailRun(Some(notes[|notes| - 1]), [], notes[k + 1..]))
  {
    var s := GeneratedChain(notes);
    var rest := notes[k..];
    ChainSingleLinks(s, notes, k);
    assert rest[0] == notes[k];
    assert rest[|rest| - 1] == notes[|notes| - 1];
    assert rest[1..] == notes[k + 1..];
    assert s.Nexts(rest[|rest| - 1]) == [];
    LaterNotesDiffer(notes, start, k);
    LinearTail(s, notes[start], rest, answers);
  }

  /** In a list of distinct notes, no note after position `k` is the one at `start <= k`. */
  lemma LaterNotesDiffer(notes: seq<Note>, start: nat, k: nat)
    requires Distinct(notes) && start <= k < |notes|
    ensures forall i :: 1 <= i < |notes[k..]| ==> notes[k..][i] != notes[start]
  {
    forall i | 1 <= i < |notes[k..]| ensures notes[k..][i] != notes[start] {
      assert notes[k..][i] == notes[k + i];
    }
  }

  /** Each note is followed by the next one and by nothing else. */
  predicate SingleLinks(s: Snapshot, notes: seq<Note>)
    decreases |notes|
  {
    |notes| <= 1 || (s.Nexts(notes[0]) == [notes[1]] && SingleLinks(s, notes[1..]))
  }

  /** The generated links, from note `k` on, are single links. */
  lemma {:induction false} ChainSingleLinks(s: Snapshot, notes: seq<Note>, k: nat)
    requires k <= |notes|
    requires forall i :: 0 <= i < |notes| - 1 ==> s.Nexts(notes[i]) == [notes[i + 1]]
    ensures SingleLinks(s, notes[k..])
    decreases |notes| - k
  {
    if k + 1 < |notes| {
      ChainSingleLinks(s, notes, k + 1);
      assert notes[k..][1..] == notes[k + 1..];
      assert s.Nexts(notes[k]) == [notes[k + 1]];
    }
  }

  /** The tail walk along single links that avoid the start takes every
      link, asks nothing and stops at the end. */
  lemma {:induction false} LinearTail(s: Snapshot, first: Note, notes: seq<Note>, answers: seq<Option<Pick>>)
    requires notes != [] && SingleLinks(s, notes) && s.Nexts(notes[|notes| - 1]) == []
    requires forall i :: 1 <= i < |notes| ==> notes[i] != first
    ensures TailFrom(s, first, notes[0], answers, |notes| - 1)
      == Some(TailRun(Some(notes[|notes| - 1]), [], notes[1..]))
    decreases |notes|
  {
    if |notes| > 1 {
      var next := notes[1];
      var rest := notes[1..];
      assert s.Nexts(notes[0]) == [next] && first != next;
      forall i | 1 <= i < |rest| ensures rest[i] != first {
        assert rest[i] == notes[i + 1];
      }
      LinearTail(s, first, rest, answers);
      assert TailFrom(s, first, notes[0], answers, |notes| - 1)
        == Join([], [next], TailFrom(s, first, next, answers, |rest| - 1));
      assert [next] + rest[1..] == rest;
      var none: seq<seq<Note>> := [];
      assert none + none == none;
    }
  }

  const A: Note := Note("A.md", "A")
  const B: Note := Note("B.md", "B")
  const C: Note := Note("C.md", "C")

  /** `A` has no previous note, `B` points at `A` and `C` at `B`: the head of `C` is `A`. */
  lemma ThreeNoteChainHead()
    ensures HeadFrom(Snapshot(map[B := A, C := B], map[]), C, C, 2) == Some(A)
  {
  }

  /** `A` and `B` point at each other: from `A` the walk stops at `B`,
      before it would re-enter `A`. */
  lemma TwoNoteRingHead()
    ensures HeadFrom(Snapshot(map[A := B, B := A], map[]), A, A, 1) == Some(B)
  {
  }

  /** `B` and `C` both follow `A`: the walk from `A` asks once with `[B, C]`;
      choosing `B` (the first suggestion for the empty query) ends at `B`;
      closing the modal, or a script that has run out, ends the walk with
      null. */
  lemma BranchAtStart()
    ensures var s := Snapshot(map[B := A, C := A], map[A := [B, C]]);
      TailFrom(s, A, A, [Some(Pick("", 0))], 1) == Some(TailRun(Some(B), [[B, C]], [B])) &&
      TailFrom(s, A, A, [None], 1) == Some(TailRun(None, [[B, C]], [])) &&
      TailFrom(s, A, A, [], 1) == Some(TailRun(None, [[B, C]], []))
  {
    var s := Snapshot(map[B := A, C := A], map[A := [B, C]]);
    assert s.Nexts(A) == [B, C];
    assert s.Nexts(B) == [];
    assert A !in [B, C];
    EveryOptionChoosable([B, C], 0);
    assert TailFrom(s, A, B, [], 0) == Some(TailRun(Some(B), [], []));
    assert [[B, C]] + [] == [[B, C]] && [B] + [] == [B];
  }
}
