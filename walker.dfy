/** The two chain walks of main.ts (also written out in lib/commands.ts):
    the head walk of `goToFirstNote`, which follows `previous`, and the tail
    walk `findLastNote`, which follows successors and asks the user at
    branch points.  Both loop `while (true)` and stop only on the conditions
    the source tests, so each is specified by a function that performs the
    same walk with a `fuel` bound on the number of steps; a walk that needs
    more steps than its fuel yields None there.  Nothing here claims that
    the walks terminate in general: `OtherCycleNeverStops` and
    `TailCycleNeverStops` show that neither does.  The user's answers are
    picks in the suggestion modal, resolved by `Suggest.Chosen`, so a chosen
    note is always one of the candidates shown. */
module Walker {
  import opened Wrappers
  import opened Notes
  import opened Suggest

  // ---------------------------------------------------------------- head walk

  /** The head walk from `cur` for a walk that began at `start`: stop when
      `cur` has no previous note or its previous note is `start`. */
  function HeadFrom(s: Snapshot, start: Note, cur: Note, fuel: nat): (r: Option<Note>)
    ensures r.Some? ==> s.Previous(r.value).None? || s.Previous(r.value) == Some(start)
    decreases fuel
  {
    match s.Previous(cur)
    case None => Some(cur)
    case Some(p) =>
      if p == start then Some(cur)
      else if fuel == 0 then None
      else HeadFrom(s, start, p, fuel - 1)
  }

  /** Each note of `path` has the next one as its previous note. */
  predicate PrevPath(s: Snapshot, path: seq<Note>) {
    forall i :: 0 <= i < |path| - 1 ==> s.Previous(path[i]) == Some(path[i + 1])
  }

  /** The head walk only moves along `previous` links, never re-enters the
      start note, and takes at most `fuel` steps. */
  lemma {:induction false} HeadReached(s: Snapshot, start: Note, cur: Note, fuel: nat) returns (path: seq<Note>)
    requires HeadFrom(s, start, cur, fuel).Some?
    ensures |path| >= 1 && |path| <= fuel + 1
    ensures path[0] == cur && path[|path| - 1] == HeadFrom(s, start, cur, fuel).value
    ensures PrevPath(s, path)
    ensures forall i :: 1 <= i < |path| ==> path[i] != start
    decreases fuel
  {
    match s.Previous(cur)
    case None => path := [cur];
    case Some(p) =>
      if p == start {
        path := [cur];
      } else {
        var rest := HeadReached(s, start, p, fuel - 1);
        path := [cur] + rest;
        assert forall i :: 1 <= i < |path| ==> path[i] == rest[i - 1];
      }
  }

  /** Conversely, a `previous` path from `cur` that avoids the start and ends
      where the loop stops is exactly the head walk. */
  lemma {:induction false} HeadOfPath(s: Snapshot, start: Note, path: seq<Note>, fuel: nat)
    requires |path| >= 1 && PrevPath(s, path) && |path| <= fuel + 1
    requires forall i :: 1 <= i < |path| ==> path[i] != start
    requires s.Previous(path[|path| - 1]).None? || s.Previous(path[|path| - 1]) == Some(start)
    ensures HeadFrom(s, start, path[0], fuel) == Some(path[|path| - 1])
    decreases |path|
  {
    if |path| > 1 {
      assert s.Previous(path[0]) == Some(path[1]);
      var rest := path[1..];
      assert PrevPath(s, rest) by {
        forall i | 0 <= i < |rest| - 1 ensures s.Previous(rest[i]) == Some(rest[i + 1]) {
          assert rest[i] == path[i + 1];
        }
      }
      HeadOfPath(s, start, rest, fuel - 1);
    }
  }

  /** More fuel does not change a walk that already stopped. */
  lemma {:induction false} HeadFuelMonotone(s: Snapshot, start: Note, cur: Note, fuel: nat, more: nat)
    requires HeadFrom(s, start, cur, fuel).Some? && fuel <= more
    ensures HeadFrom(s, start, cur, more) == HeadFrom(s, start, cur, fuel)
    decreases fuel
  {
    match s.Previous(cur)
    case None =>
    case Some(p) =>
      if p != start {
        HeadFuelMonotone(s, start, p, fuel - 1, more - 1);
      }
  }

  /** The source detects only a cycle back to the start: a chain from the
      start into a cycle between two other notes makes the walk run forever. */
  lemma OtherCycleNeverStops(s: Snapshot, start: Note, a: Note, b: Note, fuel: nat)
    requires start != a && start != b && a != b
    requires s.Previous(start) == Some(a) && s.Previous(a) == Some(b) && s.Previous(b) == Some(a)
    ensures HeadFrom(s, start, start, fuel).None?
  {
    if fuel > 0 {
      CycleNeverStops(s, start, a, b, fuel - 1);
    }
  }

  lemma {:induction false} CycleNeverStops(s: Snapshot, start: Note, a: Note, b: Note, fuel: nat)
    requires start != a && start != b
    requires s.Previous(a) == Some(b) && s.Previous(b) == Some(a)
    ensures HeadFrom(s, start, a, fuel).None? && HeadFrom(s, start, b, fuel).None?
    decreases fuel
  {
    if fuel > 0 {
      CycleNeverStops(s, start, a, b, fuel - 1);
    }
  }

  /** The loop of `goToFirstNote` (main.ts) and `goToFirstNoteCommand`
      (lib/commands.ts): follow `previous` from `start` until there is none
      or it leads back to `start`.  `fuel` is any bound under which the walk
      stops; the loop itself does not use it. */
  method FindFirstNote(s: Snapshot, start: Note, ghost fuel: nat) returns (first: Note)
    requires HeadFrom(s, start, start, fuel).Some?
    ensures Some(first) == HeadFrom(s, start, start, fuel)
    ensures s.Previous(first).None? || s.Previous(first) == Some(start)
  {
    first := start;
    ghost var f := fuel;
    while true
      invariant HeadFrom(s, start, first, f) == HeadFrom(s, start, start, fuel)
      decreases f
    {
      var previousNote := s.Previous(first);
      if previousNote.None? || previousNote.value == start {
        break;
      }
      first := previousNote.value;
      f := f - 1;
    }
  }

  // ---------------------------------------------------------------- tail walk

  /** What the user does at the `j`-th prompt; a script that has run out is
      read as closing the modal without a choice. */
  function AnswerAt(answers: seq<Option<Pick>>, j: nat): Option<Pick> {
    if j < |answers| then answers[j] else None
  }

  /** How a tail walk ends: the found note, or None when a choice was
      cancelled; the candidate lists the user was asked to choose from, in
      order; and the notes the walk moved to, in order. */
  datatype TailRun = TailRun(last: Option<Note>, prompts: seq<seq<Note>>, trail: seq<Note>)

  /** A run preceded by the given prompts and moves. */
  function Join(prompted: seq<seq<Note>>, moved: seq<Note>, r: Option<TailRun>): Option<TailRun> {
    match r
    case None => None
    case Some(t) => Some(TailRun(t.last, prompted + t.prompts, moved + t.trail))
  }

  /** Joining nothing changes nothing; two joins are one. */
  lemma JoinNothing(r: Option<TailRun>)
    ensures Join([], [], r) == r
  {
    if r.Some? {
      assert [] + r.value.prompts == r.value.prompts;
      assert [] + r.value.trail == r.value.trail;
    }
  }

  lemma JoinJoin(p1: seq<seq<Note>>, t1: seq<Note>, p2: seq<seq<Note>>, t2: seq<Note>, r: Option<TailRun>)
    ensures Join(p1, t1, Join(p2, t2, r)) == Join(p1 + p2, t1 + t2, r)
  {
    if r.Some? {
      assert p1 + (p2 + r.value.prompts) == (p1 + p2) + r.value.prompts;
      assert t1 + (t2 + r.value.trail) == (t1 + t2) + r.value.trail;
    }
  }

  /** The tail walk from `cur` for a walk that began at `start`, with the
      remaining answers: stop on no successors or on successors that include
      the start; follow a single successor; ask at a branch point. */
  function TailFrom(s: Snapshot, start: Note, cur: Note, answers: seq<Option<Pick>>, fuel: nat): (r: Option<TailRun>)
    ensures r.Some? ==> |r.value.trail| <= fuel
    ensures r.Some? && r.value.last.Some? ==>
      |s.Nexts(r.value.last.value)| == 0 || start in s.Nexts(r.value.last.value)
    ensures r.Some? && r.value.last.None? ==> |r.value.prompts| >= 1
    decreases fuel
  {
    var ns := s.Nexts(cur);
    if |ns| == 0 || start in ns then Some(TailRun(Some(cur), [], []))
    else if |ns| == 1 then
      if fuel == 0 then None else Join([], [ns[0]], TailFrom(s, start, ns[0], answers, fuel - 1))
    else
      match Chosen(ns, AnswerAt(answers, 0))
      case None => Some(TailRun(None, [ns], []))
      case Some(c) =>
        if fuel == 0 then None else Join([ns], [c], TailFrom(s, start, c, answers[1..], fuel - 1))
  }

  /** The tail walk, too, detects only a cycle back to the start: a chain
      from the start into a cycle of single successors between two other
      notes makes it run forever, whatever the answers. */
  lemma TailCycleNeverStops(s: Snapshot, start: Note, a: Note, b: Note, answers: seq<Option<Pick>>, fuel: nat)
    requires start != a && start != b && a != b
    requires s.Nexts(start) == [a] && s.Nexts(a) == [b] && s.Nexts(b) == [a]
    ensures TailFrom(s, start, start, answers, fuel).None?
  {
    if fuel > 0 {
      TailCycle(s, start, a, b, answers, fuel - 1);
    }
  }

  lemma {:induction false} TailCycle(s: Snapshot, start: Note, a: Note, b: Note, answers: seq<Option<Pick>>, fuel: nat)
    requires start != a && start != b
    requires s.Nexts(a) == [b] && s.Nexts(b) == [a]
    ensures TailFrom(s, start, a, answers, fuel).None? && TailFrom(s, start, b, answers, fuel).None?
    decreases fuel
  {
    if fuel > 0 {
      TailCycle(s, start, a, b, answers, fuel - 1);
    }
  }

  /** The successor lists of the branch points among `notes`, in order. */
  function BranchLists(s: Snapshot, notes: seq<Note>): seq<seq<Note>> {
    if notes == [] then []
    else (if |s.Nexts(notes[0])| >= 2 then [s.Nexts(notes[0])] else []) + BranchLists(s, notes[1..])
  }

  /** The walk moved on from `path[i]` to `path[i + 1]` as the loop does:
      `path[i]` had successors and none of them was the start; a single
      successor was taken without asking; at a branch point the next note is
      the answer to the prompt numbered by the branch points before it. */
  predicate Moved(s: Snapshot, start: Note, answers: seq<Option<Pick>>, path: seq<Note>, i: nat)
    requires i + 1 < |path|
  {
    var ns := s.Nexts(path[i]);
    |ns| >= 1 && start !in ns &&
    (|ns| == 1 ==> path[i + 1] == ns[0]) &&
    (|ns| >= 2 ==> Chosen(ns, AnswerAt(answers, |BranchLists(s, path[..i])|)) == Some(path[i + 1]))
  }

  /** Every move along `path` follows the loop's rule. */
  predicate AllMoved(s: Snapshot, start: Note, answers: seq<Option<Pick>>, path: seq<Note>) {
    forall i :: 0 <= i < |path| - 1 ==> Moved(s, start, answers, path, i)
  }

  /** The shape of a tail run from `cur`: every move follows the loop's
      rule; the user is asked exactly at the branch points passed, with
      exactly their successor lists, in order; and the run ends either at a
      note with no successors or one listing the start, or at a branch point
      whose prompt was cancelled. */
  ghost predicate RunShape(s: Snapshot, start: Note, cur: Note, answers: seq<Option<Pick>>, run: TailRun) {
    var path := [cur] + run.trail;
    var z := path[|path| - 1];
    AllMoved(s, start, answers, path) &&
    (run.last.Some? ==>
      run.last.value == z && (|s.Nexts(z)| == 0 || start in s.Nexts(z)) &&
      run.prompts == BranchLists(s, path[..|run.trail|])) &&
    (run.last.None? ==>
      |s.Nexts(z)| >= 2 && start !in s.Nexts(z) &&
      run.prompts == BranchLists(s, path[..|run.trail|]) + [s.Nexts(z)] &&
      Chosen(s.Nexts(z), AnswerAt(answers, |run.prompts| - 1)).None?)
  }

  /** The tail walk in full: its run has the shape `RunShape` describes. */
  lemma {:induction false} TailRunSpec(s: Snapshot, start: Note, cur: Note, answers: seq<Option<Pick>>, fuel: nat)
    requires TailFrom(s, start, cur, answers, fuel).Some?
    ensures RunShape(s, start, cur, answers, TailFrom(s, start, cur, answers, fuel).value)
    decreases fuel
  {
    var ns := s.Nexts(cur);
    if |ns| == 0 || start in ns {
      EndShape(s, start, cur, answers);
    } else if |ns| == 1 {
      var sub := TailFrom(s, start, ns[0], answers, fuel - 1).value;
      TailRunSpec(s, start, ns[0], answers, fuel - 1);
      TailShift(s, start, cur, ns[0], answers, answers, sub);
    } else if Chosen(ns, AnswerAt(answers, 0)).Some? {
      var c := Chosen(ns, AnswerAt(answers, 0)).value;
      var sub := TailFrom(s, start, c, answers[1..], fuel - 1).value;
      TailRunSpec(s, start, c, answers[1..], fuel - 1);
      TailShift(s, start, cur, c, answers, answers[1..], sub);
    } else {
      EndShape(s, start, cur, answers);
    }
  }

  /** The runs that end where they start: at a stop, or at a first prompt
      closed without a choice. */
  lemma EndShape(s: Snapshot, start: Note, cur: Note, answers: seq<Option<Pick>>)
    ensures |s.Nexts(cur)| == 0 || start in s.Nexts(cur) ==>
      RunShape(s, start, cur, answers, TailRun(Some(cur), [], []))
    ensures |s.Nexts(cur)| >= 2 && start !in s.Nexts(cur) && Chosen(s.Nexts(cur), AnswerAt(answers, 0)).None? ==>
      RunShape(s, start, cur, answers, TailRun(None, [s.Nexts(cur)], []))
  {
    assert ([cur] + [])[..0] == [];
  }


  /** Branch points counted along a path that starts with `cur`. */
  lemma BranchListsCons(s: Snapshot, cur: Note, rest: seq<Note>)
    ensures BranchLists(s, [cur] + rest) ==
      (if |s.Nexts(cur)| >= 2 then [s.Nexts(cur)] else []) + BranchLists(s, rest)
  {
    assert ([cur] + rest)[1..] == rest;
  }

  /** The inductive step of `TailRunSpec`: a run of the given shape from
      `next`, preceded by the move from `cur` to `next`, has that shape from
      `cur`. */
  lemma TailShift(s: Snapshot, start: Note, cur: Note, next: Note,
                  answers: seq<Option<Pick>>, rest: seq<Option<Pick>>, sub: TailRun)
    requires var ns := s.Nexts(cur);
      |ns| >= 1 && start !in ns &&
      (|ns| == 1 ==> next == ns[0] && rest == answers) &&
      (|ns| >= 2 ==> |answers| >= 1 && Chosen(ns, answers[0]) == Some(next) && rest == answers[1..])
    requires RunShape(s, start, next, rest, sub)
    ensures RunShape(s, start, cur, answers,
      TailRun(sub.last, (if |s.Nexts(cur)| >= 2 then [s.Nexts(cur)] else []) + sub.prompts, [next] + sub.trail))
  {
    var ns := s.Nexts(cur);
    var head: seq<seq<Note>> := if |ns| >= 2 then [ns] else [];
    var run := TailRun(sub.last, head + sub.prompts, [next] + sub.trail);
    var subpath := [next] + sub.trail;
    var path := [cur] + run.trail;
    assert path == [cur] + subpath;
    forall i | 0 <= i <= |sub.trail|
      ensures BranchLists(s, path[..i + 1]) == head + BranchLists(s, subpath[..i])
    {
      assert path[..i + 1] == [cur] + subpath[..i];
      BranchListsCons(s, cur, subpath[..i]);
    }
    ShiftMoves(s, start, cur, answers, rest, subpath, |head|);
    if run.last.None? {
      var m := |BranchLists(s, subpath[..|sub.trail|])|;
      assert AnswerAt(answers, |head| + m) == AnswerAt(rest, m);
    }
  }

  /** The moves of `[cur] + subpath` follow the loop's rule when the first
      one does and the later ones do, read with the answers left after the
      `shift` prompts made at `cur`. */
  lemma ShiftMoves(s: Snapshot, start: Note, cur: Note, answers: seq<Option<Pick>>, rest: seq<Option<Pick>>,
                   subpath: seq<Note>, shift: nat)
    requires subpath != []
    requires var ns := s.Nexts(cur);
      |ns| >= 1 && start !in ns && shift == (if |ns| >= 2 then 1 else 0) &&
      (|ns| == 1 ==> subpath[0] == ns[0] && rest == answers) &&
      (|ns| >= 2 ==> |answers| >= 1 && Chosen(ns, answers[0]) == Some(subpath[0]) && rest == answers[1..])
    requires forall i :: 0 <= i < |subpath| ==>
      |BranchLists(s, ([cur] + subpath)[..i + 1])| == shift + |BranchLists(s, subpath[..i])|
    requires AllMoved(s, start, rest, subpath)
    ensures AllMoved(s, start, answers, [cur] + subpath)
  {
    var path := [cur] + subpath;
    forall i | 0 <= i < |path| - 1 ensures Moved(s, start, answers, path, i) {
      if i == 0 {
        assert path[..0] == [];
      } else {
        assert Moved(s, start, rest, subpath, i - 1);
        var m := |BranchLists(s, subpath[..i - 1])|;
        assert AnswerAt(answers, shift + m) == AnswerAt(rest, m);
        MovedAfterFirst(s, start, answers, rest, cur, subpath, i, shift);
      }
    }
  }

  /** A move of the run from the second note on, read with the answers
      shifted by the prompts made at the first note. */
  lemma MovedAfterFirst(s: Snapshot, start: Note, answers: seq<Option<Pick>>, rest: seq<Option<Pick>>,
                        cur: Note, subpath: seq<Note>, i: nat, shift: nat)
    requires 1 <= i < |subpath|
    requires Moved(s, start, rest, subpath, i - 1)
    requires |BranchLists(s, ([cur] + subpath)[..i])| == shift + |BranchLists(s, subpath[..i - 1])|
    requires AnswerAt(answers, shift + |BranchLists(s, subpath[..i - 1])|) == AnswerAt(rest, |BranchLists(s, subpath[..i - 1])|)
    ensures Moved(s, start, answers, [cur] + subpath, i)
  {
    var path := [cur] + subpath;
    assert path[i] == subpath[i - 1] && path[i + 1] == subpath[i];
  }

  /** The run's prompts were answered as a null result needs: every prompt
      but a cancelled last one got a choice, and a run without a found note
      ends at a prompt closed without a choice. */
  predicate Answered(run: TailRun, answers: seq<Option<Pick>>) {
    var answered := if run.last.Some? then |run.prompts| else |run.prompts| - 1;
    (run.last.None? ==>
      |run.prompts| >= 1 && Chosen(run.prompts[|run.prompts| - 1], AnswerAt(answers, |run.prompts| - 1)).None?) &&
    (forall j :: 0 <= j < answered ==> Chosen(run.prompts[j], AnswerAt(answers, j)).Some?)
  }

  /** `findLastNote` returns null only right after a prompt closed without a
      choice, and every earlier prompt got one. */
  lemma {:induction false} NullOnlyOnCancel(s: Snapshot, start: Note, cur: Note, answers: seq<Option<Pick>>, fuel: nat)
    requires TailFrom(s, start, cur, answers, fuel).Some?
    ensures Answered(TailFrom(s, start, cur, answers, fuel).value, answers)
    decreases fuel
  {
    var ns := s.Nexts(cur);
    if |ns| == 0 || start in ns {
    } else if |ns| == 1 {
      NullOnlyOnCancel(s, start, ns[0], answers, fuel - 1);
      JoinNothing(TailFrom(s, start, ns[0], answers, fuel - 1));
    } else if Chosen(ns, AnswerAt(answers, 0)).Some? {
      var c := Chosen(ns, AnswerAt(answers, 0)).value;
      NullOnlyOnCancel(s, start, c, answers[1..], fuel - 1);
      AnsweredShift(ns, c, answers, TailFrom(s, start, c, answers[1..], fuel - 1).value);
    }
  }

  /** A choice at a first prompt, followed by a run answered from the rest of
      the script, gives a run answered from the whole script. */
  lemma AnsweredShift(ns: seq<Note>, c: Note, answers: seq<Option<Pick>>, sub: TailRun)
    requires Chosen(ns, AnswerAt(answers, 0)) == Some(c) && Answered(sub, answers[1..])
    ensures Answered(TailRun(sub.last, [ns] + sub.prompts, [c] + sub.trail), answers)
  {
    var prompts := [ns] + sub.prompts;
    forall j | 1 <= j < |prompts|
      ensures Chosen(prompts[j], AnswerAt(answers, j)) == Chosen(sub.prompts[j - 1], AnswerAt(answers[1..], j - 1))
    {
      assert prompts[j] == sub.prompts[j - 1];
      assert AnswerAt(answers, j) == AnswerAt(answers[1..], j - 1);
    }
  }

  /** The tail walk moves only along successor links and never re-enters the
      start: a chosen note is always one of the candidates shown. */
  lemma {:induction false} TailFollowsSuccessors(s: Snapshot, start: Note, cur: Note, answers: seq<Option<Pick>>, fuel: nat)
    requires TailFrom(s, start, cur, answers, fuel).Some?
    ensures var run := TailFrom(s, start, cur, answers, fuel).value;
      var path := [cur] + run.trail;
      forall i :: 0 <= i < |run.trail| ==> run.trail[i] in s.Nexts(path[i]) && run.trail[i] != start
    decreases fuel
  {
    var ns := s.Nexts(cur);
    var run := TailFrom(s, start, cur, answers, fuel).value;
    var path := [cur] + run.trail;
    if |ns| == 0 || start in ns {
    } else if |ns| == 1 {
      TailFollowsSuccessors(s, start, ns[0], answers, fuel - 1);
      var sub := TailFrom(s, start, ns[0], answers, fuel - 1).value;
      assert path == [cur] + ([ns[0]] + sub.trail);
    } else if Chosen(ns, AnswerAt(answers, 0)).Some? {
      var c := Chosen(ns, AnswerAt(answers, 0)).value;
      var sub := TailFrom(s, start, c, answers[1..], fuel - 1).value;
      TailFollowsSuccessors(s, start, c, answers[1..], fuel - 1);
      assert path == [cur] + ([c] + sub.trail);
    }
  }

  /** `findLastNote` (main.ts): returns the found note, or None when a
      choice was cancelled, and the candidate lists it prompted with, in
      order.  One answer is consumed per prompt. */
  method FindLastNote(s: Snapshot, start: Note, answers: seq<Option<Pick>>, ghost fuel: nat)
    returns (last: Option<Note>, prompts: seq<seq<Note>>)
    requires TailFrom(s, start, start, answers, fuel).Some?
    ensures var run := TailFrom(s, start, start, answers, fuel).value;
      last == run.last && prompts == run.prompts
  {
    var lastNote := start;
    var rest := answers;
    prompts := [];
    ghost var trail: seq<Note> := [];
    ghost var f := fuel;
    JoinNothing(TailFrom(s, start, start, answers, fuel));
    while true
      invariant TailFrom(s, start, start, answers, fuel) == Join(prompts, trail, TailFrom(s, start, lastNote, rest, f))
      decreases f
    {
      var nextNotes := s.Nexts(lastNote);
      if |nextNotes| == 0 || start in nextNotes {
        break;
      }
      if |nextNotes| == 1 {
        lastNote := nextNotes[0];
        JoinJoin(prompts, trail, [], [lastNote], TailFrom(s, start, lastNote, rest, f - 1));
        assert prompts + [] == prompts;
      } else {
        var selectedNote := Chosen(nextNotes, AnswerAt(rest, 0));
        if selectedNote.None? {
          prompts := prompts + [nextNotes];
          return None, prompts;
        }
        JoinJoin(prompts, trail, [nextNotes], [selectedNote.value], TailFrom(s, start, selectedNote.value, rest[1..], f - 1));
        prompts := prompts + [nextNotes];
        lastNote := selectedNote.value;
        rest := rest[1..];
      }
      trail := trail + [lastNote];
      f := f - 1;
    }
    last := Some(lastNote);
  }

  // ---------------------------------------------------------------- next-note dispatch

  /** What "go to next note" does with the successor list. */
  datatype NextStep = Stay | OpenDirectly(note: Note) | AskAmong(candidates: seq<Note>)

  /** Nothing on no successors, the only one directly, otherwise a prompt
      over the full list. */
  function NextNoteStep(nextNotes: seq<Note>): (r: NextStep)
    ensures r.Stay? <==> |nextNotes| == 0
    ensures r.OpenDirectly? <==> |nextNotes| == 1
    ensures r.OpenDirectly? ==> r.note == nextNotes[0]
    ensures r.AskAmong? ==> r.candidates == nextNotes && |nextNotes| >= 2
  {
    if |nextNotes| == 0 then Stay
    else if |nextNotes| == 1 then OpenDirectly(nextNotes[0])
    else AskAmong(nextNotes)
  }
}
