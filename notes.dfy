/** Notes and the two relations the plugin reads from the host.
    `getPreviousNote` and `getNextNotes` (lib/obsidian.ts) are not part of
    this model: their answers for one command are a snapshot of two maps. */
module Notes {
  import opened Wrappers

  /** A markdown file (`TFile`): its vault path and its basename. */
  datatype Note = Note(path: string, basename: string)

  /** What `getPreviousNote` and `getNextNotes` report while one command runs:
      a note missing from `previous` has no predecessor, one missing from
      `nexts` has no successors.  The two are not required to agree. */
  datatype Snapshot = Snapshot(previous: map<Note, Note>, nexts: map<Note, seq<Note>>) {
    function Previous(n: Note): Option<Note> {
      if n in previous then Some(previous[n]) else None
    }

    function Nexts(n: Note): seq<Note> {
      if n in nexts then nexts[n] else []
    }
  }
}
