/** The part of the Obsidian host the commands talk to, as state: the active
    file, the vault's markdown files and the `previous`/successor snapshot
    (all fixed while a command runs), the user's forthcoming answers to
    suggestion prompts, what the commands did (`events`) and the `previous`
    fields they wrote (`written`).  Navigation, prompts and metadata writes
    are recorded, not performed. */
module Host {
  import opened Wrappers
  import opened Notes
  import opened Suggest
  import Walker

  /** One observable step of a command. */
  datatype Event =
    | Opened(note: Note)                   // workspace.getLeaf().openFile(note)
    | Prompted(options: seq<Note>)         // a NextNoteSuggestModal over options was opened
    | DetachWritten(note: Note)            // detachNote(app, note)
    | PreviousWritten(note: Note, name: string)  // setPreviousProperty(app, note, name)

  /** A `previous` field as last written by a command.  What `detachNote`
      writes is not part of this model, so it is a mark of its own. */
  datatype Field = DetachedMark | Named(name: string)

  /** The answers left after `n` prompts have consumed theirs. */
  function Drop(answers: seq<Option<Pick>>, n: nat): (r: seq<Option<Pick>>)
    ensures forall j :: Walker.AnswerAt(r, j) == Walker.AnswerAt(answers, n + j)
  {
    if n <= |answers| then answers[n..] else []
  }

  /** Consuming `m` answers and then `n` more consumes `m + n`. */
  lemma DropDrop(answers: seq<Option<Pick>>, m: nat, n: nat)
    ensures Drop(Drop(answers, m), n) == Drop(answers, m + n)
  {
  }

  /** The prompt events for the given candidate lists, in order. */
  function PromptEvents(prompts: seq<seq<Note>>): (r: seq<Event>)
    ensures |r| == |prompts| && forall i :: 0 <= i < |r| ==> r[i] == Prompted(prompts[i])
  {
    if prompts == [] then [] else [Prompted(prompts[0])] + PromptEvents(prompts[1..])
  }

  class App {
    const snapshot: Snapshot
    const activeFile: Option<Note>
    const markdownFiles: seq<Note>
    var answers: seq<Option<Pick>>
    var events: seq<Event>
    var written: map<Note, Field>

    constructor (snapshot: Snapshot, activeFile: Option<Note>, markdownFiles: seq<Note>, answers: seq<Option<Pick>>)
      ensures this.snapshot == snapshot && this.activeFile == activeFile
      ensures this.markdownFiles == markdownFiles && this.answers == answers
      ensures events == [] && written == map[]
    {
      this.snapshot := snapshot;
      this.activeFile := activeFile;
      this.markdownFiles := markdownFiles;
      this.answers := answers;
      events := [];
      written := map[];
    }

    /** `app.workspace.getLeaf().openFile(file)`. */
    method OpenFile(file: Note)
      modifies this
      ensures events == old(events) + [Opened(file)]
      ensures answers == old(answers) && written == old(written)
    {
      events := events + [Opened(file)];
    }

    /** `detachNote(app, file)`: one write to the file's `previous` field. */
    method DetachNote(file: Note)
      modifies this
      ensures events == old(events) + [DetachWritten(file)]
      ensures written == old(written)[file := DetachedMark]
      ensures answers == old(answers)
    {
      events := events + [DetachWritten(file)];
      written := written[file := DetachedMark];
    }

    /** `setPreviousProperty(app, file, name)`: one write to the file's `previous` field. */
    method SetPreviousProperty(file: Note, name: string)
      modifies this
      ensures events == old(events) + [PreviousWritten(file, name)]
      ensures written == old(written)[file := Named(name)]
      ensures answers == old(answers)
    {
      events := events + [PreviousWritten(file, name)];
      written := written[file := Named(name)];
    }

    /** A suggestion modal over `options`, awaited: the note the user's next
        answer chooses, which is always one of `options`. */
    method AwaitChoice(options: seq<Note>) returns (selected: Option<Note>)
      modifies this
      ensures selected == Chosen(options, Walker.AnswerAt(old(answers), 0))
      ensures selected.Some? ==> selected.value in options
      ensures answers == Drop(old(answers), 1)
      ensures events == old(events) + [Prompted(options)]
      ensures written == old(written)
    {
      selected := Chosen(options, Walker.AnswerAt(answers, 0));
      answers := Drop(answers, 1);
      events := events + [Prompted(options)];
    }

    /** The prompts a walk made, one answer consumed by each. */
    method AnswerPrompts(prompts: seq<seq<Note>>)
      modifies this
      ensures answers == Drop(old(answers), |prompts|)
      ensures events == old(events) + PromptEvents(prompts)
      ensures written == old(written)
    {
      answers := Drop(answers, |prompts|);
      events := events + PromptEvents(prompts);
    }
  }
}
