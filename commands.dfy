/** lib/commands.ts: the same six commands as free functions over `app`.
    They share the head walk and the next-note dispatch with main.ts.  The
    `findLastNote` they import from lib/obsidian.ts is not part of this
    model: `goToLastNoteCommand` and `insertNoteToLastCommand` take what it
    resolves to, for each start note, as the function `findLastNote`. */
module Commands {
  import opened Wrappers
  import opened Notes
  import opened Host
  import opened Suggest
  import opened Walker

  /** Opens the previous note, when there is an active file and it has one. */
  method GoToPreviousNoteCommand(app: App)
    modifies app
    ensures app.answers == old(app.answers) && app.written == old(app.written)
    ensures app.activeFile.None? ==> app.events == old(app.events)
    ensures app.activeFile.Some? ==>
      app.events == old(app.events) +
        match app.snapshot.Previous(app.activeFile.value)
        case None => []
        case Some(target) => [Opened(target)]
  {
    var file := app.activeFile;
    if file.None? {
      return;
    }
    var target := app.snapshot.Previous(file.value);
    if target.None? {
      return;
    }
    app.OpenFile(target.value);
  }

  /** No successors: nothing; one: open it; several: prompt with all of them
      and open the chosen one. */
  method GoToNextNoteCommand(app: App)
    modifies app
    ensures app.written == old(app.written)
    ensures app.activeFile.None? ==> app.events == old(app.events) && app.answers == old(app.answers)
    ensures app.activeFile.Some? ==>
      var nextNotes := app.snapshot.Nexts(app.activeFile.value);
      var selected := Chosen(nextNotes, AnswerAt(old(app.answers), 0));
      (|nextNotes| == 0 ==> app.events == old(app.events) && app.answers == old(app.answers)) &&
      (|nextNotes| == 1 ==> app.events == old(app.events) + [Opened(nextNotes[0])] && app.answers == old(app.answers)) &&
      (|nextNotes| >= 2 ==>
        app.answers == Drop(old(app.answers), 1) &&
        app.events == old(app.events) + [Prompted(nextNotes)] +
          (if selected.Some? then [Opened(selected.value)] else []))
  {
    var file := app.activeFile;
    if file.None? {
      return;
    }
    var nextNotes := app.snapshot.Nexts(file.value);
    match NextNoteStep(nextNotes)
    case Stay =>
    case OpenDirectly(note) =>
      app.OpenFile(note);
    case AskAmong(candidates) =>
      var selectedFile := app.AwaitChoice(candidates);
      if selectedFile.Some? {
        app.OpenFile(selectedFile.value);
      }
  }

  /** The same head walk as main.ts's `goToFirstNote`: the same stopping
      rule, hence the same head for the same snapshot. */
  method GoToFirstNoteCommand(app: App, ghost fuel: nat)
    requires app.activeFile.Some? ==> HeadFrom(app.snapshot, app.activeFile.value, app.activeFile.value, fuel).Some?
    modifies app
    ensures app.answers == old(app.answers) && app.written == old(app.written)
    ensures app.activeFile.None? ==> app.events == old(app.events)
    ensures app.activeFile.Some? ==>
      var file := app.activeFile.value;
      var first := HeadFrom(app.snapshot, file, file, fuel).value;
      app.events == old(app.events) + if first != file then [Opened(first)] else []
  {
    var file := app.activeFile;
    if file.None? {
      return;
    }
    var firstNote := FindFirstNote(app.snapshot, file.value, fuel);
    if firstNote != file.value {
      app.OpenFile(firstNote);
    }
  }

  /** Opens what `findLastNote` resolves to, when that is a note other than
      the active file. */
  method GoToLastNoteCommand(app: App, findLastNote: Note -> Option<Note>)
    modifies app
    ensures app.answers == old(app.answers) && app.written == old(app.written)
    ensures app.activeFile.None? ==> app.events == old(app.events)
    ensures app.activeFile.Some? ==>
      var file := app.activeFile.value;
      var lastNote := findLastNote(file);
      app.events == old(app.events) +
        if lastNote.Some? && lastNote.value != file then [Opened(lastNote.value)] else []
  {
    var file := app.activeFile;
    if file.None? {
      return;
    }
    var lastNote := findLastNote(file.value);
    if lastNote.Some? && lastNote.value != file.value {
      app.OpenFile(lastNote.value);
    }
  }

  /** Detaches the active file. */
  method DetachNoteCommand(app: App)
    modifies app
    ensures app.answers == old(app.answers)
    ensures app.activeFile.None? ==> app.events == old(app.events) && app.written == old(app.written)
    ensures app.activeFile.Some? ==>
      app.events == old(app.events) + [DetachWritten(app.activeFile.value)] &&
      app.written == old(app.written)[app.activeFile.value := DetachedMark]
  {
    var file := app.activeFile;
    if file.None? {
      return;
    }
    app.DetachNote(file.value);
  }

  /** Detach, choose, find the tail, set `previous` to the tail's basename;
      a cancelled choice or a null tail returns early and the detach stays. */
  method InsertNoteToLastCommand(app: App, findLastNote: Note -> Option<Note>)
    modifies app
    ensures app.activeFile.None? ==>
      app.events == old(app.events) && app.answers == old(app.answers) && app.written == old(app.written)
    ensures app.activeFile.Some? ==>
      var file := app.activeFile.value;
      var selected := Chosen(app.markdownFiles, AnswerAt(old(app.answers), 0));
      var detached := old(app.events) + [DetachWritten(file), Prompted(app.markdownFiles)];
      app.answers == Drop(old(app.answers), 1) &&
      (selected.None? || findLastNote(selected.value).None? ==>
        app.events == detached && app.written == old(app.written)[file := DetachedMark]) &&
      (selected.Some? && findLastNote(selected.value).Some? ==>
        var name := findLastNote(selected.value).value.basename;
        app.events == detached + [PreviousWritten(file, name)] &&
        app.written == old(app.written)[file := Named(name)])
  {
    var file := app.activeFile;
    if file.None? {
      return;
    }
    ghost var written0 := app.written;
    app.DetachNote(file.value);
    var selectedNote := app.AwaitChoice(app.markdownFiles);
    if selectedNote.None? {
      return;
    }
    var lastNote := findLastNote(selectedNote.value);
    if lastNote.None? {
      return;
    }
    app.SetPreviousProperty(file.value, lastNote.value.basename);
    ghost var name := lastNote.value.basename;
    assert written0[file.value := DetachedMark][file.value := Named(name)] == written0[file.value := Named(name)];
  }
}
