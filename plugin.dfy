/** main.ts: the plugin class `PreviousRiverPlugin` and its six commands.
    Each command reads the active file and the snapshot through `app`, and
    its effects are the events and writes it leaves in `app`. */
module Plugin {
  import opened Wrappers
  import opened Notes
  import opened Host
  import opened Suggest
  import opened Walker

  class PreviousRiverPlugin {
    const app: App

    constructor (app: App)
      ensures this.app == app
    {
      this.app := app;
    }

    /** Opens the previous note, when there is an active file and it has one. */
    method GoToPreviousNote()
      modifies app
      ensures app.answers == old(app.answers) && app.written == old(app.written)
      ensures app.activeFile.None? ==> app.events == old(app.events)
      ensures app.activeFile.Some? ==>
        app.events == old(app.events) +
          match app.snapshot.Previous(app.activeFile.value)
          case None => []
          case Some(target) => [Opened(target)]
    {
      var file := app.activeFile;
      if file.None? {
        return;
      }
      var target := app.snapshot.Previous(file.value);
      if target.None? {
        return;
      }
      app.OpenFile(target.value);
    }

    /** No successors: nothing; one: open it; several: prompt with all of
        them and open the chosen one. */
    method GoToNextNote()
      modifies app
      ensures app.written == old(app.written)
      ensures app.activeFile.None? ==> app.events == old(app.events) && app.answers == old(app.answers)
      ensures app.activeFile.Some? ==>
        var nextNotes := app.snapshot.Nexts(app.activeFile.value);
        var selected := Chosen(nextNotes, AnswerAt(old(app.answers), 0));
        (|nextNotes| == 0 ==> app.events == old(app.events) && app.answers == old(app.answers)) &&
        (|nextNotes| == 1 ==> app.events == old(app.events) + [Opened(nextNotes[0])] && app.answers == old(app.answers)) &&
        (|nextNotes| >= 2 ==>
          app.answers == Drop(old(app.answers), 1) &&
          app.events == old(app.events) + [Prompted(nextNotes)] +
            (if selected.Some? then [Opened(selected.value)] else []))
    {
      var file := app.activeFile;
      if file.None? {
        return;
      }
      var nextNotes := app.snapshot.Nexts(file.value);
      match NextNoteStep(nextNotes)
      case Stay =>
      case OpenDirectly(note) =>
        app.OpenFile(note);
      case AskAmong(candidates) =>
        var selectedFile := app.AwaitChoice(candidates);
        if selectedFile.Some? {
          app.OpenFile(selectedFile.value);
        }
    }

    /** Walks to the head of the chain and opens it when it is not the
        active file. */
    method GoToFirstNote(ghost fuel: nat)
      requires app.activeFile.Some? ==> HeadFrom(app.snapshot, app.activeFile.value, app.activeFile.value, fuel).Some?
      modifies app
      ensures app.answers == old(app.answers) && app.written == old(app.written)
      ensures app.activeFile.None? ==> app.events == old(app.events)
      ensures app.activeFile.Some? ==>
        var file := app.activeFile.value;
        var first := HeadFrom(app.snapshot, file, file, fuel).value;
        app.events == old(app.events) + if first != file then [Opened(first)] else []
    {
      var file := app.activeFile;
      if file.None? {
        return;
      }
      var firstNote := FindFirstNote(app.snapshot, file.value, fuel);
      if firstNote != file.value {
        app.OpenFile(firstNote);
      }
    }

    /** `findLastNote`: the tail walk, its prompts shown and answered. */
    method FindLastNote(startNote: Note, ghost fuel: nat) returns (lastNote: Option<Note>)
      requires TailFrom(app.snapshot, startNote, startNote, app.answers, fuel).Some?
      modifies app
      ensures var run := TailFrom(app.snapshot, startNote, startNote, old(app.answers), fuel).value;
        lastNote == run.last &&
        app.events == old(app.events) + PromptEvents(run.prompts) &&
        app.answers == Drop(old(app.answers), |run.prompts|)
      ensures app.written == old(app.written)
    {
      var prompts;
      lastNote, prompts := Walker.FindLastNote(app.snapshot, startNote, app.answers, fuel);
      app.AnswerPrompts(prompts);
    }

    /** Walks to the tail of the chain and opens it when the walk was not
        cancelled and found a note other than the active file. */
    method GoToLastNote(ghost fuel: nat)
      requires app.activeFile.Some? ==>
        TailFrom(app.snapshot, app.activeFile.value, app.activeFile.value, app.answers, fuel).Some?
      modifies app
      ensures app.written == old(app.written)
      ensures app.activeFile.None? ==> app.events == old(app.events) && app.answers == old(app.answers)
      ensures app.activeFile.Some? ==>
        var file := app.activeFile.value;
        var run := TailFrom(app.snapshot, file, file, old(app.answers), fuel).value;
        app.answers == Drop(old(app.answers), |run.prompts|) &&
        app.events == old(app.events) + PromptEvents(run.prompts) +
          (if run.last.Some? && run.last.value != file then [Opened(run.last.value)] else [])
    {
      var file := app.activeFile;
      if file.None? {
        return;
      }
      var lastNote := FindLastNote(file.value, fuel);
      if lastNote.Some? && lastNote.value != file.value {
        app.OpenFile(lastNote.value);
      }
    }

    /** Detaches the active file. */
    method DetachNote()
      modifies app
      ensures app.answers == old(app.answers)
      ensures app.activeFile.None? ==> app.events == old(app.events) && app.written == old(app.written)
      ensures app.activeFile.Some? ==>
        app.events == old(app.events) + [DetachWritten(app.activeFile.value)] &&
        app.written == old(app.written)[app.activeFile.value := DetachedMark]
    {
      var file := app.activeFile;
      if file.None? {
        return;
      }
      app.DetachNote(file.value);
    }

    /** The end of `insertNoteToLastCommand`: walk to the tail of `selected`'s
        chain and, unless that is cancelled, set `file`'s previous note to it. */
    method LinkAfterTail(file: Note, selected: Note, ghost fuel: nat)
      requires TailFrom(app.snapshot, selected, selected, app.answers, fuel).Some?
      modifies app
      ensures var run := TailFrom(app.snapshot, selected, selected, old(app.answers), fuel).value;
        app.answers == Drop(old(app.answers), |run.prompts|) &&
        (run.last.None? ==>
          app.events == old(app.events) + PromptEvents(run.prompts) && app.written == old(app.written)) &&
        (run.last.Some? ==>
          app.events == old(app.events) + PromptEvents(run.prompts) + [PreviousWritten(file, run.last.value.basename)] &&
          app.written == old(app.written)[file := Named(run.last.value.basename)])
    {
      var lastNote := FindLastNote(selected, fuel);
      if lastNote.None? {
        return;
      }
      app.SetPreviousProperty(file, lastNote.value.basename);
    }

    /** Detaches the active file, lets the user choose a note, walks to the
        tail of that note's chain and makes the active file follow it.  A
        cancelled choice or walk returns early and the detach stays. */
    method InsertNoteToLastCommand(ghost fuel: nat)
      requires var selected := Chosen(app.markdownFiles, AnswerAt(app.answers, 0));
        app.activeFile.Some? && selected.Some? ==>
          TailFrom(app.snapshot, selected.value, selected.value, Drop(app.answers, 1), fuel).Some?
      modifies app
      ensures app.activeFile.None? ==>
        app.events == old(app.events) && app.answers == old(app.answers) && app.written == old(app.written)
      ensures app.activeFile.Some? ==>
        var file := app.activeFile.value;
        var selected := Chosen(app.markdownFiles, AnswerAt(old(app.answers), 0));
        var detached := old(app.events) + [DetachWritten(file), Prompted(app.markdownFiles)];
        (selected.None? ==>
          app.events == detached && app.answers == Drop(old(app.answers), 1) &&
          app.written == old(app.written)[file := DetachedMark]) &&
        (selected.Some? ==>
          var run := TailFrom(app.snapshot, selected.value, selected.value, Drop(old(app.answers), 1), fuel).value;
          app.answers == Drop(old(app.answers), 1 + |run.prompts|) &&
          (run.last.None? ==>
            app.events == detached + PromptEvents(run.prompts) &&
            app.written == old(app.written)[file := DetachedMark]) &&
          (run.last.Some? ==>
            app.events == detached + PromptEvents(run.prompts) + [PreviousWritten(file, run.last.value.basename)] &&
            app.written == old(app.written)[file := Named(run.last.value.basename)]))
    {
      var file := app.activeFile;
      if file.None? {
        return;
      }
      ghost var written0 := app.written;
      app.DetachNote(file.value);
      var selectedNote := app.AwaitChoice(app.markdownFiles);
      if selectedNote.None? {
        return;
      }
      ghost var answers1 := app.answers;
      ghost var events1 := app.events;
      ghost var run := TailFrom(app.snapshot, selectedNote.value, selectedNote.value, answers1, fuel).value;
      LinkAfterTail(file.value, selectedNote.value, fuel);
      DropDrop(old(app.answers), 1, |run.prompts|);
      assert app.answers == Drop(old(app.answers), 1 + |run.prompts|);
      ghost var detached := old(app.events) + [DetachWritten(file.value), Prompted(app.markdownFiles)];
      assert events1 == detached;
      if run.last.None? {
        assert app.events == detached + PromptEvents(run.prompts);
        assert app.written == old(app.written)[file.value := DetachedMark];
      } else {
        assert app.events == detached + PromptEvents(run.prompts) + [PreviousWritten(file.value, run.last.value.basename)];
        ghost var name := run.last.value.basename;
        assert written0[file.value := DetachedMark][file.value := Named(name)] == written0[file.value := Named(name)];
        assert app.written == old(app.written)[file.value := Named(name)];
      }
      assert Drop(old(app.answers), 1) == answers1;
      assert Chosen(app.markdownFiles, AnswerAt(old(app.answers), 0)) == selectedNote;
    }
  }
}
