/** The document state of the TinyPad editor: the unsaved-changes flag, the
    window title that shows it, the file the buffer is bound to and the
    buffer text, with the operations that change them and the guard that
    asks before unsaved changes are thrown away.

    Dialogs, file choosers, reads and writes are not performed here: their
    outcomes are parameters of the operations that use them. */
module Editor {
  import opened TextLines

  datatype Option<T> = None | Some(value: T)

  /** A file, known by the path it was chosen or named with. */
  datatype File = File(path: string)

  /** What reading a chosen file yields: the file could not be opened at
      all; reading stopped on an error after `lines`; or every line was read.
      The lines are those a line reader returns, without terminators. */
  datatype FileRead =
    | OpenFailed
    | ReadFailed(lines: seq<string>)
    | ReadAll(lines: seq<string>)

  /** What the save dialog and opening the file yield: the dialog was not
      approved; or `file` was chosen, and `writable` says whether it could be
      opened for writing. Once it is open, nothing reports a failed write. */
  datatype SaveChoice =
    | SaveCancelled
    | SaveApproved(file: File, writable: bool)

  /** The text a save handed to the writer, and the file it was for. */
  datatype Written = Written(file: File, contents: string)

  /** The decision of the unsaved-changes guard: run the guarded action, do
      not run it, or fail on a dialog answer it does not know. */
  datatype Verdict = Proceed | Stop | Unexpected(response: int)

  const AppName: string := "TinyPad"
  const OpenedTitlePrefix: string := "TinyPad - "
  /** The tag the title carries while there are unsaved changes. */
  const Mark: string := "* "

  /** Answers of the unsaved-changes dialog: the indices of its Save and
      Discard options, and the option pane's cancel and closed codes. */
  const SaveOption: int := 0
  const DiscardOption: int := 1
  const CancelOption: int := 2
  const ClosedOption: int := -1

  predicate IsKnownResponse(response: int) {
    response == SaveOption || response == DiscardOption ||
    response == CancelOption || response == ClosedOption
  }

  predicate HasMark(title: string) {
    |title| >= |Mark| && title[..|Mark|] == Mark
  }

  /** The titles the editor gives its window: the application name, or the
      prefix followed by the path of the opened file. */
  predicate IsAppTitle(title: string) {
    |title| >= |AppName| && title[..|AppName|] == AppName
  }

  /** An application title never carries the tag: it starts with 'T'. */
  lemma AppTitleIsUnmarked(title: string)
    ensures IsAppTitle(title) ==> !HasMark(title)
  {
    if IsAppTitle(title) {
      assert title[0] == title[..|AppName|][0] == 'T';
    }
  }

  /** The title derived from the flag and the untagged title, statelessly. */
  function Decorate(dirty: bool, base: string): (t: string)
    ensures dirty ==> HasMark(t) && t[|Mark|..] == base
    ensures !dirty ==> t == base
    ensures IsAppTitle(base) ==> (HasMark(t) <==> dirty)
  {
    AppTitleIsUnmarked(base);
    if dirty then Mark + base else base
  }

  predicate SaveSucceeds(choice: SaveChoice) {
    choice.SaveApproved? && choice.writable
  }

  /** Whether the guard saves before it decides. */
  predicate SavesFirst(dirty: bool, response: int, choice: SaveChoice) {
    dirty && response == SaveOption && SaveSucceeds(choice)
  }

  /** The guard's decision, from the flag on entry, the dialog answer and what
      the save dialog and write yield. */
  function GuardVerdict(dirty: bool, response: int, choice: SaveChoice): (v: Verdict)
    ensures v == Proceed <==>
      !dirty || response == DiscardOption || (response == SaveOption && SaveSucceeds(choice))
    ensures v.Unexpected? <==> dirty && !IsKnownResponse(response)
    ensures v.Unexpected? ==> v.response == response
  {
    if !dirty then Proceed
    else if response == SaveOption then (if SaveSucceeds(choice) then Proceed else Stop)
    else if response == DiscardOption then Proceed
    else if response == CancelOption || response == ClosedOption then Stop
    else Unexpected(response)
  }

  class TinyPad {
    var unsavedChanges: bool
    var title: string
    var knownFile: Option<File>
    var text: string

    /** The title always shows the flag: tagged while there are unsaved
        changes, untagged otherwise, and untagged it is an application title. */
    predicate Valid()
      reads this
      ensures Valid() ==> (unsavedChanges <==> HasMark(title))
    {
      if unsavedChanges then HasMark(title) && IsAppTitle(title[|Mark|..])
      else
        AppTitleIsUnmarked(title);
        IsAppTitle(title)
    }

    /** The title without the unsaved-changes tag. */
    function BaseTitle(): (base: string)
      reads this
      requires Valid()
      ensures IsAppTitle(base)
      ensures title == Decorate(unsavedChanges, base)
    {
      if unsavedChanges then title[|Mark|..] else title
    }

    constructor ()
      ensures Valid()
      ensures !unsavedChanges && title == AppName && knownFile == None && text == ""
    {
      unsavedChanges := false;
      title := AppName;
      knownFile := None;
      text := "";
    }

    /** Sets the flag and keeps the title in step with it by adding or
        chopping the tag; setting the value it already has changes nothing. */
    method SetUnsavedChanges(b: bool)
      requires Valid()
      modifies this
      ensures Valid()
      ensures unsavedChanges == b
      ensures BaseTitle() == old(BaseTitle())
      ensures old(unsavedChanges) == b ==> title == old(title)
      ensures b && !old(unsavedChanges) ==> title == Mark + old(title)
      ensures !b && old(unsavedChanges) ==> Mark + title == old(title)
      ensures knownFile == old(knownFile) && text == old(text)
    {
      if unsavedChanges == b {
        return;
      }
      if b {
        title := Mark + title;
      } else {
        title := title[|Mark|..];
      }
      unsavedChanges := b;
    }

    /** Reads a file into the buffer. The buffer is cleared only once the
        file is open, and the flag, the bound file and the title change only
        when every line was read. */
    method Open(file: File, read: FileRead)
      requires Valid()
      modifies this
      ensures Valid()
      ensures read.OpenFailed? ==> unchanged(this)
      ensures !read.OpenFailed? ==> text == Joined(read.lines)
      ensures read.ReadAll? ==>
        !unsavedChanges && knownFile == Some(file) && title == OpenedTitlePrefix + file.path
      ensures !read.ReadAll? ==>
        unsavedChanges == old(unsavedChanges) && knownFile == old(knownFile) && title == old(title)
    {
      if read.OpenFailed? {
        return;
      }
      var lines := read.lines;
      text := "";
      var i := 0;
      while i < |lines|
        invariant 0 <= i <= |lines|
        invariant text == Joined(lines[..i])
        invariant unsavedChanges == old(unsavedChanges) && title == old(title)
        invariant knownFile == old(knownFile)
      {
        JoinedSnoc(lines[..i], lines[i]);
        assert lines[..i + 1] == lines[..i] + [lines[i]];
        text := text + lines[i];
        text := text + "\n";
        i := i + 1;
      }
      assert lines[..i] == lines;
      if read.ReadAll? {
        SetUnsavedChanges(false);
        knownFile := Some(file);
        title := OpenedTitlePrefix + file.path;
        assert title[..|AppName|] == AppName;
      }
    }

    /** Hands the buffer to a writer for the chosen file and, once that file
        is open, clears the flag. It never rebinds the file and never touches
        the buffer. */
    method Save(choice: SaveChoice) returns (written: Option<Written>)
      requires Valid()
      modifies this
      ensures Valid()
      ensures knownFile == old(knownFile) && text == old(text)
      ensures BaseTitle() == old(BaseTitle())
      ensures written.Some? <==> SaveSucceeds(choice)
      ensures written.Some? ==> written.value == Written(choice.file, text) && !unsavedChanges
      ensures written.None? ==> unchanged(this)
    {
      match choice
      case SaveCancelled =>
        written := None;
      case SaveApproved(file, writable) =>
        if writable {
          written := Some(Written(file, text));
          SetUnsavedChanges(false);
        } else {
          written := None;
        }
    }

    /** Decides whether an action that would drop the buffer may run. With
        unsaved changes it asks: Save runs the action only if the save
        cleared the flag, Discard runs it, Cancel or a closed dialog do not,
        and any other answer is an error. */
    method DoIfNoUnsavedChanges(response: int, choice: SaveChoice)
      returns (v: Verdict, written: Option<Written>)
      requires Valid()
      modifies this
      ensures Valid()
      ensures knownFile == old(knownFile) && text == old(text)
      ensures BaseTitle() == old(BaseTitle())
      ensures v == GuardVerdict(old(unsavedChanges), response, choice)
      ensures !old(unsavedChanges) ==> v == Proceed && unchanged(this)
      ensures old(unsavedChanges) && response == DiscardOption ==> v == Proceed && unchanged(this)
      ensures old(unsavedChanges) && (response == CancelOption || response == ClosedOption) ==>
        v == Stop && unchanged(this)
      ensures old(unsavedChanges) && response == SaveOption ==>
        (v == Proceed <==> !unsavedChanges) && !v.Unexpected?
      ensures old(unsavedChanges) && !IsKnownResponse(response) ==>
        v == Unexpected(response) && unchanged(this)
      ensures v != Proceed ==> unchanged(this)
      ensures v == Proceed ==> unsavedChanges == (old(unsavedChanges) && response == DiscardOption)
      ensures written ==
        if SavesFirst(old(unsavedChanges), response, choice)
        then Some(Written(choice.file, text)) else None
    {
      v, written := Proceed, None;
      if unsavedChanges {
        if response == SaveOption {
          written := Save(choice);
          if unsavedChanges {
            v := Stop;
            return;
          }
        } else if response == DiscardOption {
        } else if response == CancelOption || response == ClosedOption {
          v := Stop;
          return;
        } else {
          v := Unexpected(response);
          return;
        }
      }
    }

    /** File > New: once the guard allows it, empties the buffer, unbinds the
        file and clears the flag; the window keeps its untagged title. */
    method New(response: int, choice: SaveChoice) returns (v: Verdict, written: Option<Written>)
      requires Valid()
      modifies this
      ensures Valid()
      ensures v == GuardVerdict(old(unsavedChanges), response, choice)
      ensures written ==
        if SavesFirst(old(unsavedChanges), response, choice)
        then Some(Written(choice.file, old(text))) else None
      ensures v != Proceed ==> unchanged(this)
      ensures v == Proceed ==>
        text == "" && knownFile == None && !unsavedChanges && title == old(BaseTitle())
    {
      v, written := DoIfNoUnsavedChanges(response, choice);
      if v == Proceed {
        text := "";
        knownFile := None;
        SetUnsavedChanges(false);
      }
    }

    /** File > Open: once the guard allows it, opens the file the chooser
        gives, if the chooser was approved. */
    method OpenAction(response: int, choice: SaveChoice, chosen: Option<File>, read: FileRead)
      returns (v: Verdict, written: Option<Written>)
      requires Valid()
      modifies this
      ensures Valid()
      ensures v == GuardVerdict(old(unsavedChanges), response, choice)
      ensures written ==
        if SavesFirst(old(unsavedChanges), response, choice)
        then Some(Written(choice.file, old(text))) else None
      ensures v != Proceed ==> unchanged(this)
      ensures v == Proceed && (chosen.None? || !read.ReadAll?) ==>
        unsavedChanges == (old(unsavedChanges) && response == DiscardOption) &&
        knownFile == old(knownFile) && BaseTitle() == old(BaseTitle())
      ensures v == Proceed && (chosen.None? || read.OpenFailed?) ==> text == old(text)
      ensures v == Proceed && chosen.Some? && !read.OpenFailed? ==> text == Joined(read.lines)
      ensures v == Proceed && chosen.Some? && read.ReadAll? ==>
        !unsavedChanges && knownFile == chosen && title == OpenedTitlePrefix + chosen.value.path
    {
      v, written := DoIfNoUnsavedChanges(response, choice);
      if v == Proceed && chosen.Some? {
        Open(chosen.value, read);
      }
    }

    /** File > Close, File > Exit and closing the window: once the guard
        allows it, the program ends with status 0. */
    method Quit(response: int, choice: SaveChoice)
      returns (exitStatus: Option<int>, v: Verdict, written: Option<Written>)
      requires Valid()
      modifies this
      ensures Valid()
      ensures v == GuardVerdict(old(unsavedChanges), response, choice)
      ensures exitStatus == if v == Proceed then Some(0) else None
      ensures written ==
        if SavesFirst(old(unsavedChanges), response, choice)
        then Some(Written(choice.file, old(text))) else None
      ensures v != Proceed ==> unchanged(this)
      ensures v == Proceed ==> unsavedChanges == (old(unsavedChanges) && response == DiscardOption)
      ensures knownFile == old(knownFile) && text == old(text) && BaseTitle() == old(BaseTitle())
    {
      v, written := DoIfNoUnsavedChanges(response, choice);
      exitStatus := if v == Proceed then Some(0) else None;
    }

    /** The undo action's refresh: the flag follows whether anything can be
        undone. */
    method RefreshUndoState(canUndo: bool)
      requires Valid()
      modifies this
      ensures Valid()
      ensures unsavedChanges == canUndo
      ensures title == Decorate(canUndo, old(BaseTitle()))
      ensures knownFile == old(knownFile) && text == old(text)
    {
      SetUnsavedChanges(canUndo);
    }

    /** An edit, the undo action or the redo action leaves the buffer
        holding `newText`, after which the undo state is refreshed with
        `canUndo`. */
    method BufferChanged(newText: string, canUndo: bool)
      requires Valid()
      modifies this
      ensures Valid()
      ensures text == newText && unsavedChanges == canUndo
      ensures title == Decorate(canUndo, old(BaseTitle()))
      ensures knownFile == old(knownFile)
    {
      text := newText;
      RefreshUndoState(canUndo);
    }
  }
}
