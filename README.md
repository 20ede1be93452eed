# TinyPad document state, in Dafny

TinyPad is a small Swing text editor. Almost all of `TinyPad.java` builds
windows, menus and toolbars. Inside it sits a small state machine that this
project models and verifies. Its state is four fields of the `TinyPad` frame:

- the unsaved-changes flag;
- the window title, which carries a `"* "` tag while the flag is set;
- the file the buffer is bound to (`knownFile`, possibly none);
- the text of the buffer.

The operations on that state are `setUnsavedChanges`, the guard
`doIfNoUnsavedChanges` that runs New, Open, Close and Exit, `open`, the save
listener, the New menu action, and the undo action's refresh of the flag from
`canUndo`.

Files:

- `lines.dfy`, module `TextLines`: the buffer that `open` builds from the
  lines it reads (`Joined`), and reading that buffer back as lines
  (`SplitLines`), with the round trip between them.
- `editor.dfy`, module `Editor`: the class `TinyPad` with the four fields,
  its invariant `Valid()`, the operations as methods, and the guard's decision
  `GuardVerdict` as a function.
- `scenarios.dfy`, module `Scenarios`: whole sessions (discard then close,
  a failed save then exit, close with no changes, save then open), proved
  from the contracts alone.

The invariant is stronger than "a set flag means the title starts with
`"* "`". While the flag is set, the title is `"* "` followed by an application
title. While it is clear, the title is an application title. An application
title is one that starts with `TinyPad`. So the flag is set exactly when the
title carries the tag. The `substring(2)` that removes the tag is then always
in range, and Dafny checks that index in `SetUnsavedChanges`. The code edits
the title incrementally, adding and chopping the tag. `SetUnsavedChanges` is
proved to give the same title as the stateless `Decorate(flag, BaseTitle())`.

The dialogs, the file choosers and the file system are inputs:

- the unsaved-changes dialog's answer is an `int`. Save is 0 and Discard is 1.
  These are the indices of the options. The option pane's `CANCEL_OPTION` is 2
  and its `CLOSED_OPTION` is -1;
- the save chooser and the write are a `SaveChoice`: either not approved, or
  a chosen file with whether it could be opened for writing;
- the open chooser gives an `Option<File>`;
- reading gives a `FileRead`. The file may fail to open. It may fail part way
  through, after some lines. Or all of its lines may be read.

A guarded action that runs is shown only as the verdict `Proceed`. When the
verdict is not `Proceed`, reported as `Stop` or `Unexpected`, the action does
not run. For Close and Exit, `Proceed` also stands for exit status 0.

Some of what the code does is less than an editor usually does. The model
follows the code:

- Saving never rebinds `knownFile` and never changes the untagged title. It
  only drops the `"* "` tag as it clears the flag. This holds even when the
  buffer is saved under a new name.
- Saving clears the flag as soon as the chosen file is opened for writing,
  before the text is flushed and the file closed. The writer swallows any
  later write error, such as a full disk. Such a failure is not reported,
  and the document still shows as saved. Only a file that cannot be opened
  leaves the flag set.
- New unbinds the file but keeps the old untagged title, such as
  `TinyPad - <old path>`.
- When reading fails part way through, the buffer has already been cleared.
  It then holds the lines read before the failure. `open`'s own code leaves
  the flag, the bound file and the title as they were. The edit listener,
  which this model leaves out, then sets the flag from `canUndo` (see
  "## Left out").

## Model

| member | source | states |
|---|---|---|
| `TextLines.Joined` | src/main/java/com/darwinsys/tinypad/TinyPad.java:72-78 | the built buffer is empty exactly when no line was read, is at least one character per line long, and ends in "\n" when any line was read |
| `TextLines.JoinedSnoc` | src/main/java/com/darwinsys/tinypad/TinyPad.java:75-78 | appending one line and then "\n" to the buffer of the first lines gives the buffer of all of them, which is the step of the reading loop |
| `TextLines.SplitJoined` | src/main/java/com/darwinsys/tinypad/TinyPad.java:70-78 | for lines without "\n", as a line reader returns them, reading the built buffer back gives exactly the lines that were read |
| `Editor.Decorate` | src/main/java/com/darwinsys/tinypad/TinyPad.java:259-270 | with the flag clear the derived title is the untagged title itself; with it set, chopping two characters off the derived title gives back the untagged title; for an application title, the derived title carries the tag exactly when the flag is set |
| `Editor.GuardVerdict` | src/main/java/com/darwinsys/tinypad/TinyPad.java:280-305 | the guarded action runs exactly when there are no unsaved changes, or the answer is Discard, or the answer is Save and the save succeeds; the result is an error exactly when there are unsaved changes and the answer is none of Save, Discard, Cancel or Closed, and the error carries that answer |
| `Editor.TinyPad.Valid` | src/main/java/com/darwinsys/tinypad/TinyPad.java:264-267 | under the invariant, the flag is set exactly when the title starts with "* " |
| `Editor.TinyPad.BaseTitle` | src/main/java/com/darwinsys/tinypad/TinyPad.java:264-269 | the untagged title is an application title, and tagging it by the flag gives the current title |
| `Editor.TinyPad.constructor` | src/main/java/com/darwinsys/tinypad/TinyPad.java:90-92 | a new editor has no unsaved changes, no bound file, an empty buffer and the title "TinyPad", and it satisfies the invariant |
| `Editor.TinyPad.SetUnsavedChanges` | src/main/java/com/darwinsys/tinypad/TinyPad.java:259-270 | afterwards the flag is `b`; setting the value it already has changes nothing; setting it adds "* " in front of the old title; clearing it gives a title that "* " turns back into the old one; the untagged title, the bound file and the buffer stay the same; the invariant is kept |
| `Editor.TinyPad.Open` | src/main/java/com/darwinsys/tinypad/TinyPad.java:69-85 | if the file does not open, nothing changes; otherwise the buffer is every line read, each followed by "\n"; after a full read the flag is clear, the file is bound and the title is "TinyPad - " + path; after a read error the flag, the bound file and the title are the old ones; the invariant is kept |
| `Editor.TinyPad.Save` | src/main/java/com/darwinsys/tinypad/TinyPad.java:326-344 | the buffer is handed, verbatim, to a writer for the chosen file exactly when the chooser was approved and the chosen file could be opened, and then the flag is clear; otherwise nothing changes; the bound file and the buffer never change |
| `Editor.TinyPad.DoIfNoUnsavedChanges` | src/main/java/com/darwinsys/tinypad/TinyPad.java:280-305 | the verdict is `GuardVerdict` of the flag on entry; with no unsaved changes it proceeds and changes nothing; on Discard it proceeds and changes nothing; on Cancel or Closed it stops and changes nothing; on Save it proceeds exactly when the flag is clear after the save; any other answer is an error that changes nothing; a stop changes nothing; after a proceed the flag is still set only on Discard; the buffer is handed to a writer only when the answer is Save and the chosen file opens |
| `Editor.TinyPad.New` | src/main/java/com/darwinsys/tinypad/TinyPad.java:114-120 | once the guard proceeds, the buffer is empty, no file is bound, the flag is clear and the title is the old untagged one; otherwise nothing changes |
| `Editor.TinyPad.OpenAction` | src/main/java/com/darwinsys/tinypad/TinyPad.java:310-321 | the guard decides first; after a proceed with an approved chooser the state is that of `Open` on the chosen file; without a chosen file only the guard's changes remain; a stop changes nothing |
| `Editor.TinyPad.Quit` | src/main/java/com/darwinsys/tinypad/TinyPad.java:133-142 | the program ends with status 0 exactly when the guard proceeds; the bound file, the buffer and the untagged title are unchanged; after a proceed the flag is still set only on Discard; a stop changes nothing |
| `Editor.TinyPad.RefreshUndoState` | src/main/java/com/darwinsys/tinypad/TinyPad.java:228-233 | afterwards the flag equals `canUndo` and the title is the untagged title tagged by it; the bound file and the buffer are unchanged |
| `Editor.TinyPad.BufferChanged` | src/main/java/com/darwinsys/tinypad/TinyPad.java:170-175 | after an edit, and likewise after the undo action (lines 216-225) or the redo action (lines 239-248), the buffer holds the new text, the flag equals `canUndo` and the title shows it |
| `Scenarios.DiscardClosesWithoutWriting` | src/main/java/com/darwinsys/tinypad/TinyPad.java:293-304 | with unsaved changes, Close followed by Discard ends the program with status 0 and writes nothing |
| `Scenarios.FailedSaveKeepsEditorOpen` | src/main/java/com/darwinsys/tinypad/TinyPad.java:287-291 | with unsaved changes, Exit followed by a Save whose chosen file cannot be opened does not end the program, and the changes stay unsaved with the title "* TinyPad" |
| `Scenarios.CleanCloseNeedsNoPrompt` | src/main/java/com/darwinsys/tinypad/TinyPad.java:281-304 | without unsaved changes, Close ends the program whatever the prompt would have answered |
| `Scenarios.SaveThenOpen` | src/main/java/com/darwinsys/tinypad/TinyPad.java:310-321 | Save at the prompt hands the typed text to a writer for the chosen file; the file opened afterwards fills the buffer so that reading it back gives its lines; the title names its path and the flag is clear |

## Left out

- Building the frame, menus, toolbar, icons, mnemonics and accelerators, and `main`: this is presentation with no state of the model. The file named on the command line goes through the same `Open`.
- `setVisible`, `dispose` and `System.exit` in the Close, Exit and window-closing actions: these are shown only as exit status 0 in `Quit`.
- `JOptionPane` and `JFileChooser`: these are foreign calls. Their answers are parameters. The save chooser being preset to `knownFile` (lines 327-329) only changes what the user is offered, which is the `SaveChoice` input.
- Reading and writing files: a read is a `FileRead` and a write is whether the chosen file could be opened (`SaveChoice.writable`). `readLine` ending lines at "\r" as well as "\n" belongs to the reader. `SplitLines` splits at "\n" only, the terminator the buffer uses.
- A failure while closing the reader after every line was read: the state has then already changed as after a full read. The model treats it as a full read.
- The undo manager: its history, edit records, limits and presentation names belong to a library that is not part of this model. `canUndo` and the text an edit, undo or redo produces are parameters. Enabling the undo and redo actions and naming them is presentation.
- The edit listener firing while `open` clears and appends to the text area. In the program the listener runs `setUnsavedChanges(canUndo)` after each of those changes. After a full read, `open` then clears the flag itself, so the end state is the one the model gives. After a read that fails part way through, nothing clears it again. Once any text changed, the real program then shows the flag set and the `"* "` tag in the title, but `Open` leaves the flag and the title as they were.
- The error and read-failure message dialogs: these are presentation.
