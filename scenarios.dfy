/** Sessions with the editor, each proved from the operations' contracts
    alone: what the unsaved-changes guard lets through, and what a file
    looks like once opened. */
module Scenarios {
  import opened TextLines
  import opened Editor

  /** Typing "hello", then Close, then Discard at the prompt: the program
      ends and nothing is written. */
  method DiscardClosesWithoutWriting() returns (exitStatus: Option<int>, written: Option<Written>)
    ensures exitStatus == Some(0) && written == None
  {
    var pad := new TinyPad();
    pad.BufferChanged("hello", true);
    var v;
    exitStatus, v, written := pad.Quit(DiscardOption, SaveApproved(File("notes.txt"), true));
  }

  /** Typing "hello", then Exit, then Save at the prompt to a file that
      cannot be written: the program keeps running with the changes still
      unsaved and the title still tagged. */
  method FailedSaveKeepsEditorOpen() returns (exitStatus: Option<int>, dirty: bool, title: string)
    ensures exitStatus == None && dirty && title == "* TinyPad"
  {
    var pad := new TinyPad();
    pad.BufferChanged("hello", true);
    var v, written;
    exitStatus, v, written := pad.Quit(SaveOption, SaveApproved(File("/read-only"), false));
    dirty := pad.unsavedChanges;
    title := pad.title;
  }

  /** Without unsaved changes, Close never consults the prompt: even an answer
      the prompt could never give lets the program end. */
  method CleanCloseNeedsNoPrompt(response: int) returns (exitStatus: Option<int>)
    ensures exitStatus == Some(0)
  {
    var pad := new TinyPad();
    var v, written;
    exitStatus, v, written := pad.Quit(response, SaveCancelled);
  }

  /** Saving at the prompt and then opening a file: the old text is written
      to the chosen file, and the buffer read back line by line gives exactly
      the lines of the opened file. */
  method SaveThenOpen(typed: string, path: string, lines: seq<string>)
    returns (written: Option<Written>, title: string, reread: seq<string>, dirty: bool)
    requires forall j :: 0 <= j < |lines| ==> NoNewline(lines[j])
    ensures written == Some(Written(File("draft.txt"), typed))
    ensures title == "TinyPad - " + path && reread == lines && !dirty
  {
    var pad := new TinyPad();
    pad.BufferChanged(typed, true);
    var v;
    v, written := pad.OpenAction(SaveOption, SaveApproved(File("draft.txt"), true),
                                 Some(File(path)), ReadAll(lines));
    title := pad.title;
    SplitJoined(lines);
    reread := SplitLines(pad.text);
    dirty := pad.unsavedChanges;
  }
}
