/** src/hooks/useKeyboardShortcuts.ts: the keydown handler. An event is
    dispatched to at most one of the three callbacks; registering the
    listener is the only effect and is left out. */
module Keyboard {

  /** The properties of the event's target the handler reads: its tag name,
      whether it is content-editable, whether it lies inside a Quill editor
      (`closest('.ql-editor')` finds an element). */
  datatype Target = Target(tagName: string, isContentEditable: bool, insideQuillEditor: bool)

  datatype KeyEvent = KeyEvent(key: string, ctrlKey: bool, metaKey: bool, target: Target)

  /** The callback a keydown calls; `NoAction` is none (and no preventDefault). */
  datatype Action = SaveAction | UndoAction | RedoAction | NoAction

  /** Where the browser's own editing keys are left alone. */
  predicate IsInputField(t: Target) {
    t.tagName == "INPUT" || t.tagName == "TEXTAREA" || t.isContentEditable || t.insideQuillEditor
  }

  /** handleKeyDown: with Ctrl or Cmd held, 's' saves everywhere, 'z' undoes
      and 'y' redoes outside input fields; anything else does nothing. */
  function HandleKeyDown(e: KeyEvent): (a: Action)
    ensures a == SaveAction <==> (e.ctrlKey || e.metaKey) && e.key == "s"
    ensures a == UndoAction <==> (e.ctrlKey || e.metaKey) && e.key == "z" && !IsInputField(e.target)
    ensures a == RedoAction <==> (e.ctrlKey || e.metaKey) && e.key == "y" && !IsInputField(e.target)
  {
    if e.ctrlKey || e.metaKey then
      if e.key == "s" then SaveAction
      else if e.key == "z" && !IsInputField(e.target) then UndoAction
      else if e.key == "y" && !IsInputField(e.target) then RedoAction
      else NoAction
    else NoAction
  }

  /** Without a modifier nothing fires; a key other than s, z and y never
      fires; inside an input field only saving does. */
  lemma QuietCases(e: KeyEvent)
    ensures !(e.ctrlKey || e.metaKey) ==> HandleKeyDown(e) == NoAction
    ensures e.key != "s" && e.key != "z" && e.key != "y" ==> HandleKeyDown(e) == NoAction
    ensures IsInputField(e.target) ==> HandleKeyDown(e) in {SaveAction, NoAction}
  {
  }

  /** The shortcut does not depend on which modifier is held: Ctrl and Cmd
      are the same. */
  lemma CtrlOrCmd(e: KeyEvent)
    requires e.ctrlKey || e.metaKey
    ensures HandleKeyDown(e) == HandleKeyDown(e.(ctrlKey := true, metaKey := false))
    ensures HandleKeyDown(e) == HandleKeyDown(e.(ctrlKey := false, metaKey := true))
  {
  }
}
