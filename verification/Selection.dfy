/**
 * The immutable selection value consumed and produced by the document layer
 * (`SelectionState`): anchor and focus each name a block and an offset in
 * that block.
 */
module Selection {

  datatype SelectionState = SelectionState(
    anchorKey: string,
    anchorOffset: int,
    focusKey: string,
    focusOffset: int,
    isBackward: bool,
    hasFocus: bool)

  /** `new SelectionState()`: the record defaults, which reference no block. */
  const EMPTY_SELECTION: SelectionState := SelectionState("", 0, "", 0, false, false)

  /** A selection whose anchor and focus are the same point. */
  predicate IsCollapsed(s: SelectionState) {
    s.anchorKey == s.focusKey && s.anchorOffset == s.focusOffset
  }

  /** `SelectionState.createEmpty(key)`: the caret at offset 0 of block `key`, without focus. */
  function CreateEmpty(key: string): (s: SelectionState)
    ensures IsCollapsed(s) && s.anchorKey == key && s.anchorOffset == 0
    ensures !s.isBackward && !s.hasFocus
  {
    SelectionState(key, 0, key, 0, false, false)
  }
}
