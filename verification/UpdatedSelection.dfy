/**
 * `getUpdatedSelectionState`: turns the rendering layer's view of a selection
 * (an offset key and a leaf-local offset for each of anchor and focus) into a
 * document selection with block-absolute offsets and a direction.
 */
module UpdatedSelection {
  import opened Wrappers
  import opened ImmutableSeq
  import opened Selection
  import opened Content

  /** `DraftOffsetKey.decode(offsetKey)`: the block, decorator segment and leaf an offset key names. */
  datatype OffsetPath = OffsetPath(blockKey: Key, decoratorKey: nat, leafKey: nat)

  /** A leaf of the rendering tree: the block-absolute offsets where its text run starts and ends. */
  datatype Leaf = Leaf(start: int, end: int)

  /** One decorator segment of a block's rendering tree. */
  datatype DecoratorSegment = DecoratorSegment(leaves: seq<Leaf>)

  /** What the resolver reads from the editor state. */
  datatype EditorState = EditorState(
    selection: SelectionState,
    currentContent: ContentState,
    treeMap: map<Key, seq<DecoratorSegment>>)

  /**
   * `editorState.getBlockTree(blockKey).getIn([decoratorKey, 'leaves', leafKey])`:
   * the leaf an offset path names, absent when the block has no tree or the
   * segment or leaf index is out of range.
   */
  function GetLeaf(editor: EditorState, path: OffsetPath): (r: Option<Leaf>)
    ensures r.Some? <==>
      && path.blockKey in editor.treeMap
      && path.decoratorKey < |editor.treeMap[path.blockKey]|
      && path.leafKey < |editor.treeMap[path.blockKey][path.decoratorKey].leaves|
    ensures r.Some? ==> r.value == editor.treeMap[path.blockKey][path.decoratorKey].leaves[path.leafKey]
  {
    if path.blockKey !in editor.treeMap then None
    else
      var tree := editor.treeMap[path.blockKey];
      if path.decoratorKey >= |tree| then None
      else
        var leaves := tree[path.decoratorKey].leaves;
        if path.leafKey >= |leaves| then None else Some(leaves[path.leafKey])
  }

  /** Both offset keys are present and name leaves of the rendering tree. */
  predicate Resolvable(editor: EditorState, anchorKey: Option<OffsetPath>, focusKey: Option<OffsetPath>) {
    && anchorKey.Some? && GetLeaf(editor, anchorKey.value).Some?
    && focusKey.Some? && GetLeaf(editor, focusKey.value).Some?
  }

  /** Two selections put anchor and focus at the same points. */
  predicate SamePoints(s: SelectionState, t: SelectionState) {
    && s.anchorKey == t.anchorKey && s.anchorOffset == t.anchorOffset
    && s.focusKey == t.focusKey && s.focusOffset == t.focusOffset
  }

  /**
   * The direction rule. In one block: within one leaf (equal start and end)
   * compare the leaf-local offsets, across leaves compare where the leaves
   * start. Across blocks: scan the block keys in document order to the first
   * that is either block; backward when that is the focus block.
   */
  function IsBackward(
    content: ContentState,
    anchorBlockKey: Key, anchorLeaf: Leaf, anchorOffset: int,
    focusBlockKey: Key, focusLeaf: Leaf, focusOffset: int): (backward: bool)
    ensures anchorBlockKey == focusBlockKey && anchorLeaf == focusLeaf ==> (backward <==> focusOffset < anchorOffset)
    ensures anchorBlockKey == focusBlockKey && anchorLeaf != focusLeaf ==> (backward <==> focusLeaf.start < anchorLeaf.start)
    ensures anchorBlockKey != focusBlockKey && backward ==> HasKey(content.blockMap, focusBlockKey)
  {
    if anchorBlockKey == focusBlockKey then
      if focusLeaf.start == anchorLeaf.start && focusLeaf.end == anchorLeaf.end then
        focusOffset < anchorOffset
      else
        focusLeaf.start < anchorLeaf.start
    else
      StartKey(content.blockMap, anchorBlockKey, focusBlockKey) == Some(focusBlockKey)
  }

  /** No block before position `i` has either key. */
  predicate NeitherBefore(bm: BlockMap, anchorBlockKey: Key, focusBlockKey: Key, i: int) {
    forall j :: 0 <= j < i && j < |bm| ==> bm[j].0 != anchorBlockKey && bm[j].0 != focusBlockKey
  }

  /**
   * `keySeq().skipUntil(v => v === anchorBlockKey || v === focusBlockKey).first()`:
   * whichever of the two keys comes first in document order, absent when
   * neither occurs.
   */
  function StartKey(bm: BlockMap, anchorBlockKey: Key, focusBlockKey: Key): (r: Option<Key>)
    ensures r.None? <==> NeitherBefore(bm, anchorBlockKey, focusBlockKey, |bm|)
    ensures r.Some? ==> r.value == anchorBlockKey || r.value == focusBlockKey
    ensures r.Some? ==> exists i :: 0 <= i < |bm| && bm[i].0 == r.value && NeitherBefore(bm, anchorBlockKey, focusBlockKey, i)
  {
    var ks := Keys(bm);
    var isEither := v => v == anchorBlockKey || v == focusBlockKey;
    var rest := SkipUntil(ks, isEither);
    var n := |ks| - |rest|;
    assert NeitherBefore(bm, anchorBlockKey, focusBlockKey, n) by {
      forall j | 0 <= j < n ensures bm[j].0 != anchorBlockKey && bm[j].0 != focusBlockKey {
        assert !isEither(ks[j]);
      }
    }
    assert rest != [] ==> ks[n] == rest[0] && isEither(rest[0]);
    First(rest)
  }

  /**
   * `getUpdatedSelectionState(editorState, anchorKey, anchorOffset, focusKey,
   * focusOffset)`. The offset keys arrive decoded (`None` for an empty or
   * absent key); `strict` is the production build, which skips the check for
   * absent keys.
   */
  function GetUpdatedSelectionState(
    editor: EditorState, strict: bool,
    anchorKey: Option<OffsetPath>, anchorOffset: int,
    focusKey: Option<OffsetPath>, focusOffset: int): (r: Result<SelectionState>)
    ensures !strict && (anchorKey.None? || focusKey.None?) ==> r == Success(editor.selection)
    ensures r.Failure? <==> (strict || (anchorKey.Some? && focusKey.Some?)) && !Resolvable(editor, anchorKey, focusKey)
    ensures r.Failure? ==> r.error == MissingLeaf
    ensures r.Success? ==> r.value.hasFocus == editor.selection.hasFocus
    ensures Resolvable(editor, anchorKey, focusKey) ==>
      var anchorLeaf, focusLeaf := GetLeaf(editor, anchorKey.value).value, GetLeaf(editor, focusKey.value).value;
      && r.Success?
      && r.value.anchorKey == anchorKey.value.blockKey
      && r.value.anchorOffset == anchorLeaf.start + anchorOffset
      && r.value.focusKey == focusKey.value.blockKey
      && r.value.focusOffset == focusLeaf.start + focusOffset
      && (SamePoints(r.value, editor.selection) ==> r.value == editor.selection)
      && (!SamePoints(r.value, editor.selection) ==>
            r.value.isBackward == IsBackward(editor.currentContent,
              anchorKey.value.blockKey, anchorLeaf, anchorOffset,
              focusKey.value.blockKey, focusLeaf, focusOffset))
  {
    var selection := editor.selection;
    if !strict && (anchorKey.None? || focusKey.None?) then Success(selection)
    else if !Resolvable(editor, anchorKey, focusKey) then Failure(MissingLeaf)
    else
      var anchorBlockKey, focusBlockKey := anchorKey.value.blockKey, focusKey.value.blockKey;
      var anchorLeaf := GetLeaf(editor, anchorKey.value).value;
      var focusLeaf := GetLeaf(editor, focusKey.value).value;
      var anchorBlockOffset := anchorLeaf.start + anchorOffset;
      var focusBlockOffset := focusLeaf.start + focusOffset;
      if && selection.anchorKey == anchorBlockKey && selection.anchorOffset == anchorBlockOffset
         && selection.focusKey == focusBlockKey && selection.focusOffset == focusBlockOffset
      then
        Success(selection)
      else
        var isBackward := IsBackward(editor.currentContent,
          anchorBlockKey, anchorLeaf, anchorOffset, focusBlockKey, focusLeaf, focusOffset);
        Success(selection.(
          anchorKey := anchorBlockKey, anchorOffset := anchorBlockOffset,
          focusKey := focusBlockKey, focusOffset := focusBlockOffset,
          isBackward := isBackward))
  }

  /** The focus block occurs at some position with no anchor-block entry before it. */
  predicate FocusFirst(bm: BlockMap, anchorBlockKey: Key, focusBlockKey: Key) {
    exists i :: 0 <= i < |bm| && bm[i].0 == focusBlockKey && forall j :: 0 <= j < i ==> bm[j].0 != anchorBlockKey
  }

  /** If the focus block comes first, the scan for either key stops at the focus block. */
  lemma StartKeyOfFocusFirst(bm: BlockMap, anchorBlockKey: Key, focusBlockKey: Key)
    requires anchorBlockKey != focusBlockKey && FocusFirst(bm, anchorBlockKey, focusBlockKey)
    ensures StartKey(bm, anchorBlockKey, focusBlockKey) == Some(focusBlockKey)
  {
    var start := StartKey(bm, anchorBlockKey, focusBlockKey);
    var i :| 0 <= i < |bm| && bm[i].0 == focusBlockKey && forall j :: 0 <= j < i ==> bm[j].0 != anchorBlockKey;
    assert !NeitherBefore(bm, anchorBlockKey, focusBlockKey, |bm|) by {
      assert bm[i].0 == focusBlockKey;
    }
    var n :| 0 <= n < |bm| && bm[n].0 == start.value && NeitherBefore(bm, anchorBlockKey, focusBlockKey, n);
    assert n <= i;
  }

  /** If the scan for either key stops at the focus block, the focus block comes first. */
  lemma FocusFirstOfStartKey(bm: BlockMap, anchorBlockKey: Key, focusBlockKey: Key)
    requires StartKey(bm, anchorBlockKey, focusBlockKey) == Some(focusBlockKey)
    ensures FocusFirst(bm, anchorBlockKey, focusBlockKey)
  {
    var n :| 0 <= n < |bm| && bm[n].0 == focusBlockKey && NeitherBefore(bm, anchorBlockKey, focusBlockKey, n);
    assert forall j :: 0 <= j < n ==> bm[j].0 != anchorBlockKey;
  }

  /**
   * Across blocks, the selection is backward exactly when the focus block
   * occurs in the document with no occurrence of the anchor block before it
   * (so a focus block missing from the map never makes it backward).
   */
  lemma CrossBlockBackwardIff(
    content: ContentState,
    anchorBlockKey: Key, anchorLeaf: Leaf, anchorOffset: int,
    focusBlockKey: Key, focusLeaf: Leaf, focusOffset: int)
    requires anchorBlockKey != focusBlockKey
    ensures IsBackward(content, anchorBlockKey, anchorLeaf, anchorOffset, focusBlockKey, focusLeaf, focusOffset)
      <==> exists i :: 0 <= i < |content.blockMap| && content.blockMap[i].0 == focusBlockKey
             && forall j :: 0 <= j < i ==> content.blockMap[j].0 != anchorBlockKey
  {
    var bm := content.blockMap;
    if FocusFirst(bm, anchorBlockKey, focusBlockKey) {
      StartKeyOfFocusFirst(bm, anchorBlockKey, focusBlockKey);
    } else if StartKey(bm, anchorBlockKey, focusBlockKey) == Some(focusBlockKey) {
      FocusFirstOfStartKey(bm, anchorBlockKey, focusBlockKey);
    }
  }

  /**
   * Across blocks that are both in the document, the selection is backward
   * exactly when the focus block comes first.
   */
  lemma CrossBlockDirection(
    content: ContentState,
    anchorBlockKey: Key, anchorLeaf: Leaf, anchorOffset: int,
    focusBlockKey: Key, focusLeaf: Leaf, focusOffset: int,
    anchorIndex: nat, focusIndex: nat)
    requires anchorIndex < |content.blockMap| && content.blockMap[anchorIndex].0 == anchorBlockKey
    requires focusIndex < |content.blockMap| && content.blockMap[focusIndex].0 == focusBlockKey
    requires anchorBlockKey != focusBlockKey
    ensures IsBackward(content, anchorBlockKey, anchorLeaf, anchorOffset, focusBlockKey, focusLeaf, focusOffset)
      <==> focusIndex < anchorIndex
  {
    CrossBlockBackwardIff(content, anchorBlockKey, anchorLeaf, anchorOffset, focusBlockKey, focusLeaf, focusOffset);
  }

  /**
   * Document order on caret points: earlier block first, and within one
   * block the smaller offset first.
   */
  predicate PointBefore(bm: BlockMap, key1: Key, offset1: int, key2: Key, offset2: int) {
    if key1 == key2 then offset1 < offset2
    else exists i, j :: 0 <= i < j < |bm| && bm[i].0 == key1 && bm[j].0 == key2
  }

  /** A leaf-local offset that lies inside its leaf. */
  predicate WithinLeaf(leaf: Leaf, offset: int) {
    0 <= offset <= leaf.end - leaf.start
  }

  /** Two different leaves of one block: both hold text and their ranges do not overlap. */
  predicate SeparateLeaves(a: Leaf, b: Leaf) {
    && a.start < a.end && b.start < b.end
    && (a.end <= b.start || b.end <= a.start)
  }

  /**
   * On a consistent rendering tree (offsets inside their leaves, distinct
   * leaves of a block apart from each other, both blocks in the document)
   * the direction rule agrees with document order: a focus strictly before
   * the anchor makes the selection backward, and a backward selection never
   * has its anchor strictly before its focus.
   */
  lemma DirectionFollowsDocumentOrder(
    content: ContentState,
    anchorBlockKey: Key, anchorLeaf: Leaf, anchorOffset: int,
    focusBlockKey: Key, focusLeaf: Leaf, focusOffset: int)
    requires HasKey(content.blockMap, anchorBlockKey) && HasKey(content.blockMap, focusBlockKey)
    requires WithinLeaf(anchorLeaf, anchorOffset) && WithinLeaf(focusLeaf, focusOffset)
    requires anchorBlockKey == focusBlockKey && anchorLeaf != focusLeaf ==> SeparateLeaves(anchorLeaf, focusLeaf)
    ensures PointBefore(content.blockMap, focusBlockKey, focusLeaf.start + focusOffset, anchorBlockKey, anchorLeaf.start + anchorOffset)
      ==> IsBackward(content, anchorBlockKey, anchorLeaf, anchorOffset, focusBlockKey, focusLeaf, focusOffset)
    ensures IsBackward(content, anchorBlockKey, anchorLeaf, anchorOffset, focusBlockKey, focusLeaf, focusOffset)
      ==> !PointBefore(content.blockMap, anchorBlockKey, anchorLeaf.start + anchorOffset, focusBlockKey, focusLeaf.start + focusOffset)
  {
    if anchorBlockKey != focusBlockKey {
      var bm := content.blockMap;
      var ai :| 0 <= ai < |bm| && bm[ai].0 == anchorBlockKey;
      var fi :| 0 <= fi < |bm| && bm[fi].0 == focusBlockKey;
      CrossBlockFollowsDocumentOrder(content, anchorBlockKey, anchorLeaf, anchorOffset, focusBlockKey, focusLeaf, focusOffset, ai, fi);
    }
  }

  /** Across blocks, document order on points is the order of the blocks' positions. */
  lemma PointBeforeAcrossBlocks(bm: BlockMap, key1: Key, offset1: int, key2: Key, offset2: int, index1: nat, index2: nat)
    requires index1 < |bm| && bm[index1].0 == key1
    requires index2 < |bm| && bm[index2].0 == key2
    requires key1 != key2
    ensures PointBefore(bm, key1, offset1, key2, offset2) <==> index1 < index2
  {
    if PointBefore(bm, key1, offset1, key2, offset2) {
      var i, j :| 0 <= i < j < |bm| && bm[i].0 == key1 && bm[j].0 == key2;
      assert i == index1 && j == index2;
    }
  }

  /** The document-order agreement for anchor and focus in different blocks. */
  lemma CrossBlockFollowsDocumentOrder(
    content: ContentState,
    anchorBlockKey: Key, anchorLeaf: Leaf, anchorOffset: int,
    focusBlockKey: Key, focusLeaf: Leaf, focusOffset: int,
    anchorIndex: nat, focusIndex: nat)
    requires anchorIndex < |content.blockMap| && content.blockMap[anchorIndex].0 == anchorBlockKey
    requires focusIndex < |content.blockMap| && content.blockMap[focusIndex].0 == focusBlockKey
    requires anchorBlockKey != focusBlockKey
    ensures PointBefore(content.blockMap, focusBlockKey, focusLeaf.start + focusOffset, anchorBlockKey, anchorLeaf.start + anchorOffset)
      ==> IsBackward(content, anchorBlockKey, anchorLeaf, anchorOffset, focusBlockKey, focusLeaf, focusOffset)
    ensures IsBackward(content, anchorBlockKey, anchorLeaf, anchorOffset, focusBlockKey, focusLeaf, focusOffset)
      ==> !PointBefore(content.blockMap, anchorBlockKey, anchorLeaf.start + anchorOffset, focusBlockKey, focusLeaf.start + focusOffset)
  {
    var bm := content.blockMap;
    CrossBlockDirection(content, anchorBlockKey, anchorLeaf, anchorOffset, focusBlockKey, focusLeaf, focusOffset, anchorIndex, focusIndex);
    PointBeforeAcrossBlocks(bm, focusBlockKey, focusLeaf.start + focusOffset, anchorBlockKey, anchorLeaf.start + anchorOffset, focusIndex, anchorIndex);
    PointBeforeAcrossBlocks(bm, anchorBlockKey, anchorLeaf.start + anchorOffset, focusBlockKey, focusLeaf.start + focusOffset, anchorIndex, focusIndex);
  }

  /**
   * Anchor and focus in the same leaf (equal start and end): a new selection
   * is backward exactly when the focus's leaf-local offset is the smaller.
   */
  lemma SameLeafDirection(editor: EditorState, strict: bool, anchorPath: OffsetPath, anchorOffset: int, focusPath: OffsetPath, focusOffset: int)
    requires Resolvable(editor, Some(anchorPath), Some(focusPath))
    requires anchorPath.blockKey == focusPath.blockKey
    requires GetLeaf(editor, anchorPath) == GetLeaf(editor, focusPath)
    ensures var r := GetUpdatedSelectionState(editor, strict, Some(anchorPath), anchorOffset, Some(focusPath), focusOffset);
      r.Success? && (!SamePoints(r.value, editor.selection) ==> (r.value.isBackward <==> focusOffset < anchorOffset))
  {
  }

  /**
   * Anchor and focus in different leaves of one block: a new selection is
   * backward exactly when the focus leaf starts before the anchor leaf.
   */
  lemma SameBlockDirection(editor: EditorState, strict: bool, anchorPath: OffsetPath, anchorOffset: int, focusPath: OffsetPath, focusOffset: int)
    requires Resolvable(editor, Some(anchorPath), Some(focusPath))
    requires anchorPath.blockKey == focusPath.blockKey
    requires GetLeaf(editor, anchorPath) != GetLeaf(editor, focusPath)
    ensures var r := GetUpdatedSelectionState(editor, strict, Some(anchorPath), anchorOffset, Some(focusPath), focusOffset);
      r.Success? && (!SamePoints(r.value, editor.selection) ==>
        (r.value.isBackward <==> GetLeaf(editor, focusPath).value.start < GetLeaf(editor, anchorPath).value.start))
  {
  }

  /**
   * Anchor and focus in different blocks of the document: a new selection is
   * backward exactly when the focus block comes first in the block map.
   */
  lemma DifferentBlockDirection(
    editor: EditorState, strict: bool, anchorPath: OffsetPath, anchorOffset: int, focusPath: OffsetPath, focusOffset: int,
    anchorIndex: nat, focusIndex: nat)
    requires Resolvable(editor, Some(anchorPath), Some(focusPath))
    requires anchorPath.blockKey != focusPath.blockKey
    requires anchorIndex < |editor.currentContent.blockMap| && editor.currentContent.blockMap[anchorIndex].0 == anchorPath.blockKey
    requires focusIndex < |editor.currentContent.blockMap| && editor.currentContent.blockMap[focusIndex].0 == focusPath.blockKey
    ensures var r := GetUpdatedSelectionState(editor, strict, Some(anchorPath), anchorOffset, Some(focusPath), focusOffset);
      r.Success? && (!SamePoints(r.value, editor.selection) ==> (r.value.isBackward <==> focusIndex < anchorIndex))
  {
    CrossBlockDirection(editor.currentContent,
      anchorPath.blockKey, GetLeaf(editor, anchorPath).value, anchorOffset,
      focusPath.blockKey, GetLeaf(editor, focusPath).value, focusOffset,
      anchorIndex, focusIndex);
  }

  /**
   * Resolving the same offset keys again, against the selection the first
   * resolution produced, hands that selection back unchanged.
   */
  lemma ResolvingAgainChangesNothing(editor: EditorState, strict: bool, anchorPath: OffsetPath, anchorOffset: int, focusPath: OffsetPath, focusOffset: int)
    requires Resolvable(editor, Some(anchorPath), Some(focusPath))
    ensures var r := GetUpdatedSelectionState(editor, strict, Some(anchorPath), anchorOffset, Some(focusPath), focusOffset);
      && r.Success?
      && GetUpdatedSelectionState(editor.(selection := r.value), strict, Some(anchorPath), anchorOffset, Some(focusPath), focusOffset) == r
  {
  }

  /** Worked cases of the direction rule, one per branch. */
  lemma DirectionExamples()
    ensures var blocks := [("B1", UnstyledBlock("B1", "")), ("B2", UnstyledBlock("B2", "")), ("B3", UnstyledBlock("B3", ""))];
      var content := ContentState(blocks, EMPTY_SELECTION, EMPTY_SELECTION);
      && IsBackward(content, "B2", Leaf(5, 10), 3, "B2", Leaf(5, 10), 1)
      && IsBackward(content, "B2", Leaf(10, 15), 0, "B2", Leaf(0, 5), 4)
      && !IsBackward(content, "B2", Leaf(0, 5), 4, "B2", Leaf(10, 15), 0)
      && IsBackward(content, "B3", Leaf(0, 0), 0, "B1", Leaf(0, 0), 0)
      && !IsBackward(content, "B1", Leaf(0, 0), 0, "B3", Leaf(0, 0), 0)
  {
  }
}
