# Draft document layer: ContentState and selection resolution

A Dafny model of two pieces of the document layer of a rich-text editor.

- **`ContentState`** is an immutable document. It holds an insertion-ordered block map (block key → block with text) and the selections before and after the last change. The model covers the neighbour lookups by key, first and last block, plain-text export, `hasText`, and construction from a block array or from text.
- **`getUpdatedSelectionState`** turns the rendering layer's selection into a document selection. The rendering layer gives, for anchor and focus, an offset key naming (block, decorator segment, leaf) and an offset local to that leaf. The result has block-absolute offsets and a direction (`isBackward`).

Both source files are pure, so the model is datatypes, functions and lemmas:

| module | file | models |
|---|---|---|
| `Wrappers` | Wrappers.dfy | `undefined` results (`Option`) and the fatal `invariant` failures (`Result`, `Error`) |
| `ImmutableSeq` | ImmutableSeq.dfy | the Immutable.js chains `first`, `skip`, `skipUntil`, `reverse`, `join` that the accessors are built from |
| `TextSplit` | TextSplit.dfy | `String.prototype.split` with the default `/\r\n?|\n/g` pattern or with a literal separator |
| `Selection` | Selection.dfy | the `SelectionState` value, its default record and `createEmpty` |
| `Content` | Content.dfy | lib/ContentState.js |
| `UpdatedSelection` | UpdatedSelection.dfy | lib/getUpdatedSelectionState.js |

The ordered block map is `BlockMap`: a sequence of `(key, block)` entries whose keys are pairwise distinct, in document order. The resolver reads the editor state through `EditorState`, which holds:

- the current selection;
- the current content;
- the rendering trees as a partial map from block key to decorator segments, each segment being a list of leaves `{start, end}`.

Offset keys arrive already decoded, as `Option<OffsetPath>`; `None` stands for an empty or absent offset key. The production/development split in the source becomes an explicit `strict` flag. `strict` is the production build, which does not check for absent keys.

## Model

| member | source | states |
|---|---|---|
| `Content.Lookup` | lib/ContentState.js:81 | `blockMap.get(key)` on the ordered entries: absent exactly when no entry has the key; otherwise a block stored under that key |
| `Content.GetBlockForKey` | lib/ContentState.js:80-82 | absent exactly when no entry has the key; otherwise the block stored under it |
| `Content.GetKeyAfter` | lib/ContentState.js:90-94 | present exactly when the key occurs at a position other than the last; then it is the key at the next position |
| `Content.GetKeyBefore` | lib/ContentState.js:84-88 | present exactly when the key occurs at a position other than the first; then it is the key at the previous position |
| `Content.GetBlockAfter` | lib/ContentState.js:96-100 | present exactly when the key occurs and is not last; then it is the block at the next position |
| `Content.GetBlockBefore` | lib/ContentState.js:102-106 | present exactly when the key occurs and is not first; then it is the block at the previous position |
| `Content.GetBlocksAsArray` | lib/ContentState.js:108-110 | one block per entry, in document order |
| `Content.GetFirstBlock` | lib/ContentState.js:112-116 | fails with `BlockMapEmpty` exactly when the map is empty; otherwise the first entry's block |
| `Content.GetLastBlock` | lib/ContentState.js:118-122 | fails with `BlockMapEmpty` exactly when the map is empty; otherwise the last entry's block |
| `Content.GetPlainText` | lib/ContentState.js:124-128 | empty for an empty map; the sole block's text for a one-block map; for more blocks the split-back lemmas `PlainTextSplitsIntoBlockTexts` and `PlainTextSplitsOnDelimiter` pin the join |
| `Content.PlainTextDelimiter` | lib/ContentState.js:127 | an absent or empty delimiter becomes "\n"; any other delimiter is used as given; the result is never empty |
| `Content.PlainTextSplitsIntoBlockTexts` | lib/ContentState.js:124-128 | with the default delimiter, the plain text of blocks without line breaks splits back into exactly the block texts |
| `Content.PlainTextSplitsOnDelimiter` | lib/ContentState.js:124-128 | with a caller-given non-empty delimiter whose first character occurs in no block text, the plain text of any non-empty document splits back on that delimiter into exactly the block texts, in document order |
| `Content.HasText` | lib/ContentState.js:135-137 | fails exactly when the map is empty (through `getFirstBlock`); otherwise false iff there is exactly one block and its text is empty |
| `Content.TheBlocks` | lib/ContentState.js:172 | a bare block list is taken as it is; a raw-content object gives its `contentBlocks` |
| `Content.BlockMapFromArray` | lib/ContentState.js:173 | for blocks with distinct keys: one entry per block, in the given order, each stored under its own key |
| `Content.CreateFromBlockArray` | lib/ContentState.js:168-181 | keeps the blocks in order, each stored under its own key; selection before = selection after; the empty marker for no blocks, otherwise a collapsed, forward caret without focus at offset 0 of the first block |
| `Content.UnstyledBlock` | lib/ContentState.js:189-194 | an "unstyled" block with the given key and text and one empty metadata entry per character |
| `Content.CreateFromText` | lib/ContentState.js:183-197 | one block per split piece, in order, each exactly the "unstyled" block with a fresh key, the sanitised piece as text and one empty metadata entry per character; both selections at the start of the first block, or the default record when the split gives no pieces |
| `Content.KeyAfterOfKeyBefore` | lib/ContentState.js:84-94 | for a present key that is not first, stepping back and then forward returns to it |
| `Content.KeyBeforeOfKeyAfter` | lib/ContentState.js:84-94 | for a present key that is not last, stepping forward and then back returns to it |
| `Content.BlockAfterIsBlockOfKeyAfter` | lib/ContentState.js:90-100 | `getBlockAfter(k)` is the block stored under `getKeyAfter(k)`, and absent when that key is |
| `Content.BlockBeforeIsBlockOfKeyBefore` | lib/ContentState.js:84-106 | `getBlockBefore(k)` is the block stored under `getKeyBefore(k)`, and absent when that key is |
| `Content.PlainTextOfCreateFromText` | lib/ContentState.js:183-197 | `createFromText(s).getPlainText() == s` when `s` has no "\r" and sanitising changes no line |
| `Content.PlainTextOfCreateFromTextWithSeparator` | lib/ContentState.js:183-197 | `createFromText(s, d).getPlainText(d) == s` for a non-empty literal separator `d` when sanitising changes no piece |
| `Content.EmptyTextHasNoText` | lib/ContentState.js:183-197 | the document made from the empty text is one empty block, so `hasText()` is false |
| `TextSplit.SplitLines` | lib/ContentState.js:184-186 | the default split: at least one piece, and no piece holds a "\n" or "\r" |
| `TextSplit.SplitOn` | lib/ContentState.js:186 | a split on a non-empty literal: at least one piece, the first piece is a prefix of the text (followed by the separator when more pieces follow), the separator occurs in no piece, and no occurrence of it starts inside a piece other than the last (each cut is at the leftmost remaining occurrence) |
| `TextSplit.SplitOnUnique` | lib/ContentState.js:186 | any cutting of a text into `d`-joined pieces where each cut is at the leftmost remaining occurrence and the last piece holds no `d` is exactly the split on `d` |
| `TextSplit.SplitOnOverlapExample` | lib/ContentState.js:186 | worked case of a self-overlapping separator: "a\n\n\nb" split on "\n\n" is ["a", "\nb"] |
| `TextSplit.SplitOnRepeatExample` | lib/ContentState.js:186 | worked case: "aaa" split on "aa" is ["", "a"] |
| `TextSplit.SplitLinesAfterCrLf` | lib/ContentState.js:184-186 | "\r\n" after a line-break-free piece is a single break of the default pattern |
| `TextSplit.SplitLinesAfterCr` | lib/ContentState.js:184-186 | a "\r" not followed by "\n" after a line-break-free piece is a break of the default pattern |
| `TextSplit.SplitLinesExample` | lib/ContentState.js:184-186 | worked cases: "a\r\nb" and "a\rb" both split into ["a", "b"] |
| `TextSplit.Characters` | lib/ContentState.js:186 | a split on "": one single-character piece per character, in order |
| `TextSplit.Split` | lib/ContentState.js:184-186 | `text.split(delimiter)`: line-break-free pieces for the default pattern, separator-free pieces for a non-empty literal (at least one piece in both cases), the characters for "" |
| `TextSplit.JoinSplitLines` | lib/ContentState.js:184-186 | joining by "\n" the pieces of the default split restores any text without "\r" |
| `TextSplit.SplitJoinLines` | lib/ContentState.js:184-186 | the default split undoes a "\n"-join of pieces that hold no line break |
| `TextSplit.JoinSplitOn` | lib/ContentState.js:186 | joining by `d` the pieces of a split on a non-empty literal `d` restores the text |
| `TextSplit.SplitJoinOn` | lib/ContentState.js:186 | a split on a non-empty literal `d` undoes a `d`-join of pieces in which the first character of `d` does not occur |
| `ImmutableSeq.SkipUntil` | lib/ContentState.js:91-93 | the result is the suffix that starts at the first element satisfying the predicate; it is empty when no element does |
| `Selection.CreateEmpty` | lib/ContentState.js:174 | `SelectionState.createEmpty(key)`: a collapsed caret at offset 0 of the block, forward, without focus (the other branch of line 174, the default record, is `Selection.EMPTY_SELECTION`) |
| `UpdatedSelection.GetLeaf` | lib/getUpdatedSelectionState.js:35-41 | present exactly when the block has a tree and both the segment index and the leaf index are in range; then it is that leaf |
| `UpdatedSelection.StartKey` | lib/getUpdatedSelectionState.js:66-68 | whichever of the two block keys occurs first in document order; absent when neither occurs |
| `UpdatedSelection.IsBackward` | lib/getUpdatedSelectionState.js:56-70 | the direction rule: within one leaf, backward iff the focus offset is smaller; within one block across leaves, backward iff the focus leaf starts first; across blocks, backward only if the focus block is in the document |
| `UpdatedSelection.GetUpdatedSelectionState` | lib/getUpdatedSelectionState.js:24-82 | non-strict with an absent key: the current selection; fails with `MissingLeaf` exactly when a leaf lookup misses; on success: anchor and focus keys are the decoded block keys, offsets are leaf start + local offset, and `hasFocus` is kept; if these points equal the current ones, the current selection itself is returned, otherwise `isBackward` follows the direction rule |
| `UpdatedSelection.SameLeafDirection` | lib/getUpdatedSelectionState.js:57-61 | same block and same leaf (equal start and end): a new selection is backward iff the local focus offset < the local anchor offset |
| `UpdatedSelection.SameBlockDirection` | lib/getUpdatedSelectionState.js:62-64 | same block, different leaves: a new selection is backward iff the focus leaf starts before the anchor leaf |
| `UpdatedSelection.DifferentBlockDirection` | lib/getUpdatedSelectionState.js:65-70 | different blocks of the document: a new selection is backward iff the focus block comes first in the block map |
| `UpdatedSelection.CrossBlockBackwardIff` | lib/getUpdatedSelectionState.js:65-70 | across blocks: backward iff the focus block occurs with no anchor-block entry before it, so a focus block missing from the map never makes it backward |
| `UpdatedSelection.CrossBlockDirection` | lib/getUpdatedSelectionState.js:65-70 | across blocks at known positions: backward iff the focus position is the smaller |
| `UpdatedSelection.DirectionFollowsDocumentOrder` | lib/getUpdatedSelectionState.js:56-70 | on a consistent rendering tree, a focus strictly before the anchor in document order gives backward, and a backward selection never has its anchor strictly before its focus |
| `UpdatedSelection.ResolvingAgainChangesNothing` | lib/getUpdatedSelectionState.js:50-54 | resolving the same offset keys against the selection just produced returns that selection unchanged |
| `UpdatedSelection.DirectionExamples` | lib/getUpdatedSelectionState.js:56-70 | worked cases: one leaf {5,10} with offsets 3 then 1 is backward; focus leaf {0,5} against anchor leaf {10,15} is backward; anchor in B3 with focus in B1 of [B1, B2, B3] is backward |

## Left out

- The entity store pass-throughs (`getEntityMap`, `createEntity`, `mergeEntityData`, `replaceEntityData`, `addEntity`, `getEntity`, `getLastCreatedEntityKey`) are left out. They call into a process-wide mutable store, and each mutator returns the content unchanged. The document therefore has no `entityMap` field, and `createFromBlockArray` takes no entity map.
- The null record defaults are not modelled. In the model a `ContentState` always has its block map and both selections. The "missing blockMap/selectionBefore/selectionAfter" invariants (lib/ContentState.js:62-78) therefore cannot fail, and those three getters are the datatype's fields.
- `BlockMapBuilder.createFromArray` is not part of this model; `BlockMapFromArray` stands for its use at lib/ContentState.js:173 on blocks with distinct keys. `CreateFromBlockArray` and `CreateFromText` therefore require distinct block keys, and the ordered map's handling of a repeated key is not modelled.
- `generateRandomKey` is replaced by a supplied sequence of distinct fresh keys.
- `sanitizeDraftText` is not part of this model. It is a function parameter, `sanitize`.
- `createFromText` with a regular expression other than the default line-break pattern is not modelled. Only the default and literal string separators are.
- `Content.GetPlainText`: for two or more blocks the join is pinned by splitting it back, which is proved only when the delimiter cannot be confused with block text: with the default delimiter for blocks without line breaks, and with a literal delimiter whose first character occurs in no block text.
- JavaScript strings are UTF-16 code units. The model's `char` stands for one code unit.
- `SelectionState.js` is not part of this model. Its default record ("" keys, 0 offsets, both flags false) and `createEmpty` are stated in `Selection`.
- `DraftOffsetKey.decode` is not part of this model: offset keys arrive decoded. For an absent key in strict mode the source crashes while decoding or looking up the tree. The model reports this as `MissingLeaf`. The same holds for a present key whose block has no rendering tree: `getBlockTree(k).getIn(...)` (lib/getUpdatedSelectionState.js:37, 41) throws on the missing tree before the invariant at line 43 is reached, while the model's `GetLeaf` gives nothing and the result is `Failure(MissingLeaf)`.
- `console.warn` with `editorState.toJS()` is left out: it is output only.
- The `!= null` guards on the block offsets (lib/getUpdatedSelectionState.js:47-48, 72-73) are dead once both leaves exist, because offsets are integers. The merge always writes both offsets.
- Offsets are unbounded integers, not IEEE doubles. `getIn` with a negative index, which counts from the end, cannot occur because decoded indices are `nat`.
