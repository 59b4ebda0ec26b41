/**
 * `ContentState`: an immutable document made of an insertion-ordered map
 * from block key to block, plus the selections before and after the change
 * that produced it. The ordered map is a sequence of (key, block) entries
 * whose keys are pairwise distinct.
 */
module Content {
  import opened Wrappers
  import opened ImmutableSeq
  import opened TextSplit
  import opened Selection

  type Key = string

  /** Per-character style and entity metadata; opaque to this layer. */
  datatype CharacterMetadata = CharacterMetadata(style: set<string>, entity: Option<string>)

  /** `CharacterMetadata.EMPTY`: no style, no entity. */
  const EMPTY_CHARACTER: CharacterMetadata := CharacterMetadata({}, None)

  /** `ContentBlock`: one paragraph-level block of text. */
  datatype ContentBlock = ContentBlock(
    key: Key,
    blockType: string,
    text: string,
    characterList: seq<CharacterMetadata>)

  /** The ordered block map: document order, each key at most once. */
  type BlockMap = entries: seq<(Key, ContentBlock)> | DistinctKeys(entries) witness []

  datatype ContentState = ContentState(
    blockMap: BlockMap,
    selectionBefore: SelectionState,
    selectionAfter: SelectionState)

  /** `keySeq()`: the keys in document order. */
  function Keys(bm: BlockMap): (ks: seq<Key>)
    ensures |ks| == |bm|
    ensures forall i :: 0 <= i < |bm| ==> ks[i] == bm[i].0
  {
    seq(|bm|, i requires 0 <= i < |bm| => bm[i].0)
  }

  /** The key occurs at some position of the block map. */
  predicate HasKey(bm: BlockMap, key: Key) {
    exists i :: 0 <= i < |bm| && bm[i].0 == key
  }

  /** Map lookup by key, scanning in order. */
  function Lookup(entries: seq<(Key, ContentBlock)>, key: Key): (r: Option<ContentBlock>)
    ensures r.None? <==> forall i :: 0 <= i < |entries| ==> entries[i].0 != key
    ensures r.Some? ==> exists i :: 0 <= i < |entries| && entries[i] == (key, r.value)
    decreases |entries|
  {
    if entries == [] then None
    else if entries[0].0 == key then Some(entries[0].1)
    else Lookup(entries[1..], key)
  }

  /** `getBlockForKey(key)`: the block stored under `key`, absent when there is none. */
  function GetBlockForKey(c: ContentState, key: Key): (r: Option<ContentBlock>)
    ensures r.None? <==> !HasKey(c.blockMap, key)
    ensures forall i :: 0 <= i < |c.blockMap| && c.blockMap[i].0 == key ==> r == Some(c.blockMap[i].1)
  {
    Lookup(c.blockMap, key)
  }

  /** `getKeyAfter(key)`: the key right after `key` in document order. */
  function GetKeyAfter(c: ContentState, key: Key): (r: Option<Key>)
    ensures r.Some? <==> exists i :: 0 <= i < |c.blockMap| - 1 && c.blockMap[i].0 == key
    ensures forall i :: 0 <= i < |c.blockMap| - 1 && c.blockMap[i].0 == key ==> r == Some(c.blockMap[i + 1].0)
  {
    KeyAfterOnlyIfFollowed(c.blockMap, key);
    KeyAfterWhenFollowed(c.blockMap, key);
    ElementAfter(Keys(c.blockMap), key)
  }

  /** A key after `key` exists only when `key` occurs before the last position. */
  lemma KeyAfterOnlyIfFollowed(bm: BlockMap, key: Key)
    ensures ElementAfter(Keys(bm), key).Some? ==> exists i :: 0 <= i < |bm| - 1 && bm[i].0 == key
  {
    var ks := Keys(bm);
    if ElementAfter(ks, key).Some? {
      var i :| 0 <= i < |ks| - 1 && ks[i] == key;
      assert bm[i].0 == key;
    }
  }

  /** When `key` occurs before the last position, the key after it is the next one. */
  lemma KeyAfterWhenFollowed(bm: BlockMap, key: Key)
    ensures forall i :: 0 <= i < |bm| - 1 && bm[i].0 == key ==> ElementAfter(Keys(bm), key) == Some(bm[i + 1].0)
  {
  }

  /** `getKeyBefore(key)`: the key right after `key` in reverse document order. */
  function GetKeyBefore(c: ContentState, key: Key): (r: Option<Key>)
    ensures r.Some? <==> exists i :: 1 <= i < |c.blockMap| && c.blockMap[i].0 == key
    ensures forall i :: 1 <= i < |c.blockMap| && c.blockMap[i].0 == key ==> r == Some(c.blockMap[i - 1].0)
  {
    KeyBeforeOnlyIfPreceded(c.blockMap, key);
    KeyBeforeWhenPreceded(c.blockMap, key);
    ElementBefore(Keys(c.blockMap), key)
  }

  /** A key before `key` exists only when `key` occurs after the first position. */
  lemma KeyBeforeOnlyIfPreceded(bm: BlockMap, key: Key)
    ensures ElementBefore(Keys(bm), key).Some? ==> exists i :: 1 <= i < |bm| && bm[i].0 == key
  {
    var ks := Keys(bm);
    if ElementBefore(ks, key).Some? {
      var i :| 1 <= i < |ks| && ks[i] == key;
      assert bm[i].0 == key;
    }
  }

  /** When `key` occurs after the first position, the key before it is the previous one. */
  lemma KeyBeforeWhenPreceded(bm: BlockMap, key: Key)
    ensures forall i :: 1 <= i < |bm| && bm[i].0 == key ==> ElementBefore(Keys(bm), key) == Some(bm[i - 1].0)
  {
  }

  /** `getBlockAfter(key)`: the block stored right after `key` in document order. */
  function GetBlockAfter(c: ContentState, key: Key): (r: Option<ContentBlock>)
    ensures r.Some? <==> exists i :: 0 <= i < |c.blockMap| - 1 && c.blockMap[i].0 == key
    ensures forall i :: 0 <= i < |c.blockMap| - 1 && c.blockMap[i].0 == key ==> r == Some(c.blockMap[i + 1].1)
  {
    ValueAfter(c.blockMap, key)
  }

  /** `getBlockBefore(key)`: the block stored right before `key` in document order. */
  function GetBlockBefore(c: ContentState, key: Key): (r: Option<ContentBlock>)
    ensures r.Some? <==> exists i :: 1 <= i < |c.blockMap| && c.blockMap[i].0 == key
    ensures forall i :: 1 <= i < |c.blockMap| && c.blockMap[i].0 == key ==> r == Some(c.blockMap[i - 1].1)
  {
    ValueBefore(c.blockMap, key)
  }

  /** `getBlocksAsArray()`: the blocks alone, in document order. */
  function GetBlocksAsArray(c: ContentState): (blocks: seq<ContentBlock>)
    ensures |blocks| == |c.blockMap|
    ensures forall i :: 0 <= i < |blocks| ==> blocks[i] == c.blockMap[i].1
  {
    seq(|c.blockMap|, i requires 0 <= i < |c.blockMap| => c.blockMap[i].1)
  }

  /** `getFirstBlock()`: the first block; an empty map violates the document invariant. */
  function GetFirstBlock(c: ContentState): (r: Result<ContentBlock>)
    ensures r.Failure? <==> |c.blockMap| == 0
    ensures r.Failure? ==> r.error == BlockMapEmpty
    ensures r.Success? ==> r.value == c.blockMap[0].1
  {
    match First(c.blockMap)
    case None => Failure(BlockMapEmpty)
    case Some(entry) => Success(entry.1)
  }

  /** `getLastBlock()`: the last block; an empty map violates the document invariant. */
  function GetLastBlock(c: ContentState): (r: Result<ContentBlock>)
    ensures r.Failure? <==> |c.blockMap| == 0
    ensures r.Failure? ==> r.error == BlockMapEmpty
    ensures r.Success? ==> r.value == c.blockMap[|c.blockMap| - 1].1
  {
    if c.blockMap == [] then Failure(BlockMapEmpty) else Success(c.blockMap[|c.blockMap| - 1].1)
  }

  /** The block texts in document order. */
  function Texts(bm: BlockMap): (texts: seq<string>)
    ensures |texts| == |bm|
    ensures forall i :: 0 <= i < |bm| ==> texts[i] == bm[i].1.text
  {
    seq(|bm|, i requires 0 <= i < |bm| => bm[i].1.text)
  }

  /** `delimiter || '\n'`: an absent or empty delimiter means a line feed. */
  function PlainTextDelimiter(delimiter: Option<string>): (d: string)
    ensures |d| > 0
    ensures delimiter.None? || delimiter.value == "" ==> d == "\n"
    ensures delimiter.Some? && delimiter.value != "" ==> d == delimiter.value
  {
    match delimiter
    case Some(d) => if d == "" then "\n" else d
    case None => "\n"
  }

  /** `getPlainText(delimiter)`: the block texts joined by the delimiter, in document order. */
  function GetPlainText(c: ContentState, delimiter: Option<string>): (text: string)
    ensures |c.blockMap| == 0 ==> text == ""
    ensures |c.blockMap| == 1 ==> text == c.blockMap[0].1.text
  {
    Join(Texts(c.blockMap), PlainTextDelimiter(delimiter))
  }

  /** `hasText()`: more than one block, or a first block that is not empty. */
  function HasText(c: ContentState): (r: Result<bool>)
    ensures r.Failure? <==> |c.blockMap| == 0
    ensures r.Success? ==> (r.value <==> !(|c.blockMap| == 1 && |c.blockMap[0].1.text| == 0))
  {
    if |c.blockMap| > 1 then Success(true)
    else match GetFirstBlock(c)
      case Failure(e) => Failure(e)
      case Success(block) => Success(|block.text| > 0)
  }

  /** The two shapes `createFromBlockArray` accepts: a bare array, or an object holding one. */
  datatype BlockArray =
    | BlockList(blocks: seq<ContentBlock>)
    | RawContent(contentBlocks: seq<ContentBlock>)

  /** `Array.isArray(blocks) ? blocks : blocks.contentBlocks`. */
  function TheBlocks(input: BlockArray): (blocks: seq<ContentBlock>)
    ensures input.BlockList? ==> blocks == input.blocks
    ensures input.RawContent? ==> blocks == input.contentBlocks
  {
    match input
    case BlockList(blocks) => blocks
    case RawContent(blocks) => blocks
  }

  predicate DistinctBlockKeys(blocks: seq<ContentBlock>) {
    forall i, j :: 0 <= i < j < |blocks| ==> blocks[i].key != blocks[j].key
  }

  /** `BlockMapBuilder.createFromArray`: each block stored under its own key, in order. */
  function BlockMapFromArray(blocks: seq<ContentBlock>): (bm: BlockMap)
    requires DistinctBlockKeys(blocks)
    ensures |bm| == |blocks|
    ensures forall i :: 0 <= i < |bm| ==> bm[i] == (blocks[i].key, blocks[i])
  {
    seq(|blocks|, i requires 0 <= i < |blocks| => (blocks[i].key, blocks[i]))
  }

  /**
   * `ContentState.createFromBlockArray(blocks)`: the blocks in the given
   * order; both selections are the caret at the start of the first block,
   * or the empty marker when there are no blocks.
   */
  function CreateFromBlockArray(input: BlockArray): (c: ContentState)
    requires DistinctBlockKeys(TheBlocks(input))
    ensures GetBlocksAsArray(c) == TheBlocks(input)
    ensures forall i :: 0 <= i < |c.blockMap| ==> c.blockMap[i].0 == c.blockMap[i].1.key
    ensures c.selectionBefore == c.selectionAfter
    ensures TheBlocks(input) == [] ==> c.selectionBefore == EMPTY_SELECTION
    ensures TheBlocks(input) != [] ==>
      && IsCollapsed(c.selectionBefore)
      && c.selectionBefore.anchorKey == TheBlocks(input)[0].key
      && c.selectionBefore.anchorOffset == 0
      && !c.selectionBefore.isBackward
      && !c.selectionBefore.hasFocus
  {
    var blockMap := BlockMapFromArray(TheBlocks(input));
    var selection := if blockMap == [] then EMPTY_SELECTION else CreateEmpty(blockMap[0].1.key);
    ContentState(blockMap, selection, selection)
  }

  /** A fresh "unstyled" block whose every character carries empty metadata. */
  function UnstyledBlock(key: Key, text: string): (b: ContentBlock)
    ensures b.key == key && b.blockType == "unstyled" && b.text == text
    ensures |b.characterList| == |text|
    ensures forall i :: 0 <= i < |text| ==> b.characterList[i] == EMPTY_CHARACTER
  {
    ContentBlock(key, "unstyled", text, seq(|text|, _ => EMPTY_CHARACTER))
  }

  /**
   * `ContentState.createFromText(text, delimiter)`: one unstyled block per
   * piece of the split, in order. The random key generator is replaced by
   * `freshKeys`, the text sanitiser by `sanitize`.
   */
  function CreateFromText(text: string, delimiter: Delimiter, sanitize: string -> string, freshKeys: seq<Key>): (c: ContentState)
    requires |freshKeys| >= |Split(text, delimiter)| && Distinct(freshKeys)
    ensures |c.blockMap| == |Split(text, delimiter)|
    ensures forall i :: 0 <= i < |c.blockMap| ==>
      && c.blockMap[i].0 == freshKeys[i]
      && c.blockMap[i].1 == UnstyledBlock(freshKeys[i], sanitize(Split(text, delimiter)[i]))
    ensures c.blockMap == [] ==> c.selectionBefore == c.selectionAfter == EMPTY_SELECTION
    ensures c.blockMap != [] ==> c.selectionBefore == c.selectionAfter == CreateEmpty(freshKeys[0])
  {
    var pieces := Split(text, delimiter);
    var blocks := seq(|pieces|, i requires 0 <= i < |pieces| => UnstyledBlock(freshKeys[i], sanitize(pieces[i])));
    CreateFromBlockArray(BlockList(blocks))
  }

  /** Stepping back from `key` and then forward again returns to `key`. */
  lemma KeyAfterOfKeyBefore(c: ContentState, key: Key)
    requires HasKey(c.blockMap, key) && c.blockMap[0].0 != key
    ensures GetKeyBefore(c, key).Some?
    ensures GetKeyAfter(c, GetKeyBefore(c, key).value) == Some(key)
  {
    var i :| 0 <= i < |c.blockMap| && c.blockMap[i].0 == key;
    assert GetKeyBefore(c, key) == Some(c.blockMap[i - 1].0);
  }

  /** Stepping forward from `key` and then back again returns to `key`. */
  lemma KeyBeforeOfKeyAfter(c: ContentState, key: Key)
    requires HasKey(c.blockMap, key) && c.blockMap[|c.blockMap| - 1].0 != key
    ensures GetKeyAfter(c, key).Some?
    ensures GetKeyBefore(c, GetKeyAfter(c, key).value) == Some(key)
  {
    var i :| 0 <= i < |c.blockMap| && c.blockMap[i].0 == key;
    assert GetKeyAfter(c, key) == Some(c.blockMap[i + 1].0);
  }

  /** `getBlockAfter(key)` is the block stored under `getKeyAfter(key)`. */
  lemma BlockAfterIsBlockOfKeyAfter(c: ContentState, key: Key)
    ensures GetKeyAfter(c, key).None? ==> GetBlockAfter(c, key).None?
    ensures GetKeyAfter(c, key).Some? ==> GetBlockAfter(c, key) == GetBlockForKey(c, GetKeyAfter(c, key).value)
  {
    if GetKeyAfter(c, key).Some? {
      var i :| 0 <= i < |c.blockMap| - 1 && c.blockMap[i].0 == key;
      assert GetKeyAfter(c, key) == Some(c.blockMap[i + 1].0);
      assert GetBlockAfter(c, key) == Some(c.blockMap[i + 1].1);
      assert GetBlockForKey(c, c.blockMap[i + 1].0) == Some(c.blockMap[i + 1].1);
    }
  }

  /** `getBlockBefore(key)` is the block stored under `getKeyBefore(key)`. */
  lemma BlockBeforeIsBlockOfKeyBefore(c: ContentState, key: Key)
    ensures GetKeyBefore(c, key).None? ==> GetBlockBefore(c, key).None?
    ensures GetKeyBefore(c, key).Some? ==> GetBlockBefore(c, key) == GetBlockForKey(c, GetKeyBefore(c, key).value)
  {
    if GetKeyBefore(c, key).Some? {
      var i :| 1 <= i < |c.blockMap| && c.blockMap[i].0 == key;
      assert GetKeyBefore(c, key) == Some(c.blockMap[i - 1].0);
      assert GetBlockBefore(c, key) == Some(c.blockMap[i - 1].1);
      assert GetBlockForKey(c, c.blockMap[i - 1].0) == Some(c.blockMap[i - 1].1);
    }
  }

  /**
   * With the default delimiter, the plain text of a document whose blocks
   * hold no line breaks splits back into exactly its block texts.
   */
  lemma PlainTextSplitsIntoBlockTexts(c: ContentState)
    requires |c.blockMap| >= 1
    requires forall i :: 0 <= i < |c.blockMap| ==> LineFree(c.blockMap[i].1.text)
    ensures SplitLines(GetPlainText(c, None)) == Texts(c.blockMap)
  {
    SplitJoinLines(Texts(c.blockMap));
  }

  /**
   * With a literal delimiter whose first character occurs in no block text,
   * the plain text splits back on that delimiter into exactly the block texts.
   */
  lemma PlainTextSplitsOnDelimiter(c: ContentState, d: string)
    requires |c.blockMap| >= 1 && d != ""
    requires forall i :: 0 <= i < |c.blockMap| ==> d[0] !in c.blockMap[i].1.text
    ensures SplitOn(GetPlainText(c, Some(d)), d) == Texts(c.blockMap)
  {
    SplitJoinOn(Texts(c.blockMap), d);
  }

  /**
   * `createFromText(text).getPlainText()` gives back `text` when the text has
   * no carriage return and sanitising leaves every line as it is.
   */
  lemma PlainTextOfCreateFromText(text: string, sanitize: string -> string, freshKeys: seq<Key>)
    requires |freshKeys| >= |SplitLines(text)| && Distinct(freshKeys)
    requires '\r' !in text
    requires forall line :: line in SplitLines(text) ==> sanitize(line) == line
    ensures GetPlainText(CreateFromText(text, LineBreaks, sanitize, freshKeys), None) == text
  {
    var c := CreateFromText(text, LineBreaks, sanitize, freshKeys);
    var lines := SplitLines(text);
    assert Texts(c.blockMap) == lines by {
      forall i | 0 <= i < |lines| ensures Texts(c.blockMap)[i] == lines[i] {
        assert lines[i] in lines;
      }
    }
    JoinSplitLines(text);
  }

  /**
   * `createFromText(text, sep).getPlainText(sep)` gives back `text` for a
   * non-empty literal separator when sanitising leaves every piece as it is.
   */
  lemma PlainTextOfCreateFromTextWithSeparator(text: string, sep: string, sanitize: string -> string, freshKeys: seq<Key>)
    requires sep != ""
    requires |freshKeys| >= |SplitOn(text, sep)| && Distinct(freshKeys)
    requires forall piece :: piece in SplitOn(text, sep) ==> sanitize(piece) == piece
    ensures GetPlainText(CreateFromText(text, Literal(sep), sanitize, freshKeys), Some(sep)) == text
  {
    var c := CreateFromText(text, Literal(sep), sanitize, freshKeys);
    var pieces := SplitOn(text, sep);
    assert Texts(c.blockMap) == pieces by {
      forall i | 0 <= i < |pieces| ensures Texts(c.blockMap)[i] == pieces[i] {
        assert pieces[i] in pieces;
      }
    }
    JoinSplitOn(text, sep);
  }

  /** The document made from the empty text is one empty block, so it has no text. */
  lemma EmptyTextHasNoText(sanitize: string -> string, freshKeys: seq<Key>)
    requires |freshKeys| >= 1 && Distinct(freshKeys)
    requires sanitize("") == ""
    ensures HasText(CreateFromText("", LineBreaks, sanitize, freshKeys)) == Success(false)
  {
    assert SplitLines("") == [""];
  }
}
