/** Reading a saved session back: every key a saved file item or chapter block may lack
    gets its default, a legacy block's `page_start`/`page_end` pair becomes a page-range
    string, and only items of a known type are kept. */
module Migration {
  import opened Wrappers
  import opened Text
  import opened Seqs
  import opened FileModel
  import opened PageRanges

  /** A chapter block as read back; `None` stands for a missing key. */
  datatype SavedBlock = SavedBlock(
    id: Option<string>,
    text: string,
    pageRangesStr: Option<string>,
    pageStart: Option<int>,
    pageEnd: Option<int>)

  /** A file item as read back; `None` stands for a missing key. */
  datatype SavedItem = SavedItem(
    path: string,
    filename: string,
    kind: Option<string>,
    chapterBlocks: Option<seq<SavedBlock>>,
    totalChaptersForFullBook: Option<int>,
    folderId: Option<Option<string>>)

  /** The top-level keys of the state file. */
  datatype SavedState = SavedState(
    folders: Option<seq<Folder>>,
    selectedFolderId: Option<string>,
    fileItems: Option<seq<SavedItem>>,
    pdfItems: Option<seq<SavedItem>>)

  // ---------------------------------------------------------------------------------
  // Legacy page numbers

  /** The page-range string that replaces a legacy first page `s` and last page `e`. */
  function LegacyPageRangesStr(s: int, e: int): string
  {
    if s > 0 && e > 0 && s != e then Decimal(s) + "-" + Decimal(e)
    else if s > 0 then Decimal(s)
    else ""
  }

  /** The pages a legacy pair stood for: every page from the smaller to the larger
      number when both are positive, only the first page when just that one is, and
      nothing when the first page is not positive. */
  predicate LegacyCovers(s: int, e: int, p: int)
  {
    s > 0 && ((e > 0 && Min(s, e) <= p <= Max(s, e)) || (e <= 0 && p == s))
  }

  /** The migrated string selects exactly the pages the legacy pair stood for. */
  lemma LegacyRangeSelectsPages(s: int, e: int)
    ensures forall p :: p in PageSet(LegacyPageRangesStr(s, e)) <==> LegacyCovers(s, e, p)
  {
    if s > 0 && e > 0 && s != e {
      LegacySpan(s, e);
    } else if s > 0 {
      LegacySingle(s, e);
    } else {
      LegacyNone(s, e);
    }
  }

  lemma LegacySpan(s: int, e: int)
    requires s > 0 && e > 0 && s != e
    ensures forall p :: p in PageSet(LegacyPageRangesStr(s, e)) <==> LegacyCovers(s, e, p)
  {
    assert LegacyPageRangesStr(s, e) == Decimal(s) + "-" + Decimal(e);
    RangeSelectsSpan(Decimal(s), Decimal(e));
  }

  lemma LegacySingle(s: int, e: int)
    requires s > 0 && (e <= 0 || s == e)
    ensures forall p :: p in PageSet(LegacyPageRangesStr(s, e)) <==> LegacyCovers(s, e, p)
  {
    assert LegacyPageRangesStr(s, e) == Decimal(s);
    NumberSelectsPage(Decimal(s));
  }

  lemma LegacyNone(s: int, e: int)
    requires s <= 0
    ensures forall p :: p in PageSet(LegacyPageRangesStr(s, e)) <==> LegacyCovers(s, e, p)
  {
    assert LegacyPageRangesStr(s, e) == "";
    BlankSelectsNothing("");
  }

  // ---------------------------------------------------------------------------------
  // Defaults

  function TypeName(kind: FileKind): string
  {
    match kind
    case Pdf => "pdf"
    case Txt => "txt"
  }

  /** The type a saved item ends up with: the recorded one, or the one its path implies. */
  function SavedTypeName(item: SavedItem): string
  {
    item.kind.GetOr(TypeName(KindOfPath(item.path)))
  }

  predicate KnownType(item: SavedItem)
  {
    SavedTypeName(item) == "pdf" || SavedTypeName(item) == "txt"
  }

  /** A block with its defaults: `newId` as id when it has none, and a page-range string
      made from the legacy pair (missing numbers read as 0) when it has none. */
  function MigrateBlock(block: SavedBlock, newId: string): (migrated: ChapterBlock)
    ensures block.pageRangesStr.None? ==> forall p ::
      p in PageSet(migrated.pageRangesStr) <==> LegacyCovers(block.pageStart.GetOr(0), block.pageEnd.GetOr(0), p)
  {
    LegacyRangeSelectsPages(block.pageStart.GetOr(0), block.pageEnd.GetOr(0));
    ChapterBlock(
      block.id.GetOr(newId),
      block.text,
      match block.pageRangesStr
      case Some(r) => r
      case None => LegacyPageRangesStr(block.pageStart.GetOr(0), block.pageEnd.GetOr(0)))
  }

  /** The blocks of item `i`; `mint(i, j)` is the fresh id offered to its block `j`. Each
      block keeps its place, its text, a saved id and a saved page-range string; a block
      without an id gets the one on offer, and a block without a page-range string gets
      one that selects exactly the pages of its legacy pair. */
  function MigrateBlocks(blocks: seq<SavedBlock>, i: nat, mint: (nat, nat) -> string): (migrated: seq<ChapterBlock>)
    ensures |migrated| == |blocks|
    ensures forall j :: 0 <= j < |blocks| ==>
      migrated[j].text == blocks[j].text &&
      migrated[j].id == (if blocks[j].id.Some? then blocks[j].id.value else mint(i, j)) &&
      (blocks[j].pageRangesStr.Some? ==> migrated[j].pageRangesStr == blocks[j].pageRangesStr.value)
    ensures forall j, p :: 0 <= j < |blocks| && blocks[j].pageRangesStr.None? ==>
      (p in PageSet(migrated[j].pageRangesStr) <==>
        LegacyCovers(blocks[j].pageStart.GetOr(0), blocks[j].pageEnd.GetOr(0), p))
  {
    var migrated := seq(|blocks|, j requires 0 <= j < |blocks| => MigrateBlock(blocks[j], mint(i, j)));
    assert forall j :: 0 <= j < |blocks| ==> migrated[j] == MigrateBlock(blocks[j], mint(i, j));
    migrated
  }

  /** Item `i` with its defaults, or `None` when its type is neither "pdf" nor "txt". */
  function MigrateItem(item: SavedItem, i: nat, mint: (nat, nat) -> string): Option<FileItem>
  {
    if KnownType(item) then
      Some(FileItem(
        item.path,
        item.filename,
        if SavedTypeName(item) == "pdf" then Pdf else Txt,
        MigrateBlocks(item.chapterBlocks.GetOr([]), i, mint),
        item.totalChaptersForFullBook.GetOr(0),
        item.folderId.GetOr(None)))
    else None
  }

  /** The file list made from the saved items, in their order. */
  function LoadItems(saved: seq<SavedItem>, mint: (nat, nat) -> string): (items: seq<FileItem>)
    ensures |items| <= |saved|
  {
    if saved == [] then []
    else
      var n := |saved| - 1;
      LoadItems(saved[..n], mint) + LoadedItem(saved[n], n, mint)
  }

  /** What saved item `i` adds to the file list: its migrated entry, or nothing. */
  function LoadedItem(x: SavedItem, i: nat, mint: (nat, nat) -> string): (part: seq<FileItem>)
    ensures |part| <= 1
  {
    match MigrateItem(x, i, mint)
    case Some(item) => [item]
    case None => []
  }

  /** A saved item carrying nothing but its path and name loads with the defaults: the
      type its path implies, no blocks, no full-book total, no folder. */
  lemma BareItemDefaults(path: string, filename: string, i: nat, mint: (nat, nat) -> string)
    ensures MigrateItem(SavedItem(path, filename, None, None, None, None), i, mint) ==
      Some(FileItem(path, filename, KindOfPath(path), [], 0, None))
  {
  }

  function ItemPaths(items: seq<FileItem>): seq<string>
  {
    if items == [] then [] else ItemPaths(items[..|items| - 1]) + [items[|items| - 1].path]
  }

  function SavedPaths(saved: seq<SavedItem>): seq<string>
  {
    if saved == [] then [] else SavedPaths(saved[..|saved| - 1]) + [saved[|saved| - 1].path]
  }

  /** Loading keeps exactly the items of a known type, in their saved order. */
  lemma {:induction false} LoadKeepsKnownTypes(saved: seq<SavedItem>, mint: (nat, nat) -> string)
    ensures ItemPaths(LoadItems(saved, mint)) == SavedPaths(Filter(saved, KnownType))
  {
    if saved != [] {
      var n := |saved| - 1;
      var init, last := saved[..n], saved[n];
      LoadKeepsKnownTypes(init, mint);
      InitLast(saved);
      FilterAppend(init, [last], KnownType);
      var tail := LoadedItem(last, n, mint);
      assert LoadItems(saved, mint) == LoadItems(init, mint) + tail;
      ItemPathsAppend(LoadItems(init, mint), tail);
      SavedPathsAppend(Filter(init, KnownType), Filter([last], KnownType));
      LastItemPaths(last, n, mint);
    }
  }

  lemma LastItemPaths(last: SavedItem, n: nat, mint: (nat, nat) -> string)
    ensures ItemPaths(LoadedItem(last, n, mint)) ==
      SavedPaths(Filter([last], KnownType))
  {
    FilterSingleton(last, KnownType);
    if KnownType(last) {
      assert ItemPaths([MigrateItem(last, n, mint).value]) == [last.path];
      assert SavedPaths([last]) == [last.path];
    }
  }

  lemma {:induction false} ItemPathsAppend(a: seq<FileItem>, b: seq<FileItem>)
    ensures ItemPaths(a + b) == ItemPaths(a) + ItemPaths(b)
    decreases |b|
  {
    if b == [] {
      assert a + b == a;
    } else {
      var m := |b| - 1;
      assert (a + b)[..|a + b| - 1] == a + b[..m];
      ItemPathsAppend(a, b[..m]);
    }
  }

  lemma {:induction false} SavedPathsAppend(a: seq<SavedItem>, b: seq<SavedItem>)
    ensures SavedPaths(a + b) == SavedPaths(a) + SavedPaths(b)
    decreases |b|
  {
    if b == [] {
      assert a + b == a;
    } else {
      var m := |b| - 1;
      assert (a + b)[..|a + b| - 1] == a + b[..m];
      SavedPathsAppend(a, b[..m]);
    }
  }

  // ---------------------------------------------------------------------------------
  // Saving and loading again

  function SaveBlock(block: ChapterBlock): SavedBlock
  {
    SavedBlock(Some(block.id), block.text, Some(block.pageRangesStr), None, None)
  }

  /** A file item as the state file stores it: every key present. */
  function SaveItem(item: FileItem): SavedItem
  {
    SavedItem(
      item.path,
      item.filename,
      Some(TypeName(item.kind)),
      Some(seq(|item.chapterBlocks|, j requires 0 <= j < |item.chapterBlocks| => SaveBlock(item.chapterBlocks[j]))),
      Some(item.totalChaptersForFullBook),
      Some(item.folderId))
  }

  function SaveItems(items: seq<FileItem>): (saved: seq<SavedItem>)
    ensures |saved| == |items|
    ensures forall i :: 0 <= i < |items| ==> saved[i] == SaveItem(items[i])
  {
    seq(|items|, i requires 0 <= i < |items| => SaveItem(items[i]))
  }

  /** A saved item loads back unchanged, whatever ids are on offer. */
  lemma LoadSavedItem(item: FileItem, i: nat, mint: (nat, nat) -> string)
    ensures MigrateItem(SaveItem(item), i, mint) == Some(item)
  {
    var saved := SaveItem(item);
    assert KnownType(saved) by {
      match item.kind
      case Pdf =>
      case Txt =>
    }
    var blocks := MigrateBlocks(saved.chapterBlocks.GetOr([]), i, mint);
    assert blocks == item.chapterBlocks;
  }

  /** Loading what was saved gives back the same file list: a session survives a restart. */
  lemma {:induction false} LoadAfterSave(items: seq<FileItem>, mint: (nat, nat) -> string)
    ensures LoadItems(SaveItems(items), mint) == items
  {
    if items != [] {
      var n := |items| - 1;
      var init := items[..n];
      LoadAfterSave(init, mint);
      SaveItemsSnoc(init, items[n]);
      LoadItemsSnoc(SaveItems(init), SaveItem(items[n]), mint);
      LoadSavedItem(items[n], n, mint);
      InitLast(items);
    }
  }

  lemma SaveItemsSnoc(a: seq<FileItem>, x: FileItem)
    ensures SaveItems(a + [x]) == SaveItems(a) + [SaveItem(x)]
  {
  }

  lemma LoadItemsSnoc(a: seq<SavedItem>, x: SavedItem, mint: (nat, nat) -> string)
    ensures LoadItems(a + [x], mint) ==
      LoadItems(a, mint) + LoadedItem(x, |a|, mint)
  {
    assert (a + [x])[..|a|] == a;
  }

  /** One more saved item loaded. */
  lemma LoadPrefixStep(saved: seq<SavedItem>, i: nat, mint: (nat, nat) -> string)
    requires i < |saved|
    ensures LoadItems(saved[..i + 1], mint) ==
      LoadItems(saved[..i], mint) + LoadedItem(saved[i], i, mint)
  {
    assert saved[..i + 1] == saved[..i] + [saved[i]];
    LoadItemsSnoc(saved[..i], saved[i], mint);
  }

  /** The list a state file offers: `file_items`, else the older `pdf_items`, else none. */
  function SavedItems(state: SavedState): seq<SavedItem>
  {
    match state.fileItems
    case Some(items) => items
    case None => state.pdfItems.GetOr([])
  }
}
