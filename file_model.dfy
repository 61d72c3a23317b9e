/** The in-memory data behind the file and folder lists: file items with their chapter
    blocks, user folders, the folder views, and the value-level rules for adding a file,
    moving the files of a deleted folder to Uncategorized, removing files or single blocks,
    and keeping the folder list sorted with unique names. */
module FileModel {
  import opened Wrappers
  import opened Text
  import opened Seqs

  /** Identifiers of the two special rows of the folder list. */
  const ALL_FILES_ID: string := "__ALL_FILES__"
  const UNCATEGORIZED_ID: string := "__UNCATEGORIZED__"

  datatype FileKind = Pdf | Txt

  /** One chapter of a file: its name (or description) and the pages it covers. */
  datatype ChapterBlock = ChapterBlock(id: string, text: string, pageRangesStr: string)

  datatype FileItem = FileItem(
    path: string,
    filename: string,
    kind: FileKind,
    chapterBlocks: seq<ChapterBlock>,
    totalChaptersForFullBook: int,
    folderId: Option<string>)

  datatype Folder = Folder(id: string, name: string)

  /** A selection naming a user folder: set, and neither of the special views. */
  predicate IsUserFolderId(sel: string)
  {
    sel != "" && sel != ALL_FILES_ID && sel != UNCATEGORIZED_ID
  }

  // ---------------------------------------------------------------------------------
  // File type and name

  /** "pdf" when the lower-cased path ends with `.pdf`, "txt" otherwise. */
  function KindOfPath(path: string): FileKind
  {
    if EndsWith(Lower(path), ".pdf") then Pdf else Txt
  }

  /** The type test ignores case: a path is a PDF exactly when its last four characters
      are a dot and then `p`, `d`, `f`, each in either case. */
  lemma PdfSuffixAnyCase(path: string)
    ensures KindOfPath(path) == Pdf <==>
      |path| >= 4 && path[|path| - 4] == '.' && (path[|path| - 3] == 'p' || path[|path| - 3] == 'P') &&
      (path[|path| - 2] == 'd' || path[|path| - 2] == 'D') && (path[|path| - 1] == 'f' || path[|path| - 1] == 'F')
  {
    var low := Lower(path);
    if |path| >= 4 {
      var n := |path|;
      var tail := low[n - 4..];
      assert tail[0] == low[n - 4] && tail[1] == low[n - 3] && tail[2] == low[n - 2] && tail[3] == low[n - 1];
      assert tail == ".pdf" <==> tail[0] == '.' && tail[1] == 'p' && tail[2] == 'd' && tail[3] == 'f';
    }
  }

  /** `os.path.basename` with `/` as the separator. */
  function BaseName(path: string): (name: string)
    ensures '/' !in name
    ensures EndsWith(path, name)
    ensures |name| < |path| ==> path[|path| - |name| - 1] == '/'
  {
    if path == [] || path[|path| - 1] == '/' then []
    else
      var init := BaseName(path[..|path| - 1]);
      BaseNameStep(path, init);
      init + [path[|path| - 1]]
  }

  lemma BaseNameStep(path: string, init: string)
    requires path != [] && path[|path| - 1] != '/'
    requires '/' !in init && EndsWith(path[..|path| - 1], init)
    requires |init| < |path| - 1 ==> path[..|path| - 1][|path| - 1 - |init| - 1] == '/'
    ensures var name := init + [path[|path| - 1]];
      '/' !in name && EndsWith(path, name) && (|name| < |path| ==> path[|path| - |name| - 1] == '/')
  {
    var name := init + [path[|path| - 1]];
    assert path[|path| - |name|..] == path[..|path| - 1][|path| - 1 - |init|..] + [path[|path| - 1]];
  }

  // ---------------------------------------------------------------------------------
  // Folder views

  /** Whether the view selected by `sel` shows `item`. */
  predicate InView(item: FileItem, sel: string)
  {
    sel == ALL_FILES_ID
    || (sel == UNCATEGORIZED_ID && item.folderId == None)
    || (IsUserFolderId(sel) && item.folderId == Some(sel))
  }

  predicate IsUncategorized(item: FileItem)
  {
    item.folderId == None
  }

  function InFolder(sel: string): FileItem -> bool
  {
    (item: FileItem) => item.folderId == Some(sel)
  }

  /** The files listed for selection `sel`, in list order: all of them, the ones without a
      folder, or the ones in the selected folder; nothing when no view is selected. */
  function DisplayedItems(items: seq<FileItem>, sel: string): (shown: seq<FileItem>)
    ensures IsSubseq(shown, items)
    ensures forall it :: multiset(shown)[it] == if InView(it, sel) then multiset(items)[it] else 0
    ensures forall it :: it in shown <==> it in items && InView(it, sel)
  {
    if sel == ALL_FILES_ID then SubseqOfItself(items); items
    else if sel == UNCATEGORIZED_ID then FilterSelects(items, IsUncategorized); Filter(items, IsUncategorized)
    else if sel != "" then FilterSelects(items, InFolder(sel)); Filter(items, InFolder(sel))
    else []
  }

  // ---------------------------------------------------------------------------------
  // Adding a file

  /** The folder a new file goes into: the selected user folder, or none. */
  function CurrentFolderFor(sel: string): Option<string>
  {
    if IsUserFolderId(sel) then Some(sel) else None
  }

  /** The entry added for a new path: one empty chapter block, no full-book total. */
  function NewFileItem(path: string, blockId: string, sel: string): FileItem
  {
    FileItem(path, BaseName(path), KindOfPath(path), [ChapterBlock(blockId, "", "")], 0, CurrentFolderFor(sel))
  }

  /** A new file shows up in the view it was added from, unless no view is selected. */
  lemma NewFileInCurrentView(path: string, blockId: string, sel: string)
    ensures InView(NewFileItem(path, blockId, sel), sel) <==> sel != ""
  {
  }

  /** Appending a file appends it to every view that shows it and leaves the others alone. */
  lemma AppendedToView(items: seq<FileItem>, item: FileItem, sel: string)
    ensures DisplayedItems(items + [item], sel) ==
      DisplayedItems(items, sel) + (if InView(item, sel) then [item] else [])
  {
    if sel == UNCATEGORIZED_ID {
      FilterAppend(items, [item], IsUncategorized);
      FilterSingleton(item, IsUncategorized);
    } else if sel != ALL_FILES_ID && sel != "" {
      FilterAppend(items, [item], InFolder(sel));
      FilterSingleton(item, InFolder(sel));
    }
  }

  predicate UniquePaths(items: seq<FileItem>)
  {
    forall i, j :: 0 <= i < j < |items| ==> items[i].path != items[j].path
  }

  /** Some entry of the list has `path`. */
  predicate Listed(items: seq<FileItem>, path: string)
  {
    exists k :: 0 <= k < |items| && items[k].path == path
  }

  /** The position of the first entry with `path`, or the length when there is none. */
  function FirstWithPath(items: seq<FileItem>, path: string): (k: nat)
    ensures k <= |items|
    ensures forall j :: 0 <= j < k ==> items[j].path != path
    ensures k < |items| ==> items[k].path == path
    ensures k < |items| <==> Listed(items, path)
  {
    if items == [] then 0
    else if items[0].path == path then 0
    else
      var k := 1 + FirstWithPath(items[1..], path);
      assert forall j :: 1 <= j < |items| ==> items[j] == items[1..][j - 1];
      k
  }

  /** A path not listed yet keeps the paths unique when appended. */
  lemma AppendUnlistedKeepsUniquePaths(items: seq<FileItem>, item: FileItem)
    requires UniquePaths(items) && !Listed(items, item.path)
    ensures UniquePaths(items + [item])
  {
    var s := items + [item];
    forall i, j | 0 <= i < j < |s|
      ensures s[i].path != s[j].path
    {
      assert s[i] == items[i];
      if j < |items| {
        assert s[j] == items[j];
      }
    }
  }

  // ---------------------------------------------------------------------------------
  // Deleting a folder

  /** Every file of `folder` moved to Uncategorized; the rest unchanged. */
  function RehomeAll(items: seq<FileItem>, folder: string): (moved: seq<FileItem>)
    ensures |moved| == |items|
    ensures forall k :: 0 <= k < |items| ==> moved[k] == items[k].(folderId := moved[k].folderId)
    ensures forall k :: 0 <= k < |items| ==>
      moved[k].folderId == if items[k].folderId == Some(folder) then None else items[k].folderId
  {
    if items == [] then []
    else
      var it := items[0];
      [if it.folderId == Some(folder) then it.(folderId := None) else it] + RehomeAll(items[1..], folder)
  }

  /** Once folder `f` is deleted its view is empty. */
  lemma DeletedFolderViewEmpty(items: seq<FileItem>, f: string)
    requires IsUserFolderId(f)
    ensures DisplayedItems(RehomeAll(items, f), f) == []
  {
    var moved := RehomeAll(items, f);
    var shown := DisplayedItems(moved, f);
    forall it
      ensures multiset(shown)[it] == 0
    {
      if InView(it, f) {
        forall k | 0 <= k < |moved|
          ensures moved[k] != it
        {
        }
        assert it !in moved;
      }
    }
    assert multiset(shown) == multiset{};
  }

  /** Deleting folder `f` leaves the view of every other user folder as it was. */
  lemma {:induction false} OtherFolderViewUnchanged(items: seq<FileItem>, f: string, g: string)
    requires IsUserFolderId(g) && g != f
    ensures DisplayedItems(RehomeAll(items, f), g) == DisplayedItems(items, g)
  {
    if items != [] {
      var moved := RehomeAll(items, f);
      assert moved[1..] == RehomeAll(items[1..], f);
      OtherFolderViewUnchanged(items[1..], f, g);
    }
  }

  /** Moving files between folders leaves their paths alone. */
  lemma RehomeKeepsUniquePaths(items: seq<FileItem>, f: string)
    requires UniquePaths(items)
    ensures UniquePaths(RehomeAll(items, f))
  {
    var moved := RehomeAll(items, f);
    forall i | 0 <= i < |items|
      ensures moved[i].path == items[i].path
    {
    }
  }

  /** Deleting folder `f` turns the Uncategorized view into the files that were
      uncategorized or in `f`, in list order, each now without a folder. */
  lemma {:induction false} UncategorizedGainsFolder(items: seq<FileItem>, f: string)
    requires IsUserFolderId(f)
    ensures DisplayedItems(RehomeAll(items, f), UNCATEGORIZED_ID) ==
      RehomeAll(Filter(items, UncategorizedOrIn(f)), f)
  {
    if items != [] {
      var moved := RehomeAll(items, f);
      assert moved[1..] == RehomeAll(items[1..], f);
      UncategorizedGainsFolder(items[1..], f);
      var kept := Filter(items[1..], UncategorizedOrIn(f));
      if UncategorizedOrIn(f)(items[0]) {
        assert ([items[0]] + kept)[1..] == kept;
      }
    }
  }

  function UncategorizedOrIn(f: string): FileItem -> bool
  {
    (item: FileItem) => item.folderId == None || item.folderId == Some(f)
  }

  // ---------------------------------------------------------------------------------
  // Removing files and chapter blocks

  /** A file chosen for deletion, or one chapter block of a file. */
  datatype DeleteTarget = FileTarget(path: string) | BlockTarget(filePath: string, blockId: string)

  /** The blocks of `item` not chosen for deletion. */
  function KeptBlocks(item: FileItem, targets: seq<DeleteTarget>): seq<ChapterBlock>
  {
    Filter(item.chapterBlocks, BlockKept(item.path, targets))
  }

  function BlockKept(path: string, targets: seq<DeleteTarget>): ChapterBlock -> bool
  {
    (b: ChapterBlock) => BlockTarget(path, b.id) !in targets
  }

  /** The file list after deleting `targets`: chosen files are dropped, and the others
      keep their position and lose their chosen blocks. */
  function Pruned(items: seq<FileItem>, targets: seq<DeleteTarget>): (kept: seq<FileItem>)
    ensures |kept| <= |items|
  {
    if items == [] then []
    else
      var last := items[|items| - 1];
      Pruned(items[..|items| - 1], targets) +
        (if FileTarget(last.path) in targets then [] else [last.(chapterBlocks := KeptBlocks(last, targets))])
  }

  /** No chosen file and no chosen block survives. */
  lemma {:induction false} PrunedRemovesTargets(items: seq<FileItem>, targets: seq<DeleteTarget>)
    ensures forall x :: x in Pruned(items, targets) ==>
      FileTarget(x.path) !in targets &&
      forall b :: b in x.chapterBlocks ==> BlockTarget(x.path, b.id) !in targets
  {
    if items != [] {
      PrunedRemovesTargets(items[..|items| - 1], targets);
      var last := items[|items| - 1];
      FilterSelects(last.chapterBlocks, BlockKept(last.path, targets));
    }
  }

  /** Every file not chosen is kept, minus its chosen blocks. */
  lemma {:induction false} PrunedKeepsOthers(items: seq<FileItem>, targets: seq<DeleteTarget>)
    ensures forall k :: 0 <= k < |items| && FileTarget(items[k].path) !in targets ==>
      items[k].(chapterBlocks := KeptBlocks(items[k], targets)) in Pruned(items, targets)
  {
    if items != [] {
      var init := items[..|items| - 1];
      PrunedKeepsOthers(init, targets);
      forall k | 0 <= k < |items| - 1
        ensures items[k] == init[k]
      {
      }
    }
  }

  /** Nothing is added: every kept file is a file of the list, minus its chosen blocks. */
  lemma {:induction false} PrunedFromItems(items: seq<FileItem>, targets: seq<DeleteTarget>)
    ensures forall x :: x in Pruned(items, targets) ==>
      exists k :: 0 <= k < |items| && x == items[k].(chapterBlocks := KeptBlocks(items[k], targets))
  {
    if items != [] {
      var n := |items| - 1;
      var init := items[..n];
      PrunedFromItems(init, targets);
      forall x | x in Pruned(items, targets)
        ensures exists k :: 0 <= k < |items| && x == items[k].(chapterBlocks := KeptBlocks(items[k], targets))
      {
        if x in Pruned(init, targets) {
          var k :| 0 <= k < |init| && x == init[k].(chapterBlocks := KeptBlocks(init[k], targets));
          assert items[k] == init[k];
        } else {
          assert x == items[n].(chapterBlocks := KeptBlocks(items[n], targets));
        }
      }
    }
  }

  /** Deleting keeps the paths unique. */
  lemma {:induction false} PrunedKeepsUniquePaths(items: seq<FileItem>, targets: seq<DeleteTarget>)
    requires UniquePaths(items)
    ensures UniquePaths(Pruned(items, targets))
  {
    if items != [] {
      var n := |items| - 1;
      var init := items[..n];
      var last := items[n];
      assert UniquePaths(init) by {
        forall i, j | 0 <= i < j < |init|
          ensures init[i].path != init[j].path
        {
          assert init[i] == items[i] && init[j] == items[j];
        }
      }
      assert !Listed(init, last.path) by {
        forall k | 0 <= k < |init|
          ensures init[k].path != last.path
        {
          assert init[k] == items[k];
        }
      }
      PrunedKeepsUniquePaths(init, targets);
      PrunedAddsNoPath(init, targets, last.path);
      if FileTarget(last.path) !in targets {
        AppendUnlistedKeepsUniquePaths(Pruned(init, targets), last.(chapterBlocks := KeptBlocks(last, targets)));
      }
    }
  }

  /** A path the list lacks is still lacking after a deletion. */
  lemma {:induction false} PrunedAddsNoPath(items: seq<FileItem>, targets: seq<DeleteTarget>, path: string)
    requires !Listed(items, path)
    ensures !Listed(Pruned(items, targets), path)
  {
    if items != [] {
      var n := |items| - 1;
      var init := items[..n];
      assert !Listed(init, path) by {
        forall k | 0 <= k < |init|
          ensures init[k].path != path
        {
          assert init[k] == items[k];
        }
      }
      PrunedAddsNoPath(init, targets, path);
      var p := Pruned(init, targets);
      var tail: seq<FileItem> := if FileTarget(items[n].path) in targets then [] else [items[n].(chapterBlocks := KeptBlocks(items[n], targets))];
      assert Pruned(items, targets) == p + tail;
      forall m | 0 <= m < |p + tail|
        ensures (p + tail)[m].path != path
      {
        if m < |p| {
          assert (p + tail)[m] == p[m];
        } else {
          assert (p + tail)[m] == tail[0];
        }
      }
    }
  }

  /** Deleting the same targets a second time changes nothing. */
  lemma {:induction false} PrunedIdempotent(items: seq<FileItem>, targets: seq<DeleteTarget>)
    ensures Pruned(Pruned(items, targets), targets) == Pruned(items, targets)
  {
    if items != [] {
      var n := |items| - 1;
      var last := items[n];
      var p := Pruned(items[..n], targets);
      PrunedIdempotent(items[..n], targets);
      if FileTarget(last.path) !in targets {
        var y := last.(chapterBlocks := KeptBlocks(last, targets));
        assert Pruned(items, targets) == p + [y];
        KeptBlocksIdempotent(last, targets);
        assert y.(chapterBlocks := KeptBlocks(y, targets)) == y;
        PrunedSnoc(p, y, targets);
      } else {
        assert Pruned(items, targets) == p;
      }
    }
  }

  lemma KeptBlocksIdempotent(item: FileItem, targets: seq<DeleteTarget>)
    ensures var y := item.(chapterBlocks := KeptBlocks(item, targets)); KeptBlocks(y, targets) == y.chapterBlocks
  {
    var y := item.(chapterBlocks := KeptBlocks(item, targets));
    FilterSelects(item.chapterBlocks, BlockKept(item.path, targets));
    FilterAll(y.chapterBlocks, BlockKept(y.path, targets));
  }

  /** Pruning a list that ends in `y`. */
  lemma PrunedSnoc(a: seq<FileItem>, y: FileItem, targets: seq<DeleteTarget>)
    ensures Pruned(a + [y], targets) == Pruned(a, targets) +
      (if FileTarget(y.path) in targets then [] else [y.(chapterBlocks := KeptBlocks(y, targets))])
  {
    assert (a + [y])[..|a|] == a;
  }

  /** One more file of the list pruned. */
  lemma PrunedPrefixStep(items: seq<FileItem>, k: nat, targets: seq<DeleteTarget>)
    requires k < |items|
    ensures Pruned(items[..k + 1], targets) == Pruned(items[..k], targets) +
      (if FileTarget(items[k].path) in targets then [] else [items[k].(chapterBlocks := KeptBlocks(items[k], targets))])
  {
    assert items[..k + 1] == items[..k] + [items[k]];
    PrunedSnoc(items[..k], items[k], targets);
  }

  /** With nothing chosen, the list is unchanged. */
  lemma {:induction false} PrunedNothing(items: seq<FileItem>)
    ensures Pruned(items, []) == items
  {
    if items != [] {
      var n := |items| - 1;
      PrunedNothing(items[..n]);
      FilterAll(items[n].chapterBlocks, BlockKept(items[n].path, []));
      PrunedSnoc(items[..n], items[n], []);
      InitLast(items);
    }
  }

  // ---------------------------------------------------------------------------------
  // Rows of the file list

  /** The row id of a file: `file_` and the path with every space, `/`, `:` and `.`
      turned into `_`. */
  function MakeFileIid(path: string): (iid: string)
    ensures |iid| == 5 + |path|
  {
    "file_" + seq(|path|, i requires 0 <= i < |path| => IidChar(path[i]))
  }

  function IidChar(c: char): char
  {
    if c == ' ' || c == '/' || c == ':' || c == '.' then '_' else c
  }

  /** The file a row of the file list stands for, as the handlers look it up: the first
      entry whose row id is `iid`. */
  function FileOfRow(items: seq<FileItem>, iid: string): (k: Option<nat>)
    ensures k.Some? ==> k.value < |items| && MakeFileIid(items[k.value].path) == iid
    ensures k.Some? ==> forall j :: 0 <= j < k.value ==> MakeFileIid(items[j].path) != iid
    ensures k.None? ==> forall j :: 0 <= j < |items| ==> MakeFileIid(items[j].path) != iid
  {
    if items == [] then None
    else if MakeFileIid(items[0].path) == iid then Some(0)
    else match FileOfRow(items[1..], iid)
      case None => None
      case Some(j) => Some(j + 1)
  }

  /** Two different paths share a row id, so the row of the second file leads the
      handlers to the first one. */
  lemma FileRowsCollide(a: FileItem, b: FileItem)
    requires a.path == "a b.pdf" && b.path == "a_b.pdf"
    ensures a.path != b.path && MakeFileIid(a.path) == MakeFileIid(b.path)
    ensures FileOfRow([a, b], MakeFileIid(b.path)) == Some(0)
  {
    assert a.path[1] != b.path[1];
    assert MakeFileIid(a.path) == "file_a_b_pdf";
    assert MakeFileIid(b.path) == "file_a_b_pdf";
  }

  /** Looking a file up by its path finds that very file whenever the paths are unique. */
  lemma PathFindsItsFile(items: seq<FileItem>, k: nat)
    requires UniquePaths(items) && k < |items|
    ensures FirstWithPath(items, items[k].path) == k
  {
  }

  // ---------------------------------------------------------------------------------
  // Folder list

  function MakeFolderIid(id: string): string
  {
    "folder_" + id
  }

  /** Distinct folders have distinct rows in the folder list. */
  lemma FolderIidInjective(a: string, b: string)
    requires MakeFolderIid(a) == MakeFolderIid(b)
    ensures a == b
  {
    assert a == MakeFolderIid(a)[7..];
    assert b == MakeFolderIid(b)[7..];
  }

  /** The position of the first folder whose row is `iid`. */
  function FindFolderRow(folders: seq<Folder>, iid: string): (k: Option<nat>)
    ensures k.Some? ==> k.value < |folders| && MakeFolderIid(folders[k.value].id) == iid
    ensures k.Some? ==> forall j :: 0 <= j < k.value ==> MakeFolderIid(folders[j].id) != iid
    ensures k.None? ==> forall j :: 0 <= j < |folders| ==> MakeFolderIid(folders[j].id) != iid
  {
    if folders == [] then None
    else if MakeFolderIid(folders[0].id) == iid then Some(0)
    else match FindFolderRow(folders[1..], iid)
      case None => None
      case Some(j) => Some(j + 1)
  }

  predicate NameTaken(folders: seq<Folder>, name: string)
  {
    exists k :: 0 <= k < |folders| && folders[k].name == name
  }

  predicate NamesDistinct(folders: seq<Folder>)
  {
    forall i, j :: 0 <= i < j < |folders| ==> folders[i].name != folders[j].name
  }

  /** The sort key of the folder list: the lower-cased name. */
  function SortKey(f: Folder): string
  {
    Lower(f.name)
  }

  predicate SortedByName(folders: seq<Folder>)
  {
    forall i, j :: 0 <= i < j < |folders| ==> LexLe(SortKey(folders[i]), SortKey(folders[j]))
  }

  /** `f` placed after every folder whose key is not above its own. */
  function InsertByName(sorted: seq<Folder>, f: Folder): (r: seq<Folder>)
    requires SortedByName(sorted)
    ensures SortedByName(r)
    ensures |r| == |sorted| + 1
    ensures multiset(r) == multiset(sorted) + multiset{f}
  {
    if sorted == [] then [f]
    else
      var n := |sorted| - 1;
      var last := sorted[n];
      if LexLe(SortKey(last), SortKey(f)) then
        InsertAtEnd(sorted, f);
        sorted + [f]
      else
        var init := sorted[..n];
        var r := InsertByName(init, f);
        InsertBeforeLast(sorted, f, r);
        r + [last]
  }

  lemma InsertAtEnd(sorted: seq<Folder>, f: Folder)
    requires SortedByName(sorted) && sorted != []
    requires LexLe(SortKey(sorted[|sorted| - 1]), SortKey(f))
    ensures SortedByName(sorted + [f])
  {
    var s := sorted + [f];
    var n := |sorted| - 1;
    forall i, j | 0 <= i < j < |s|
      ensures LexLe(SortKey(s[i]), SortKey(s[j]))
    {
      if j == |sorted| && i < n {
        LexLeTransitive(SortKey(sorted[i]), SortKey(sorted[n]), SortKey(f));
      }
    }
  }

  lemma InsertBeforeLast(sorted: seq<Folder>, f: Folder, r: seq<Folder>)
    requires SortedByName(sorted) && sorted != []
    requires !LexLe(SortKey(sorted[|sorted| - 1]), SortKey(f))
    requires SortedByName(r) && multiset(r) == multiset(sorted[..|sorted| - 1]) + multiset{f}
    ensures SortedByName(r + [sorted[|sorted| - 1]])
    ensures multiset(r + [sorted[|sorted| - 1]]) == multiset(sorted) + multiset{f}
  {
    var n := |sorted| - 1;
    var last := sorted[n];
    var init := sorted[..n];
    LexLeTotal(SortKey(last), SortKey(f));
    forall k | 0 <= k < |r|
      ensures LexLe(SortKey(r[k]), SortKey(last))
    {
      var x := r[k];
      assert x in multiset(r);
      if x != f {
        assert x in multiset(init);
        var i :| 0 <= i < n && init[i] == x;
        assert sorted[i] == x;
      }
    }
    assert sorted == init + [last];
  }

  /** The folder list sorted by lower-cased name: each folder in turn is inserted after
      the ones whose key is not above its own. */
  function SortByName(folders: seq<Folder>): (r: seq<Folder>)
    ensures SortedByName(r)
    ensures multiset(r) == multiset(folders)
  {
    if folders == [] then []
    else
      var n := |folders| - 1;
      assert folders == folders[..n] + [folders[n]];
      InsertByName(SortByName(folders[..n]), folders[n])
  }

  /** Sorting keeps every folder, so it keeps the set of names taken. */
  lemma SortKeepsNames(folders: seq<Folder>, name: string)
    ensures NameTaken(SortByName(folders), name) <==> NameTaken(folders, name)
  {
    var r := SortByName(folders);
    if NameTaken(folders, name) {
      var k :| 0 <= k < |folders| && folders[k].name == name;
      var x := folders[k];
      assert x in multiset(folders);
      assert x in multiset(r);
      var j :| 0 <= j < |r| && r[j] == x;
    }
    if NameTaken(r, name) {
      var k :| 0 <= k < |r| && r[k].name == name;
      var x := r[k];
      assert x in multiset(r);
      assert x in multiset(folders);
      var j :| 0 <= j < |folders| && folders[j] == x;
    }
  }

  /** Inserting a folder whose name is free keeps the names distinct. */
  lemma {:induction false} InsertKeepsNamesDistinct(sorted: seq<Folder>, f: Folder)
    requires SortedByName(sorted) && NamesDistinct(sorted) && !NameTaken(sorted, f.name)
    ensures NamesDistinct(InsertByName(sorted, f))
  {
    if sorted != [] {
      var n := |sorted| - 1;
      var last := sorted[n];
      if LexLe(SortKey(last), SortKey(f)) {
        assert InsertByName(sorted, f) == sorted + [f];
        DistinctSnoc(sorted, f);
      } else {
        var init := sorted[..n];
        assert NamesDistinct(init) && !NameTaken(init, f.name) by {
          forall k | 0 <= k < n
            ensures init[k] == sorted[k]
          {
          }
        }
        InsertKeepsNamesDistinct(init, f);
        var r := InsertByName(init, f);
        InsertAvoidsName(init, f, last.name);
        assert InsertByName(sorted, f) == r + [last];
        DistinctSnoc(r, last);
      }
    }
  }

  /** A name neither the list nor the inserted folder has is not in the result. */
  lemma InsertAvoidsName(sorted: seq<Folder>, f: Folder, name: string)
    requires SortedByName(sorted) && f.name != name
    requires forall k :: 0 <= k < |sorted| ==> sorted[k].name != name
    ensures forall k :: 0 <= k < |InsertByName(sorted, f)| ==> InsertByName(sorted, f)[k].name != name
  {
    var r := InsertByName(sorted, f);
    forall k | 0 <= k < |r|
      ensures r[k].name != name
    {
      var x := r[k];
      assert x in multiset(r);
      if x != f {
        assert x in multiset(sorted);
        var i :| 0 <= i < |sorted| && sorted[i] == x;
      }
    }
  }

  /** A folder whose name no earlier folder has can be appended. */
  lemma DistinctSnoc(fs: seq<Folder>, f: Folder)
    requires NamesDistinct(fs)
    requires forall k :: 0 <= k < |fs| ==> fs[k].name != f.name
    ensures NamesDistinct(fs + [f])
  {
    var s := fs + [f];
    forall i, j | 0 <= i < j < |s|
      ensures s[i].name != s[j].name
    {
      assert s[i] == fs[i];
    }
  }

  /** Sorting keeps the names distinct. */
  lemma {:induction false} SortKeepsNamesDistinct(folders: seq<Folder>)
    requires NamesDistinct(folders)
    ensures NamesDistinct(SortByName(folders))
  {
    if folders != [] {
      var n := |folders| - 1;
      var init := folders[..n];
      SortKeepsNamesDistinct(init);
      SortKeepsNames(init, folders[n].name);
      assert !NameTaken(init, folders[n].name) by {
        forall k | 0 <= k < n
          ensures init[k].name != folders[n].name
        {
          assert init[k] == folders[k];
        }
      }
      InsertKeepsNamesDistinct(SortByName(init), folders[n]);
    }
  }

  /** The folders a deletion of folder `id` keeps. */
  function OtherFolder(id: string): Folder -> bool
  {
    (f: Folder) => f.id != id
  }

  /** Dropping folders keeps the list sorted and its names distinct. */
  lemma FilterKeepsFolderOrder(folders: seq<Folder>, p: Folder -> bool)
    ensures SortedByName(folders) ==> SortedByName(Filter(folders, p))
    ensures NamesDistinct(folders) ==> NamesDistinct(Filter(folders, p))
  {
    if SortedByName(folders) {
      FilterPairwise(folders, p, (a: Folder, b: Folder) => LexLe(SortKey(a), SortKey(b)));
    }
    if NamesDistinct(folders) {
      FilterPairwise(folders, p, (a: Folder, b: Folder) => a.name != b.name);
    }
  }

  /** Adding a folder under a free name and re-sorting keeps names distinct and the list
      sorted, and the new folder is in it. */
  lemma AddFolderKeepsNamesDistinct(folders: seq<Folder>, f: Folder)
    requires NamesDistinct(folders) && !NameTaken(folders, f.name)
    ensures NamesDistinct(SortByName(folders + [f]))
    ensures f in SortByName(folders + [f])
  {
    SortKeepsNamesDistinct(folders + [f]);
    assert f in multiset(folders + [f]);
    assert f in multiset(SortByName(folders + [f]));
  }

  /** Renaming folder `k` to its own name or to a free name and re-sorting keeps the
      names distinct. */
  lemma RenameKeepsNamesDistinct(folders: seq<Folder>, k: nat, name: string)
    requires k < |folders| && NamesDistinct(folders)
    requires name == folders[k].name || !NameTaken(folders, name)
    ensures NamesDistinct(SortByName(folders[k := folders[k].(name := name)]))
  {
    var renamed := folders[k := folders[k].(name := name)];
    forall i, j | 0 <= i < j < |renamed|
      ensures renamed[i].name != renamed[j].name
    {
      if i == k {
        assert renamed[j] == folders[j];
      } else if j == k {
        assert renamed[i] == folders[i];
      }
    }
    SortKeepsNamesDistinct(renamed);
  }
}
