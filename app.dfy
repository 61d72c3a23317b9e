/** The application object: the file list, the folder list and the selected view, and
    the handlers that change them. Dialog answers, the folder-list selection and
    confirmations arrive as parameters; fresh ids are passed in by the caller. */
module App {
  import opened Wrappers
  import opened Text
  import opened Seqs
  import opened FileModel
  import opened Migration

  /** How a folder dialog ended. */
  datatype Outcome =
    | NothingSelected  // no row selected in the folder list
    | SpecialView      // "All Files" or "Uncategorized" selected
    | NotFound         // the selected row stands for no folder
    | Cancelled        // the dialog was dismissed, answered with "", or not confirmed
    | EmptyName        // the answer was only whitespace
    | NameInUse        // another folder already has that name
    | Done

  /** What a folder dialog leaves behind. */
  datatype FolderEdit = FolderEdit(outcome: Outcome, folders: seq<Folder>)

  /** What the selected row of the folder list stands for. */
  datatype RowLookup = NoRow | SpecialRow | MissingRow | FolderRow(k: nat)

  // ---------------------------------------------------------------------------------
  // Folder dialogs as functions of the folder list

  /** The selected row `row` resolved against the folder list. */
  function LookUpRow(folders: seq<Folder>, row: Option<string>): (r: RowLookup)
    ensures r == NoRow <==> row.None?
    ensures r == SpecialRow <==> row.Some? && (row.value == ALL_FILES_ID || row.value == UNCATEGORIZED_ID)
    ensures r == MissingRow <==> (row.Some? && row.value != ALL_FILES_ID && row.value != UNCATEGORIZED_ID &&
      forall j :: 0 <= j < |folders| ==> MakeFolderIid(folders[j].id) != row.value)
    ensures r.FolderRow? ==> (r.k < |folders| && row.Some? && MakeFolderIid(folders[r.k].id) == row.value &&
      forall j :: 0 <= j < r.k ==> MakeFolderIid(folders[j].id) != row.value)
  {
    if row.None? then NoRow
    else if row.value == ALL_FILES_ID || row.value == UNCATEGORIZED_ID then SpecialRow
    else match FindFolderRow(folders, row.value)
      case None => MissingRow
      case Some(k) => FolderRow(k)
  }

  /** How a dialog on a row that is not a folder ends. */
  function RowOutcome(r: RowLookup): Outcome
  {
    match r
    case NoRow => NothingSelected
    case SpecialRow => SpecialView
    case MissingRow => NotFound
    case FolderRow(_) => Done
  }

  /** A new folder under the already stripped, non-empty `name`. */
  function AddNamed(folders: seq<Folder>, name: string, newId: string): FolderEdit
  {
    if NameTaken(folders, name) then FolderEdit(NameInUse, folders)
    else FolderEdit(Done, SortByName(folders + [Folder(newId, name)]))
  }

  /** The "New Folder" dialog answered with `input`. */
  function AddFolder(folders: seq<Folder>, input: Option<string>, newId: string): FolderEdit
  {
    if input.None? || input.value == "" then FolderEdit(Cancelled, folders)
    else
      var name := Strip(input.value);
      if name == "" then FolderEdit(EmptyName, folders)
      else AddNamed(folders, name, newId)
  }

  /** A free name gives a new folder in a still sorted list; a taken one changes
      nothing. */
  lemma AddNamedOutcomes(folders: seq<Folder>, name: string, newId: string)
    ensures var e := AddNamed(folders, name, newId);
      (e.outcome == Done <==> !NameTaken(folders, name)) && (e.outcome != Done ==> e.outcome == NameInUse)
    ensures var e := AddNamed(folders, name, newId);
      e.outcome == Done ==>
        SortedByName(e.folders) && multiset(e.folders) == multiset(folders) + multiset{Folder(newId, name)}
    ensures var e := AddNamed(folders, name, newId); e.outcome != Done ==> e.folders == folders
    ensures NamesDistinct(folders) ==> NamesDistinct(AddNamed(folders, name, newId).folders)
  {
    if !NameTaken(folders, name) && NamesDistinct(folders) {
      AddFolderKeepsNamesDistinct(folders, Folder(newId, name));
    }
  }

  /** Each way the "New Folder" dialog can end, and what it leaves behind. */
  lemma AddFolderOutcomes(folders: seq<Folder>, input: Option<string>, newId: string)
    ensures var e := AddFolder(folders, input, newId);
      (e.outcome == Cancelled <==> input.None? || input.value == "") &&
      (e.outcome == EmptyName <==> input.Some? && input.value != "" && Strip(input.value) == "") &&
      (e.outcome == NameInUse <==> input.Some? && Strip(input.value) != "" && NameTaken(folders, Strip(input.value))) &&
      (e.outcome == Done <==> input.Some? && Strip(input.value) != "" && !NameTaken(folders, Strip(input.value)))
    ensures var e := AddFolder(folders, input, newId);
      e.outcome == Done ==>
        SortedByName(e.folders) &&
        multiset(e.folders) == multiset(folders) + multiset{Folder(newId, Strip(input.value))}
    ensures var e := AddFolder(folders, input, newId); e.outcome != Done ==> e.folders == folders
    ensures NamesDistinct(folders) ==> NamesDistinct(AddFolder(folders, input, newId).folders)
  {
    if input.Some? {
      var name := Strip(input.value);
      if input.value != "" && name != "" {
        AddNamedOutcomes(folders, name, newId);
      }
    }
  }

  /** Folder `k` renamed to the already stripped, non-empty `name`. */
  function RenameNamed(folders: seq<Folder>, k: nat, name: string): FolderEdit
    requires k < |folders|
  {
    if name != folders[k].name && NameTaken(folders, name) then FolderEdit(NameInUse, folders)
    else FolderEdit(Done, SortByName(folders[k := folders[k].(name := name)]))
  }

  /** The "Rename Folder" dialog on row `row`, answered with `input`. */
  function RenameFolder(folders: seq<Folder>, row: Option<string>, input: Option<string>): FolderEdit
  {
    match LookUpRow(folders, row)
    case FolderRow(k) => RenameAnswer(folders, k, input)
    case _ => FolderEdit(RowOutcome(LookUpRow(folders, row)), folders)
  }

  /** The rename dialog on folder `k`, once it has its answer `input`. */
  function RenameAnswer(folders: seq<Folder>, k: nat, input: Option<string>): FolderEdit
    requires k < |folders|
  {
    if input.None? || input.value == "" then FolderEdit(Cancelled, folders)
    else
      var name := Strip(input.value);
      if name == "" then FolderEdit(EmptyName, folders) else RenameNamed(folders, k, name)
  }

  /** Keeping the name or taking a free one renames folder `k` alone; a name another
      folder has changes nothing. */
  lemma RenameNamedOutcomes(folders: seq<Folder>, k: nat, name: string)
    requires k < |folders|
    ensures var e := RenameNamed(folders, k, name);
      (e.outcome == Done <==> name == folders[k].name || !NameTaken(folders, name)) &&
      (e.outcome != Done ==> e.outcome == NameInUse)
    ensures var e := RenameNamed(folders, k, name);
      e.outcome == Done ==>
        SortedByName(e.folders) && multiset(e.folders) == multiset(folders[k := folders[k].(name := name)])
    ensures var e := RenameNamed(folders, k, name); e.outcome != Done ==> e.folders == folders
    ensures NamesDistinct(folders) ==> NamesDistinct(RenameNamed(folders, k, name).folders)
  {
    if (name == folders[k].name || !NameTaken(folders, name)) && NamesDistinct(folders) {
      RenameKeepsNamesDistinct(folders, k, name);
    }
  }

  /** Once folder `k` has its answer, the rename succeeds exactly when the stripped
      answer is non-empty and either the folder's current name or free; a success renames
      that folder alone and keeps the list sorted; anything else changes nothing. */
  lemma RenameAnswerOutcomes(folders: seq<Folder>, k: nat, input: Option<string>)
    requires k < |folders|
    ensures var e := RenameAnswer(folders, k, input);
      e.outcome == Done <==>
        input.Some? && input.value != "" && Strip(input.value) != "" &&
        (Strip(input.value) == folders[k].name || !NameTaken(folders, Strip(input.value)))
    ensures var e := RenameAnswer(folders, k, input);
      e.outcome == Done ==>
        input.Some? && SortedByName(e.folders) &&
        multiset(e.folders) == multiset(folders[k := folders[k].(name := Strip(input.value))])
    ensures var e := RenameAnswer(folders, k, input); e.outcome != Done ==> e.folders == folders
    ensures NamesDistinct(folders) ==> NamesDistinct(RenameAnswer(folders, k, input).folders)
  {
    if input.Some? && input.value != "" {
      var name := Strip(input.value);
      if name != "" {
        RenameNamedOutcomes(folders, k, name);
      }
    }
  }

  /** A rename succeeds exactly when the row is a folder and the stripped answer is
      non-empty and either its current name or free; a row that is not a folder ends
      the dialog before it asks. */
  lemma RenameFolderOutcomes(folders: seq<Folder>, row: Option<string>, input: Option<string>)
    ensures var e := RenameFolder(folders, row, input); var r := LookUpRow(folders, row);
      e.outcome == Done <==>
        r.FolderRow? && input.Some? && input.value != "" && Strip(input.value) != "" &&
        (Strip(input.value) == folders[r.k].name || !NameTaken(folders, Strip(input.value)))
    ensures var e := RenameFolder(folders, row, input);
      !LookUpRow(folders, row).FolderRow? ==> e.outcome == RowOutcome(LookUpRow(folders, row))
  {
    var r := LookUpRow(folders, row);
    if r.FolderRow? {
      RenameAnswerOutcomes(folders, r.k, input);
    }
  }

  /** A successful rename changes only that folder's name and keeps the list sorted; any
      other outcome changes nothing; names stay distinct either way. */
  lemma RenameFolderResult(folders: seq<Folder>, row: Option<string>, input: Option<string>)
    ensures var e := RenameFolder(folders, row, input); var r := LookUpRow(folders, row);
      e.outcome == Done ==>
        r.FolderRow? && input.Some? &&
        SortedByName(e.folders) &&
        multiset(e.folders) == multiset(folders[r.k := folders[r.k].(name := Strip(input.value))])
    ensures var e := RenameFolder(folders, row, input); e.outcome != Done ==> e.folders == folders
    ensures NamesDistinct(folders) ==> NamesDistinct(RenameFolder(folders, row, input).folders)
  {
    var r := LookUpRow(folders, row);
    if r.FolderRow? {
      RenameAnswerOutcomes(folders, r.k, input);
    }
  }

  /** How the delete handler on row `row` ends. */
  function DeleteOutcome(folders: seq<Folder>, row: Option<string>, confirmed: bool): Outcome
  {
    match LookUpRow(folders, row)
    case FolderRow(_) => if confirmed then Done else Cancelled
    case _ => RowOutcome(LookUpRow(folders, row))
  }

  /** A delete goes ahead exactly when the row is a folder and the user confirms. */
  lemma DeleteOutcomes(folders: seq<Folder>, row: Option<string>, confirmed: bool)
    ensures DeleteOutcome(folders, row, confirmed) == Done <==>
      row.Some? && row.value != ALL_FILES_ID && row.value != UNCATEGORIZED_ID &&
      FindFolderRow(folders, row.value).Some? && confirmed
    ensures DeleteOutcome(folders, row, confirmed) in {NothingSelected, SpecialView, NotFound, Cancelled, Done}
  {
  }

  // ---------------------------------------------------------------------------------
  // The selected view after the folder list is rebuilt

  /** Whether the folder list has a row named `row`: the two special views, and
      `folder_<id>` for each folder. */
  predicate RowExists(folders: seq<Folder>, row: string)
  {
    row == ALL_FILES_ID || row == UNCATEGORIZED_ID || FindFolderRow(folders, row).Some?
  }

  /** The view the selection handler switches to when row `row` is selected: the special
      view itself, the first folder with that row, or "All Files". */
  function ViewOfRow(folders: seq<Folder>, row: string): (view: string)
    ensures view == ALL_FILES_ID || view == UNCATEGORIZED_ID ||
      exists k :: 0 <= k < |folders| && folders[k].id == view
  {
    if row == ALL_FILES_ID || row == UNCATEGORIZED_ID then row
    else match FindFolderRow(folders, row)
      case Some(k) => folders[k].id
      case None => ALL_FILES_ID
  }

  /** The view once the folder list is rebuilt, with `selected` the view before and
      `current` the row selected before: `selected` is looked for as a row name, then
      `current`, then "All Files" is taken, and the selection handler runs on that row. */
  function RestoredView(folders: seq<Folder>, selected: string, current: Option<string>): (view: string)
    ensures view == ALL_FILES_ID || view == UNCATEGORIZED_ID ||
      exists k :: 0 <= k < |folders| && folders[k].id == view
  {
    var row :=
      if RowExists(folders, selected) then selected
      else if current.Some? && RowExists(folders, current.value) then current.value
      else ALL_FILES_ID;
    ViewOfRow(folders, row)
  }

  /** Selecting the row of a listed folder switches the view to that folder. */
  lemma FolderRowSelectsFolder(folders: seq<Folder>, k: nat)
    requires k < |folders|
    ensures ViewOfRow(folders, MakeFolderIid(folders[k].id)) == folders[k].id
  {
    var row := MakeFolderIid(folders[k].id);
    assert row[0] == 'f';
    var found := FindFolderRow(folders, row);
    assert found.Some?;
    FolderIidInjective(folders[found.value].id, folders[k].id);
  }

  /** Once a folder is added and the list sorted, selecting its row switches to it. */
  lemma AddedFolderSelected(folders: seq<Folder>, added: Folder)
    ensures ViewOfRow(SortByName(folders + [added]), MakeFolderIid(added.id)) == added.id
  {
    var sorted := SortByName(folders + [added]);
    assert added in multiset(folders + [added]);
    var k :| 0 <= k < |sorted| && sorted[k] == added;
    FolderRowSelectsFolder(sorted, k);
  }

  lemma FolderRowPrefix(id: string)
    ensures "folder_" <= MakeFolderIid(id)
  {
    assert MakeFolderIid(id)[..7] == "folder_";
  }

  /** At start-up no row is selected yet. A saved view on a user folder is looked for
      under the folder's own id, which is no row name, so it falls back to "All Files";
      only the two special views survive. */
  lemma StartupResetsUserFolderView(folders: seq<Folder>, k: nat)
    requires k < |folders|
    requires folders[k].id != ALL_FILES_ID && folders[k].id != UNCATEGORIZED_ID
    requires !("folder_" <= folders[k].id)
    ensures RestoredView(folders, folders[k].id, None) == ALL_FILES_ID
    ensures RestoredView(folders, ALL_FILES_ID, None) == ALL_FILES_ID
    ensures RestoredView(folders, UNCATEGORIZED_ID, None) == UNCATEGORIZED_ID
  {
    forall j | 0 <= j < |folders|
      ensures MakeFolderIid(folders[j].id) != folders[k].id
    {
      FolderRowPrefix(folders[j].id);
    }
  }

  /** The row the rebuild evidently means to look for: `folder_<id>` for a user folder. */
  function IntendedRow(selected: string): string
  {
    if selected == ALL_FILES_ID || selected == UNCATEGORIZED_ID then selected else MakeFolderIid(selected)
  }

  /** The rebuild with the view looked for under its row name. */
  function IntendedRestoredView(folders: seq<Folder>, selected: string, current: Option<string>): (view: string)
    ensures view == ALL_FILES_ID || view == UNCATEGORIZED_ID ||
      exists k :: 0 <= k < |folders| && folders[k].id == view
  {
    var row :=
      if RowExists(folders, IntendedRow(selected)) then IntendedRow(selected)
      else if current.Some? && RowExists(folders, current.value) then current.value
      else ALL_FILES_ID;
    ViewOfRow(folders, row)
  }

  /** With the row name looked for, every saved view on a listed folder, and both special
      views, survive start-up. */
  lemma IntendedStartupKeepsView(folders: seq<Folder>, k: nat)
    requires k < |folders|
    ensures IntendedRestoredView(folders, folders[k].id, None) == folders[k].id
    ensures IntendedRestoredView(folders, ALL_FILES_ID, None) == ALL_FILES_ID
    ensures IntendedRestoredView(folders, UNCATEGORIZED_ID, None) == UNCATEGORIZED_ID
  {
    if folders[k].id != ALL_FILES_ID && folders[k].id != UNCATEGORIZED_ID {
      FolderRowSelectsFolder(folders, k);
    }
  }

  // ---------------------------------------------------------------------------------
  // The application object

  class FileProcessorApp {
    var fileItems: seq<FileItem>
    var folders: seq<Folder>
    /** The selected view; "" stands for no selection. */
    var selectedFolderId: string

    /** What every handler except loading keeps: one entry per path and one folder
        per name. */
    predicate Consistent()
      reads this
    {
      UniquePaths(fileItems) && NamesDistinct(folders)
    }

    /** Start-up: the saved session is read (`None` stands for a missing or unreadable
        state file), then the folder list is built while no row is selected yet. */
    constructor (state: Option<SavedState>, mint: (nat, nat) -> string)
      ensures state.None? ==> fileItems == [] && folders == []
      ensures state.Some? ==>
        folders == state.value.folders.GetOr([]) && fileItems == LoadItems(SavedItems(state.value), mint)
      ensures selectedFolderId ==
        RestoredView(folders, if state.Some? then state.value.selectedFolderId.GetOr(ALL_FILES_ID) else ALL_FILES_ID, None)
    {
      fileItems := [];
      folders := [];
      selectedFolderId := ALL_FILES_ID;
      new;
      LoadAppState(state, mint);
      SyncFolderList(None);
    }

    /** Rebuilding the folder list, with `current` the row selected before. */
    method SyncFolderList(current: Option<string>)
      modifies this
      ensures selectedFolderId == RestoredView(folders, old(selectedFolderId), current)
      ensures fileItems == old(fileItems) && folders == old(folders)
    {
      var selIdToRestore := selectedFolderId;
      if !RowExists(folders, selIdToRestore) {
        if current.Some? && RowExists(folders, current.value) {
          selIdToRestore := current.value;
        } else {
          selIdToRestore := ALL_FILES_ID;
        }
      }
      selectedFolderId := ViewOfRow(folders, selIdToRestore);
    }

    /** The files the selected view shows. */
    function GetDisplayedFileItems(): (shown: seq<FileItem>)
      reads this
      ensures forall it :: it in shown <==> it in fileItems && InView(it, selectedFolderId)
    {
      DisplayedItems(fileItems, selectedFolderId)
    }

    /** The first entry with `path`, if there is one. */
    method GetFileItemByPath(path: string) returns (found: Option<FileItem>)
      ensures found.None? <==> !Listed(fileItems, path)
      ensures found.Some? ==> found.value == fileItems[FirstWithPath(fileItems, path)]
    {
      for k := 0 to |fileItems|
        invariant forall j :: 0 <= j < k ==> fileItems[j].path != path
      {
        if fileItems[k].path == path {
          return Some(fileItems[k]);
        }
      }
      return None;
    }

    /** Adds `filepath` unless it is listed already; the new entry has one empty block
        with id `newBlockId` and belongs to the selected folder, if a folder is selected. */
    method AddFileToList(filepath: string, newBlockId: string) returns (added: bool)
      modifies this
      ensures added <==> !Listed(old(fileItems), filepath)
      ensures fileItems == if added then old(fileItems) + [NewFileItem(filepath, newBlockId, selectedFolderId)]
        else old(fileItems)
      ensures folders == old(folders) && selectedFolderId == old(selectedFolderId)
      ensures old(Consistent()) ==> Consistent()
    {
      var filename := BaseName(filepath);
      var existing := GetFileItemByPath(filepath);
      if existing.Some? {
        return false;
      }
      var fileType := if EndsWith(Lower(filepath), ".pdf") then Pdf else Txt;
      var currentFolderId: Option<string> := None;
      if selectedFolderId != "" && selectedFolderId != ALL_FILES_ID && selectedFolderId != UNCATEGORIZED_ID {
        currentFolderId := Some(selectedFolderId);
      }
      var newFileItem := FileItem(filepath, filename, fileType, [ChapterBlock(newBlockId, "", "")], 0, currentFolderId);
      if UniquePaths(fileItems) {
        AppendUnlistedKeepsUniquePaths(fileItems, newFileItem);
      }
      fileItems := fileItems + [newFileItem];
      return true;
    }

    /** Appends an empty block with id `newBlockId` to the first entry with `path`. */
    method AddChapterBlock(path: string, newBlockId: string) returns (done: bool)
      modifies this
      ensures done <==> Listed(old(fileItems), path)
      ensures fileItems == if done then
          var k := FirstWithPath(old(fileItems), path);
          old(fileItems)[k := old(fileItems)[k].(chapterBlocks := old(fileItems)[k].chapterBlocks + [ChapterBlock(newBlockId, "", "")])]
        else old(fileItems)
      ensures folders == old(folders) && selectedFolderId == old(selectedFolderId)
      ensures old(Consistent()) ==> Consistent()
    {
      var k := 0;
      while k < |fileItems| && fileItems[k].path != path
        invariant k <= |fileItems|
        invariant forall j :: 0 <= j < k ==> fileItems[j].path != path
      {
        k := k + 1;
      }
      if k == |fileItems| {
        return false;
      }
      var fileData := fileItems[k];
      fileItems := fileItems[k := fileData.(chapterBlocks := fileData.chapterBlocks + [ChapterBlock(newBlockId, "", "")])];
      return true;
    }

    /** A full-book total typed into the file list for the first entry with `path`;
        a negative value is refused. */
    method CommitTotalChapters(path: string, newValue: int) returns (committed: bool)
      modifies this
      ensures committed <==> Listed(old(fileItems), path) && newValue >= 0
      ensures fileItems == if committed then
          var k := FirstWithPath(old(fileItems), path);
          old(fileItems)[k := old(fileItems)[k].(totalChaptersForFullBook := newValue)]
        else old(fileItems)
      ensures folders == old(folders) && selectedFolderId == old(selectedFolderId)
      ensures old(Consistent()) ==> Consistent()
    {
      var k := FirstWithPath(fileItems, path);
      if k == |fileItems| {
        return false;
      }
      if newValue < 0 {
        return false;
      }
      fileItems := fileItems[k := fileItems[k].(totalChaptersForFullBook := newValue)];
      return true;
    }

    /** The "New Folder" dialog answered with `input`; the new folder gets `newFolderId`.
        Once it is added, its row is selected, so the view switches to it. */
    method AddFolderDialog(input: Option<string>, newFolderId: string) returns (outcome: Outcome)
      modifies this
      ensures outcome == AddFolder(old(folders), input, newFolderId).outcome
      ensures folders == AddFolder(old(folders), input, newFolderId).folders
      ensures fileItems == old(fileItems)
      ensures outcome == Done ==> selectedFolderId == newFolderId
      ensures outcome != Done ==> selectedFolderId == old(selectedFolderId)
      ensures old(Consistent()) ==> Consistent()
    {
      if input.None? || input.value == "" {
        return Cancelled;
      }
      var folderName := Strip(input.value);
      if folderName == "" {
        return EmptyName;
      }
      outcome := AddNamedFolder(folderName, newFolderId);
    }

    /** The part of the "New Folder" dialog after the name is stripped. */
    method AddNamedFolder(folderName: string, newFolderId: string) returns (outcome: Outcome)
      modifies this
      ensures outcome == AddNamed(old(folders), folderName, newFolderId).outcome
      ensures folders == AddNamed(old(folders), folderName, newFolderId).folders
      ensures fileItems == old(fileItems)
      ensures outcome == Done ==> selectedFolderId == newFolderId
      ensures outcome != Done ==> selectedFolderId == old(selectedFolderId)
      ensures old(Consistent()) ==> Consistent()
    {
      if NameTaken(folders, folderName) {
        return NameInUse;
      }
      var added := Folder(newFolderId, folderName);
      if NamesDistinct(folders) {
        AddFolderKeepsNamesDistinct(folders, added);
      }
      AddedFolderSelected(folders, added);
      folders := SortByName(folders + [added]);
      selectedFolderId := ViewOfRow(folders, MakeFolderIid(newFolderId));
      return Done;
    }

    /** The "Rename Folder" dialog on the selected row `row`, answered with `input`. */
    method RenameFolderDialog(row: Option<string>, input: Option<string>) returns (outcome: Outcome)
      modifies this
      ensures outcome == RenameFolder(old(folders), row, input).outcome
      ensures folders == RenameFolder(old(folders), row, input).folders
      ensures fileItems == old(fileItems) && selectedFolderId == old(selectedFolderId)
      ensures old(Consistent()) ==> Consistent()
    {
      if row.None? {
        return NothingSelected;
      }
      if row.value == ALL_FILES_ID || row.value == UNCATEGORIZED_ID {
        return SpecialView;
      }
      var found := FindFolderRow(folders, row.value);
      if found.None? {
        return NotFound;
      }
      assert LookUpRow(folders, row) == FolderRow(found.value);
      outcome := RenameSelected(found.value, input);
    }

    /** The rename dialog on folder `k` of the list, answered with `input`. */
    method RenameSelected(k: nat, input: Option<string>) returns (outcome: Outcome)
      requires k < |folders|
      modifies this
      ensures outcome == RenameAnswer(old(folders), k, input).outcome
      ensures folders == RenameAnswer(old(folders), k, input).folders
      ensures fileItems == old(fileItems) && selectedFolderId == old(selectedFolderId)
      ensures old(Consistent()) ==> Consistent()
    {
      if input.None? || input.value == "" {
        return Cancelled;
      }
      var newName := Strip(input.value);
      if newName == "" {
        return EmptyName;
      }
      if newName != folders[k].name && NameTaken(folders, newName) {
        return NameInUse;
      }
      if NamesDistinct(folders) {
        RenameKeepsNamesDistinct(folders, k, newName);
      }
      folders := SortByName(folders[k := folders[k].(name := newName)]);
      return Done;
    }

    /** Deletes the folder of the selected row `row` once `confirmed`: its files move to
        Uncategorized, and a view on it falls back to "All Files". */
    method DeleteSelectedFolder(row: Option<string>, confirmed: bool) returns (outcome: Outcome)
      modifies this
      ensures outcome == DeleteOutcome(old(folders), row, confirmed)
      ensures outcome == Done ==>
        var id := old(folders)[LookUpRow(old(folders), row).k].id;
        folders == Filter(old(folders), OtherFolder(id)) &&
        fileItems == RehomeAll(old(fileItems), id) &&
        selectedFolderId == if old(selectedFolderId) == id then ALL_FILES_ID else old(selectedFolderId)
      ensures outcome != Done ==>
        folders == old(folders) && fileItems == old(fileItems) && selectedFolderId == old(selectedFolderId)
      ensures old(Consistent()) ==> Consistent()
    {
      if row.None? {
        return NothingSelected;
      }
      if row.value == ALL_FILES_ID || row.value == UNCATEGORIZED_ID {
        return SpecialView;
      }
      var found := FindFolderRow(folders, row.value);
      if found.None? {
        return NotFound;
      }
      if !confirmed {
        return Cancelled;
      }
      assert LookUpRow(folders, row) == FolderRow(found.value);
      RemoveFolder(folders[found.value].id);
      return Done;
    }

    /** The confirmed part of the delete handler, for the folder with id `id`. */
    method RemoveFolder(id: string)
      modifies this
      ensures folders == Filter(old(folders), OtherFolder(id))
      ensures fileItems == RehomeAll(old(fileItems), id)
      ensures selectedFolderId == if old(selectedFolderId) == id then ALL_FILES_ID else old(selectedFolderId)
      ensures old(Consistent()) ==> Consistent()
    {
      FilterKeepsFolderOrder(folders, OtherFolder(id));
      folders := Filter(folders, OtherFolder(id));
      if UniquePaths(fileItems) {
        RehomeKeepsUniquePaths(fileItems, id);
      }
      fileItems := MoveToUncategorized(fileItems, id);
      if selectedFolderId == id {
        selectedFolderId := ALL_FILES_ID;
      }
    }

    /** Deletes the chosen files and chapter blocks once `confirmed`. */
    method RemoveSelectedTreeItem(targets: seq<DeleteTarget>, confirmed: bool)
      modifies this
      ensures fileItems == if confirmed then Pruned(old(fileItems), targets) else old(fileItems)
      ensures folders == old(folders) && selectedFolderId == old(selectedFolderId)
      ensures old(Consistent()) ==> Consistent()
    {
      if !confirmed {
        return;
      }
      if UniquePaths(fileItems) {
        PrunedKeepsUniquePaths(fileItems, targets);
      }
      fileItems := PruneList(fileItems, targets);
    }

    /** Restores a saved session, or starts afresh when there is none (`None` stands for
        a missing or unreadable state file). */
    method LoadAppState(state: Option<SavedState>, mint: (nat, nat) -> string)
      modifies this
      ensures state.None? ==> fileItems == [] && folders == [] && selectedFolderId == ALL_FILES_ID
      ensures state.Some? ==>
        folders == state.value.folders.GetOr([]) &&
        selectedFolderId == state.value.selectedFolderId.GetOr(ALL_FILES_ID) &&
        fileItems == LoadItems(SavedItems(state.value), mint)
    {
      if state.None? {
        fileItems := [];
        folders := [];
        selectedFolderId := ALL_FILES_ID;
        return;
      }
      folders := state.value.folders.GetOr([]);
      selectedFolderId := state.value.selectedFolderId.GetOr(ALL_FILES_ID);
      fileItems := LoadList(SavedItems(state.value), mint);
    }

    /** The state the application writes on every change. Reading it back gives the file
        list, whatever ids are on offer, the folders and the selected view. */
    function SaveAppState(): (state: SavedState)
      reads this
      ensures forall mint :: LoadItems(SavedItems(state), mint) == fileItems
      ensures state.folders.GetOr([]) == folders && state.selectedFolderId.GetOr(ALL_FILES_ID) == selectedFolderId
    {
      var state := SavedState(Some(folders), Some(selectedFolderId), Some(SaveItems(fileItems)), None);
      assert forall mint :: LoadItems(SavedItems(state), mint) == fileItems by {
        forall mint: (nat, nat) -> string {
          LoadAfterSave(fileItems, mint);
        }
      }
      state
    }

    /** Closing and starting again: the state is saved, then read back by the start-up,
        where no row of the folder list is selected yet. Files and folders come back; the
        view is what the rebuild restores from the saved one. */
    method Restart(mint: (nat, nat) -> string)
      modifies this
      ensures fileItems == old(fileItems) && folders == old(folders)
      ensures selectedFolderId == RestoredView(old(folders), old(selectedFolderId), None)
      ensures old(Consistent()) ==> Consistent()
    {
      var state := SaveAppState();
      LoadAppState(Some(state), mint);
      SyncFolderList(None);
    }
  }

  // ---------------------------------------------------------------------------------
  // The loops of the handlers

  /** The loop of the delete handler: every file of folder `id` goes to Uncategorized. */
  method MoveToUncategorized(items: seq<FileItem>, id: string) returns (moved: seq<FileItem>)
    ensures moved == RehomeAll(items, id)
  {
    moved := items;
    ghost var target := RehomeAll(items, id);
    for k := 0 to |moved|
      invariant |moved| == |items|
      invariant forall j :: 0 <= j < k ==> moved[j] == target[j]
      invariant forall j :: k <= j < |moved| ==> moved[j] == items[j]
    {
      if moved[k].folderId == Some(id) {
        moved := moved[k := moved[k].(folderId := None)];
      }
    }
  }

  /** The loop of the remove handler: chosen files are skipped, the others lose their
      chosen blocks. */
  method PruneList(items: seq<FileItem>, targets: seq<DeleteTarget>) returns (newList: seq<FileItem>)
    ensures newList == Pruned(items, targets)
  {
    newList := [];
    for k := 0 to |items|
      invariant newList == Pruned(items[..k], targets)
    {
      var fileModel := items[k];
      PrunedPrefixStep(items, k, targets);
      if FileTarget(fileModel.path) !in targets {
        var kept := Filter(fileModel.chapterBlocks, BlockKept(fileModel.path, targets));
        newList := newList + [fileModel.(chapterBlocks := kept)];
      }
    }
    assert items[..|items|] == items;
  }

  /** The loop of the load handler: each saved item gets its defaults, and those of an
      unknown type are dropped. */
  method LoadList(loadedItems: seq<SavedItem>, mint: (nat, nat) -> string) returns (items: seq<FileItem>)
    ensures items == LoadItems(loadedItems, mint)
  {
    items := [];
    for i := 0 to |loadedItems|
      invariant items == LoadItems(loadedItems[..i], mint)
    {
      var migrated := MigrateItem(loadedItems[i], i, mint);
      if migrated.Some? {
        items := items + [migrated.value];
      }
      LoadPrefixStep(loadedItems, i, mint);
    }
    assert loadedItems[..|loadedItems|] == loadedItems;
  }
}
