# AI Studio automator: a verified model of its data logic

`ai_studio_automator.py` is a desktop tool for organising PDF and TXT files into folders. Each file can carry
"chapter blocks", each with a name and optionally a page selection. The tool sends per-chapter or
per-file prompts to a browser-based assistant by pasting and typing. This project is a Dafny model of
the parts of that program that are logic rather than user interface:

- **Page selections** (`parse_complex_page_range_string`): a string such as `"1, 3-5, 9-7"` denotes a set
  of pages. The parser returns the set in increasing order.
- **The full-book loop**: chapter indices `0 .. total-1` are sent three at a time.
- **Prompts**: the chapter label is built from a file's chapter blocks
  (`_get_chapters_text_for_template`). It is put in place of `{CHAPTERS}` in a prompt template
  (`_prepare_instructional_prompt`).
- **The file list and the folder list** (class `FileProcessorApp`). This covers:
  - the folder views;
  - adding files and chapter blocks;
  - removing files or single blocks;
  - the folder dialogs (add, rename, delete), which keep the list sorted by lower-cased name with
    unique names;
  - committing a full-book chapter total;
  - saving and loading the session, including the migration of legacy `page_start`/`page_end` blocks.
- **PDF text selection** (`extract_text_from_file`, PDF branch): which page texts are taken for a
  page list, and how they are joined.

Modules:

- `Wrappers`: `Option`.
- `Text`: Python's `strip`, `split`, `join`, `str(n)` and `int(s)` on digits, `lower` and string order.
- `Seqs`: filtering, ranges and sorting a set.
- `Substitution`: `in`, `split` and `replace` with a string pattern.
- `PageRanges`: the parser.
- `Chunks`: the full-book groups.
- `Prompts`: the label, the substitution and the full-book prompt run.
- `FileModel`: the data types and the value-level rules for files and folders.
- `Migration`: saved state and its defaults.
- `App`: the application object and its handlers, with each folder dialog also stated as a function.
- `PdfPages`: page-text selection.

Each handler that changes state is a method of `App.FileProcessorApp`:

- Each one states its new state in terms of a function of the old state.
- Each one except loading keeps the invariant `Consistent()`: one entry per path and one folder per name. Loading cannot promise it, because a state file may list a path twice.

Dialog answers, the selected row, confirmations and fresh uuids are parameters. Each loop of the source
is a method with invariants, proved equal to a function; the properties are lemmas about that function.

## Model

| member | source | states |
|---|---|---|
| PageRanges.ParseComplexPageRangeString | ai_studio_automator.py:80-103 | the result is strictly increasing (so sorted and duplicate-free), and a page is in it exactly when it is in the page set the selection denotes |
| PageRanges.AddPartPages | ai_studio_automator.py:85-102 | one pass over a part adds exactly that part's pages to the set collected so far |
| PageRanges.AddPageSpan | ai_studio_automator.py:97-101 | a range adds every page from the smaller to the larger endpoint when both are positive, and nothing otherwise |
| PageRanges.ClassifyPage | ai_studio_automator.py:88-90 | a stripped part counts as a single page exactly when it is a non-empty run of digits, and the page is the run's value |
| PageRanges.ClassifySpanComplete | ai_studio_automator.py:94-98 | every string of the form digits, white space, `-`, white space, digits is read as that range |
| PageRanges.ClassifySpanSound | ai_studio_automator.py:94-98 | every part read as a range has that form, and the two digit groups are its endpoints |
| PageRanges.BlankSelectsNothing | ai_studio_automator.py:81-82 | an empty or all-white-space selection gives no pages |
| PageRanges.PagesArePositive | ai_studio_automator.py:91-101 | every selected page is at least 1 |
| PageRanges.NumberSelectsPage | ai_studio_automator.py:88-91 | a number selects its page, and the number 0 selects nothing |
| PageRanges.RangeSelectsSpan | ai_studio_automator.py:94-101 | `a-b` with both ends positive selects exactly the pages from min(a,b) to max(a,b) |
| PageRanges.RangeEitherDirection | ai_studio_automator.py:100 | `a-b` and `b-a` select the same pages |
| PageRanges.CommaIsUnion | ai_studio_automator.py:84-85 | the pages of `a,b` are the pages of `a` together with those of `b` |
| PageRanges.DroppedPartIgnored | ai_studio_automator.py:86-99 | a part that is blank, malformed, page 0 or a range with an endpoint 0 adds nothing |
| PageRanges.OuterStripRedundant | ai_studio_automator.py:81-86 | stripping the whole selection before splitting changes no page |
| PageRanges.PartsPagesStripwise | ai_studio_automator.py:86 | the pages depend only on each part after stripping |
| PageRanges.SinglePart | ai_studio_automator.py:84-86 | a selection without a comma is one part |
| Text.StripIsCore | ai_studio_automator.py:86 | `strip()` returns the slice whose outside is all white space and whose ends are not white space |
| Text.StripIdempotent | ai_studio_automator.py:86 | stripping twice is stripping once |
| Text.StripBlank | ai_studio_automator.py:87 | `strip()` gives the empty string exactly for blank strings |
| Text.JoinSplit | ai_studio_automator.py:84 | joining the comma-split parts with commas gives the string back |
| Text.Decimal | ai_studio_automator.py:732 | `str(n)` is a digit string with value n and no leading zero |
| Seqs.SortedElements | ai_studio_automator.py:103 | `sorted(list(s))` lists exactly the set's elements in strictly increasing order |
| Chunks.FullBookChunks | ai_studio_automator.py:811-820 | for a positive total there are (total+2)/3 groups, each with 1 to 3 indices, group k being k*3 up to min(k*3+3, total), and together they are 0..total-1 in order; a total of 0 or less gives none |
| Prompts.PrepareInstructionalPrompt | ai_studio_automator.py:711-715 | the prompt is the template's pieces between the `{CHAPTERS}` occurrences, joined by the label |
| Prompts.FillsEveryPlaceholder | ai_studio_automator.py:711-715 | a template made of pieces around placeholders becomes those pieces around the label |
| Prompts.PlaceholderBorderless | ai_studio_automator.py:66 | `{CHAPTERS}` cannot overlap itself, so every occurrence is replaced |
| Prompts.ChaptersTextForTemplate | ai_studio_automator.py:717-735 | the label is the stripped block text or "Unspecified Chapter" for one chapter, one name per index joined by ", " (or "Specified Chapters" for no index) for a full-book group, and "Entire File" otherwise |
| Prompts.FullBookChapterNames | ai_studio_automator.py:724-732 | the loop collects one name per index, in index order |
| Prompts.NameOfChapter | ai_studio_automator.py:728-732 | a chapter's name is its block's text when the block exists and is not blank, else its number counted from 1 |
| Prompts.ChapterNameFallback | ai_studio_automator.py:730-732 | an unnamed chapter is called by the digits of its 1-based number, without a leading zero |
| Prompts.ChapterNamesAt | ai_studio_automator.py:726-732 | the k-th name is the name of the k-th index |
| Prompts.SingleChapterLabel | ai_studio_automator.py:718-721 | a single-chapter label is never blank, and is the block's stripped text when that is not empty |
| Prompts.FullBookLabelListsNames | ai_studio_automator.py:733 | when no block text contains ", ", splitting a full-book label at ", " gives back the names, one per index |
| Prompts.UnnamedGroupLabel | ai_studio_automator.py:815-822 | when no block text names a chapter (no blocks, or only white-space texts), a full group k is labelled "3k+1, 3k+2, 3k+3" |
| Prompts.GroupIndices | ai_studio_automator.py:816-818 | index j of group k is k*3+j |
| Prompts.FullBookFiles | ai_studio_automator.py:795 | the batch run visits, in list order, exactly the displayed files whose chapter total is positive, each as often as it is listed |
| Prompts.FullBookPrompts | ai_studio_automator.py:944-969 | no prompt without a template or a positive total; otherwise one prompt per group, in order, each being the template filled with that group's label |
| FileModel.DisplayedItems | ai_studio_automator.py:332-336 | the view is an order-preserving subsequence of the file list that keeps exactly the files the selection shows, with their multiplicities: all, those without folder, those of the selected folder, or none without a selection |
| FileModel.PdfSuffixAnyCase | ai_studio_automator.py:465 | a path is a PDF exactly when it ends in `.pdf` in any mix of cases |
| FileModel.BaseName | ai_studio_automator.py:463 | the file name is the path's tail after its last `/` |
| FileModel.NewFileInCurrentView | ai_studio_automator.py:466-468 | a new file belongs to the view it was added from, unless no view is selected |
| FileModel.AppendedToView | ai_studio_automator.py:469 | appending a file appends it to exactly the views that show it |
| FileModel.FirstWithPath | ai_studio_automator.py:349-352 | the position of the first entry with the path, or the length exactly when no entry has it |
| FileModel.AppendUnlistedKeepsUniquePaths | ai_studio_automator.py:464-469 | appending a path not listed yet keeps paths unique |
| FileModel.RehomeAll | ai_studio_automator.py:297-298 | the files of the deleted folder lose their folder; nothing else about any file changes |
| FileModel.DeletedFolderViewEmpty | ai_studio_automator.py:297-298 | once a folder is deleted, its view is empty |
| FileModel.OtherFolderViewUnchanged | ai_studio_automator.py:297-298 | deleting a folder leaves every other folder's view as it was |
| FileModel.UncategorizedGainsFolder | ai_studio_automator.py:297-298 | afterwards Uncategorized shows, in list order, the files that were uncategorized or in the deleted folder |
| FileModel.RehomeKeepsUniquePaths | ai_studio_automator.py:297-298 | moving files between folders keeps paths unique |
| FileModel.PrunedRemovesTargets | ai_studio_automator.py:502-507 | no chosen file and no chosen block is left |
| FileModel.PrunedKeepsOthers | ai_studio_automator.py:502-507 | every file not chosen is kept, minus its chosen blocks |
| FileModel.PrunedFromItems | ai_studio_automator.py:502-507 | every file left is a file of the list, minus its chosen blocks |
| FileModel.PrunedKeepsUniquePaths | ai_studio_automator.py:502-507 | removing keeps paths unique |
| FileModel.PrunedIdempotent | ai_studio_automator.py:502-507 | removing the same items again changes nothing |
| FileModel.PrunedNothing | ai_studio_automator.py:502-507 | removing nothing changes nothing |
| FileModel.FolderIidInjective | ai_studio_automator.py:77-78 | different folder ids give different folder rows |
| FileModel.FindFolderRow | ai_studio_automator.py:274 | the first folder whose row is the selected one, or none when no folder has it |
| FileModel.SortByName | ai_studio_automator.py:262 | sorting by lower-cased name gives a sorted permutation |
| FileModel.InsertByName | ai_studio_automator.py:262 | inserting into a sorted list gives a sorted list with exactly one more folder |
| FileModel.SortKeepsNames | ai_studio_automator.py:262 | sorting keeps the set of names taken |
| FileModel.SortKeepsNamesDistinct | ai_studio_automator.py:262 | sorting keeps names distinct |
| FileModel.FilterKeepsFolderOrder | ai_studio_automator.py:296 | dropping folders keeps the list sorted and its names distinct |
| FileModel.AddFolderKeepsNamesDistinct | ai_studio_automator.py:259-262 | adding a folder under a free name keeps names distinct, and the folder is in the new list |
| FileModel.RenameKeepsNamesDistinct | ai_studio_automator.py:280-282 | renaming to the folder's own name or a free name keeps names distinct |
| FileModel.FileOfRow | ai_studio_automator.py:430-433 | the first file whose row id is the given one, or none |
| FileModel.FileRowsCollide | ai_studio_automator.py:71-72 | the paths "a b.pdf" and "a_b.pdf" have the same file row, and that row resolves to the first of them |
| FileModel.PathFindsItsFile | ai_studio_automator.py:349-352 | with unique paths, looking a file up by its path finds that very file |
| Migration.LegacyRangeSelectsPages | ai_studio_automator.py:649-651 | the string made from a legacy pair selects exactly its pages: the span for two different positive numbers, the first page when only it is positive (or both are equal), nothing when the first is not positive |
| Migration.BareItemDefaults | ai_studio_automator.py:643-646 | an item saved with only path and name loads with the type its path implies, no blocks, total 0 and no folder |
| Migration.MigrateBlock | ai_studio_automator.py:647-651 | a block without a page-range string gets one that selects exactly the pages of its legacy pair |
| Migration.MigrateBlocks | ai_studio_automator.py:647-651 | each block keeps its position, its text, a saved id and a saved page-range string; a missing id becomes the one on offer, and a missing page-range string becomes one selecting exactly the legacy pair's pages |
| Migration.LoadKeepsKnownTypes | ai_studio_automator.py:652 | loading keeps exactly the items of type "pdf" or "txt", in saved order |
| Migration.LoadSavedItem | ai_studio_automator.py:630-652 | an item the application saved loads back unchanged |
| Migration.LoadAfterSave | ai_studio_automator.py:630-652 | loading a saved file list, one record per file in order, gives the same list |
| App.LookUpRow | ai_studio_automator.py:270-275 | the selected row is none, a special view, missing, or the first folder with that row, each exactly in its case |
| App.AddNamedOutcomes | ai_studio_automator.py:259-262 | a free name adds the folder to a still sorted list; a taken name changes nothing |
| App.AddFolderOutcomes | ai_studio_automator.py:255-262 | the "New Folder" dialog ends cancelled, empty name, name in use or done, each exactly in its case, and only done changes the list |
| App.RenameNamedOutcomes | ai_studio_automator.py:280-282 | keeping the name or taking a free one renames that folder alone and re-sorts; a name another folder has changes nothing |
| App.RenameAnswerOutcomes | ai_studio_automator.py:277-282 | once asked, a rename succeeds exactly for a non-blank answer that is the folder's name or free |
| App.RenameFolderOutcomes | ai_studio_automator.py:269-282 | a rename succeeds exactly for a folder row and such an answer; other rows end before asking |
| App.RenameFolderResult | ai_studio_automator.py:269-282 | a successful rename renames only the chosen folder and keeps the list sorted; any other outcome changes nothing; names stay distinct |
| App.DeleteOutcomes | ai_studio_automator.py:287-294 | a delete goes ahead exactly for a folder row the user confirms |
| App.ViewOfRow | ai_studio_automator.py:318-327 | selecting a row always gives "All Files", "Uncategorized" or the id of a listed folder |
| App.RestoredView | ai_studio_automator.py:302-316 | once the folder list is rebuilt, the view is "All Files", "Uncategorized" or the id of a listed folder |
| App.FolderRowSelectsFolder | ai_studio_automator.py:318-327 | selecting a listed folder's row switches the view to that folder |
| App.AddedFolderSelected | ai_studio_automator.py:260-266 | selecting the row of a newly added folder, after sorting, switches to that folder |
| App.StartupResetsUserFolderView | ai_studio_automator.py:131-134 | at start-up a saved view on a user folder falls back to "All Files", and the special views survive |
| App.IntendedStartupKeepsView | ai_studio_automator.py:310-311 | looked for under its row name, every saved view on a listed folder, and both special views, survive start-up |
| App.FileProcessorApp.constructor | ai_studio_automator.py:121-134 | start-up reads the saved session (without one: no files, no folders) and then rebuilds the folder list with no row selected |
| App.FileProcessorApp.SyncFolderList | ai_studio_automator.py:302-327 | the rebuild sets the view to the restored one and changes nothing else |
| App.FileProcessorApp.GetDisplayedFileItems | ai_studio_automator.py:332-336 | a file is shown exactly when it is listed and the selected view shows it |
| App.FileProcessorApp.GetFileItemByPath | ai_studio_automator.py:349-352 | none exactly when no entry has the path, else the first entry with it |
| App.FileProcessorApp.AddFileToList | ai_studio_automator.py:462-470 | a listed path is refused; otherwise the new entry is appended with one empty block, total 0 and the selected folder; paths stay unique |
| App.FileProcessorApp.AddChapterBlock | ai_studio_automator.py:478-481 | an empty block is appended to the first entry with the path, and to nothing else |
| App.FileProcessorApp.CommitTotalChapters | ai_studio_automator.py:408-414 | a negative total is refused; otherwise the entry's total is set |
| App.FileProcessorApp.AddFolderDialog | ai_studio_automator.py:254-266 | outcome and new folder list are those of the add dialog's function; files are untouched; a successful add switches the view to the new folder, and any other outcome keeps the view |
| App.FileProcessorApp.AddNamedFolder | ai_studio_automator.py:259-266 | for a stripped name, the outcome and the list are those of the named add, and a success selects the new folder |
| App.FileProcessorApp.RenameFolderDialog | ai_studio_automator.py:269-282 | outcome and new folder list are those of the rename dialog's function |
| App.FileProcessorApp.RenameSelected | ai_studio_automator.py:276-282 | for a resolved folder row, outcome and new list are those of the answer |
| App.FileProcessorApp.DeleteSelectedFolder | ai_studio_automator.py:287-299 | on a confirmed folder row the folder is dropped, its files move to Uncategorized and a view on it falls back to All Files; otherwise nothing changes |
| App.FileProcessorApp.RemoveFolder | ai_studio_automator.py:295-299 | the confirmed deletion of one folder, as above |
| App.FileProcessorApp.RemoveSelectedTreeItem | ai_studio_automator.py:491-507 | once confirmed the file list is the pruned list; declining changes nothing |
| App.FileProcessorApp.LoadAppState | ai_studio_automator.py:635-654 | a missing or unreadable state starts empty on All Files; otherwise folders, view and file list come from the state with their defaults |
| App.FileProcessorApp.SaveAppState | ai_studio_automator.py:629-630 | reading the saved state back gives the file list, whatever ids are on offer, the folders and the selected view |
| App.FileProcessorApp.Restart | ai_studio_automator.py:131-134 | saving and starting again restores files and folders; the view is what the start-up rebuild makes of the saved one, so a user folder's view becomes "All Files" |
| App.MoveToUncategorized | ai_studio_automator.py:297-298 | the loop gives exactly the re-homed list |
| App.PruneList | ai_studio_automator.py:502-507 | the loop gives exactly the pruned list |
| App.LoadList | ai_studio_automator.py:642-652 | the loop gives exactly the loaded list |
| PdfPages.ExtractPdfPages | ai_studio_automator.py:566-577 | the text taken for a page list, page by page, equals the specification of what is taken |
| PdfPages.RequestedTextsFromPages | ai_studio_automator.py:571-575 | every text taken is the non-empty text of a requested page that exists |
| PdfPages.OutOfRangeIgnored | ai_studio_automator.py:572-576 | page numbers outside the file are skipped: dropping them changes nothing |
| PdfPages.NoValidPageGivesNothing | ai_studio_automator.py:569-577 | a list naming no page of the file gives the empty text |
| PdfPages.FirstPagesTexts | ai_studio_automator.py:570-575 | asking for pages 1 to m takes the texts of the first m pages that have text |
| PdfPages.NoListMeansEveryPage | ai_studio_automator.py:566-568 | no page list gives the same text as listing every page |

## Left out

- The Tkinter user interface is not modelled: widgets, the file list's rows and their open states, scroll positions, message boxes and context menus. The selected row and the user's answers are parameters. What the folder-list rebuild and its selection handler do to the selected view is modelled.
- The rename and delete handlers do not re-apply the folder-list rebuild. The model takes the view to be in step with the selected row, as the selection handler keeps it, and then the rebuild leaves the view as the model states it.
- `_commit_in_tree_edit` is modelled only for the full-book total, which refuses negative values. Block text and page-string edits need the edit widget. A non-integer answer is an `int()` parse error of the widget text.
- The automation is outside the model because it acts on another program: the clipboard, PowerShell `Set-Clipboard`, pyautogui keystrokes, `webbrowser`, `time.sleep` and the per-chapter task loop.
- The PyPDF2 reader is abstract: `pages[i]` is what it extracts from page i, with a missing text counted as "". Reading TXT files and the encoding fallbacks are file I/O.
- JSON reading and writing of the state file and of the prompt templates are file I/O. A missing or unreadable state file is `None`. The loaded values are already typed, so the `isinstance` checks of the full-book guard are not modelled.
- `handle_drop` is not modelled: its path list comes in the drag-and-drop library's wire format.
- The model removes a file's tree row by its path rather than by its `make_file_iid` row id, because that id is not injective (see Findings).
- `get_chapter_block_from_iid` is not modelled: it reads block ids back from tree ids. Deletion targets and block additions are given by path and block id.
- uuids are parameters. `mint(i, j)` is the id offered to block j of saved item i when it has none.
- Digits are ASCII only. Python's `\d` and `int()` also accept other Unicode decimal digits, and CPython limits `int()` to 4300 digits.
- Text.Lower: `Lower` lower-cases ASCII letters only, whereas Python's `str.lower()` covers all of Unicode.
- `os.path.basename` uses `/` only; Windows `\` separators are left out.
- FileModel.SortByName: it is proved sorted and a permutation, but not proved stable like Python's `sort`. Its insertion does keep equal keys in order.
- Dictionaries shared by reference between the list and the tree are not modelled; every update is stated on values.
- Text.Strip: the white-space set is Python's `str.isspace()` set, and `\s` in the range expression is taken to be the same set.

## Findings

| source | as written | input that shows it | evidently intended | confidence | as-written member | corrected member |
|---|---|---|---|---|---|---|
| ai_studio_automator.py:71-72 | a file's tree row id replaces space, `/`, `:` and `.` by `_`, and lookups take the first file with that row id (430-433) | files "a b.pdf" and "a_b.pdf" both get the row `file_a_b_pdf`. A view showing both fails on the second insert (521), which Tk refuses as a duplicate row, so the rebuild stops there. A view showing only the second file gives it a row whose actions reach the first file | each row stands for its own file | medium, not executed | FileModel.FileRowsCollide | FileModel.PathFindsItsFile |
| ai_studio_automator.py:310-311 | the rebuild looks for the saved view under the folder's raw id, while folder rows are named `folder_<id>` (77-78) | save while viewing folder "abc" and start again: no row is selected yet at start-up (131-134), so the view becomes "All Files" | the saved folder view is restored | medium, not executed | App.StartupResetsUserFolderView | App.IntendedStartupKeepsView |
