# PDF page selector and merger: a Dafny model

This project models the logic behind a desktop tool. The tool shows every page of every PDF file in a folder, lets the user build an ordered list of pages, and writes those pages, in that order, into one merged PDF. The model covers that logic in `PDFPageSelector` and the drag-to-reorder listbox `DragDropListbox`. Window layout and the PDF library are not modelled.

The state is a class, `Selector.PdfPageSelector`, with these fields:

- the catalog `allPages`, and the left listbox that shows it;
- the ordered merge list `selectedPages`;
- the right listbox, a `Listbox.DragDropListbox` with its labels and its pressed position;
- the create button's enabled flag;
- the status line;
- the input and output paths.

Each button handler is a method. Each method states its new state as a function of its old state:

- `Selection.Added` for adding;
- `ListEdits.Kept` for removing;
- `ListEdits.Swap` for moving up and down;
- `ListEdits.Reposition` for a drag;
- `Pages.Catalog` for loading a folder.

Lemmas beside those functions prove what the program promises: only appends, no duplicates, idempotence, exact removal, length n − k, a restoring move pair, catalog order and size. `Valid()` is kept by every operation, including a drag as the window handles it. It says four things:

- the left listbox shows the catalog;
- the right listbox has one label per list entry;
- the list has no duplicate (path, page number);
- the button is enabled exactly when an output file is chosen and the list is not empty.

`Mirrored()` says that the right listbox shows the list's labels in the list's order. Every operation keeps it except a drag.

Inputs from outside the program are parameters:

- the sorted result of globbing the folder is a sequence of `Pages.PdfFile`, each one either unreadable or its bytes and page count;
- the positions chosen in a listbox (`curselection()`);
- the listbox position under the cursor (`nearest(y)`);
- whether the PDF library and the file write succeed.

Behaviour of the code that the model keeps:

- the status line counts every globbed file, including the ones that could not be read (line 218);
- a missing input folder globs to no files, so the status reports that no PDF files were found (lines 184-188);
- move up and move down act on the first chosen position (lines 262, 279);
- a drag does not reorder the merge list (see Findings).

The status line is modelled as its text: `Selector.StatusText` renders each status as the window shows it.

## Model

| member | source | states |
|---|---|---|
| Decimal.NatToString | pdf_transformer.py:207 | the page number or count is rendered as at least one decimal digit with no leading zero |
| Decimal.ValueOfNatToString | pdf_transformer.py:207 | reading a rendered number back gives the number, so labels and status counts show the true values |
| Decimal.NatToStringInjective | pdf_transformer.py:207 | different numbers are rendered differently |
| Pages.DisplayName | pdf_transformer.py:207 | the label of page n is the file stem, " - Page " and the numeral of n |
| Pages.DisplayNameDeterminesPage | pdf_transformer.py:207 | within one file, the label "<stem> - Page <n>" determines n |
| Pages.MakePage | pdf_transformer.py:200-208 | the page_info record of page n: source path, whole content, page_number n, page_index n - 1, the label |
| Pages.FilePages | pdf_transformer.py:200-213 | a file that was read contributes its pages 1..count in order; an unreadable file contributes none |
| Pages.Catalog | pdf_transformer.py:190-213 | the files in sorted order, each contributing its pages in order |
| Pages.TotalPages | pdf_transformer.py:213 | the sum of the page counts of the files that were read |
| Pages.SameKey | pdf_transformer.py:234-235 | two pages are duplicates exactly when they have the same file path and the same page number |
| Pages.CatalogLength | pdf_transformer.py:190-213 | the catalog has exactly as many entries as the readable files have pages |
| Pages.CatalogStep | pdf_transformer.py:191-209 | one file more extends the catalog by exactly that file's pages, in document order |
| Pages.CatalogEntryOrigin | pdf_transformer.py:200-209 | every catalog entry is page n of some readable input file, with that file's path and content, page_index = n - 1 and label built from its stem |
| Pages.CatalogComplete | pdf_transformer.py:191-213 | every page of every readable file appears in the catalog |
| Pages.CatalogOrdered | pdf_transformer.py:184-209 | with the files in path order, the catalog is ordered by path and then by page number |
| Pages.CatalogKeysUnique | pdf_transformer.py:184-209 | with distinct file paths, no two catalog entries share (path, page number) |
| Pages.SortedPathsDistinct | pdf_transformer.py:184 | sorted globbed paths are pairwise distinct |
| ListEdits.Delete | pdf_transformer.py:251-252 | deleting a position shifts the later entries down by one and keeps the earlier ones |
| ListEdits.Insert | pdf_transformer.py:36 | inserting puts the item at the position and shifts the later entries up by one |
| ListEdits.Swap | pdf_transformer.py:264-265 | the tuple exchange of two positions, used by move up here and by move down at lines 281-282 |
| ListEdits.SwapFacts | pdf_transformer.py:264-265 | an exchange moves only the two entries and keeps the length and the multiset of entries |
| ListEdits.SwapTwice | pdf_transformer.py:281-282 | exchanging the same two positions again restores the list |
| ListEdits.Reposition | pdf_transformer.py:32-36 | take the entry out at the pressed position and insert it at the drop position |
| ListEdits.RepositionFacts | pdf_transformer.py:32-36 | a drag puts the moved entry at the drop position, keeps the length and the multiset, and leaves the other entries in their order |
| ListEdits.RepositionInPlace | pdf_transformer.py:30 | dropping where the entry was picked up would change nothing |
| ListEdits.RepositionNeighbour | pdf_transformer.py:268-270 | the listbox's delete-then-insert one position away is the same exchange as the list's swap |
| ListEdits.Kept | pdf_transformer.py:249-252 | the entries whose positions are not chosen, in their original order |
| ListEdits.DeleteKept | pdf_transformer.py:249-252 | deleting position i after only higher positions were deleted is removing i as well, so high-to-low deletion keeps later positions valid |
| ListEdits.RemoveStep | pdf_transformer.py:250-252 | one pass of the reversed loop: with the later chosen positions already deleted, deleting the next one removes it as well |
| ListEdits.KeptLength | pdf_transformer.py:244-252 | removing k distinct in-range positions from n entries leaves n - k entries |
| ListEdits.MapAppend | pdf_transformer.py:237-238 | the labels of a concatenation are the concatenated labels |
| ListEdits.MapKept | pdf_transformer.py:251-252 | removing positions from the list and from its labels gives matching results |
| ListEdits.MapSwap | pdf_transformer.py:264-271 | exchanging entries in the list and in its labels gives matching results |
| ListEdits.MapReposition | pdf_transformer.py:32-36 | moving an entry in the list and in its labels gives matching results |
| Selection.KeyIn | pdf_transformer.py:234-236 | the `any(...)` test: some entry of the list has the page's file path and page number |
| Selection.Picked | pdf_transformer.py:231-232 | the catalog entries at the chosen positions, in the order chosen |
| Selection.Added | pdf_transformer.py:231-237 | the list after offering each chosen entry in turn, appending it only when no entry has its (path, page number) |
| Selection.AddedOnlyAppends | pdf_transformer.py:231-238 | adding keeps the old list as a prefix and appends only chosen entries whose (path, page number) was not yet present |
| Selection.AddedStep | pdf_transformer.py:231-237 | offering one chosen page more appends it exactly when its (path, page number) is not yet in the list |
| Selection.AddedCovers | pdf_transformer.py:231-237 | afterwards every chosen catalog page's (path, page number) is in the list |
| Selection.AddedKeepsDistinct | pdf_transformer.py:233-237 | a list without duplicate keys stays without them |
| Selection.AddedNothingNew | pdf_transformer.py:233-236 | offering only pages already present changes nothing |
| Selection.AddedIdempotent | pdf_transformer.py:224-240 | repeating an add with the same chosen pages adds nothing |
| Selection.DeleteKeepsDistinct | pdf_transformer.py:251 | deleting an entry keeps the list free of duplicate keys |
| Selection.SwapKeepsDistinct | pdf_transformer.py:264-265 | exchanging two entries keeps the list free of duplicate keys |
| Selection.RepositionKeepsDistinct | pdf_transformer.py:32-36 | moving one entry keeps the list free of duplicate keys |
| Merge.CanCreate | pdf_transformer.py:292 | creating is possible exactly when an output path is set and the list is not empty |
| Merge.RefOf | pdf_transformer.py:313-314 | a written page is the stored content of its file together with its page_index |
| Merge.InListOrder | pdf_transformer.py:311-315 | the written pages are the list's entries, one each, in list order |
| Merge.WriterPages | pdf_transformer.py:310-315 | the writer receives one page per list entry, in list order, each as (file content, page_index) |
| Listbox.IsNearest | pdf_transformer.py:22-29 | what nearest(y) returns: a valid position, or -1 for an empty listbox |
| Listbox.DragDropListbox.constructor | pdf_transformer.py:12-19 | a new listbox is empty, with no pressed position |
| Listbox.DragDropListbox.OnClick | pdf_transformer.py:21-22 | a press remembers the position under the cursor |
| Listbox.DragDropListbox.OnDrop | pdf_transformer.py:27-41 | a release over another position moves the pressed label there, otherwise changes nothing; the pressed position is always forgotten |
| Selector.StatusText | pdf_transformer.py:218 | the text of each status message (this one and those at lines 143, 187, 321 and 329), with the counts rendered as decimal numerals |
| Selector.StatusTextDeterminesStatus | pdf_transformer.py:218 | different statuses show different texts, so the counts can be read back from the status line |
| Selector.CurSelection | pdf_transformer.py:226 | what curselection() returns here and at lines 244, 258 and 275: ascending, distinct, in-range positions |
| Selector.PdfPageSelector.constructor | pdf_transformer.py:57-61 | the selector starts with no paths, empty catalog and list, empty listboxes, the button disabled and the start message |
| Selector.PdfPageSelector.UpdateCreateButtonState | pdf_transformer.py:290-295 | the button is enabled exactly when an output path is set and the list is not empty |
| Selector.PdfPageSelector.BrowseOutput | pdf_transformer.py:162-172 | a chosen output file is stored and the button state recomputed; a cancelled dialog changes nothing |
| Selector.PdfPageSelector.BrowseInput | pdf_transformer.py:154-160 | a chosen folder is stored and its catalog loaded; a cancelled dialog changes nothing |
| Selector.PdfPageSelector.LoadPdfPages | pdf_transformer.py:174-219 | the catalog is emptied and, given an input path, becomes the flattened catalog of the files; the merge list is untouched; the status counts loaded pages and all globbed files, or reports that there were none |
| Selector.PdfPageSelector.AppendFilePages | pdf_transformer.py:200-213 | every page of one readable file is appended to the catalog in page order, its label to the left listbox, and the number added is the file's page count |
| Selector.PdfPageSelector.AddPages | pdf_transformer.py:224-240 | with nothing chosen nothing changes; otherwise the list becomes the add rule's result, the right listbox gains the appended labels, and the mirror and the button rule are kept |
| Selector.PdfPageSelector.AppendChosen | pdf_transformer.py:231-238 | the loop appends to the list exactly what the add rule appends, and the matching labels to the right listbox |
| Selector.PdfPageSelector.RemovePages | pdf_transformer.py:242-254 | with nothing chosen nothing changes; otherwise the list and the listbox lose exactly the chosen positions, the rest keep their order, and the length drops by the number chosen |
| Selector.PdfPageSelector.RemoveChosen | pdf_transformer.py:249-252 | the reversed loop removes exactly the chosen positions from the list and the listbox, keeps them the same length and free of duplicate keys, and keeps the mirror |
| Selector.PdfPageSelector.MoveUp | pdf_transformer.py:256-271 | with nothing chosen or the first chosen at the top nothing changes; otherwise the list and the listbox exchange the first chosen position with the one above |
| Selector.PdfPageSelector.MoveDown | pdf_transformer.py:273-288 | with nothing chosen or the first chosen at the bottom nothing changes; otherwise the list and the listbox exchange the first chosen position with the one below |
| Selector.PdfPageSelector.DropReorder | pdf_transformer.py:27-41 | a drop that also moves the entry of the merge list, so the listbox keeps mirroring the list |
| Selector.PdfPageSelector.CreateMergedPdf | pdf_transformer.py:297-333 | without a list or an output path it refuses and changes nothing; otherwise it writes exactly the list's pages in list order, reports their number or the failure, leaves the list unchanged and ends with the button enabled |
| Selector.AddTwiceAddsOnce | pdf_transformer.py:224-240 | two identical add calls leave the list one call leaves, only append to it, and append the matching labels to the right listbox; nothing else in the window changes |
| Selector.MoveUpThenDown | pdf_transformer.py:256-288 | moving position i up and then position i - 1 down restores the list and the listbox, and nothing else in the window changes |
| Selector.DragLeavesSelection | pdf_transformer.py:27-41 | a drag in the window keeps the selector valid, moves the label from the pressed position to the drop position exactly as a reposition, forgets the press, and leaves the merge list unchanged, so the listbox stops being the list that is merged |

## Findings

| source | as written | input that shows it | evidently intended | confidence | as-written member | corrected member |
|---|---|---|---|---|---|---|
| pdf_transformer.py:27-41 | `on_drop` moves only the listbox label; `selected_pages` keeps its order, and the merge (line 311) and the removal (line 251) act on `selected_pages` | add "a - Page 1" and "a - Page 2", then drag position 0 onto position 1: the listbox shows Page 2 above Page 1, but the merge writes Page 1 then Page 2, and removing the top row deletes Page 1 | the drag reorders the merge list too; the frame is titled "Selected Pages (Drag to Reorder)" (line 123) | high; not executed | Selector.DragLeavesSelection | Selector.PdfPageSelector.DropReorder |

## Left out

- Tk widget construction, styles, labels, scrollbars and the icon (lines 44-152) are UI layout.
- Listbox highlighting (`selection_clear`, `selection_set`, lines 38-39, 271, 288) is not modelled. The chosen positions are a parameter of each operation.
- `on_drag` (lines 24-25) does nothing and is not modelled.
- Pixel coordinates and `nearest(y)` are abstracted into the position it returns: -1 for an empty listbox, otherwise a valid position.
- Dialogs (`filedialog`, `messagebox`) are not modelled. A warning branch changes nothing. The chosen path is a parameter, with "" for a cancelled dialog.
- The outer error dialog of the folder load (lines 221-222) and the printed error of an unreadable file (line 216) are not modelled. Globbing is an input here, so there is no failure left to report.
- PyPDF2 parsing and writing (lines 198, 308-319) are foreign code. A file is abstracted to its bytes and page count, or to a read failure. A written page is abstracted to (file content, page index). Whether the write succeeds is a parameter.
- Pages.FilePages, Pages.TotalPages, Pages.CatalogEntryOrigin: the model treats a read failure as applying to the whole file. If enumerating the pages of a file fails partway, the source keeps that file's earlier pages; the model does not capture this, nor the larger "Loaded N pages" count that follows from it.
- Globbing, `is_file` and the sorting of real paths (line 184) are file-system I/O. The sorted file list is an input.
- The worker thread (lines 303-333) is modelled as one sequential step. The transient "Creating merged PDF..." status and the button disabled while the worker runs are not observable afterwards. A partially written output file after a failed write is not modelled.
- `main` and its dependency check (lines 335-352) are not modelled.
- Listbox.DragDropListbox.OnDrop: requires the pressed position to still be a position of the listbox when the button is released. The case where the listbox changed during the drag is not modelled.
- Pages.SameKey, Pages.PathBefore: paths are compared as strings, by code point. The source compares `Path` objects (lines 184, 234), whose equality and ordering ignore case on Windows; that platform behaviour is not modelled.
