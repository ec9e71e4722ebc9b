/** The page selector: the catalog of all pages, the ordered merge list,
    the two listboxes that show them, the create button's enabled flag and
    the status line, with the operations the window's buttons trigger. */
module Selector {
  import opened Decimal
  import opened ListEdits
  import opened Pages
  import opened Selection
  import opened Merge
  import opened Listbox

  /** The messages of the status line. */
  datatype Status =
    | SelectInputFolder
    | NoPdfFilesFound
    | Loaded(pages: nat, files: nat)
    | Created(pages: nat)
    | CreationFailed

  function StatusText(st: Status): string {
    match st
    case SelectInputFolder => "Select input folder to start"
    case NoPdfFilesFound => "No PDF files found in selected folder"
    case Loaded(p, f) => "Loaded " + (NatToString(p) + (" pages from " + (NatToString(f) + " PDF files")))
    case Created(p) => "Success! Created PDF with " + (NatToString(p) + " pages")
    case CreationFailed => "Error occurred during PDF creation"
  }

  /** The first two letters of each message. */
  function Prefix(st: Status): string {
    match st
    case SelectInputFolder => "Se"
    case NoPdfFilesFound => "No"
    case Loaded(_, _) => "Lo"
    case Created(_) => "Su"
    case CreationFailed => "Er"
  }

  lemma StatusTextPrefix(st: Status)
    ensures |StatusText(st)| >= 2 && StatusText(st)[..2] == Prefix(st)
  {
  }

  /** The status line determines the status: different messages, and the
      counts shown can be read back. */
  lemma StatusTextDeterminesStatus(a: Status, b: Status)
    requires StatusText(a) == StatusText(b)
    ensures a == b
  {
    StatusTextPrefix(a);
    StatusTextPrefix(b);
    if a.Loaded? && b.Loaded? {
      LoadedTextDeterminesCounts(a.pages, a.files, b.pages, b.files);
    } else if a.Created? && b.Created? {
      CreatedTextDeterminesCount(a.pages, b.pages);
    }
  }

  lemma LoadedTextDeterminesCounts(p: nat, f: nat, p': nat, f': nat)
    requires StatusText(Loaded(p, f)) == StatusText(Loaded(p', f'))
    ensures p == p' && f == f'
  {
    var np, nf, np', nf' := NatToString(p), NatToString(f), NatToString(p'), NatToString(f');
    NumeralThenSpace("Loaded ", np, np', " pages from " + (nf + " PDF files"), " pages from " + (nf' + " PDF files"));
    NumeralThenSpace(" pages from ", nf, nf', " PDF files", " PDF files");
    NatToStringInjective(p, p');
    NatToStringInjective(f, f');
  }

  lemma CreatedTextDeterminesCount(p: nat, p': nat)
    requires StatusText(Created(p)) == StatusText(Created(p'))
    ensures p == p'
  {
    NumeralThenSpace("Success! Created PDF with ", NatToString(p), NatToString(p'), " pages", " pages");
    NatToStringInjective(p, p');
  }

  /** What a create request does to the file system. */
  datatype MergeOutcome =
    | Refused                                        // nothing selected or no output file
    | Written(path: string, pages: seq<PageRef>)     // the merged document
    | WriteFailed                                    // the library or the write failed

  /** What Tk's `curselection()` returns: ascending, distinct, in-range positions. */
  predicate CurSelection(sel: seq<int>, size: int) {
    StrictlyIncreasing(sel) && forall k :: 0 <= k < |sel| ==> 0 <= sel[k] < size
  }

  class PdfPageSelector {
    var inputPath: string
    var outputPath: string
    var allPages: seq<PageInfo>
    var selectedPages: seq<PageInfo>
    var catalogListbox: seq<string>
    const selectedListbox: DragDropListbox
    var createEnabled: bool
    var status: Status

    /** What every operation keeps: the left listbox shows the catalog, the
        right listbox has one label per merge-list entry, the merge list
        has no duplicate (path, page number), and the create button is
        enabled exactly when an output file is chosen and the list is not empty. */
    ghost predicate Valid()
      reads this, selectedListbox
    {
      && catalogListbox == Names(allPages)
      && |selectedListbox.items| == |selectedPages|
      && DistinctKeys(selectedPages)
      && createEnabled == CanCreate(outputPath, selectedPages)
    }

    /** The right listbox shows the merge list's labels in the merge list's order. */
    ghost predicate Mirrored()
      reads this, selectedListbox
    {
      selectedListbox.items == Names(selectedPages)
    }

    constructor ()
      ensures Valid() && Mirrored()
      ensures inputPath == "" && outputPath == "" && allPages == [] && selectedPages == []
      ensures !createEnabled && status == SelectInputFolder
      ensures fresh(selectedListbox) && selectedListbox.dragStartIndex == None
    {
      inputPath := "";
      outputPath := "";
      allPages := [];
      selectedPages := [];
      catalogListbox := [];
      selectedListbox := new DragDropListbox();
      createEnabled := false;
      status := SelectInputFolder;
    }

    method UpdateCreateButtonState()
      modifies this`createEnabled
      ensures createEnabled == CanCreate(outputPath, selectedPages)
    {
      createEnabled := outputPath != "" && selectedPages != [];
    }

    /** Choosing an output file; a cancelled dialog gives "" and changes nothing. */
    method BrowseOutput(file: string)
      requires Valid()
      modifies this`outputPath, this`createEnabled
      ensures Valid()
      ensures outputPath == if file != "" then file else old(outputPath)
    {
      if file != "" {
        outputPath := file;
        UpdateCreateButtonState();
      }
    }

    /** Choosing an input folder; `files` is what globbing it for `*.pdf`
        yields, sorted. A cancelled dialog gives "" and changes nothing. */
    method BrowseInput(folder: string, files: seq<PdfFile>)
      requires Valid()
      modifies this
      ensures Valid()
      ensures inputPath == if folder != "" then folder else old(inputPath)
      ensures allPages == if folder != "" then Catalog(files) else old(allPages)
      ensures status == if folder == "" then old(status)
                        else if files == [] then NoPdfFilesFound
                        else Loaded(TotalPages(files), |files|)
      ensures selectedPages == old(selectedPages) && outputPath == old(outputPath)
      ensures createEnabled == old(createEnabled)
    {
      if folder != "" {
        inputPath := folder;
        LoadPdfPages(files);
      }
    }

    /** Rebuild the catalog from the sorted files of the input folder. The
        catalog is emptied first; the merge list is left as it is. Files that
        cannot be read are skipped, but the status line counts every file. */
    method LoadPdfPages(files: seq<PdfFile>)
      requires Valid()
      modifies this`allPages, this`catalogListbox, this`status, this`createEnabled
      ensures Valid()
      ensures allPages == if inputPath == "" then [] else Catalog(files)
      ensures status == if inputPath == "" then old(status)
                        else if files == [] then NoPdfFilesFound
                        else Loaded(TotalPages(files), |files|)
      ensures selectedPages == old(selectedPages)
      ensures inputPath == old(inputPath) && outputPath == old(outputPath)
      ensures createEnabled == old(createEnabled)
    {
      allPages := [];
      catalogListbox := [];
      if inputPath == "" {
        return;
      }
      if files == [] {
        status := NoPdfFilesFound;
        return;
      }
      var totalPages := 0;
      for i := 0 to |files|
        invariant allPages == Catalog(files[..i])
        invariant catalogListbox == Names(allPages)
        invariant totalPages == |allPages|
      {
        CatalogStep(files, i);
        if files[i].read.Parsed? {
          var count := AppendFilePages(files[i]);
          totalPages := totalPages + count;
        }
        // otherwise the exception is reported and the file skipped
      }
      assert files[..|files|] == files;
      CatalogLength(files);
      status := Loaded(totalPages, |files|);
      UpdateCreateButtonState();
    }

    /** The inner loop of LoadPdfPages: every page of one file that was
        read, in document order, goes into the catalog and its label into
        the left listbox; `count` is how many were added. */
    method AppendFilePages(f: PdfFile) returns (count: nat)
      requires f.read.Parsed?
      requires catalogListbox == Names(allPages)
      modifies this`allPages, this`catalogListbox
      ensures allPages == old(allPages) + FilePages(f)
      ensures catalogListbox == Names(allPages)
      ensures count == |FilePages(f)|
    {
      ghost var c0 := allPages;
      count := 0;
      for n := 1 to f.read.pageCount + 1
        invariant allPages == c0 + FilePages(f)[..n - 1]
        invariant catalogListbox == Names(allPages)
        invariant count == n - 1
      {
        var page := PageInfo(f.path, f.read.content, n, n - 1, DisplayName(f.stem, n));
        FilePagesStep(f, n);
        NamesAppend(allPages, page);
        allPages := allPages + [page];
        catalogListbox := catalogListbox + [page.displayName];
        count := count + 1;
      }
      assert FilePages(f)[..f.read.pageCount] == FilePages(f);
    }

    /** Append the catalog entries chosen in the left listbox, skipping any
        whose (path, page number) is already in the merge list. */
    method AddPages(sel: seq<int>)
      requires Valid() && CurSelection(sel, |catalogListbox|)
      modifies this`selectedPages, this`createEnabled, selectedListbox`items
      ensures Valid()
      ensures old(selectedPages) <= selectedPages
      ensures selectedPages == Added(old(selectedPages), Picked(allPages, sel))
      ensures selectedListbox.items == old(selectedListbox.items) + Names(selectedPages[|old(selectedPages)|..])
      ensures sel == [] ==> selectedPages == old(selectedPages) && selectedListbox.items == old(selectedListbox.items)
      ensures old(Mirrored()) ==> Mirrored()
    {
      if sel == [] {
        // "Please select pages to add"
        return;
      }
      AppendChosen(sel);
      AddedKeepsDistinct(old(selectedPages), Picked(allPages, sel));
      assert old(selectedPages) + selectedPages[|old(selectedPages)|..] == selectedPages;
      MapAppend(LabelOf, old(selectedPages), selectedPages[|old(selectedPages)|..]);
      UpdateCreateButtonState();
    }

    /** The loop of AddPages: offer the chosen catalog entries one by one,
        appending each one whose key is not yet in the merge list, and its
        label to the right listbox. */
    method AppendChosen(sel: seq<int>)
      requires forall k :: 0 <= k < |sel| ==> 0 <= sel[k] < |allPages|
      modifies this`selectedPages, selectedListbox`items
      ensures old(selectedPages) <= selectedPages
      ensures selectedPages == Added(old(selectedPages), Picked(allPages, sel))
      ensures selectedListbox.items == old(selectedListbox.items) + Names(selectedPages[|old(selectedPages)|..])
    {
      ghost var s0 := selectedPages;
      ghost var es := Picked(allPages, sel);
      ghost var added: seq<PageInfo> := [];
      for k := 0 to |sel|
        invariant selectedPages == s0 + added
        invariant selectedPages == Added(s0, es[..k])
        invariant selectedListbox.items == old(selectedListbox.items) + Names(added)
      {
        var pageInfo := allPages[sel[k]];
        assert pageInfo == es[k];
        AddedStep(s0, es, k);
        if !KeyIn(selectedPages, pageInfo) {
          NamesAppend(added, pageInfo);
          added := added + [pageInfo];
          selectedPages := selectedPages + [pageInfo];
          selectedListbox.items := selectedListbox.items + [pageInfo.displayName];
        }
      }
      assert es[..|sel|] == es;
      assert (s0 + added)[|s0|..] == added;
    }

    /** Remove the entries chosen in the right listbox, highest position first. */
    method RemovePages(sel: seq<int>)
      requires Valid() && CurSelection(sel, |selectedListbox.items|)
      modifies this`selectedPages, this`createEnabled, selectedListbox`items
      ensures Valid()
      ensures selectedPages == Kept(old(selectedPages), sel)
      ensures selectedListbox.items == Kept(old(selectedListbox.items), sel)
      ensures |selectedPages| == |old(selectedPages)| - |sel|
      ensures sel == [] ==> selectedPages == old(selectedPages) && selectedListbox.items == old(selectedListbox.items)
      ensures old(Mirrored()) ==> Mirrored()
    {
      if sel == [] {
        // "Please select pages to remove"
        KeptNothing(selectedPages);
        KeptNothing(selectedListbox.items);
        return;
      }
      RemoveChosen(sel);
      UpdateCreateButtonState();
    }

    /** The loop of RemovePages: delete the chosen positions from the merge
        list and from the right listbox, highest first, so that the
        positions still to be deleted keep their meaning. */
    method RemoveChosen(sel: seq<int>)
      requires CurSelection(sel, |selectedPages|)
      requires |selectedListbox.items| == |selectedPages| && DistinctKeys(selectedPages)
      modifies this`selectedPages, selectedListbox`items
      ensures selectedPages == Kept(old(selectedPages), sel)
      ensures selectedListbox.items == Kept(old(selectedListbox.items), sel)
      ensures |selectedListbox.items| == |selectedPages| == |old(selectedPages)| - |sel|
      ensures DistinctKeys(selectedPages)
      ensures old(Mirrored()) ==> Mirrored()
    {
      ghost var s0 := selectedPages;
      ghost var l0 := selectedListbox.items;
      var j := |sel|;
      assert sel[j..] == [];
      KeptNothing(s0);
      KeptNothing(l0);
      while j > 0
        invariant 0 <= j <= |sel|
        invariant selectedPages == Kept(s0, sel[j..])
        invariant selectedListbox.items == Kept(l0, sel[j..])
        invariant |selectedListbox.items| == |selectedPages|
        invariant DistinctKeys(selectedPages)
      {
        var index := sel[j - 1];
        RemoveStep(s0, sel, j);
        RemoveStep(l0, sel, j);
        DeleteKeepsDistinct(selectedPages, index);
        selectedPages := Delete(selectedPages, index);
        selectedListbox.items := Delete(selectedListbox.items, index);
        j := j - 1;
      }
      assert sel[0..] == sel;
      KeptLength(s0, sel);
      if l0 == Names(s0) {
        MapKept(LabelOf, s0, sel);
      }
    }

    /** Exchange the first chosen entry with the one above it, unless nothing
        is chosen or it is already first. */
    method MoveUp(sel: seq<int>)
      requires Valid() && CurSelection(sel, |selectedListbox.items|)
      modifies this`selectedPages, selectedListbox`items
      ensures Valid()
      ensures sel == [] || sel[0] == 0 ==>
                selectedPages == old(selectedPages) && selectedListbox.items == old(selectedListbox.items)
      ensures sel != [] && sel[0] > 0 ==>
                && selectedPages == Swap(old(selectedPages), sel[0] - 1, sel[0])
                && selectedListbox.items == Swap(old(selectedListbox.items), sel[0] - 1, sel[0])
      ensures old(Mirrored()) ==> Mirrored()
    {
      if sel == [] || sel[0] == 0 {
        return;
      }
      var index := sel[0];
      SwapKeepsDistinct(selectedPages, index - 1, index);
      SwapFacts(selectedPages, index - 1, index);
      MapSwap(LabelOf, selectedPages, index - 1, index);
      selectedPages := Swap(selectedPages, index - 1, index);
      ghost var l0 := selectedListbox.items;
      var item := selectedListbox.items[index];
      selectedListbox.items := Delete(selectedListbox.items, index);
      selectedListbox.items := Insert(selectedListbox.items, index - 1, item);
      RepositionNeighbour(l0, index, index - 1);
      SwapSymmetric(l0, index, index - 1);
    }

    /** Exchange the first chosen entry with the one below it, unless nothing
        is chosen or it is already last. */
    method MoveDown(sel: seq<int>)
      requires Valid() && CurSelection(sel, |selectedListbox.items|)
      modifies this`selectedPages, selectedListbox`items
      ensures Valid()
      ensures sel == [] || sel[0] == |old(selectedListbox.items)| - 1 ==>
                selectedPages == old(selectedPages) && selectedListbox.items == old(selectedListbox.items)
      ensures sel != [] && sel[0] < |old(selectedListbox.items)| - 1 ==>
                && selectedPages == Swap(old(selectedPages), sel[0], sel[0] + 1)
                && selectedListbox.items == Swap(old(selectedListbox.items), sel[0], sel[0] + 1)
      ensures old(Mirrored()) ==> Mirrored()
    {
      if sel == [] || sel[0] == |selectedListbox.items| - 1 {
        return;
      }
      var index := sel[0];
      SwapKeepsDistinct(selectedPages, index, index + 1);
      SwapFacts(selectedPages, index, index + 1);
      MapSwap(LabelOf, selectedPages, index, index + 1);
      selectedPages := Swap(selectedPages, index, index + 1);
      ghost var l0 := selectedListbox.items;
      var item := selectedListbox.items[index];
      selectedListbox.items := Delete(selectedListbox.items, index);
      selectedListbox.items := Insert(selectedListbox.items, index + 1, item);
      RepositionNeighbour(l0, index, index + 1);
    }

    /** A drop that moves the merge-list entry together with its label, so
        that the list written by the merge is the list shown. */
    method DropReorder(nearest: int)
      requires Valid()
      requires IsNearest(nearest, |selectedListbox.items|)
      requires selectedListbox.dragStartIndex.Some? ==>
                 IsNearest(selectedListbox.dragStartIndex.value, |selectedListbox.items|)
      modifies this`selectedPages, selectedListbox
      ensures Valid()
      ensures selectedListbox.dragStartIndex == None
      ensures var start := old(selectedListbox.dragStartIndex);
              if start.Some? && nearest != start.value then
                && selectedPages == Reposition(old(selectedPages), start.value, nearest)
                && selectedListbox.items == Reposition(old(selectedListbox.items), start.value, nearest)
              else
                selectedPages == old(selectedPages) && selectedListbox.items == old(selectedListbox.items)
      ensures old(Mirrored()) ==> Mirrored()
    {
      var start := selectedListbox.dragStartIndex;
      if start.Some? && nearest != start.value {
        RepositionKeepsDistinct(selectedPages, start.value, nearest);
        RepositionFacts(selectedPages, start.value, nearest);
        MapReposition(LabelOf, selectedPages, start.value, nearest);
        selectedPages := Reposition(selectedPages, start.value, nearest);
      }
      selectedListbox.OnDrop(nearest);
    }

    /** The create request: refused without a selection or an output file;
        otherwise the selected pages are written in list order, and the
        button ends enabled whatever the write's outcome. `writeSucceeds`
        stands for the outcome of the PDF library and the file write. */
    method CreateMergedPdf(writeSucceeds: bool) returns (outcome: MergeOutcome)
      requires Valid()
      modifies this`status, this`createEnabled
      ensures Valid()
      ensures !CanCreate(outputPath, selectedPages) ==>
                outcome == Refused && status == old(status) && createEnabled == old(createEnabled)
      ensures CanCreate(outputPath, selectedPages) ==> createEnabled
      ensures outcome.Written? <==> CanCreate(outputPath, selectedPages) && writeSucceeds
      ensures outcome.Written? ==>
                outcome.path == outputPath && InListOrder(outcome.pages, selectedPages)
                && status == Created(|selectedPages|)
      ensures outcome == WriteFailed <==> CanCreate(outputPath, selectedPages) && !writeSucceeds
      ensures outcome == WriteFailed ==> status == CreationFailed
    {
      if selectedPages == [] || outputPath == "" {
        // "Please select pages and output location"
        return Refused;
      }
      createEnabled := false;
      var pages := WriterPages(selectedPages);
      if writeSucceeds {
        status := Created(|selectedPages|);
        outcome := Written(outputPath, pages);
      } else {
        status := CreationFailed;
        outcome := WriteFailed;
      }
      createEnabled := true;
    }
  }

  /** Repeating an add with the same chosen catalog entries adds nothing:
      two calls leave the list one call leaves. */
  method AddTwiceAddsOnce(p: PdfPageSelector, sel: seq<int>)
    requires p.Valid() && CurSelection(sel, |p.catalogListbox|)
    modifies p`selectedPages, p`createEnabled, p.selectedListbox`items
    ensures p.Valid() && p.allPages == old(p.allPages)
    ensures old(p.selectedPages) <= p.selectedPages
    ensures p.selectedPages == Added(old(p.selectedPages), Picked(old(p.allPages), sel))
    ensures p.selectedListbox.items == old(p.selectedListbox.items) + Names(p.selectedPages[|old(p.selectedPages)|..])
  {
    p.AddPages(sel);
    p.AddPages(sel);
    AddedIdempotent(old(p.selectedPages), Picked(p.allPages, sel));
  }

  /** Moving an entry up and then moving it back down restores both lists. */
  method MoveUpThenDown(p: PdfPageSelector, i: int)
    requires p.Valid() && 0 < i < |p.selectedListbox.items|
    modifies p`selectedPages, p.selectedListbox`items
    ensures p.Valid()
    ensures p.selectedPages == old(p.selectedPages)
    ensures p.selectedListbox.items == old(p.selectedListbox.items)
  {
    p.MoveUp([i]);
    p.MoveDown([i - 1]);
    SwapTwice(old(p.selectedPages), i - 1, i);
    SwapTwice(old(p.selectedListbox.items), i - 1, i);
  }

  /** A drag in the right listbox, as the window handles it: it moves a
      label but not the merge-list entry, so the list the merge writes is
      no longer the list shown. */
  method DragLeavesSelection(p: PdfPageSelector, from: int, to: int)
    requires p.Valid() && p.Mirrored()
    requires 0 <= from < |p.selectedPages| && 0 <= to < |p.selectedPages| && from != to
    requires p.selectedPages[from].displayName != p.selectedPages[to].displayName
    modifies p.selectedListbox
    ensures p.Valid()
    ensures p.selectedPages == old(p.selectedPages)
    ensures p.selectedListbox.items == Reposition(old(p.selectedListbox.items), from, to)
    ensures p.selectedListbox.dragStartIndex == None
    ensures |p.selectedListbox.items| == |old(p.selectedListbox.items)|
    ensures p.selectedListbox.items[to] == old(p.selectedPages)[from].displayName
    ensures !p.Mirrored()
  {
    p.selectedListbox.OnClick(from);
    p.selectedListbox.OnDrop(to);
    RepositionFacts(old(p.selectedListbox.items), from, to);
  }
}
