/** Page descriptors and the catalog of every page of every PDF file in
    the input folder, flattened file by file and page by page. */
module Pages {
  import opened Decimal
  import opened ListEdits

  newtype byte = x: int | 0 <= x < 256

  /** What reading one file and opening it with the PDF library yields:
      either a failure (the file is skipped) or its bytes and page count. */
  datatype ReadOutcome = Unreadable | Parsed(content: seq<byte>, pageCount: nat)

  /** One globbed `*.pdf` file: its path, its stem (the name without the
      extension) and the outcome of reading it. */
  datatype PdfFile = PdfFile(path: string, stem: string, read: ReadOutcome)

  /** The page_info record: source path, the whole source content, the
      1-based page number, the 0-based page index and the label shown in
      both listboxes. */
  datatype PageInfo = PageInfo(pdfFile: string, pdfContent: seq<byte>, pageNumber: nat,
                               pageIndex: nat, displayName: string)

  /** The label `"<stem> - Page <n>"`. */
  function DisplayName(stem: string, n: nat): string {
    stem + " - Page " + NatToString(n)
  }

  /** Within one file, the label tells the page number. */
  lemma DisplayNameDeterminesPage(stem: string, a: nat, b: nat)
    requires DisplayName(stem, a) == DisplayName(stem, b)
    ensures a == b
  {
    var k := |stem + " - Page "|;
    assert DisplayName(stem, a)[k..] == NatToString(a);
    assert DisplayName(stem, b)[k..] == NatToString(b);
    NatToStringInjective(a, b);
  }

  /** The descriptor of page n (1-based) of a file that was read. */
  function MakePage(f: PdfFile, n: nat): PageInfo
    requires f.read.Parsed? && n >= 1
  {
    PageInfo(f.path, f.read.content, n, n - 1, DisplayName(f.stem, n))
  }

  /** The pages one file contributes: none when it could not be read. */
  function FilePages(f: PdfFile): seq<PageInfo> {
    match f.read
    case Unreadable => []
    case Parsed(_, count) => seq(count, k requires 0 <= k < count => MakePage(f, k + 1))
  }

  /** The catalog: the files in the given (sorted) order, and within each
      file its pages in document order. */
  function Catalog(files: seq<PdfFile>): seq<PageInfo> {
    if files == [] then []
    else Catalog(files[..|files| - 1]) + FilePages(files[|files| - 1])
  }

  /** The sum of the page counts of the files that could be read. */
  function TotalPages(files: seq<PdfFile>): nat {
    if files == [] then 0
    else
      TotalPages(files[..|files| - 1])
      + (match files[|files| - 1].read
         case Unreadable => 0
         case Parsed(_, count) => count)
  }

  /** p is the descriptor of one in-range page of file f. */
  predicate Describes(f: PdfFile, p: PageInfo) {
    f.read.Parsed? && 1 <= p.pageNumber <= f.read.pageCount && p == MakePage(f, p.pageNumber)
  }

  /** Identity used to suppress duplicates: same file path, same page number. */
  predicate SameKey(p: PageInfo, q: PageInfo) {
    p.pdfFile == q.pdfFile && p.pageNumber == q.pageNumber
  }

  predicate DistinctKeys(s: seq<PageInfo>) {
    forall a, b :: 0 <= a < b < |s| ==> !SameKey(s[a], s[b])
  }

  function LabelOf(p: PageInfo): string {
    p.displayName
  }

  /** The labels of a list of pages, as a listbox shows them. */
  function Names(s: seq<PageInfo>): seq<string> {
    MapSeq(LabelOf, s)
  }

  /** Appending one page appends its label. */
  lemma NamesAppend(s: seq<PageInfo>, p: PageInfo)
    ensures Names(s + [p]) == Names(s) + [p.displayName]
  {
    MapAppend(LabelOf, s, [p]);
  }

  /** One file more extends the catalog by that file's pages. */
  lemma CatalogStep(files: seq<PdfFile>, i: int)
    requires 0 <= i < |files|
    ensures Catalog(files[..i + 1]) == Catalog(files[..i]) + FilePages(files[i])
  {
    assert files[..i + 1][..i] == files[..i];
  }

  /** One page more of a file extends its pages by that page. */
  lemma FilePagesStep(f: PdfFile, n: nat)
    requires f.read.Parsed? && 1 <= n <= f.read.pageCount
    ensures |FilePages(f)| == f.read.pageCount
    ensures FilePages(f)[..n] == FilePages(f)[..n - 1] + [MakePage(f, n)]
  {
  }

  /** Strict ordinal order of strings, as Python compares them. */
  predicate PathBefore(a: string, b: string) {
    if a == [] then b != []
    else b != [] && (a[0] < b[0] || (a[0] == b[0] && PathBefore(a[1..], b[1..])))
  }

  lemma {:induction false} PathBeforeIrreflexive(a: string)
    ensures !PathBefore(a, a)
  {
    if a != [] {
      PathBeforeIrreflexive(a[1..]);
    }
  }

  predicate SortedByPath(files: seq<PdfFile>) {
    forall a, b :: 0 <= a < b < |files| ==> PathBefore(files[a].path, files[b].path)
  }

  predicate DistinctPaths(files: seq<PdfFile>) {
    forall a, b :: 0 <= a < b < |files| ==> files[a].path != files[b].path
  }

  /** Catalog order: by path, then by page number within one path. */
  predicate KeyBefore(p: PageInfo, q: PageInfo) {
    PathBefore(p.pdfFile, q.pdfFile) || (p.pdfFile == q.pdfFile && p.pageNumber < q.pageNumber)
  }

  /** The catalog has exactly as many entries as the readable files have pages. */
  lemma {:induction false} CatalogLength(files: seq<PdfFile>)
    ensures |Catalog(files)| == TotalPages(files)
  {
    if files != [] {
      CatalogLength(files[..|files| - 1]);
    }
  }

  /** Every catalog entry is the descriptor of some page of some readable
      input file; in particular page_index == page_number - 1 and the label
      is built from that file's stem. */
  lemma {:induction false} CatalogEntryOrigin(files: seq<PdfFile>, j: int)
    requires 0 <= j < |Catalog(files)|
    ensures exists i :: 0 <= i < |files| && Describes(files[i], Catalog(files)[j])
    ensures Catalog(files)[j].pageIndex == Catalog(files)[j].pageNumber - 1
  {
    var m := |files| - 1;
    var init := files[..m];
    var c := Catalog(init);
    if j < |c| {
      CatalogEntryOrigin(init, j);
      var i :| 0 <= i < |init| && Describes(init[i], c[j]);
      assert files[i] == init[i];
    } else {
      assert Describes(files[m], Catalog(files)[j]);
    }
  }

  /** Every page of every readable file is in the catalog. */
  lemma {:induction false} CatalogComplete(files: seq<PdfFile>, i: int, n: nat)
    requires 0 <= i < |files| && files[i].read.Parsed?
    requires 1 <= n <= files[i].read.pageCount
    ensures MakePage(files[i], n) in Catalog(files)
  {
    var m := |files| - 1;
    if i < m {
      CatalogComplete(files[..m], i, n);
    } else {
      assert FilePages(files[m])[n - 1] == MakePage(files[i], n);
    }
  }

  /** Where entry k of the catalog comes from: the catalog of all files but
      the last, or page k - |that catalog| + 1 of the last file. */
  lemma CatalogSplit(files: seq<PdfFile>, k: int)
    requires files != [] && 0 <= k < |Catalog(files)|
    ensures var c := Catalog(files[..|files| - 1]);
            if k < |c| then Catalog(files)[k] == c[k]
            else Catalog(files)[k].pdfFile == files[|files| - 1].path
                 && Catalog(files)[k].pageNumber == k - |c| + 1
  {
  }

  /** The file an entry of the catalog comes from. */
  lemma CatalogSource(files: seq<PdfFile>, k: int) returns (i: int)
    requires 0 <= k < |Catalog(files)|
    ensures 0 <= i < |files| && Catalog(files)[k].pdfFile == files[i].path
  {
    CatalogEntryOrigin(files, k);
    i :| 0 <= i < |files| && Describes(files[i], Catalog(files)[k]);
  }

  /** Given files in path order, the catalog is ordered by (path, page number). */
  lemma {:induction false} CatalogOrdered(files: seq<PdfFile>)
    requires SortedByPath(files)
    ensures forall a, b :: 0 <= a < b < |Catalog(files)| ==> KeyBefore(Catalog(files)[a], Catalog(files)[b])
  {
    if files != [] {
      var m := |files| - 1;
      var init := files[..m];
      var c := Catalog(init);
      var cat := Catalog(files);
      assert SortedByPath(init) by {
        forall a, b | 0 <= a < b < |init|
          ensures PathBefore(init[a].path, init[b].path)
        {
          assert init[a] == files[a] && init[b] == files[b];
        }
      }
      CatalogOrdered(init);
      forall a, b | 0 <= a < b < |cat|
        ensures KeyBefore(cat[a], cat[b])
      {
        CatalogSplit(files, a);
        CatalogSplit(files, b);
        if a < |c| && b >= |c| {
          var i := CatalogSource(init, a);
          assert init[i] == files[i];
          assert PathBefore(files[i].path, files[m].path);
        }
      }
    }
  }

  /** Given distinct file paths, no two catalog entries share (path, page number). */
  lemma {:induction false} CatalogKeysUnique(files: seq<PdfFile>)
    requires DistinctPaths(files)
    ensures DistinctKeys(Catalog(files))
  {
    if files != [] {
      var m := |files| - 1;
      var init := files[..m];
      var c := Catalog(init);
      var cat := Catalog(files);
      assert DistinctPaths(init) by {
        forall a, b | 0 <= a < b < |init|
          ensures init[a].path != init[b].path
        {
          assert init[a] == files[a] && init[b] == files[b];
        }
      }
      CatalogKeysUnique(init);
      forall a, b | 0 <= a < b < |cat|
        ensures !SameKey(cat[a], cat[b])
      {
        CatalogSplit(files, a);
        CatalogSplit(files, b);
        if a < |c| && b >= |c| {
          var i := CatalogSource(init, a);
          assert init[i] == files[i];
          assert files[i].path != files[m].path;
        }
      }
    }
  }

  /** Sorted paths are distinct paths. */
  lemma SortedPathsDistinct(files: seq<PdfFile>)
    requires SortedByPath(files)
    ensures DistinctPaths(files)
  {
    forall a, b | 0 <= a < b < |files|
      ensures files[a].path != files[b].path
    {
      PathBeforeIrreflexive(files[a].path);
    }
  }
}
