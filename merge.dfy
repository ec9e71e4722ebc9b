/** What the merge writes, and when the button that starts it is enabled. */
module Merge {
  import opened Pages

  /** A page as handed to the PDF writer: re-read from the stored file
      content, and picked by its 0-based index. */
  datatype PageRef = PageRef(content: seq<byte>, index: nat)

  function RefOf(p: PageInfo): PageRef {
    PageRef(p.pdfContent, p.pageIndex)
  }

  /** The written pages are exactly the selected ones, one for one, in list order. */
  predicate InListOrder(pages: seq<PageRef>, selected: seq<PageInfo>) {
    |pages| == |selected| && forall m :: 0 <= m < |pages| ==> pages[m] == RefOf(selected[m])
  }

  /** The create button is enabled exactly when an output file is chosen
      and the merge list is not empty. */
  predicate CanCreate(outputPath: string, selected: seq<PageInfo>) {
    outputPath != "" && selected != []
  }

  /** The page loop of the merge: one writer page per selected entry. */
  method WriterPages(selected: seq<PageInfo>) returns (pages: seq<PageRef>)
    ensures InListOrder(pages, selected)
  {
    pages := [];
    for k := 0 to |selected|
      invariant |pages| == k
      invariant forall m :: 0 <= m < k ==> pages[m] == RefOf(selected[m])
    {
      var info := selected[k];
      pages := pages + [PageRef(info.pdfContent, info.pageIndex)];
    }
  }
}
