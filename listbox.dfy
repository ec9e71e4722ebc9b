/** The right-hand listbox: its labels and the drag-to-reorder gesture. */
module Listbox {
  import opened ListEdits

  datatype Option<T> = None | Some(value: T)

  /** What Tk's `nearest(y)` can return for a listbox of `size` entries:
      a valid position, or -1 when the listbox is empty. */
  predicate IsNearest(index: int, size: int) {
    if size == 0 then index == -1 else 0 <= index < size
  }

  class DragDropListbox {
    var items: seq<string>
    var dragStartIndex: Option<int>

    constructor ()
      ensures items == [] && dragStartIndex == None
    {
      items := [];
      dragStartIndex := None;
    }

    /** Button press: remember the entry under the cursor. */
    method OnClick(nearest: int)
      requires IsNearest(nearest, |items|)
      modifies this`dragStartIndex
      ensures dragStartIndex == Some(nearest)
    {
      dragStartIndex := Some(nearest);
    }

    /** Button release: when the cursor is over another entry, take the
        pressed entry out and insert it there; always forget the press.
        Only the labels move: no list of pages is touched. */
    method OnDrop(nearest: int)
      requires IsNearest(nearest, |items|)
      requires dragStartIndex.Some? ==> IsNearest(dragStartIndex.value, |items|)
      modifies this
      ensures dragStartIndex == None
      ensures old(dragStartIndex).Some? && nearest != old(dragStartIndex).value ==>
                items == Reposition(old(items), old(dragStartIndex).value, nearest)
      ensures old(dragStartIndex).None? || nearest == old(dragStartIndex).value ==>
                items == old(items)
    {
      if dragStartIndex.Some? {
        var start := dragStartIndex.value;
        if nearest != start {
          var item := items[start];
          items := Delete(items, start);
          items := Insert(items, nearest, item);
        }
      }
      dragStartIndex := None;
    }
  }
}
