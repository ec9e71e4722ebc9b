/** The edits the selector performs on Python lists and on Tk listbox
    contents, as operations on sequences: delete at a position, insert
    at a position, exchange two positions, move one entry elsewhere,
    delete a set of positions, and map a function over every entry. */
module ListEdits {

  /** `del s[i]`, and `listbox.delete(i)`. */
  function Delete<T>(s: seq<T>, i: int): (r: seq<T>)
    requires 0 <= i < |s|
    ensures |r| == |s| - 1
    ensures forall k :: 0 <= k < i ==> r[k] == s[k]
    ensures forall k :: i <= k < |r| ==> r[k] == s[k + 1]
  {
    s[..i] + s[i + 1..]
  }

  /** `listbox.insert(i, x)` with 0 <= i <= size. */
  function Insert<T>(s: seq<T>, i: int, x: T): (r: seq<T>)
    requires 0 <= i <= |s|
    ensures |r| == |s| + 1 && r[i] == x
    ensures forall k :: 0 <= k < i ==> r[k] == s[k]
    ensures forall k :: i < k < |r| ==> r[k] == s[k - 1]
  {
    s[..i] + [x] + s[i..]
  }

  /** `s[i], s[j] = s[j], s[i]`. */
  function Swap<T>(s: seq<T>, i: int, j: int): seq<T>
    requires 0 <= i < |s| && 0 <= j < |s|
  {
    s[i := s[j]][j := s[i]]
  }

  /** An exchange moves only the two entries, and loses or gains none. */
  lemma SwapFacts<T>(s: seq<T>, i: int, j: int)
    requires 0 <= i < |s| && 0 <= j < |s|
    ensures |Swap(s, i, j)| == |s|
    ensures Swap(s, i, j)[i] == s[j] && Swap(s, i, j)[j] == s[i]
    ensures forall k :: 0 <= k < |s| && k != i && k != j ==> Swap(s, i, j)[k] == s[k]
    ensures multiset(Swap(s, i, j)) == multiset(s)
  {
  }

  lemma SwapSymmetric<T>(s: seq<T>, i: int, j: int)
    requires 0 <= i < |s| && 0 <= j < |s|
    ensures Swap(s, i, j) == Swap(s, j, i)
  {
  }

  /** Exchanging the same two positions again restores the list. */
  lemma SwapTwice<T>(s: seq<T>, i: int, j: int)
    requires 0 <= i < |s| && 0 <= j < |s|
    ensures Swap(Swap(s, i, j), i, j) == s
  {
  }

  /** Take the entry at `from` out and put it back in at `to`, where
      0 <= to <= |shortened list| (a drag in the listbox; `to` equal to the
      shortened length inserts at the end, as Tk's insert does at size). */
  function Reposition<T>(s: seq<T>, from: int, to: int): seq<T>
    requires 0 <= from < |s| && 0 <= to < |s|
  {
    Insert(Delete(s, from), to, s[from])
  }

  /** The moved entry ends at `to`, the list keeps its length and its
      entries, and without the moved entry the list is as before. */
  lemma RepositionFacts<T>(s: seq<T>, from: int, to: int)
    requires 0 <= from < |s| && 0 <= to < |s|
    ensures |Reposition(s, from, to)| == |s|
    ensures Reposition(s, from, to)[to] == s[from]
    ensures Delete(Reposition(s, from, to), to) == Delete(s, from)
    ensures multiset(Reposition(s, from, to)) == multiset(s)
  {
    var d := Delete(s, from);
    var r := Reposition(s, from, to);
    assert r == d[..to] + [s[from]] + d[to..];
    assert Delete(r, to) == d[..to] + d[to..];
    assert d[..to] + d[to..] == d;
    assert s == s[..from] + [s[from]] + s[from + 1..];
    calc {
      multiset(r);
      multiset(d[..to]) + multiset{s[from]} + multiset(d[to..]);
      { assert d == d[..to] + d[to..]; }
      multiset(d) + multiset{s[from]};
      multiset(s[..from]) + multiset(s[from + 1..]) + multiset{s[from]};
      multiset(s);
    }
  }

  /** Dropping an entry where it was picked up changes nothing. */
  lemma RepositionInPlace<T>(s: seq<T>, i: int)
    requires 0 <= i < |s|
    ensures Reposition(s, i, i) == s
  {
  }

  /** Moving an entry by one position is exchanging it with its neighbour. */
  lemma RepositionNeighbour<T>(s: seq<T>, from: int, to: int)
    requires 0 <= from < |s| && 0 <= to < |s|
    requires to == from - 1 || to == from + 1
    ensures Reposition(s, from, to) == Swap(s, from, to)
  {
  }

  /** The entries of s whose positions are not listed in drop, in their
      original order. */
  function Kept<T>(s: seq<T>, drop: seq<int>): seq<T>
  {
    if s == [] then []
    else Kept(s[..|s| - 1], drop) + (if |s| - 1 in drop then [] else [s[|s| - 1]])
  }

  predicate StrictlyIncreasing(xs: seq<int>) {
    forall a, b :: 0 <= a < b < |xs| ==> xs[a] < xs[b]
  }

  /** Positions beyond the end drop nothing. */
  lemma {:induction false} KeptAll<T>(s: seq<T>, drop: seq<int>)
    requires forall t :: 0 <= t < |drop| ==> drop[t] >= |s|
    ensures Kept(s, drop) == s
  {
    if s != [] {
      KeptAll(s[..|s| - 1], drop);
      assert s[..|s| - 1] + [s[|s| - 1]] == s;
    }
  }

  /** Dropping nothing keeps everything. */
  lemma KeptNothing<T>(s: seq<T>)
    ensures Kept(s, []) == s
  {
    KeptAll(s, []);
  }

  /** Deleting position i from what is left after dropping only higher
      positions is dropping i as well: the step of a high-to-low removal. */
  lemma {:induction false} DeleteKept<T>(s: seq<T>, drop: seq<int>, i: int)
    requires 0 <= i < |s|
    requires forall t :: 0 <= t < |drop| ==> drop[t] > i
    ensures |Kept(s, drop)| > i
    ensures Delete(Kept(s, drop), i) == Kept(s, [i] + drop)
  {
    var m := |s| - 1;
    var init := s[..m];
    if m == i {
      DeleteKeptLast(s, drop);
    } else {
      DeleteKept(init, drop, i);
      var x := Kept(init, drop);
      var tail := if m in drop then [] else [s[m]];
      assert m in [i] + drop <==> m in drop;
      assert Kept(s, drop) == x + tail;
      assert Kept(s, [i] + drop) == Kept(init, [i] + drop) + tail;
      DeleteAppend(x, tail, i);
    }
  }

  /** DeleteKept when i is the last position. */
  lemma DeleteKeptLast<T>(s: seq<T>, drop: seq<int>)
    requires |s| > 0
    requires forall t :: 0 <= t < |drop| ==> drop[t] > |s| - 1
    ensures |Kept(s, drop)| == |s|
    ensures Delete(Kept(s, drop), |s| - 1) == Kept(s, [|s| - 1] + drop)
  {
    var m := |s| - 1;
    var init := s[..m];
    KeptAll(init, drop);
    KeptAll(init, [m] + drop);
    assert m !in drop && m in [m] + drop;
    assert init + [s[m]] == s;
    assert Kept(s, drop) == s;
    assert Kept(s, [m] + drop) == init;
  }

  /** One pass of the high-to-low removal loop: with positions sel[j..]
      already removed, deleting sel[j - 1] removes sel[j - 1..]. */
  lemma RemoveStep<T>(s: seq<T>, sel: seq<int>, j: int)
    requires StrictlyIncreasing(sel)
    requires forall t :: 0 <= t < |sel| ==> 0 <= sel[t] < |s|
    requires 0 < j <= |sel|
    ensures 0 <= sel[j - 1] < |Kept(s, sel[j..])|
    ensures Delete(Kept(s, sel[j..]), sel[j - 1]) == Kept(s, sel[j - 1..])
  {
    DeleteKept(s, sel[j..], sel[j - 1]);
    assert [sel[j - 1]] + sel[j..] == sel[j - 1..];
  }

  lemma DeleteAppend<T>(x: seq<T>, tail: seq<T>, i: int)
    requires 0 <= i < |x|
    ensures Delete(x + tail, i) == Delete(x, i) + tail
  {
    assert (x + tail)[..i] == x[..i];
    assert (x + tail)[i + 1..] == x[i + 1..] + tail;
  }

  /** Removing k distinct in-range positions from n entries leaves n - k. */
  lemma {:induction false} KeptLength<T>(s: seq<T>, drop: seq<int>)
    requires StrictlyIncreasing(drop)
    requires forall t :: 0 <= t < |drop| ==> 0 <= drop[t] < |s|
    ensures |Kept(s, drop)| == |s| - |drop|
  {
    if drop == [] {
      KeptNothing(s);
    } else {
      var rest := drop[1..];
      KeptLength(s, rest);
      DeleteKept(s, rest, drop[0]);
      assert [drop[0]] + rest == drop;
    }
  }

  function MapSeq<T, U>(f: T -> U, s: seq<T>): (r: seq<U>)
    ensures |r| == |s|
    ensures forall k :: 0 <= k < |s| ==> r[k] == f(s[k])
  {
    seq(|s|, k requires 0 <= k < |s| => f(s[k]))
  }

  lemma MapAppend<T, U>(f: T -> U, a: seq<T>, b: seq<T>)
    ensures MapSeq(f, a + b) == MapSeq(f, a) + MapSeq(f, b)
  {
  }

  /** Dropping positions commutes with mapping every entry. */
  lemma {:induction false} MapKept<T, U>(f: T -> U, s: seq<T>, drop: seq<int>)
    ensures MapSeq(f, Kept(s, drop)) == Kept(MapSeq(f, s), drop)
  {
    if s != [] {
      var m := |s| - 1;
      MapKept(f, s[..m], drop);
      assert MapSeq(f, s)[..m] == MapSeq(f, s[..m]);
      var tail := if m in drop then [] else [s[m]];
      MapAppend(f, Kept(s[..m], drop), tail);
    }
  }

  lemma MapSwap<T, U>(f: T -> U, s: seq<T>, i: int, j: int)
    requires 0 <= i < |s| && 0 <= j < |s|
    ensures MapSeq(f, Swap(s, i, j)) == Swap(MapSeq(f, s), i, j)
  {
  }

  lemma MapReposition<T, U>(f: T -> U, s: seq<T>, from: int, to: int)
    requires 0 <= from < |s| && 0 <= to < |s|
    ensures MapSeq(f, Reposition(s, from, to)) == Reposition(MapSeq(f, s), from, to)
  {
  }
}
