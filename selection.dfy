/** The rule by which pages chosen in the catalog are appended to the
    merge list: in the order chosen, skipping any page whose (path, page
    number) is already in the list. */
module Selection {
  import opened ListEdits
  import opened Pages

  /** Some entry of s has p's (path, page number): the `any(...)` test. */
  predicate KeyIn(s: seq<PageInfo>, p: PageInfo) {
    exists k :: 0 <= k < |s| && SameKey(s[k], p)
  }

  /** The catalog entries at the chosen positions, in the order chosen. */
  function Picked(catalog: seq<PageInfo>, sel: seq<int>): seq<PageInfo>
    requires forall k :: 0 <= k < |sel| ==> 0 <= sel[k] < |catalog|
  {
    seq(|sel|, k requires 0 <= k < |sel| => catalog[sel[k]])
  }

  /** The merge list after offering the entries es one by one. */
  function Added(s: seq<PageInfo>, es: seq<PageInfo>): seq<PageInfo> {
    if es == [] then s
    else
      var t := Added(s, es[..|es| - 1]);
      var e := es[|es| - 1];
      if KeyIn(t, e) then t else t + [e]
  }

  /** Offering one entry more: it is appended unless its key is present. */
  lemma AddedStep(s: seq<PageInfo>, es: seq<PageInfo>, k: int)
    requires 0 <= k < |es|
    ensures Added(s, es[..k + 1]) ==
              if KeyIn(Added(s, es[..k]), es[k]) then Added(s, es[..k])
              else Added(s, es[..k]) + [es[k]]
  {
    assert es[..k + 1][..k] == es[..k];
  }

  /** Adding only appends: the old list is a prefix of the new one, and
      every appended entry is one of the offered entries whose key was not
      yet in the list at the moment it was appended. */
  lemma {:induction false} AddedOnlyAppends(s: seq<PageInfo>, es: seq<PageInfo>)
    ensures s <= Added(s, es)
    ensures |Added(s, es)| <= |s| + |es|
    ensures forall j :: |s| <= j < |Added(s, es)| ==> Added(s, es)[j] in es
    ensures forall j :: |s| <= j < |Added(s, es)| ==> !KeyIn(Added(s, es)[..j], Added(s, es)[j])
  {
    if es != [] {
      var init := es[..|es| - 1];
      var t := Added(s, init);
      var e := es[|es| - 1];
      var r := Added(s, es);
      AddedOnlyAppends(s, init);
      forall j | |s| <= j < |r|
        ensures r[j] in es && !KeyIn(r[..j], r[j])
      {
        if j < |t| {
          assert r[j] == t[j] && r[..j] == t[..j];
          assert t[j] in init;
        } else {
          assert r[..j] == t && r[j] == e;
        }
      }
    }
  }

  /** Afterwards, every offered page's key is in the list. */
  lemma {:induction false} AddedCovers(s: seq<PageInfo>, es: seq<PageInfo>)
    ensures forall e :: e in es ==> KeyIn(Added(s, es), e)
  {
    if es != [] {
      var init := es[..|es| - 1];
      var t := Added(s, init);
      var last := es[|es| - 1];
      var r := Added(s, es);
      AddedCovers(s, init);
      assert t <= r;
      forall e | e in es
        ensures KeyIn(r, e)
      {
        if e in init {
          var k :| 0 <= k < |t| && SameKey(t[k], e);
          assert r[k] == t[k];
        } else {
          assert e == last;
          if !KeyIn(t, e) {
            assert r[|t|] == e;
          } else {
            var k :| 0 <= k < |t| && SameKey(t[k], e);
            assert r[k] == t[k];
          }
        }
      }
    }
  }

  /** A list without duplicate keys stays without them. */
  lemma AddedKeepsDistinct(s: seq<PageInfo>, es: seq<PageInfo>)
    requires DistinctKeys(s)
    ensures DistinctKeys(Added(s, es))
  {
  }

  /** Offering only pages already present changes nothing. */
  lemma {:induction false} AddedNothingNew(s: seq<PageInfo>, es: seq<PageInfo>)
    requires forall e :: e in es ==> KeyIn(s, e)
    ensures Added(s, es) == s
  {
    if es != [] {
      var init := es[..|es| - 1];
      assert forall e :: e in init ==> e in es;
      AddedNothingNew(s, init);
      assert es[|es| - 1] in es;
    }
  }

  /** Repeating the same add adds nothing. */
  lemma AddedIdempotent(s: seq<PageInfo>, es: seq<PageInfo>)
    ensures Added(Added(s, es), es) == Added(s, es)
  {
    AddedCovers(s, es);
    AddedNothingNew(Added(s, es), es);
  }

  /** Deleting an entry keeps a list free of duplicate keys. */
  lemma DeleteKeepsDistinct(s: seq<PageInfo>, i: int)
    requires 0 <= i < |s| && DistinctKeys(s)
    ensures DistinctKeys(Delete(s, i))
  {
  }

  /** Exchanging two entries keeps a list free of duplicate keys. */
  lemma SwapKeepsDistinct(s: seq<PageInfo>, i: int, j: int)
    requires 0 <= i < |s| && 0 <= j < |s| && DistinctKeys(s)
    ensures DistinctKeys(Swap(s, i, j))
  {
  }

  /** Moving one entry keeps a list free of duplicate keys. */
  lemma RepositionKeepsDistinct(s: seq<PageInfo>, from: int, to: int)
    requires 0 <= from < |s| && 0 <= to < |s| && DistinctKeys(s)
    ensures DistinctKeys(Reposition(s, from, to))
  {
  }
}
