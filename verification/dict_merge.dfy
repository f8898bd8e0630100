/**
 `dictmerge(dict1, dict2)`: merge `dict2` into `dict1` key by key. Where both
 hold a mapping under the same key the two are merged recursively; anywhere
 else `dict2`'s value replaces or adds to `dict1`'s.

 A value is either a leaf (anything without `items`) or a mapping.
 */
module DictMerge {
  import opened Rows

  datatype Value = Leaf(leaf: Scalar) | Dict(entries: map<string, Value>)

  /** Whether the merge recurses at `k`: both sides hold a mapping there. */
  predicate BothDicts(d1: map<string, Value>, d2: map<string, Value>, k: string) {
    k in d1 && k in d2 && d1[k].Dict? && d2[k].Dict?
  }

  function Merge(d1: map<string, Value>, d2: map<string, Value>): (r: map<string, Value>)
    // every key of either side, and no other
    ensures r.Keys == d1.Keys + d2.Keys
    // a key only `dict1` has keeps its value
    ensures forall k :: k in d1 && k !in d2 ==> r[k] == d1[k]
    // `dict2` wins wherever the two are not both mappings
    ensures forall k :: k in d2 && !BothDicts(d1, d2, k) ==> r[k] == d2[k]
    // two mappings under one key are merged
    ensures forall k :: BothDicts(d1, d2, k) ==> r[k] == Dict(Merge(d1[k].entries, d2[k].entries))
    decreases Dict(d2)
  {
    map k | k in d1.Keys + d2.Keys ::
      if k !in d2 then d1[k]
      else if BothDicts(d1, d2, k) then Dict(Merge(d1[k].entries, d2[k].entries))
      else d2[k]
  }

  /** Merging nothing in leaves `dict1` as it was. */
  lemma MergeEmpty(d1: map<string, Value>)
    ensures Merge(d1, map[]) == d1
  {
  }

  /** Merging into nothing copies `dict2`. */
  lemma MergeIntoEmpty(d2: map<string, Value>)
    ensures Merge(map[], d2) == d2
  {
  }

  /** Merging a mapping into itself changes nothing. */
  lemma {:induction false} MergeSelf(d: map<string, Value>)
    ensures Merge(d, d) == d
    decreases Dict(d)
  {
    forall k | k in d && d[k].Dict?
      ensures Merge(d[k].entries, d[k].entries) == d[k].entries
    {
      MergeSelf(d[k].entries);
    }
    assert Merge(d, d) == d;
  }

  /** Merging the same `dict2` a second time changes nothing further. */
  lemma {:induction false} MergeIdempotent(d1: map<string, Value>, d2: map<string, Value>)
    ensures Merge(Merge(d1, d2), d2) == Merge(d1, d2)
    decreases Dict(d2)
  {
    var once := Merge(d1, d2);
    forall k | BothDicts(once, d2, k)
      ensures Dict(Merge(once[k].entries, d2[k].entries)) == once[k]
    {
      if BothDicts(d1, d2, k) {
        MergeIdempotent(d1[k].entries, d2[k].entries);
      } else {
        MergeSelf(d2[k].entries);
      }
    }
    assert Merge(once, d2) == once;
  }
}
