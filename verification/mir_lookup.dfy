/**
 The microRNA constraint lookup of `Puma.__init__`: each name read from the
 miR file is located in the sorted TF-name list with numpy's `searchsorted`
 (leftmost insertion point), and the position is mapped through `argsort`,
 which is the identity on a list that is already sorted.
 */
module MirLookup {
  import opened Options


  /** Python's `<` on `str`: lexicographic by code point, a proper prefix first. */
  predicate Below(a: string, b: string)
    ensures Below(a, b) ==> a != b
  {
    if |a| == 0 then |b| > 0
    else if |b| == 0 then false
    else if a[0] != b[0] then a[0] < b[0]
    else Below(a[1..], b[1..])
  }

  lemma {:induction false} BelowIrreflexive(a: string)
    ensures !Below(a, a)
  {
    if |a| > 0 {
      BelowIrreflexive(a[1..]);
    }
  }

  lemma {:induction false} BelowTransitive(a: string, b: string, c: string)
    requires Below(a, b) && Below(b, c)
    ensures Below(a, c)
  {
    if |a| > 0 && |b| > 0 && |c| > 0 && a[0] == b[0] && b[0] == c[0] {
      BelowTransitive(a[1..], b[1..], c[1..]);
    }
  }

  /**
   `sorted(set(...))`: strictly increasing, so every name occurs once and
   `np.argsort` of the list is the identity permutation.
   */
  predicate StrictlySorted(names: seq<string>) {
    forall i, j :: 0 <= i < j < |names| ==> Below(names[i], names[j])
  }

  /** `k` is the leftmost insertion point of `x`: every name before it is below `x`, none after. */
  predicate InsertionPoint(names: seq<string>, x: string, k: nat) {
    k <= |names| &&
    (forall i :: 0 <= i < k ==> Below(names[i], x)) &&
    (forall i :: k <= i < |names| ==> !Below(names[i], x))
  }

  /**
   `np.searchsorted(names, x)` with the default `side='left'`: a binary
   search for the leftmost insertion point.
   */
  method SearchSorted(names: seq<string>, x: string) returns (k: nat)
    requires StrictlySorted(names)
    ensures InsertionPoint(names, x, k)
  {
    var lo, hi := 0, |names|;
    while lo < hi
      invariant 0 <= lo <= hi <= |names|
      invariant forall i :: 0 <= i < lo ==> Below(names[i], x)
      invariant forall i :: hi <= i < |names| ==> !Below(names[i], x)
    {
      var mid := (lo + hi) / 2;
      if Below(names[mid], x) {
        forall i | 0 <= i < mid ensures Below(names[i], x) {
          BelowTransitive(names[i], names[mid], x);
        }
        lo := mid + 1;
      } else {
        forall i | mid < i < |names| ensures !Below(names[i], x) {
          if Below(names[i], x) {
            BelowTransitive(names[mid], names[i], x);
          }
        }
        hi := mid;
      }
    }
    k := lo;
  }

  /** When `x` is one of the sorted names, its insertion point is its own position. */
  lemma ExactMatch(names: seq<string>, x: string, k: nat, m: nat)
    requires StrictlySorted(names) && InsertionPoint(names, x, k)
    requires m < |names| && names[m] == x
    ensures k == m
  {
    BelowIrreflexive(x);
    assert k < |names| ==> !Below(names[k], x);
  }

  /** Some name is not below `x`, so its insertion point is a valid index. */
  predicate HasSlot(names: seq<string>, x: string) {
    exists i :: 0 <= i < |names| && !Below(names[i], x)
  }

  /**
   Lines 45-47: `s1 = sort_idx[np.searchsorted(TFNames, miR, sorter=sort_idx)]`.
   A name past the last TF has insertion point `len(TFNames)`, and indexing
   `sort_idx` with it raises `IndexError`: the result is then `None`. A name
   that is one of the TFs resolves to that TF's position.
   */
  method ConstrainedIndices(tfNames: seq<string>, mir: seq<string>) returns (r: Option<seq<nat>>)
    requires StrictlySorted(tfNames)
    ensures r.Some? <==> forall j :: 0 <= j < |mir| ==> HasSlot(tfNames, mir[j])
    ensures r.Some? ==> |r.value| == |mir|
    ensures r.Some? ==> forall j :: 0 <= j < |mir| ==>
      r.value[j] < |tfNames| && InsertionPoint(tfNames, mir[j], r.value[j])
    ensures r.Some? ==> forall j :: 0 <= j < |mir| && mir[j] in tfNames ==> tfNames[r.value[j]] == mir[j]
  {
    var positions: seq<nat> := [];
    for j := 0 to |mir|
      invariant |positions| == j
      invariant forall q :: 0 <= q < j ==> InsertionPoint(tfNames, mir[q], positions[q])
    {
      var k := SearchSorted(tfNames, mir[j]);
      positions := positions + [k];
    }
    // `sort_idx` is the identity permutation of `range(len(tfNames))`
    var j := 0;
    while j < |mir|
      invariant j <= |mir|
      invariant forall q :: 0 <= q < j ==> positions[q] < |tfNames|
    {
      if positions[j] == |tfNames| {
        assert !HasSlot(tfNames, mir[j]);
        return None;
      }
      j := j + 1;
    }
    forall q | 0 <= q < |mir| ensures HasSlot(tfNames, mir[q]) {
      assert !Below(tfNames[positions[q]], mir[q]);
    }
    forall q | 0 <= q < |mir| && mir[q] in tfNames
      ensures tfNames[positions[q]] == mir[q]
    {
      var m :| 0 <= m < |tfNames| && tfNames[m] == mir[q];
      ExactMatch(tfNames, mir[q], positions[q], m);
    }
    r := Some(positions);
  }
}
