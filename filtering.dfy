/**
 The generic, forward-only sequence filter (a hand-written `Where`).

 The generator walks its source once, front to back, and hands out every
 element the predicate accepts. Here the source is a finite sequence, the
 predicate a total function, and the output the whole sequence the
 generator would yield if it were run to the end. Its laziness is stated by
 the prefix lemmas at the end of the module: what has been yielded after
 reading part of the source depends on that part only.
 */
module Filtering {

  /** The elements of `items` for which `f` holds, in source order. */
  function Filter<T>(items: seq<T>, f: T -> bool): (r: seq<T>)
    ensures |r| <= |items|
    ensures forall k :: 0 <= k < |r| ==> f(r[k]) && r[k] in items
  {
    if |items| == 0 then []
    else (if f(items[0]) then [items[0]] else []) + Filter(items[1..], f)
  }

  /** Nothing matching is dropped and nothing is invented: an element is in
      the output exactly when it is in the source and satisfies `f`. */
  lemma {:induction false} FilterMembership<T>(items: seq<T>, f: T -> bool, x: T)
    ensures x in Filter(items, f) <==> x in items && f(x)
  {
    if |items| != 0 {
      FilterMembership(items[1..], f, x);
      assert items == [items[0]] + items[1..];
    }
  }

  /** The walk is compositional: filtering a concatenation filters each part
      in turn and concatenates the results. */
  lemma {:induction false} FilterAppend<T>(a: seq<T>, b: seq<T>, f: T -> bool)
    ensures Filter(a + b, f) == Filter(a, f) + Filter(b, f)
  {
    if |a| == 0 {
      assert a + b == b;
    } else {
      assert (a + b)[1..] == a[1..] + b;
      FilterAppend(a[1..], b, f);
    }
  }

  /** Streaming: what has been yielded after reading the first `n` source
      elements is a prefix of the complete output. */
  lemma {:induction false} FilterPrefix<T>(items: seq<T>, n: nat, f: T -> bool)
    requires n <= |items|
    ensures Filter(items[..n], f) <= Filter(items, f)
  {
    assert items == items[..n] + items[n..];
    FilterAppend(items[..n], items[n..], f);
  }

  /** One step of the walk: reading source element `n` yields that element
      if it matches and nothing otherwise, and leaves what was already
      yielded untouched. */
  lemma {:induction false} FilterStep<T>(items: seq<T>, n: nat, f: T -> bool)
    requires n < |items|
    ensures Filter(items[..n + 1], f)
         == Filter(items[..n], f) + (if f(items[n]) then [items[n]] else [])
  {
    assert items[..n + 1] == items[..n] + [items[n]];
    FilterAppend(items[..n], [items[n]], f);
    assert [items[n]][1..] == [];
  }

  /** The output equals the source exactly when every source element
      satisfies the predicate (so an always-true predicate gives the
      identity). */
  lemma {:induction false} FilterKeepsAll<T>(items: seq<T>, f: T -> bool)
    ensures Filter(items, f) == items <==> forall k :: 0 <= k < |items| ==> f(items[k])
  {
    if forall k :: 0 <= k < |items| ==> f(items[k]) {
      KeepsAllWhenAllMatch(items, f);
    } else {
      var k :| 0 <= k < |items| && !f(items[k]);
      FilterMembership(items, f, items[k]);
    }
  }

  lemma {:induction false} KeepsAllWhenAllMatch<T>(items: seq<T>, f: T -> bool)
    requires forall k :: 0 <= k < |items| ==> f(items[k])
    ensures Filter(items, f) == items
  {
    if |items| != 0 {
      KeepsAllWhenAllMatch(items[1..], f);
      assert items == [items[0]] + items[1..];
    }
  }

  /** The output is empty exactly when no source element satisfies the
      predicate (so an always-false predicate gives the empty result). */
  lemma {:induction false} FilterDropsAll<T>(items: seq<T>, f: T -> bool)
    ensures Filter(items, f) == [] <==> forall k :: 0 <= k < |items| ==> !f(items[k])
  {
    if forall k :: 0 <= k < |items| ==> !f(items[k]) {
      if Filter(items, f) != [] {
        var y := Filter(items, f)[0];
        FilterMembership(items, f, y);
      }
    } else {
      var k :| 0 <= k < |items| && f(items[k]);
      FilterMembership(items, f, items[k]);
    }
  }

  /** The output is as long as the source exactly when nothing is dropped. */
  lemma {:induction false} FilterLength<T>(items: seq<T>, f: T -> bool)
    ensures |Filter(items, f)| == |items| <==> forall k :: 0 <= k < |items| ==> f(items[k])
  {
    FilterKeepsAll(items, f);
    if |Filter(items, f)| == |items| {
      var idx := KeptIndices(items, f);
      OrderedSelection(items, f);
      // |items| strictly increasing indices below |items| can only be 0, 1, ...
      IncreasingFullIndices(idx, |items|);
    }
  }

  /** The source positions the filter keeps, in increasing order. */
  ghost function KeptIndices<T>(items: seq<T>, f: T -> bool): seq<nat>
  {
    if |items| == 0 then []
    else KeptIndices(items[..|items| - 1], f)
         + (if f(items[|items| - 1]) then [|items| - 1] else [])
  }

  /** `r` is `s` read at the strictly increasing positions `idx`. */
  ghost predicate SelectedAt<T>(r: seq<T>, s: seq<T>, idx: seq<nat>)
  {
    && |idx| == |r|
    && (forall k :: 0 <= k < |idx| ==> idx[k] < |s| && s[idx[k]] == r[k])
    && (forall k, l :: 0 <= k < l < |idx| ==> idx[k] < idx[l])
  }

  /** The output is an order-preserving subsequence of the source, and the
      positions it is read at are exactly those whose element satisfies the
      predicate: no element is duplicated, reordered, dropped or invented. */
  lemma {:induction false} OrderedSelection<T>(items: seq<T>, f: T -> bool)
    ensures SelectedAt(Filter(items, f), items, KeptIndices(items, f))
    ensures forall i :: 0 <= i < |items| ==> (i in KeptIndices(items, f) <==> f(items[i]))
  {
    KeptIndicesLength(items, f);
    KeptIndicesMatch(items, f);
    KeptIndicesIncreasing(items, f);
    KeptIndicesRead(items, f);
    KeptIndicesComplete(items, f);
  }

  /** Kept positions are strictly increasing. */
  lemma {:induction false} KeptIndicesIncreasing<T>(items: seq<T>, f: T -> bool)
    ensures forall k, l :: 0 <= k < l < |KeptIndices(items, f)| ==>
      KeptIndices(items, f)[k] < KeptIndices(items, f)[l]
  {
    if |items| != 0 {
      var n := |items|;
      var p := items[..n - 1];
      var idx, idxP := KeptIndices(items, f), KeptIndices(p, f);
      assert idx == idxP + (if f(items[n - 1]) then [n - 1] else []);
      KeptIndicesIncreasing(p, f);
      KeptIndicesMatch(p, f);
    }
  }

  /** The output, read position by position, is the source read at the kept
      positions. */
  lemma {:induction false} KeptIndicesRead<T>(items: seq<T>, f: T -> bool)
    ensures |KeptIndices(items, f)| == |Filter(items, f)|
    ensures forall k :: 0 <= k < |KeptIndices(items, f)| ==>
      KeptIndices(items, f)[k] < |items| && items[KeptIndices(items, f)[k]] == Filter(items, f)[k]
  {
    KeptIndicesLength(items, f);
    KeptIndicesMatch(items, f);
    if |items| != 0 {
      var n := |items|;
      var p := items[..n - 1];
      var idx, idxP := KeptIndices(items, f), KeptIndices(p, f);
      assert idx == idxP + (if f(items[n - 1]) then [n - 1] else []);
      FilterStep(items, n - 1, f);
      assert items[..n] == items;
      KeptIndicesRead(p, f);
      forall k | 0 <= k < |idx|
        ensures items[idx[k]] == Filter(items, f)[k]
      {
        if k < |idxP| {
          assert items[idxP[k]] == p[idxP[k]];
        }
      }
    }
  }

  /** Every matching source position is kept. */
  lemma {:induction false} KeptIndicesComplete<T>(items: seq<T>, f: T -> bool)
    ensures forall i :: 0 <= i < |items| && f(items[i]) ==> i in KeptIndices(items, f)
  {
    if |items| != 0 {
      var n := |items|;
      var p := items[..n - 1];
      var idx, idxP := KeptIndices(items, f), KeptIndices(p, f);
      assert idx == idxP + (if f(items[n - 1]) then [n - 1] else []);
      KeptIndicesComplete(p, f);
      forall i | 0 <= i < n && f(items[i])
        ensures i in idx
      {
        if i < n - 1 {
          assert items[i] == p[i];
          assert i in idxP;
        }
      }
    }
  }

  lemma {:induction false} IncreasingFullIndices(idx: seq<nat>, n: nat)
    requires |idx| == n
    requires forall k :: 0 <= k < |idx| ==> idx[k] < n
    requires forall k, l :: 0 <= k < l < |idx| ==> idx[k] < idx[l]
    ensures forall k :: 0 <= k < |idx| ==> idx[k] == k
  {
    if n != 0 {
      assert idx[n - 1] == n - 1 by {
        IncreasingLowerBound(idx, n - 1);
      }
      IncreasingFullIndices(idx[..n - 1], n - 1);
    }
  }

  lemma {:induction false} IncreasingLowerBound(idx: seq<nat>, k: nat)
    requires k < |idx|
    requires forall i, j :: 0 <= i < j < |idx| ==> idx[i] < idx[j]
    ensures idx[k] >= k
  {
    if k != 0 {
      IncreasingLowerBound(idx, k - 1);
    }
  }

  /** Every kept position lies inside the source and holds a matching
      element. */
  lemma {:induction false} KeptIndicesMatch<T>(items: seq<T>, f: T -> bool)
    ensures forall k :: 0 <= k < |KeptIndices(items, f)| ==>
      KeptIndices(items, f)[k] < |items| && f(items[KeptIndices(items, f)[k]])
  {
    if |items| != 0 {
      var p := items[..|items| - 1];
      KeptIndicesMatch(p, f);
      forall k | 0 <= k < |KeptIndices(p, f)|
        ensures items[KeptIndices(p, f)[k]] == p[KeptIndices(p, f)[k]]
      {
      }
    }
  }

  /** One kept position per output element. */
  lemma {:induction false} KeptIndicesLength<T>(items: seq<T>, f: T -> bool)
    ensures |KeptIndices(items, f)| == |Filter(items, f)|
  {
    if |items| != 0 {
      var n := |items|;
      var p, last := items[..n - 1], items[n - 1];
      assert items == p + [last];
      FilterAppend(p, [last], f);
      assert [last][1..] == [];
      KeptIndicesLength(p, f);
    }
  }

  /** Laziness: the `j`-th output is yielded exactly when the generator reads
      the source position of the `j`-th match. Before that position it has
      yielded only the `j` earlier outputs; reading that position yields the
      `j`-th as well, without looking any further into the source. */
  lemma {:induction false} DemandBoundedByMatches<T>(items: seq<T>, f: T -> bool, j: nat)
    requires j < |KeptIndices(items, f)|
    ensures KeptIndices(items, f)[j] < |items| && j < |Filter(items, f)|
    ensures Filter(items[..KeptIndices(items, f)[j]], f) == Filter(items, f)[..j]
    ensures Filter(items[..KeptIndices(items, f)[j] + 1], f) == Filter(items, f)[..j + 1]
  {
    var m := KeptIndices(items, f)[j];
    KeptIndicesBefore(items, f, j);
    KeptIndicesLength(items, f);
    KeptIndicesLength(items[..m], f);
    FilterStep(items, m, f);
    FilterPrefix(items, m, f);
    FilterPrefix(items, m + 1, f);
  }

  /** The positions kept before the `j`-th kept position are the `j`
      earlier ones, and the element there matches. */
  lemma {:induction false} KeptIndicesBefore<T>(items: seq<T>, f: T -> bool, j: nat)
    requires j < |KeptIndices(items, f)|
    ensures KeptIndices(items, f)[j] < |items| && f(items[KeptIndices(items, f)[j]])
    ensures KeptIndices(items[..KeptIndices(items, f)[j]], f) == KeptIndices(items, f)[..j]
  {
    var idx := KeptIndices(items, f);
    KeptIndicesMatch(items, f);
    var m := idx[j];
    var upTo := items[..m + 1];
    KeptIndicesUpTo(items, f, j);
    assert upTo[..m] == items[..m] && upTo[m] == items[m];
    assert KeptIndices(upTo, f) == KeptIndices(items[..m], f) + [m];
    assert idx[..j + 1] == idx[..j] + [m];
  }

  /** Reading the source up to and including the `j`-th kept position keeps
      exactly the first `j + 1` kept positions. */
  lemma {:induction false} KeptIndicesUpTo<T>(items: seq<T>, f: T -> bool, j: nat)
    requires j < |KeptIndices(items, f)|
    ensures KeptIndices(items, f)[j] < |items|
    ensures KeptIndices(items[..KeptIndices(items, f)[j] + 1], f) == KeptIndices(items, f)[..j + 1]
  {
    var n := |items|;
    assert n != 0;
    var p := items[..n - 1];
    var idx, idxP := KeptIndices(items, f), KeptIndices(p, f);
    assert idx == idxP + (if f(items[n - 1]) then [n - 1] else []);
    KeptIndicesMatch(p, f);
    if j < |idxP| {
      assert idx[j] == idxP[j];
      KeptIndicesUpTo(p, f, j);
      var m := idxP[j];
      assert m < n - 1;
      assert items[..m + 1] == p[..m + 1];
      assert idx[..j + 1] == idxP[..j + 1];
      assert KeptIndices(items[..m + 1], f) == KeptIndices(p[..m + 1], f);
    } else {
      assert idx[j] == n - 1 && idx[..j + 1] == idx;
      assert items[..n] == items;
    }
  }
}
