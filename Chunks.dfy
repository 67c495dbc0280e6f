/**
 * The chunk directory of a chunked list, as a value: a sequence of chunks,
 * each chunk a sequence of at most `cap` items. The functions here give the
 * directory each list operation leaves behind; the lemmas relate a
 * directory to the flat sequence of items it stands for.
 */
module Chunks {
  import opened ListSpec

  /** The items of a directory, chunk after chunk, each chunk in local order. */
  function Flatten<T>(cs: seq<seq<T>>): seq<T>
  {
    if cs == [] then [] else cs[0] + Flatten(cs[1..])
  }

  /** The chunk invariant of the chunked list: the capacity is positive and
      every chunk holds between 1 and `cap` items (an emptied chunk is dropped
      at once, a full chunk is never added to). */
  ghost predicate WellFormed<T>(cs: seq<seq<T>>, cap: int)
  {
    cap >= 1 && forall k :: 0 <= k < |cs| ==> 1 <= |cs[k]| <= cap
  }

  /** The global index of the first item of chunk `k`: the number of items in
      the chunks before it (the running `start` of the directory scan). */
  function Offset<T>(cs: seq<seq<T>>, k: int): nat
    requires 0 <= k <= |cs|
  {
    |Flatten(cs[..k])|
  }

  /** Chunk `k` holds global index `i`: the read and remove scans stop here. */
  predicate Holds<T>(cs: seq<seq<T>>, k: int, i: int)
  {
    0 <= k < |cs| && Offset(cs, k) <= i < Offset(cs, k) + |cs[k]|
  }

  /** The insertion scan's test for chunk `k`: `start <= i <= end`, except
      that an index exactly `cap` past the chunk's start is compared with
      `end - 1` instead of `end`. */
  predicate AdmitsAdd<T>(cs: seq<seq<T>>, cap: int, k: int, i: int)
    requires 0 <= k < |cs|
  {
    var start := Offset(cs, k);
    var end := start + |cs[k]|;
    start <= i && i <= (if i - start == cap then end - 1 else end)
  }

  /** Chunk `k` is the one the insertion scan picks for index `i`. */
  ghost predicate FirstAdmits<T>(cs: seq<seq<T>>, cap: int, k: int, i: int)
  {
    0 <= k < |cs| && AdmitsAdd(cs, cap, k, i) &&
    forall m :: 0 <= m < k ==> !AdmitsAdd(cs, cap, m, i)
  }

  /** The indices an insertion accepts, stated without the scan: the
      directory has a chunk, `i` lies in `[0, size]`, and `i == size` only
      when the last chunk has room. */
  predicate AddIndexAccepted<T>(cs: seq<seq<T>>, cap: int, i: int)
  {
    cs != [] && 0 <= i <= |Flatten(cs)| &&
    !(i == |Flatten(cs)| && |cs[|cs| - 1]| == cap)
  }

  // ---------------------------------------------------------------------
  // Flattening

  lemma {:induction false} FlattenConcat<T>(a: seq<seq<T>>, b: seq<seq<T>>)
    ensures Flatten(a + b) == Flatten(a) + Flatten(b)
  {
    if a == [] {
      assert a + b == b;
    } else {
      assert (a + b)[1..] == a[1..] + b;
      FlattenConcat(a[1..], b);
    }
  }

  /** A directory with one chunk replaced by the chunks `mid` flattens to the
      items before, the items of `mid`, and the items after. */
  lemma FlattenSplice<T>(cs: seq<seq<T>>, k: int, mid: seq<seq<T>>)
    requires 0 <= k < |cs|
    ensures Flatten(cs) == Flatten(cs[..k]) + cs[k] + Flatten(cs[k + 1..])
    ensures Flatten(cs[..k] + mid + cs[k + 1..]) ==
            Flatten(cs[..k]) + Flatten(mid) + Flatten(cs[k + 1..])
  {
    assert cs == cs[..k] + [cs[k]] + cs[k + 1..];
    FlattenConcat(cs[..k] + [cs[k]], cs[k + 1..]);
    FlattenConcat(cs[..k], [cs[k]]);
    assert Flatten([cs[k]]) == cs[k] + Flatten([]);
    FlattenConcat(cs[..k] + mid, cs[k + 1..]);
    FlattenConcat(cs[..k], mid);
  }

  lemma OffsetNext<T>(cs: seq<seq<T>>, k: int)
    requires 0 <= k < |cs|
    ensures Offset(cs, k + 1) == Offset(cs, k) + |cs[k]|
  {
    assert cs[..k + 1] == cs[..k] + [cs[k]];
    FlattenConcat(cs[..k], [cs[k]]);
    assert Flatten([cs[k]]) == cs[k] + Flatten([]);
  }

  lemma OffsetAll<T>(cs: seq<seq<T>>)
    ensures Offset(cs, |cs|) == |Flatten(cs)|
  {
    assert cs[..|cs|] == cs;
  }

  /** The item at local index `j` of chunk `k` is the item at global index
      `Offset(cs, k) + j`. */
  lemma FlattenAt<T>(cs: seq<seq<T>>, k: int, j: int)
    requires 0 <= k < |cs| && 0 <= j < |cs[k]|
    ensures Offset(cs, k) + j < |Flatten(cs)|
    ensures Flatten(cs)[Offset(cs, k) + j] == cs[k][j]
  {
    FlattenSplice(cs, k, []);
  }

  /** Under the chunk invariant every chunk holds at least one item, so the
      offsets grow by at least one per chunk. */
  lemma {:induction false} OffsetGrows<T>(cs: seq<seq<T>>, cap: int, k: int, m: int)
    requires WellFormed(cs, cap) && 0 <= k <= m <= |cs|
    ensures Offset(cs, k) + (m - k) <= Offset(cs, m)
  {
    if k < m {
      OffsetGrows(cs, cap, k, m - 1);
      OffsetNext(cs, m - 1);
    }
  }

  /** The size of a list is the sum of its chunk sizes, which lies between the
      number of chunks and `cap` times that number; in particular the
      directory is empty exactly when the list has no items. */
  lemma {:induction false} SizeBounds<T>(cs: seq<seq<T>>, cap: int)
    requires WellFormed(cs, cap)
    ensures |cs| <= |Flatten(cs)| <= cap * |cs|
    ensures cs == [] <==> Flatten(cs) == []
  {
    if cs != [] {
      assert WellFormed(cs[1..], cap) by {
        forall k | 0 <= k < |cs[1..]| ensures 1 <= |cs[1..][k]| <= cap {
          assert cs[1..][k] == cs[k + 1];
        }
      }
      SizeBounds(cs[1..], cap);
    }
  }

  /** Whenever the insertion scan admits `i` at some chunk, `i` is one of the
      indices `AddIndexAccepted` describes. */
  lemma AdmitsImpliesAccepted<T>(cs: seq<seq<T>>, cap: int, k: int, i: int)
    requires WellFormed(cs, cap) && 0 <= k < |cs| && AdmitsAdd(cs, cap, k, i)
    ensures AddIndexAccepted(cs, cap, i)
  {
    OffsetNext(cs, k);
    OffsetGrows(cs, cap, k + 1, |cs|);
    OffsetAll(cs);
  }

  // ---------------------------------------------------------------------
  // The directory after each list operation

  /** addFront: a new chunk is put in front only when there is no chunk or
      the front chunk is full; the item then goes first in the front chunk. */
  function AddFront<T>(cs: seq<seq<T>>, cap: int, x: T): (r: seq<seq<T>>)
    requires WellFormed(cs, cap)
    ensures WellFormed(r, cap)
    ensures Flatten(r) == [x] + Flatten(cs)
    ensures |r| == |cs| + 1 <==> cs == [] || |cs[0]| == cap
    ensures |cs| <= |r| <= |cs| + 1
    ensures r[1..] == if |r| == |cs| + 1 then cs else cs[1..]
  {
    if cs == [] || |cs[0]| == cap then
      assert ([[x]] + cs)[1..] == cs;
      [[x]] + cs
    else
      assert ([[x] + cs[0]] + cs[1..])[1..] == cs[1..];
      [[x] + cs[0]] + cs[1..]
  }

  /** addBack: a new chunk is put at the back only when there is no chunk or
      the back chunk is full; the item then goes last in the back chunk. */
  function AddBack<T>(cs: seq<seq<T>>, cap: int, x: T): (r: seq<seq<T>>)
    requires WellFormed(cs, cap)
    ensures WellFormed(r, cap)
    ensures Flatten(r) == Flatten(cs) + [x]
    ensures |r| == |cs| + 1 <==> cs == [] || |cs[|cs| - 1]| == cap
    ensures |cs| <= |r| <= |cs| + 1
    ensures r[..|r| - 1] == if |r| == |cs| + 1 then cs else cs[..|cs| - 1]
  {
    if cs == [] || |cs[|cs| - 1]| == cap then
      FlattenConcat(cs, [[x]]);
      assert Flatten([[x]]) == [x] + Flatten([]);
      cs + [[x]]
    else
      var n := |cs| - 1;
      FlattenSplice(cs, n, [cs[n] + [x]]);
      assert Flatten([cs[n] + [x]]) == cs[n] + [x] + Flatten([]);
      assert cs[n + 1..] == [];
      assert cs[..n] + [cs[n] + [x]] + cs[n + 1..] == cs[n := cs[n] + [x]];
      cs[n := cs[n] + [x]]
  }

  /** removeFront, removeBack and removeIndex: the item at local index `j` of
      chunk `k` is taken out, and the chunk is dropped if that emptied it. */
  function RemoveFrom<T>(cs: seq<seq<T>>, cap: int, k: int, j: int): (r: seq<seq<T>>)
    requires WellFormed(cs, cap) && 0 <= k < |cs| && 0 <= j < |cs[k]|
    ensures WellFormed(r, cap)
    ensures Offset(cs, k) + j < |Flatten(cs)|
    ensures Flatten(r) == RemoveAt(Flatten(cs), Offset(cs, k) + j)
    ensures |r| == (if |cs[k]| == 1 then |cs| - 1 else |cs|)
    ensures r[..k] == cs[..k]
    ensures r[|r| - (|cs| - k - 1)..] == cs[k + 1..]
  {
    var c := RemoveAt(cs[k], j);
    var mid := if c == [] then [] else [c];
    RemoveFromFlatten(cs, k, j, mid);
    var r := cs[..k] + mid + cs[k + 1..];
    assert r[|r| - (|cs| - k - 1)..] == cs[k + 1..];
    assert WellFormed(r, cap) by {
      forall m | 0 <= m < |r| ensures 1 <= |r[m]| <= cap {
        if m < k {
          assert r[m] == cs[m];
        } else if m < k + |mid| {
          assert r[m] == c;
        } else {
          assert r[m] == cs[m - |mid| + 1];
        }
      }
    }
    r
  }

  lemma RemoveFromFlatten<T>(cs: seq<seq<T>>, k: int, j: int, mid: seq<seq<T>>)
    requires 0 <= k < |cs| && 0 <= j < |cs[k]|
    requires mid == if RemoveAt(cs[k], j) == [] then [] else [RemoveAt(cs[k], j)]
    ensures Offset(cs, k) + j < |Flatten(cs)|
    ensures Flatten(cs[..k] + mid + cs[k + 1..]) == RemoveAt(Flatten(cs), Offset(cs, k) + j)
  {
    var before, after := Flatten(cs[..k]), Flatten(cs[k + 1..]);
    assert Flatten(mid) == RemoveAt(cs[k], j) by {
      if mid != [] {
        assert Flatten(mid) == mid[0] + Flatten([]);
      }
    }
    FlattenSplice(cs, k, mid);
    RemoveAtConcat(before, cs[k], after, j);
  }

  /** addIndex at local index `j` of chunk `k`. A chunk with room takes the
      item in place. A full chunk is split first: its last item moves to a
      new one-item chunk placed right after it, and the item goes into the
      original chunk, which therefore stays full. */
  function InsertInto<T>(cs: seq<seq<T>>, cap: int, k: int, j: int, x: T): (r: seq<seq<T>>)
    requires WellFormed(cs, cap) && 0 <= k < |cs| && 0 <= j <= |cs[k]| && j < cap
    ensures WellFormed(r, cap)
    ensures Offset(cs, k) + j <= |Flatten(cs)|
    ensures Flatten(r) == InsertAt(Flatten(cs), Offset(cs, k) + j, x)
    ensures |cs[k]| < cap ==> |r| == |cs| && |r[k]| == |cs[k]| + 1
    ensures |cs[k]| == cap ==>
              |r| == |cs| + 1 && |r[k]| == cap && r[k + 1] == [cs[k][cap - 1]]
    ensures r[..k] == cs[..k]
    ensures r[|r| - (|cs| - k - 1)..] == cs[k + 1..]
  {
    var c := cs[k];
    var mid := if |c| == cap then [InsertAt(c[..cap - 1], j, x), [c[cap - 1]]]
               else [InsertAt(c, j, x)];
    InsertIntoFlatten(cs, cap, k, j, x, mid);
    var r := cs[..k] + mid + cs[k + 1..];
    assert r[|r| - (|cs| - k - 1)..] == cs[k + 1..];
    assert WellFormed(r, cap) by {
      forall m | 0 <= m < |r| ensures 1 <= |r[m]| <= cap {
        if m < k {
          assert r[m] == cs[m];
        } else if m < k + |mid| {
          assert r[m] == mid[m - k];
        } else {
          assert r[m] == cs[m - |mid| + 1];
        }
      }
    }
    r
  }

  lemma InsertIntoFlatten<T>(cs: seq<seq<T>>, cap: int, k: int, j: int, x: T, mid: seq<seq<T>>)
    requires 0 <= k < |cs| && 0 <= j <= |cs[k]| && j < cap && |cs[k]| <= cap
    requires mid == if |cs[k]| == cap then [InsertAt(cs[k][..cap - 1], j, x), [cs[k][cap - 1]]]
                    else [InsertAt(cs[k], j, x)]
    ensures Offset(cs, k) + j <= |Flatten(cs)|
    ensures Flatten(cs[..k] + mid + cs[k + 1..]) == InsertAt(Flatten(cs), Offset(cs, k) + j, x)
  {
    var before, after := Flatten(cs[..k]), Flatten(cs[k + 1..]);
    assert Flatten(mid) == InsertAt(cs[k], j, x) by {
      MidFlatten(cs[k], cap, j, x, mid);
    }
    FlattenSplice(cs, k, mid);
    InsertAtConcat(before, cs[k], after, j, x);
  }

  /** The chunk or the two chunks that replace chunk `c` hold `c` with `x`
      inserted at `j`. */
  lemma MidFlatten<T>(c: seq<T>, cap: int, j: int, x: T, mid: seq<seq<T>>)
    requires 0 <= j <= |c| && j < cap && |c| <= cap
    requires mid == if |c| == cap then [InsertAt(c[..cap - 1], j, x), [c[cap - 1]]]
                    else [InsertAt(c, j, x)]
    ensures Flatten(mid) == InsertAt(c, j, x)
  {
    if |c| == cap {
      var front, moved := mid[0], mid[1];
      assert front + moved == InsertAt(c, j, x) by {
        assert c == c[..cap - 1] + [c[cap - 1]];
        InsertAtConcat([], c[..cap - 1], [c[cap - 1]], j, x);
      }
      assert mid[1..] == [moved];
      assert Flatten([moved]) == moved + Flatten([]);
    } else {
      assert Flatten(mid) == InsertAt(c, j, x) + Flatten([]);
    }
  }

  /** setIndex at local index `j` of chunk `k`: only that item changes, and
      no chunk changes size. */
  function SetIn<T>(cs: seq<seq<T>>, cap: int, k: int, j: int, v: T): (r: seq<seq<T>>)
    requires WellFormed(cs, cap) && 0 <= k < |cs| && 0 <= j < |cs[k]|
    ensures WellFormed(r, cap)
    ensures Offset(cs, k) + j < |Flatten(cs)|
    ensures Flatten(r) == Flatten(cs)[Offset(cs, k) + j := v]
    ensures |r| == |cs| && forall m :: 0 <= m < |r| ==> |r[m]| == |cs[m]|
  {
    var c' := cs[k][j := v];
    FlattenAt(cs, k, j);
    FlattenSplice(cs, k, [c']);
    assert Flatten([c']) == c' + Flatten([]);
    assert cs[..k] + [c'] + cs[k + 1..] == cs[k := c'];
    cs[k := c']
  }
}
