/**
 * The list contract shared by the three list representations: the two
 * failure kinds every operation may signal, and the abstract effect of an
 * insertion or a removal at a position on the sequence of items.
 */
module ListSpec {

  /** What a list operation produces: a value, or one of the two failures
      of the list contract. A bad-index failure carries the offending index. */
  datatype Outcome<T> = Ok(value: T) | BadIndex(index: int) | EmptyList

  /** The sequence `s` with `x` placed at position `i`; items from `i` on
      move one place to the right. */
  function InsertAt<T>(s: seq<T>, i: int, x: T): (r: seq<T>)
    requires 0 <= i <= |s|
    ensures |r| == |s| + 1
    ensures r[i] == x
    ensures forall j :: 0 <= j < i ==> r[j] == s[j]
    ensures forall j :: i < j < |r| ==> r[j] == s[j - 1]
  {
    assert s == s[..i] + s[i..];
    s[..i] + [x] + s[i..]
  }

  /** The sequence `s` without its item at position `i`; items after `i`
      move one place to the left. */
  function RemoveAt<T>(s: seq<T>, i: int): (r: seq<T>)
    requires 0 <= i < |s|
    ensures |r| == |s| - 1
    ensures forall j :: 0 <= j < i ==> r[j] == s[j]
    ensures forall j :: i <= j < |r| ==> r[j] == s[j + 1]
  {
    assert s == s[..i] + [s[i]] + s[i + 1..];
    s[..i] + s[i + 1..]
  }

  /** An insertion adds exactly the inserted item: the result is a
      permutation of the original plus `x`. */
  lemma InsertAtMultiset<T>(s: seq<T>, i: int, x: T)
    requires 0 <= i <= |s|
    ensures multiset(InsertAt(s, i, x)) == multiset(s) + multiset{x}
  {
    assert s == s[..i] + s[i..];
  }

  /** A removal takes away exactly the removed item. */
  lemma RemoveAtMultiset<T>(s: seq<T>, i: int)
    requires 0 <= i < |s|
    ensures multiset(RemoveAt(s, i)) + multiset{s[i]} == multiset(s)
  {
    assert s == s[..i] + [s[i]] + s[i + 1..];
  }

  /** Removing what was just inserted gives back the original sequence. */
  lemma RemoveAfterInsert<T>(s: seq<T>, i: int, x: T)
    requires 0 <= i <= |s|
    ensures RemoveAt(InsertAt(s, i, x), i) == s
  {
    var r := RemoveAt(InsertAt(s, i, x), i);
    assert |r| == |s|;
    forall j | 0 <= j < |s| ensures r[j] == s[j] {
    }
  }

  /** Putting a removed item back where it was gives back the original sequence. */
  lemma InsertAfterRemove<T>(s: seq<T>, i: int)
    requires 0 <= i < |s|
    ensures InsertAt(RemoveAt(s, i), i, s[i]) == s
  {
    var r := InsertAt(RemoveAt(s, i), i, s[i]);
    assert |r| == |s|;
    forall j | 0 <= j < |s| ensures r[j] == s[j] {
    }
  }

  /** Inserting inside a middle piece is inserting into the whole at the
      shifted position. */
  lemma InsertAtConcat<T>(a: seq<T>, c: seq<T>, b: seq<T>, j: int, x: T)
    requires 0 <= j <= |c|
    ensures a + InsertAt(c, j, x) + b == InsertAt(a + c + b, |a| + j, x)
  {
    var lhs, rhs := a + InsertAt(c, j, x) + b, InsertAt(a + c + b, |a| + j, x);
    assert |lhs| == |rhs|;
    forall m | 0 <= m < |lhs| ensures lhs[m] == rhs[m] {
      if m < |a| {
      } else if m < |a| + |c| + 1 {
      } else {
      }
    }
  }

  /** Removing inside a middle piece is removing from the whole at the
      shifted position. */
  lemma RemoveAtConcat<T>(a: seq<T>, c: seq<T>, b: seq<T>, j: int)
    requires 0 <= j < |c|
    ensures a + RemoveAt(c, j) + b == RemoveAt(a + c + b, |a| + j)
  {
    var lhs, rhs := a + RemoveAt(c, j) + b, RemoveAt(a + c + b, |a| + j);
    assert |lhs| == |rhs|;
    forall m | 0 <= m < |lhs| ensures lhs[m] == rhs[m] {
      if m < |a| {
      } else if m < |a| + |c| - 1 {
      } else {
      }
    }
  }

  /** No item occurs twice in `s`. */
  ghost predicate Distinct<T>(s: seq<T>)
  {
    forall i, j :: 0 <= i < j < |s| ==> s[i] != s[j]
  }

  /** In a sequence without repetitions, different positions hold different items. */
  lemma DistinctAt<T>(s: seq<T>, i: int, j: int)
    requires Distinct(s) && 0 <= i < |s| && 0 <= j < |s| && i != j
    ensures s[i] != s[j]
  {
    if i > j {
      DistinctAt(s, j, i);
    }
  }

  /** A slice of a sequence without repetitions has none either. */
  lemma DistinctSlice<T>(s: seq<T>, lo: int, hi: int)
    requires Distinct(s) && 0 <= lo <= hi <= |s|
    ensures Distinct(s[lo..hi])
  {
    forall i, j | 0 <= i < j < hi - lo ensures s[lo..hi][i] != s[lo..hi][j] {
      assert s[lo..hi][i] == s[lo + i] && s[lo..hi][j] == s[lo + j];
    }
  }

  /** Adding a new item at either end keeps a sequence free of repetitions. */
  lemma DistinctEnds<T>(s: seq<T>, x: T)
    requires Distinct(s) && x !in s
    ensures Distinct([x] + s) && Distinct(s + [x])
  {
    forall i, j | 0 <= i < j < |s| + 1 ensures ([x] + s)[i] != ([x] + s)[j] {
      if i == 0 {
        assert ([x] + s)[j] == s[j - 1];
      } else {
        assert ([x] + s)[i] == s[i - 1] && ([x] + s)[j] == s[j - 1];
      }
    }
    forall i, j | 0 <= i < j < |s| + 1 ensures (s + [x])[i] != (s + [x])[j] {
      if j == |s| {
        assert (s + [x])[i] == s[i];
      } else {
        assert (s + [x])[i] == s[i] && (s + [x])[j] == s[j];
      }
    }
  }

  /** Removing an item keeps a sequence free of repetitions. */
  lemma DistinctRemoveAt<T>(s: seq<T>, k: int)
    requires Distinct(s) && 0 <= k < |s|
    ensures Distinct(RemoveAt(s, k))
  {
    var r := RemoveAt(s, k);
    forall i, j | 0 <= i < j < |r| ensures r[i] != r[j] {
      var i', j' := if i < k then i else i + 1, if j < k then j else j + 1;
      assert r[i] == s[i'] && r[j] == s[j'];
    }
  }

  /** Inserting a new item keeps a sequence free of repetitions. */
  lemma DistinctInsertAt<T>(s: seq<T>, k: int, x: T)
    requires Distinct(s) && 0 <= k <= |s| && x !in s
    ensures Distinct(InsertAt(s, k, x))
  {
    var r := InsertAt(s, k, x);
    forall i, j | 0 <= i < j < |r| ensures r[i] != r[j] {
      if i != k && j != k {
        var i', j' := if i < k then i else i - 1, if j < k then j else j - 1;
        assert r[i] == s[i'] && r[j] == s[j'];
      } else if i == k {
        assert r[j] == s[j - 1];
      } else {
        assert r[i] == s[i];
      }
    }
  }
}
