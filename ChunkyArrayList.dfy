/**
 * The chunked list: a directory of fixed-capacity chunks. Every operation
 * addressed by a global index scans the directory from the front, keeping
 * the running offset `start` of the current chunk.
 */
module Chunky {
  import opened ListSpec
  import opened Chunks

  class ChunkyArrayList<T> {
    /** The capacity of every chunk, fixed at construction. */
    const chunkSize: int
    /** The directory: each chunk's items, in list order. */
    var chunks: seq<seq<T>>

    ghost predicate Valid()
      reads this
    {
      WellFormed(chunks, chunkSize)
    }

    /** The list the directory stands for. */
    ghost function Contents(): seq<T>
      reads this
    {
      Flatten(chunks)
    }

    constructor (chunkSize: int)
      requires chunkSize >= 1
      ensures Valid()
      ensures this.chunkSize == chunkSize && chunks == [] && Contents() == []
    {
      this.chunkSize := chunkSize;
      chunks := [];
    }

    method RemoveFront() returns (r: Outcome<T>)
      requires Valid()
      modifies this
      ensures Valid()
      ensures old(chunks) == [] ==> r == EmptyList && chunks == old(chunks)
      ensures old(chunks) != [] ==>
                r == Ok(old(Contents())[0]) &&
                Contents() == old(Contents())[1..] &&
                chunks == RemoveFrom(old(chunks), chunkSize, 0, 0)
    {
      if chunks == [] {
        return EmptyList;
      }
      var removed := chunks[0][0];
      chunks := chunks[0 := chunks[0][1..]];
      if chunks[0] == [] {
        chunks := chunks[1..];
      }
      ghost var was := old(chunks);
      assert RemoveAt(was[0], 0) == was[0][1..];
      assert chunks == RemoveFrom(was, chunkSize, 0, 0);
      FlattenAt(was, 0, 0);
      return Ok(removed);
    }

    method RemoveBack() returns (r: Outcome<T>)
      requires Valid()
      modifies this
      ensures Valid()
      ensures old(chunks) == [] ==> r == EmptyList && chunks == old(chunks)
      ensures old(chunks) != [] ==>
                var n := |old(Contents())|;
                r == Ok(old(Contents())[n - 1]) &&
                Contents() == old(Contents())[..n - 1] &&
                chunks == RemoveFrom(old(chunks), chunkSize, |old(chunks)| - 1,
                                     |old(chunks)[|old(chunks)| - 1]| - 1)
    {
      if chunks == [] {
        return EmptyList;
      }
      var b := |chunks| - 1;
      var back := chunks[b];
      var removed := back[|back| - 1];
      chunks := chunks[b := back[..|back| - 1]];
      if chunks[b] == [] {
        chunks := chunks[..b];
      }
      ghost var was := old(chunks);
      assert RemoveAt(back, |back| - 1) == back[..|back| - 1];
      assert chunks == RemoveFrom(was, chunkSize, b, |back| - 1);
      FlattenAt(was, b, |back| - 1);
      OffsetNext(was, b);
      OffsetAll(was);
      return Ok(removed);
    }

    method RemoveIndex(index: int) returns (r: Outcome<T>)
      requires Valid()
      modifies this
      ensures Valid()
      ensures old(chunks) == [] ==> r == EmptyList && chunks == old(chunks)
      ensures old(chunks) != [] && !(0 <= index < |old(Contents())|) ==>
                r == BadIndex(index) && chunks == old(chunks)
      ensures 0 <= index < |old(Contents())| ==>
                r == Ok(old(Contents())[index]) &&
                Contents() == RemoveAt(old(Contents()), index) &&
                exists k :: Holds(old(chunks), k, index) &&
                  chunks == RemoveFrom(old(chunks), chunkSize, k, index - Offset(old(chunks), k))
    {
      if chunks == [] {
        return EmptyList;
      }
      var start := 0;
      var chunkIndex := 0;
      while chunkIndex < |chunks|
        invariant 0 <= chunkIndex <= |chunks|
        invariant chunks == old(chunks)
        invariant start == Offset(chunks, chunkIndex)
        invariant !(0 <= index < start)
      {
        var chunk := chunks[chunkIndex];
        var end := start + |chunk|;
        if start <= index && index < end {
          assert Holds(chunks, chunkIndex, index);
          FlattenAt(chunks, chunkIndex, index - start);
          var removed := RemoveInChunk(chunkIndex, index - start);
          return Ok(removed);
        }
        OffsetNext(chunks, chunkIndex);
        start := end;
        chunkIndex := chunkIndex + 1;
      }
      OffsetAll(chunks);
      return BadIndex(index);
    }

    /** The body of a successful removeIndex once the scan has found the
        chunk `chunkIndex` holding the item: the item at `local` leaves the
        chunk, and a chunk left empty leaves the directory at once. */
    method RemoveInChunk(chunkIndex: int, local: int) returns (removed: T)
      requires Valid() && 0 <= chunkIndex < |chunks| && 0 <= local < |chunks[chunkIndex]|
      modifies this
      ensures Valid()
      ensures removed == old(chunks)[chunkIndex][local]
      ensures chunks == RemoveFrom(old(chunks), chunkSize, chunkIndex, local)
      ensures Contents() == RemoveAt(old(Contents()), Offset(old(chunks), chunkIndex) + local)
    {
      ghost var was := chunks;
      var chunk := chunks[chunkIndex];
      removed := chunk[local];
      chunks := chunks[chunkIndex := RemoveAt(chunk, local)];
      if chunks[chunkIndex] == [] {
        chunks := chunks[..chunkIndex] + chunks[chunkIndex + 1..];
      }
      assert chunks == RemoveFrom(was, chunkSize, chunkIndex, local);
    }

    method AddFront(item: T)
      requires Valid()
      modifies this
      ensures Valid()
      ensures Contents() == [item] + old(Contents())
      ensures chunks == Chunks.AddFront(old(chunks), chunkSize, item)
    {
      ghost var was := chunks;
      if chunks == [] || |chunks[0]| == chunkSize {
        chunks := [[]] + chunks;
      }
      chunks := chunks[0 := [item] + chunks[0]];
      if was == [] || |was[0]| == chunkSize {
        assert [item] + [] == [item];
        assert chunks == [[item]] + was;
      } else {
        assert chunks == [[item] + was[0]] + was[1..];
      }
    }

    method AddBack(item: T)
      requires Valid()
      modifies this
      ensures Valid()
      ensures Contents() == old(Contents()) + [item]
      ensures chunks == Chunks.AddBack(old(chunks), chunkSize, item)
    {
      ghost var was := chunks;
      if chunks == [] || |chunks[|chunks| - 1]| == chunkSize {
        chunks := chunks + [[]];
      }
      var b := |chunks| - 1;
      chunks := chunks[b := chunks[b] + [item]];
      if was == [] || |was[|was| - 1]| == chunkSize {
        assert [] + [item] == [item];
        assert chunks == was + [[item]];
      } else {
        assert chunks == was[b := was[b] + [item]];
      }
      assert chunks == Chunks.AddBack(was, chunkSize, item);
    }

    method AddIndex(index: int, item: T) returns (r: Outcome<()>)
      requires Valid()
      modifies this
      ensures Valid()
      ensures r.Ok? <==> AddIndexAccepted(old(chunks), chunkSize, index)
      ensures !r.Ok? ==> r == BadIndex(index) && chunks == old(chunks)
      ensures r.Ok? ==>
                Contents() == InsertAt(old(Contents()), index, item) &&
                exists k :: FirstAdmits(old(chunks), chunkSize, k, index) &&
                  chunks == InsertInto(old(chunks), chunkSize, k, index - Offset(old(chunks), k), item)
    {
      var chunkIndex := 0;
      var start := 0;
      while chunkIndex < |chunks|
        invariant 0 <= chunkIndex <= |chunks|
        invariant chunks == old(chunks)
        invariant start == Offset(chunks, chunkIndex)
        invariant index < 0 || start <= index
        invariant 0 < chunkIndex && index == start ==> |chunks[chunkIndex - 1]| == chunkSize
        invariant forall m :: 0 <= m < chunkIndex ==> !AdmitsAdd(chunks, chunkSize, m, index)
      {
        var chunk := chunks[chunkIndex];
        var end := start + |chunk|;
        if start <= index && index <= (if index - start == chunkSize then end - 1 else end) {
          ghost var was := chunks;
          assert FirstAdmits(was, chunkSize, chunkIndex, index);
          AdmitsImpliesAccepted(was, chunkSize, chunkIndex, index);
          InsertInChunk(chunkIndex, index - start, item);
          return Ok(());
        }
        OffsetNext(chunks, chunkIndex);
        start := end;
        chunkIndex := chunkIndex + 1;
      }
      OffsetAll(chunks);
      return BadIndex(index);
    }

    /** The body of a successful addIndex once the scan has picked chunk
        `chunkIndex`: a full chunk is split (its last item moves to a new
        chunk placed right after it) before the item goes in at `local`. */
    method InsertInChunk(chunkIndex: int, local: int, item: T)
      requires Valid() && 0 <= chunkIndex < |chunks|
      requires 0 <= local <= |chunks[chunkIndex]| && local < chunkSize
      modifies this
      ensures Valid()
      ensures chunks == InsertInto(old(chunks), chunkSize, chunkIndex, local, item)
      ensures Contents() == InsertAt(old(Contents()), Offset(old(chunks), chunkIndex) + local, item)
    {
      ghost var was := chunks;
      var chunk := chunks[chunkIndex];
      if |chunk| == chunkSize {
        var newChunk := [chunk[|chunk| - 1]];
        var rest := chunk[..|chunk| - 1];
        chunks := chunks[chunkIndex := InsertAt(rest, local, item)];
        chunks := chunks[..chunkIndex + 1] + [newChunk] + chunks[chunkIndex + 1..];
        assert chunks == was[..chunkIndex] + [InsertAt(rest, local, item), newChunk]
                         + was[chunkIndex + 1..];
      } else {
        chunks := chunks[chunkIndex := InsertAt(chunk, local, item)];
        assert chunks == was[..chunkIndex] + [InsertAt(chunk, local, item)]
                         + was[chunkIndex + 1..];
      }
    }

    /** Defined only on a list with items: on an empty list the outcome
        depends on the directory's own behaviour, which is not modelled. */
    method GetFront() returns (x: T)
      requires Valid() && chunks != []
      ensures Contents() != [] && x == Contents()[0]
    {
      FlattenAt(chunks, 0, 0);
      x := chunks[0][0];
    }

    /** Defined only on a list with items, as GetFront. */
    method GetBack() returns (x: T)
      requires Valid() && chunks != []
      ensures Contents() != [] && x == Contents()[|Contents()| - 1]
    {
      var b := |chunks| - 1;
      FlattenAt(chunks, b, |chunks[b]| - 1);
      OffsetNext(chunks, b);
      OffsetAll(chunks);
      x := chunks[b][|chunks[b]| - 1];
    }

    method GetIndex(index: int) returns (r: Outcome<T>)
      requires Valid()
      ensures chunks == [] ==> r == EmptyList
      ensures chunks != [] && !(0 <= index < |Contents()|) ==> r == BadIndex(index)
      ensures 0 <= index < |Contents()| ==> r == Ok(Contents()[index])
    {
      var empty := IsEmpty();
      if empty {
        return EmptyList;
      }
      var start := 0;
      var chunkIndex := 0;
      while chunkIndex < |chunks|
        invariant 0 <= chunkIndex <= |chunks|
        invariant start == Offset(chunks, chunkIndex)
        invariant !(0 <= index < start)
      {
        var chunk := chunks[chunkIndex];
        var end := start + |chunk|;
        if start <= index && index < end {
          FlattenAt(chunks, chunkIndex, index - start);
          return Ok(chunk[index - start]);
        }
        OffsetNext(chunks, chunkIndex);
        start := end;
        chunkIndex := chunkIndex + 1;
      }
      OffsetAll(chunks);
      return BadIndex(index);
    }

    method SetIndex(index: int, value: T) returns (r: Outcome<()>)
      requires Valid()
      modifies this
      ensures Valid()
      ensures old(chunks) == [] ==> r == EmptyList && chunks == old(chunks)
      ensures old(chunks) != [] && !(0 <= index < |old(Contents())|) ==>
                r == BadIndex(index) && chunks == old(chunks)
      ensures 0 <= index < |old(Contents())| ==>
                r == Ok(()) &&
                Contents() == old(Contents())[index := value] &&
                exists k :: Holds(old(chunks), k, index) &&
                  chunks == SetIn(old(chunks), chunkSize, k, index - Offset(old(chunks), k), value)
    {
      if chunks == [] {
        return EmptyList;
      }
      var start := 0;
      var chunkIndex := 0;
      while chunkIndex < |chunks|
        invariant 0 <= chunkIndex <= |chunks|
        invariant chunks == old(chunks)
        invariant start == Offset(chunks, chunkIndex)
        invariant !(0 <= index < start)
      {
        var chunk := chunks[chunkIndex];
        var end := start + |chunk|;
        if start <= index && index < end {
          ghost var was := chunks;
          chunks := chunks[chunkIndex := chunk[index - start := value]];
          assert Holds(was, chunkIndex, index);
          assert chunks == SetIn(was, chunkSize, chunkIndex, index - start, value);
          return Ok(());
        }
        OffsetNext(chunks, chunkIndex);
        start := end;
        chunkIndex := chunkIndex + 1;
      }
      OffsetAll(chunks);
      return BadIndex(index);
    }

    /** The number of items: the chunk sizes added up, chunk by chunk. */
    method Size() returns (total: int)
      requires Valid()
      ensures total == |Contents()|
      ensures |chunks| <= total <= chunkSize * |chunks|
    {
      total := 0;
      var chunkIndex := 0;
      while chunkIndex < |chunks|
        invariant 0 <= chunkIndex <= |chunks|
        invariant total == Offset(chunks, chunkIndex)
      {
        OffsetNext(chunks, chunkIndex);
        total := total + |chunks[chunkIndex]|;
        chunkIndex := chunkIndex + 1;
      }
      OffsetAll(chunks);
      SizeBounds(chunks, chunkSize);
    }

    /** A list is empty when its directory has no chunk, which under the
        chunk invariant is exactly when it has no items. */
    method IsEmpty() returns (empty: bool)
      requires Valid()
      ensures empty <==> chunks == []
      ensures empty <==> |Contents()| == 0
    {
      SizeBounds(chunks, chunkSize);
      empty := chunks == [];
    }
  }
}
