/**
 * The batch partition of `createBatches` (app.js:252-258): consecutive slices
 * of `size` records, the last one possibly shorter.  `Chunks` is the
 * specification the loop of `AppState.CreateBatches` is proved against; the
 * database pages (app.js:763-769) are the same slicing with `size = 25`.
 */
module Batching {
  import opened Seqs

  function Min(a: int, b: int): int { if a <= b then a else b }

  /** `s.slice(i, i + size)`, for `0 <= i <= |s|`. */
  function Slice<T>(s: seq<T>, i: nat, size: nat): (r: seq<T>)
    requires i <= |s|
    ensures |r| == Min(size, |s| - i)
  {
    s[i..Min(i + size, |s|)]
  }

  /** The batches of `s`, front to back. */
  function Chunks<T>(s: seq<T>, size: nat): seq<seq<T>>
    requires size >= 1
    decreases |s|
  {
    if s == [] then []
    else if |s| <= size then [s]
    else [s[..size]] + Chunks(s[size..], size)
  }

  /** One step of the loop: the batch at `i` and the batches after it. */
  lemma ChunksStep<T>(s: seq<T>, i: nat, size: nat)
    requires size >= 1 && i < |s|
    ensures Chunks(s[i..], size) == [Slice(s, i, size)] + Chunks(s[Min(i + size, |s|)..], size)
  {
    var t := s[i..];
    if |t| <= size {
      assert t == Slice(s, i, size);
      assert s[|s|..] == [];
    } else {
      assert t[..size] == Slice(s, i, size);
      assert t[size..] == s[i + size..];
    }
  }

  /** The loop step of `createBatches`: the slice at `i` is the next batch. */
  lemma ChunksAppendStep<T>(s: seq<T>, i: nat, size: nat, out: seq<seq<T>>)
    requires size >= 1 && i < |s|
    requires out + Chunks(s[i..], size) == Chunks(s, size)
    ensures (out + [Slice(s, i, size)]) + Chunks(s[Min(i + size, |s|)..], size) == Chunks(s, size)
  {
    ChunksStep(s, i, size);
    assert out + ([Slice(s, i, size)] + Chunks(s[Min(i + size, |s|)..], size))
      == (out + [Slice(s, i, size)]) + Chunks(s[Min(i + size, |s|)..], size);
  }

  /** Once the loop has passed the end, the batches built are all of them. */
  lemma ChunksDone<T>(s: seq<T>, i: nat, size: nat, out: seq<seq<T>>)
    requires size >= 1 && i >= |s|
    requires out + Chunks(s[Min(i, |s|)..], size) == Chunks(s, size)
    ensures out == Chunks(s, size)
  {
    assert s[|s|..] == [];
    assert out + [] == out;
  }

  /** Concatenating the batches gives back the list. */
  lemma {:induction false} ChunksFlatten<T>(s: seq<T>, size: nat)
    requires size >= 1
    ensures Flatten(Chunks(s, size)) == s
    decreases |s|
  {
    if s != [] && |s| > size {
      ChunksFlatten(s[size..], size);
      assert s == s[..size] + s[size..];
    } else if s != [] {
      assert Flatten([s]) == s + Flatten([]);
    }
  }

  /**
   * Every batch but the last has exactly `size` records and the last has
   * between 1 and `size`; there are `ceil(|s| / size)` batches, that is the
   * least count whose capacity holds the list.
   */
  lemma {:induction false} ChunksShape<T>(s: seq<T>, size: nat)
    requires size >= 1
    ensures var r := Chunks(s, size);
      && (forall k :: 0 <= k < |r| ==> 1 <= |r[k]| <= size)
      && (forall k :: 0 <= k < |r| - 1 ==> |r[k]| == size)
      && (s == [] <==> r == [])
      && (r != [] ==> (|r| - 1) * size < |s| <= |r| * size)
    decreases |s|
  {
    if s != [] && |s| > size {
      ChunksShape(s[size..], size);
      var r := Chunks(s, size);
      var rest := Chunks(s[size..], size);
      assert r == [s[..size]] + rest;
      assert forall k :: 1 <= k < |r| ==> r[k] == rest[k - 1];
      assert |r| * size == |rest| * size + size;
      assert (|r| - 1) * size == (|rest| - 1) * size + size;
    }
  }

  /** Batch `k` is the slice starting at `k * size`. */
  lemma {:induction false} ChunkAt<T>(s: seq<T>, size: nat, k: nat)
    requires size >= 1 && k < |Chunks(s, size)|
    ensures k * size < |s| && Chunks(s, size)[k] == Slice(s, k * size, size)
    decreases k
  {
    if |s| > size {
      var rest := s[size..];
      if k > 0 {
        ChunkAt(rest, size, k - 1);
        assert (k - 1) * size + size == k * size;
        assert Slice(rest, (k - 1) * size, size) == Slice(s, k * size, size);
      }
    }
  }
}
