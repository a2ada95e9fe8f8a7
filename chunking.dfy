/** `chunkArray` from server/index.js: cut a sequence into consecutive
    slices of `size` elements, the last one possibly shorter. */
module Chunking {

  function Min(a: nat, b: nat): nat {
    if a <= b then a else b
  }

  /** The chunks of `a`, front to back: the specification of ChunkArray. */
  function Chunks<T>(a: seq<T>, size: nat): (r: seq<seq<T>>)
    requires size >= 1
    ensures a == [] <==> r == []
    decreases |a|
  {
    if a == [] then [] else [a[..Min(size, |a|)]] + Chunks(a[Min(size, |a|)..], size)
  }

  /** All chunks concatenated in order. */
  function Flatten<T>(cs: seq<seq<T>>): seq<T>
    decreases |cs|
  {
    if cs == [] then [] else cs[0] + Flatten(cs[1..])
  }

  /** Taking the next chunk off the front of the unprocessed suffix `a[i..]`
      is what the loop body of ChunkArray does. */
  lemma ChunksFrom<T>(a: seq<T>, size: nat, i: nat)
    requires size >= 1 && i < |a|
    ensures Chunks(a[i..], size) == [a[i..Min(i + size, |a|)]] + Chunks(a[Min(i + size, |a|)..], size)
  {
    var m := Min(size, |a| - i);
    assert a[i..][..m] == a[i..i + m];
    assert a[i..][m..] == a[i + m..];
  }

  /** Concatenating the chunks gives back the input: nothing is dropped,
      duplicated or reordered. */
  lemma {:induction false} FlattenChunks<T>(a: seq<T>, size: nat)
    requires size >= 1
    ensures Flatten(Chunks(a, size)) == a
    decreases |a|
  {
    if a != [] {
      var m := Min(size, |a|);
      FlattenChunks(a[m..], size);
      var cs := Chunks(a, size);
      assert cs[0] == a[..m] && cs[1..] == Chunks(a[m..], size);
      assert a == a[..m] + a[m..];
    }
  }

  lemma MulAtLeast(k: int, d: nat)
    requires k >= 1
    ensures k * d >= d
  {
    assert k * d == (k - 1) * d + d;
    assert (k - 1) * d >= 0;
  }

  /** Quotient and remainder are unique. */
  lemma DivUnique(n: int, d: nat, q: int, r: int)
    requires d > 0 && 0 <= r < d && n == q * d + r
    ensures n / d == q
  {
    var q0 := n / d;
    var r0 := n % d;
    assert n == q0 * d + r0;
    assert (q - q0) * d == r0 - r;
    if q - q0 >= 1 {
      MulAtLeast(q - q0, d);
    } else if q0 - q >= 1 {
      MulAtLeast(q0 - q, d);
    }
  }

  lemma DivPlus(x: nat, d: nat)
    requires d > 0
    ensures (x + d) / d == x / d + 1
  {
    var q := x / d;
    var r := x % d;
    assert x == q * d + r;
    assert x + d == (q + 1) * d + r;
    DivUnique(x + d, d, q + 1, r);
  }

  /** There are ceil(N / size) chunks. */
  lemma {:induction false} ChunksCount<T>(a: seq<T>, size: nat)
    requires size >= 1
    ensures |Chunks(a, size)| == (|a| + size - 1) / size
    decreases |a|
  {
    if a == [] {
      DivUnique(size - 1, size, 0, size - 1);
    } else {
      var n := |a|;
      var m := Min(size, n);
      ChunksCount(a[m..], size);
      assert |Chunks(a, size)| == 1 + |Chunks(a[m..], size)|;
      if n <= size {
        assert a[m..] == [];
        DivUnique(n + size - 1, size, 1, n - 1);
      } else {
        assert |a[m..]| + size - 1 == n - 1;
        DivPlus(n - 1, size);
      }
    }
  }

  /** Every chunk but the last has exactly `size` elements, and the last has
      between 1 and `size`: no chunk is empty. */
  lemma {:induction false} ChunkSizes<T>(a: seq<T>, size: nat)
    requires size >= 1
    ensures forall k :: 0 <= k < |Chunks(a, size)| - 1 ==> |Chunks(a, size)[k]| == size
    ensures Chunks(a, size) != [] ==> 1 <= |Chunks(a, size)[|Chunks(a, size)| - 1]| <= size
    decreases |a|
  {
    if a != [] {
      var m := Min(size, |a|);
      var rest := Chunks(a[m..], size);
      ChunkSizes(a[m..], size);
      var cs := Chunks(a, size);
      assert cs == [a[..m]] + rest;
      if rest != [] {
        assert |a| > size;
        assert cs[|cs| - 1] == rest[|rest| - 1];
        forall k | 0 <= k < |cs| - 1 ensures |cs[k]| == size {
          if k > 0 { assert cs[k] == rest[k - 1]; }
        }
      }
    }
  }

  /** Every chunk has between 1 and `size` elements. */
  lemma ChunkBounds<T>(a: seq<T>, size: nat)
    requires size >= 1
    ensures forall k :: 0 <= k < |Chunks(a, size)| ==> 1 <= |Chunks(a, size)[k]| <= size
  {
    ChunkSizes(a, size);
    var cs := Chunks(a, size);
    forall k | 0 <= k < |cs| ensures 1 <= |cs[k]| <= size {
      if k < |cs| - 1 {
        assert |cs[k]| == size;
      }
    }
  }

  /** No chunk is empty or longer than `size`, and all but the last are
      full. */
  predicate WellSized<T>(cs: seq<seq<T>>, size: nat) {
    && (forall k :: 0 <= k < |cs| ==> 1 <= |cs[k]| <= size)
    && (forall k :: 0 <= k < |cs| - 1 ==> |cs[k]| == size)
  }

  /** Everything `ChunkArray` promises about `Chunks`, in one lemma. */
  lemma ChunksFacts<T>(a: seq<T>, size: nat)
    requires size >= 1
    ensures Flatten(Chunks(a, size)) == a
    ensures |Chunks(a, size)| == (|a| + size - 1) / size
    ensures WellSized(Chunks(a, size), size)
  {
    FlattenChunks(a, size);
    ChunksCount(a, size);
    ChunkSizes(a, size);
    ChunkBounds(a, size);
  }

  /** One iteration of the loop: pushing the next slice keeps the chunks
      found so far followed by the chunks of the rest equal to all chunks. */
  lemma ChunkStep<T>(items: seq<T>, size: nat, i: nat, chunks: seq<seq<T>>)
    requires size >= 1 && i < |items|
    requires chunks + Chunks(items[i..], size) == Chunks(items, size)
    ensures (chunks + [items[i..Min(i + size, |items|)]]) + Chunks(items[Min(i + size, |items|)..], size)
            == Chunks(items, size)
  {
    var next := Min(i + size, |items|);
    ChunksFrom(items, size, i);
    assert (chunks + [items[i..next]]) + Chunks(items[next..], size)
        == chunks + ([items[i..next]] + Chunks(items[next..], size));
  }

  /** When the loop stops, the chunks found are all the chunks. */
  lemma LoopExit<T>(items: seq<T>, size: nat, i: nat, chunks: seq<seq<T>>)
    requires size >= 1 && i >= |items|
    requires chunks + Chunks(items[Min(i, |items|)..], size) == Chunks(items, size)
    ensures chunks == Chunks(items, size)
  {
    assert items[Min(i, |items|)..] == [];
    assert chunks + [] == chunks;
  }

  /** The loop of `chunkArray`: `i` steps by `chunkSize` and each step pushes
      the slice from `i` to `i + chunkSize`, which stops at the end of the
      input. */
  method ChunkArray<T>(items: seq<T>, chunkSize: nat) returns (chunks: seq<seq<T>>)
    requires chunkSize >= 1
    ensures chunks == Chunks(items, chunkSize)
    ensures Flatten(chunks) == items
    ensures |chunks| == (|items| + chunkSize - 1) / chunkSize
    ensures WellSized(chunks, chunkSize)
  {
    chunks := [];
    var i := 0;
    while i < |items|
      invariant chunks + Chunks(items[Min(i, |items|)..], chunkSize) == Chunks(items, chunkSize)
      decreases |items| - i
    {
      ChunkStep(items, chunkSize, i, chunks);
      chunks := chunks + [items[i..Min(i + chunkSize, |items|)]];
      i := i + chunkSize;
    }
    LoopExit(items, chunkSize, i, chunks);
    ChunksFacts(items, chunkSize);
  }
}
