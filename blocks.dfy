/** The `blocks` helper: consecutive, non-overlapping chunks of a fixed size. */
module Blocks {
  import opened Common
  import opened Text
  import opened Arith

  /** The chunks of `s`, each `n` long, in order. */
  function Chunks<T>(s: seq<T>, n: nat): seq<seq<T>>
    requires n > 0 && |s| % n == 0
    decreases |s|
  {
    if |s| == 0 then []
    else
      ModStep(|s|, n);
      [s[..n]] + Chunks(s[n..], n)
  }

  /** `blocks(data, size)`, materialised: fails unless the length is a
      multiple of the size. */
  function Blocks<T>(data: seq<T>, size: nat): (r: Result<seq<seq<T>>>)
    ensures r.Success? <==> size > 0 && |data| % size == 0
    ensures size == 0 ==> r == Failure(DivisionByZero)
    ensures size > 0 && |data| % size != 0 ==> r == Failure(BlockSizeMismatch(size))
    ensures r.Success? ==> |r.value| * size == |data|
    ensures r.Success? ==> forall i | 0 <= i < |r.value| :: |r.value[i]| == size
    ensures r.Success? ==> Flatten(r.value) == data
  {
    if size == 0 then Failure(DivisionByZero)
    else if |data| % size != 0 then Failure(BlockSizeMismatch(size))
    else
      ChunksProperties(data, size);
      Success(Chunks(data, size))
  }

  lemma {:induction false} ChunksProperties<T>(s: seq<T>, n: nat)
    requires n > 0 && |s| % n == 0
    ensures |Chunks(s, n)| * n == |s|
    ensures forall i | 0 <= i < |Chunks(s, n)| :: |Chunks(s, n)[i]| == n
    ensures Flatten(Chunks(s, n)) == s
    decreases |s|
  {
    if |s| > 0 {
      ModStep(|s|, n);
      ChunksProperties(s[n..], n);
      var rest := Chunks(s[n..], n);
      assert Chunks(s, n) == [s[..n]] + rest;
      assert (|rest| + 1) * n == |rest| * n + n;
      assert s[..n] + s[n..] == s;
    }
  }

  /** Splitting a concatenation of `n`-long pieces gives the pieces back. */
  lemma {:induction false} ChunksOfFlatten<T>(parts: seq<seq<T>>, n: nat)
    requires n > 0
    requires forall i | 0 <= i < |parts| :: |parts[i]| == n
    ensures |Flatten(parts)| == |parts| * n
    ensures |Flatten(parts)| % n == 0
    ensures Chunks(Flatten(parts), n) == parts
  {
    if parts != [] {
      ChunksOfFlatten(parts[1..], n);
      var f := Flatten(parts);
      assert f == parts[0] + Flatten(parts[1..]);
      assert |f| == |parts[1..]| * n + n;
      assert |parts| * n == (|parts[1..]| + 1) * n;
      assert |f| == (|parts[1..]| + 1) * n;
      assert (|parts[1..]| + 1) * n == n * (|parts[1..]| + 1);
      ModOfMultiple(|parts[1..]| + 1, n);
      assert f[..n] == parts[0];
      assert f[n..] == Flatten(parts[1..]);
    }
  }

  /** One step of the generator loop: the chunks from `i` on are the slice
      at `i` followed by the chunks from `i + size` on. */
  lemma ChunkStep<T>(data: seq<T>, i: nat, size: nat)
    requires size > 0 && i < |data| && (|data| - i) % size == 0
    ensures i + size <= |data| && (|data| - (i + size)) % size == 0
    ensures Chunks(data[i..], size) == [data[i..i + size]] + Chunks(data[i + size..], size)
  {
    ModStep(|data| - i, size);
    assert data[i..][..size] == data[i..i + size];
    assert data[i..][size..] == data[i + size..];
  }

  /** Python's generator loop: step an index through `data` by `size` and
      collect each slice. */
  method SplitBlocks<T>(data: seq<T>, size: nat) returns (r: Result<seq<seq<T>>>)
    ensures r == Blocks(data, size)
  {
    if size == 0 {
      return Failure(DivisionByZero);
    }
    if |data| % size != 0 {
      return Failure(BlockSizeMismatch(size));
    }
    var out := CollectChunks(data, size);
    r := Success(out);
  }

  /** The loop itself, on a length the size divides. */
  method CollectChunks<T>(data: seq<T>, size: nat) returns (out: seq<seq<T>>)
    requires size > 0 && |data| % size == 0
    ensures out == Chunks(data, size)
  {
    out := [];
    var i := 0;
    assert data[i..] == data;
    while i < |data|
      invariant 0 <= i <= |data|
      invariant (|data| - i) % size == 0
      invariant Chunks(data, size) == out + Chunks(data[i..], size)
      decreases |data| - i
    {
      ChunkStep(data, i, size);
      out := out + [data[i..i + size]];
      i := i + size;
    }
    assert data[i..] == [];
    assert out + [] == out;
  }
}
