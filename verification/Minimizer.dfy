/**
The crash minimizer of the fuzzing harness.  The target is reset before every
run, so it is a predicate on the input: `crashes(input)`.
*/
module Minimizer {
  import opened Ints

  newtype byte = x: int | 0 <= x < 256

  type Input = seq<byte>

  /** `input` without the chunk that starts at `start`. */
  function WithoutChunk(input: Input, start: nat, size: nat): (r: Input)
    requires start <= |input|
    ensures size > 0 && start < |input| ==> |r| < |input|
  {
    input[..start] + input[Min(start + size, |input|)..]
  }

  /** Removing the `k`th aligned chunk of the given size still crashes. */
  predicate ChunkCrashes(crashes: Input -> bool, input: Input, size: nat, k: nat) {
    k * size < |input| && crashes(WithoutChunk(input, k * size, size))
  }

  /** No removal of one aligned chunk of the given size still crashes. */
  ghost predicate NoChunk(crashes: Input -> bool, input: Input, size: nat) {
    forall k: nat :: !ChunkCrashes(crashes, input, size, k)
  }

  /** Zeroing any one non-zero byte no longer crashes. */
  ghost predicate NoZero(crashes: Input -> bool, input: Input) {
    forall i :: 0 <= i < |input| && input[i] != 0 ==> !crashes(input[i := 0])
  }

  const CHUNK_SIZES: seq<nat> := [32, 16, 8, 4, 2, 1]

  ghost predicate LocallyMinimal(crashes: Input -> bool, input: Input) {
    && NoChunk(crashes, input, 32) && NoChunk(crashes, input, 16) && NoChunk(crashes, input, 8)
    && NoChunk(crashes, input, 4) && NoChunk(crashes, input, 2) && NoChunk(crashes, input, 1)
    && NoZero(crashes, input)
  }

  function NonZero(input: Input): nat {
    if input == [] then 0 else (if input[0] != 0 then 1 else 0) + NonZero(input[1..])
  }

  lemma {:induction false} ZeroingCounts(input: Input, i: nat)
    requires i < |input| && input[i] != 0
    ensures NonZero(input[i := 0]) == NonZero(input) - 1
  {
    if i == 0 {
      assert input[i := 0][1..] == input[1..];
    } else {
      assert input[i := 0][1..] == input[1..][i - 1 := 0];
      ZeroingCounts(input[1..], i - 1);
    }
  }

  // ----- what the minimizer may do to an input -----

  /** `small` keeps some bytes of `big`, in order, each as it was or zeroed. */
  ghost predicate Shrunk(small: Input, big: Input)
    decreases |big|
  {
    if big == [] then small == []
    else
      || Shrunk(small, big[1..])
      || (small != [] && (small[0] == big[0] || small[0] == 0) && Shrunk(small[1..], big[1..]))
  }

  lemma {:induction false} ShrunkRefl(a: Input)
    ensures Shrunk(a, a)
  {
    if a != [] { ShrunkRefl(a[1..]); }
  }

  lemma {:induction false} ShrunkTrans(a: Input, b: Input, c: Input)
    requires Shrunk(a, b) && Shrunk(b, c)
    ensures Shrunk(a, c)
    decreases |c|
  {
    if c != [] {
      if Shrunk(b, c[1..]) {
        ShrunkTrans(a, b, c[1..]);
      } else if Shrunk(a, b[1..]) {
        ShrunkTrans(a, b[1..], c[1..]);
      } else {
        ShrunkTrans(a[1..], b[1..], c[1..]);
      }
    }
  }

  lemma {:induction false} ShrunkCons(x: byte, y: byte, a: Input, b: Input)
    requires Shrunk(a, b) && (x == y || x == 0)
    ensures Shrunk([x] + a, [y] + b)
  {
    assert ([x] + a)[1..] == a && ([y] + b)[1..] == b;
  }

  lemma {:induction false} DroppingShrinks(a: Input, start: nat, end: nat)
    requires start <= end <= |a|
    ensures Shrunk(a[..start] + a[end..], a)
    decreases |a|
  {
    if end == 0 {
      assert a[..start] + a[end..] == a;
      ShrunkRefl(a);
    } else if start == 0 {
      DroppingShrinks(a[1..], 0, end - 1);
      assert a[1..][..0] + a[1..][end - 1..] == a[..0] + a[end..];
    } else {
      DroppingShrinks(a[1..], start - 1, end - 1);
      ShrunkCons(a[0], a[0], a[1..][..start - 1] + a[1..][end - 1..], a[1..]);
      assert [a[0]] + (a[1..][..start - 1] + a[1..][end - 1..]) == a[..start] + a[end..];
      assert [a[0]] + a[1..] == a;
    }
  }

  lemma {:induction false} ZeroingShrinks(a: Input, i: nat)
    requires i < |a|
    ensures Shrunk(a[i := 0], a)
    decreases |a|
  {
    if i == 0 {
      ShrunkRefl(a[1..]);
      assert a[i := 0][1..] == a[1..];
    } else {
      ZeroingShrinks(a[1..], i - 1);
      assert a[i := 0][1..] == a[1..][i - 1 := 0];
    }
  }

  // ----- one round, step by step -----

  /** `b` is `a` without its first aligned chunk of the given size that can go. */
  ghost predicate ChunkOff(crashes: Input -> bool, a: Input, b: Input, size: nat, k: nat) {
    && ChunkCrashes(crashes, a, size, k) && b == WithoutChunk(a, k * size, size)
    && forall j: nat :: j < k ==> !ChunkCrashes(crashes, a, size, j)
  }

  /** From left to right, each byte whose zeroing still crashes, with those before it settled, is zeroed. */
  ghost predicate Zeroed(crashes: Input -> bool, a: Input, b: Input) {
    |b| == |a| && forall i :: 0 <= i < |a| ==> ZeroedAt(crashes, a, b, i)
  }

  ghost predicate ZeroedAt(crashes: Input -> bool, a: Input, b: Input, i: nat)
    requires i < |a| == |b|
  {
    b[i] == if a[i] != 0 && crashes(b[..i] + [0] + a[i + 1..]) then 0 else a[i]
  }

  /** The chunk sizes of a round: 32, halved each time. */
  function HalvedSize(c: nat): nat {
    if c == 0 then 32 else HalvedSize(c - 1) / 2
  }

  /** One chunk is removed, of the first size for which one can go; with none of the six sizes, nothing is. */
  ghost predicate Removed(crashes: Input -> bool, a: Input, b: Input, c: nat) {
    && c <= 6 && (forall d: nat :: d < c ==> NoChunk(crashes, a, HalvedSize(d)))
    && if c == 6 then b == a else exists k: nat :: ChunkOff(crashes, a, b, HalvedSize(c), k)
  }

  ghost predicate Round(crashes: Input -> bool, a: Input, b: Input) {
    exists m, c: nat :: Removed(crashes, a, m, c) && Zeroed(crashes, m, b)
  }

  /** `trace` leads from `a` to `b`, round by round. */
  ghost predicate Rounds(crashes: Input -> bool, trace: seq<Input>, a: Input, b: Input) {
    && trace != [] && trace[0] == a && trace[|trace| - 1] == b
    && forall i :: 0 <= i < |trace| - 1 ==> Round(crashes, trace[i], trace[i + 1])
  }

  /** A round has one outcome. */
  lemma RoundIsFunction(crashes: Input -> bool, a: Input, b: Input, c: Input)
    requires Round(crashes, a, b) && Round(crashes, a, c)
    ensures b == c
  {
    hide NoChunk, ChunkOff, Zeroed;
    var m, i: nat :| Removed(crashes, a, m, i) && Zeroed(crashes, m, b);
    var n, j: nat :| Removed(crashes, a, n, j) && Zeroed(crashes, n, c);
    if i < 6 { var k: nat :| ChunkOff(crashes, a, m, HalvedSize(i), k); OffIsSome(crashes, a, m, HalvedSize(i), k); }
    if j < 6 { var k: nat :| ChunkOff(crashes, a, n, HalvedSize(j), k); OffIsSome(crashes, a, n, HalvedSize(j), k); }
    assert i == j;
    if i < 6 {
      var k: nat :| ChunkOff(crashes, a, m, HalvedSize(i), k);
      var l: nat :| ChunkOff(crashes, a, n, HalvedSize(i), l);
      OffIsOne(crashes, a, m, n, HalvedSize(i), k, l);
    }
    ZeroedIsOne(crashes, m, b, c, |m|);
  }

  lemma OffIsSome(crashes: Input -> bool, a: Input, b: Input, size: nat, k: nat)
    requires ChunkOff(crashes, a, b, size, k)
    ensures !NoChunk(crashes, a, size)
  {
  }

  lemma OffIsOne(crashes: Input -> bool, a: Input, b: Input, c: Input, size: nat, k: nat, l: nat)
    requires ChunkOff(crashes, a, b, size, k) && ChunkOff(crashes, a, c, size, l)
    ensures b == c
  {
    hide ChunkCrashes;
    assert k == l;
  }

  lemma {:induction false} ZeroedIsOne(crashes: Input -> bool, a: Input, b: Input, c: Input, n: nat)
    requires Zeroed(crashes, a, b) && Zeroed(crashes, a, c) && n <= |a|
    ensures |b| == |c| == |a| && b[..n] == c[..n]
    ensures n == |a| ==> b == c
  {
    if n > 0 {
      ZeroedIsOne(crashes, a, b, c, n - 1);
      assert ZeroedAt(crashes, a, b, n - 1) && ZeroedAt(crashes, a, c, n - 1);
      assert b[..n] == b[..n - 1] + [b[n - 1]] && c[..n] == c[..n - 1] + [c[n - 1]];
    }
    if n == |a| { assert b == b[..n] && c == c[..n]; }
  }

  // ----- the passes -----

  /** Keeps the shortest crashing input with one aligned chunk removed. */
  method TryRemoveChunks(crashes: Input -> bool, input: Input, size: nat) returns (best: Input)
    requires size > 0
    ensures best == input || (|best| < |input| && crashes(best) && Shrunk(best, input))
    ensures best == input <==> NoChunk(crashes, input, size)
    ensures best != input ==> exists k: nat :: ChunkOff(crashes, input, best, size, k)
  {
    hide ChunkCrashes, Shrunk;
    best := input;
    var start := 0;
    ghost var k: nat, first: nat := 0, 0;
    while start < |input|
      invariant 0 <= start == k * size
      invariant best != input ==> first < k && ChunkOff(crashes, input, best, size, first)
      invariant best == input || (|best| < |input| && crashes(best) && Shrunk(best, input))
      invariant best == input <==> forall j: nat :: j < k ==> !ChunkCrashes(crashes, input, size, j)
      decreases |input| - start
    {
      var end := Min(start + size, |input|);
      var candidate := input[..start] + input[end..];
      DroppingShrinks(input, start, end);
      ChunkIs(crashes, input, size, k, start);
      if best != input { FullChunk(crashes, input, best, size, first, k); }
      if crashes(candidate) && |candidate| < |best| {
        best, first := candidate, k;
      }
      start := start + size;
      k := k + 1;
    }
    forall j: nat | j >= k ensures !ChunkCrashes(crashes, input, size, j) { BeyondEnd(crashes, input, size, k, j); }
  }

  lemma ChunkIs(crashes: Input -> bool, input: Input, size: nat, k: nat, start: nat)
    requires start == k * size < |input|
    ensures ChunkCrashes(crashes, input, size, k) <==> crashes(WithoutChunk(input, start, size))
  {
  }

  /** A chunk followed by another one has its full size, so nothing removed later is longer. */
  lemma FullChunk(crashes: Input -> bool, input: Input, best: Input, size: nat, first: nat, k: nat)
    requires ChunkOff(crashes, input, best, size, first) && first < k && k * size < |input|
    ensures |best| == |input| - size
  {
    MulMono(first + 1, k, size);
    assert (first + 1) * size == first * size + size;
  }

  lemma BeyondEnd(crashes: Input -> bool, input: Input, size: nat, k: nat, j: nat)
    requires k <= j && k * size >= |input|
    ensures !ChunkCrashes(crashes, input, size, j)
  {
    MulMono(k, j, size);
  }

  lemma MulMono(k: nat, j: nat, size: nat)
    requires k <= j
    ensures k * size <= j * size
  {
  }

  /** Zeroes bytes from left to right, keeping each zero that still crashes. */
  method TryZeroBytes(crashes: Input -> bool, input: Input) returns (result: Input)
    ensures |result| == |input| && Shrunk(result, input)
    ensures result == input || (crashes(result) && NonZero(result) < NonZero(input))
    ensures result == input <==> NoZero(crashes, input)
    ensures Zeroed(crashes, input, result)
  {
    result := input;
    ShrunkRefl(input);
    for i := 0 to |input|
      invariant |result| == |input| && forall j :: 0 <= j < i ==> ZeroedAt(crashes, input, result, j)
      invariant |result| == |input| && Shrunk(result, input)
      invariant result == input || (crashes(result) && NonZero(result) < NonZero(input))
      invariant result[i..] == input[i..]
      invariant result == input <==> forall j :: 0 <= j < i && input[j] != 0 ==> !crashes(input[j := 0])
    {
      assert result[i] == input[i];
      ghost var start := result;
      assert start[i := 0] == start[..i] + [0] + input[i + 1..];
      if result[i] != 0 {
        var original := result[i];
        ghost var before := result;
        result := result[i := 0];
        if !crashes(result) {
          result := result[i := original];
          assert result == before;
        } else {
          ZeroingCounts(before, i);
          ZeroingShrinks(before, i);
          ShrunkTrans(result, before, input);
        }
      }
      forall j | 0 <= j <= i ensures ZeroedAt(crashes, input, result, j) {
        assert result[..j] == start[..j];
        if j < i { assert ZeroedAt(crashes, input, start, j); }
      }
    }
  }

  lemma SizeListed(crashes: Input -> bool, input: Input, c: nat)
    requires c < |CHUNK_SIZES|
    ensures CHUNK_SIZES[c] > 0 && CHUNK_SIZES[c] == HalvedSize(c)
    ensures (LocallyMinimal(crashes, input) ==> NoChunk(crashes, input, CHUNK_SIZES[c]))
  {
    assert HalvedSize(1) == 16 && HalvedSize(2) == 8 && HalvedSize(3) == 4 && HalvedSize(4) == 2 && HalvedSize(5) == 1;
  }

  /** None of the first sizes has a chunk that can go. */
  ghost predicate AllTried(crashes: Input -> bool, input: Input, c: nat) {
    forall d: nat :: d < c ==> NoChunk(crashes, input, HalvedSize(d))
  }

  lemma AllSizesListed(crashes: Input -> bool, input: Input)
    requires forall d :: 0 <= d < |CHUNK_SIZES| ==> NoChunk(crashes, input, CHUNK_SIZES[d])
    ensures NoZero(crashes, input) ==> LocallyMinimal(crashes, input)
  {
    assert CHUNK_SIZES[0] == 32 && CHUNK_SIZES[1] == 16 && CHUNK_SIZES[2] == 8;
    assert CHUNK_SIZES[3] == 4 && CHUNK_SIZES[4] == 2 && CHUNK_SIZES[5] == 1;
  }

  /**
  Ends for every input and every target.  The result is the input itself or a
  crashing input made from it by dropping and zeroing bytes, and no single pass
  step can shrink it further.
  */
  method Minimize(crashes: Input -> bool, input: Input) returns (current: Input)
    ensures current == input || crashes(current)
    ensures |current| <= |input| && Shrunk(current, input)
    ensures LocallyMinimal(crashes, current)
    ensures current == input <==> LocallyMinimal(crashes, input)
    ensures Round(crashes, current, current) && exists trace :: Rounds(crashes, trace, input, current)
  {
    hide NoChunk, NoZero, Shrunk, Zeroed, ChunkOff;
    current := input;
    var improved := true;
    ghost var trace := [input];
    ShrunkRefl(input);
    while improved
      invariant Rounds(crashes, trace, input, current) && (!improved ==> Round(crashes, current, current))
      invariant current == input || crashes(current)
      invariant |current| <= |input| && Shrunk(current, input)
      invariant !improved ==> LocallyMinimal(crashes, current)
      invariant LocallyMinimal(crashes, input) ==> current == input
      decreases |current|, NonZero(current), improved
    {
      improved := false;
      ghost var before := current;
      ghost var taken: nat := 6;
      var c := 0;
      while c < |CHUNK_SIZES| && !improved
        invariant 0 <= c <= |CHUNK_SIZES|
        invariant current == input || crashes(current)
        invariant Shrunk(current, input)
        invariant if improved then |current| < |before| else current == before
        invariant LocallyMinimal(crashes, input) ==> current == input
        invariant !improved ==> forall d :: 0 <= d < c ==> NoChunk(crashes, current, CHUNK_SIZES[d])
        invariant if improved then Removed(crashes, before, current, taken) else AllTried(crashes, before, c)
        invariant !improved ==> taken == 6 == |CHUNK_SIZES|
      {
        SizeListed(crashes, current, c);
        var result := TryRemoveChunks(crashes, current, CHUNK_SIZES[c]);
        if |result| < |current| && crashes(result) {
          ShrunkTrans(result, current, input);
          current := result;
          improved := true;
          taken := c;
        }
        c := c + 1;
      }
      ghost var middle := current;
      assert Removed(crashes, before, middle, taken);
      var result := TryZeroBytes(crashes, current);
      if result != current && crashes(result) {
        ShrunkTrans(result, current, input);
        current := result;
        improved := true;
      }
      if !improved {
        AllSizesListed(crashes, current);
      }
      assert Round(crashes, before, current);
      trace := trace + [current];
    }
  }
}
