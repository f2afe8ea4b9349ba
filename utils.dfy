/** The generic sequence helpers of the package: chunking a slice into
    consecutive pieces, mapping a slice element by element, and mapping
    persistence models to DTOs through a checked type assertion. */
module Utils {
  import opened Wrappers

  /** Ceiling of n / d for a positive divisor: the least r with r * d >= n. */
  function CeilDiv(n: nat, d: int): (r: nat)
    requires d >= 1
    ensures r * d >= n
    ensures r == 0 || (r - 1) * d < n
  {
    var q := (n + d - 1) / d;
    assert n + d - 1 == q * d + (n + d - 1) % d;
    assert (q - 1) * d == q * d - d;
    q
  }

  /** Multiplying by a non-negative factor keeps the order. */
  lemma MulMonotone(a: int, b: int, d: int)
    requires a <= b && d >= 0
    ensures a * d <= b * d
  {
  }

  /** CeilDiv is the only value with its two properties. */
  lemma CeilDivUnique(n: nat, d: int, r: nat)
    requires d >= 1 && r * d >= n && (r == 0 || (r - 1) * d < n)
    ensures r == CeilDiv(n, d)
  {
    var c := CeilDiv(n, d);
    if r < c {
      MulMonotone(r, c - 1, d);
    } else if c < r {
      MulMonotone(c, r - 1, d);
    }
  }

  /** Adding d to the dividend adds one to the ceiling. */
  lemma CeilDivStep(m: nat, d: int)
    requires d >= 1
    ensures CeilDiv(m + d, d) == CeilDiv(m, d) + 1
  {
    var r := CeilDiv(m, d);
    assert (r + 1) * d == r * d + d;
    assert r > 0 ==> r * d == (r - 1) * d + d;
    CeilDivUnique(m + d, d, r + 1);
  }

  /** Concatenation of a sequence of sequences, in order. */
  function Concat<T>(ss: seq<seq<T>>): seq<T>
  {
    if ss == [] then [] else ss[0] + Concat(ss[1..])
  }

  /** The chunks of s of size n: consecutive pieces of n elements, the last
      one possibly shorter. The reference definition for ChunkSlice. */
  function Chunks<T>(s: seq<T>, n: int): seq<seq<T>>
    requires n >= 1
    decreases |s|
  {
    if |s| == 0 then []
    else if |s| <= n then [s]
    else [s[..n]] + Chunks(s[n..], n)
  }

  /** Concatenating the chunks in order gives back the input. */
  lemma {:induction false} ChunksConcat<T>(s: seq<T>, n: int)
    requires n >= 1
    ensures Concat(Chunks(s, n)) == s
    decreases |s|
  {
    if |s| > n {
      var rest := Chunks(s[n..], n);
      ChunksConcat(s[n..], n);
      assert ([s[..n]] + rest)[1..] == rest;
      assert s[..n] + s[n..] == s;
    }
  }

  /** Every chunk is non-empty and holds at most n elements. */
  lemma {:induction false} ChunksBounded<T>(s: seq<T>, n: int)
    requires n >= 1
    ensures forall k :: 0 <= k < |Chunks(s, n)| ==> 1 <= |Chunks(s, n)[k]| <= n
    decreases |s|
  {
    if |s| > n {
      ChunksBounded(s[n..], n);
      var c := Chunks(s, n);
      forall k | 0 <= k < |c| ensures 1 <= |c[k]| <= n {
        if k > 0 { assert c[k] == Chunks(s[n..], n)[k - 1]; }
      }
    }
  }

  /** Every chunk but the last holds exactly n elements. */
  lemma {:induction false} ChunksFullBeforeLast<T>(s: seq<T>, n: int)
    requires n >= 1
    ensures forall k :: 0 <= k < |Chunks(s, n)| - 1 ==> |Chunks(s, n)[k]| == n
    decreases |s|
  {
    if |s| > n {
      ChunksFullBeforeLast(s[n..], n);
      var c := Chunks(s, n);
      forall k | 0 <= k < |c| - 1 ensures |c[k]| == n {
        if k > 0 { assert c[k] == Chunks(s[n..], n)[k - 1]; }
      }
    }
  }

  /** There are ceil(|s| / n) chunks; in particular none for an empty input. */
  lemma {:induction false} ChunksCount<T>(s: seq<T>, n: int)
    requires n >= 1
    ensures |Chunks(s, n)| == CeilDiv(|s|, n)
    decreases |s|
  {
    if |s| > n {
      ChunksCount(s[n..], n);
      CeilDivStep(|s| - n, n);
    } else if |s| > 0 {
      CeilDivUnique(|s|, n, 1);
    }
  }

  /** Chunk k is the window s[k*n .. min((k+1)*n, |s|)]. */
  lemma {:induction false} ChunkAt<T>(s: seq<T>, n: int, k: nat)
    requires n >= 1 && k < |Chunks(s, n)|
    ensures k * n < |s|
    ensures Chunks(s, n)[k] == s[k * n .. if (k + 1) * n < |s| then (k + 1) * n else |s|]
    decreases |s|
  {
    if |s| > n && k > 0 {
      var t := s[n..];
      ChunkAt(t, n, k - 1);
      assert (k - 1) * n + n == k * n;
      assert k * n + n == (k + 1) * n;
      assert Chunks(s, n)[k] == Chunks(t, n)[k - 1];
    }
  }

  /** ChunkSlice (utils.go): the loop advances i by chunkSize, clamps the end
      of the window to the length of the slice and appends the window. A
      non-positive chunk size on a non-empty slice never finishes (see
      ChunkLoop below), so the caller must rule it out. */
  method ChunkSlice<T>(slice: seq<T>, chunkSize: int) returns (chunks: seq<seq<T>>)
    requires chunkSize >= 1 || |slice| == 0
    ensures |slice| == 0 ==> chunks == []
    ensures chunkSize >= 1 ==> chunks == Chunks(slice, chunkSize)
  {
    chunks := [];
    var i := 0;
    while i < |slice|
      invariant 0 <= i
      invariant |slice| == 0 ==> chunks == []
      invariant chunkSize >= 1 && i < |slice| ==> chunks + Chunks(slice[i..], chunkSize) == Chunks(slice, chunkSize)
      invariant chunkSize >= 1 && i >= |slice| ==> chunks == Chunks(slice, chunkSize)
      decreases |slice| - i
    {
      var end := i + chunkSize;
      if end > |slice| {
        end := |slice|;
      }
      ghost var rest := slice[i..];
      assert rest[..end - i] == slice[i..end];
      assert end < |slice| ==> rest[end - i..] == slice[end..];
      assert end == |slice| ==> rest == slice[i..end] && Chunks(rest, chunkSize) == [rest];
      chunks := chunks + [slice[i..end]];
      i := i + chunkSize;
    }
  }

  /** How the chunking loop ends when run for at most `fuel` iterations:
      with its chunks, with a slice-bounds panic, or not yet. */
  datatype LoopOutcome<T> = Finished(chunks: seq<seq<T>>) | SlicePanic | StillRunning

  /** The chunking loop of ChunkSlice for ANY chunk size, including the ones
      the method excludes, run from index i with chunks acc already built. */
  function ChunkLoop<T>(s: seq<T>, n: int, i: int, acc: seq<seq<T>>, fuel: nat): LoopOutcome<T>
    decreases fuel
  {
    if i >= |s| then Finished(acc)
    else if fuel == 0 then StillRunning
    else
      var end := if i + n > |s| then |s| else i + n;
      if 0 <= i <= end then ChunkLoop(s, n, i + n, acc + [s[i..end]], fuel - 1)
      else SlicePanic
  }

  /** With a positive chunk size the loop finishes within |s| - i iterations
      and appends exactly the chunks of the rest of the slice. */
  lemma {:induction false} ChunkLoopFinishes<T>(s: seq<T>, n: int, i: nat, acc: seq<seq<T>>, fuel: nat)
    requires n >= 1 && i <= |s| && fuel >= |s| - i
    ensures ChunkLoop(s, n, i, acc, fuel) == Finished(acc + Chunks(s[i..], n))
    decreases fuel
  {
    if i < |s| {
      var rest := s[i..];
      if i + n >= |s| {
        assert s[i..|s|] == rest;
        assert ChunkLoop(s, n, i, acc, fuel) == ChunkLoop(s, n, i + n, acc + [s[i..]], fuel - 1);
        assert Chunks(rest, n) == [rest];
      } else {
        ChunkLoopFinishes(s, n, i + n, acc + [s[i..i + n]], fuel - 1);
        assert rest[..n] == s[i..i + n];
        assert rest[n..] == s[i + n..];
        assert Chunks(rest, n) == [s[i..i + n]] + Chunks(s[i + n..], n);
      }
    } else {
      assert s[i..] == [];
    }
  }

  /** A zero chunk size on a non-empty slice never leaves the loop: i stays
      where it is and an empty chunk is appended forever. */
  lemma {:induction false} ChunkLoopSpinsOnZero<T>(s: seq<T>, i: int, acc: seq<seq<T>>, fuel: nat)
    requires 0 <= i < |s|
    ensures ChunkLoop(s, 0, i, acc, fuel) == StillRunning
    decreases fuel
  {
    if fuel > 0 {
      ChunkLoopSpinsOnZero(s, i, acc + [s[i..i]], fuel - 1);
    }
  }

  /** A negative chunk size on a non-empty slice panics in the first
      iteration: the window end lies before its start. */
  lemma ChunkLoopPanicsOnNegative<T>(s: seq<T>, n: int, acc: seq<seq<T>>, fuel: nat)
    requires n < 0 && |s| > 0 && fuel > 0
    ensures ChunkLoop(s, n, 0, acc, fuel) == SlicePanic
  {
  }

  /** Map (utils.go): fills a slice of len(ts) elements with f applied to
      each element of ts. */
  method Map<T, U(0)>(ts: seq<T>, f: T -> U) returns (us: seq<U>)
    ensures |us| == |ts|
    ensures forall i :: 0 <= i < |ts| ==> us[i] == f(ts[i])
  {
    var a := new U[|ts|];
    for i := 0 to |ts|
      invariant forall k :: 0 <= k < i ==> a[k] == f(ts[k])
    {
      a[i] := f(ts[i]);
    }
    us := a[..];
  }

  /** MapDto (utils.go): converts every model to its entity and asserts the
      entity to the DTO type T; when the assertion fails, the zero value of T
      takes its place. `cast` is the runtime assertion, `zero` the zero value
      of T; `dtoType` only fixes T and is otherwise unused. */
  method MapDto<M, E, T(0)>(modelArray: seq<M>, dtoType: T, toEntity: M -> E, cast: E -> Option<T>, zero: T)
    returns (dtos: seq<T>)
    ensures |dtos| == |modelArray|
    ensures forall i :: 0 <= i < |modelArray| && cast(toEntity(modelArray[i])).Some? ==>
              dtos[i] == cast(toEntity(modelArray[i])).value
    ensures forall i :: 0 <= i < |modelArray| && cast(toEntity(modelArray[i])).None? ==>
              dtos[i] == zero
  {
    dtos := Map(modelArray, (ce: M) =>
      match cast(toEntity(ce))
      case Some(etCasted) => etCasted
      case None => zero);
  }
}
