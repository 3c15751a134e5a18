/** The xorshift32 generator the memory demos fill pages from. */
module PageGenerator {

  /** The seed every chunk starts from. */
  const Seed: bv32 := 2463534242

  /** One xorshift32 step: `x ^= x << 13; x ^= x >> 17; x ^= x << 5` on a `uint`.
      Each of the three mixes keeps a non-zero state non-zero (the lowest set bit
      survives a left mix, the highest a right mix), so the generator never falls
      into its only fixed point, zero. */
  function XorShift(x: bv32): (r: bv32)
    ensures r == 0 <==> x == 0
  {
    Mix5(Mix17(Mix13(x)))
  }

  function Mix13(x: bv32): (r: bv32)
    ensures r == 0 <==> x == 0
  {
    x ^ (x << 13)
  }

  function Mix17(x: bv32): (r: bv32)
    ensures r == 0 <==> x == 0
  {
    x ^ (x >> 17)
  }

  function Mix5(x: bv32): (r: bv32)
    ensures r == 0 <==> x == 0
  {
    x ^ (x << 5)
  }

  /** The generator state for page p of a chunk: the seed advanced p + 1 times,
      once at the top of each page. */
  function StateAt(p: nat): (r: bv32)
    ensures r != 0
  {
    if p == 0 then XorShift(Seed) else XorShift(StateAt(p - 1))
  }
}

/** The allocation loops of the memory demos: a total is cut into chunks of at
    most an object size, each chunk is a fresh byte array whose pages are filled
    from a xorshift32 generator, and its last byte is set to 1. The loop is the same
    in 03-Memory/ReserveMemory/Program.cs (object size from the command line,
    repeated for a number of iterations) and in ReserveMemory/Program.cs and
    DataTypes/Program.cs (fixed 100 MiB chunks, one pass). */
module Allocation {
  import opened Common
  import opened Text
  import opened SizeArguments
  import opened PageGenerator

  // ---------------------------------------------------------------------------
  // Bytes of a chunk
  // ---------------------------------------------------------------------------

  type Byte = b: int | 0 <= b < 256

  /** `(byte)(x + (uint)k)`: the sum wraps at 2^32 and the cast keeps the low
      eight bits, which are the low eight bits of the exact sum. */
  function PageByte(x: bv32, k: nat): (r: Byte)
    ensures r == (x as int + k) % 256
  {
    ((x as int + k) % TwoTo32) % 256
  }

  /** What byte j of a filled chunk of length n holds: the last byte is 1, every
      other byte is the generator state of its page plus its offset in the page. */
  function ChunkByte(n: nat, page: nat, j: nat): (r: Byte)
    requires page > 0 && j < n
    ensures j == n - 1 ==> r == 1
    ensures j < n - 1 ==> r == (StateAt(j / page) as int + j % page) % 256
  {
    if j == n - 1 then 1 else PageByte(StateAt(j / page), j % page)
  }

  /** The bytes of a filled chunk of length n, in order. */
  function ChunkContents(n: nat, page: nat): (r: seq<Byte>)
    requires page > 0
    ensures |r| == n && forall j :: 0 <= j < n ==> r[j] == ChunkByte(n, page, j)
  {
    seq(n, j requires 0 <= j < n => ChunkByte(n, page, j))
  }

  /** Bytes below m hold the state of their page plus their offset in it. */
  ghost predicate PagesUpTo(chunk: array<Byte>, page: nat, m: nat)
    requires page > 0
    reads chunk
  {
    forall k :: 0 <= k < m && k < chunk.Length ==> chunk[k] == PageByte(StateAt(k / page), k % page)
  }

  /** The generator state before page p is drawn. */
  function StateBefore(p: nat): bv32
  {
    if p == 0 then Seed else StateAt(p - 1)
  }

  /** Advancing the state before page p gives the state of page p. */
  lemma StateStep(p: nat, x: bv32)
    requires x == StateBefore(p)
    ensures XorShift(x) == StateAt(p)
  {
  }

  /** The inner loop over page p, which starts at byte i: each byte up to end gets
      the page's state plus its offset in the page. */
  method FillPage(chunk: array<Byte>, page: nat, i: nat, end: nat, x: bv32, ghost p: nat)
    requires page > 0 && i == p * page && i <= end <= i + page && end <= chunk.Length
    requires x == StateAt(p) && PagesUpTo(chunk, page, i)
    modifies chunk
    ensures PagesUpTo(chunk, page, end)
    ensures forall k :: end <= k < chunk.Length ==> chunk[k] == old(chunk[k])
  {
    var j := i;
    while j < end
      invariant i <= j <= end
      invariant PagesUpTo(chunk, page, j)
      invariant forall k :: end <= k < chunk.Length ==> chunk[k] == old(chunk[k])
    {
      ModUnique(j, page, p, j - i);
      chunk[j] := PageByte(x, j - i);
      j := j + 1;
    }
  }

  /** The page loop and the last-byte store on one fresh chunk. */
  method FillChunk(chunk: array<Byte>, page: nat)
    requires page > 0 && chunk.Length > 0
    modifies chunk
    ensures chunk[..] == ChunkContents(chunk.Length, page)
  {
    var n := chunk.Length;
    var x: bv32 := Seed;
    var i := 0;
    ghost var p: nat := 0;
    while i < n
      invariant i == p * page && (i < n || p > 0)
      invariant x == StateBefore(p)
      invariant PagesUpTo(chunk, page, i)
      decreases n - i
    {
      StateStep(p, x);
      x := XorShift(x);
      var end := Min(n, i + page);
      FillPage(chunk, page, i, end, x, p);
      i := i + page;
      p := p + 1;
    }
    chunk[n - 1] := 1;
    LastByteCompletes(chunk, page);
  }

  /** Pages filled up to the last byte, and the last byte set to 1, is a filled chunk. */
  lemma LastByteCompletes(chunk: array<Byte>, page: nat)
    requires page > 0 && chunk.Length > 0
    requires PagesUpTo(chunk, page, chunk.Length - 1) && chunk[chunk.Length - 1] == 1
    ensures chunk[..] == ChunkContents(chunk.Length, page)
  {
    assert forall j :: 0 <= j < chunk.Length ==> chunk[..][j] == ChunkContents(chunk.Length, page)[j];
  }

  // ---------------------------------------------------------------------------
  // The chunk plan
  // ---------------------------------------------------------------------------

  /** The lengths of the chunks the loop allocates for what is left of the total:
      `min(objectSize, remaining)` until nothing remains. */
  function ChunkPlan(remaining: nat, objectSize: nat): seq<nat>
    requires objectSize >= 1
    decreases remaining
  {
    if remaining == 0 then []
    else [Min(objectSize, remaining)] + ChunkPlan(remaining - Min(objectSize, remaining), objectSize)
  }

  function Sum(s: seq<nat>): nat
  {
    if |s| == 0 then 0 else Sum(s[..|s| - 1]) + s[|s| - 1]
  }

  lemma {:induction false} SumAppend(s: seq<nat>, t: seq<nat>)
    ensures Sum(s + t) == Sum(s) + Sum(t)
    decreases |t|
  {
    if |t| == 0 {
      assert s + t == s;
    } else {
      assert (s + t)[..|s + t| - 1] == s + t[..|t| - 1];
      SumAppend(s, t[..|t| - 1]);
    }
  }

  /** The chunks add up to the total, each holds at least one byte, and all of
      them but the last are exactly one object size long. */
  lemma {:induction false} ChunkPlanShape(remaining: nat, objectSize: nat)
    requires objectSize >= 1
    ensures var plan := ChunkPlan(remaining, objectSize);
      Sum(plan) == remaining
      && (forall c :: 0 <= c < |plan| ==> 1 <= plan[c] <= objectSize)
      && (forall c :: 0 <= c < |plan| - 1 ==> plan[c] == objectSize)
    decreases remaining
  {
    if remaining > 0 {
      var first := Min(objectSize, remaining);
      var rest := ChunkPlan(remaining - first, objectSize);
      ChunkPlanShape(remaining - first, objectSize);
      SumAppend([first], rest);
      assert Sum([first]) == first by {
        assert [first][..0] == [];
      }
    }
  }

  /** An object size that divides the total gives total / objectSize full chunks. */
  lemma {:induction false} ChunkPlanExact(count: nat, objectSize: nat)
    requires objectSize >= 1
    ensures ChunkPlan(count * objectSize, objectSize) == seq(count, c => objectSize)
    decreases count
  {
    if count > 0 {
      assert count * objectSize == objectSize + (count - 1) * objectSize;
      ChunkPlanExact(count - 1, objectSize);
    }
  }

  /** Taking the next chunk moves it from the plan for what remains to the chunks
      already allocated. */
  lemma PlanAdvance(done: seq<nat>, bytesToAllocate: nat, total: nat, objectSize: nat)
    requires objectSize >= 1 && total < bytesToAllocate
    requires done + ChunkPlan(bytesToAllocate - total, objectSize) == ChunkPlan(bytesToAllocate, objectSize)
    ensures var next := Min(objectSize, bytesToAllocate - total);
      (done + [next]) + ChunkPlan(bytesToAllocate - (total + next), objectSize) == ChunkPlan(bytesToAllocate, objectSize)
  {
    var next := Min(objectSize, bytesToAllocate - total);
    assert ChunkPlan(bytesToAllocate - total, objectSize) == [next] + ChunkPlan(bytesToAllocate - (total + next), objectSize);
  }

  /** The lengths of a list of arrays. */
  ghost function Lengths(hold: seq<array<Byte>>): (r: seq<nat>)
    ensures |r| == |hold| && forall c :: 0 <= c < |hold| ==> r[c] == hold[c].Length
  {
    seq(|hold|, c requires 0 <= c < |hold| => hold[c].Length)
  }

  /** A chunk holds what the page loop and the last-byte store put into it. */
  ghost predicate Filled(chunk: array<Byte>, page: nat)
    requires page > 0
    reads chunk
  {
    chunk.Length > 0 && chunk[..] == ChunkContents(chunk.Length, page)
  }

  /** One pass of the allocation loop: chunks are allocated, filled and kept until
      the running total reaches the request. */
  method Allocate(bytesToAllocate: nat, objectSize: nat, page: nat) returns (hold: seq<array<Byte>>, total: nat)
    requires objectSize >= 1 && page > 0
    ensures total == bytesToAllocate
    ensures Lengths(hold) == ChunkPlan(bytesToAllocate, objectSize)
    ensures forall c :: 0 <= c < |hold| ==> fresh(hold[c]) && Filled(hold[c], page)
  {
    hold := [];
    total := 0;
    while total < bytesToAllocate
      invariant total <= bytesToAllocate
      invariant Lengths(hold) + ChunkPlan(bytesToAllocate - total, objectSize) == ChunkPlan(bytesToAllocate, objectSize)
      invariant forall c :: 0 <= c < |hold| ==> fresh(hold[c])
      invariant forall c :: 0 <= c < |hold| ==> Filled(hold[c], page)
      decreases bytesToAllocate - total
    {
      var remaining := bytesToAllocate - total;
      var thisChunk := Min(objectSize, remaining);
      var chunk := new Byte[thisChunk];
      FillChunk(chunk, page);
      PlanAdvance(Lengths(hold), bytesToAllocate, total, objectSize);
      assert Lengths(hold + [chunk]) == Lengths(hold) + [thisChunk];
      hold := hold + [chunk];
      total := total + thisChunk;
    }
  }

  // ---------------------------------------------------------------------------
  // ReserveMemory/Program.cs and DataTypes/Program.cs
  // ---------------------------------------------------------------------------

  /** 100 MiB: the fixed chunk size of the two one-pass programs. */
  const FixedChunkSize: nat := 100 * 1024 * 1024

  /** The request of the one-pass programs: only the first argument counts, and it
      must parse as a size; there is no lower bound. */
  function FixedChunkRequest(args: seq<string>): (r: Option<nat>)
    ensures |args| == 0 ==> r == None
    ensures |args| > 0 ==> r == SizeOf(args[0])
  {
    TrimBeforeRedundantAt(args);
    if |args| == 0 then None else SizeOf(Trim(args[0]))
  }

  lemma TrimBeforeRedundantAt(args: seq<string>)
    ensures |args| > 0 ==> SizeOf(Trim(args[0])) == SizeOf(args[0])
  {
    if |args| > 0 {
      TrimBeforeIsRedundant(args[0]);
    }
  }

  /** A zero request, with or without a suffix, is accepted (there is no minimum)
      and the plan for it has no chunk at all. */
  lemma ZeroRequestAllocatesNothing(unit: Unit, lower: bool, rest: seq<string>)
    ensures FixedChunkRequest([IntToString(0) + Spelling(unit, lower)] + rest) == Some(0)
    ensures ChunkPlan(0, FixedChunkSize) == []
  {
    SizeOfNumeral(0, unit, lower);
  }

  /** Main of the one-pass programs: stop without a first argument or with one
      that does not parse, otherwise allocate the request in 100 MiB chunks. */
  method ReserveFixed(args: seq<string>, page: nat) returns (started: bool, hold: seq<array<Byte>>, total: nat)
    requires page > 0
    ensures started <==> FixedChunkRequest(args).Some?
    ensures !started ==> hold == [] && total == 0
    ensures started ==> total == FixedChunkRequest(args).value
    ensures started ==> Lengths(hold) == ChunkPlan(total, FixedChunkSize)
    ensures forall c :: 0 <= c < |hold| ==> fresh(hold[c]) && Filled(hold[c], page)
  {
    var bytesToAllocate;
    started, bytesToAllocate := ReadFixedRequest(args);
    hold, total := [], 0;
    if started {
      hold, total := Allocate(bytesToAllocate, FixedChunkSize, page);
    }
  }

  /** The argument checks of the one-pass programs. */
  method ReadFixedRequest(args: seq<string>) returns (ok: bool, bytesToAllocate: nat)
    ensures ok <==> FixedChunkRequest(args).Some?
    ensures ok ==> bytesToAllocate == FixedChunkRequest(args).value
  {
    if |args| == 0 {
      return false, 0;
    }
    var input := Trim(args[0]);
    var parsed, bytes := TryParseSize(input);
    if !parsed {
      return false, 0;
    }
    return true, bytes;
  }

  // ---------------------------------------------------------------------------
  // 03-Memory/ReserveMemory/Program.cs
  // ---------------------------------------------------------------------------

  /** Main of 03-Memory/ReserveMemory: after the usage check and the argument
      parse, one allocation pass per iteration; the references of a pass are
      dropped before the next one starts, so what is held at the end is the
      last pass. */
  method ReserveMemoryMain(args: seq<string>, page: nat)
      returns (outcome: Result<Options, Stop>, passes: nat, hold: seq<array<Byte>>)
    requires page > 0
    ensures outcome == ReserveMemoryCommand(args)
    ensures outcome.Err? ==> passes == 0 && hold == []
    ensures outcome.Ok? ==> passes == outcome.value.iterations && passes >= 1 && outcome.value.objectSize >= 1
    ensures outcome.Ok? ==>
      Lengths(hold) == ChunkPlan(outcome.value.bytesToAllocate, outcome.value.objectSize)
    ensures forall c :: 0 <= c < |hold| ==> fresh(hold[c]) && Filled(hold[c], page)
  {
    passes, hold := 0, [];
    if |args| == 0 || args[0] in {"-h", "--help", "/?", "help"} {
      outcome := Err(ShowUsage);
      return;
    }
    var parsed := TryParseArguments(args);
    if parsed.Err? {
      outcome := Err(BadArguments(parsed.error));
      return;
    }
    outcome := Ok(parsed.value);
    var o := parsed.value;
    ParsedBounds(args);
    var iteration := 1;
    while iteration <= o.iterations
      invariant 1 <= iteration <= o.iterations + 1
      invariant passes == iteration - 1
      invariant passes >= 1 ==> Lengths(hold) == ChunkPlan(o.bytesToAllocate, o.objectSize)
      invariant forall c :: 0 <= c < |hold| ==> fresh(hold[c]) && Filled(hold[c], page)
      decreases o.iterations + 1 - iteration
    {
      var total;
      hold, total := Allocate(o.bytesToAllocate, o.objectSize, page);
      passes := passes + 1;
      iteration := iteration + 1;
    }
  }

  // ---------------------------------------------------------------------------
  // The page index in 32 bits
  // ---------------------------------------------------------------------------

  /** `i + page` and `i += page` as the loops write them, on `int`. */
  function NextPageStart32(i: Int32, page: Int32): (r: Int32)
    ensures IntMinValue <= i + page <= IntMaxValue ==> r == i + page
    ensures i + page > IntMaxValue ==> r == i + page - TwoTo32
  {
    if i + page > IntMaxValue then
      var shifted := i + page + 0x8000_0000;
      ModUnique(shifted, TwoTo32, 1, shifted - TwoTo32);
      Wrap32(i + page)
    else
      Wrap32(i + page)
  }

  /** With 4096-byte pages and a chunk of 2147483591 bytes (the largest byte array
      .NET allows, and an object size the parser accepts), the last page starts at
      2147479552. There `i + page` wraps to a negative number: the page's inner
      loop runs zero times, so the bytes of that page are never written, and the
      outer loop goes on with a negative index, which the next inner loop uses. */
  lemma FillIndexOverflows()
    ensures var n, page, i := 2147483591, 4096, 2147479552;
      i % page == 0 && i < n && n <= IntMaxValue
      && NextPageStart32(i, page) < 0
      && Min(n, NextPageStart32(i, page)) < i
      && NextPageStart32(i, page) < n
  {
  }
}
