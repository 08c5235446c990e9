/** The fixed-size block allocator: an intrusive free list threaded through raw chunks, with the
    ownership set of the debug build. With `debug` off it is the plain memory pool, correct for
    clients that return only what they were given. */
module MemoryPool {
  import opened Words

  const NODE_SIZE: nat := 8          // sizeof(Node)
  const MAX_ALIGN: nat := 16         // alignof(std::max_align_t)
  const POISON: nat := 0xDD
  const NULL: nat := 0

  // ---------------------------------------------------------------- block sizes

  /** `(sz + align - 1) & ~(align - 1)` on 64-bit words. */
  function AlignBlockSize(sz: nat): nat {
    BitAnd(Wrap((if sz < NODE_SIZE then NODE_SIZE else sz) + MAX_ALIGN - 1), WORD - MAX_ALIGN)
  }

  /** The least multiple of the alignment that holds both the request and a link; sizes within an
      alignment of the end of the address space wrap to zero, which the constructor rejects. */
  lemma AlignedSize(sz: nat)
    requires sz < WORD
    ensures sz > WORD - MAX_ALIGN ==> AlignBlockSize(sz) == 0
    ensures sz <= WORD - MAX_ALIGN ==>
              && AlignBlockSize(sz) % MAX_ALIGN == 0
              && AlignBlockSize(sz) >= sz && AlignBlockSize(sz) >= NODE_SIZE
              && forall m :: m % MAX_ALIGN == 0 && m >= sz && m >= NODE_SIZE ==> AlignBlockSize(sz) <= m
  {
    var least := if sz < NODE_SIZE then NODE_SIZE else sz;
    WordIsPow2();
    SixteenIsPow2();
    ClearLowBits(Wrap(least + 15), 4, 64);
    RoundUp(least);
  }

  lemma SixteenIsPow2()
    ensures Pow2(4) == MAX_ALIGN
  {
  }

  /** Rounding down the wrapped sum rounds the request up, unless it wrapped. */
  lemma RoundUp(least: nat)
    requires NODE_SIZE <= least < WORD
    ensures var w := Wrap(least + 15);
            if least > WORD - MAX_ALIGN then w - w % MAX_ALIGN == 0
            else && (w - w % MAX_ALIGN) % MAX_ALIGN == 0 && w - w % MAX_ALIGN >= least
                 && forall m :: m % MAX_ALIGN == 0 && m >= least ==> w - w % MAX_ALIGN <= m
  {
  }

  // ---------------------------------------------------------------- blocks and chunks

  /** What the pool is made of: block size and blocks per chunk. */
  datatype Layout = Layout(size: nat, count: nat) {
    ghost predicate Valid() {
      size >= NODE_SIZE && size % MAX_ALIGN == 0 && count > 0
    }

    function Block(chunk: nat, i: nat): (p: nat)
      ensures p >= chunk
    {
      chunk + i * size
    }

    function ChunkSize(): nat {
      count * size
    }
  }

  /** The bytes `[p, p + n)` and `[q, q + m)` do not overlap. */
  predicate Apart(p: nat, n: nat, q: nat, m: nat) {
    p + n <= q || q + m <= p
  }

  /** What `::operator new` guarantees of the chunk it returns. */
  predicate Fresh(ly: Layout, chunks: seq<nat>, raw: nat) {
    && raw != NULL && raw % MAX_ALIGN == 0
    && forall j :: 0 <= j < |chunks| ==> Apart(chunks[j], ly.ChunkSize(), raw, ly.ChunkSize())
  }

  /** An address above all chunks. */
  ghost function Above(ly: Layout, chunks: seq<nat>): (top: nat)
    ensures forall j :: 0 <= j < |chunks| ==> chunks[j] + ly.ChunkSize() <= top
  {
    if chunks == [] then 0 else
      var n := |chunks| - 1;
      Above(ly, chunks[..n]) + chunks[n] + ly.ChunkSize()
  }

  lemma FreshExists(ly: Layout, chunks: seq<nat>) returns (raw: nat)
    ensures Fresh(ly, chunks, raw)
  {
    raw := MAX_ALIGN * (1 + Above(ly, chunks));
  }

  ghost predicate ChunksValid(ly: Layout, chunks: seq<nat>) {
    forall j :: 0 <= j < |chunks| ==> Fresh(ly, chunks[..j], chunks[j])
  }

  ghost predicate IsBlock(ly: Layout, chunks: seq<nat>, p: nat) {
    exists j, i :: 0 <= j < |chunks| && 0 <= i < ly.count && p == ly.Block(chunks[j], i)
  }

  predicate InChunk(ly: Layout, chunk: nat, p: nat) {
    chunk <= p < chunk + ly.ChunkSize()
  }

  lemma BlockInChunk(ly: Layout, chunk: nat, i: nat)
    requires ly.Valid() && i < ly.count
    ensures InChunk(ly, chunk, ly.Block(chunk, i)) && ly.Block(chunk, i) + ly.size <= chunk + ly.ChunkSize()
    ensures chunk % MAX_ALIGN == 0 ==> ly.Block(chunk, i) % MAX_ALIGN == 0
  {
    MulSucc(i, ly.size);
    MulMonotone(i + 1, ly.count, ly.size);
    AlignedMultiple(i, ly.size);
    hide Layout.Valid;
  }

  lemma MulSucc(a: nat, c: nat)
    ensures (a + 1) * c == a * c + c
  {
  }

  lemma MulMonotone(a: nat, b: nat, c: nat)
    requires a <= b
    ensures a * c <= b * c
  {
    assert b * c == a * c + (b - a) * c;
  }

  lemma {:induction false} AlignedMultiple(i: nat, size: nat)
    requires size % MAX_ALIGN == 0
    ensures (i * size) % MAX_ALIGN == 0
  {
    if i > 0 {
      AlignedMultiple(i - 1, size);
      MulSucc(i - 1, size);
      AlignedSum((i - 1) * size, size);
    }
  }

  lemma AlignedSum(a: nat, b: nat)
    requires a % MAX_ALIGN == 0 && b % MAX_ALIGN == 0
    ensures (a + b) % MAX_ALIGN == 0
  {
  }

  lemma BlocksApart(ly: Layout, chunk: nat, i: nat, k: nat)
    requires i < k
    ensures ly.Block(chunk, i) + ly.size <= ly.Block(chunk, k)
  {
    MulSucc(i, ly.size);
    MulMonotone(i + 1, k, ly.size);
  }

  /** Distinct blocks never overlap, and every block is aligned and not null. */
  lemma BlocksDisjoint(ly: Layout, chunks: seq<nat>, p: nat, q: nat)
    requires ly.Valid() && ChunksValid(ly, chunks) && IsBlock(ly, chunks, p) && IsBlock(ly, chunks, q) && p != q
    ensures Apart(p, ly.size, q, ly.size)
  {
    hide Layout.Block, Layout.ChunkSize, Layout.Valid;
    var j, i :| 0 <= j < |chunks| && 0 <= i < ly.count && p == ly.Block(chunks[j], i);
    var k, h :| 0 <= k < |chunks| && 0 <= h < ly.count && q == ly.Block(chunks[k], h);
    BlockInChunk(ly, chunks[j], i);
    BlockInChunk(ly, chunks[k], h);
    if j == k {
      if i < h {
        BlocksApart(ly, chunks[j], i, h);
      } else {
        BlocksApart(ly, chunks[j], h, i);
      }
    } else if j < k {
      assert chunks[..k][j] == chunks[j];
    } else {
      assert chunks[..j][k] == chunks[k];
    }
  }

  lemma BlockAligned(ly: Layout, chunks: seq<nat>, p: nat)
    requires ly.Valid() && ChunksValid(ly, chunks) && IsBlock(ly, chunks, p)
    ensures p % MAX_ALIGN == 0 && p != NULL
    ensures exists j :: 0 <= j < |chunks| && InChunk(ly, chunks[j], p)
  {
    var j, i :| 0 <= j < |chunks| && 0 <= i < ly.count && p == ly.Block(chunks[j], i);
    BlockInChunk(ly, chunks[j], i);
  }

  lemma {:induction false} WhichBlock(off: nat, size: nat, count: nat) returns (i: nat)
    requires off < count * size
    ensures i < count && i * size <= off < i * size + size
  {
    if count > 0 {
      MulSucc(count - 1, size);
      if off >= (count - 1) * size {
        i := count - 1;
      } else {
        i := WhichBlock(off, size, count - 1);
      }
    }
  }

  /** The block of a chunk that an address lies in. */
  lemma BlockAround(ly: Layout, chunk: nat, p: nat) returns (i: nat)
    requires InChunk(ly, chunk, p)
    ensures i < ly.count && ly.Block(chunk, i) <= p < ly.Block(chunk, i) + ly.size
  {
    i := WhichBlock(p - chunk, ly.size, ly.count);
  }

  /** The blocks of one chunk and of all chunks, as sets. */
  ghost function ChunkBlocks(ly: Layout, chunk: nat, n: nat): set<nat> {
    if n == 0 then {} else ChunkBlocks(ly, chunk, n - 1) + {ly.Block(chunk, n - 1)}
  }

  ghost function BlocksOf(ly: Layout, chunks: seq<nat>): set<nat> {
    if chunks == [] then {} else
      var n := |chunks| - 1;
      BlocksOf(ly, chunks[..n]) + ChunkBlocks(ly, chunks[n], ly.count)
  }

  lemma {:induction false} ChunkBlocksHas(ly: Layout, chunk: nat, n: nat, p: nat)
    ensures p in ChunkBlocks(ly, chunk, n) <==> exists i :: 0 <= i < n && p == ly.Block(chunk, i)
  {
    hide Layout.Block;
    if n > 0 {
      ChunkBlocksHas(ly, chunk, n - 1, p);
    }
  }

  lemma {:induction false} BlocksOfHas(ly: Layout, chunks: seq<nat>, p: nat)
    ensures p in BlocksOf(ly, chunks) <==> IsBlock(ly, chunks, p)
  {
    hide Layout.Block;
    if chunks != [] {
      var n := |chunks| - 1;
      BlocksOfHas(ly, chunks[..n], p);
      ChunkBlocksHas(ly, chunks[n], ly.count, p);
      if IsBlock(ly, chunks[..n], p) {
        var j, i :| 0 <= j < n && 0 <= i < ly.count && p == ly.Block(chunks[..n][j], i);
        assert chunks[j] == chunks[..n][j];
      }
      if IsBlock(ly, chunks, p) {
        var j, i :| 0 <= j < |chunks| && 0 <= i < ly.count && p == ly.Block(chunks[j], i);
        if j < n {
          assert chunks[..n][j] == chunks[j];
        }
      }
    }
  }

  lemma {:induction false} ChunkBlocksSize(ly: Layout, chunk: nat, n: nat)
    requires ly.Valid()
    ensures |ChunkBlocks(ly, chunk, n)| == n
  {
    hide Layout.Block;
    if n > 0 {
      ChunkBlocksSize(ly, chunk, n - 1);
      ChunkBlocksHas(ly, chunk, n - 1, ly.Block(chunk, n - 1));
      forall i | 0 <= i < n - 1 ensures ly.Block(chunk, i) != ly.Block(chunk, n - 1) {
        BlocksApart(ly, chunk, i, n - 1);
      }
    }
  }

  lemma {:induction false} BlocksOfSize(ly: Layout, chunks: seq<nat>)
    requires ly.Valid() && ChunksValid(ly, chunks)
    ensures |BlocksOf(ly, chunks)| == |chunks| * ly.count
  {
    if chunks != [] {
      var n := |chunks| - 1;
      FewerChunks(ly, chunks);
      BlocksOfSize(ly, chunks[..n]);
      ChunkBlocksSize(ly, chunks[n], ly.count);
      var old', new' := BlocksOf(ly, chunks[..n]), ChunkBlocks(ly, chunks[n], ly.count);
      forall p | p in new' ensures p !in old' {
        ChunkBlocksHas(ly, chunks[n], ly.count, p);
        BlocksOfHas(ly, chunks[..n], p);
        var i :| 0 <= i < ly.count && p == ly.Block(chunks[n], i);
        if p in old' {
          OutsideChunk(ly, chunks[..n], chunks[n], p, i);
          assert false;
        }
      }
      MulSucc(n, ly.count);
      assert |old' + new'| == |old'| + |new'|;
    }
  }

  lemma FewerChunks(ly: Layout, chunks: seq<nat>)
    requires ChunksValid(ly, chunks) && chunks != []
    ensures ChunksValid(ly, chunks[..|chunks| - 1]) && Fresh(ly, chunks[..|chunks| - 1], chunks[|chunks| - 1])
  {
    var rest := chunks[..|chunks| - 1];
    forall j | 0 <= j < |rest| ensures Fresh(ly, rest[..j], rest[j]) {
      assert rest[..j] == chunks[..j] && rest[j] == chunks[j];
    }
  }

  // ---------------------------------------------------------------- the free list

  /** The chain of links starting at `head` runs through `list` and ends. */
  ghost predicate Linked(memory: map<nat, nat>, head: nat, list: seq<nat>) {
    && head == (if list == [] then NULL else list[0])
    && forall i :: 0 <= i < |list| ==> list[i] != NULL && list[i] in memory && memory[list[i]] == Next(list, i)
  }

  ghost function Next(list: seq<nat>, i: nat): nat {
    if i + 1 < |list| then list[i + 1] else NULL
  }

  /** The nodes met by following at most `n` links from `head`. */
  function Walk(memory: map<nat, nat>, head: nat, n: nat): seq<nat>
    decreases n
  {
    if n == 0 || head == NULL || head !in memory then [] else [head] + Walk(memory, memory[head], n - 1)
  }

  lemma {:induction false} WalkLinked(memory: map<nat, nat>, head: nat, list: seq<nat>, n: nat)
    requires Linked(memory, head, list) && n >= |list|
    ensures Walk(memory, head, n) == list
    decreases n
  {
    if list != [] {
      var rest := list[1..];
      assert memory[list[0]] == Next(list, 0);
      forall i | 0 <= i < |rest| ensures rest[i] in memory && memory[rest[i]] == Next(rest, i) {
        assert rest[i] == list[i + 1] && Next(rest, i) == Next(list, i + 1);
      }
      WalkLinked(memory, memory[head], rest, n - 1);
    }
  }

  ghost predicate NoDuplicates(list: seq<nat>) {
    forall i, j :: 0 <= i < j < |list| ==> list[i] != list[j]
  }

  lemma SizeOfParts(a: set<nat>, b: set<nat>, all: set<nat>)
    requires (forall p :: p in a || p in b <==> p in all) && forall p :: p in a ==> p !in b
    ensures |a| + |b| == |all|
  {
    assert a + b == all && a * b == {};
  }

  ghost function Members(list: seq<nat>): (s: set<nat>)
    ensures forall p :: p in s <==> p in list
  {
    if list == [] then {} else {list[0]} + Members(list[1..])
  }

  lemma {:induction false} MembersSize(list: seq<nat>)
    requires NoDuplicates(list)
    ensures |Members(list)| == |list|
  {
    if list != [] {
      MembersSize(list[1..]);
      assert list[0] !in Members(list[1..]);
    }
  }

  /** Free blocks and outstanding blocks partition the blocks of all chunks. */
  ghost predicate Partition(ly: Layout, chunks: seq<nat>, free: seq<nat>, outstanding: set<nat>) {
    && NoDuplicates(free)
    && (forall p :: p in free ==> p !in outstanding)
    && (forall p :: p in free || p in outstanding <==> IsBlock(ly, chunks, p))
  }

  /** What was ever handed out is out now or has been taken back, and still belongs to the pool. */
  ghost predicate History(free: seq<nat>, outstanding: set<nat>, ever: set<nat>, returned: set<nat>) {
    && ever == outstanding + returned
    && forall p :: p in returned ==> p in free || p in outstanding
  }

  lemma HistoryCarve(outstanding: set<nat>, ever: set<nat>, returned: set<nat>, free: seq<nat>)
    requires History([], outstanding, ever, returned)
    ensures History(free, outstanding, ever, returned)
  {
  }

  lemma HistoryPop(free: seq<nat>, outstanding: set<nat>, ever: set<nat>, returned: set<nat>)
    requires free != [] && History(free, outstanding, ever, returned)
    ensures History(free[1..], outstanding + {free[0]}, ever + {free[0]}, returned)
  {
    assert free == [free[0]] + free[1..];
  }

  lemma HistoryPush(free: seq<nat>, outstanding: set<nat>, ever: set<nat>, returned: set<nat>, p: nat)
    requires p in outstanding && History(free, outstanding, ever, returned)
    ensures History([p] + free, outstanding - {p}, ever, returned + {p})
  {
    assert forall q :: q in [p] + free <==> q == p || q in free;
  }

  /** The same word at `n` addresses from `p` on. */
  function Filled(p: nat, n: nat, word: nat): (cells: map<nat, nat>)
    ensures forall a :: p <= a < p + n ==> a in cells
    ensures forall a :: a in cells ==> p <= a < p + n && cells[a] == word
  {
    if n == 0 then map[] else Filled(p, n - 1, word)[p + n - 1 := word]
  }

  /** Everything stored in these blocks is still there. */
  ghost predicate Spared(ly: Layout, blocks: set<nat>, before: map<nat, nat>, after: map<nat, nat>) {
    forall q, a :: q in blocks && q <= a < q + ly.size && a in before ==> a in after && after[a] == before[a]
  }

  lemma SparedRefl(ly: Layout, blocks: set<nat>, memory: map<nat, nat>)
    ensures Spared(ly, blocks, memory, memory)
  {
  }

  lemma SparedTrans(ly: Layout, blocks: set<nat>, a: map<nat, nat>, b: map<nat, nat>, c: map<nat, nat>)
    requires Spared(ly, blocks, a, b) && Spared(ly, blocks, b, c)
    ensures Spared(ly, blocks, a, c)
  {
  }

  /** Stores within one block spare all other blocks, the links of the free ones included. */
  lemma BlockWriteSpares(ly: Layout, chunks: seq<nat>, blocks: set<nat>, p: nat, memory: map<nat, nat>, cells: map<nat, nat>)
    requires ly.Valid() && ChunksValid(ly, chunks) && IsBlock(ly, chunks, p)
    requires forall q :: q in blocks ==> q != p && IsBlock(ly, chunks, q)
    requires forall a :: a in cells ==> p <= a < p + ly.size
    ensures Spared(ly, blocks, memory, memory + cells)
  {
    forall q, a | q in blocks && q <= a < q + ly.size ensures a !in cells {
      BlocksDisjoint(ly, chunks, p, q);
    }
  }

  lemma SparedBeside(ly: Layout, blocks: set<nat>, memory: map<nat, nat>, p: nat, word: nat)
    requires ly.size > 0 && forall q :: q in blocks ==> Apart(q, ly.size, p, ly.size)
    ensures Spared(ly, blocks, memory, memory[p := word])
  {
  }

  lemma SparedLinks(ly: Layout, blocks: set<nat>, memory: map<nat, nat>, after: map<nat, nat>, head: nat, free: seq<nat>)
    requires ly.Valid() && Linked(memory, head, free) && Spared(ly, blocks, memory, after)
    requires forall p :: p in free ==> p in blocks
    ensures Linked(after, head, free)
  {
    assert forall i :: 0 <= i < |free| ==> free[i] in blocks && free[i] <= free[i] < free[i] + ly.size;
  }

  lemma PushFree(ly: Layout, chunks: seq<nat>, memory: map<nat, nat>, free: seq<nat>, outstanding: set<nat>, head: nat, p: nat)
    requires Linked(memory, head, free) && Partition(ly, chunks, free, outstanding) && p in outstanding && p != NULL
    ensures Linked(memory[p := head], p, [p] + free) && Partition(ly, chunks, [p] + free, outstanding - {p})
  {
    hide Linked, IsBlock;
    LinkFront(memory, head, free, p);
    var l := [p] + free;
    assert forall x :: x in l <==> x == p || x in free;
    assert forall i :: 0 < i < |l| ==> l[i] == free[i - 1] && l[i] in free;
  }

  lemma LinkFront(memory: map<nat, nat>, head: nat, free: seq<nat>, p: nat)
    requires Linked(memory, head, free) && p !in free && p != NULL
    ensures Linked(memory[p := head], p, [p] + free)
  {
    var l := [p] + free;
    assert forall i :: 0 < i < |l| ==> l[i] == free[i - 1] && l[i] in free;
  }

  lemma PopFree(ly: Layout, chunks: seq<nat>, memory: map<nat, nat>, free: seq<nat>, outstanding: set<nat>, head: nat)
    requires Linked(memory, head, free) && Partition(ly, chunks, free, outstanding) && head != NULL
    ensures free != [] && head == free[0] && head in memory && head !in outstanding && IsBlock(ly, chunks, head)
    ensures Linked(memory, memory[head], free[1..]) && Partition(ly, chunks, free[1..], outstanding + {head})
  {
    var rest := free[1..];
    assert free == [free[0]] + rest;
    assert memory[free[0]] == Next(free, 0);
    forall i | 0 <= i < |rest|
      ensures rest[i] != NULL && rest[i] in memory && memory[rest[i]] == Next(rest, i)
    {
      assert rest[i] == free[i + 1] && Next(rest, i) == Next(free, i + 1);
    }
  }

  lemma HeadNotNull(memory: map<nat, nat>, head: nat, free: seq<nat>)
    requires Linked(memory, head, free) && free != []
    ensures head != NULL
  {
  }

  /** The blocks of one chunk, in the order carving links them: last block first. */
  ghost function Carved(ly: Layout, raw: nat, n: nat): (l: seq<nat>)
    ensures |l| == n && forall i :: 0 <= i < n ==> l[i] == ly.Block(raw, n - 1 - i)
  {
    if n == 0 then [] else [ly.Block(raw, n - 1)] + Carved(ly, raw, n - 1)
  }

  lemma CarvedDistinct(ly: Layout, raw: nat, n: nat)
    requires ly.Valid()
    ensures NoDuplicates(Carved(ly, raw, n))
  {
    forall i, j | 0 <= i < j < n ensures Carved(ly, raw, n)[i] != Carved(ly, raw, n)[j] {
      BlocksApart(ly, raw, n - 1 - j, n - 1 - i);
    }
  }

  lemma IsBlockExtend(ly: Layout, chunks: seq<nat>, raw: nat, p: nat)
    ensures IsBlock(ly, chunks + [raw], p) <==> IsBlock(ly, chunks, p) || p in Carved(ly, raw, ly.count)
  {
    var cs, l := chunks + [raw], Carved(ly, raw, ly.count);
    if IsBlock(ly, cs, p) {
      var j, i :| 0 <= j < |cs| && 0 <= i < ly.count && p == ly.Block(cs[j], i);
      if j < |chunks| {
        assert p == ly.Block(chunks[j], i);
      } else {
        assert l[ly.count - 1 - i] == p;
      }
    }
    if IsBlock(ly, chunks, p) {
      var j, i :| 0 <= j < |chunks| && 0 <= i < ly.count && p == ly.Block(chunks[j], i);
      assert p == ly.Block(cs[j], i);
    }
    if p in l {
      var i :| 0 <= i < |l| && l[i] == p;
      assert p == ly.Block(cs[|chunks|], ly.count - 1 - i);
    }
  }

  /** Blocks of a fresh chunk are new. */
  lemma CarvedFresh(ly: Layout, chunks: seq<nat>, raw: nat, p: nat)
    requires ly.Valid() && Fresh(ly, chunks, raw) && p in Carved(ly, raw, ly.count)
    ensures !IsBlock(ly, chunks, p) && p != NULL
  {
    var l := Carved(ly, raw, ly.count);
    var i :| 0 <= i < |l| && l[i] == p;
    BlockInChunk(ly, raw, ly.count - 1 - i);
    if IsBlock(ly, chunks, p) {
      var j, h :| 0 <= j < |chunks| && 0 <= h < ly.count && p == ly.Block(chunks[j], h);
      BlockInChunk(ly, chunks[j], h);
      assert false;
    }
  }

  lemma ExtendPartition(ly: Layout, chunks: seq<nat>, outstanding: set<nat>, raw: nat)
    requires ly.Valid() && ChunksValid(ly, chunks) && Fresh(ly, chunks, raw) && Partition(ly, chunks, [], outstanding)
    ensures ChunksValid(ly, chunks + [raw])
    ensures Partition(ly, chunks + [raw], Carved(ly, raw, ly.count), outstanding)
  {
    var cs, l := chunks + [raw], Carved(ly, raw, ly.count);
    CarvedDistinct(ly, raw, ly.count);
    forall j | 0 <= j < |cs| ensures Fresh(ly, cs[..j], cs[j]) {
      assert cs[..j] == if j < |chunks| then chunks[..j] else chunks;
    }
    forall p ensures p in l || p in outstanding <==> IsBlock(ly, cs, p) {
      IsBlockExtend(ly, chunks, raw, p);
    }
    forall p | p in l ensures p !in outstanding {
      CarvedFresh(ly, chunks, raw, p);
    }
  }

  lemma EmptyList(ly: Layout, raw: nat, memory: map<nat, nat>)
    ensures Linked(memory, NULL, Carved(ly, raw, 0))
  {
  }

  lemma OutsideChunk(ly: Layout, chunks: seq<nat>, raw: nat, q: nat, i: nat)
    requires ly.Valid() && Fresh(ly, chunks, raw) && IsBlock(ly, chunks, q) && i < ly.count
    ensures Apart(q, ly.size, ly.Block(raw, i), ly.size)
  {
    var j, h :| 0 <= j < |chunks| && 0 <= h < ly.count && q == ly.Block(chunks[j], h);
    BlockInChunk(ly, chunks[j], h);
    BlockInChunk(ly, raw, i);
  }

  lemma CarveSpares(ly: Layout, chunks: seq<nat>, outstanding: set<nat>, raw: nat, i: nat, memory: map<nat, nat>, head: nat)
    requires ly.Valid() && Fresh(ly, chunks, raw) && Partition(ly, chunks, [], outstanding) && i < ly.count
    ensures Spared(ly, outstanding, memory, memory[ly.Block(raw, i) := head])
  {
    hide Fresh, IsBlock, Layout.Block, Spared;
    forall q | q in outstanding ensures Apart(q, ly.size, ly.Block(raw, i), ly.size) {
      OutsideChunk(ly, chunks, raw, q, i);
    }
    SparedBeside(ly, outstanding, memory, ly.Block(raw, i), head);
  }

  /** Carving links one more block of a fresh chunk in front, touching no outstanding block. */
  lemma CarveStep(ly: Layout, chunks: seq<nat>, outstanding: set<nat>, raw: nat, i: nat, memory: map<nat, nat>, head: nat)
    requires ly.Valid() && Fresh(ly, chunks, raw) && Partition(ly, chunks, [], outstanding) && i < ly.count
    requires Linked(memory, head, Carved(ly, raw, i))
    ensures ly.Block(raw, i) !in outstanding
    ensures Linked(memory[ly.Block(raw, i) := head], ly.Block(raw, i), Carved(ly, raw, i + 1))
  {
    hide Fresh, Linked, NoDuplicates, IsBlock, Layout.Block;
    var n := ly.Block(raw, i);
    assert Carved(ly, raw, ly.count)[ly.count - 1 - i] == n;
    CarvedFresh(ly, chunks, raw, n);
    assert Carved(ly, raw, i + 1) == [n] + Carved(ly, raw, i);
    forall k | 0 <= k < i ensures Carved(ly, raw, i)[k] != n {
      BlocksApart(ly, raw, i - 1 - k, i);
    }
    LinkFront(memory, head, Carved(ly, raw, i), n);
  }

  // ---------------------------------------------------------------- the pool

  datatype Outcome =
    | Done
    | DoubleFree   // std::logic_error
    | NotFromPool  // std::invalid_argument

  class MemoryPoolSafe {
    const ly: Layout
    const debug: bool
    var chunks: seq<nat>
    var freeList: nat
    var issued: set<nat>        // allocated_, kept in the debug build
    var memory: map<nat, nat>     // what was last stored at an address; a link is stored at a block's first
    ghost var free: seq<nat>      // the free list, from its head
    ghost var outstanding: set<nat>
    // history
    ghost var ever: set<nat>      // every address Allocate has returned
    ghost var returned: set<nat>  // every address Deallocate has taken back

    ghost predicate Valid()
      reads this
    {
      && ly.Valid() && ChunksValid(ly, chunks)
      && Linked(memory, freeList, free)
      && Partition(ly, chunks, free, outstanding)
      && (debug ==> issued == outstanding)
      && History(free, outstanding, ever, returned)
    }

    /** Null stands for the exception of the constructor. */
    static method Create(blockSize: nat, blocksPerChunk: nat, debug: bool) returns (pool: MemoryPoolSafe?)
      requires blockSize < WORD
      ensures pool == null <==> blockSize > WORD - MAX_ALIGN || blocksPerChunk == 0
      ensures pool != null ==> fresh(pool) && pool.Valid() && pool.outstanding == {} && pool.chunks == [] && pool.ever == {}
                               && pool.ly.count == blocksPerChunk && pool.debug == debug
      ensures pool != null ==> pool.ly.size % 16 == 0 && pool.ly.size >= blockSize && pool.ly.size >= 8
      ensures pool != null ==> forall m :: m % 16 == 0 && m >= blockSize && m >= 8 ==> pool.ly.size <= m
    {
      AlignedSize(blockSize);
      if AlignBlockSize(blockSize) == 0 || blocksPerChunk == 0 {
        return null;
      }
      pool := new MemoryPoolSafe(Layout(AlignBlockSize(blockSize), blocksPerChunk), debug);
    }

    constructor (ly: Layout, debug: bool)
      requires ly.Valid()
      ensures Valid() && outstanding == {} && chunks == [] && ever == {} && this.ly == ly && this.debug == debug
    {
      this.ly, this.debug := ly, debug;
      chunks, freeList, issued, memory := [], NULL, {}, map[];
      free, outstanding, ever, returned := [], {}, {}, {};
    }

    /** `raw` is the chunk `::operator new` returns. */
    method AllocateChunk(raw: nat)
      requires Valid() && freeList == NULL && Fresh(ly, chunks, raw)
      modifies this
      ensures Valid() && chunks == old(chunks) + [raw] && free == Carved(ly, raw, ly.count)
      ensures outstanding == old(outstanding) && issued == old(issued)
      ensures ever == old(ever) && returned == old(returned)
      ensures Spared(ly, outstanding, old(memory), memory)
    {
      assert free == [];
      hide Linked, Partition, ChunksValid, Carved, Fresh, History, Spared;
      SparedRefl(ly, outstanding, memory);
      HistoryCarve(outstanding, ever, returned, Carved(ly, raw, ly.count));
      ExtendPartition(ly, chunks, outstanding, raw);
      EmptyList(ly, raw, memory);
      chunks := chunks + [raw];
      for i := 0 to ly.count
        invariant Linked(memory, freeList, Carved(ly, raw, i))
        invariant chunks == old(chunks) + [raw] && outstanding == old(outstanding) && issued == old(issued)
        invariant ever == old(ever) && returned == old(returned)
        invariant Spared(ly, outstanding, old(memory), memory)
      {
        var n := ly.Block(raw, i);
        CarveSpares(ly, old(chunks), outstanding, raw, i, memory, freeList);
        CarveStep(ly, old(chunks), outstanding, raw, i, memory, freeList);
        SparedTrans(ly, outstanding, old(memory), memory, memory[n := freeList]);
        memory := memory[n := freeList];
        freeList := n;
      }
      free := Carved(ly, raw, ly.count);
    }

    method Allocate(raw: nat) returns (node: nat)
      requires Valid() && (freeList == NULL ==> Fresh(ly, chunks, raw))
      modifies this
      ensures Valid() && node !in old(outstanding) && outstanding == old(outstanding) + {node}
      ensures ever == old(ever) + {node} && returned == old(returned)
      ensures IsBlock(ly, chunks, node) && node % MAX_ALIGN == 0 && node != NULL
      ensures old(freeList) != NULL ==> node == old(freeList) && chunks == old(chunks)
      ensures old(freeList) == NULL ==> node == raw + (ly.count - 1) * ly.size && chunks == old(chunks) + [raw]
      ensures Spared(ly, old(outstanding), old(memory), memory)
    {
      hide Linked, Partition, ChunksValid, Carved, Fresh, History, IsBlock, Spared;
      SparedRefl(ly, outstanding, memory);
      if freeList == NULL {
        AllocateChunk(raw);
        HeadNotNull(memory, freeList, free);
      }
      PopFree(ly, chunks, memory, free, outstanding, freeList);
      HistoryPop(free, outstanding, ever, returned);
      node := freeList;
      freeList := memory[node];
      if debug {
        issued := issued + {node};
      }
      free, outstanding, ever := free[1..], outstanding + {node}, ever + {node};
      BlockAligned(ly, chunks, node);
    }

    ghost predicate InPool(p: nat)
      reads this
    {
      exists j :: 0 <= j < |chunks| && InChunk(ly, chunks[j], p)
    }

    method BelongsToPool(p: nat) returns (belongs: bool)
      requires Valid()
      ensures belongs <==> InPool(p)
    {
      for j := 0 to |chunks|
        invariant forall k :: 0 <= k < j ==> !InChunk(ly, chunks[k], p)
      {
        if InChunk(ly, chunks[j], p) {
          return true;
        }
      }
      return false;
    }

    /** In the debug build any pointer may be passed; it is accepted exactly if it is null or
        outstanding, and a rejected call changes nothing. */
    method Deallocate(p: nat) returns (outcome: Outcome)
      requires Valid() && (!debug ==> p == NULL || p in outstanding)
      modifies this
      ensures Valid() && chunks == old(chunks)
      ensures outcome == Done <==> p == NULL || p in old(outstanding)
      ensures outcome == DoubleFree <==> p != NULL && p !in old(outstanding) && InPool(p)
      ensures p != NULL && outcome == Done ==>
                outstanding == old(outstanding) - {p} && free == [p] + old(free) && returned == old(returned) + {p}
      ensures p != NULL && outcome == Done && debug ==>
                forall a :: p + NODE_SIZE <= a < p + ly.size ==> a in memory && memory[a] == POISON
      ensures ever == old(ever)
      ensures p == NULL || outcome != Done ==>
                && returned == old(returned)
                && free == old(free) && outstanding == old(outstanding) && freeList == old(freeList)
                && issued == old(issued) && memory == old(memory)
      ensures Spared(ly, outstanding, old(memory), memory)
    {
      hide Linked, Partition, ChunksValid, IsBlock, History, Spared;
      SparedRefl(ly, outstanding - {p}, memory);
      SparedRefl(ly, outstanding, memory);
      if p == NULL {
        return Done;
      }
      if debug {
        if p !in issued {
          var belongs := BelongsToPool(p);
          return if belongs then DoubleFree else NotFromPool;
        }
        issued := issued - {p};
        Poison(p);
      }
      ghost var poisoned := memory;
      PushBlock(p);
      SparedTrans(ly, outstanding, old(memory), poisoned, memory);
      return Done;
    }

    /** The block becomes the head of the free list. */
    method PushBlock(p: nat)
      requires ly.Valid() && ChunksValid(ly, chunks) && Linked(memory, freeList, free)
      requires Partition(ly, chunks, free, outstanding) && History(free, outstanding, ever, returned)
      requires p != NULL && p in outstanding
      modifies this`memory, this`freeList, this`free, this`outstanding, this`returned
      ensures Linked(memory, freeList, free) && free == [p] + old(free)
      ensures Partition(ly, chunks, free, outstanding) && History(free, outstanding, ever, returned)
      ensures outstanding == old(outstanding) - {p} && returned == old(returned) + {p}
      ensures memory == old(memory)[p := old(freeList)] && Spared(ly, outstanding, old(memory), memory)
    {
      hide Linked, Partition, ChunksValid, IsBlock, History, Spared;
      HistoryPush(free, outstanding, ever, returned, p);
      PushFree(ly, chunks, memory, free, outstanding, freeList, p);
      WriteOutstanding(p, map[p := freeList]);
      assert memory + map[p := freeList] == memory[p := freeList];
      memory := memory[p := freeList];
      freeList := p;
      free, outstanding, returned := [p] + free, outstanding - {p}, returned + {p};
    }

    /** `memset(node, 0xDD, blockSize_)`. */
    method Poison(p: nat)
      requires ly.Valid() && ChunksValid(ly, chunks) && Linked(memory, freeList, free)
      requires Partition(ly, chunks, free, outstanding) && p in outstanding
      modifies this`memory
      ensures Linked(memory, freeList, free) && Spared(ly, outstanding - {p}, old(memory), memory)
      ensures forall a :: p <= a < p + ly.size ==> a in memory && memory[a] == POISON
    {
      var cells := Filled(p, ly.size, POISON);
      WriteOutstanding(p, cells);
      memory := memory + cells;
    }

    /** Nothing stored in an outstanding block disturbs the free list or another outstanding block. */
    lemma WriteOutstanding(p: nat, cells: map<nat, nat>)
      requires ly.Valid() && ChunksValid(ly, chunks) && Linked(memory, freeList, free)
      requires Partition(ly, chunks, free, outstanding) && p in outstanding
      requires forall a :: a in cells ==> p <= a < p + ly.size
      ensures Linked(memory + cells, freeList, free) && Spared(ly, outstanding - {p}, memory, memory + cells)
    {
      hide Linked, ChunksValid, Spared, IsBlock, NoDuplicates, Layout.Valid;
      var others := set q | q in free;
      BlockWriteSpares(ly, chunks, others, p, memory, cells);
      BlockWriteSpares(ly, chunks, outstanding - {p}, p, memory, cells);
      SparedLinks(ly, others, memory, memory + cells, freeList, free);
    }

    /** A client stores anything it likes anywhere in a block it holds. */
    method ClientWrite(p: nat, cells: map<nat, nat>)
      requires Valid() && p in outstanding && forall a :: a in cells ==> p <= a < p + ly.size
      modifies this`memory
      ensures Valid() && memory == old(memory) + cells && Spared(ly, outstanding - {p}, old(memory), memory)
    {
      WriteOutstanding(p, cells);
      memory := memory + cells;
    }

    /** Outstanding blocks never share a byte, and all are aligned blocks of the pool. */
    lemma OutstandingDisjoint(p: nat, q: nat)
      requires Valid() && p in outstanding && q in outstanding
      ensures p != q ==> Apart(p, ly.size, q, ly.size)
      ensures p % MAX_ALIGN == 0 && p != NULL
    {
      BlockAligned(ly, chunks, p);
      if p != q {
        BlocksDisjoint(ly, chunks, p, q);
      }
    }

    /** The addresses taken for the pool's own are those inside its blocks. */
    lemma InPoolIsInBlock(p: nat)
      requires Valid()
      ensures InPool(p) <==> exists b: nat :: IsBlock(ly, chunks, b) && b <= p < b + ly.size
    {
      hide Linked, Partition, ChunksValid, History;
      if InPool(p) {
        var j :| 0 <= j < |chunks| && InChunk(ly, chunks[j], p);
        var i := BlockAround(ly, chunks[j], p);
        assert IsBlock(ly, chunks, ly.Block(chunks[j], i));
      }
      if b: nat :| IsBlock(ly, chunks, b) && b <= p < b + ly.size {
        var j, i :| 0 <= j < |chunks| && 0 <= i < ly.count && b == ly.Block(chunks[j], i);
        BlockInChunk(ly, chunks[j], i);
        assert InChunk(ly, chunks[j], p);
      }
    }

    /** No block is lost: those on the free list and those outstanding are `count` for each chunk. */
    lemma BlocksConserved()
      requires Valid()
      ensures |free| + |outstanding| == |chunks| * ly.count
    {
      hide Linked, ChunksValid, History, IsBlock, NoDuplicates;
      var all, listed := BlocksOf(ly, chunks), Members(free);
      MembersSize(free);
      BlocksOfSize(ly, chunks);
      forall p ensures p in listed || p in outstanding <==> p in all {
        BlocksOfHas(ly, chunks, p);
      }
      SizeOfParts(listed, outstanding, all);
    }

    /** Addresses ever handed out are blocks of the pool. */
    lemma EverIsBlock(p: nat)
      requires Valid() && p in ever
      ensures IsBlock(ly, chunks, p)
    {
    }

    /** When a pointer that is not outstanding comes back: if it was taken back before, a double free is
        reported; and a reported double free is one exactly if Allocate has ever returned the pointer,
        which a caller can tell beforehand. */
    lemma DoubleFreeExactly(p: nat)
      requires Valid() && p !in outstanding
      ensures p in returned ==> p != NULL && InPool(p)
      ensures p != NULL && InPool(p) ==> (p in returned <==> p in ever)
    {
      if p in ever {
        EverIsBlock(p);
        BlockAligned(ly, chunks, p);
      }
    }

    /** An address strictly inside a block is reported as a double free although it was never handed
        out, whether or not the block is outstanding. */
    lemma InteriorPointer(p: nat, d: nat)
      requires Valid() && IsBlock(ly, chunks, p) && 0 < d < ly.size
      ensures p + d !in outstanding && p + d !in ever && p + d !in returned
      ensures InPool(p + d)
    {
      var j, i :| 0 <= j < |chunks| && 0 <= i < ly.count && p == ly.Block(chunks[j], i);
      BlockInChunk(ly, chunks[j], i);
      assert InChunk(ly, chunks[j], p + d);
      if IsBlock(ly, chunks, p + d) {
        BlocksDisjoint(ly, chunks, p, p + d);
        assert false;
      }
    }

    /** So is the first block of a chunk just carved, which waits at the end of the free list. */
    method FirstBlockReported(raw: nat) returns (node: nat, outcome: Outcome)
      requires Valid() && debug && freeList == NULL && Fresh(ly, chunks, raw) && ly.count >= 2
      modifies this
      ensures Valid() && node != raw && outcome == DoubleFree
      ensures ever == old(ever) + {node} && raw !in ever && raw !in returned
    {
      FirstBlockUnissued(raw);
      BlocksApart(ly, raw, 0, ly.count - 1);
      BlockInChunk(ly, raw, 0);
      hide Linked, Partition, ChunksValid, IsBlock, Fresh;
      node := Allocate(raw);
      assert raw !in outstanding;
      assert InChunk(ly, chunks[|chunks| - 1], raw);
      outcome := Deallocate(raw);
    }

    lemma FirstBlockUnissued(raw: nat)
      requires Valid() && freeList == NULL && Fresh(ly, chunks, raw)
      ensures raw !in ever
    {
      assert free == [];
      assert Carved(ly, raw, ly.count)[ly.count - 1] == ly.Block(raw, 0) == raw;
      CarvedFresh(ly, chunks, raw, raw);
    }

    /** However many links are followed from `freeList`, the walk ends at null having visited the blocks
        that are not outstanding, each once. */
    lemma FreeListWalk(n: nat, p: nat)
      requires Valid() && n >= |free|
      ensures Walk(memory, freeList, n) == free && NoDuplicates(free)
      ensures p in free <==> IsBlock(ly, chunks, p) && p !in outstanding
    {
      hide Walk;
      WalkLinked(memory, freeList, free, n);
    }
  }
}
