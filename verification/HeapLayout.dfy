/**
 The memory picture behind narnify's general heap: blocks of pages, each carved from its
 base upwards into chunks, a chunk being a 48-byte header and its payload.  Everything here
 is about values; HeapAllocator holds the code that changes them.
*/
module HeapLayout {
  import opened Arithmetic
  import opened HeaderList
  import opened Machine

  /** No page run reaches past the physical address space of the processor. */
  const PHYSICAL_END: nat := 0x10_0000_0000_0000
  /** SPLIT_SAFE(sizeof(BlockHeader)) and SPLIT_SAFE(sizeof(AllocHeader)). */
  const HEADER_SIZE: nat := 48

  function U64(x: int): nat {
    x % TWO_64
  }

  /** SPLIT_SAFE on u64. */
  function SplitSafe(x: nat): nat {
    U64(x + 15) / 16 * 16
  }

  /** IN_PAGES on u64. */
  function InPages(x: nat): nat {
    U64(x + (PAGE_SIZE - 1)) / PAGE_SIZE
  }

  datatype Block = Block(base: nat, size: nat, amountUsed: nat, allocCounter: int)
  datatype Chunk = Chunk(header: nat, base: nat, size: nat, isFree: bool)

  // ----- one block

  ghost predicate ChunkOk(block: nat, at: nat, c: Chunk) {
    c.header == block && c.base == at + HEADER_SIZE && at % 16 == 0 && c.size % 16 == 0
  }

  /** The chunks cs of `block` fill the addresses from `at` to `end` without gap or overlap. */
  ghost predicate Tiles(block: nat, cs: seq<nat>, chunks: map<nat, Chunk>, at: nat, end: nat) {
    if cs == [] then at == end
    else
      && cs[0] == at && at in chunks && ChunkOk(block, at, chunks[at])
      && Tiles(block, cs[1..], chunks, at + HEADER_SIZE + chunks[at].size, end)
  }

  function ChunkEnd(chunks: map<nat, Chunk>, c: nat): nat
    requires c in chunks
  {
    c + HEADER_SIZE + chunks[c].size
  }

  ghost function LiveCount(cs: seq<nat>, chunks: map<nat, Chunk>): nat {
    if cs == [] then 0
    else (if cs[0] in chunks && !chunks[cs[0]].isFree then 1 else 0) + LiveCount(cs[1..], chunks)
  }

  lemma {:induction false} TileBounds(block: nat, cs: seq<nat>, chunks: map<nat, Chunk>, at: nat, end: nat, c: nat)
    requires Tiles(block, cs, chunks, at, end) && c in cs
    ensures c in chunks && ChunkOk(block, c, chunks[c])
    ensures at <= c && ChunkEnd(chunks, c) <= end
    decreases cs
  {
    TileEnd(block, cs[1..], chunks, at + HEADER_SIZE + chunks[at].size, end);
    if c != cs[0] {
      TileBounds(block, cs[1..], chunks, at + HEADER_SIZE + chunks[at].size, end, c);
    }
  }

  lemma {:induction false} TileEnd(block: nat, cs: seq<nat>, chunks: map<nat, Chunk>, at: nat, end: nat)
    requires Tiles(block, cs, chunks, at, end)
    ensures at <= end && (cs != [] ==> at < end)
    decreases cs
  {
    if cs != [] {
      TileEnd(block, cs[1..], chunks, at + HEADER_SIZE + chunks[at].size, end);
    }
  }

  /** Chunks of one block do not overlap. */
  lemma {:induction false} TilesApart(block: nat, cs: seq<nat>, chunks: map<nat, Chunk>, at: nat, end: nat, c: nat,
                                      d: nat)
    requires Tiles(block, cs, chunks, at, end) && c in cs && d in cs && c != d
    ensures c in chunks && d in chunks
    ensures ChunkEnd(chunks, c) <= d || ChunkEnd(chunks, d) <= c
    decreases cs
  {
    var next := at + HEADER_SIZE + chunks[at].size;
    if c == cs[0] {
      TileBounds(block, cs[1..], chunks, next, end, d);
    } else if d == cs[0] {
      TileBounds(block, cs[1..], chunks, next, end, c);
    } else {
      TilesApart(block, cs[1..], chunks, next, end, c, d);
    }
  }

  /** Only headers, bases and sizes matter to the tiling. */
  lemma {:induction false} TilesFrame(block: nat, cs: seq<nat>, chunks: map<nat, Chunk>, after: map<nat, Chunk>,
                                      at: nat, end: nat)
    requires Tiles(block, cs, chunks, at, end)
    requires forall c | c in cs && c in chunks ::
      c in after && after[c].(isFree := chunks[c].isFree) == chunks[c]
    ensures Tiles(block, cs, after, at, end)
    decreases cs
  {
    if cs != [] {
      TilesFrame(block, cs[1..], chunks, after, at + HEADER_SIZE + chunks[at].size, end);
    }
  }

  lemma {:induction false} TilesAppend(block: nat, cs: seq<nat>, chunks: map<nat, Chunk>, at: nat, end: nat)
    requires Tiles(block, cs, chunks, at, end) && end in chunks && ChunkOk(block, end, chunks[end])
    ensures Tiles(block, cs + [end], chunks, at, ChunkEnd(chunks, end))
    decreases cs
  {
    if cs == [] {
      assert (cs + [end])[1..] == [];
    } else {
      TilesAppend(block, cs[1..], chunks, at + HEADER_SIZE + chunks[at].size, end);
      assert (cs + [end])[1..] == cs[1..] + [end];
    }
  }

  /** cs with a chunk inserted after position i. */
  function Inserted(cs: seq<nat>, i: nat, c: nat): seq<nat>
    requires i < |cs|
  {
    cs[..i + 1] + [c] + cs[i + 1..]
  }

  /** `after` is `chunks` with c cut to `size` bytes and a chunk d in what it gave up. */
  ghost predicate SplitAt(chunks: map<nat, Chunk>, after: map<nat, Chunk>, block: nat, cs: seq<nat>, c: nat, size: nat)
    requires c in chunks && size + HEADER_SIZE < chunks[c].size
  {
    var d := c + HEADER_SIZE + size;
    && c in after && after[c] == chunks[c].(size := size)
    && d in after && after[d] == Chunk(block, d + HEADER_SIZE, chunks[c].size - size - HEADER_SIZE, true)
    && forall x | x in cs && x in chunks && x != c :: x in after && after[x] == chunks[x]
  }

  lemma {:induction false} TilesSplitFirst(block: nat, cs: seq<nat>, chunks: map<nat, Chunk>, at: nat, end: nat,
                                           after: map<nat, Chunk>, size: nat)
    requires Tiles(block, cs, chunks, at, end) && cs != []
    requires size % 16 == 0 && size + HEADER_SIZE < chunks[at].size && SplitAt(chunks, after, block, cs, at, size)
    ensures Tiles(block, Inserted(cs, 0, at + HEADER_SIZE + size), after, at, end)
  {
    var d := at + HEADER_SIZE + size;
    FirstTile(block, cs, chunks, at, end);
    SplitPieces(block, cs, chunks, at, after, size);
    hide Tiles, ChunkOk, ChunkEnd;
    RestFramed(block, cs[1..], chunks, at, end, after);
    assert Inserted(cs, 0, d) == [at] + ([d] + cs[1..]);
    hide Inserted, SplitAt;
    TilesPrepend(block, d, cs[1..], after, end);
    TilesPrepend(block, at, [d] + cs[1..], after, end);
  }

  lemma SplitPieces(block: nat, cs: seq<nat>, chunks: map<nat, Chunk>, at: nat, after: map<nat, Chunk>, size: nat)
    requires at in chunks && ChunkOk(block, at, chunks[at])
    requires size % 16 == 0 && size + HEADER_SIZE < chunks[at].size && SplitAt(chunks, after, block, cs, at, size)
    ensures var d := at + HEADER_SIZE + size;
      && at in after && ChunkOk(block, at, after[at]) && ChunkEnd(after, at) == d
      && d in after && ChunkOk(block, d, after[d]) && ChunkEnd(after, d) == at + HEADER_SIZE + chunks[at].size
  {
  }

  /** The chunks behind the first one are as they were. */
  lemma RestFramed(block: nat, rest: seq<nat>, chunks: map<nat, Chunk>, at: nat, end: nat, after: map<nat, Chunk>)
    requires at in chunks && Tiles(block, rest, chunks, at + HEADER_SIZE + chunks[at].size, end)
    requires forall x | x in rest && x in chunks && x != at :: x in after && after[x] == chunks[x]
    ensures Tiles(block, rest, after, at + HEADER_SIZE + chunks[at].size, end)
  {
    hide Tiles;
    var next := at + HEADER_SIZE + chunks[at].size;
    forall x | x in rest ensures x != at {
      TileBounds(block, rest, chunks, next, end, x);
    }
    TilesFrame(block, rest, chunks, after, next, end);
  }

  lemma FirstTile(block: nat, cs: seq<nat>, chunks: map<nat, Chunk>, at: nat, end: nat)
    requires Tiles(block, cs, chunks, at, end) && cs != []
    ensures cs[0] == at && at in chunks && ChunkOk(block, at, chunks[at])
    ensures Tiles(block, cs[1..], chunks, at + HEADER_SIZE + chunks[at].size, end)
  {
  }

  lemma TilesPrepend(block: nat, at: nat, cs: seq<nat>, chunks: map<nat, Chunk>, end: nat)
    requires at in chunks && ChunkOk(block, at, chunks[at]) && Tiles(block, cs, chunks, ChunkEnd(chunks, at), end)
    ensures Tiles(block, [at] + cs, chunks, at, end)
  {
    assert ([at] + cs)[1..] == cs;
  }

  /** Shrinking a chunk and putting a new one in the rest keeps the tiling. */
  lemma {:induction false} TilesSplit(block: nat, cs: seq<nat>, chunks: map<nat, Chunk>, at: nat, end: nat,
                                      i: nat, after: map<nat, Chunk>, size: nat)
    requires Tiles(block, cs, chunks, at, end) && i < |cs| && cs[i] in chunks
    requires size % 16 == 0 && size + HEADER_SIZE < chunks[cs[i]].size && SplitAt(chunks, after, block, cs, cs[i], size)
    ensures Tiles(block, Inserted(cs, i, cs[i] + HEADER_SIZE + size), after, at, end)
    decreases cs
  {
    if i == 0 {
      TilesSplitFirst(block, cs, chunks, at, end, after, size);
    } else {
      var next := at + HEADER_SIZE + chunks[at].size;
      assert cs[i] in cs[1..];
      TileBounds(block, cs[1..], chunks, next, end, cs[i]);
      TilesSplit(block, cs[1..], chunks, next, end, i - 1, after, size);
      assert cs[0] in cs && after[at] == chunks[at];
      assert Inserted(cs, i, cs[i] + HEADER_SIZE + size)[1..] == Inserted(cs[1..], i - 1, cs[i] + HEADER_SIZE + size);
    }
  }

  lemma {:induction false} LiveFrame(cs: seq<nat>, chunks: map<nat, Chunk>, after: map<nat, Chunk>)
    requires forall c | c in cs :: c in chunks && c in after && after[c].isFree == chunks[c].isFree
    ensures LiveCount(cs, after) == LiveCount(cs, chunks)
  {
    if cs != [] {
      LiveFrame(cs[1..], chunks, after);
    }
  }

  lemma {:induction false} LiveConcat(a: seq<nat>, b: seq<nat>, chunks: map<nat, Chunk>)
    ensures LiveCount(a + b, chunks) == LiveCount(a, chunks) + LiveCount(b, chunks)
  {
    if a == [] {
      assert a + b == b;
    } else {
      LiveConcat(a[1..], b, chunks);
      assert (a + b)[1..] == a[1..] + b;
    }
  }

  /** Changing one chunk's isFree changes the count by that one. */
  lemma {:induction false} LiveFlip(cs: seq<nat>, chunks: map<nat, Chunk>, after: map<nat, Chunk>, i: nat)
    requires i < |cs| && Distinct(cs)
    requires forall c | c in cs :: c in chunks && c in after
    requires forall c | c in cs && c != cs[i] :: after[c].isFree == chunks[c].isFree
    ensures LiveCount(cs, after) - (if after[cs[i]].isFree then 0 else 1)
         == LiveCount(cs, chunks) - (if chunks[cs[i]].isFree then 0 else 1)
  {
    if i == 0 {
      LiveFrame(cs[1..], chunks, after);
    } else {
      LiveFlip(cs[1..], chunks, after, i - 1);
    }
  }

  lemma {:induction false} NoneLive(cs: seq<nat>, chunks: map<nat, Chunk>)
    requires LiveCount(cs, chunks) == 0
    ensures forall c | c in cs && c in chunks :: chunks[c].isFree
  {
    if cs != [] {
      NoneLive(cs[1..], chunks);
      forall c | c in cs && c in chunks ensures chunks[c].isFree {
        assert c == cs[0] || c in cs[1..];
      }
    }
  }

  lemma {:induction false} NoneCounted(cs: seq<nat>, chunks: map<nat, Chunk>)
    requires forall c | c in cs && c in chunks :: chunks[c].isFree
    ensures LiveCount(cs, chunks) == 0
  {
    if cs != [] { NoneCounted(cs[1..], chunks); }
  }

  lemma {:induction false} TilesDistinct(block: nat, cs: seq<nat>, chunks: map<nat, Chunk>, at: nat, end: nat)
    requires Tiles(block, cs, chunks, at, end)
    ensures Distinct(cs)
    decreases cs
  {
    if cs != [] {
      var next := at + HEADER_SIZE + chunks[at].size;
      TilesDistinct(block, cs[1..], chunks, next, end);
      forall i, j | 0 <= i < j < |cs| ensures cs[i] != cs[j] {
        assert cs[j] == cs[1..][j - 1];
        if i == 0 {
          TileBounds(block, cs[1..], chunks, next, end, cs[j]);
        } else {
          assert cs[i] == cs[1..][i - 1];
        }
      }
    }
  }

  // ----- the whole heap

  /**
   Block headers and chunk headers by address; per block, the addresses of its chunks in
   order; and the page runs taken from the page allocator, as a number of pages.
  */
  datatype Memory = Memory(
    blocks: map<nat, Block>, chunks: map<nat, Chunk>, layout: map<nat, seq<nat>>, runs: map<nat, nat>)

  /** A page run that overlaps none of `runs`. */
  ghost predicate Fresh(runs: map<nat, nat>, at: nat, pages: nat) {
    && 0 < at && at % PAGE_SIZE == 0 && 0 < pages && at + PAGE_SIZE * pages <= PHYSICAL_END
    && forall r | r in runs :: r + PAGE_SIZE * runs[r] <= at || at + PAGE_SIZE * pages <= r
  }

  /**
   How far a block may be carved.  A block whose page run is smaller than its own header
   has a size that wrapped below zero; it counts as full.
  */
  function Capacity(size: nat): nat {
    if size < TWO_64 / 2 then size else 0
  }

  /** A block header agrees with the page run it describes. */
  ghost predicate BlockShape(h: Block, b: nat, pages: nat) {
    && h.base == b + HEADER_SIZE && h.size < TWO_64 && h.size % 16 == 0
    && pages == InPages(U64(h.size + HEADER_SIZE))
    && HEADER_SIZE + Capacity(h.size) <= PAGE_SIZE * pages
    && h.amountUsed <= Capacity(h.size)
  }

  /** The chunks of a block fill what is used of it, and its counter counts the live ones. */
  ghost predicate BlockFilled(h: Block, b: nat, cs: seq<nat>, chunks: map<nat, Chunk>) {
    && Tiles(b, cs, chunks, h.base, h.base + h.amountUsed)
    && h.allocCounter == LiveCount(cs, chunks)
  }

  ghost predicate BlockOk(m: Memory, b: nat)
    requires b in m.blocks
  {
    && b in m.layout && b in m.runs
    && BlockShape(m.blocks[b], b, m.runs[b])
    && BlockFilled(m.blocks[b], b, m.layout[b], m.chunks)
  }

  ghost predicate RunOk(m: Memory, b: nat)
    requires b in m.runs
  {
    && Fresh(m.runs - {b}, b, m.runs[b])
  }

  ghost predicate ChunkPlaced(m: Memory, c: nat)
    requires c in m.chunks
  {
    var b := m.chunks[c].header;
    b in m.blocks && b in m.layout && c in m.layout[b]
  }

  ghost predicate Ok(m: Memory) {
    && m.blocks.Keys == m.layout.Keys == m.runs.Keys
    && (forall b | b in m.blocks :: BlockOk(m, b))
    && (forall b | b in m.runs :: RunOk(m, b))
    && (forall c | c in m.chunks :: ChunkPlaced(m, c))
  }

  ghost function Live(m: Memory): set<nat> {
    set c | c in m.chunks && !m.chunks[c].isFree
  }

  /** The addresses of a chunk, header and payload, are the block's own. */
  lemma ChunkInBlock(m: Memory, c: nat)
    requires Ok(m) && c in m.chunks
    ensures var b := m.chunks[c].header;
      && b in m.blocks && BlockOk(m, b) && ChunkOk(b, c, m.chunks[c])
      && m.blocks[b].base <= c && ChunkEnd(m.chunks, c) <= m.blocks[b].base + m.blocks[b].amountUsed
  {
    assert ChunkPlaced(m, c);
    var b := m.chunks[c].header;
    assert BlockOk(m, b);
    TileBounds(b, m.layout[b], m.chunks, m.blocks[b].base, m.blocks[b].base + m.blocks[b].amountUsed, c);
  }

  lemma RunsApart(m: Memory, a: nat, b: nat)
    requires Ok(m) && a in m.runs && b in m.runs && a != b
    ensures a + PAGE_SIZE * m.runs[a] <= b || b + PAGE_SIZE * m.runs[b] <= a
  {
    assert RunOk(m, a);
    assert b in m.runs - {a};
  }

  /**
   Main safety of the heap: a chunk lies inside its block's pages, above the block's header,
   and shares no byte with any other chunk or with any block header.
  */
  lemma ChunksAreSeparate(m: Memory, c: nat)
    requires Ok(m) && c in m.chunks
    ensures var b := m.chunks[c].header;
      && b in m.runs && b + HEADER_SIZE <= c && ChunkEnd(m.chunks, c) <= b + PAGE_SIZE * m.runs[b]
    ensures forall d | d in m.chunks && d != c :: ChunkEnd(m.chunks, c) <= d || ChunkEnd(m.chunks, d) <= c
    ensures forall b | b in m.blocks :: b + HEADER_SIZE <= c || ChunkEnd(m.chunks, c) <= b
  {
    ChunkInBlock(m, c);
    var own := m.chunks[c].header;
    forall d | d in m.chunks && d != c
      ensures ChunkEnd(m.chunks, c) <= d || ChunkEnd(m.chunks, d) <= c
    {
      ChunkInBlock(m, d);
      var other := m.chunks[d].header;
      if own == other {
        assert ChunkPlaced(m, c) && ChunkPlaced(m, d);
        var h := m.blocks[own];
        TilesApart(own, m.layout[own], m.chunks, h.base, h.base + h.amountUsed, c, d);
      } else {
        RunsApart(m, own, other);
      }
    }
    forall b | b in m.blocks
      ensures b + HEADER_SIZE <= c || ChunkEnd(m.chunks, c) <= b
    {
      if b != own {
        assert BlockOk(m, b) && RunOk(m, b);
        RunsApart(m, own, b);
      }
    }
  }

  /** An unchanged block stays well formed when its chunks keep their records. */
  lemma BlockFrame(m: Memory, after: Memory, b: nat)
    requires b in m.blocks && BlockOk(m, b)
    requires b in after.blocks && after.blocks[b] == m.blocks[b]
    requires b in after.layout && after.layout[b] == m.layout[b]
    requires b in after.runs && after.runs[b] == m.runs[b]
    requires forall c | c in m.layout[b] && c in m.chunks && m.chunks[c].header == b ::
      c in after.chunks && after.chunks[c] == m.chunks[c]
    ensures BlockOk(after, b)
  {
    var h := m.blocks[b];
    var end := h.base + h.amountUsed;
    forall c | c in m.layout[b]
      ensures c in m.chunks && c in after.chunks && after.chunks[c] == m.chunks[c]
    {
      TileBounds(b, m.layout[b], m.chunks, h.base, end, c);
    }
    TilesFrame(b, m.layout[b], m.chunks, after.chunks, h.base, end);
    LiveFrame(m.layout[b], m.chunks, after.chunks);
  }

  // ----- the five changes the code makes

  ghost function BlockAdd(m: Memory, b: nat, size: nat, pages: nat): Memory {
    Memory(m.blocks[b := Block(b + HEADER_SIZE, size, 0, 0)], m.chunks, m.layout[b := []], m.runs[b := pages])
  }

  lemma FreshIsNew(m: Memory, b: nat, pages: nat)
    requires Ok(m) && Fresh(m.runs, b, pages)
    ensures b !in m.runs
  {
  }

  lemma OldRunKept(m: Memory, b: nat, size: nat, pages: nat, a: nat)
    requires Ok(m) && Fresh(m.runs, b, pages) && a in m.runs && a != b
    ensures RunOk(BlockAdd(m, b, size, pages), a)
  {
    assert RunOk(m, a);
    assert BlockAdd(m, b, size, pages).runs - {a} == (m.runs - {a})[b := pages];
  }

  lemma NewBlockOk(m: Memory, b: nat, size: nat, pages: nat)
    requires size < TWO_64 && size % 16 == 0 && pages == InPages(U64(size + HEADER_SIZE))
    requires HEADER_SIZE + Capacity(size) <= PAGE_SIZE * pages
    ensures BlockOk(BlockAdd(m, b, size, pages), b)
  {
    hide InPages, U64;
  }

  /** CreateBlock: a block without chunks over a fresh page run. */
  lemma BlockAdded(m: Memory, b: nat, size: nat, pages: nat)
    requires Ok(m) && Fresh(m.runs, b, pages)
    requires size < TWO_64 && size % 16 == 0 && pages == InPages(U64(size + HEADER_SIZE))
    requires HEADER_SIZE + Capacity(size) <= PAGE_SIZE * pages
    ensures b !in m.blocks && Ok(BlockAdd(m, b, size, pages))
    ensures Live(BlockAdd(m, b, size, pages)) == Live(m)
  {
    hide InPages, U64, Fresh, BlockOk, Capacity;
    var after := BlockAdd(m, b, size, pages);
    FreshIsNew(m, b, pages);
    NewBlockOk(m, b, size, pages);
    forall a | a in after.blocks ensures BlockOk(after, a) {
      if a != b {
        BlockFrame(m, after, a);
      }
    }
    forall a | a in after.runs ensures RunOk(after, a) {
      if a != b {
        OldRunKept(m, b, size, pages, a);
      } else {
        assert after.runs - {b} == m.runs;
      }
    }
    forall c | c in after.chunks ensures ChunkPlaced(after, c) {
      assert ChunkPlaced(m, c);
    }
  }

  ghost function Carved(m: Memory, b: nat, size: nat): Memory
    requires b in m.blocks && b in m.layout
  {
    var h := m.blocks[b];
    var c := h.base + h.amountUsed;
    m.(blocks := m.blocks[b := h.(amountUsed := h.amountUsed + HEADER_SIZE + size, allocCounter := h.allocCounter + 1)],
       chunks := m.chunks[c := Chunk(b, c + HEADER_SIZE, size, false)],
       layout := m.layout[b := m.layout[b] + [c]])
  }

  /** No header lies where the next chunk of a block goes. */
  lemma CarveSpotIsFree(m: Memory, b: nat)
    requires Ok(m) && b in m.blocks && m.blocks[b].amountUsed < Capacity(m.blocks[b].size)
    ensures m.blocks[b].base + m.blocks[b].amountUsed !in m.chunks
  {
    hide InPages, U64, RunOk, Capacity;
    var c := m.blocks[b].base + m.blocks[b].amountUsed;
    assert BlockOk(m, b);
    if c in m.chunks {
      ChunkInBlock(m, c);
      if m.chunks[c].header != b {
        RunsApart(m, m.chunks[c].header, b);
      }
    }
  }

  lemma CarvedFilled(h: Block, b: nat, cs: seq<nat>, chunks: map<nat, Chunk>, size: nat)
    requires BlockFilled(h, b, cs, chunks)
    requires h.base + h.amountUsed !in chunks && (h.base + h.amountUsed) % 16 == 0 && size % 16 == 0
    ensures var c := h.base + h.amountUsed;
      BlockFilled(h.(amountUsed := h.amountUsed + HEADER_SIZE + size, allocCounter := h.allocCounter + 1), b,
                  cs + [c], chunks[c := Chunk(b, c + HEADER_SIZE, size, false)])
  {
    var end := h.base + h.amountUsed;
    var after := chunks[end := Chunk(b, end + HEADER_SIZE, size, false)];
    forall d | d in cs ensures d in chunks && d != end {
      TileBounds(b, cs, chunks, h.base, end, d);
    }
    TilesFrame(b, cs, chunks, after, h.base, end);
    TilesAppend(b, cs, after, h.base, end);
    LiveFrame(cs, chunks, after);
    LiveConcat(cs, [end], after);
    assert LiveCount([end], after) == 1;
  }

  /** CarveMemoryFromBlock and the header written there: one more live chunk at the block's end. */
  lemma ChunkCarved(m: Memory, b: nat, size: nat)
    requires Ok(m) && b in m.blocks && size % 16 == 0 && b in m.layout
    requires m.blocks[b].amountUsed + HEADER_SIZE + size <= Capacity(m.blocks[b].size)
    ensures var c := m.blocks[b].base + m.blocks[b].amountUsed;
      && c !in m.chunks && Ok(Carved(m, b, size))
      && Live(Carved(m, b, size)) == Live(m) + {c}
  {
    hide RunOk, BlockFilled, InPages, U64;
    var after := Carved(m, b, size);
    assert BlockOk(m, b);
    CarveSpotIsFree(m, b);
    TileStartAligned(m, b);
    CarvedFilled(m.blocks[b], b, m.layout[b], m.chunks, size);
    assert BlockOk(after, b);
    hide BlockOk;
    OthersFramed(m, after, b);
    forall d | d in after.chunks ensures ChunkPlaced(after, d) {
      assert d in m.chunks ==> ChunkPlaced(m, d);
    }
  }

  lemma PageAligned(b: nat)
    requires b % PAGE_SIZE == 0
    ensures (b + HEADER_SIZE) % 16 == 0
  {
    var q, r := DivisionOf(b, PAGE_SIZE);
    DivisionIs(b + HEADER_SIZE, 16, 256 * q + 3, 0);
  }

  lemma TileStartAligned(m: Memory, b: nat)
    requires Ok(m) && b in m.blocks
    ensures b in m.runs && (m.blocks[b].base + m.blocks[b].amountUsed) % 16 == 0
  {
    hide InPages, U64, Capacity;
    assert BlockOk(m, b) && RunOk(m, b);
    var h := m.blocks[b];
    PageAligned(b);
    EndAligned(b, m.layout[b], m.chunks, h.base, h.base + h.amountUsed);
  }

  lemma {:induction false} EndAligned(block: nat, cs: seq<nat>, chunks: map<nat, Chunk>, at: nat, end: nat)
    requires Tiles(block, cs, chunks, at, end) && at % 16 == 0
    ensures end % 16 == 0
    decreases cs
  {
    if cs != [] {
      EndAligned(block, cs[1..], chunks, at + HEADER_SIZE + chunks[at].size, end);
    }
  }

  /** A change to one block's header, layout and chunks leaves the other blocks well formed. */
  lemma OthersFramed(m: Memory, after: Memory, b: nat)
    requires Ok(m) && after.runs == m.runs && b in m.blocks
    requires after.blocks.Keys == m.blocks.Keys && after.layout.Keys == m.layout.Keys
    requires forall a | a in m.blocks && a != b :: after.blocks[a] == m.blocks[a] && after.layout[a] == m.layout[a]
    requires forall c | c in m.chunks && m.chunks[c].header != b :: c in after.chunks && after.chunks[c] == m.chunks[c]
    ensures forall a | a in after.blocks && a != b :: BlockOk(after, a)
    ensures forall a | a in after.runs :: RunOk(after, a)
  {
    hide InPages, U64, Fresh, Capacity;
    forall a | a in after.blocks && a != b ensures BlockOk(after, a) {
      assert BlockOk(m, a);
      BlockFrame(m, after, a);
    }
    forall a | a in after.runs ensures RunOk(after, a) {
      assert RunOk(m, a);
    }
  }

  ghost function Flipped(m: Memory, c: nat): Memory
    requires c in m.chunks && m.chunks[c].header in m.blocks
  {
    var b, isFree := m.chunks[c].header, !m.chunks[c].isFree;
    m.(blocks := m.blocks[b := m.blocks[b].(allocCounter := m.blocks[b].allocCounter + if isFree then -1 else 1)],
       chunks := m.chunks[c := m.chunks[c].(isFree := isFree)])
  }

  lemma FlippedFilled(h: Block, b: nat, cs: seq<nat>, chunks: map<nat, Chunk>, c: nat)
    requires BlockFilled(h, b, cs, chunks) && c in cs && c in chunks
    ensures var isFree := !chunks[c].isFree;
      BlockFilled(h.(allocCounter := h.allocCounter + if isFree then -1 else 1), b, cs,
                  chunks[c := chunks[c].(isFree := isFree)])
  {
    var after := chunks[c := chunks[c].(isFree := !chunks[c].isFree)];
    var end := h.base + h.amountUsed;
    forall d | d in cs ensures d in chunks {
      TileBounds(b, cs, chunks, h.base, end, d);
    }
    TilesFrame(b, cs, chunks, after, h.base, end);
    TilesDistinct(b, cs, chunks, h.base, end);
    var i :| 0 <= i < |cs| && cs[i] == c;
    LiveFlip(cs, chunks, after, i);
  }

  /** A chunk goes from free to live or back, and its block's counter follows. */
  lemma ChunkFlipped(m: Memory, c: nat)
    requires Ok(m) && c in m.chunks
    ensures m.chunks[c].header in m.blocks && Ok(Flipped(m, c))
    ensures Live(Flipped(m, c)) == if m.chunks[c].isFree then Live(m) + {c} else Live(m) - {c}
  {
    hide RunOk, BlockFilled, InPages, U64;
    assert ChunkPlaced(m, c) && BlockOk(m, m.chunks[c].header);
    var after := Flipped(m, c);
    FlippedFilled(m.blocks[m.chunks[c].header], m.chunks[c].header, m.layout[m.chunks[c].header], m.chunks, c);
    assert BlockOk(after, m.chunks[c].header);
    hide BlockOk;
    OthersFramed(m, after, m.chunks[c].header);
    forall d | d in after.chunks ensures ChunkPlaced(after, d) {
      assert ChunkPlaced(m, d);
    }
  }

  /** The free chunk c, already taken, keeps `size` bytes; a free chunk fills the rest. */
  ghost function Split(m: Memory, c: nat, size: nat, i: nat): Memory
    requires c in m.chunks && m.chunks[c].header in m.layout && i < |m.layout[m.chunks[c].header]|
    requires size + HEADER_SIZE < m.chunks[c].size
  {
    var b, d := m.chunks[c].header, c + HEADER_SIZE + size;
    m.(chunks := m.chunks[c := m.chunks[c].(size := size)]
                         [d := Chunk(b, d + HEADER_SIZE, m.chunks[c].size - size - HEADER_SIZE, true)],
       layout := m.layout[b := Inserted(m.layout[b], i, d)])
  }

  lemma SplitSpotIsFree(m: Memory, c: nat, size: nat)
    requires Ok(m) && c in m.chunks && size + HEADER_SIZE < m.chunks[c].size
    ensures c + HEADER_SIZE + size !in m.chunks
  {
    var d := c + HEADER_SIZE + size;
    if d in m.chunks {
      ChunksAreSeparate(m, c);
    }
  }

  lemma SplitFilled(h: Block, b: nat, cs: seq<nat>, chunks: map<nat, Chunk>, i: nat, size: nat)
    requires BlockFilled(h, b, cs, chunks) && i < |cs| && cs[i] in chunks
    requires size % 16 == 0 && size + HEADER_SIZE < chunks[cs[i]].size && cs[i] + HEADER_SIZE + size !in chunks
    ensures var c := cs[i];
      var d := c + HEADER_SIZE + size;
      BlockFilled(h, b, Inserted(cs, i, d),
                  chunks[c := chunks[c].(size := size)]
                        [d := Chunk(b, d + HEADER_SIZE, chunks[c].size - size - HEADER_SIZE, true)])
  {
    var c := cs[i];
    var d := c + HEADER_SIZE + size;
    var after := chunks[c := chunks[c].(size := size)]
                       [d := Chunk(b, d + HEADER_SIZE, chunks[c].size - size - HEADER_SIZE, true)];
    forall x | x in cs ensures x in chunks && x != d {
      TileBounds(b, cs, chunks, h.base, h.base + h.amountUsed, x);
    }
    TilesSplit(b, cs, chunks, h.base, h.base + h.amountUsed, i, after, size);
    LiveFrame(cs, chunks, after);
    LiveInserted(cs, i, d, after);
  }

  lemma LiveInserted(cs: seq<nat>, i: nat, d: nat, chunks: map<nat, Chunk>)
    requires i < |cs| && d in chunks && chunks[d].isFree
    ensures LiveCount(Inserted(cs, i, d), chunks) == LiveCount(cs, chunks)
  {
    LiveConcat(cs[..i + 1], cs[i + 1..], chunks);
    assert cs == cs[..i + 1] + cs[i + 1..];
    LiveConcat(cs[..i + 1] + [d], cs[i + 1..], chunks);
    LiveConcat(cs[..i + 1], [d], chunks);
    assert LiveCount([d], chunks) == 0;
  }

  lemma ChunkSplit(m: Memory, c: nat, size: nat, i: nat)
    requires Ok(m) && c in m.chunks && size % 16 == 0 && size + HEADER_SIZE < m.chunks[c].size
    requires m.chunks[c].header in m.layout
    requires i < |m.layout[m.chunks[c].header]| && m.layout[m.chunks[c].header][i] == c
    ensures c + HEADER_SIZE + size !in m.chunks && Ok(Split(m, c, size, i))
    ensures Live(Split(m, c, size, i)) == Live(m)
  {
    hide RunOk, BlockFilled, InPages, U64;
    var b, d := m.chunks[c].header, c + HEADER_SIZE + size;
    assert ChunkPlaced(m, c) && BlockOk(m, b);
    var after := Split(m, c, size, i);
    SplitSpotIsFree(m, c, size);
    SplitFilled(m.blocks[b], b, m.layout[b], m.chunks, i, size);
    assert BlockOk(after, b);
    hide BlockOk;
    OthersFramed(m, after, b);
    forall x | x in after.chunks ensures ChunkPlaced(after, x) {
      if x == d {
        assert after.layout[b][i + 1] == d;
      } else {
        assert ChunkPlaced(m, x);
        InsertedHas(m.layout[m.chunks[x].header], i, d, x);
      }
    }
  }

  lemma InsertedHas(cs: seq<nat>, i: nat, d: nat, x: nat)
    requires x in cs
    ensures i < |cs| ==> x in Inserted(cs, i, d)
  {
  }

  function ChunksOf(chunks: map<nat, Chunk>, b: nat): set<nat> {
    set c | c in chunks && chunks[c].header == b
  }

  /** A block and all its chunks are gone, and so is its page run. */
  ghost function Dropped(m: Memory, b: nat): Memory {
    Memory(m.blocks - {b}, m.chunks - ChunksOf(m.chunks, b), m.layout - {b}, m.runs - {b})
  }

  lemma BlockDropped(m: Memory, b: nat)
    requires Ok(m) && b in m.blocks && b in m.layout && LiveCount(m.layout[b], m.chunks) == 0
    ensures Ok(Dropped(m, b)) && Live(Dropped(m, b)) == Live(m)
  {
    hide RunOk, BlockOk;
    var after := Dropped(m, b);
    forall a | a in after.blocks ensures BlockOk(after, a) {
      BlockFrame(m, after, a);
    }
    forall a | a in after.runs ensures RunOk(after, a) {
      RunDropped(m, b, a);
    }
    forall c | c in after.chunks ensures ChunkPlaced(after, c) {
      assert ChunkPlaced(m, c);
    }
    NoneLive(m.layout[b], m.chunks);
    forall c | c in m.chunks && m.chunks[c].header == b ensures c !in Live(m) {
      assert ChunkPlaced(m, c);
    }
  }

  lemma RunDropped(m: Memory, b: nat, a: nat)
    requires Ok(m) && a in m.runs && a != b
    ensures RunOk(Dropped(m, b), a)
  {
    assert RunOk(m, a);
    assert (m.runs - {b}) - {a} == (m.runs - {a}) - {b};
  }
}
