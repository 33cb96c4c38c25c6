/**
 narnify's general heap (alloc.c).  Pointers are addresses; the block and chunk headers the
 C code keeps in memory are records in maps by address, so that stepping back from a payload
 address to its header is the same subtraction as in the source.  The page allocator is not
 part of this model: its answer to a request is the parameter `offer`, 0 for a refusal.
*/
module HeapAllocator {
  import opened HeaderList
  import opened HeapLayout
  import opened Machine

  datatype Status = Success | OutOfMemory | InvalidAddress | AccessDenied

  /** A u64 read as i64. */
  function I64(x: nat): int
    requires x < TWO_64
  {
    if x < TWO_64 / 2 then x else x - TWO_64
  }

  /** A free chunk is taken whole: of that size exactly, or with one header to spare. */
  predicate MatchesWhole(chunkSize: nat, size: nat) {
    chunkSize == size || chunkSize == U64(size + HEADER_SIZE)
  }

  /** Or its front is, when both parts are larger than a header. */
  predicate Matches(chunkSize: nat, size: nat) {
    MatchesWhole(chunkSize, size) || (size > HEADER_SIZE && chunkSize > size + HEADER_SIZE)
  }

  predicate HasRoom(h: Block, size: nat) {
    size <= Capacity(h.size) - h.amountUsed
  }

  ghost predicate NoneFree(m: Memory, size: nat) {
    forall c | c in m.chunks && m.chunks[c].isFree :: !Matches(m.chunks[c].size, size)
  }

  ghost predicate NoRoom(m: Memory, size: nat) {
    forall b | b in m.blocks :: !HasRoom(m.blocks[b], size)
  }

  /** The first chunk of the free list that serves `size` bytes is number k. */
  ghost predicate FirstFree(m: Memory, free: seq<nat>, size: nat, k: nat) {
    && k < |free| && free[k] in m.chunks && Matches(m.chunks[free[k]].size, size)
    && forall j | 0 <= j < k :: free[j] in m.chunks && !Matches(m.chunks[free[j]].size, size)
  }

  /** The first block with room for `size` bytes is number k. */
  ghost predicate FirstRoom(m: Memory, list: seq<nat>, size: nat, k: nat) {
    && k < |list| && list[k] in m.blocks && HasRoom(m.blocks[list[k]], size)
    && forall j | 0 <= j < k :: list[j] in m.blocks && !HasRoom(m.blocks[list[j]], size)
  }

  ghost predicate Placed(m: Memory, c: nat, i: nat) {
    && c in m.chunks && m.chunks[c].header in m.blocks && m.chunks[c].header in m.layout
    && i < |m.layout[m.chunks[c].header]| && m.layout[m.chunks[c].header][i] == c
  }

  /** Free chunk c became live: whole, or its front of `size` bytes with a free chunk in the rest. */
  ghost predicate Reused(m: Memory, after: Memory, c: nat, size: nat) {
    && c in m.chunks && m.chunks[c].isFree && m.chunks[c].header in m.blocks && Matches(m.chunks[c].size, size)
    && if MatchesWhole(m.chunks[c].size, size) then after == Flipped(m, c)
       else exists i: nat :: Placed(m, c, i) && after == Split(Flipped(m, c), c, size, i)
  }

  /** CarveMemoryFromBlock(b, size) and the chunk header written there. */
  ghost function CarvedOff(m: Memory, b: nat, size: nat): Memory
    requires b in m.blocks && b in m.layout
  {
    var h := m.blocks[b];
    var c := h.base + h.amountUsed;
    m.(blocks := m.blocks[b := h.(amountUsed := h.amountUsed + size, allocCounter := h.allocCounter + 1)],
       chunks := m.chunks[c := Chunk(b, c + HEADER_SIZE, U64(size - HEADER_SIZE), false)],
       layout := m.layout[b := m.layout[b] + [c]])
  }

  /** The request was met by the first free chunk that serves it. */
  ghost predicate FromFree(m: Memory, free: seq<nat>, after: Memory, mem: nat, n: nat) {
    exists k: nat :: FirstFree(m, free, SplitSafe(n), k) && Reused(m, after, free[k], SplitSafe(n))
      && mem == free[k] + HEADER_SIZE
  }

  /** No free chunk serves the request, and it was carved from the first block with room. */
  ghost predicate FromBlock(m: Memory, list: seq<nat>, after: Memory, mem: nat, n: nat) {
    && NoneFree(m, SplitSafe(n))
    && exists k: nat :: FirstRoom(m, list, SplitSafe(n + HEADER_SIZE), k) && list[k] in m.layout
                        && after == CarvedOff(m, list[k], SplitSafe(n + HEADER_SIZE))
                        && mem == m.blocks[list[k]].base + m.blocks[list[k]].amountUsed + HEADER_SIZE
  }

  /** The pages asked for when a request needs a new block. */
  function NewPages(n: nat): nat {
    InPages(SplitSafe(U64(n + PAGE_SIZE)))
  }

  /** A block for the request, over a run of pages that the page allocator offers. */
  ghost function Grown(m: Memory, n: nat, offer: nat): Memory {
    BlockAdd(m, offer, U64(SplitSafe(U64(n + PAGE_SIZE)) - HEADER_SIZE), NewPages(n))
  }

  /** The size of a new block for such a request wraps around, and the request's own does not. */
  predicate Wraps(n: nat) {
    TWO_64 - PAGE_SIZE <= n <= TWO_64 - 64
  }

  /**
   A request was met as the heap was, whenever it could be; otherwise from the new block alone, or not at
   all: because the page allocator refused, or because the size of the new block wrapped around.
  */
  ghost predicate Allocated(m: Memory, free: seq<nat>, list: seq<nat>, after: Memory, mem: nat, n: nat, offer: nat) {
    if !NoneFree(m, SplitSafe(n)) || !NoRoom(m, SplitSafe(n + HEADER_SIZE)) then
      mem != 0 && (FromFree(m, free, after, mem, n) || FromBlock(m, list, after, mem, n))
    else if offer == 0 then mem == 0 && after == m
    else if Wraps(n) then mem == 0 && after == Grown(m, n, offer)
    else mem != 0 && FromBlock(Grown(m, n, offer), list + [offer], after, mem, n)
  }

  /** The rounded size of the request wrapped around and is less than the header that it is to hold. */
  predicate Overruns(n: nat) {
    SplitSafe(n + HEADER_SIZE) < HEADER_SIZE
  }

  /** `mem` is the payload of a new live chunk of at least n bytes; the other live chunks are untouched. */
  ghost predicate Served(m: Memory, after: Memory, mem: nat, n: nat) {
    && HEADER_SIZE <= mem && mem % 16 == 0
    && var c := mem - HEADER_SIZE;
      && c in after.chunks && after.chunks[c].base == mem && n <= after.chunks[c].size
      && c !in Live(m) && Live(after) == Live(m) + {c}
      && forall x | x in Live(m) :: x in after.chunks && after.chunks[x] == m.chunks[x]
  }

  /**
   Chunk c is no longer live and the other live chunks are untouched: c joins the free
   chunks, unless it was its block's last live chunk; then the block goes, with all its
   chunks and its page run.
  */
  ghost predicate Freed(m: Memory, after: Memory, c: nat)
    requires c in m.chunks
  {
    var b := m.chunks[c].header;
    && b in m.blocks && c in Live(m) && Live(after) == Live(m) - {c}
    && after == if m.blocks[b].allocCounter > 1 then Flipped(m, c) else Dropped(m, b)
  }

  /** Freeing chunk c: refused if it is free already, and done otherwise. */
  ghost predicate FreeResult(m: Memory, after: Memory, c: int, status: Status) {
    && 0 <= c && c in m.chunks
    && if m.chunks[c].isFree then status == AccessDenied && after == m else status == Success && Freed(m, after, c)
  }

  /** A request whose size, rounded up with a header, is still a u64; CarvedSizeServes is about all others. */
  predicate Servable(n: nat) {
    n + HEADER_SIZE + 16 <= TWO_64
  }

  class Heap {
    var blocks: map<nat, Block>
    var chunks: map<nat, Chunk>
    const blockList: HeaderList
    const freeList: HeaderList
    ghost var layout: map<nat, seq<nat>>
    ghost var runs: map<nat, nat>

    ghost function Mem(): Memory
      reads this
    {
      Memory(blocks, chunks, layout, runs)
    }

    /** The heap is well formed; the lists hold all blocks, and exactly the free chunks. */
    ghost predicate Valid()
      reads this, blockList, freeList
    {
      && blockList != freeList && blockList.Valid() && freeList.Valid()
      && Ok(Mem())
      && (forall b :: b in blockList.list <==> b in blocks)
      && (forall c :: c in freeList.list <==> c in chunks && chunks[c].isFree)
    }

    constructor ()
      ensures Valid() && blocks == map[] && chunks == map[]
      ensures fresh(blockList) && fresh(freeList)
    {
      blocks, chunks, layout, runs := map[], map[], map[], map[];
      var bl := new HeaderList();
      var fl := new HeaderList();
      blockList, freeList := bl, fl;
    }

    /** CreateBlock, the page allocator answering `offer`. */
    method CreateBlock(allocSize: nat, offer: nat) returns (status: Status)
      requires Valid() && allocSize < TWO_64
      requires offer == 0 || Fresh(runs, offer, InPages(SplitSafe(allocSize)))
      modifies this, blockList
      ensures Valid()
      ensures status == if offer == 0 then OutOfMemory else Success
      ensures Mem() == if offer == 0 then old(Mem())
                       else BlockAdd(old(Mem()), offer, U64(SplitSafe(allocSize) - HEADER_SIZE),
                                     InPages(SplitSafe(allocSize)))
      ensures offer != 0 ==> offer !in old(blocks)
      ensures blockList.list == if offer == 0 then old(blockList.list) else old(blockList.list) + [offer]
    {
      hide Ok, Fresh, BlockShape;
      var size := SplitSafe(allocSize);
      var sizeInPages := InPages(size);
      if offer == 0 {
        return OutOfMemory;
      }
      var header := offer;
      SizeOfNewBlock(allocSize, offer, Mem());
      BlockAdded(Mem(), header, U64(size - HEADER_SIZE), sizeInPages);
      blocks := blocks[header := Block(header + HEADER_SIZE, U64(size - HEADER_SIZE), 0, 0)];
      blockList.Add(header);
      layout, runs := layout[header := []], runs[header := sizeInPages];
      return Success;
    }

    /** MmInitGeneralAllocator. */
    method Init(offer: nat) returns (status: Status)
      requires Valid()
      requires offer == 0 || Fresh(runs, offer, 1)
      modifies this, blockList
      ensures Valid()
      ensures status == if offer == 0 then OutOfMemory else Success
      ensures chunks == old(chunks)
      ensures runs == if offer == 0 then old(runs) else old(runs)[offer := 1]
      ensures offer != 0 ==> offer in blocks && Capacity(blocks[offer].size) == 0
    {
      assert SplitSafe(10) == 16 && InPages(16) == 1;
      status := CreateBlock(10, offer);
      assert U64(16 - HEADER_SIZE) == TWO_64 - 32;
    }

    /** The whole of a free chunk becomes live: alloc.c:155-159. */
    method TakeFreeChunk(header: nat, ghost k: nat)
      requires Valid() && k < |freeList.list| && freeList.list[k] == header
      modifies this, freeList
      ensures Valid() && blockList.list == old(blockList.list)
      ensures header in old(chunks) && old(chunks[header]).isFree && old(chunks[header]).header in old(blocks)
      ensures Mem() == Flipped(old(Mem()), header)
      ensures freeList.list == Without(old(freeList.list), k)
      ensures Live(Mem()) == Live(old(Mem())) + {header}
    {
      hide Ok;
      assert header in freeList.list;
      ChunkFlipped(Mem(), header);
      var bHeader := chunks[header].header;
      chunks := chunks[header := chunks[header].(isFree := false)];
      blocks := blocks[bHeader := blocks[bHeader].(allocCounter := blocks[bHeader].allocCounter + 1)];
      WithoutElements(freeList.list, k);
      freeList.Remove(header, k);
    }

    /** A live chunk gives the bytes past the first `size` to a new free chunk: alloc.c:166-177. */
    method SplitChunk(header: nat, size: nat) returns (ghost i: nat)
      requires Valid() && header in chunks && !chunks[header].isFree
      requires size % 16 == 0 && size + HEADER_SIZE < chunks[header].size
      modifies this, freeList
      ensures Valid() && blockList.list == old(blockList.list)
      ensures old(Placed(Mem(), header, i)) && Mem() == old(Split(Mem(), header, size, i))
      ensures header in chunks && chunks[header].base == old(chunks[header].base)
    {
      hide Ok;
      var bHeader := chunks[header].header;
      i := PlaceOf(Mem(), header);
      ChunkSplit(Mem(), header, size, i);
      ghost var before := Mem();
      var oldSize := chunks[header].size;
      chunks := chunks[header := chunks[header].(size := size)];
      var newHeader := chunks[header].base + size;
      assert chunks[header].base == header + HEADER_SIZE;
      SplitSafeExact(oldSize - size - HEADER_SIZE);
      chunks := chunks[newHeader := Chunk(bHeader, newHeader + HEADER_SIZE,
                                          SplitSafe(oldSize - size - HEADER_SIZE), true)];
      layout := layout[bHeader := Inserted(layout[bHeader], i, newHeader)];
      assert Mem() == Split(before, header, size, i);
      freeList.Add(newHeader);
    }

    /** alloc.c:155-159. */
    method ServeWhole(header: nat, ghost k: nat, ghost size: nat) returns (mem: nat)
      requires Valid() && k < |freeList.list| && freeList.list[k] == header
      requires header in chunks && MatchesWhole(chunks[header].size, size)
      modifies this, freeList
      ensures Valid() && blockList.list == old(blockList.list)
      ensures mem == header + HEADER_SIZE && Reused(old(Mem()), Mem(), header, size)
    {
      hide Ok, MatchesWhole;
      FreeChunkFacts(Mem(), header);
      TakeFreeChunk(header, k);
      mem := chunks[header].base;
    }

    /** alloc.c:163-178. */
    method ServePart(header: nat, ghost k: nat, size: nat) returns (mem: nat)
      requires Valid() && k < |freeList.list| && freeList.list[k] == header
      requires header in chunks && size % 16 == 0 && HEADER_SIZE < size && size + HEADER_SIZE < chunks[header].size
      requires !MatchesWhole(chunks[header].size, size)
      modifies this, freeList
      ensures Valid() && blockList.list == old(blockList.list)
      ensures mem == header + HEADER_SIZE && Reused(old(Mem()), Mem(), header, size)
    {
      hide Ok, MatchesWhole;
      FreeChunkFacts(Mem(), header);
      TakeFreeChunk(header, k);
      ghost var i := SplitChunk(header, size);
      assert Placed(old(Mem()), header, i);
      mem := chunks[header].base;
    }

    /** First fit over the free list; NULL exactly when no free chunk fits. */
    method GetMemoryFromFreeList(allocSize: nat) returns (mem: nat)
      requires Valid() && allocSize < TWO_64
      modifies this, freeList
      ensures Valid() && blockList.list == old(blockList.list)
      ensures mem == 0 ==> freeList.list == old(freeList.list)
      ensures if mem == 0 then Mem() == old(Mem()) && NoneFree(Mem(), SplitSafe(allocSize))
              else FromFree(old(Mem()), old(freeList.list), Mem(), mem, allocSize)
    {
      hide Ok, Matches, MatchesWhole, SplitSafe, U64, Reused;
      var size := SplitSafe(allocSize);
      SizeBelow(allocSize);
      var header := freeList.head;
      ghost var k := 0;
      ghost var before, free := Mem(), freeList.list;
      while header != 0
        invariant k <= |freeList.list| && header == At(freeList.list, k)
        invariant forall j | 0 <= j < k :: freeList.list[j] in chunks && !Matches(chunks[freeList.list[j]].size, size)
        invariant Mem() == before && Valid() && freeList.list == free
        decreases |freeList.list| - k
      {
        assert freeList.list[k] in freeList.list;
        assert LinkedAt(freeList.list, freeList.links, k);
        var chunkSize := chunks[header].size;
        MatchesCases(chunkSize, size);
        if chunkSize == size || chunkSize == U64(size + HEADER_SIZE) {
          mem := ServeWhole(header, k, size);
          assert FirstFree(before, free, size, k);
          return;
        } else if chunkSize > size && !(size <= HEADER_SIZE) && !(chunkSize - size <= HEADER_SIZE) {
          mem := ServePart(header, k, size);
          assert FirstFree(before, free, size, k);
          return;
        }
        header := freeList.links[header].next;
        k := k + 1;
      }
      forall c | c in chunks && chunks[c].isFree ensures !Matches(chunks[c].size, size) {
        assert c in freeList.list;
      }
      return 0;
    }

    /** First fit over the free list, then over the blocks; NULL exactly when neither has a place. */
    method AllocateFreshMemory(allocSize: nat) returns (mem: nat)
      requires Valid() && allocSize < TWO_64
      modifies this, freeList
      ensures Valid() <==>
        mem == 0 || !Overruns(allocSize) || FromFree(old(Mem()), old(freeList.list), Mem(), mem, allocSize)
      ensures blockList.list == old(blockList.list)
      ensures mem == 0 ==> freeList.list == old(freeList.list)
      ensures if mem == 0 then
                && Mem() == old(Mem())
                && NoneFree(Mem(), SplitSafe(allocSize)) && NoRoom(Mem(), SplitSafe(allocSize + HEADER_SIZE))
              else
                || FromFree(old(Mem()), old(freeList.list), Mem(), mem, allocSize)
                || FromBlock(old(Mem()), old(blockList.list), Mem(), mem, allocSize)
    {
      hide Ok, Matches, SplitSafe, FromFree, FromBlock, NoneFree, NoRoom;
      mem := GetMemoryFromFreeList(allocSize);
      if mem != 0 {
        return;
      }
      var size := SplitSafe(allocSize + HEADER_SIZE);
      SizeBelow(allocSize + HEADER_SIZE);
      var header := blockList.head;
      ghost var k := 0;
      while header != 0
        invariant k <= |blockList.list| && header == At(blockList.list, k)
        invariant forall j | 0 <= j < k :: blockList.list[j] in blocks && !HasRoom(blocks[blockList.list[j]], size)
        invariant Mem() == old(Mem()) && Valid()
        invariant blockList.list == old(blockList.list) && freeList.list == old(freeList.list)
        decreases |blockList.list| - k
      {
        assert blockList.list[k] in blockList.list;
        assert LinkedAt(blockList.list, blockList.links, k);
        BlockFacts(Mem(), header);
        SignedRemaining(blocks[header], size);
        var remaining := I64(U64(blocks[header].size - blocks[header].amountUsed));
        if remaining <= 0 {
          remaining := 0;
        }
        if remaining >= size {
          mem := CarveChunk(header, size, k, allocSize);
          NotFree(old(Mem()), old(freeList.list), Mem(), mem, allocSize);
          return;
        }
        header := blockList.links[header].next;
        k := k + 1;
      }
      AllFull(Mem(), blockList.list, size);
      return 0;
    }

    /** alloc.c:199-207. */
    method CarveChunk(header: nat, size: nat, ghost k: nat, ghost allocSize: nat) returns (mem: nat)
      requires Valid() && header in blocks && header in layout && HasRoom(blocks[header], size) && size % 16 == 0
      requires size == SplitSafe(allocSize + HEADER_SIZE) && NoneFree(Mem(), SplitSafe(allocSize))
      requires FirstRoom(Mem(), blockList.list, size, k) && header == blockList.list[k]
      modifies this
      ensures Valid() <==> !Overruns(allocSize)
      ensures mem != 0 && FromBlock(old(Mem()), blockList.list, Mem(), mem, allocSize)
    {
      hide Ok, HasRoom;
      BlockFacts(Mem(), header);
      ghost var before := Mem();
      CarvedOrBroken(before, header, size);
      mem := blocks[header].base + blocks[header].amountUsed;
      var aHeader := mem;
      blocks := blocks[header := blocks[header].(amountUsed := blocks[header].amountUsed + size,
                                                 allocCounter := blocks[header].allocCounter + 1)];
      mem := mem + HEADER_SIZE;
      chunks := chunks[aHeader := Chunk(header, mem, U64(size - HEADER_SIZE), false)];
      layout := layout[header := layout[header] + [aHeader]];
      assert Mem() == CarvedOff(before, header, size);
      assert FirstRoom(before, blockList.list, size, k);
    }
    lemma ValidIsOk()
      requires Valid()
      ensures Ok(Mem()) && Mem().runs == runs && blockList != freeList
    {
    }

    /** MmAllocateGeneralMemory, the page allocator answering `offer` if it is asked. */
    method Allocate(allocSize: nat, offer: nat) returns (mem: nat)
      requires Valid() && allocSize < TWO_64
      requires offer == 0 || Fresh(runs, offer, NewPages(allocSize))
      modifies this, blockList, freeList
      ensures Allocated(old(Mem()), old(freeList.list), old(blockList.list), Mem(), mem, allocSize, offer)
      ensures mem != 0 && Servable(allocSize) ==> Served(old(Mem()), Mem(), mem, allocSize)
      ensures Valid() <==>
        mem == 0 || !Overruns(allocSize) || FromFree(old(Mem()), old(freeList.list), Mem(), mem, allocSize)
    {
      hide *;
      ValidIsOk();
      ghost var before, free, list := Mem(), freeList.list, blockList.list;
      NewBlockIs(before, allocSize, offer);
      mem := AllocateFreshMemory(allocSize);
      if mem == 0 {
        U64Below(allocSize + PAGE_SIZE);
        ValidIsOk();
        var status := CreateBlock(U64(allocSize + PAGE_SIZE), offer);
        ghost var grown := Mem();
        if status == Success {
          ValidIsOk();
          GrownServes(before, allocSize, offer);
          mem := AllocateFreshMemory(allocSize);
        }
        AllocatedLater(before, free, list, grown, Mem(), mem, allocSize, offer);
      } else {
        AllocatedAtOnce(before, free, list, Mem(), mem, allocSize, offer);
      }
    }

    /** alloc.c:265-274: every free chunk of the block leaves the free list, and nothing else does. */
    method UnlinkChunksOf(bHeader: nat)
      requires freeList.Valid() && forall c | c in freeList.list :: c in chunks
      modifies freeList
      ensures freeList.Valid()
      ensures forall c :: c in freeList.list <==> c in old(freeList.list) && chunks[c].header != bHeader
    {
      var header := freeList.head;
      ghost var k := 0;
      while header != 0
        invariant freeList.Valid()
        invariant k <= |freeList.list| && header == At(freeList.list, k)
        invariant forall c | c in freeList.list :: c in old(freeList.list)
        invariant forall c | c in old(freeList.list) && chunks[c].header != bHeader :: c in freeList.list
        invariant forall j | 0 <= j < k :: freeList.list[j] in chunks && chunks[freeList.list[j]].header != bHeader
        decreases |freeList.list| - k
      {
        assert freeList.list[k] in freeList.list;
        assert LinkedAt(freeList.list, freeList.links, k);
        var next := freeList.links[header].next;
        if chunks[header].header == bHeader {
          WithoutElements(freeList.list, k);
          freeList.Remove(header, k);
        } else {
          k := k + 1;
        }
        header := next;
      }
    }

    /** DeleteBlockHeader: the block goes, and the page run it was made from goes back. */
    method DeleteBlockHeader(bHeader: nat)
      requires blockList != freeList && blockList.Valid()
      requires bHeader in blocks && bHeader in runs && bHeader in blockList.list
      requires BlockShape(blocks[bHeader], bHeader, runs[bHeader]) && blocks[bHeader].size < TWO_64 / 2
      modifies this, blockList
      ensures blockList.Valid() && (forall b :: b in blockList.list <==> b in old(blockList.list) && b != bHeader)
      ensures Mem() == Dropped(old(Mem()), bHeader)
    {
      var size := SplitSafe(blocks[bHeader].size + HEADER_SIZE);
      var sizeInPages := InPages(size);
      ghost var i :| 0 <= i < |blockList.list| && blockList.list[i] == bHeader;
      WithoutElements(blockList.list, i);
      blockList.Remove(bHeader, i);
      var mem := blocks[bHeader].base - HEADER_SIZE;
      DeletedSize(blocks[bHeader], bHeader, runs[bHeader]);
      FreeMultiplePages(mem, sizeInPages);
      chunks := chunks - ChunksOf(chunks, bHeader);
      blocks, layout := blocks - {bHeader}, layout - {bHeader};
    }

    /** MmFreeMultiplePages takes back exactly a run that was handed out. */
    ghost method FreeMultiplePages(at: nat, pages: nat)
      requires at in runs && runs[at] == pages
      modifies this`runs
      ensures runs == old(runs) - {at}
    {
      runs := runs - {at};
    }

    /**
     MmFreeGeneralMemory.  The address must be NULL or a payload the heap gave out; a chunk
     that is already free is refused.  The block of the last live chunk goes altogether.
    */
    method Free(address: nat) returns (status: Status)
      requires Valid() && (address == 0 || (HEADER_SIZE <= address && address - HEADER_SIZE in chunks))
      modifies this, blockList, freeList
      ensures Valid()
      ensures if address == 0 then status == InvalidAddress && Mem() == old(Mem())
              else FreeResult(old(Mem()), Mem(), address - HEADER_SIZE, status)
    {
      hide Ok, BlockOk, BlockShape, Capacity, Freed, Live, U64, InPages, SplitSafe;
      if address == 0 {
        return InvalidAddress;
      }
      var aHeader := address - HEADER_SIZE;
      if chunks[aHeader].isFree {
        return AccessDenied;
      }
      ghost var before := Mem();
      var bHeader := chunks[aHeader].header;
      LiveChunkFacts(before, aHeader);
      FreedWell(before, aHeader);
      blocks := blocks[bHeader := blocks[bHeader].(allocCounter := blocks[bHeader].allocCounter - 1)];
      if blocks[bHeader].allocCounter <= 0 {
        assert bHeader in blockList.list;
        UnlinkChunksOf(bHeader);
        DeleteBlockHeader(bHeader);
        assert Mem() == Dropped(before, bHeader);
      } else {
        NonNull(before, aHeader);
        chunks := chunks[aHeader := chunks[aHeader].(isFree := true)];
        assert Mem() == Flipped(before, aHeader);
        freeList.Add(aHeader);
      }
      return Success;
    }
  }

  lemma NonNull(m: Memory, c: nat)
    requires Ok(m) && c in m.chunks
    ensures c != 0
  {
    ChunkInBlock(m, c);
  }

  lemma DeletedSize(h: Block, b: nat, pages: nat)
    requires BlockShape(h, b, pages) && h.size < TWO_64 / 2
    ensures InPages(SplitSafe(h.size + HEADER_SIZE)) == pages
  {
    SplitSafeExact(h.size + HEADER_SIZE);
    U64Below(h.size + HEADER_SIZE);
    hide SplitSafe, Capacity, U64, InPages;
  }

  /** A live chunk's block is counted at least once, lies over a page run, and was carved, so its size did not wrap. */
  lemma LiveChunkFacts(m: Memory, c: nat)
    requires Ok(m) && c in m.chunks && !m.chunks[c].isFree
    ensures var b := m.chunks[c].header;
      && b in m.blocks && b in m.runs && b in m.layout
      && BlockShape(m.blocks[b], b, m.runs[b]) && m.blocks[b].size < TWO_64 / 2
      && m.blocks[b].allocCounter >= 1
      && (m.blocks[b].allocCounter == 1 ==> BlockShape(Flipped(m, c).blocks[b], b, m.runs[b]))
  {
    ChunkInBlock(m, c);
    ChunkFlipped(m, c);
    var b := m.chunks[c].header;
    assert BlockOk(m, b) && BlockOk(Flipped(m, c), b);
  }

  lemma DroppedIgnoresFlip(m: Memory, c: nat)
    requires c in m.chunks && m.chunks[c].header in m.blocks
    ensures Dropped(Flipped(m, c), m.chunks[c].header) == Dropped(m, m.chunks[c].header)
  {
    assert ChunksOf(Flipped(m, c).chunks, m.chunks[c].header) == ChunksOf(m.chunks, m.chunks[c].header);
  }

  /** The count that Free decrements becomes zero exactly if all other chunks of the block are free. */
  lemma CounterBecomesZero(m: Memory, c: nat)
    requires Ok(m) && c in m.chunks && !m.chunks[c].isFree
    ensures var b := m.chunks[c].header;
      && b in m.blocks
      && (m.blocks[b].allocCounter == 1 <==>
        forall d | d in m.chunks && d != c && m.chunks[d].header == b :: m.chunks[d].isFree)
  {
    hide Ok;
    var b := m.chunks[c].header;
    ChunkFlipped(m, c);
    var after := Flipped(m, c);
    CounterCounts(after, b);
    BlockMembers(after, b);
    if after.blocks[b].allocCounter == 0 {
      NoneLive(after.layout[b], after.chunks);
      forall d | d in m.chunks && d != c && m.chunks[d].header == b ensures m.chunks[d].isFree {
        assert d in after.layout[b];
      }
    } else if forall d | d in m.chunks && d != c && m.chunks[d].header == b :: m.chunks[d].isFree {
      NoneCounted(after.layout[b], after.chunks);
    }
  }

  lemma BlockMembers(m: Memory, b: nat)
    requires Ok(m) && b in m.blocks
    ensures b in m.layout && forall d :: d in m.layout[b] <==> d in m.chunks && m.chunks[d].header == b
  {
    assert BlockOk(m, b);
    forall d ensures d in m.layout[b] <==> d in m.chunks && m.chunks[d].header == b {
      if d in m.layout[b] {
        TileBounds(b, m.layout[b], m.chunks, m.blocks[b].base, m.blocks[b].base + m.blocks[b].amountUsed, d);
      } else if d in m.chunks {
        assert ChunkPlaced(m, d);
      }
    }
  }

  /** With the count at zero the block can go: none of its chunks is live any more. */
  lemma LastLiveChunk(m: Memory, c: nat)
    requires Ok(m) && c in m.chunks && !m.chunks[c].isFree
    requires m.chunks[c].header in m.blocks && m.blocks[m.chunks[c].header].allocCounter <= 1
    ensures var b := m.chunks[c].header;
      && Ok(Dropped(Flipped(m, c), b)) && Live(Dropped(Flipped(m, c), b)) == Live(m) - {c}
      && Dropped(Flipped(m, c), b) == Dropped(m, b)
  {
    hide Ok, Live, Dropped, BlockShape;
    var b := m.chunks[c].header;
    ChunkFlipped(m, c);
    LiveChunkFacts(m, c);
    CounterCounts(Flipped(m, c), b);
    BlockDropped(Flipped(m, c), b);
    DroppedIgnoresFlip(m, c);
  }

  lemma FreedWell(m: Memory, c: nat)
    requires Ok(m) && c in m.chunks && !m.chunks[c].isFree
    ensures var b := m.chunks[c].header;
      && b in m.blocks
      && if m.blocks[b].allocCounter > 1 then Ok(Flipped(m, c)) && Freed(m, Flipped(m, c), c)
         else Ok(Dropped(m, b)) && Freed(m, Dropped(m, b), c)
  {
    hide Ok, Dropped, BlockShape;
    LiveChunkFacts(m, c);
    if m.blocks[m.chunks[c].header].allocCounter > 1 {
      ChunkFlipped(m, c);
    } else {
      LastLiveChunk(m, c);
    }
  }

  lemma CounterCounts(m: Memory, b: nat)
    requires Ok(m) && b in m.blocks
    ensures b in m.layout && m.blocks[b].allocCounter == LiveCount(m.layout[b], m.chunks)
  {
    assert BlockOk(m, b);
  }

  lemma U64Below(x: nat)
    ensures U64(x) < TWO_64 && (x < TWO_64 ==> U64(x) == x) && (TWO_64 <= x < 2 * TWO_64 ==> U64(x) == x - TWO_64)
  {
  }

  /** A run of pages that lies in physical memory was asked for with a size that did not wrap. */
  lemma RunFits(allocSize: nat, offer: nat, runs: map<nat, nat>)
    requires allocSize < TWO_64 && Fresh(runs, offer, InPages(SplitSafe(allocSize)))
    ensures offer != 0 && 0 < allocSize && allocSize + PAGE_SIZE + 16 <= TWO_64
  {
    var s := SplitSafe(allocSize);
    assert 0 < InPages(s) && PAGE_SIZE * InPages(s) <= PHYSICAL_END;
    hide Fresh;
    PagesOfSize(s);
    SizeOfRequest(allocSize);
  }

  lemma PagesOfSize(s: nat)
    requires s < TWO_64 && 0 < InPages(s) && PAGE_SIZE * InPages(s) <= PHYSICAL_END
    ensures 0 < s <= PHYSICAL_END
  {
    U64Below(s + PAGE_SIZE - 1);
    hide U64;
  }

  lemma SizeOfRequest(n: nat)
    requires n < TWO_64
    ensures 0 <= SplitSafe(n) < TWO_64 && (0 < SplitSafe(n) <= PHYSICAL_END ==> 0 < n <= SplitSafe(n))
  {
    U64Below(n + 15);
    hide U64;
  }

  /** A block made for n + PAGE_SIZE bytes has room for n rounded up and a chunk header, unless that wrapped. */
  lemma NewBlockHasRoom(n: nat, offer: nat, m: Memory)
    requires n < TWO_64 && !Wraps(n) && Fresh(m.runs, offer, NewPages(n))
    ensures HasRoom(Block(offer + HEADER_SIZE, U64(SplitSafe(U64(n + PAGE_SIZE)) - HEADER_SIZE), 0, 0),
      SplitSafe(n + HEADER_SIZE))
  {
    U64Below(n + PAGE_SIZE);
    if n > TWO_64 - 64 { SizeWrapped(n); }
    hide SplitSafe, InPages, Fresh, U64, Capacity;
    SizeOfNewBlock(U64(n + PAGE_SIZE), offer, m);
    SplitSafeBounds(U64(n + PAGE_SIZE));
    if n < TWO_64 - PAGE_SIZE {
      SplitSafeBounds(n + HEADER_SIZE);
    }
  }

  lemma SizeWrapped(n: nat)
    requires TWO_64 - 64 < n < TWO_64
    ensures SplitSafe(n + HEADER_SIZE) <= HEADER_SIZE && U64(n + PAGE_SIZE) >= 4032
  {
  }

  /**
   The chunk carved for a request of n bytes holds n bytes exactly when n is at most
   2^64 - 64: above that the rounded size wraps around and the payload is too small.
  */
  lemma CarvedSizeServes(n: nat)
    requires n < TWO_64
    ensures n + HEADER_SIZE <= SplitSafe(U64(n + HEADER_SIZE)) <==> n <= TWO_64 - 64
  {
  }

  lemma SplitSafeBounds(x: nat)
    requires x + 16 <= TWO_64
    ensures x <= SplitSafe(x) < x + 16 && SplitSafe(x) % 16 == 0 && SplitSafe(x) < TWO_64
  {
    assert U64(x + 15) == x + 15;
    hide U64;
    assert x + 15 == (x + 15) / 16 * 16 + (x + 15) % 16;
  }

  lemma SplitSafeExact(x: nat)
    requires x % 16 == 0 && x + 16 <= TWO_64
    ensures SplitSafe(x) == x
  {
  }

  lemma MatchesCases(chunkSize: nat, size: nat)
    ensures MatchesWhole(chunkSize, size) == (chunkSize == size || chunkSize == U64(size + HEADER_SIZE))
    ensures Matches(chunkSize, size) ==
      (|| MatchesWhole(chunkSize, size)
       || (chunkSize > size && !(size <= HEADER_SIZE) && !(chunkSize - size <= HEADER_SIZE)))
  {
  }

  lemma SizeBelow(x: nat)
    ensures SplitSafe(x) < TWO_64 && SplitSafe(x) % 16 == 0
  {
  }

  // ---- What an allocation is ----

  /** Carving at least a header keeps the heap valid; carving less does not. */
  lemma CarvedOrBroken(m: Memory, b: nat, size: nat)
    requires Ok(m) && b in m.blocks && b in m.layout && HasRoom(m.blocks[b], size) && size % 16 == 0
    ensures Ok(CarvedOff(m, b, size)) <==> size >= HEADER_SIZE
    ensures size >= HEADER_SIZE ==> CarvedOff(m, b, size) == Carved(m, b, size - HEADER_SIZE)
    ensures size >= HEADER_SIZE ==> m.blocks[b].base + m.blocks[b].amountUsed !in m.chunks
  {
    hide Ok;
    if size >= HEADER_SIZE {
      ChunkCarved(m, b, size - HEADER_SIZE);
      BlockFacts(m, b);
      U64Below(size - HEADER_SIZE);
    } else {
      OverrunBreaks(m, b, size, CarvedOff(m, b, size).layout, m.runs);
    }
  }

  /** A chunk header in less than 48 bytes gets a size below zero: no heap has such a chunk. */
  lemma OverrunBreaks(m: Memory, b: nat, size: nat, layout: map<nat, seq<nat>>, runs: map<nat, nat>)
    requires Ok(m) && b in m.blocks && b in m.layout && size < HEADER_SIZE
    ensures var after := CarvedOff(m, b, size); !Ok(Memory(after.blocks, after.chunks, layout, runs))
  {
    hide Ok;
    var after := Memory(CarvedOff(m, b, size).blocks, CarvedOff(m, b, size).chunks, layout, runs);
    var c := m.blocks[b].base + m.blocks[b].amountUsed;
    assert U64(size - HEADER_SIZE) == TWO_64 + size - HEADER_SIZE;
    if Ok(after) {
      ChunkEndsBelow(after, c);
    }
  }

  lemma ChunkEndsBelow(m: Memory, c: nat)
    requires Ok(m) && c in m.chunks
    ensures ChunkEnd(m.chunks, c) <= PHYSICAL_END
  {
    ChunksAreSeparate(m, c);
    assert RunOk(m, m.chunks[c].header);
  }

  lemma FromFreeServes(m: Memory, free: seq<nat>, after: Memory, mem: nat, n: nat)
    requires Ok(m) && FromFree(m, free, after, mem, n) && Servable(n)
    ensures Served(m, after, mem, n)
  {
    ServableSize(n);
    hide *;
    var k := ChunkUsed(m, free, after, mem, n);
    ReusedServes(m, after, free[k], SplitSafe(n), n);
  }

  lemma ServableSize(n: nat)
    requires Servable(n)
    ensures var size := SplitSafe(n); n <= size && size % 16 == 0 && size + HEADER_SIZE < TWO_64
    ensures var size := SplitSafe(n + HEADER_SIZE); n + HEADER_SIZE <= size < TWO_64 && size % 16 == 0
  {
    SplitSafeBounds(n);
    SplitSafeBounds(n + HEADER_SIZE);
    hide SplitSafe;
  }

  lemma ChunkUsed(m: Memory, free: seq<nat>, after: Memory, mem: nat, n: nat) returns (k: nat)
    requires FromFree(m, free, after, mem, n)
    ensures k < |free| && Reused(m, after, free[k], SplitSafe(n)) && mem == free[k] + HEADER_SIZE
  {
    hide Reused, SplitSafe, Matches;
    k :| FirstFree(m, free, SplitSafe(n), k) && Reused(m, after, free[k], SplitSafe(n)) && mem == free[k] + HEADER_SIZE;
  }

  lemma ReusedServes(m: Memory, after: Memory, c: nat, size: nat, n: nat)
    requires Ok(m) && Reused(m, after, c, size) && n <= size && size % 16 == 0 && size + HEADER_SIZE < TWO_64
    ensures Served(m, after, c + HEADER_SIZE, n)
  {
    hide Ok;
    FreeChunkFacts(m, c);
    ChunkFlipped(m, c);
    U64Below(size + HEADER_SIZE);
    hide U64;
    if !MatchesWhole(m.chunks[c].size, size) {
      var i: nat :| Placed(m, c, i) && after == Split(Flipped(m, c), c, size, i);
      SplitSpotIsFree(Flipped(m, c), c, size);
      ChunkSplit(Flipped(m, c), c, size, i);
    }
  }

  lemma FromBlockServes(m: Memory, list: seq<nat>, after: Memory, mem: nat, n: nat)
    requires Ok(m) && FromBlock(m, list, after, mem, n) && Servable(n)
    ensures Served(m, after, mem, n)
  {
    ServableSize(n);
    hide *;
    var k: nat := BlockUsed(m, list, after, mem, n);
    CarvedServes(m, list[k], SplitSafe(n + HEADER_SIZE), n);
  }

  lemma BlockUsed(m: Memory, list: seq<nat>, after: Memory, mem: nat, n: nat) returns (k: nat)
    requires FromBlock(m, list, after, mem, n)
    ensures k < |list| && list[k] in m.blocks && list[k] in m.layout
      && HasRoom(m.blocks[list[k]], SplitSafe(n + HEADER_SIZE))
    ensures after == CarvedOff(m, list[k], SplitSafe(n + HEADER_SIZE))
    ensures mem == m.blocks[list[k]].base + m.blocks[list[k]].amountUsed + HEADER_SIZE
  {
    hide HasRoom, SplitSafe, CarvedOff;
    k :| FirstRoom(m, list, SplitSafe(n + HEADER_SIZE), k) && list[k] in m.layout
         && after == CarvedOff(m, list[k], SplitSafe(n + HEADER_SIZE))
         && mem == m.blocks[list[k]].base + m.blocks[list[k]].amountUsed + HEADER_SIZE;
  }

  lemma CarvedServes(m: Memory, b: nat, size: nat, n: nat)
    requires Ok(m) && b in m.blocks && b in m.layout && HasRoom(m.blocks[b], size)
    requires size % 16 == 0 && n + HEADER_SIZE <= size < TWO_64
    ensures Served(m, CarvedOff(m, b, size), m.blocks[b].base + m.blocks[b].amountUsed + HEADER_SIZE, n)
  {
    hide Ok, U64, CarvedOff;
    CarvedOrBroken(m, b, size);
    BlockFacts(m, b);
    ChunkCarved(m, b, size - HEADER_SIZE);
    hide HasRoom, Capacity;
    var c := m.blocks[b].base + m.blocks[b].amountUsed;
    assert Carved(m, b, size - HEADER_SIZE).chunks ==
      m.chunks[c := Chunk(b, c + HEADER_SIZE, size - HEADER_SIZE, false)];
  }

  lemma NotFree(m: Memory, free: seq<nat>, after: Memory, mem: nat, n: nat)
    requires NoneFree(m, SplitSafe(n))
    ensures !FromFree(m, free, after, mem, n)
  {
  }

  lemma NotRoom(m: Memory, list: seq<nat>, after: Memory, mem: nat, n: nat)
    requires NoRoom(m, SplitSafe(n + HEADER_SIZE))
    ensures !FromBlock(m, list, after, mem, n)
  {
  }

  lemma AllocatedAtOnce(m: Memory, free: seq<nat>, list: seq<nat>, after: Memory, mem: nat, n: nat, offer: nat)
    requires Ok(m) && mem != 0 && (FromFree(m, free, after, mem, n) || FromBlock(m, list, after, mem, n))
    ensures Allocated(m, free, list, after, mem, n, offer)
    ensures Servable(n) ==> Served(m, after, mem, n)
  {
    hide Ok, FromFree, FromBlock, NoneFree, NoRoom, SplitSafe, Served, Servable;
    if NoneFree(m, SplitSafe(n)) {
      NotFree(m, free, after, mem, n);
      if NoRoom(m, SplitSafe(n + HEADER_SIZE)) { NotRoom(m, list, after, mem, n); }
    }
    if Servable(n) {
      if FromFree(m, free, after, mem, n) {
        FromFreeServes(m, free, after, mem, n);
      } else {
        FromBlockServes(m, list, after, mem, n);
      }
    }
  }

  /** What the second attempt gives, after a first that found no place. */
  lemma AllocatedLater(m: Memory, free: seq<nat>, list: seq<nat>, grown: Memory, after: Memory, mem: nat, n: nat,
                       offer: nat)
    requires NoneFree(m, SplitSafe(n)) && NoRoom(m, SplitSafe(n + HEADER_SIZE))
    requires offer == 0 ==> mem == 0 && after == m
    requires offer != 0 ==>
      && grown == Grown(m, n, offer) && Ok(grown) && NoneFree(grown, SplitSafe(n))
      && (NoRoom(grown, SplitSafe(n + HEADER_SIZE)) <==> Wraps(n))
      && if mem == 0 then after == grown && NoRoom(grown, SplitSafe(n + HEADER_SIZE))
         else FromFree(grown, free, after, mem, n) || FromBlock(grown, list + [offer], after, mem, n)
    ensures Allocated(m, free, list, after, mem, n, offer)
    ensures mem != 0 && Servable(n) ==> Served(m, after, mem, n)
    ensures !FromFree(m, free, after, mem, n)
    ensures offer != 0 ==> !FromFree(grown, free, after, mem, n)
  {
    hide Ok, FromFree, FromBlock, NoneFree, NoRoom, SplitSafe, Served, Servable, Grown;
    NotFree(m, free, after, mem, n);
    if offer != 0 {
      NotFree(grown, free, after, mem, n);
      if Wraps(n) { NotRoom(grown, list + [offer], after, mem, n); }
      if mem != 0 && Servable(n) {
        FromBlockServes(grown, list + [offer], after, mem, n);
        GrownLive(m, n, offer, after, mem);
      }
    }
  }

  /** A new block serves every request whose block's size does not wrap, and those that do are served by nothing. */
  lemma GrownServes(m: Memory, n: nat, offer: nat)
    requires Ok(Grown(m, n, offer)) && NoneFree(m, SplitSafe(n)) && n < TWO_64 && Fresh(m.runs, offer, NewPages(n))
    ensures NoneFree(Grown(m, n, offer), SplitSafe(n))
    ensures NoRoom(Grown(m, n, offer), SplitSafe(n + HEADER_SIZE)) <==> Wraps(n)
  {
    hide Ok, Fresh;
    var grown := Grown(m, n, offer);
    assert NoneFree(grown, SplitSafe(n));
    if Wraps(n) {
      SplitSafeBounds(n + HEADER_SIZE);
      hide SplitSafe, U64;
      forall b | b in grown.blocks ensures !HasRoom(grown.blocks[b], SplitSafe(n + HEADER_SIZE)) {
        BlockFacts(grown, b);
      }
    } else {
      NewBlockHasRoom(n, offer, m);
      assert offer in grown.blocks;
    }
  }

  lemma NewBlockIs(m: Memory, n: nat, offer: nat)
    ensures NewPages(n) == InPages(SplitSafe(U64(n + PAGE_SIZE)))
    ensures Grown(m, n, offer) == BlockAdd(m, offer, U64(SplitSafe(U64(n + PAGE_SIZE)) - HEADER_SIZE), NewPages(n))
    ensures TWO_64 > 0 && PAGE_SIZE == 0x1000
  {
  }

  lemma GrownLive(m: Memory, n: nat, offer: nat, after: Memory, mem: nat)
    requires Served(Grown(m, n, offer), after, mem, n)
    ensures Served(m, after, mem, n)
  {
    assert Live(Grown(m, n, offer)) == Live(m);
  }

  lemma AllFull(m: Memory, list: seq<nat>, size: nat)
    requires forall b :: b in list <==> b in m.blocks
    requires forall j | 0 <= j < |list| :: !HasRoom(m.blocks[list[j]], size)
    ensures NoRoom(m, size)
  {
  }

  lemma PlaceOf(m: Memory, c: nat) returns (i: nat)
    requires Ok(m) && c in m.chunks
    ensures m.chunks[c].header in m.layout && m.chunks[c].header in m.blocks
    ensures i < |m.layout[m.chunks[c].header]| && m.layout[m.chunks[c].header][i] == c
    ensures ChunkOk(m.chunks[c].header, c, m.chunks[c]) && m.chunks[c].size + 16 <= TWO_64
  {
    assert ChunkPlaced(m, c);
    ChunksAreSeparate(m, c);
    ChunkInBlock(m, c);
    assert RunOk(m, m.chunks[c].header);
    i :| 0 <= i < |m.layout[m.chunks[c].header]| && m.layout[m.chunks[c].header][i] == c;
  }

  lemma FreeChunkFacts(m: Memory, c: nat)
    requires Ok(m) && c in m.chunks
    ensures ChunkOk(m.chunks[c].header, c, m.chunks[c])
  {
    ChunkInBlock(m, c);
  }

  lemma BlockFacts(m: Memory, b: nat)
    requires Ok(m) && b in m.blocks
    ensures b in m.layout && b in m.runs && m.blocks[b].amountUsed <= Capacity(m.blocks[b].size)
    ensures (m.blocks[b].base + m.blocks[b].amountUsed) % 16 == 0
    ensures m.blocks[b].size < TWO_64
  {
    assert BlockOk(m, b);
    TileStartAligned(m, b);
  }

  /** The signed test of alloc.c:196-198: a block whose size wrapped below zero has nothing left. */
  lemma SignedRemaining(h: Block, size: nat)
    requires h.size < TWO_64 && h.amountUsed <= Capacity(h.size)
    ensures var remaining := I64(U64(h.size - h.amountUsed));
      ((if remaining <= 0 then 0 else remaining) >= size) == HasRoom(h, size)
  {
  }

  lemma SizeOfNewBlock(allocSize: nat, offer: nat, m: Memory)
    requires allocSize < TWO_64 && Fresh(m.runs, offer, InPages(SplitSafe(allocSize)))
    ensures offer != 0 && 0 < allocSize && allocSize + PAGE_SIZE + 16 <= TWO_64
    ensures var size := U64(SplitSafe(allocSize) - HEADER_SIZE);
      && size < TWO_64 && size % 16 == 0
      && InPages(SplitSafe(allocSize)) == InPages(U64(size + HEADER_SIZE))
      && HEADER_SIZE + Capacity(size) <= PAGE_SIZE * InPages(SplitSafe(allocSize))
      && Capacity(size) == if SplitSafe(allocSize) < HEADER_SIZE then 0 else SplitSafe(allocSize) - HEADER_SIZE
  {
    RunFits(allocSize, offer, m.runs);
    SplitSafeBounds(allocSize);
    hide SplitSafe, Fresh;
    SizeWithoutHeader(SplitSafe(allocSize));
    PagesCover(SplitSafe(allocSize));
    hide InPages, U64, Capacity;
  }

  /** A rounded size less than its header wraps, and adding the header again undoes it. */
  lemma SizeWithoutHeader(s: nat)
    requires s % 16 == 0 && s < TWO_64
    ensures var size := U64(s - HEADER_SIZE);
      && size < TWO_64 && size % 16 == 0 && U64(size + HEADER_SIZE) == s
      && size == if s < HEADER_SIZE then s + TWO_64 - HEADER_SIZE else s - HEADER_SIZE
  {
  }

  lemma PagesCover(s: nat)
    requires s + PAGE_SIZE <= TWO_64
    ensures s <= PAGE_SIZE * InPages(s) < s + PAGE_SIZE
  {
  }
}
