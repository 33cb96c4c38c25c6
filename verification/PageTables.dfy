/**
 The kernel's page tables in place: map, unmap and check walk the tree and change one entry of it,
 and the boot loops map the kernel and the memory map.
*/
module PageTables {
  import opened Arithmetic
  import opened PageWalk
  import opened Machine

  datatype Status = Success | OutOfMemory | NotMapped | InvalidPmlEntry

  datatype MemoryEntry = MemoryEntry(base: nat, size: nat)

  /** Pages the physical allocator hands out: aligned, never twice, never one that is in use; 0 is a refusal. */
  ghost predicate FreshPages(supply: seq<nat>, used: set<nat>) {
    && (forall i | 0 <= i < |supply| :: supply[i] != 0 ==> supply[i] % PAGE_SIZE == 0 && supply[i] !in used)
    && (forall i, j | 0 <= i < j < |supply| :: supply[i] != 0 ==> supply[i] != supply[j])
  }

  lemma PageTaken(supply: seq<nat>, used: set<nat>)
    requires FreshPages(supply, used) && supply != []
    ensures FreshPages(supply[1..], used)
    ensures supply[0] != 0 ==>
      supply[0] !in used && supply[0] % PAGE_SIZE == 0 && FreshPages(supply[1..], used + {supply[0]})
  {
  }

  /** The next n answers of the allocator are pages. */
  predicate Enough(supply: seq<nat>, n: nat) {
    n <= |supply| && forall i | 0 <= i < n :: supply[i] != 0
  }

  /** At most n answers have been used up. */
  predicate Drawn(was: seq<nat>, now: seq<nat>, n: nat) {
    |was| - n <= |now| <= |was| && now == was[|was| - |now|..]
  }

  lemma DrawnOnce(was: seq<nat>, now: seq<nat>)
    requires now == was || (was != [] && now == was[1..])
    ensures Drawn(was, now, 1)
  {
  }

  lemma DrawnNone(a: seq<nat>)
    ensures Drawn(a, a, 0)
  {
  }

  /** With n answers used up of enough for `all`, three more are there. */
  lemma EnoughFor(was: seq<nat>, now: seq<nat>, n: nat, all: nat)
    requires Drawn(was, now, n) && n + 3 <= all
    ensures Enough(was, all) ==> Enough(now, 3)
  {
  }

  lemma EnoughForOne(supply: seq<nat>)
    ensures Enough(supply, 1) <==> supply != [] && supply[0] != 0
  {
  }

  /** What is left after n and k answers. */
  lemma DrawnBoth(a: seq<nat>, b: seq<nat>, c: seq<nat>, n: nat, k: nat)
    requires Drawn(a, b, n) && Drawn(b, c, k)
    ensures Drawn(a, c, n + k)
  {
  }

  lemma EnoughLeft(a: seq<nat>, b: seq<nat>, n: nat, k: nat)
    requires Drawn(a, b, n)
    ensures Enough(a, n + k) ==> Enough(b, k)
  {
  }

  lemma EnoughAlways(a: seq<nat>, n: nat, k: nat)
    requires k <= n
    ensures Enough(a, n) ==> Enough(a, k)
  {
  }

  /** What a present entry says about the next level down. */
  lemma NextLevel(tables: Tables, homes: Homes, root: nat, p: Path, i: nat)
    requires TreeOk(tables, homes, root) && p in homes && |p| < 3 && i < ENTRIES
    ensures HomeOk(tables, homes, p)
    ensures tables[homes[p]][i] != 0 <==> p + [i] in homes
    ensures p + [i] in homes ==> homes[p + [i]] == Parse(tables[homes[p]][i]) && HomeOk(tables, homes, p + [i])
  {
    assert HomeOk(tables, homes, p);
    assert EntryOk(tables, homes, p, i);
    if p + [i] in homes {
      assert HomeOk(tables, homes, p + [i]);
      PointsParsed(tables[homes[p]][i], homes[p + [i]]);
    }
  }

  /** A walk that stops early at a missing entry sees no translation. */
  lemma MissingLevel(tables: Tables, homes: Homes, root: nat, v: nat, k: nat)
    requires TreeOk(tables, homes, root) && k <= 3 && Indices(v)[..k] !in homes
    ensures Indices(v)[..3] !in homes && Translate(tables, root, v) == 0
  {
    assert Indices(v)[..3][..k] == Indices(v)[..k];
    NoHomeBelow(tables, homes, root, Indices(v)[..3], k);
    TranslateIsLeaf(tables, homes, root, v);
  }

  lemma EmptyTree(root: nat)
    requires root != 0 && root % PAGE_SIZE == 0
    ensures TreeOk(map[root := Zeroes()], map[[] := root], root)
    ensures forall w: nat :: Translate(map[root := Zeroes()], root, w) == 0
  {
    forall w: nat ensures Translate(map[root := Zeroes()], root, w) == 0 {
      EmptyWalk(root, w);
    }
  }

  lemma EmptyWalk(root: nat, w: nat)
    ensures Translate(map[root := Zeroes()], root, w) == 0
  {
    assert Turns(PageOf(w))[0] < ENTRIES && Zeroes()[Turns(PageOf(w))[0]] == 0;
  }

  // ---- What a loop over consecutive pages maps ----

  /** What an address translates to after the page of `virt` has been mapped to `phys`. */
  ghost function PageWritten(virt: nat, phys: nat, w: nat, was: nat): nat {
    if PageOf(w) == PageOf(virt) then Flagged(phys) else was
  }

  /** What an address translates to after n pages from `phys` on were mapped one by one from `virt` on. */
  ghost function RangeLeaf(phys: nat, virt: nat, n: nat, w: nat, was: nat): nat {
    if n == 0 then was
    else PageWritten(virt + (n - 1) * PAGE_SIZE, phys + (n - 1) * PAGE_SIZE, w, RangeLeaf(phys, virt, n - 1, w, was))
  }

  /** Pages that are i and k pages behind an address are the same one only for i == k, below 2^36 pages. */
  lemma RangePages(virt: nat, i: nat, k: nat)
    requires i < 0x10_0000_0000 && k < 0x10_0000_0000
    ensures PageOf(virt + i * PAGE_SIZE) == PageOf(virt + k * PAGE_SIZE) <==> i == k
  {
    assert (virt + i * 0x1000) / 0x1000 == virt / 0x1000 + i && (virt + k * 0x1000) / 0x1000 == virt / 0x1000 + k;
    SameRemainder(virt / 0x1000, i, k);
  }

  lemma SameRemainder(x: nat, i: nat, k: nat)
    requires i < 0x10_0000_0000 && k < 0x10_0000_0000
    ensures (x + i) % 0x10_0000_0000 == (x + k) % 0x10_0000_0000 <==> i == k
  {
  }

  lemma {:induction false} RangeAt(phys: nat, virt: nat, n: nat, i: nat, w: nat, was: nat)
    requires i < n <= 0x10_0000_0000 && PageOf(w) == PageOf(virt + i * PAGE_SIZE)
    ensures RangeLeaf(phys, virt, n, w, was) == Flagged(phys + i * PAGE_SIZE)
    ensures LeadsTo(RangeLeaf(phys, virt, n, w, was), phys + i * PAGE_SIZE)
  {
    FlaggedLeads(phys + i * PAGE_SIZE);
    hide PageOf, Flagged, LeadsTo;
    RangePages(virt, i, n - 1);
    if i < n - 1 { RangeAt(phys, virt, n - 1, i, w, was); }
  }

  lemma {:induction false} RangeOutside(phys: nat, virt: nat, n: nat, w: nat, was: nat)
    requires forall i: nat | i < n :: PageOf(w) != PageOf(virt + i * PAGE_SIZE)
    ensures RangeLeaf(phys, virt, n, w, was) == was
  {
    hide PageOf, Flagged;
    if n > 0 { RangeOutside(phys, virt, n - 1, w, was); }
  }

  /** The kernel is linked in the upper half of the address space and does not run past its end. */
  predicate UpperHalf(virt: nat, pages: nat) {
    0xFFFF_8000_0000_0000 <= virt && virt + pages * PAGE_SIZE <= TWO_64
  }

  /** An entry of the memory map that ends in the lower half. */
  predicate LowerHalf(e: MemoryEntry) {
    e.base + e.size <= 0x8000_0000_0000
  }

  /** How often the loop over an entry runs. */
  function PagesOf(size: nat): nat {
    (size + PAGE_SIZE - 1) / PAGE_SIZE
  }

  /** The loop reaches the page of the entry's last byte: its rounded size has room for the offset of its base. */
  predicate Covered(e: MemoryEntry) {
    e.size == 0 || e.base % PAGE_SIZE + e.size <= PagesOf(e.size) * PAGE_SIZE
  }

  /** And its addresses have no bits where a leaf has flags, but the two that are set anyway. */
  predicate Coverable(e: MemoryEntry) {
    Covered(e) && (e.size == 0 || e.base % PAGE_SIZE < 4)
  }

  lemma AlignedIsCoverable(e: MemoryEntry)
    requires e.base % PAGE_SIZE == 0
    ensures Coverable(e)
  {
  }

  /** The processor takes an address to itself: the page in the leaf and the offset make it up again. */
  predicate OwnFrame(leaf: nat, w: nat) {
    Present(leaf) && Writable(leaf) && Frame(leaf) + w % PAGE_SIZE == w
  }

  /** And no flag is set but present and writable. */
  predicate OwnPage(leaf: nat, w: nat) {
    OwnFrame(leaf, w) && leaf % PAGE_SIZE < 4
  }

  lemma LowPage(w: nat)
    requires w < 0x8000_0000_0000
    ensures PageOf(w) == w / PAGE_SIZE < 0x8_0000_0000
  {
  }

  /** The page of a byte of an entry is the one that many pages behind the entry's first. */
  lemma EntryPage(e: MemoryEntry, w: nat) returns (i: nat)
    requires LowerHalf(e) && e.base <= w < e.base + e.size
    ensures PageOf(w) == PageOf(e.base + i * PAGE_SIZE)
      && e.base + i * PAGE_SIZE == e.base % PAGE_SIZE + w / PAGE_SIZE * PAGE_SIZE
    ensures i < 0x10_0000_0000
    ensures i < PagesOf(e.size)
       <==> w / PAGE_SIZE * PAGE_SIZE < e.base / PAGE_SIZE * PAGE_SIZE + PagesOf(e.size) * PAGE_SIZE
  {
    i := w / PAGE_SIZE - e.base / PAGE_SIZE;
  }

  /** A leaf for an address on w's page takes w to itself; its other flags are the bits of that address. */
  lemma OwnLeaf(leaf: nat, w: nat, r: nat)
    requires LeadsTo(leaf, w / PAGE_SIZE * PAGE_SIZE + r) && r < PAGE_SIZE
    ensures OwnFrame(leaf, w) && (OwnPage(leaf, w) <==> r < 4)
  {
    var q, off := DivisionOf(w, PAGE_SIZE);
    var x := q * PAGE_SIZE + r;
    FrameOfFour(x);
    FrameOfFour(leaf);
    DivisionIs(x, PAGE_SIZE, q, r);
  }

  lemma PageStart(w: nat)
    ensures w / PAGE_SIZE * PAGE_SIZE % PAGE_SIZE == 0 && w == w / PAGE_SIZE * PAGE_SIZE + w % PAGE_SIZE
  {
  }

  /** A byte of a covered entry is mapped to itself, whatever it was mapped to before. */
  lemma CoveredByte(e: MemoryEntry, w: nat, was: nat)
    requires LowerHalf(e) && Covered(e) && e.base <= w < e.base + e.size
    ensures OwnFrame(RangeLeaf(e.base, e.base, PagesOf(e.size), w, was), w)
    ensures Coverable(e) ==> OwnPage(RangeLeaf(e.base, e.base, PagesOf(e.size), w, was), w)
  {
    var i := EntryPage(e, w);
    LastPage(e, w);
    PageStart(w);
    EntryPages(e);
    hide PageOf, PagesOf, RangeLeaf, LeadsTo, OwnFrame, OwnPage;
    RangeAt(e.base, e.base, PagesOf(e.size), i, w, was);
    OwnLeaf(RangeLeaf(e.base, e.base, PagesOf(e.size), w, was), w, e.base % PAGE_SIZE);
  }

  lemma EntryPages(e: MemoryEntry)
    requires LowerHalf(e)
    ensures PagesOf(e.size) <= 0x8_0000_0000
  {
  }

  lemma LastPage(e: MemoryEntry, w: nat)
    requires LowerHalf(e) && e.base <= w < e.base + e.size
    requires e.base % PAGE_SIZE + e.size <= PagesOf(e.size) * PAGE_SIZE
    ensures w / PAGE_SIZE * PAGE_SIZE < e.base / PAGE_SIZE * PAGE_SIZE + PagesOf(e.size) * PAGE_SIZE
  {
    PageStart(w);
    PageStart(e.base);
  }

  /** From empty tables, every byte of an entry is mapped to itself exactly if the loop reaches its last page. */
  lemma EntryExactly(e: MemoryEntry)
    requires LowerHalf(e)
    ensures Covered(e) <==>
      forall w: nat | e.base <= w < e.base + e.size :: OwnFrame(RangeLeaf(e.base, e.base, PagesOf(e.size), w, 0), w)
  {
    if Covered(e) {
      forall w: nat | e.base <= w < e.base + e.size
        ensures OwnFrame(RangeLeaf(e.base, e.base, PagesOf(e.size), w, 0), w)
      {
        CoveredByte(e, w, 0);
      }
    } else {
      var w := LastByteMissed(e);
    }
  }

  /** And with no flag but present and writable, exactly if its base is less than four bytes off a page besides. */
  lemma EntryExactFlags(e: MemoryEntry)
    requires LowerHalf(e)
    ensures Coverable(e) <==>
      forall w: nat | e.base <= w < e.base + e.size :: OwnPage(RangeLeaf(e.base, e.base, PagesOf(e.size), w, 0), w)
  {
    if Coverable(e) {
      forall w: nat | e.base <= w < e.base + e.size
        ensures OwnPage(RangeLeaf(e.base, e.base, PagesOf(e.size), w, 0), w)
      {
        CoveredByte(e, w, 0);
      }
    } else if Covered(e) {
      FirstByteFlagged(e);
    } else {
      var w := LastByteMissed(e);
    }
  }

  lemma FirstByteFlagged(e: MemoryEntry)
    requires LowerHalf(e) && e.size > 0 && e.base % PAGE_SIZE >= 4
    ensures !OwnPage(RangeLeaf(e.base, e.base, PagesOf(e.size), e.base, 0), e.base)
  {
    var w := e.base;
    EntryPages(e);
    PageStart(w);
    assert 0 < PagesOf(e.size);
    hide PageOf, PagesOf, RangeLeaf, LeadsTo, OwnFrame, OwnPage;
    RangeAt(e.base, e.base, PagesOf(e.size), 0, w, 0);
    OwnLeaf(RangeLeaf(e.base, e.base, PagesOf(e.size), w, 0), w, w % PAGE_SIZE);
  }

  lemma LastByteMissed(e: MemoryEntry) returns (w: nat)
    requires LowerHalf(e) && !Covered(e)
    ensures e.base <= w < e.base + e.size
    ensures RangeLeaf(e.base, e.base, PagesOf(e.size), w, 0) == 0
  {
    EntryPages(e);
    w := e.base + e.size - 1;
    var k := EntryPage(e, w);
    BehindLast(e, w);
    hide PageOf, Flagged, PagesOf, RangeLeaf;
    forall i: nat | i < PagesOf(e.size) ensures PageOf(w) != PageOf(e.base + i * PAGE_SIZE) {
      RangePages(e.base, i, k);
    }
    RangeOutside(e.base, e.base, PagesOf(e.size), w, 0);
  }

  lemma BehindLast(e: MemoryEntry, w: nat)
    requires LowerHalf(e) && e.size > 0 && w == e.base + e.size - 1
    requires e.base % PAGE_SIZE + e.size > PagesOf(e.size) * PAGE_SIZE
    ensures w / PAGE_SIZE * PAGE_SIZE >= e.base / PAGE_SIZE * PAGE_SIZE + PagesOf(e.size) * PAGE_SIZE
  {
    PageStart(w);
    PageStart(e.base);
  }

  /** The loop over an entry maps lower-half pages only, and what it maps it maps to itself. */
  lemma {:induction false} RangeIsLow(e: MemoryEntry, n: nat, w: nat, was: nat)
    requires LowerHalf(e) && n <= PagesOf(e.size)
    ensures PageOf(w) >= 0x8_0000_0000 ==> RangeLeaf(e.base, e.base, n, w, was) == was
    ensures w < 0x8000_0000_0000 ==>
      var leaf := RangeLeaf(e.base, e.base, n, w, was);
      leaf == was || (OwnFrame(leaf, w) && (Coverable(e) ==> OwnPage(leaf, w)))
  {
    if n > 0 {
      RangeIsLow(e, n - 1, w, was);
      var at := e.base + (n - 1) * PAGE_SIZE;
      PageBefore(e, n);
      LowPage(at);
      PageStart(at);
      assert at % PAGE_SIZE == e.base % PAGE_SIZE;
      FlaggedLeads(at);
      if w < 0x8000_0000_0000 { LowPage(w); }
      hide PageOf, Flagged, PagesOf, LeadsTo, OwnFrame, OwnPage;
      if w / PAGE_SIZE == at / PAGE_SIZE { OwnLeaf(Flagged(at), w, at % PAGE_SIZE); }
    }
  }

  lemma PageBefore(e: MemoryEntry, n: nat)
    requires LowerHalf(e) && 0 < n <= PagesOf(e.size)
    ensures e.base + (n - 1) * PAGE_SIZE < 0x8000_0000_0000 && e.size > 0
  {
  }

  /** What an address translates to after the loops over the first n entries. */
  ghost function EntriesLeaf(m: seq<MemoryEntry>, n: nat, w: nat, was: nat): nat
    requires n <= |m|
  {
    if n == 0 then was
    else RangeLeaf(m[n - 1].base, m[n - 1].base, PagesOf(m[n - 1].size), w, EntriesLeaf(m, n - 1, w, was))
  }

  /** How often those loops run. */
  function AllPages(m: seq<MemoryEntry>, n: nat): nat
    requires n <= |m|
  {
    if n == 0 then 0 else AllPages(m, n - 1) + PagesOf(m[n - 1].size)
  }

  /** Lower-half entries leave the kernel alone. */
  lemma {:induction false} KernelStays(m: seq<MemoryEntry>, n: nat, w: nat, was: nat)
    requires n <= |m| && (forall i | 0 <= i < n :: LowerHalf(m[i])) && PageOf(w) >= 0x8_0000_0000
    ensures EntriesLeaf(m, n, w, was) == was
  {
    hide PageOf, LowerHalf, RangeLeaf, PagesOf;
    if n > 0 {
      KernelStays(m, n - 1, w, was);
      RangeIsLow(m[n - 1], PagesOf(m[n - 1].size), w, was);
    }
  }

  /** Overlapping entries do not harm each other: what one has mapped to itself stays so. */
  lemma {:induction false} EntryStays(m: seq<MemoryEntry>, n: nat, k: nat, w: nat, was: nat)
    requires k < n <= |m| && (forall i | 0 <= i < n :: LowerHalf(m[i]))
    requires Covered(m[k]) && m[k].base <= w < m[k].base + m[k].size
    ensures OwnFrame(EntriesLeaf(m, n, w, was), w)
    ensures (forall i | 0 <= i < n :: Coverable(m[i])) ==> OwnPage(EntriesLeaf(m, n, w, was), w)
  {
    assert w < 0x8000_0000_0000 by { assert LowerHalf(m[k]); }
    LowPage(w);
    hide PageOf, LowerHalf, Covered, Coverable, RangeLeaf, PagesOf, OwnFrame, OwnPage;
    var before := EntriesLeaf(m, n - 1, w, was);
    if k == n - 1 {
      CoveredByte(m[k], w, before);
    } else {
      EntryStays(m, n - 1, k, w, was);
      RangeIsLow(m[n - 1], PagesOf(m[n - 1].size), w, before);
    }
  }

  /** Kernel pages are pairwise different, and none is in the lower half. */
  lemma KernelPage(virt: nat, pages: nat, i: nat)
    requires UpperHalf(virt, pages) && i < pages
    ensures PageOf(virt + i * PAGE_SIZE) >= 0x8_0000_0000 && pages <= 0x10_0000_0000
  {
    var first := virt / 0x1000;
    assert (virt + i * 0x1000) / 0x1000 == first + i;
    assert (first + i) % 0x10_0000_0000 == first + i - 0xF_FFF0_0000_0000 by {
      assert 0xF_FFF0_0000_0000 % 0x10_0000_0000 == 0;
    }
  }

  ghost predicate KernelMapped(tables: Tables, root: nat, phys: nat, virt: nat, pages: nat) {
    forall i | 0 <= i < pages :: LeadsTo(Translate(tables, root, virt + i * PAGE_SIZE), phys + i * PAGE_SIZE)
  }

  /** Every byte of [base, base + size) is translated to itself, whatever other flags its page has. */
  ghost predicate IdentityMapped(tables: Tables, root: nat, base: nat, size: nat) {
    forall w: nat | base <= w < base + size :: OwnFrame(Translate(tables, root, w), w)
  }

  /** And its page is present and writable, with no other flag. */
  ghost predicate PlainlyMapped(tables: Tables, root: nat, base: nat, size: nat) {
    forall w: nat | base <= w < base + size :: OwnPage(Translate(tables, root, w), w)
  }

  /** The loop over consecutive pages has mapped n of them. */
  ghost predicate RangeMapped(was: Tables, now: Tables, root: nat, phys: nat, virt: nat, n: nat) {
    forall w: nat :: Translate(now, root, w) == RangeLeaf(phys, virt, n, w, Translate(was, root, w))
  }

  lemma RangeNone(was: Tables, root: nat, phys: nat, virt: nat)
    ensures RangeMapped(was, was, root, phys, virt, 0)
  {
  }

  ghost predicate PageMapped(was: Tables, now: Tables, root: nat, phys: nat, virt: nat) {
    forall w: nat :: Translate(now, root, w) == PageWritten(virt, phys, w, Translate(was, root, w))
  }

  /** A failed call leaves tables behind and no translation. */
  lemma RangeSame(was: Tables, now: Tables, after: Tables, root: nat, phys: nat, virt: nat, n: nat)
    requires RangeMapped(was, now, root, phys, virt, n)
    requires SameMapping(now, after, root)
    ensures RangeMapped(was, after, root, phys, virt, n)
  {
    hide Translate, RangeLeaf;
    forall w: nat ensures Translate(after, root, w) == RangeLeaf(phys, virt, n, w, Translate(was, root, w)) {
      assert Translate(now, root, w) == RangeLeaf(phys, virt, n, w, Translate(was, root, w));
    }
  }

  lemma RangeNext(was: Tables, now: Tables, after: Tables, root: nat, phys: nat, virt: nat, n: nat, from: nat, to: nat)
    requires RangeMapped(was, now, root, phys, virt, n)
    requires from == virt + n * PAGE_SIZE && to == phys + n * PAGE_SIZE
    requires PageMapped(now, after, root, to, from)
    ensures RangeMapped(was, after, root, phys, virt, n + 1)
  {
    hide PageWritten, Translate;
    forall w: nat ensures Translate(after, root, w) == RangeLeaf(phys, virt, n + 1, w, Translate(was, root, w)) {
      assert Translate(now, root, w) == RangeLeaf(phys, virt, n, w, Translate(was, root, w));
    }
  }

  ghost predicate EntriesMapped(was: Tables, now: Tables, root: nat, m: seq<MemoryEntry>, n: nat)
    requires n <= |m|
  {
    forall w: nat :: Translate(now, root, w) == EntriesLeaf(m, n, w, Translate(was, root, w))
  }

  lemma EntriesNone(was: Tables, root: nat, m: seq<MemoryEntry>)
    ensures EntriesMapped(was, was, root, m, 0)
  {
  }

  lemma EntriesNext(was: Tables, now: Tables, after: Tables, root: nat, m: seq<MemoryEntry>, n: nat)
    requires n < |m| && EntriesMapped(was, now, root, m, n)
    requires RangeMapped(now, after, root, m[n].base, m[n].base, PagesOf(m[n].size))
    ensures EntriesMapped(was, after, root, m, n + 1)
  {
    hide Translate, RangeLeaf;
    forall w: nat ensures Translate(after, root, w) == EntriesLeaf(m, n + 1, w, Translate(was, root, w)) {
      assert Translate(now, root, w) == EntriesLeaf(m, n, w, Translate(was, root, w));
    }
  }

  /** After both loops the kernel and every covered entry are reachable, where they keep to their halves. */
  lemma BootMapped(empty: Tables, kernel: Tables, now: Tables, root: nat, phys: nat, virt: nat, pages: nat,
                   m: seq<MemoryEntry>)
    requires RangeMapped(empty, kernel, root, phys, virt, pages) && EntriesMapped(kernel, now, root, m, |m|)
    requires UpperHalf(virt, pages) && forall i | 0 <= i < |m| :: LowerHalf(m[i])
    ensures KernelMapped(now, root, phys, virt, pages)
    ensures forall i | 0 <= i < |m| && Covered(m[i]) :: IdentityMapped(now, root, m[i].base, m[i].size)
    ensures AllPlain(now, root, m)
  {
    hide Translate, PageOf, Flagged, UpperHalf, LowerHalf, Covered, Coverable, RangeLeaf, OwnFrame, OwnPage;
    forall i | 0 <= i < pages
      ensures LeadsTo(Translate(now, root, virt + i * PAGE_SIZE), phys + i * PAGE_SIZE)
    {
      var w := virt + i * PAGE_SIZE;
      KernelPage(virt, pages, i);
      RangeAt(phys, virt, pages, i, w, Translate(empty, root, w));
      KernelStays(m, |m|, w, Translate(kernel, root, w));
    }
    forall k, w: nat | 0 <= k < |m| && Covered(m[k]) && m[k].base <= w < m[k].base + m[k].size
      ensures OwnFrame(Translate(now, root, w), w)
      ensures (forall i | 0 <= i < |m| :: Coverable(m[i])) ==> OwnPage(Translate(now, root, w), w)
    {
      EntryStays(m, |m|, k, w, Translate(kernel, root, w));
    }
    if forall i | 0 <= i < |m| :: Coverable(m[i]) {
      forall i | 0 <= i < |m| ensures Covered(m[i]) { CoverableIsCovered(m[i]); }
    }
  }

  lemma CoverableIsCovered(e: MemoryEntry)
    ensures Coverable(e) ==> Covered(e)
  {
  }

  /** Where no entry brings bits that a leaf takes for flags, no page has other flags. */
  ghost predicate AllPlain(tables: Tables, root: nat, m: seq<MemoryEntry>) {
    (forall i | 0 <= i < |m| :: Coverable(m[i])) ==>
      forall i | 0 <= i < |m| :: PlainlyMapped(tables, root, m[i].base, m[i].size)
  }

  lemma OnePageMore(size: nat, done: nat)
    requires done * PAGE_SIZE < size
    ensures done + 1 <= PagesOf(size) && (done + 1) * PAGE_SIZE == done * PAGE_SIZE + PAGE_SIZE
  {
  }

  lemma PagesDone(size: nat, done: nat)
    requires done * PAGE_SIZE >= size && done <= PagesOf(size)
    ensures done == PagesOf(size)
  {
  }

  lemma NoPages(m: seq<MemoryEntry>)
    ensures AllPages(m, 0) == 0
  {
  }

  lemma {:induction false} PagesGrow(m: seq<MemoryEntry>, n: nat, k: nat)
    requires n <= k <= |m|
    ensures AllPages(m, n) <= AllPages(m, k)
  {
    if n < k { PagesGrow(m, n, k - 1); }
  }

  lemma PagesOfNext(m: seq<MemoryEntry>, i: nat)
    requires i < |m|
    ensures AllPages(m, i + 1) == AllPages(m, i) + PagesOf(m[i].size) <= AllPages(m, |m|)
  {
    PagesGrow(m, i + 1, |m|);
  }

  /** One loop's result on top of the other's. */
  lemma Composed(empty: Tables, kernel: Tables, now: Tables, root: nat, phys: nat, virt: nat, pages: nat,
                 m: seq<MemoryEntry>)
    requires RangeMapped(empty, kernel, root, phys, virt, pages) && EntriesMapped(kernel, now, root, m, |m|)
    requires forall w: nat :: Translate(empty, root, w) == 0
    ensures forall w: nat :: Translate(now, root, w) == EntriesLeaf(m, |m|, w, RangeLeaf(phys, virt, pages, w, 0))
  {
    hide Translate, EntriesLeaf, RangeLeaf;
    forall w: nat ensures Translate(now, root, w) == EntriesLeaf(m, |m|, w, RangeLeaf(phys, virt, pages, w, 0)) {
      assert Translate(empty, root, w) == 0;
      assert Translate(kernel, root, w) == RangeLeaf(phys, virt, pages, w, Translate(empty, root, w));
    }
  }

  /** The first three turns of a walk, one after the other. */
  lemma TurnByTurn(v: nat)
    ensures var path := Indices(v);
      && |path| == 4 && path[3] == PtEntry(v)
      && path[..1] == [] + [Pml4Entry(v)] && path[..2] == path[..1] + [PdptEntry(v)]
      && path[..3] == path[..2] + [PdEntry(v)]
    ensures Pml4Entry(v) < ENTRIES && PdptEntry(v) < ENTRIES && PdEntry(v) < ENTRIES && PtEntry(v) < ENTRIES
  {
  }

  lemma SameAt(was: Tables, now: Tables, root: nat, v: nat)
    requires SameMapping(was, now, root)
    ensures Translate(now, root, v) == Translate(was, root, v)
  {
  }

  lemma TableEntered(tables: Tables, t: nat, i: nat, page: nat)
    requires t in tables && i < |tables[t]| && page !in tables
    ensures var more := tables[page := Zeroes()];
      && t in more && i < |more[t]| && Stored(more, t, i, Flagged(page)) == Extended(tables, t, i, page)
      && Extended(tables, t, i, page).Keys == tables.Keys + {page}
  {
  }

  /** Hanging an empty table the way GetNextLevel does keeps the tree and every translation. */
  lemma Entered(tables: Tables, homes: Homes, root: nat, p: Path, t: nat, i: nat, page: nat)
    requires TreeOk(tables, homes, root) && p in homes && homes[p] == t && |p| < 3 && i < ENTRIES && p + [i] !in homes
    requires page !in tables && page != 0 && page % PAGE_SIZE == 0
    ensures var more := tables[page := Zeroes()];
      && t in more && i < |more[t]|
      && var after := Stored(more, t, i, Flagged(page));
         && after.Keys == tables.Keys + {page} && TreeOk(after, homes[p + [i] := page], root)
         && SameMapping(tables, after, root)
  {
    hide TreeOk, Flagged, Zeroes, Stored, Extended, SameMapping, PointsTo;
    NextLevel(tables, homes, root, p, i);
    HomeHasTable(tables, homes, p, i);
    TableEntered(tables, t, i, page);
    Hung(tables, homes, root, p, i, page);
  }

  lemma HomeHasTable(tables: Tables, homes: Homes, p: Path, i: nat)
    requires p in homes && HomeOk(tables, homes, p) && i < ENTRIES
    ensures homes[p] in tables && i < |tables[homes[p]]|
  {
  }

  class AddressSpace {
    var tables: Tables
    var pml4: nat
    // what MmAllocateSinglePage will answer, call by call; past the end it refuses
    var supply: seq<nat>
    ghost var homes: Homes

    ghost predicate Valid()
      reads this
    {
      TreeOk(tables, homes, pml4) && FreshPages(supply, tables.Keys)
    }

    ghost function Translation(v: nat): nat
      reads this
    {
      Translate(tables, pml4, v)
    }

    method AllocateSinglePage() returns (page: nat)
      modifies this`supply
      ensures old(supply) == [] ==> page == 0 && supply == []
      ensures old(supply) != [] ==> [page] + supply == old(supply)
    {
      if supply == [] {
        return 0;
      }
      page := supply[0];
      supply := supply[1..];
    }

    /** Hangs an empty table at `entry` of table t, whose home is p. */
    method GetNextLevel(t: nat, entry: nat, ghost p: Path) returns (s: Status)
      requires Valid() && p in homes && homes[p] == t && |p| < 3
      requires entry < ENTRIES ==> p + [entry] !in homes
      modifies this
      ensures Valid() && pml4 == old(pml4)
      ensures s == Success <==> entry < ENTRIES && old(supply) != [] && old(supply)[0] != 0
      ensures s == Success ==> homes == old(homes)[p + [entry] := old(supply)[0]] && supply == old(supply)[1..]
      ensures s != Success ==> tables == old(tables) && homes == old(homes)
      ensures s != Success ==> s == if entry >= ENTRIES then InvalidPmlEntry else OutOfMemory
      ensures forall v: nat :: Translation(v) == old(Translation(v))
    {
      if entry >= ENTRIES {
        return InvalidPmlEntry;
      }
      hide TreeOk, FreshPages;
      if supply != [] { PageTaken(supply, tables.Keys); }
      var address := AllocateSinglePage();
      assert old(supply) != [] ==> supply == old(supply)[1..];
      if address == 0 {
        return OutOfMemory;
      }
      hide Translation;
      EnterTable(t, entry, p, address);
      return Success;
    }

    method EnterTable(t: nat, entry: nat, ghost p: Path, address: nat)
      requires Valid() && p in homes && homes[p] == t && |p| < 3 && entry < ENTRIES && p + [entry] !in homes
      requires address !in tables && address != 0 && address % PAGE_SIZE == 0
        && FreshPages(supply, tables.Keys + {address})
      modifies this`tables, this`homes
      ensures Valid() && homes == old(homes)[p + [entry] := address]
      ensures forall v: nat :: Translation(v) == old(Translation(v))
    {
      hide TreeOk, FreshPages, Translate, Flagged, Zeroes, Stored, SameMapping;
      Entered(tables, homes, pml4, p, t, entry, address);
      ghost var was := tables;
      tables := tables[address := Zeroes()];
      tables := Stored(tables, t, entry, Flagged(address));
      homes := homes[p + [entry] := address];
      forall v: nat ensures Translation(v) == old(Translation(v)) {
        SameAt(was, tables, pml4, v);
      }
    }

    /** One level of the walk of MapPage: entry `entry` of table t, made if it is missing. */
    method Descend(t: nat, entry: nat, ghost p: Path) returns (s: Status, next: nat)
      requires Valid() && p in homes && homes[p] == t && |p| < 3 && entry < ENTRIES
      modifies this
      ensures Valid() && pml4 == old(pml4)
      ensures s == Success || s == OutOfMemory
      ensures s == Success ==> p + [entry] in homes && homes[p + [entry]] == next
      ensures Enough(old(supply), 1) ==> s == Success
      ensures s == Success ==> Drawn(old(supply), supply, 1)
      ensures forall v: nat :: Translation(v) == old(Translation(v))
    {
      hide HomeOk, TablesApart, Walk, Indices, FreshPages, Enough, Drawn;
      next := 0;
      EnoughForOne(supply);
      NextLevel(tables, homes, pml4, p, entry);
      if tables[t][entry] == 0 {
        s := GetNextLevel(t, entry, p);
        if s != Success {
          return;
        }
        NextLevel(tables, homes, pml4, p, entry);
      }
      next := Parse(tables[t][entry]);
      DrawnOnce(old(supply), supply);
      s := Success;
    }

    lemma RootHome()
      requires Valid()
      ensures [] in homes && homes[[]] == pml4
    {
    }

    /** The walk of MapPage down to the table of a page's entry; tables that are missing are made. */
    method LastTable(virtAddr: nat) returns (s: Status, pt: nat)
      requires Valid()
      modifies this
      ensures Valid() && pml4 == old(pml4)
      ensures s == Success || s == OutOfMemory
      ensures Enough(old(supply), 3) ==> s == Success
      ensures s == Success ==> Drawn(old(supply), supply, 3)
      ensures s == Success ==> Indices(virtAddr)[..3] in homes && homes[Indices(virtAddr)[..3]] == pt
      ensures forall v: nat :: Translation(v) == old(Translation(v))
    {
      var pml4Entry := Pml4Entry(virtAddr);
      var pdptEntry := PdptEntry(virtAddr);
      var pdEntry := PdEntry(virtAddr);
      hide *;
      ghost var path := Indices(virtAddr);
      TurnByTurn(virtAddr);
      RootHome();
      ghost var first := supply;
      EnoughAlways(first, 3, 1);
      var pdpt, pd;
      pt := 0;
      s, pdpt := Descend(pml4, pml4Entry, []);
      if s != Success {
        return;
      }
      ghost var second := supply;
      EnoughLeft(first, second, 1, 2);
      EnoughAlways(second, 2, 1);
      s, pd := Descend(pdpt, pdptEntry, path[..1]);
      if s != Success {
        return;
      }
      ghost var third := supply;
      EnoughLeft(second, third, 1, 1);
      s, pt := Descend(pd, pdEntry, path[..2]);
      if s != Success {
        return;
      }
      DrawnBoth(first, second, third, 1, 1);
      DrawnBoth(first, third, supply, 2, 1);
    }

    /** On success one page's translation changes and nothing else; out of memory, no translation does. */
    method MapPage(physAddr: nat, virtAddr: nat, flags: nat) returns (s: Status)
      requires Valid()
      modifies this
      ensures Valid() && pml4 == old(pml4)
      ensures s == Success || s == OutOfMemory
      ensures Enough(old(supply), 3) ==> s == Success
      ensures s == Success ==> Drawn(old(supply), supply, 3)
      ensures s == Success ==> LeadsTo(Translation(virtAddr), physAddr) && MayWrite(tables, pml4, virtAddr)
      ensures s == Success ==> forall w: nat ::
        Translation(w) == if PageOf(w) == PageOf(virtAddr) then Translation(virtAddr) else old(Translation(w))
      ensures s == OutOfMemory ==> forall w: nat :: Translation(w) == old(Translation(w))
      ensures s == Success ==> PageMapped(old(tables), tables, pml4, physAddr, virtAddr)
      ensures s == OutOfMemory ==> SameMapping(old(tables), tables, pml4)
    {
      hide TreeOk, FreshPages, Translate, PageOf, Flagged, Indices, Enough, Drawn, Valid;
      var pt;
      s, pt := LastTable(virtAddr);
      if s == Success {
        FlaggedLeads(physAddr);
        WriteLeaf(pt, virtAddr, Flagged(physAddr));
        WritableTranslation(virtAddr);
      }
      forall w: nat ensures s == Success ==>
        Translate(tables, pml4, w) == PageWritten(virtAddr, physAddr, w, Translate(old(tables), old(pml4), w))
      {
        assert Translation(w)
            == if s == Success && PageOf(w) == PageOf(virtAddr) then Flagged(physAddr) else old(Translation(w));
      }
      forall w: nat ensures s == OutOfMemory ==> Translate(tables, pml4, w) == Translate(old(tables), old(pml4), w) {
        assert s == OutOfMemory ==> Translation(w) == old(Translation(w));
      }
    }

    lemma WritableTranslation(v: nat)
      requires Valid() && Present(Translation(v)) && Writable(Translation(v))
      ensures MayWrite(tables, pml4, v)
    {
      WritableLeaf(tables, homes, pml4, v);
    }

    lemma LeafTable(v: nat)
      requires Valid() && Indices(v)[..3] in homes
      ensures HomeOk(tables, homes, Indices(v)[..3])
      ensures homes[Indices(v)[..3]] in tables && PtEntry(v) < |tables[homes[Indices(v)[..3]]]|
    {
      assert HomeOk(tables, homes, Indices(v)[..3]);
    }

    method WriteLeaf(pt: nat, virtAddr: nat, e: nat)
      requires Valid() && Indices(virtAddr)[..3] in homes && homes[Indices(virtAddr)[..3]] == pt && LeafOk(e)
      modifies this`tables
      ensures Valid()
      ensures forall w: nat :: Translation(w) == if PageOf(w) == PageOf(virtAddr) then e else old(Translation(w))
    {
      hide HomeOk, TreeOk, FreshPages, Translate, PageOf, Indices, PtEntry, LeafOk;
      LeafTable(virtAddr);
      LeafWritten(tables, homes, pml4, virtAddr, e);
      ghost var was := tables;
      tables := Stored(tables, pt, PtEntry(virtAddr), e);
      assert tables.Keys == was.Keys;
    }

    /** Afterwards exactly that page has no translation, whichever way the call ends. */
    method UnmapPage(virtAddr: nat) returns (s: Status)
      requires Valid()
      modifies this
      ensures Valid() && pml4 == old(pml4) && homes == old(homes) && supply == old(supply)
      ensures s == if Indices(virtAddr)[..3] in homes then Success else NotMapped
      ensures old(Translation(virtAddr)) != 0 ==> s == Success
      ensures forall w: nat :: Translation(w) == if PageOf(w) == PageOf(virtAddr) then 0 else old(Translation(w))
    {
      ghost var v := virtAddr;
      ghost var path := Indices(v);
      TurnByTurn(v);
      NextLevel(tables, homes, pml4, [], Pml4Entry(v));
      hide HomeOk, TablesApart, Walk, Indices, FreshPages, Pml4Entry, PdptEntry, PdEntry, PtEntry, TreeOk, Parse;
      if tables[pml4][Pml4Entry(virtAddr)] == 0 {
        NothingMapped(v, 1);
        return NotMapped;
      }
      var pdpt := Parse(tables[pml4][Pml4Entry(virtAddr)]);
      NextLevel(tables, homes, pml4, path[..1], PdptEntry(v));
      if tables[pdpt][PdptEntry(virtAddr)] == 0 {
        NothingMapped(v, 2);
        return NotMapped;
      }
      var pd := Parse(tables[pdpt][PdptEntry(virtAddr)]);
      NextLevel(tables, homes, pml4, path[..2], PdEntry(v));
      if tables[pd][PdEntry(virtAddr)] == 0 {
        NothingMapped(v, 3);
        return NotMapped;
      }
      var pt := Parse(tables[pd][PdEntry(virtAddr)]);
      MappedHasHome(v);
      WriteLeaf(pt, virtAddr, 0);
      return Success;
    }

    /** With a level missing, no address of the page has a translation. */
    lemma NothingMapped(v: nat, k: nat)
      requires Valid() && k <= 3 && Indices(v)[..k] !in homes
      ensures Indices(v)[..3] !in homes
      ensures forall w: nat :: PageOf(w) == PageOf(v) ==> Translation(w) == 0
    {
      forall w: nat | PageOf(w) == PageOf(v) ensures Translation(w) == 0 {
        SameIndices(v, w);
        MissingLevel(tables, homes, pml4, w, k);
      }
      MissingLevel(tables, homes, pml4, v, k);
    }

    lemma MappedHasHome(v: nat)
      requires Valid()
      ensures Translation(v) != 0 ==> Indices(v)[..3] in homes
    {
      TranslateIsLeaf(tables, homes, pml4, v);
    }

    /** The check agrees with the translation the processor would find. */
    method CheckIfPageIsMapped(virtAddr: nat) returns (mapped: bool)
      requires Valid()
      ensures mapped <==> Translation(virtAddr) != 0
    {
      ghost var v := virtAddr;
      ghost var path := Indices(v);
      TurnByTurn(v);
      NextLevel(tables, homes, pml4, [], Pml4Entry(v));
      TranslateIsLeaf(tables, homes, pml4, v);
      hide HomeOk, TablesApart, Walk, Indices, FreshPages, Pml4Entry, PdptEntry, PdEntry, PtEntry, TreeOk, Parse;
      if tables[pml4][Pml4Entry(virtAddr)] == 0 {
        NothingMapped(v, 1);
        return false;
      }
      var pdpt := Parse(tables[pml4][Pml4Entry(virtAddr)]);
      NextLevel(tables, homes, pml4, path[..1], PdptEntry(v));
      if tables[pdpt][PdptEntry(virtAddr)] == 0 {
        NothingMapped(v, 2);
        return false;
      }
      var pd := Parse(tables[pdpt][PdptEntry(virtAddr)]);
      NextLevel(tables, homes, pml4, path[..2], PdEntry(v));
      if tables[pd][PdEntry(virtAddr)] == 0 {
        NothingMapped(v, 3);
        return false;
      }
      var pt := Parse(tables[pd][PdEntry(virtAddr)]);
      return tables[pt][PtEntry(virtAddr)] != 0;
    }

    /** The first boot loop; `done` pages are mapped when it ends. Three fresh pages for each are always enough. */
    method MapKernel(phys: nat, virt: nat, pages: nat) returns (s: Status, ghost done: nat)
      requires Valid()
      modifies this
      ensures Valid() && pml4 == old(pml4) && (s == Success || s == OutOfMemory)
      ensures done <= pages && (s == Success <==> done == pages)
      ensures Enough(old(supply), 3 * pages) ==> s == Success
      ensures s == Success ==> Drawn(old(supply), supply, 3 * pages)
      ensures RangeMapped(old(tables), tables, pml4, phys, virt, done)
    {
      hide Valid, Translation, PageMapped, SameMapping, RangeMapped, Enough, Drawn, PagesOf;
      s := Success;
      done := 0;
      var i := 0;
      RangeNone(tables, pml4, phys, virt);
      DrawnNone(supply);
      while i < pages
        invariant i <= pages && done == i && Valid() && s == Success && pml4 == old(pml4)
        invariant Drawn(old(supply), supply, 3 * i)
        invariant RangeMapped(old(tables), tables, pml4, phys, virt, i)
      {
        ghost var was, left := tables, supply;
        EnoughFor(old(supply), left, 3 * i, 3 * pages);
        s := MapPage(phys + i * PAGE_SIZE, virt + i * PAGE_SIZE, 2);
        if s != Success {
          RangeSame(old(tables), was, tables, pml4, phys, virt, i);
          return;
        }
        DrawnBoth(old(supply), left, supply, 3 * i, 3);
        RangeNext(old(tables), was, tables, pml4, phys, virt, i, virt + i * PAGE_SIZE, phys + i * PAGE_SIZE);
        i := i + 1;
        done := i;
      }
    }

    /** The second boot loop, over one entry. */
    method MapEntry(e: MemoryEntry) returns (s: Status, ghost done: nat)
      requires Valid()
      modifies this
      ensures Valid() && pml4 == old(pml4) && (s == Success || s == OutOfMemory)
      ensures done <= PagesOf(e.size) && (s == Success <==> done == PagesOf(e.size))
      ensures Enough(old(supply), 3 * PagesOf(e.size)) ==> s == Success
      ensures s == Success ==> Drawn(old(supply), supply, 3 * PagesOf(e.size))
      ensures RangeMapped(old(tables), tables, pml4, e.base, e.base, done)
    {
      hide Valid, Translation, PageMapped, SameMapping, RangeMapped, Enough, Drawn, PagesOf;
      s := Success;
      done := 0;
      var j := 0;
      RangeNone(tables, pml4, e.base, e.base);
      DrawnNone(supply);
      while j < e.size
        invariant j == done * PAGE_SIZE && done <= PagesOf(e.size) && Valid() && s == Success && pml4 == old(pml4)
        invariant Drawn(old(supply), supply, 3 * done)
        invariant RangeMapped(old(tables), tables, pml4, e.base, e.base, done)
        decreases e.size - j
      {
        OnePageMore(e.size, done);
        ghost var was, left := tables, supply;
        EnoughFor(old(supply), left, 3 * done, 3 * PagesOf(e.size));
        s := MapPage(e.base + j, e.base + j, 2);
        if s != Success {
          RangeSame(old(tables), was, tables, pml4, e.base, e.base, done);
          return;
        }
        DrawnBoth(old(supply), left, supply, 3 * done, 3);
        RangeNext(old(tables), was, tables, pml4, e.base, e.base, done, e.base + j, e.base + j);
        j := j + PAGE_SIZE;
        done := done + 1;
      }
      PagesDone(e.size, done);
    }

    lemma TranslationIs()
      ensures forall w: nat :: Translation(w) == Translate(tables, pml4, w)
    {
    }

    /** A zeroed root page; as in the source, a refusal of the very first page is not handled. */
    method StartTable()
      requires supply != [] && supply[0] != 0 && FreshPages(supply, {})
      modifies this
      ensures Valid() && pml4 == old(supply)[0] && supply == old(supply)[1..]
      ensures forall w: nat :: Translate(tables, pml4, w) == 0
    {
      PageTaken(supply, {});
      EmptyTree(supply[0]);
      hide FreshPages, TreeOk, Translate;
      pml4 := AllocateSinglePage();
      tables := map[pml4 := Zeroes()];
      homes := map[[] := pml4];
      assert supply == old(supply)[1..];
      assert tables.Keys == {} + {pml4};
    }

    method MapEntries(memMap: seq<MemoryEntry>) returns (s: Status)
      requires Valid()
      modifies this
      ensures Valid() && pml4 == old(pml4) && (s == Success || s == OutOfMemory)
      ensures Enough(old(supply), 3 * AllPages(memMap, |memMap|)) ==> s == Success
      ensures s == Success ==> EntriesMapped(old(tables), tables, pml4, memMap, |memMap|)
    {
      hide *;
      s := Success;
      var i := 0;
      EntriesNone(tables, pml4, memMap);
      DrawnNone(supply);
      NoPages(memMap);
      while i < |memMap|
        invariant i <= |memMap| && Valid() && s == Success && pml4 == old(pml4)
        invariant Drawn(old(supply), supply, 3 * AllPages(memMap, i))
        invariant EntriesMapped(old(tables), tables, pml4, memMap, i)
      {
        ghost var was, left := tables, supply;
        PagesOfNext(memMap, i);
        EnoughAlways(old(supply), 3 * AllPages(memMap, |memMap|),
          3 * AllPages(memMap, i) + 3 * PagesOf(memMap[i].size));
        EnoughLeft(old(supply), left, 3 * AllPages(memMap, i), 3 * PagesOf(memMap[i].size));
        ghost var done;
        s, done := MapEntry(memMap[i]);
        if s != Success {
          return;
        }
        DrawnBoth(old(supply), left, supply, 3 * AllPages(memMap, i), 3 * PagesOf(memMap[i].size));
        EntriesNext(old(tables), was, tables, pml4, memMap, i);
        i := i + 1;
      }
    }

    /**
     After the first two loops exactly the pages of the kernel and of the memory map are mapped, later ones
     over earlier ones; it ends well when the allocator gives three pages for each of them and the root.
    */
    method Init(kernelPhys: nat, kernelVirt: nat, kernelPages: nat, memMap: seq<MemoryEntry>) returns (s: Status)
      requires supply != [] && supply[0] != 0 && FreshPages(supply, {})
      modifies this
      ensures Valid() && (s == Success || s == OutOfMemory)
      ensures Enough(old(supply), 1 + 3 * kernelPages + 3 * AllPages(memMap, |memMap|)) ==> s == Success
      ensures s == Success ==> forall w: nat ::
        Translation(w) == EntriesLeaf(memMap, |memMap|, w, RangeLeaf(kernelPhys, kernelVirt, kernelPages, w, 0))
      ensures s == Success && UpperHalf(kernelVirt, kernelPages)
              && (forall i | 0 <= i < |memMap| :: LowerHalf(memMap[i])) ==>
        && KernelMapped(tables, pml4, kernelPhys, kernelVirt, kernelPages)
        && AllPlain(tables, pml4, memMap)
        && forall i | 0 <= i < |memMap| && Covered(memMap[i]) ::
             IdentityMapped(tables, pml4, memMap[i].base, memMap[i].size)
    {
      StartTable();
      ghost var empty, first := tables, supply;
      ghost var mine, rest := 3 * kernelPages, 3 * AllPages(memMap, |memMap|);
      assert Drawn(old(supply), first, 1);
      EnoughLeft(old(supply), first, 1, mine + rest);
      EnoughAlways(first, mine + rest, mine);
      hide *;
      ghost var done;
      s, done := MapKernel(kernelPhys, kernelVirt, kernelPages);
      if s != Success {
        return;
      }
      EnoughLeft(first, supply, mine, rest);
      ghost var kernel := tables;
      s := MapEntries(memMap);
      if s != Success {
        return;
      }
      TranslationIs();
      Composed(empty, kernel, tables, pml4, kernelPhys, kernelVirt, kernelPages, memMap);
      if UpperHalf(kernelVirt, kernelPages) && forall i | 0 <= i < |memMap| :: LowerHalf(memMap[i]) {
        BootMapped(empty, kernel, tables, pml4, kernelPhys, kernelVirt, kernelPages, memMap);
      }
    }
  }
}
