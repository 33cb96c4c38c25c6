/**
 Four-level page tables as values: tables of 512 entries by physical address, and the walk
 that turns a virtual address into a leaf entry (section 4.5 of the Intel SDM, volume 3A).
*/
module PageWalk {
  import opened Arithmetic
  import opened Machine

  const ENTRIES: nat := 512

  // The four index macros select nine bits each; on u64 that is a division and a remainder.

  function Pml4Entry(v: nat): nat { v / 0x80_0000_0000 % 512 }
  function PdptEntry(v: nat): nat { v / 0x4000_0000 % 512 }
  function PdEntry(v: nat): nat { v / 0x20_0000 % 512 }
  function PtEntry(v: nat): nat { v / 0x1000 % 512 }

  type Path = seq<nat>

  function Indices(v: nat): Path {
    [Pml4Entry(v), PdptEntry(v), PdEntry(v), PtEntry(v)]
  }

  /** x | PG_PRESENT | PG_READ_WRITE. */
  function Flagged(x: nat): nat { x / 4 * 4 + 3 }

  /** PARSE_ENTRY_VALUE: the entry without its low twelve bits. */
  function Parse(e: nat): nat { e / 0x1000 * 0x1000 }

  // What the processor makes of an entry: bit 0, bit 1, and the page that bits 12 and up are of.

  predicate Present(e: nat) { e % 2 == 1 }
  predicate Writable(e: nat) { e / 2 % 2 == 1 }
  function Frame(e: nat): nat { e - e % PAGE_SIZE }

  /** A leaf that is present and writable, all its other bits being those of the physical address. */
  predicate LeadsTo(leaf: nat, phys: nat) {
    Present(leaf) && Writable(leaf) && leaf / 4 == phys / 4
  }

  /** An entry for the table in a page: present and writable, with no other flag. */
  predicate PointsTo(e: nat, page: nat) {
    Present(e) && Writable(e) && e % PAGE_SIZE < 4 && Frame(e) == page
  }

  /** What is stored for an address leads to it, and the page that is parsed from it is the processor's. */
  lemma FlaggedLeads(x: nat)
    ensures LeadsTo(Flagged(x), x) && Flagged(x) != 0
    ensures Parse(Flagged(x)) == Frame(Flagged(x)) == Frame(x)
    ensures x % PAGE_SIZE == 0 ==> PointsTo(Flagged(x), x)
  {
    FrameOfFour(x);
    FrameOfFour(Flagged(x));
    FrameIsParsed(Flagged(x));
  }

  /** The two low bits do not matter to the frame, and neither do the flags' other bits to its page. */
  lemma FrameOfFour(x: nat)
    ensures Frame(x) == x / 4 / 0x400 * 0x1000 && x % PAGE_SIZE == x / 4 % 0x400 * 4 + x % 4
  {
    var q, t := DivisionOf(x / 4, 0x400);
    DivisionIs(x, 0x1000, q, 4 * t + x % 4);
  }

  lemma FrameIsParsed(e: nat)
    ensures Frame(e) == Parse(e)
  {
  }

  /** An entry for a table has a bit set, and its page is what is parsed from it. */
  lemma PointsParsed(e: nat, page: nat)
    requires PointsTo(e, page)
    ensures e != 0 && Parse(e) == page
  {
    FrameIsParsed(e);
  }

  /** The page of a virtual address; bits 48 and up take no part in the walk. */
  function PageOf(v: nat): nat {
    v / 0x1000 % 0x10_0000_0000
  }

  lemma SplitPage(page: nat)
    requires page < 0x10_0000_0000
    ensures page == page / 0x800_0000 % 512 * 0x800_0000 + page / 0x4_0000 % 512 * 0x4_0000
                    + page / 512 % 512 * 512 + page % 512
  {
    assert page / 0x800_0000 < 512;
    assert page / 512 / 512 == page / 0x4_0000 && page / 0x4_0000 / 512 == page / 0x800_0000;
  }

  /** Turns taken by the page number alone: d is 1, 2^9, 2^18 or 2^27. */
  lemma TurnOfPage(q: nat, d: nat, rest: nat)
    requires d > 0 && 512 * d * rest == 0x10_0000_0000
    ensures q % 0x10_0000_0000 / d % 512 == q / d % 512
  {
    var r, k := q % 0x10_0000_0000, q / 0x10_0000_0000;
    var b := rest * k;
    Regrouped(d, rest, k);
    SameTurn(q, d, r, b);
  }

  lemma Regrouped(d: nat, rest: nat, k: nat)
    ensures d * (512 * (rest * k)) == 512 * d * rest * k
  {
  }

  lemma SameTurn(q: nat, d: nat, r: nat, b: nat)
    requires d > 0 && q == r + d * (512 * b)
    ensures r / d % 512 == q / d % 512
  {
    var t := r / d;
    var e := 512 * b;
    assert r == d * t + r % d;
    assert d * (t + e) == d * t + d * e;
    DivisionIs(q, d, t + e, r % d);
  }

  /** The four turns of the processor's walk: nine bits of the page number each, from the top. */
  function Turns(page: nat): Path {
    [page / 0x800_0000, page / 0x4_0000 % 512, page / 512 % 512, page % 512]
  }

  lemma IndicesOfPage(v: nat)
    ensures Indices(v) == Turns(PageOf(v))
  {
    var q := v / 0x1000;
    TurnOfPage(q, 0x800_0000, 1);
    TurnOfPage(q, 0x4_0000, 512);
    TurnOfPage(q, 512, 0x4_0000);
    TurnOfPage(q, 1, 0x800_0000);
    assert v / 0x20_0000 == q / 512 && v / 0x4000_0000 == q / 0x4_0000 && v / 0x80_0000_0000 == q / 0x800_0000;
  }

  /** The walk of two addresses takes the same turns exactly when they are on one page. */
  lemma SameIndices(v: nat, w: nat)
    ensures Indices(v) == Indices(w) <==> PageOf(v) == PageOf(w)
  {
    IndicesOfPage(v);
    IndicesOfPage(w);
    SplitPage(PageOf(v));
    SplitPage(PageOf(w));
    hide PageOf;
    if Indices(v) == Indices(w) {
      assert Indices(v)[0] == Indices(w)[0] && Indices(v)[1] == Indices(w)[1];
      assert Indices(v)[2] == Indices(w)[2] && Indices(v)[3] == Indices(w)[3];
    }
  }

  /** The pages that hold tables, by physical address. */
  type Tables = map<nat, seq<nat>>

  /** What the processor reads: the entry that `path` leads to from table t, 0 where one is not present. */
  function Walk(tables: Tables, t: nat, path: Path): nat
    decreases |path|
  {
    if path == [] || t !in tables || |tables[t]| <= path[0] then 0
    else
      var e := tables[t][path[0]];
      if !Present(e) then 0 else if |path| == 1 then e else Walk(tables, Frame(e), path[1..])
  }

  function Translate(tables: Tables, root: nat, v: nat): nat {
    Walk(tables, root, Turns(PageOf(v)))
  }

  /** The processor may write there: every entry on the way is present and writable. */
  predicate WalkWrites(tables: Tables, t: nat, path: Path)
    decreases |path|
  {
    path == [] ||
    (t in tables && path[0] < |tables[t]| && Present(tables[t][path[0]]) && Writable(tables[t][path[0]])
     && WalkWrites(tables, Frame(tables[t][path[0]]), path[1..]))
  }

  predicate MayWrite(tables: Tables, root: nat, v: nat) {
    WalkWrites(tables, root, Turns(PageOf(v)))
  }

  /** Which table hangs at which turns from the root. */
  type Homes = map<Path, nat>

  ghost predicate EntryOk(tables: Tables, homes: Homes, p: Path, i: nat)
    requires p in homes && homes[p] in tables && i < |tables[homes[p]]|
  {
    var e := tables[homes[p]][i];
    if p + [i] in homes then PointsTo(e, homes[p + [i]]) else e == 0
  }

  /** A leaf is present or zero. */
  predicate LeafOk(e: nat) { e == 0 || Present(e) }

  ghost predicate HomeOk(tables: Tables, homes: Homes, p: Path)
    requires p in homes
  {
    && |p| <= 3 && (p != [] ==> p[..|p| - 1] in homes)
    && homes[p] in tables && homes[p] != 0 && homes[p] % PAGE_SIZE == 0 && |tables[homes[p]]| == ENTRIES
    && (|p| < 3 ==> forall i: nat | i < ENTRIES :: EntryOk(tables, homes, p, i))
    && (|p| == 3 ==> forall i: nat | i < ENTRIES :: LeafOk(tables[homes[p]][i]))
  }

  ghost predicate TablesApart(homes: Homes) {
    forall p, q | p in homes && q in homes && p != q :: homes[p] != homes[q]
  }

  /** The tables form a tree of disjoint pages: a table for each home, one home for each table. */
  ghost predicate TreeOk(tables: Tables, homes: Homes, root: nat) {
    && [] in homes && homes[[]] == root && homes.Values == tables.Keys
    && TablesApart(homes)
    && forall p | p in homes :: HomeOk(tables, homes, p)
  }

  /** In a tree the walk ends in the table whose home is its first three turns, or sees 0. */
  ghost function Leaf(tables: Tables, homes: Homes, path: Path): nat
    requires |path| == 4 && path[3] < ENTRIES
    requires path[..3] in homes ==> HomeOk(tables, homes, path[..3])
  {
    if path[..3] in homes then tables[homes[path[..3]]][path[3]] else 0
  }

  lemma {:induction false} WalkFrom(tables: Tables, homes: Homes, root: nat, path: Path, k: nat)
    requires TreeOk(tables, homes, root) && |path| == 4 && (forall i | 0 <= i < 4 :: path[i] < ENTRIES)
    requires k <= 3 && path[..k] in homes
    ensures Walk(tables, homes[path[..k]], path[k..]) == Leaf(tables, homes, path)
    decreases 3 - k
  {
    var p := path[..k];
    assert HomeOk(tables, homes, p);
    if k < 3 {
      assert EntryOk(tables, homes, p, path[k]);
      assert p + [path[k]] == path[..k + 1] && path[k..][1..] == path[k + 1..];
      if path[..k + 1] in homes {
        assert HomeOk(tables, homes, path[..k + 1]);
        WalkFrom(tables, homes, root, path, k + 1);
      } else {
        assert path[..3][..k + 1] == path[..k + 1];
        NoHomeBelow(tables, homes, root, path[..3], k + 1);
      }
    }
  }

  lemma {:induction false} NoHomeBelow(tables: Tables, homes: Homes, root: nat, path: Path, k: nat)
    requires TreeOk(tables, homes, root) && k <= |path| && path[..k] !in homes
    ensures path !in homes
    decreases |path|
  {
    if k == |path| {
      assert path[..k] == path;
    } else {
      var shorter := path[..|path| - 1];
      assert path in homes ==> HomeOk(tables, homes, path);
      assert shorter[..k] == path[..k];
      NoHomeBelow(tables, homes, root, shorter, k);
    }
  }

  lemma TranslateIsLeaf(tables: Tables, homes: Homes, root: nat, v: nat)
    requires TreeOk(tables, homes, root)
    ensures Indices(v)[..3] in homes ==> HomeOk(tables, homes, Indices(v)[..3])
    ensures Translate(tables, root, v) == Leaf(tables, homes, Indices(v))
  {
    IndicesOfPage(v);
    hide PageOf, Turns;
    WalkFrom(tables, homes, root, Indices(v), 0);
    assert Indices(v)[0..] == Indices(v);
  }

  /** On the way to a leaf that is writable itself, the processor meets nothing but writable entries. */
  lemma {:induction false} WritesFrom(tables: Tables, homes: Homes, root: nat, path: Path, k: nat)
    requires TreeOk(tables, homes, root) && |path| == 4 && (forall i | 0 <= i < 4 :: path[i] < ENTRIES)
    requires k <= 3 && path[..k] in homes && path[..3] in homes && HomeOk(tables, homes, path[..3])
    requires Present(Leaf(tables, homes, path)) && Writable(Leaf(tables, homes, path))
    ensures WalkWrites(tables, homes[path[..k]], path[k..])
    decreases 3 - k
  {
    assert HomeOk(tables, homes, path[..k]);
    assert path[k..][1..] == path[k + 1..];
    hide Present, Writable, Frame;
    if k < 3 {
      NextTable(tables, homes, root, path, k);
      hide HomeOk, TreeOk;
      WritesFrom(tables, homes, root, path, k + 1);
    } else {
      assert path[4..] == [];
    }
  }

  /** On the way to a table there is one at every turn. */
  lemma NextTable(tables: Tables, homes: Homes, root: nat, path: Path, k: nat)
    requires TreeOk(tables, homes, root) && |path| == 4 && path[..3] in homes
    requires k < 3 && path[k] < ENTRIES && path[..k] in homes
    ensures path[..k + 1] in homes && homes[path[..k]] in tables && path[k] < |tables[homes[path[..k]]]|
    ensures PointsTo(tables[homes[path[..k]]][path[k]], homes[path[..k + 1]])
  {
    var p := path[..k];
    assert HomeOk(tables, homes, p);
    assert EntryOk(tables, homes, p, path[k]);
    hide PointsTo;
    assert p + [path[k]] == path[..k + 1] && path[..3][..k + 1] == path[..k + 1];
    if path[..k + 1] !in homes { NoHomeBelow(tables, homes, root, path[..3], k + 1); }
  }

  lemma WritableLeaf(tables: Tables, homes: Homes, root: nat, v: nat)
    requires TreeOk(tables, homes, root)
    requires Present(Translate(tables, root, v)) && Writable(Translate(tables, root, v))
    ensures MayWrite(tables, root, v)
  {
    TranslateIsLeaf(tables, homes, root, v);
    IndicesOfPage(v);
    hide PageOf, Turns;
    WritesFrom(tables, homes, root, Indices(v), 0);
    assert Indices(v)[0..] == Indices(v);
  }

  function Zeroes(): seq<nat> {
    seq(ENTRIES, _ => 0)
  }

  /** The tables after entry i of table t has been written. */
  function Stored(tables: Tables, t: nat, i: nat, e: nat): (r: Tables)
    requires t in tables && i < |tables[t]|
    ensures r.Keys == tables.Keys
  {
    var row: seq<nat> := tables[t];
    tables[t := row[i := e]]
  }

  /** The tables after an empty table at `page` has been entered there. */
  function Extended(tables: Tables, t: nat, i: nat, page: nat): Tables
    requires t in tables && i < |tables[t]| && page !in tables
  {
    Stored(tables[page := Zeroes()], t, i, Flagged(page))
  }

  ghost predicate SameMapping(was: Tables, now: Tables, root: nat) {
    forall v: nat :: Translate(now, root, v) == Translate(was, root, v)
  }

  /** Hanging a fresh empty table at a missing entry keeps the tree and every translation. */
  lemma Hung(tables: Tables, homes: Homes, root: nat, p: Path, i: nat, page: nat)
    requires TreeOk(tables, homes, root) && p in homes && |p| < 3 && i < ENTRIES
    requires HomeOk(tables, homes, p) && tables[homes[p]][i] == 0
    requires page !in tables && page != 0 && page % PAGE_SIZE == 0
    ensures TreeOk(Extended(tables, homes[p], i, page), homes[p + [i] := page], root)
    ensures SameMapping(tables, Extended(tables, homes[p], i, page), root)
  {
    var q := p + [i];
    var after, homes' := Extended(tables, homes[p], i, page), homes[q := page];
    FlaggedLeads(page);
    assert EntryOk(tables, homes, p, i);
    if q in homes { PointsParsed(tables[homes[p]][i], homes[q]); }
    HungHomes(tables, homes, root, p, i, page);
    forall v: nat ensures Translate(after, root, v) == Translate(tables, root, v) {
      TranslateIsLeaf(tables, homes, root, v);
      TranslateIsLeaf(after, homes', root, v);
    }
  }

  lemma HungHomes(tables: Tables, homes: Homes, root: nat, p: Path, i: nat, page: nat)
    requires TreeOk(tables, homes, root) && p in homes && |p| < 3 && i < ENTRIES && p + [i] !in homes
    requires HomeOk(tables, homes, p) && page !in tables && page != 0 && page % PAGE_SIZE == 0
    ensures TreeOk(Extended(tables, homes[p], i, page), homes[p + [i] := page], root)
  {
    var q := p + [i];
    var after, homes' := Extended(tables, homes[p], i, page), homes[q := page];
    HomeAdded(homes, q, page);
    assert after.Keys == tables.Keys + {page};
    FlaggedLeads(page);
    hide Flagged, PointsTo;
    forall h | h in homes' ensures HomeOk(after, homes', h) {
      if h == q {
        HungTable(tables, homes, root, p, i, page);
      } else {
        HungHome(tables, homes, root, p, i, page, h);
      }
    }
    hide HomeOk;
  }

  lemma HomeAdded(homes: Homes, q: Path, page: nat)
    requires q !in homes
    ensures homes[q := page].Values == homes.Values + {page}
  {
    var homes' := homes[q := page];
    assert homes'[q] == page && q in homes';
    forall x | x in homes.Values ensures x in homes'.Values {
      var h :| h in homes && homes[h] == x;
      assert h in homes' && homes'[h] == x;
    }
  }

  /** Nothing hangs at the new table. */
  lemma HungTable(tables: Tables, homes: Homes, root: nat, p: Path, i: nat, page: nat)
    requires TreeOk(tables, homes, root) && p in homes && |p| < 3 && i < ENTRIES && p + [i] !in homes
    requires HomeOk(tables, homes, p) && page !in tables && page != 0 && page % PAGE_SIZE == 0
    ensures HomeOk(Extended(tables, homes[p], i, page), homes[p + [i] := page], p + [i])
  {
    var q := p + [i];
    var after, homes' := Extended(tables, homes[p], i, page), homes[q := page];
    assert q[..|p|] == p && p in homes' && homes'[q] == page && after[page] == Zeroes();
    hide PointsTo, TreeOk;
    forall k: nat | k < ENTRIES ensures EntryOk(after, homes', q, k) {
      NoneHangsAt(tables, homes, root, q, k);
    }
  }

  lemma NoneHangsAt(tables: Tables, homes: Homes, root: nat, q: Path, k: nat)
    requires TreeOk(tables, homes, root) && q !in homes
    ensures q + [k] !in homes
  {
    assert (q + [k])[..|q|] == q;
    NoHomeBelow(tables, homes, root, q + [k], |q|);
  }

  lemma HungHome(tables: Tables, homes: Homes, root: nat, p: Path, i: nat, page: nat, h: Path)
    requires TreeOk(tables, homes, root) && p in homes && |p| < 3 && i < ENTRIES && p + [i] !in homes
    requires HomeOk(tables, homes, p) && page !in tables && h in homes && PointsTo(Flagged(page), page)
    ensures HomeOk(Extended(tables, homes[p], i, page), homes[p + [i] := page], h)
  {
    var q := p + [i];
    var after, homes' := Extended(tables, homes[p], i, page), homes[q := page];
    assert HomeOk(tables, homes, h);
    hide Flagged, PointsTo;
    if |h| < 3 {
      forall k: nat | k < ENTRIES ensures EntryOk(after, homes', h, k) {
        assert EntryOk(tables, homes, h, k);
        if h + [k] == q { assert q[..|h|] == h && q[|h|] == k && q[..|p|] == p; }
      }
    }
  }

  /** Writing a leaf entry changes the translation of exactly the addresses of that page. */
  lemma LeafWritten(tables: Tables, homes: Homes, root: nat, v: nat, e: nat)
    requires TreeOk(tables, homes, root) && Indices(v)[..3] in homes && LeafOk(e)
    requires HomeOk(tables, homes, Indices(v)[..3])
    ensures var after := Stored(tables, homes[Indices(v)[..3]], PtEntry(v), e);
            && TreeOk(after, homes, root)
            && forall w: nat :: Translate(after, root, w) == if PageOf(w) == PageOf(v) then e
              else Translate(tables, root, w)
  {
    var after := Stored(tables, homes[Indices(v)[..3]], PtEntry(v), e);
    LeafKeepsTree(tables, homes, root, Indices(v)[..3], PtEntry(v), e);
    hide HomeOk, PageOf;
    forall w: nat ensures Translate(after, root, w) == if PageOf(w) == PageOf(v) then e
      else Translate(tables, root, w) {
      TranslateIsLeaf(tables, homes, root, w);
      TranslateIsLeaf(after, homes, root, w);
      SameIndices(v, w);
      LeafChange(tables, homes, Indices(v), Indices(w), e);
    }
  }

  lemma LeafChange(tables: Tables, homes: Homes, path: Path, other: Path, e: nat)
    requires |path| == |other| == 4 && path[3] < ENTRIES && other[3] < ENTRIES && TablesApart(homes)
    requires path[..3] in homes && HomeOk(tables, homes, path[..3])
    requires other[..3] in homes ==> HomeOk(tables, homes, other[..3])
    requires other[..3] in homes ==> HomeOk(Stored(tables, homes[path[..3]], path[3], e), homes, other[..3])
    ensures Leaf(Stored(tables, homes[path[..3]], path[3], e), homes, other)
         == if other == path then e else Leaf(tables, homes, other)
  {
    assert path == path[..3] + [path[3]] && other == other[..3] + [other[3]];
  }

  lemma LeafKeepsTree(tables: Tables, homes: Homes, root: nat, path: Path, i: nat, e: nat)
    requires TreeOk(tables, homes, root) && |path| == 3 && path in homes && i < ENTRIES && LeafOk(e)
    requires HomeOk(tables, homes, path)
    ensures TreeOk(Stored(tables, homes[path], i, e), homes, root)
  {
    var after := Stored(tables, homes[path], i, e);
    assert after.Keys == tables.Keys;
    forall p | p in homes ensures HomeOk(after, homes, p) {
      assert HomeOk(tables, homes, p);
      if |p| < 3 {
        assert homes[p] != homes[path];
        forall k: nat | k < ENTRIES ensures EntryOk(after, homes, p, k) {
          assert EntryOk(tables, homes, p, k);
        }
      }
    }
  }
}
