/** The memory map of the bus: what two mappings can hide from each other, and
    the table that bus/controller.c maps. */
module BusMap {
  import opened MemoryMapTree
  import opened MemoryMap

  // --------------------------------------------------------------- two ranges

  /** The tree of two mappings, the first at the root. */
  function PairTree(a: Range, b: Range): Tree {
    var leaf := Branch(Red, Leaf, 2, Leaf);
    if b.start < a.start then Branch(Black, leaf, 1, Leaf) else Branch(Black, Leaf, 1, leaf)
  }

  /** The second range sticks out of the first on both sides. */
  predicate Hides(a: Mapping, b: Mapping) { b.start < a.start <= b.end && a.end < b.end }

  predicate HasPair(ns: seq<Node>, a: Range, b: Range) {
    |ns| >= 3 && ns[1].mapping == MappingOf(a) && ns[2].mapping == MappingOf(b)
  }

  /** What the walk does in that tree. */
  lemma PairSearch(ns: seq<Node>, a: Range, b: Range, address: nat)
    requires HasPair(ns, a, b)
    ensures var m, n := MappingOf(a), MappingOf(b);
      Search(ns, PairTree(a, b), address) ==
      if Contains(m, address) then 1
      else if (address < a.start) == (b.start < a.start) && Contains(n, address) then 2
      else 0
  {
    var leaf := Branch(Red, Leaf, 2, Leaf);
    assert Search(ns, leaf, address) == if Contains(MappingOf(b), address) then 2 else 0;
  }

  /** Every address of the two ranges is found exactly when the first does not
      hide the second: when it does, the addresses of the second past the end of
      the first are lost. */
  lemma PairExactly(ns: seq<Node>, a: Range, b: Range)
    requires HasPair(ns, a, b)
    ensures (forall address: nat :: Contains(MappingOf(a), address) || Contains(MappingOf(b), address) ==> Search(ns, PairTree(a, b), address) != 0)
      <==> !Hides(MappingOf(a), MappingOf(b))
  {
    hide PairTree, Word32, MappingOf, Search;
    var m, n := MappingOf(a), MappingOf(b);
    forall address: nat | Contains(m, address) || Contains(n, address)
      ensures !Hides(m, n) ==> Search(ns, PairTree(a, b), address) != 0
    {
      PairSearch(ns, a, b, address);
      PairStarts(a, b);
    }
    PairSearch(ns, a, b, n.end);
    PairStarts(a, b);
    assert Hides(m, n) ==> Contains(n, n.end) && Search(ns, PairTree(a, b), n.end) == 0;
  }

  lemma PairStarts(a: Range, b: Range)
    ensures MappingOf(a).start == a.start && MappingOf(b).start == b.start
  {
  }

  /** Two calls of map_address_range on a fresh map. */
  method MapPair(a: Range, b: Range) returns (map': Map, ok: bool)
    requires a.start < 0x1_0000_0000 && a.length < 0x1_0000_0000 && b.start < 0x1_0000_0000 && b.length < 0x1_0000_0000
    ensures fresh(map') && ok && map'.Valid() && map'.root != 0
    ensures HasPair(map'.mappings[..], a, b) && map'.tree == PairTree(a, b)
    ensures (forall address: nat :: Contains(MappingOf(a), address) || Contains(MappingOf(b), address) ==>
               Search(map'.mappings[..], map'.tree, address) != 0) <==> !Hides(MappingOf(a), MappingOf(b))
  {
    map' := new Map(POOL_SIZE);
    var first := map'.MapAddressRange(a.start, a.length, a.device);
    ok := map'.MapAddressRange(b.start, b.length, b.device);
    PairExactly(map'.mappings[..], a, b);
  }

  const SMALL := Range(50, 11, 1)
  const LARGE := Range(0, 101, 2)

  /** The range [50, 60] mapped before [0, 100] hides the addresses from 61 on;
      the other order hides nothing. */
  lemma OverlapHidesRange(ns: seq<Node>)
    requires HasPair(ns, SMALL, LARGE)
    ensures Contains(MappingOf(LARGE), 70) && Search(ns, PairTree(SMALL, LARGE), 70) == 0
    ensures Hides(MappingOf(SMALL), MappingOf(LARGE)) && !Hides(MappingOf(LARGE), MappingOf(SMALL))
  {
    PairSearch(ns, SMALL, LARGE, 70);
  }

  // ------------------------------------------------------------ the bus's table

  /** struct memory_map has 19 nodes. */
  const POOL_SIZE: nat := 19

  /** The table of bus_init with the constants of bus/address.h; a device is its place in the table. */
  const BUS_TABLE: seq<Range> := [
    Range(0x0450_0000, 0x18, 0), Range(0x0410_0000, 0x20, 1), Range(0x0430_0000, 0x10, 2), Range(0x0460_0000, 0x10_0000, 3),
    Range(0x0470_0000, 0x20, 4), Range(0x0480_0000, 0x1C, 5), Range(0x0404_0000, 0x20, 6), Range(0x0440_0000, 0x38, 7),
    Range(0x1000_0000, 0x0FC0_0000, 8), Range(0x0800_0000, 0x1_0004, 9), Range(0x0500_0000, 0x5C0, 10),
    Range(0x0600_0000, 0x40_0000, 11), Range(0x1FC0_0000, 0x800, 12), Range(0x03F0_0000, 0x28, 13), Range(0x0408_0000, 0x8, 14),
    Range(0x0400_0000, 0x2000, 15), Range(0x0800_0000, 0x0801_FFFF, 16)]

  predicate BusOrdered(i: nat, j: nat)
    requires i < |BUS_TABLE| && j < |BUS_TABLE|
  {
    var a, b := MappingOf(BUS_TABLE[i]), MappingOf(BUS_TABLE[j]);
    a.start < b.start || (a.start == b.start && i < j) ==> a.end <= b.end
  }

  lemma EntriesOrdered(i: nat, j: nat)
    requires i < 17 && j < 17
    ensures BusOrdered(i, j)
  {
  }

  predicate BusContains(i: nat, address: nat) { i < |BUS_TABLE| && Contains(MappingOf(BUS_TABLE[i]), address) }

  /** SRAM is longer than the space up to the cartridge, and FlashRAM is mapped into it. */
  predicate Ambiguous(address: nat) { 0x0800_0000 <= address <= 0x0801_0003 || 0x1000_0000 <= address <= 0x1001_FFFE }

  lemma EntriesMeet(i: nat, j: nat, address: nat)
    requires i < j && BusContains(i, address) && BusContains(j, address)
    ensures j == 16 && (i == 8 || i == 9) && Ambiguous(address)
  {
  }

  lemma AmbiguousMeets(address: nat)
    requires Ambiguous(address)
    ensures BusContains(16, address) && (BusContains(8, address) || BusContains(9, address))
  {
  }

  /** The pool holds the table. */
  ghost predicate HasTable(ns: seq<Node>)
    requires |ns| >= 18
  {
    forall i :: 0 <= i < 17 ==> ns[i + 1].mapping == MappingOf(BUS_TABLE[i])
  }

  lemma TableEntry(ns: seq<Node>, i: nat)
    requires |ns| >= 18 && HasTable(ns) && 1 <= i < 18
    ensures i - 1 < |BUS_TABLE| && ns[i].mapping == MappingOf(BUS_TABLE[i - 1]) && Start(ns, i) == MappingOf(BUS_TABLE[i - 1]).start
  {
    var j: nat := i - 1;
    assert ns[j + 1].mapping == MappingOf(BUS_TABLE[j]);
  }

  /** The table overlaps, but its ends are ordered. */
  lemma TableEndsOrdered(ns: seq<Node>)
    requires |ns| >= 18 && HasTable(ns)
    ensures EndsOrdered(ns, 18)
  {
    hide HasTable, MappingOf;
    forall i, j | 1 <= i < 18 && 1 <= j < 18 && Precedes(ns, i, j) ensures ns[i].mapping.end <= ns[j].mapping.end {
      TableEntry(ns, i);
      TableEntry(ns, j);
      EntriesOrdered(i - 1, j - 1);
    }
  }

  /** Exactly the ambiguous addresses are in two ranges. */
  lemma TableIsUnambiguous(ns: seq<Node>, address: nat)
    requires |ns| >= 18 && HasTable(ns)
    ensures InOneRange(ns, 18, address) <==> !Ambiguous(address)
  {
    hide HasTable, MappingOf, Contains, Ambiguous;
    if Ambiguous(address) {
      AmbiguousMeets(address);
      TableEntry(ns, 9);
      TableEntry(ns, 10);
      TableEntry(ns, 17);
    } else {
      forall i, j | 1 <= i < 18 && 1 <= j < 18 && Contains(ns[i].mapping, address) && Contains(ns[j].mapping, address) ensures i == j {
        TableEntry(ns, i);
        TableEntry(ns, j);
        if i < j {
          EntriesMeet(i - 1, j - 1, address);
        } else if j < i {
          EntriesMeet(j - 1, i - 1, address);
        }
      }
    }
  }

  /** The lookup returns 0 exactly when no entry contains the address, otherwise
      an entry that does, and the only one unless the address is ambiguous. */
  ghost predicate ResolvesTable(ns: seq<Node>, tree: Tree, address: nat) {
    var r := Search(ns, tree, address);
    && (r == 0 ==> forall i :: 0 <= i < 17 ==> !BusContains(i, address))
    && (r != 0 ==> 1 <= r < 18 && BusContains(r - 1, address))
    && (!Ambiguous(address) ==> forall i :: 0 <= i < 17 && BusContains(i, address) ==> r == i + 1)
  }

  /** What a lookup in the bus's map returns, for every address. */
  lemma TableLookup(ns: seq<Node>, root: nat, tree: Tree, address: nat)
    requires |ns| >= 18 && IsMap(ns, root, 18, tree) && HasTable(ns)
    ensures ResolvesTable(ns, tree, address)
  {
    hide IsMap, HasTable, MappingOf, Contains, Ambiguous, EndsOrdered, InOneRange, LinearScan, Search;
    var r, q := Search(ns, tree, address), LinearScan(ns, 1, 18, address);
    MapBounds(ns, root, tree);
    TableEndsOrdered(ns);
    TableIsUnambiguous(ns, address);
    SearchIsLinearScan(ns, root, 18, tree, address);
    SearchSound(ns, tree, address);
    LinearScanFinds(ns, 1, 18, address);
    if r != 0 {
      TableEntry(ns, r);
    }
    forall i | 0 <= i < 17 && BusContains(i, address) ensures r != 0 && (!Ambiguous(address) ==> r == i + 1) {
      TableEntry(ns, i + 1);
      OneRange(ns, address, r, i + 1);
    }
  }

  lemma OneRange(ns: seq<Node>, address: nat, i: nat, j: nat)
    requires |ns| >= 18 && 0 < j < 18 && Contains(ns[j].mapping, address)
    requires i == 0 || (i < 18 && Contains(ns[i].mapping, address))
    ensures InOneRange(ns, 18, address) && i != 0 ==> i == j
  {
  }

  lemma MapBounds(ns: seq<Node>, root: nat, tree: Tree)
    requires IsMap(ns, root, 18, tree)
    ensures |ns| >= 18 && forall i :: i in Ids(tree) <==> 1 <= i < 18
  {
  }

  /** bus_init: the table fits the pool, and every address resolves to a range
      that contains it when one does. */
  method MapBus() returns (map': Map, ok: bool)
    ensures fresh(map') && ok && map'.Valid() && |map'.mappings[..]| == POOL_SIZE && HasTable(map'.mappings[..])
    ensures forall address: nat :: ResolvesTable(map'.mappings[..], map'.tree, address)
  {
    hide IsMap, ResolvesTable;
    map', ok := MapTable(BUS_TABLE, POOL_SIZE);
    ghost var ns, root, tree := map'.mappings[..], map'.root, map'.tree;
    forall address: nat ensures ResolvesTable(ns, tree, address) {
      TableLookup(ns, root, tree, address);
    }
  }
}
