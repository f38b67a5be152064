/** Texture memory of the RDP: Load_Tile of a 16-bit tile from a 16-bit image
    (rdp_load_tile, edgewalker_for_loads and loading_pipeline in rdp/n64video.c)
    and the texel fetch that reads it back.

    TMEM is seen as 2048 halfwords in host order.  Shifts and masks of whole
    bytes and halfwords are written as slices. */
module RdpTmem {

  type Byte = b: nat | b < 256
  type Half = h: nat | h < 0x1_0000

  const HALVES := 0x800

  /** A tile descriptor: the fields that loading and fetching use. */
  datatype Tile = Tile(line: nat, tmem: nat, sl: nat, tl: nat, sh: nat, th: nat) {
    ghost predicate Valid() {
      line < 512 && tmem < 512 && sl < 4096 && tl < 4096 && sh < 4096 && th < 4096
    }
  }

  const RAM_SIZE: nat := 0x80_0000

  /** The texture image: `mem` gives the byte that RREADIDX32 finds at an address. */
  datatype Image = Image(address: nat, width: nat, mem: nat -> Byte) {
    /** The fields that rdp_set_texture_image sets, and addresses that wrap at the end of RDRAM. */
    ghost predicate Valid() {
      address < 0x100_0000 && 1 <= width <= 0x400 && forall a: nat :: mem(a) == mem(a % RAM_SIZE)
    }
  }

  // ------------------------------------------------------------- the bit tricks

  /** i ^ 1, i ^ 2 and i ^ 3. */
  function Xor1(i: nat): nat { if i % 2 == 0 then i + 1 else i - 1 }

  function Xor2(i: nat): nat { if i % 4 < 2 then i + 2 else i - 2 }

  function Xor3(i: nat): nat { Xor1(Xor2(i)) }

  /** x & 0x7fd. */
  function Mask7fd(x: nat): (y: nat)
    ensures y < HALVES
  {
    var y := x % 0x800;
    if y % 4 < 2 then y else y - 2
  }

  function Sign16(x: nat): int {
    var y := x % 0x1_0000;
    if y < 0x8000 then y else y - 0x1_0000
  }

  /** tc_pipeline_load: a coordinate of 16 bits relative to the tile, in texels. */
  function Relative(x: nat, low: nat): int { (Sign16(x) - 8 * low) / 32 }

  // -------------------------------------------------------------- the indices

  /** sort_tmem_idx. */
  function Sort(a: nat, b: nat, c: nat, d: nat, bank: nat): (i: nat)
    ensures i < 0x400
  {
    if a % 4 == bank then a % 0x400
    else if b % 4 == bank then b % 0x400
    else if c % 4 == bank then c % 0x400
    else if d % 4 == bank then d % 0x400
    else 0
  }

  datatype Indices = Indices(a: nat, b: nat, c: nat, d: nat, hibit: bool)

  /** get_tmem_idx for a 16-bit tile. */
  function TmemIndices(tile: Tile, s: int, t: int): (r: Indices)
    ensures r.a < 0x400 && r.b < 0x400 && r.c < 0x400 && r.d < 0x400
  {
    var tbase := tile.line * t % 512 + tile.tmem;
    var a := Mask7fd(4 * tbase + s % 0x800);
    var b, c, d := (a + 1) % 0x800, (a + 2) % 0x800, (a + 3) % 0x800;
    var hibit := a >= 0x400;
    var (a', b', c', d') := if t % 2 == 1 then (Xor2(a), Xor2(b), Xor2(c), Xor2(d)) else (a, b, c, d);
    Indices(Sort(a', b', c', d', 0), Sort(a', b', c', d', 1), Sort(a', b', c', d', 2), Sort(a', b', c', d', 3), hibit)
  }

  /** Halfword n of doubleword q, in its half of TMEM. */
  function InHalf(q: nat, n: nat): (i: nat)
    requires q < 512 && n < 4
    ensures i < 0x400
  {
    4 * (if q < 256 then q else q - 256) + n
  }

  lemma GroupBits(q: nat, n: nat)
    requires q < 512 && n < 4
    ensures var i := 4 * q + n; i % 4 == n && i % 2 == n % 2 && i % 0x400 == InHalf(q, n) && i % 0x800 == i
  {
    var e := if n < 2 then 0 else 1;
    assert 4 * q + n == 2 * (2 * q + e) + (n - 2 * e);
  }

  /** Sorting the halfwords of a doubleword into their banks, whatever line swapped them. */
  lemma SortedGroup(q: nat, n: nat)
    requires q < 512 && n < 4
    ensures var a := 4 * q; Sort(a, a + 1, a + 2, a + 3, n) == InHalf(q, n) && Sort(a + 2, a + 3, a, a + 1, n) == InHalf(q, n)
    ensures var a := 4 * q; Xor2(a) == a + 2 && Xor2(a + 1) == a + 3 && Xor2(a + 2) == a && Xor2(a + 3) == a + 1
  {
    GroupBits(q, 0);
    GroupBits(q, 1);
    GroupBits(q, 2);
    GroupBits(q, 3);
  }

  function GroupIndices(q: nat): (r: Indices)
    requires q < 512
    ensures r.a < 0x400 && r.b < 0x400 && r.c < 0x400 && r.d < 0x400
  {
    Indices(InHalf(q, 0), InHalf(q, 1), InHalf(q, 2), InHalf(q, 3), q >= 256)
  }

  /** The sorted indices are the four halfwords of one doubleword of TMEM, in
      order, on even and odd lines alike. */
  lemma IndicesAreGroup(tile: Tile, s: int, t: int, q: nat)
    requires q < 512 && (4 * (tile.line * t % 512 + tile.tmem) + s % 0x800) % 0x800 == 4 * q
    ensures TmemIndices(tile, s, t) == GroupIndices(q)
  {
    hide Sort, Xor2;
    GroupBits(q, 0);
    GroupBits(q, 1);
    GroupBits(q, 2);
    GroupBits(q, 3);
    SortedGroup(q, 0);
    SortedGroup(q, 1);
    SortedGroup(q, 2);
    SortedGroup(q, 3);
  }

  // ---------------------------------------------------------------- loading

  type Quad = q: seq<Half> | |q| == 4 witness [0, 0, 0, 0]

  /** RREADIDX32. */
  function ReadWord(mem: nat -> Byte, i: nat): (w: seq<Byte>)
    ensures |w| == 4
  {
    [mem(4 * i), mem(4 * i + 1), mem(4 * i + 2), mem(4 * i + 3)]
  }

  type WordBytes = w: seq<Byte> | |w| == 4 witness [0, 0, 0, 0]

  /** The eight cases of loading_pipeline that put a doubleword together from four words. */
  function Combine(w0: WordBytes, w1: WordBytes, w2: WordBytes, w3: WordBytes, r: nat): (q: seq<Byte>)
    requires r < 8
    ensures |q| == 8
  {
    match r
    case 0 => w0 + w1
    case 1 => w0[1..] + w1 + w2[..1]
    case 2 => w0[2..] + w1 + w2[..2]
    case 3 => w0[3..] + w1 + w2[..3]
    case 4 => w1 + w2
    case 5 => w1[1..] + w2 + w3[..1]
    case 6 => w1[2..] + w2 + w3[..2]
    case _ => w1[3..] + w2 + w3[..3]
  }

  function LoadQword(mem: nat -> Byte, tiptr: nat): (q: seq<Byte>)
    ensures |q| == 8
  {
    var i := 2 * (tiptr / 8);
    Combine(ReadWord(mem, i), ReadWord(mem, i + 1), ReadWord(mem, i + 2), ReadWord(mem, i + 3), tiptr % 8)
  }

  function Window(mem: nat -> Byte, from: nat): (w: seq<Byte>)
    ensures |w| == 16
  {
    seq(16, i requires 0 <= i => mem(from + i))
  }

  lemma WordsAreWindow(mem: nat -> Byte, b: nat)
    ensures var w := Window(mem, 8 * b);
      && ReadWord(mem, 2 * b) == w[..4] && ReadWord(mem, 2 * b + 1) == w[4..8]
      && ReadWord(mem, 2 * b + 2) == w[8..12] && ReadWord(mem, 2 * b + 3) == w[12..]
  {
  }

  lemma CombineLow(w0: WordBytes, w1: WordBytes, w2: WordBytes, w3: WordBytes, r: nat)
    requires r < 4
    ensures Combine(w0, w1, w2, w3, r) == (w0 + w1 + w2 + w3)[r..r + 8]
  {
    assert Combine(w0, w1, w2, w3, r) == w0[r..] + w1 + w2[..r];
  }

  lemma CombineHigh(w0: WordBytes, w1: WordBytes, w2: WordBytes, w3: WordBytes, r: nat)
    requires 4 <= r < 8
    ensures Combine(w0, w1, w2, w3, r) == (w0 + w1 + w2 + w3)[r..r + 8]
  {
    assert Combine(w0, w1, w2, w3, r) == w1[r - 4..] + w2 + w3[..r - 4];
  }

  lemma CombineSlices(w: seq<Byte>, r: nat)
    requires |w| == 16 && r < 8
    ensures Combine(w[..4], w[4..8], w[8..12], w[12..], r) == w[r..r + 8]
  {
    hide Combine;
    if r < 4 {
      CombineLow(w[..4], w[4..8], w[8..12], w[12..], r);
    } else {
      CombineHigh(w[..4], w[4..8], w[8..12], w[12..], r);
    }
    assert w[..4] + w[4..8] + w[8..12] + w[12..] == w;
  }

  lemma QwordIsWindow(mem: nat -> Byte, tiptr: nat)
    ensures LoadQword(mem, tiptr) == Window(mem, 8 * (tiptr / 8))[tiptr % 8..tiptr % 8 + 8]
  {
    hide Combine, Window, ReadWord;
    WordsAreWindow(mem, tiptr / 8);
    CombineSlices(Window(mem, 8 * (tiptr / 8)), tiptr % 8);
  }

  /** Whatever the alignment, they are the eight bytes at the pointer. */
  lemma QwordIsBytes(mem: nat -> Byte, tiptr: nat, k: nat)
    requires k < 8
    ensures LoadQword(mem, tiptr)[k] == mem(tiptr + k)
  {
    QwordIsWindow(mem, tiptr);
    hide LoadQword;
    assert tiptr == 8 * (tiptr / 8) + tiptr % 8;
  }

  function Join(hi: Byte, lo: Byte): Half { 256 * hi + lo }

  /** The halfwords of a doubleword: (uint16_t) (loadqword >> 48) and so on. */
  function Halves(q: seq<Byte>): Quad
    requires |q| == 8
  {
    [Join(q[0], q[1]), Join(q[2], q[3]), Join(q[4], q[5]), Join(q[6], q[7])]
  }

  /** idx | 0x400 when the high bit is set, then ^ WORD_ADDR_XOR. */
  function Slot(i: nat, hibit: bool): (p: nat)
    requires i < 0x400
    ensures p < HALVES
  {
    Xor1(if hibit then i + 0x400 else i)
  }

  /** The writes of case 2 of loading_pipeline. */
  function WriteQuad(tm: seq<Half>, r: Indices, dswap: bool, h: Quad): (tm': seq<Half>)
    requires |tm| == HALVES && r.a < 0x400 && r.b < 0x400 && r.c < 0x400 && r.d < 0x400
    ensures |tm'| == HALVES
  {
    var (h0, h1, h2, h3) := if dswap then (h[2], h[3], h[0], h[1]) else (h[0], h[1], h[2], h[3]);
    tm[Slot(r.a, r.hibit) := h0][Slot(r.b, r.hibit) := h1][Slot(r.c, r.hibit) := h2][Slot(r.d, r.hibit) := h3]
  }

  /** A doubleword of TMEM as texels: the host swaps the halfwords of each word,
      and odd lines swap its two words. */
  function Arranged(h: Quad, odd: bool): Quad {
    if odd then [h[3], h[2], h[1], h[0]] else [h[1], h[0], h[3], h[2]]
  }

  function WithGroup(tm: seq<Half>, q: nat, g: Quad): (tm': seq<Half>)
    requires |tm| == HALVES && q < 512
    ensures |tm'| == HALVES
  {
    tm[..4 * q] + g + tm[4 * q + 4..]
  }

  lemma GroupSlots(q: nat)
    requires q < 512
    ensures var r := GroupIndices(q);
      && Slot(r.a, r.hibit) == 4 * q + 1 && Slot(r.b, r.hibit) == 4 * q
      && Slot(r.c, r.hibit) == 4 * q + 3 && Slot(r.d, r.hibit) == 4 * q + 2
  {
    GroupBits(q, 0);
    GroupBits(q, 1);
    GroupBits(q, 2);
    GroupBits(q, 3);
  }

  /** Loading a doubleword writes one doubleword of TMEM. */
  lemma WriteIsGroup(tm: seq<Half>, odd: bool, h: Quad, q: nat)
    requires |tm| == HALVES && q < 512
    ensures WriteQuad(tm, GroupIndices(q), odd, h) == WithGroup(tm, q, Arranged(h, odd))
  {
    hide Slot, GroupIndices;
    GroupSlots(q);
  }

  // --------------------------------------------------------------- fetching

  /** The halfword index of a texel in fetch_texel, for a 16-bit format. */
  function TexelIndex(tile: Tile, s: nat, t: nat): (i: nat)
    ensures i < HALVES
  {
    var taddr := 4 * (tile.line * (t % 256) + tile.tmem) + s;
    (if t % 2 == 1 then Xor3(taddr) else Xor1(taddr)) % 0x800
  }

  function Fetch(tm: seq<Half>, tile: Tile, s: nat, t: nat): Half
    requires |tm| == HALVES
  {
    tm[TexelIndex(tile, s, t)]
  }

  // ---------------------------------------------------------- rows of a load

  /** The last texel of a line, span[i].lx: a line none of whose quarters is
      valid keeps the initial 0. */
  function SpanLast(tile: Tile): nat {
    if tile.tl / 4 == tile.th / 4 && tile.tl % 4 == 3 then 0 else tile.sh / 4
  }

  /** The doublewords of a row: the length is taken modulo 0x1000. */
  function Quads(tile: Tile): nat { ((SpanLast(tile) - tile.sl / 4 + 1) % 0x1000 + 3) / 4 }

  function Rows(tile: Tile): nat {
    if tile.th / 4 < tile.tl / 4 then 0 else tile.th / 4 - tile.tl / 4 + 1
  }

  /** tiptr at the start of a row of the tile. */
  function RowPointer(tile: Tile, img: Image, row: nat): nat {
    img.address + 2 * (img.width * (tile.tl / 4 + row) + tile.sl / 4)
  }

  function RowQuad(tile: Tile, img: Image, row: nat, k: nat): Quad {
    Halves(LoadQword(img.mem, RowPointer(tile, img, row) + 8 * k))
  }

  /** The coordinates that the loop keeps, 16 bits each: sss and sst before tc_pipeline_load. */
  function CoordS(tile: Tile, k: nat): nat { (8 * tile.sl + 128 * k) % 0x1_0000 }

  function CoordT(tile: Tile, row: nat): nat { (8 * tile.tl + 32 * row) % 0x1_0000 }

  /** One turn of the inner loop. */
  function LoadStep(tm: seq<Half>, tile: Tile, img: Image, row: nat, k: nat): (tm': seq<Half>)
    requires |tm| == HALVES
    ensures |tm'| == HALVES
  {
    var sss, sst := Relative(CoordS(tile, k), tile.sl), Relative(CoordT(tile, row), tile.tl);
    WriteQuad(tm, TmemIndices(tile, sss, sst), sst % 2 == 1, RowQuad(tile, img, row, k))
  }

  /** The first n doublewords of a row. */
  function LoadRow(tm: seq<Half>, tile: Tile, img: Image, row: nat, n: nat): (tm': seq<Half>)
    requires |tm| == HALVES
    ensures |tm'| == HALVES
  {
    if n == 0 then tm else LoadStep(LoadRow(tm, tile, img, row, n - 1), tile, img, row, n - 1)
  }

  /** The first n rows. */
  function LoadRows(tm: seq<Half>, tile: Tile, img: Image, n: nat): (tm': seq<Half>)
    requires |tm| == HALVES
    ensures |tm'| == HALVES
  {
    if n == 0 then tm else LoadRow(LoadRows(tm, tile, img, n - 1), tile, img, n - 1, Quads(tile))
  }

  // ------------------------------------------------------ where a quad lands

  /** The doubleword of TMEM for quad k of a row. */
  function Place(tile: Tile, row: nat, k: nat): (q: nat)
    ensures q < 512
  {
    (tile.line * row + tile.tmem + k) % 512
  }

  /** The 16-bit coordinate may wrap: the texel is right up to a multiple of 2048. */
  lemma RelativeTexel(low: nat, n: nat) returns (w: int)
    ensures Relative((8 * low + 32 * n) % 0x1_0000, low) == n - 2048 * w
  {
    var x := 8 * low + 32 * n;
    var y := x % 0x1_0000;
    var v := x / 0x1_0000;
    assert y % 0x1_0000 == y;
    w := if y < 0x8000 then v else v + 1;
    assert Sign16(y) - 8 * low == 32 * (n - 2048 * w);
  }

  lemma Modulo2048(a: int, w: int)
    ensures (a - 2048 * w) % 2048 == a % 2048
  {
  }

  lemma Parity(a: int, u: int)
    ensures (a - 2 * u) % 2 == a % 2
  {
  }

  lemma Modulo512(a: int, w: int)
    ensures (a - 512 * w) % 512 == a % 512
  {
  }

  lemma TimesFour(x: nat)
    ensures 4 * x % 0x800 == 4 * (x % 512)
  {
  }

  lemma LineModulo(line: nat, row: nat, v: int)
    ensures line * (row - 2048 * v) % 512 == line * row % 512
  {
    var u := 4 * v * line;
    assert line * (row - 2048 * v) == line * row - 512 * u;
    Modulo512(line * row, u);
  }

  lemma SumModulo(a: nat, m: nat, k: nat)
    ensures (4 * (a % 512 + m) + 4 * k % 0x800) % 0x800 == 4 * ((a + m + k) % 512)
  {
    TimesFour(k);
    var b := a % 512 + m + k % 512;
    TimesFour(b);
    assert b == a + m + k - 512 * (a / 512 + k / 512);
    Modulo512(a + m + k, a / 512 + k / 512);
  }

  lemma PlaceOfStep(tile: Tile, row: nat, k: nat)
    ensures var sss, sst := Relative(CoordS(tile, k), tile.sl), Relative(CoordT(tile, row), tile.tl);
      && sst % 2 == row % 2
      && (4 * (tile.line * sst % 512 + tile.tmem) + sss % 0x800) % 0x800 == 4 * Place(tile, row, k)
  {
    hide Relative;
    var w := RelativeTexel(tile.sl, 4 * k);
    var v := RelativeTexel(tile.tl, row);
    assert 128 * k == 32 * (4 * k);
    Modulo2048(4 * k, w);
    Parity(row, 1024 * v);
    LineModulo(tile.line, row, v);
    SumModulo(tile.line * row, tile.tmem, k);
  }

  /** One turn writes the doubleword of TMEM where the quad belongs. */
  lemma StepIsGroup(tm: seq<Half>, tile: Tile, img: Image, row: nat, k: nat)
    requires |tm| == HALVES
    ensures LoadStep(tm, tile, img, row, k) == WithGroup(tm, Place(tile, row, k), Arranged(RowQuad(tile, img, row, k), row % 2 == 1))
  {
    hide Relative, CoordS, CoordT, TmemIndices, WriteQuad, WithGroup, RowQuad, Place, Arranged, GroupIndices;
    PlaceOfStep(tile, row, k);
    var sss, sst := Relative(CoordS(tile, k), tile.sl), Relative(CoordT(tile, row), tile.tl);
    IndicesAreGroup(tile, sss, sst, Place(tile, row, k));
    WriteIsGroup(tm, row % 2 == 1, RowQuad(tile, img, row, k), Place(tile, row, k));
  }

  // ------------------------------------------------------- reading back a tile

  predicate IsQuad(tile: Tile, row: int, k: int) { 0 <= row < Rows(tile) && 0 <= k < Quads(tile) }

  /** No two quads of the tile share a doubleword of TMEM. */
  ghost predicate NoOverlap(tile: Tile) {
    forall t, k, t', k' :: IsQuad(tile, t, k) && IsQuad(tile, t', k') && Place(tile, t, k) == Place(tile, t', k') ==> t == t' && k == k'
  }

  function Group(tm: seq<Half>, q: nat): Quad
    requires |tm| == HALVES && q < 512
  {
    tm[4 * q..4 * q + 4]
  }

  lemma OtherGroup(tm: seq<Half>, q: nat, g: Quad, q': nat)
    requires |tm| == HALVES && q < 512 && q' < 512
    ensures Group(WithGroup(tm, q, g), q') == if q' == q then g else Group(tm, q')
  {
    var x, y := Group(WithGroup(tm, q, g), q'), if q' == q then g else Group(tm, q');
    forall n | 0 <= n < 4 ensures x[n] == y[n] {
    }
  }

  /** The texels of quad k of a row are in TMEM. */
  ghost predicate Holds(tm: seq<Half>, tile: Tile, img: Image, row: nat, k: nat)
    requires |tm| == HALVES
  {
    Group(tm, Place(tile, row, k)) == Arranged(RowQuad(tile, img, row, k), row % 2 == 1)
  }

  /** The order in which quads are loaded. */
  predicate Later(row: int, k: int, row': int, k': int) { row < row' || (row == row' && k < k') }

  /** No later quad of the tile goes to the same doubleword of TMEM. */
  ghost predicate IsLast(tile: Tile, row: nat, k: nat) {
    forall row', k' :: IsQuad(tile, row', k') && Later(row, k, row', k') ==> Place(tile, row', k') != Place(tile, row, k)
  }

  /** A turn writes its own quad, and no other doubleword. */
  lemma StepHolds(tm: seq<Half>, tile: Tile, img: Image, row: nat, k: nat, row': nat, k': nat)
    requires |tm| == HALVES
    requires if Place(tile, row, k) == Place(tile, row', k') then row == row' && k == k' else Holds(tm, tile, img, row', k')
    ensures Holds(LoadStep(tm, tile, img, row, k), tile, img, row', k')
  {
    hide LoadStep, RowQuad, Place, Arranged, WithGroup, Group;
    StepIsGroup(tm, tile, img, row, k);
    OtherGroup(tm, Place(tile, row, k), Arranged(RowQuad(tile, img, row, k), row % 2 == 1), Place(tile, row', k'));
  }

  lemma {:induction false} RowHolds(tm: seq<Half>, tile: Tile, img: Image, row: nat, n: nat, row': nat, k': nat)
    requires |tm| == HALVES && IsLast(tile, row', k') && row' <= row < Rows(tile) && n <= Quads(tile)
    requires if row' == row then k' < n else Holds(tm, tile, img, row', k')
    ensures Holds(LoadRow(tm, tile, img, row, n), tile, img, row', k')
    decreases n
  {
    hide Holds, LoadStep, Quads, Rows, Place;
    if n > 0 {
      if row' != row || k' != n - 1 {
        RowHolds(tm, tile, img, row, n - 1, row', k');
        assert IsQuad(tile, row, n - 1) && Later(row', k', row, n - 1);
      }
      StepHolds(LoadRow(tm, tile, img, row, n - 1), tile, img, row, n - 1, row', k');
    }
  }

  /** The last quad that goes to a doubleword stays there. */
  lemma {:induction false} RowsHold(tm: seq<Half>, tile: Tile, img: Image, n: nat, row: nat, k: nat)
    requires |tm| == HALVES && IsLast(tile, row, k) && n <= Rows(tile) && IsQuad(tile, row, k) && row < n
    ensures Holds(LoadRows(tm, tile, img, n), tile, img, row, k)
    decreases n
  {
    hide Holds, LoadRow, IsLast, Quads, Rows;
    if row < n - 1 {
      RowsHold(tm, tile, img, n - 1, row, k);
    }
    RowHolds(LoadRows(tm, tile, img, n - 1), tile, img, n - 1, Quads(tile), row, k);
  }

  /** Where fetch_texel finds texel n of quad k. */
  lemma TexelInGroup(tile: Tile, k: nat, n: nat, t: nat)
    requires n < 4 && t < 256
    ensures TexelIndex(tile, 4 * k + n, t) == 4 * Place(tile, t, k) + (if t % 2 == 1 then Xor3(n) else Xor1(n))
  {
    var x := tile.line * t + tile.tmem + k;
    assert t % 256 == t;
    LowBits(x, n);
    hide Xor1, Xor3;
    assert 4 * (tile.line * t + tile.tmem) + (4 * k + n) == 4 * x + n;
    PlaceInTmem(x, if t % 2 == 1 then Xor3(n) else Xor1(n));
  }

  lemma PlaceInTmem(x: nat, m: nat)
    requires m < 4
    ensures (4 * x + m) % 0x800 == 4 * (x % 512) + m
  {
    var q, r := x / 512, x % 512;
    assert 4 * x + m == 4 * r + m + 2048 * q;
    Modulo2048(4 * x + m, q);
  }

  lemma BitsOf(x: nat, n: nat)
    requires n < 4
    ensures (4 * x + n) % 4 == n
  {
  }

  lemma LowBits(x: nat, n: nat)
    requires n < 4
    ensures Xor3(4 * x + n) == 4 * x + Xor3(n) && Xor1(4 * x + n) == 4 * x + Xor1(n) && Xor1(n) < 4 && Xor3(n) < 4
  {
    BitsOf(x, n);
    Parity(4 * x + n, 2 * x);
    var m := Xor2(n);
    assert Xor2(4 * x + n) == 4 * x + m;
    Parity(4 * x + m, 2 * x);
  }

  /** The byte address of a texel of the tile in the image. */
  function SourceAddress(tile: Tile, img: Image, s: nat, t: nat): nat {
    img.address + 2 * (img.width * (tile.tl / 4 + t) + tile.sl / 4 + s)
  }

  lemma HalfOfQuad(tile: Tile, img: Image, t: nat, k: nat, n: nat)
    requires n < 4
    ensures var a := SourceAddress(tile, img, 4 * k + n, t);
      RowQuad(tile, img, t, k)[n] == Join(img.mem(a), img.mem(a + 1))
  {
    hide LoadQword;
    var p := RowPointer(tile, img, t) + 8 * k;
    assert SourceAddress(tile, img, 4 * k + n, t) == p + 2 * n;
    QwordIsBytes(img.mem, p, 2 * n);
    QwordIsBytes(img.mem, p, 2 * n + 1);
  }

  /** The texel of the tile is its halfword of the image. */
  predicate ReadsBack(tm: seq<Half>, tile: Tile, img: Image, s: nat, t: nat)
    requires |tm| == HALVES
  {
    var a := SourceAddress(tile, img, s, t);
    Fetch(LoadRows(tm, tile, img, Rows(tile)), tile, s, t) == Join(img.mem(a), img.mem(a + 1))
  }

  lemma LastReadsBack(tm: seq<Half>, tile: Tile, img: Image, s: nat, t: nat)
    requires |tm| == HALVES && IsQuad(tile, t, s / 4) && IsLast(tile, t, s / 4) && t < 256
    ensures ReadsBack(tm, tile, img, s, t)
  {
    hide LoadRows, IsLast, Quads, Rows, TexelIndex, RowQuad, SourceAddress, Place, Join;
    var k, n := s / 4, s % 4;
    RowsHold(tm, tile, img, Rows(tile), t, k);
    TexelInGroup(tile, k, n, t);
    HalfOfQuad(tile, img, t, k, n);
  }

  /** After Load_Tile, every texel fetched from a tile that does not overlap
      itself is its halfword of the image: the bank sorting, the swap of odd
      lines and the host's order on loading cancel those on fetching, for any
      alignment of the image. */
  lemma TileReadsBack(tm: seq<Half>, tile: Tile, img: Image, s: nat, t: nat)
    requires |tm| == HALVES && NoOverlap(tile) && t < Rows(tile) && t < 256 && s < 4 * Quads(tile)
    ensures var a := SourceAddress(tile, img, s, t);
      Fetch(LoadRows(tm, tile, img, Rows(tile)), tile, s, t) == Join(img.mem(a), img.mem(a + 1))
  {
    hide LoadRows, Quads, Rows, TexelIndex, SourceAddress, Place, Join;
    LastReadsBack(tm, tile, img, s, t);
  }

  /** No quad overlaps another exactly when every quad is the last of its doubleword. */
  lemma NoOverlapMeansLast(tile: Tile)
    ensures NoOverlap(tile) <==> forall t: nat, k: nat :: IsQuad(tile, t, k) ==> IsLast(tile, t, k)
  {
    hide Quads, Rows, Place;
    if forall t: nat, k: nat :: IsQuad(tile, t, k) ==> IsLast(tile, t, k) {
      forall t: nat, k: nat, t': nat, k': nat | IsQuad(tile, t, k) && IsQuad(tile, t', k') && Place(tile, t, k) == Place(tile, t', k')
        ensures t == t' && k == k'
      {
        assert IsLast(tile, t, k) && IsLast(tile, t', k');
        assert !Later(t, k, t', k') && !Later(t', k', t, k);
      }
    }
  }

  lemma Spaced(line: nat, t: nat, t': nat)
    requires t < t'
    ensures line * t + line <= line * t'
  {
    assert line * t' == line * t + line * (t' - t);
    assert line * (t' - t) == line + line * (t' - t - 1);
  }

  lemma PlaceSum(tile: Tile, t: nat, k: nat)
    ensures Place(tile, t, k) == (tile.line * t + k + tile.tmem) % 512
  {
  }

  lemma SamePlace(tile: Tile, t: nat, k: nat, t': nat, k': nat)
    requires Quads(tile) <= tile.line && Rows(tile) > 0 && tile.line * (Rows(tile) - 1) + Quads(tile) <= 512
    requires IsQuad(tile, t, k) && IsQuad(tile, t', k') && Place(tile, t, k) == Place(tile, t', k')
    ensures t == t' && k == k'
  {
    hide Quads, Rows, Place;
    InTmem(tile, t, k);
    InTmem(tile, t', k');
    SameOffset(tile, t, k, t', k');
    SameRow(tile.line, t, k, t', k');
  }

  lemma SameOffset(tile: Tile, t: nat, k: nat, t': nat, k': nat)
    requires tile.line * t + k < 512 && tile.line * t' + k' < 512 && Place(tile, t, k) == Place(tile, t', k')
    ensures tile.line * t + k == tile.line * t' + k'
  {
    hide Place;
    PlaceSum(tile, t, k);
    PlaceSum(tile, t', k');
    SameModulo(tile.line * t + k, tile.line * t' + k', tile.tmem);
  }

  lemma SameRow(line: nat, t: nat, k: nat, t': nat, k': nat)
    requires line * t + k == line * t' + k' && k < line && k' < line
    ensures t == t' && k == k'
  {
    if t < t' {
      Spaced(line, t, t');
    } else if t' < t {
      Spaced(line, t', t);
    }
  }

  lemma InTmem(tile: Tile, t: nat, k: nat)
    requires IsQuad(tile, t, k) && tile.line * (Rows(tile) - 1) + Quads(tile) <= 512
    ensures tile.line * t + k < 512
  {
    hide Quads, Rows;
    if t < Rows(tile) - 1 {
      Spaced(tile.line, t, Rows(tile) - 1);
    }
  }

  lemma SameModulo(a: nat, b: nat, m: nat)
    requires a < 512 && b < 512 && (a + m) % 512 == (b + m) % 512
    ensures a == b
  {
  }

  /** A tile overlaps nothing when its rows fit in their lines and the last row ends before TMEM does. */
  lemma FittingTile(tile: Tile)
    requires Quads(tile) <= tile.line && Rows(tile) > 0 && tile.line * (Rows(tile) - 1) + Quads(tile) <= 512
    ensures NoOverlap(tile)
  {
    hide Quads, Rows, Place;
    forall t: nat, k: nat, t': nat, k': nat | IsQuad(tile, t, k) && IsQuad(tile, t', k') && Place(tile, t, k) == Place(tile, t', k')
      ensures t == t' && k == k'
    {
      SamePlace(tile, t, k, t', k');
    }
  }

  // ------------------------------------------------- a tile that overlaps itself

  const BLANK: Quad := [0, 0, 0, 0]

  /** The quad that a doubleword of TMEM holds in the end. */
  lemma LastOfPlace(tile: Tile, t: nat, k: nat) returns (t': nat, k': nat)
    requires IsQuad(tile, t, k)
    ensures IsQuad(tile, t', k') && Place(tile, t', k') == Place(tile, t, k) && IsLast(tile, t', k')
    ensures !IsLast(tile, t, k) ==> Later(t, k, t', k')
    decreases Rows(tile) - t, Quads(tile) - k
  {
    hide Quads, Rows, Place;
    t', k' := t, k;
    if !IsLast(tile, t, k) {
      var row: nat, j: nat :| IsQuad(tile, row, j) && Later(t, k, row, j) && Place(tile, row, j) == Place(tile, t, k);
      t', k' := LastOfPlace(tile, row, j);
    }
  }

  /** An image with eight bytes of ones. */
  function OneBlock(width: nat, p: nat): Image {
    Image(0, width, a => if p <= a % RAM_SIZE < p + 8 then 1 else 0)
  }

  /** Where a quad starts in an image at address 0, in units of eight bytes. */
  function Block(width: nat, row: nat, k: nat): nat { width / 4 * row + k }

  lemma RowFits(tile: Tile)
    ensures Quads(tile) <= 0x400
  {
  }

  lemma PointerIsBlock(tile: Tile, width: nat, mem: nat -> Byte, row: nat, k: nat)
    requires tile.Valid() && IsQuad(tile, row, k) && width in {0x3FC, 0x400}
    ensures RowPointer(tile, Image(0, width, mem), row) + 8 * k == 8 * Block(width, tile.tl / 4 + row, k) + 2 * (tile.sl / 4)
    ensures 8 * Block(width, tile.tl / 4 + row, k) + 2 * (tile.sl / 4) + 8 <= RAM_SIZE
  {
    RowFits(tile);
    var r := tile.tl / 4 + row;
    assert r < 0x400 && tile.sl / 4 < 0x400 && k < 0x400;
    hide Quads, Rows;
    if width == 0x400 {
    } else {
      assert width == 0x3FC;
    }
  }

  /** Of these two widths, one keeps two quads apart. */
  lemma ApartWidth(r: nat, k: nat, r': nat, k': nat) returns (width: nat)
    requires r != r' || k != k'
    ensures width in {0x3FC, 0x400} && Block(width, r, k) != Block(width, r', k')
  {
    width := if Block(0x400, r, k) != Block(0x400, r', k') then 0x400 else 0x3FC;
    if width == 0x3FC {
      assert 0x3FC / 4 == 255 && 0x400 / 4 == 256;
      assert 256 * r + k == 256 * r' + k';
    }
  }

  lemma BlankQuad(mem: nat -> Byte, p: nat)
    requires forall a: nat :: p <= a < p + 8 ==> mem(a) == 0
    ensures Halves(LoadQword(mem, p)) == BLANK
  {
    hide LoadQword;
    forall b: nat | b < 8 ensures LoadQword(mem, p)[b] == 0 {
      QwordIsBytes(mem, p, b);
    }
  }

  lemma OneBlockBytes(width: nat, b: nat, b': nat, low: nat, n: nat)
    requires b != b' && n < 8 && 8 * b + low + 8 <= RAM_SIZE && 8 * b' + low + 8 <= RAM_SIZE
    ensures var mem := OneBlock(width, 8 * b + low).mem; mem(8 * b + low + n) == 1 && mem(8 * b' + low + n) == 0
  {
    assert (8 * b + low + n) % RAM_SIZE == 8 * b + low + n && (8 * b' + low + n) % RAM_SIZE == 8 * b' + low + n;
  }

  lemma OneBlockValid(width: nat, p: nat)
    requires 1 <= width <= 0x400
    ensures OneBlock(width, p).Valid()
  {
    forall a: nat ensures OneBlock(width, p).mem(a) == OneBlock(width, p).mem(a % RAM_SIZE) {
      assert a % RAM_SIZE % RAM_SIZE == a % RAM_SIZE;
    }
  }

  lemma FetchBlank(tm: seq<Half>, tile: Tile, s: nat, t: nat)
    requires |tm| == HALVES && t < 256 && Group(tm, Place(tile, t, s / 4)) == BLANK
    ensures Fetch(tm, tile, s, t) == 0
  {
    hide Place, TexelIndex;
    var k, n := s / 4, s % 4;
    TexelInGroup(tile, k, n, t);
    var q, m := Place(tile, t, k), if t % 2 == 1 then Xor3(n) else Xor1(n);
    assert Group(tm, q)[m] == tm[4 * q + m];
  }

  /** An image that a tile loses where two of its quads share a doubleword. */
  lemma OverlapLosesTexel(tm: seq<Half>, tile: Tile, s: nat, t: nat) returns (img: Image)
    requires |tm| == HALVES && tile.Valid() && IsQuad(tile, t, s / 4) && t < 256 && !IsLast(tile, t, s / 4)
    ensures img.Valid() && !ReadsBack(tm, tile, img, s, t)
  {
    hide LoadRows, Rows, Quads, Place, TexelIndex, OneBlock, LoadQword, Halves, Block, IsLast, Group, RowPointer, SourceAddress;
    var k := s / 4;
    var t', k' := LastOfPlace(tile, t, k);
    var low, r, r' := 2 * (tile.sl / 4), tile.tl / 4 + t, tile.tl / 4 + t';
    var width := ApartWidth(r, k, r', k');
    var b, b' := Block(width, r, k), Block(width, r', k');
    img := OneBlock(width, 8 * b + low);
    OneBlockValid(width, 8 * b + low);
    BlockImage(width, 8 * b + low);
    PointerIsBlock(tile, width, img.mem, t, k);
    PointerIsBlock(tile, width, img.mem, t', k');
    forall a: nat | 8 * b' + low <= a < 8 * b' + low + 8 ensures img.mem(a) == 0 {
      OneBlockBytes(width, b, b', low, a - (8 * b' + low));
    }
    BlankQuad(img.mem, 8 * b' + low);
    RowsHold(tm, tile, img, Rows(tile), t', k');
    FetchBlank(LoadRows(tm, tile, img, Rows(tile)), tile, s, t);
    SourceInBlock(tile, img, s, t);
    OneBlockBytes(width, b, b', low, 2 * (s % 4));
  }

  lemma BlockImage(width: nat, p: nat)
    ensures OneBlock(width, p) == Image(0, width, OneBlock(width, p).mem)
  {
  }

  lemma SourceInBlock(tile: Tile, img: Image, s: nat, t: nat)
    ensures SourceAddress(tile, img, s, t) == RowPointer(tile, img, t) + 8 * (s / 4) + 2 * (s % 4)
  {
  }

  /** A texel reads back from every image exactly when no later quad of its tile
      goes to its doubleword. */
  lemma TexelReadsBackExactly(tm: seq<Half>, tile: Tile, s: nat, t: nat)
    requires |tm| == HALVES && tile.Valid() && IsQuad(tile, t, s / 4) && t < 256
    ensures (forall img: Image :: img.Valid() ==> ReadsBack(tm, tile, img, s, t)) <==> IsLast(tile, t, s / 4)
  {
    hide ReadsBack, IsLast;
    if IsLast(tile, t, s / 4) {
      forall img: Image | img.Valid() ensures ReadsBack(tm, tile, img, s, t) {
        LastReadsBack(tm, tile, img, s, t);
      }
    } else {
      var img := OverlapLosesTexel(tm, tile, s, t);
    }
  }
}
