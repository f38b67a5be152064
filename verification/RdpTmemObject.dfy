/** The loops of Load_Tile: the edge walk that fills the spans, and the loading
    of each span into texture memory. */
module RdpTmemObject {
  import opened RdpTmem

  const SPANS := 1024

  /** The quarter-line of the tile's bottom: th | 3. */
  function Bottom(tile: Tile): nat { tile.th - tile.th % 4 + 3 }

  /** Whether some quarter of line i before quarter k is valid. */
  predicate SeenValid(tile: Tile, i: nat, k: nat) {
    4 * i < k && 4 * i < Bottom(tile) && tile.tl < k && tile.tl < Bottom(tile)
  }

  lemma SpanIsLast(tile: Tile, i: nat)
    requires tile.tl / 4 <= i <= tile.th / 4
    ensures (if SeenValid(tile, i, 4 * i + 4) then tile.sh / 4 else 0) == SpanLast(tile)
  {
  }

  lemma SeenNext(tile: Tile, i: nat, k: nat)
    requires k / 4 == i
    ensures SeenValid(tile, i, k + 1) <==> (k % 4 != 0 && SeenValid(tile, i, k)) || tile.tl <= k < Bottom(tile)
  {
  }

  lemma FirstCoordT(tile: Tile)
    requires tile.Valid()
    ensures CoordT(tile, 0) == 8 * tile.tl
  {
  }

  lemma NextCoordT(tile: Tile, row: nat)
    ensures (CoordT(tile, row) + 32) % 0x1_0000 == CoordT(tile, row + 1)
  {
  }

  lemma RowStarts(tm: seq<Half>, tile: Tile, img: Image, row: nat)
    requires |tm| == HALVES
    ensures CoordS(tile, 0) == 8 * tile.sl % 0x1_0000 && LoadRow(tm, tile, img, row, 0) == tm
    ensures RowPointer(tile, img, row) == img.address + 2 * (img.width * (tile.tl / 4 + row) + tile.sl / 4)
  {
  }

  lemma NextQuad(tm: seq<Half>, tile: Tile, img: Image, row: nat, k: nat)
    requires |tm| == HALVES
    ensures CoordS(tile, k + 1) == (CoordS(tile, k) + 128) % 0x1_0000
    ensures var sss, sst := Relative(CoordS(tile, k), tile.sl), Relative(CoordT(tile, row), tile.tl);
      LoadRow(tm, tile, img, row, k + 1) == WriteQuad(LoadRow(tm, tile, img, row, k), TmemIndices(tile, sss, sst), sst % 2 == 1,
        Halves(LoadQword(img.mem, RowPointer(tile, img, row) + 8 * k)))
  {
    hide Relative, TmemIndices, WriteQuad, Halves, LoadQword;
  }

  class TextureMemory {
    const tmem: array<Half>
    const lx: array<nat>
    const ts: array<nat>

    ghost predicate Valid() { tmem.Length == HALVES && lx.Length == SPANS && ts.Length == SPANS && lx != ts }

    constructor ()
      ensures Valid() && fresh(tmem) && fresh(lx) && fresh(ts)
    {
      tmem := new Half[HALVES](_ => 0);
      lx := new nat[SPANS](_ => 0);
      ts := new nat[SPANS](_ => 0);
    }

    /** edgewalker_for_loads: the last texel and the t coordinate of every line of the tile. */
    method WalkEdges(tile: Tile)
      requires Valid() && tile.Valid()
      modifies lx, ts
      ensures forall i :: tile.tl / 4 <= i <= tile.th / 4 ==> lx[i] == SpanLast(tile) && ts[i] == CoordT(tile, i - tile.tl / 4)
    {
      FirstCoordT(tile);
      hide SpanLast, SeenValid, CoordT;
      var k: nat := tile.tl - tile.tl % 4;
      var bottom := Bottom(tile);
      var t := 8 * tile.tl;
      var max := 0;
      while k <= bottom
        invariant tile.tl / 4 <= k / 4 && k <= 4096 && (k > tile.tl ==> k <= bottom + 1)
        invariant t == CoordT(tile, k / 4 - tile.tl / 4)
        invariant k % 4 != 0 ==> ts[k / 4] == t && max == if SeenValid(tile, k / 4, k) then tile.sh / 4 else 0
        invariant forall i :: tile.tl / 4 <= i < k / 4 ==> lx[i] == SpanLast(tile) && ts[i] == CoordT(tile, i - tile.tl / 4)
        decreases bottom + 1 - k
      {
        var j, spix := k / 4, k % 4;
        if spix == 0 {
          max := 0;
        }
        if tile.tl <= k < bottom {
          max := if tile.sh / 4 > max then tile.sh / 4 else max;
        }
        if spix == 0 {
          ts[j] := t;
        }
        SeenNext(tile, j, k);
        if spix == 3 {
          SpanIsLast(tile, j);
          NextCoordT(tile, j - tile.tl / 4);
          lx[j] := max;
          t := (t + 32) % 0x1_0000;
        }
        k := k + 1;
      }
    }

    /** The inner loop of loading_pipeline, on one span. */
    method LoadSpan(tile: Tile, img: Image, row: nat, length: nat, t: nat)
      requires Valid() && (length + 3) / 4 == Quads(tile) && t == CoordT(tile, row)
      modifies tmem
      ensures tmem[..] == LoadRow(old(tmem[..]), tile, img, row, Quads(tile))
    {
      hide Relative, TmemIndices, WriteQuad, Halves, LoadQword, Quads, CoordS, CoordT, LoadRow, LoadStep, RowPointer;
      RowStarts(old(tmem[..]), tile, img, row);
      var tiptr := img.address + 2 * (img.width * (tile.tl / 4 + row) + tile.sl / 4);
      var s := 8 * tile.sl % 0x1_0000;
      var j := 0;
      ghost var k: nat := 0;
      while j < length
        invariant j == 4 * k && k <= Quads(tile) && (j >= length ==> k == Quads(tile))
        invariant s == CoordS(tile, k) && tiptr == RowPointer(tile, img, row) + 8 * k
        invariant tmem[..] == LoadRow(old(tmem[..]), tile, img, row, k)
      {
        var sss, sst := Relative(s, tile.sl), Relative(t, tile.tl);
        StoreQuad(TmemIndices(tile, sss, sst), sst % 2 == 1, Halves(LoadQword(img.mem, tiptr)));
        NextQuad(old(tmem[..]), tile, img, row, k);
        s := (s + 128) % 0x1_0000;
        tiptr := tiptr + 8;
        j, k := j + 4, k + 1;
      }
    }

    /** The four stores of case 2. */
    method StoreQuad(r: Indices, dswap: bool, h: Quad)
      requires Valid() && r.a < 0x400 && r.b < 0x400 && r.c < 0x400 && r.d < 0x400
      modifies tmem
      ensures tmem[..] == WriteQuad(old(tmem[..]), r, dswap, h)
    {
      hide Slot;
      if !dswap {
        tmem[Slot(r.a, r.hibit)] := h[0];
        tmem[Slot(r.b, r.hibit)] := h[1];
        tmem[Slot(r.c, r.hibit)] := h[2];
        tmem[Slot(r.d, r.hibit)] := h[3];
      } else {
        tmem[Slot(r.a, r.hibit)] := h[2];
        tmem[Slot(r.b, r.hibit)] := h[3];
        tmem[Slot(r.c, r.hibit)] := h[0];
        tmem[Slot(r.d, r.hibit)] := h[1];
      }
    }

    /** rdp_load_tile. */
    method LoadTile(tile: Tile, img: Image)
      requires Valid() && tile.Valid()
      modifies tmem, lx, ts
      ensures tmem[..] == LoadRows(old(tmem[..]), tile, img, Rows(tile))
    {
      hide LoadRow, CoordT, SpanLast;
      WalkEdges(tile);
      var i := tile.tl / 4;
      while i <= tile.th / 4
        invariant tile.tl / 4 <= i && (i > tile.tl / 4 ==> i <= tile.th / 4 + 1)
        invariant forall n :: tile.tl / 4 <= n <= tile.th / 4 ==> lx[n] == SpanLast(tile) && ts[n] == CoordT(tile, n - tile.tl / 4)
        invariant tmem[..] == LoadRows(old(tmem[..]), tile, img, i - tile.tl / 4)
      {
        var length := (lx[i] - tile.sl / 4 + 1) % 0x1000;
        LoadSpan(tile, img, i - tile.tl / 4, length, ts[i]);
        i := i + 1;
      }
    }
  }
}
