/** The sub-pixel coverage of a scanline: compute_cvg_flip and
    compute_cvg_noflip of rdp/n64video.c.

    A pixel has eight samples, two on each of four sub-scanlines, and a byte of
    coverage has one bit for each.  The reference is geometric: a sample is
    covered when its sub-scanline is valid and it lies between the edges. */
module RdpCoverage {

  // --------------------------------------------------------- the reference

  /** The sub-scanline of a bit, and the place of its sample in the pixel, in quarters. */
  function Sub(n: nat): (i: nat)
    requires n < 8
    ensures i < 4
  {
    if n >= 4 then (7 - n) % 2 else 2 + (3 - n) % 2
  }

  function Place(n: nat): (s: nat)
    requires n < 8
    ensures s < 4
  {
    if n >= 4 then 7 - n else 3 - n
  }

  /** One sub-scanline: its edges in eighths of a pixel, and whether it is valid. */
  datatype Edges = Edges(left: nat, right: nat, valid: bool)

  type Scanline = e: seq<Edges> | |e| == 4 witness seq(4, _ => Edges(0, 0, false))

  /** The sample of bit n of pixel k is between the edges of its sub-scanline. */
  predicate Covered(e: Scanline, k: nat, n: nat)
    requires n < 8
  {
    var x := 8 * k + 2 * Place(n);
    e[Sub(n)].valid && e[Sub(n)].left <= x < e[Sub(n)].right
  }

  // ---------------------------------------------------------- bytes and bits

  function Bit(b: bv8, n: nat): bool
    requires n < 8
  {
    b & Unit(n) != 0
  }

  function Unit(n: nat): bv8
    requires n < 8
  {
    match n
    case 0 => 1
    case 1 => 2
    case 2 => 4
    case 3 => 8
    case 4 => 16
    case 5 => 32
    case 6 => 64
    case _ => 128
  }

  function And(a: bv8, b: bv8): bv8 { a & b }

  function Or(a: bv8, b: bv8): bv8 { a | b }

  function Without(a: bv8, b: bv8): bv8 { a & !b }

  lemma BitOfAnd(a: bv8, b: bv8, n: nat)
    requires n < 8
    ensures Bit(And(a, b), n) <==> Bit(a, n) && Bit(b, n)
  {
  }

  lemma BitOfOr(a: bv8, b: bv8, n: nat)
    requires n < 8
    ensures Bit(Or(a, b), n) <==> Bit(a, n) || Bit(b, n)
  {
  }

  lemma BitOfWithout(a: bv8, b: bv8, n: nat)
    requires n < 8
    ensures Bit(Without(a, b), n) <==> Bit(a, n) && !Bit(b, n)
  {
  }

  // ------------------------------------------------------------- the masks

  /** fmask and maskshift of sub-scanline i. */
  function Fmask(i: nat): bv8 { if i % 2 == 0 then 0xA else 0x5 }

  function MaskShift(i: nat): nat { if i < 2 then 4 else 0 }

  /** covered = ((x & 7) + 1) >> 1. */
  function Partial(x: nat): (c: nat)
    ensures c <= 4
  {
    (x % 8 + 1) / 2
  }

  /** leftcvghex and rightcvghex, moved to the nibble of the sub-scanline. */
  function LeftMask(x: nat, i: nat): bv8 { ((0xF >> Partial(x)) & Fmask(i)) << MaskShift(i) }

  function RightMask(x: nat, i: nat): bv8 { ((0xF0 >> Partial(x)) & Fmask(i)) << MaskShift(i) }

  function FullMask(i: nat): bv8 { Fmask(i) << MaskShift(i) }

  lemma FullBits(i: nat, n: nat)
    requires i < 4 && n < 8
    ensures Bit(FullMask(i), n) <==> Sub(n) == i
  {
  }

  lemma LeftBits(x: nat, i: nat, n: nat)
    requires i < 4 && n < 8
    ensures Bit(LeftMask(x, i), n) <==> Sub(n) == i && x % 8 <= 2 * Place(n)
  {
  }

  lemma RightBits(x: nat, i: nat, n: nat)
    requires i < 4 && n < 8
    ensures Bit(RightMask(x, i), n) <==> Sub(n) == i && 2 * Place(n) < x % 8
  {
  }

  // --------------------------------------------------------------- the pixel

  /** The edge masks that a sub-scanline adds to a pixel: the left edge's, the
      right edge's, or their intersection. */
  function EdgeMask(left: nat, right: nat, i: nat, k: nat): bv8 {
    if right / 8 > left / 8 then (if k == left / 8 then LeftMask(left, i) else if k == right / 8 then RightMask(right, i) else 0)
    else if right / 8 == left / 8 && k == right / 8 then And(LeftMask(left, i), RightMask(right, i))
    else 0
  }

  /** What one sub-scanline does to a pixel: the pixels up to the left edge and
      from the right edge on lose its samples, and the edge pixels get theirs. */
  function SubScanline(b: bv8, e: Edges, i: nat, k: nat): bv8 {
    if !e.valid then Without(b, FullMask(i))
    else
      var c := if k <= e.left / 8 || k >= e.right / 8 then Without(b, FullMask(i)) else b;
      Or(c, EdgeMask(e.left, e.right, i, k))
  }

  /** The coverage of a pixel after the first i sub-scanlines. */
  function Pixel(e: Scanline, k: nat, i: nat): bv8
    requires i <= 4
  {
    if i == 0 then 0xFF else SubScanline(Pixel(e, k, i - 1), e[i - 1], i - 1, k)
  }

  lemma NoBits(n: nat)
    requires n < 8
    ensures !Bit(0, n) && Bit(0xFF, n)
  {
  }

  /** The edge masks hold the samples between the edges. */
  lemma EdgeBits(left: nat, right: nat, i: nat, k: nat, n: nat)
    requires i < 4 && n < 8
    ensures Bit(EdgeMask(left, right, i, k), n) <==>
      (Sub(n) == i && left <= 8 * k + 2 * Place(n) < right && (k == left / 8 || k == right / 8))
  {
    hide Bit, LeftMask, RightMask, And, Sub, Place;
    NoBits(n);
    LeftBits(left, i, n);
    RightBits(right, i, n);
    BitOfAnd(LeftMask(left, i), RightMask(right, i), n);
  }

  lemma SubScanlineBits(b: bv8, e: Edges, i: nat, k: nat, n: nat)
    requires i < 4 && n < 8
    requires Sub(n) == i ==> Bit(b, n)
    ensures Bit(SubScanline(b, e, i, k), n) <==>
      if Sub(n) == i then e.valid && e.left <= 8 * k + 2 * Place(n) < e.right else Bit(b, n)
  {
    hide Bit, FullMask, EdgeMask, Without, Or, Sub;
    FullBits(i, n);
    BitOfWithout(b, FullMask(i), n);
    EdgeBits(e.left, e.right, i, k, n);
    var c := if k <= e.left / 8 || k >= e.right / 8 then Without(b, FullMask(i)) else b;
    BitOfOr(c, EdgeMask(e.left, e.right, i, k), n);
  }

  lemma {:induction false} PixelBits(e: Scanline, k: nat, i: nat, n: nat)
    requires i <= 4 && n < 8
    ensures Bit(Pixel(e, k, i), n) <==> (Sub(n) < i ==> Covered(e, k, n))
  {
    hide Bit, SubScanline, Sub, Place;
    if i == 0 {
      NoBits(n);
    } else {
      PixelBits(e, k, i - 1, n);
      SubScanlineBits(Pixel(e, k, i - 1), e[i - 1], i - 1, k, n);
    }
  }

  /** The coverage byte of a pixel has exactly the samples between the edges. */
  lemma CoverageIsGeometric(e: Scanline, k: nat, n: nat)
    requires n < 8
    ensures Bit(Pixel(e, k, 4), n) <==> Covered(e, k, n)
  {
    PixelBits(e, k, 4, n);
  }

  // ----------------------------------------------------------- the scanlines

  /** span[scanline]: the outermost pixels, and the edges of the sub-scanlines. */
  datatype Span = Span(lx: nat, rx: nat, minorx: seq<nat>, majorx: seq<nat>, invaly: seq<bool>) {
    ghost predicate Valid(size: nat) {
      && |minorx| == 4 && |majorx| == 4 && |invaly| == 4 && lx < size && rx < size
      && forall i :: 0 <= i < 4 && !invaly[i] ==> minorx[i] / 8 < size && majorx[i] / 8 < size
    }
  }

  /** A flipped span has its major edge on the left. */
  function EdgesOf(s: Span, flip: bool): Scanline
    requires |s.minorx| == 4 && |s.majorx| == 4 && |s.invaly| == 4
  {
    seq(4, i requires 0 <= i < 4 =>
      if flip then Edges(s.majorx[i], s.minorx[i], !s.invaly[i]) else Edges(s.minorx[i], s.majorx[i], !s.invaly[i]))
  }

  /** The edges of the valid sub-scanlines are inside the span. */
  predicate Inside(e: Scanline, start: nat, end: nat) {
    forall i :: 0 <= i < 4 && e[i].valid ==> start <= e[i].left / 8 <= end && start <= e[i].right / 8 <= end
  }

  class Coverage {
    const cvgbuf: array<bv8>

    constructor (size: nat)
      ensures cvgbuf.Length == size && fresh(cvgbuf)
    {
      cvgbuf := new bv8[size](_ => 0);
    }

    /** The loops that take the samples of a sub-scanline from a range of pixels. */
    method Purge(from: nat, to: nat, mask: bv8)
      requires to < cvgbuf.Length
      modifies cvgbuf
      ensures forall k :: 0 <= k < cvgbuf.Length ==>
        cvgbuf[k] == if from <= k <= to then Without(old(cvgbuf[k]), mask) else old(cvgbuf[k])
    {
      hide Without;
      var k := from;
      while k <= to
        invariant from <= k && (k > from ==> k <= to + 1)
        invariant forall j :: 0 <= j < cvgbuf.Length ==>
          cvgbuf[j] == if from <= j < k then Without(old(cvgbuf[j]), mask) else old(cvgbuf[j])
      {
        cvgbuf[k] := Without(cvgbuf[k], mask);
        k := k + 1;
      }
    }

    /** One sub-scanline of compute_cvg_noflip, or of compute_cvg_flip with the edges exchanged. */
    method Mark(start: nat, end: nat, e: Edges, i: nat)
      requires start <= end < cvgbuf.Length && i < 4 && (e.valid ==> e.left / 8 < cvgbuf.Length && e.right / 8 < cvgbuf.Length)
      modifies cvgbuf
      ensures forall k :: start <= k <= end ==> cvgbuf[k] == SubScanline(old(cvgbuf[k]), e, i, k)
      ensures !e.valid || (start <= e.left / 8 <= end && start <= e.right / 8 <= end) ==>
        forall k :: 0 <= k < start || end < k < cvgbuf.Length ==> cvgbuf[k] == old(cvgbuf[k])
    {
      hide Without, Or, And, LeftMask, RightMask, FullMask;
      var mask := FullMask(i);
      ghost var before := cvgbuf[..];
      WithoutTwice(mask);
      if !e.valid {
        Purge(start, end, mask);
        return;
      }
      var left, right := e.left / 8, e.right / 8;
      Purge(start, left, mask);
      Purge(right, end, mask);
      ghost var purged := cvgbuf[..];
      OrNothing();
      assert forall k :: start <= k <= end ==> purged[k] == if k <= left || k >= right then Without(before[k], mask) else before[k];
      if right > left {
        cvgbuf[left] := Or(cvgbuf[left], LeftMask(e.left, i));
        cvgbuf[right] := Or(cvgbuf[right], RightMask(e.right, i));
      } else if right == left {
        cvgbuf[right] := Or(cvgbuf[right], And(LeftMask(e.left, i), RightMask(e.right, i)));
      }
    }

    /** memset of a range to 0xff. */
    method Fill(start: nat, end: nat)
      requires start <= end < cvgbuf.Length
      modifies cvgbuf
      ensures forall k :: 0 <= k < cvgbuf.Length ==> cvgbuf[k] == if start <= k <= end then 0xFF else old(cvgbuf[k])
    {
      var k := start;
      while k <= end
        invariant start <= k <= end + 1
        invariant forall j :: 0 <= j < cvgbuf.Length ==> cvgbuf[j] == if start <= j < k then 0xFF else old(cvgbuf[j])
      {
        cvgbuf[k] := 0xFF;
        k := k + 1;
      }
    }

    /** The four sub-scanlines of a span between two pixels. */
    method MarkAll(start: nat, end: nat, e: Scanline)
      requires start <= end < cvgbuf.Length
      requires forall i :: 0 <= i < 4 && e[i].valid ==> e[i].left / 8 < cvgbuf.Length && e[i].right / 8 < cvgbuf.Length
      modifies cvgbuf
      ensures forall k :: start <= k <= end ==> cvgbuf[k] == Pixel(e, k, 4)
      ensures Inside(e, start, end) ==> forall k :: 0 <= k < start || end < k < cvgbuf.Length ==> cvgbuf[k] == old(cvgbuf[k])
    {
      hide SubScanline;
      Fill(start, end);
      var i := 0;
      while i < 4
        invariant 0 <= i <= 4
        invariant forall k :: start <= k <= end ==> cvgbuf[k] == Pixel(e, k, i)
        invariant Inside(e, start, end) ==> forall k :: 0 <= k < start || end < k < cvgbuf.Length ==> cvgbuf[k] == old(cvgbuf[k])
      {
        Mark(start, end, e[i], i);
        i := i + 1;
      }
    }

    /** compute_cvg_flip: the span runs from rx to lx. */
    method ComputeFlip(s: Span)
      requires s.Valid(cvgbuf.Length)
      modifies cvgbuf
      ensures forall k, n :: s.rx <= k <= s.lx && 0 <= n < 8 ==> (Bit(cvgbuf[k], n) <==> Covered(EdgesOf(s, true), k, n))
      ensures Inside(EdgesOf(s, true), s.rx, s.lx) ==> forall k :: 0 <= k < s.rx || s.lx < k < cvgbuf.Length ==> cvgbuf[k] == old(cvgbuf[k])
      ensures s.lx < s.rx ==> cvgbuf[..] == old(cvgbuf[..])
    {
      hide Bit, Covered, Pixel;
      if s.lx >= s.rx {
        MarkAll(s.rx, s.lx, EdgesOf(s, true));
        AllGeometric(EdgesOf(s, true));
      }
    }

    /** compute_cvg_noflip: the span runs from lx to rx. */
    method ComputeNoFlip(s: Span)
      requires s.Valid(cvgbuf.Length)
      modifies cvgbuf
      ensures forall k, n :: s.lx <= k <= s.rx && 0 <= n < 8 ==> (Bit(cvgbuf[k], n) <==> Covered(EdgesOf(s, false), k, n))
      ensures Inside(EdgesOf(s, false), s.lx, s.rx) ==> forall k :: 0 <= k < s.lx || s.rx < k < cvgbuf.Length ==> cvgbuf[k] == old(cvgbuf[k])
      ensures s.rx < s.lx ==> cvgbuf[..] == old(cvgbuf[..])
    {
      hide Bit, Covered, Pixel;
      if s.rx >= s.lx {
        MarkAll(s.lx, s.rx, EdgesOf(s, false));
        AllGeometric(EdgesOf(s, false));
      }
    }
  }

  lemma WithoutTwice(m: bv8)
    ensures forall b :: Without(Without(b, m), m) == Without(b, m)
  {
  }

  lemma OrNothing()
    ensures forall b :: Or(b, 0) == b
  {
  }

  lemma AllGeometric(e: Scanline)
    ensures forall k: nat, n: nat :: n < 8 ==> (Bit(Pixel(e, k, 4), n) <==> Covered(e, k, n))
  {
    forall k: nat, n: nat | n < 8 ensures Bit(Pixel(e, k, 4), n) <==> Covered(e, k, n) {
      CoverageIsGeometric(e, k, n);
    }
  }
}
