/** Loads and stores of the VR4300 as the requests its execution functions make,
    and the uncached path of vr4300/fault.c that serves them on RDRAM.

    Registers, words and RDRAM are big-endian byte sequences.  All shift
    amounts and masks on this path are whole bytes, so a shift moves bytes and a
    mask selects them. */
module Vr4300Bus {

  type Byte = b: nat | b < 256

  type Word = w: seq<Byte> | |w| == 4 witness [0, 0, 0, 0]
  type Dword = d: seq<Byte> | |d| == 8 witness [0, 0, 0, 0, 0, 0, 0, 0]

  /** A mask with one bit per byte of a doubleword. */
  type Mask = m: seq<bool> | |m| == 8 witness [true, true, true, true, true, true, true, true]

  const ZERO: Dword := [0, 0, 0, 0, 0, 0, 0, 0]

  /** d << 8k. */
  function Shl(d: Dword, k: nat): Dword
    requires k <= 8
  {
    d[k..] + ZERO[..k]
  }

  function SignByte(d: Dword): Byte { if d[0] >= 128 then 255 else 0 }

  /** (int64_t) d >> 8k. */
  function Sar(d: Dword, k: nat): Dword
    requires k <= 8
  {
    seq(k, _ => SignByte(d)) + d[..8 - k]
  }

  /** (uint64_t) d >> 8k. */
  function Shr(d: Dword, k: nat): Dword
    requires k <= 8
  {
    ZERO[..k] + d[..8 - k]
  }

  /** d & m. */
  function Keep(d: Dword, m: Mask): Dword { seq(8, i requires 0 <= i < 8 => if m[i] then d[i] else 0) }

  /** d & ~m. */
  function Drop(d: Dword, m: Mask): Dword { seq(8, i requires 0 <= i < 8 => if m[i] then 0 else d[i]) }

  /** (d & ~m) | (e & m). */
  function Blend(d: Dword, e: Dword, m: Mask): Dword { seq(8, i requires 0 <= i < 8 => if m[i] then e[i] else d[i]) }

  /** m << 8k and m >> 8k. */
  function ShlMask(m: Mask, k: nat): Mask
    requires k <= 8
  {
    m[k..] + seq(k, _ => false)
  }

  function ShrMask(m: Mask, k: nat): Mask
    requires k <= 8
  {
    seq(k, _ => false) + m[..8 - k]
  }

  /** A mask of the last n bytes. */
  function Low(n: nat): Mask
    requires n <= 8
  {
    seq(8, i requires 0 <= i < 8 => i >= 8 - n)
  }

  /** A mask of the first n bytes. */
  function High(n: nat): Mask
    requires n <= 8
  {
    seq(8, i requires 0 <= i < 8 => i < n)
  }

  // ------------------------------------------------------------------- RDRAM

  /** bus_read_word of RDRAM. */
  function ReadWord(mem: seq<Byte>, a: nat): Word
    requires a + 4 <= |mem|
  {
    mem[a..a + 4]
  }

  /** bus_write_word of RDRAM: only the bytes under the mask change. */
  function WriteWord(mem: seq<Byte>, a: nat, w: Word, dqm: seq<bool>): (m: seq<Byte>)
    requires a + 4 <= |mem| && |dqm| == 4
    ensures |m| == |mem|
  {
    mem[..a] + seq(4, i requires 0 <= i < 4 => if dqm[i] then w[i] else mem[a + i]) + mem[a + 4..]
  }

  // ---------------------------------------------------------------- requests

  /** struct vr4300_bus_request: an access of one word or one doubleword.  A load
      also has the mask that selects the loaded bytes of the result. */
  datatype Request =
    | Load(dword: bool, size: nat, mask: Mask)
    | Store(dword: bool, data: Dword, wdqm: Mask)

  /** The request only involves bytes of the word or doubleword that holds its
      address, o being its offset there. */
  ghost predicate Fits(r: Request, o: nat) {
    match r
    case Load(dword, size, mask) =>
      1 <= size <= 8 && (!dword ==> forall i :: 8 - size <= i < 8 && i - (8 - size) + o >= 4 ==> !mask[i])
    case Store(dword, _, wdqm) => !dword ==> forall i :: 0 <= i < 4 ==> !wdqm[i]
  }

  function Bytes(dword: bool): nat { if dword then 8 else 4 }

  /** paddr & mask and paddr & ~mask: the place in the word or doubleword, and where that begins. */
  function Offset(dword: bool, pa: nat): (o: nat)
    ensures o < Bytes(dword)
  {
    if dword then pa % 8 else pa % 4
  }

  function Base(dword: bool, pa: nat): (p: nat)
    ensures p <= pa
  {
    pa - Offset(dword, pa)
  }

  /** The 16-byte line of the address is in RDRAM. */
  predicate InRam(mem: seq<Byte>, pa: nat) { pa - pa % 16 + 16 <= |mem| }

  lemma Mod16(q: nat, r: nat)
    requires r < 16
    ensures (16 * q + r) % 16 == r && (16 * q + r) / 16 == q
  {
  }

  lemma Mod8(q: nat, r: nat)
    requires r < 8
    ensures (8 * q + r) % 8 == r
  {
  }

  lemma Mod4(q: nat, r: nat)
    requires r < 4
    ensures (4 * q + r) % 4 == r
  {
  }

  /** The address from its line: the line's number and the place in it. */
  lemma LineParts(q: nat, r: nat)
    requires r < 16
    ensures var a := 16 * q + r; a % 16 == r && a / 16 == q
    ensures var a := 16 * q + r; a % 8 == (if r < 8 then r else r - 8)
    ensures var a := 16 * q + r; a % 4 == (if r < 4 then r else if r < 8 then r - 4 else if r < 12 then r - 8 else r - 12)
  {
    var a := 16 * q + r;
    Mod16(q, r);
    var e := if r < 8 then 0 else 1;
    Mod8(2 * q + e, r - 8 * e);
    assert a == 8 * (2 * q + e) + (r - 8 * e);
    var f := if r < 4 then 0 else if r < 8 then 1 else if r < 12 then 2 else 3;
    Mod4(4 * q + f, r - 4 * f);
    assert a == 4 * (4 * q + f) + (r - 4 * f);
  }

  /** A word or doubleword does not cross a line. */
  lemma BaseInRam(mem: seq<Byte>, dword: bool, pa: nat)
    requires InRam(mem, pa)
    ensures Base(dword, pa) + Bytes(dword) <= |mem|
  {
    LineParts(pa / 16, pa % 16);
  }

  /** The read of `size` bytes at offset o of the word or doubleword at p. */
  function ReadAt(mem: seq<Byte>, r: Request, p: nat, o: nat): Dword
    requires r.Load? && r.size <= 8 && p + Bytes(r.dword) <= |mem| && o <= 8
  {
    var sdata := if r.dword then ReadWord(mem, p) + ReadWord(mem, p + 4) else ReadWord(mem, p) + ZERO[..4];
    Keep(Sar(Shl(sdata, o), 8 - r.size), r.mask)
  }

  function WriteAt(mem: seq<Byte>, r: Request, p: nat): (m: seq<Byte>)
    requires r.Store? && p + Bytes(r.dword) <= |mem|
    ensures |m| == |mem|
  {
    if r.dword then WriteWord(WriteWord(mem, p, r.data[..4], r.wdqm[..4]), p + 4, r.data[4..], r.wdqm[4..])
    else WriteWord(mem, p, r.data[4..], r.wdqm[4..])
  }

  // Which bytes a write changes.
  lemma StoreWordBytes(mem: seq<Byte>, r: Request, p: nat)
    requires r.Store? && !r.dword && p + 4 <= |mem|
    ensures var m := WriteAt(mem, r, p);
      forall i :: 0 <= i < |mem| ==> m[i] == if p <= i < p + 4 && r.wdqm[i - p + 4] then r.data[i - p + 4] else mem[i]
  {
  }

  lemma StoreDoubleBytes(mem: seq<Byte>, r: Request, p: nat)
    requires r.Store? && r.dword && p + 8 <= |mem|
    ensures var m := WriteAt(mem, r, p);
      forall i :: 0 <= i < |mem| ==> m[i] == if p <= i < p + 8 && r.wdqm[i - p] then r.data[i - p] else mem[i]
  {
  }

  /** The uncached read of VR4300_DCM: what the load adds to the result. */
  function UncachedRead(mem: seq<Byte>, r: Request, pa: nat): Dword
    requires r.Load? && r.size <= 8 && InRam(mem, pa)
  {
    BaseInRam(mem, r.dword, pa);
    ReadAt(mem, r, Base(r.dword, pa), Offset(r.dword, pa))
  }

  /** The uncached write of VR4300_DCM. */
  function UncachedWrite(mem: seq<Byte>, r: Request, pa: nat): (m: seq<Byte>)
    requires r.Store? && InRam(mem, pa)
    ensures |m| == |mem|
  {
    BaseInRam(mem, r.dword, pa);
    WriteAt(mem, r, Base(r.dword, pa))
  }

  // ---------------------------------------------------- the execution functions

  datatype Side = L | R

  /** VR4300_LOAD_STORE for a load of 1, 2 or 4 bytes. */
  function PlainLoad(bytes: nat, signed: bool): Request
    requires bytes in {1, 2, 4}
  {
    Load(false, bytes, if signed then Low(8) else Low(bytes))
  }

  /** VR4300_LOAD_STORE for a store: the low bytes move to their offset in the word. */
  function PlainStore(bytes: nat, rt: Dword, o: nat): Request
    requires bytes in {1, 2, 4} && o < 4
  {
    Store(false, Shr(Shl(rt, 4 - bytes), o), ShrMask(Mask32(ShlMask(Low(4), 4 - bytes)), o))
  }

  /** A uint32_t conversion of a mask. */
  function Mask32(m: Mask): Mask { seq(4, _ => false) + m[4..] }

  /** VR4300_LD_SD. */
  function LoadDouble(): Request { Load(true, 8, Low(8)) }

  function StoreDouble(rt: Dword): Request { Store(true, rt, Low(8)) }

  /** VR4300_LWL_LWR: LWL keeps the low bytes of the register that the word does
      not reach; LWR of a whole word also takes the sign extension. */
  function LoadWordSide(side: Side, o: nat): Request
    requires o < 4
  {
    match side
    case L => Load(false, 4, High(8 - o))
    case R => Load(false, o + 1, if o >= 3 then Low(8) else Low(o + 1))
  }

  /** VR4300_LDL_LDR. */
  function LoadDoubleSide(side: Side, o: nat): Request
    requires o < 8
  {
    match side
    case L => Load(true, 8, High(8 - o))
    case R => Load(true, o + 1, Low(o + 1))
  }

  /** VR4300_SWL_SWR: the mask is a 32-bit one. */
  function StoreWordSide(side: Side, rt: Dword, o: nat): Request
    requires o < 4
  {
    match side
    case L => Store(false, Shr(rt, o), ShrMask(Low(4), o))
    case R => Store(false, Shl(rt, 3 - o), Mask32(ShlMask(Low(4), 3 - o)))
  }

  /** VR4300_SDL_SDR. */
  function StoreDoubleSide(side: Side, rt: Dword, o: nat): Request
    requires o < 8
  {
    match side
    case L => Store(true, Shr(rt, o), ShrMask(Low(8), o))
    case R => Store(true, Shl(rt, 7 - o), ShlMask(Low(8), 7 - o))
  }

  // Every request of these functions fits, the plain ones when they stay in the word.
  // The right sides of loads clear the offset from their address.
  lemma PlainRequestsFit(rt: Dword, bytes: nat, signed: bool, o: nat)
    requires bytes in {1, 2, 4} && o + bytes <= 4
    ensures Fits(PlainLoad(bytes, signed), o) && Fits(PlainStore(bytes, rt, o), o)
  {
  }

  lemma DoubleRequestsFit(rt: Dword, o: nat)
    ensures Fits(LoadDouble(), o) && Fits(StoreDouble(rt), o)
  {
  }

  lemma WordSidesFit(side: Side, rt: Dword, o: nat)
    requires o < 4
    ensures Fits(LoadWordSide(L, o), o) && Fits(LoadWordSide(R, o), 0) && Fits(StoreWordSide(side, rt, o), o)
  {
  }

  lemma DoubleSidesFit(side: Side, rt: Dword, o: nat)
    requires o < 8
    ensures Fits(LoadDoubleSide(L, o), o) && Fits(LoadDoubleSide(R, o), 0) && Fits(StoreDoubleSide(side, rt, o), o)
  {
  }
}
