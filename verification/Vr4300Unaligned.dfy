/** The unaligned load and store pairs of vr4300/functions.c, served by the
    uncached path: each pair moves exactly the bytes at its address. */
module Vr4300Unaligned {
  import opened Vr4300Bus

  /** The bytes from `a` on replaced by `b`. */
  function Replaced(mem: seq<Byte>, a: nat, b: seq<Byte>): seq<Byte>
    requires a + |b| <= |mem|
  {
    mem[..a] + b + mem[a + |b|..]
  }

  function SignExtended(w: Word): Dword {
    var s: Byte := if w[0] >= 128 then 255 else 0;
    [s, s, s, s] + w
  }

  // ------------------------------------------------------------ instructions

  /** SWL, SWR, SDL and SDR at a virtual address that translates to `a`. */
  function ExecuteStore(mem: seq<Byte>, dword: bool, side: Side, rt: Dword, a: nat): (m: seq<Byte>)
    requires InRam(mem, a)
    ensures |m| == |mem|
  {
    UncachedWrite(mem, if dword then StoreDoubleSide(side, rt, a % 8) else StoreWordSide(side, rt, a % 4), a)
  }

  /** LWL, LWR, LDL and LDR: the right sides access the aligned address.  The
      latch holds rt & ~mask, and the bytes read, which lie under the mask, are
      or-ed into it. */
  function ExecuteLoad(mem: seq<Byte>, dword: bool, side: Side, rt: Dword, a: nat): Dword
    requires InRam(mem, a)
  {
    var r := if dword then LoadDoubleSide(side, a % 8) else LoadWordSide(side, a % 4);
    var pa := if side == L then a else Base(dword, a);
    AlignedInRam(mem, dword, a);
    Blend(rt, UncachedRead(mem, r, pa), r.mask)
  }

  lemma AlignedInRam(mem: seq<Byte>, dword: bool, a: nat)
    requires InRam(mem, a)
    ensures InRam(mem, Base(dword, a))
    ensures Base(dword, Base(dword, a)) == Base(dword, a) && Offset(dword, Base(dword, a)) == 0
  {
    LineParts(a / 16, a % 16);
    LineParts(a / 16, a % 16 - Offset(dword, a));
  }

  // ---------------------------------- one side, at offset o of the unit at p

  lemma StoreWordLeft(mem: seq<Byte>, rt: Dword, p: nat, o: nat)
    requires o < 4 && p + 4 <= |mem|
    ensures WriteAt(mem, StoreWordSide(L, rt, o), p) == Replaced(mem, p + o, rt[4..8 - o])
  {
    StoreWordBytes(mem, StoreWordSide(L, rt, o), p);
    var m, w := WriteAt(mem, StoreWordSide(L, rt, o), p), Replaced(mem, p + o, rt[4..8 - o]);
    forall i | 0 <= i < |mem| ensures m[i] == w[i] {
    }
  }

  lemma StoreWordRight(mem: seq<Byte>, rt: Dword, p: nat, o: nat)
    requires o < 4 && p + 4 <= |mem|
    ensures WriteAt(mem, StoreWordSide(R, rt, o), p) == Replaced(mem, p, rt[7 - o..])
  {
    StoreWordBytes(mem, StoreWordSide(R, rt, o), p);
    var m, w := WriteAt(mem, StoreWordSide(R, rt, o), p), Replaced(mem, p, rt[7 - o..]);
    forall i | 0 <= i < |mem| ensures m[i] == w[i] {
    }
  }

  lemma StoreDoubleLeft(mem: seq<Byte>, rt: Dword, p: nat, o: nat)
    requires o < 8 && p + 8 <= |mem|
    ensures WriteAt(mem, StoreDoubleSide(L, rt, o), p) == Replaced(mem, p + o, rt[..8 - o])
  {
    StoreDoubleBytes(mem, StoreDoubleSide(L, rt, o), p);
    var m, w := WriteAt(mem, StoreDoubleSide(L, rt, o), p), Replaced(mem, p + o, rt[..8 - o]);
    forall i | 0 <= i < |mem| ensures m[i] == w[i] {
    }
  }

  lemma StoreDoubleRight(mem: seq<Byte>, rt: Dword, p: nat, o: nat)
    requires o < 8 && p + 8 <= |mem|
    ensures WriteAt(mem, StoreDoubleSide(R, rt, o), p) == Replaced(mem, p, rt[7 - o..])
  {
    StoreDoubleBytes(mem, StoreDoubleSide(R, rt, o), p);
    var m, w := WriteAt(mem, StoreDoubleSide(R, rt, o), p), Replaced(mem, p, rt[7 - o..]);
    forall i | 0 <= i < |mem| ensures m[i] == w[i] {
    }
  }

  lemma SelectHead(rt: Dword, d: Dword, n: nat)
    requires n <= 8
    ensures Blend(rt, Keep(d, High(n)), High(n)) == d[..n] + rt[n..]
  {
  }

  lemma SelectTail(rt: Dword, d: Dword, n: nat)
    requires n <= 8
    ensures Blend(rt, Keep(d, Low(n)), Low(n)) == rt[..8 - n] + d[8 - n..]
  {
  }

  lemma LoadWordLeft(mem: seq<Byte>, rt: Dword, p: nat, o: nat)
    requires o < 4 && p + 4 <= |mem|
    ensures var r := LoadWordSide(L, o);
      Blend(rt, ReadAt(mem, r, p, o), r.mask) == SignExtended(mem[p + o..p + 4] + rt[8 - o..])
  {
    var d := Sar(Shl(ReadWord(mem, p) + ZERO[..4], o), 4);
    SelectHead(rt, d, 8 - o);
    assert d[..8 - o] + rt[8 - o..] == SignExtended(mem[p + o..p + 4] + rt[8 - o..]);
  }

  lemma LoadWordRight(mem: seq<Byte>, rt: Dword, p: nat, o: nat)
    requires o < 4 && p + 4 <= |mem|
    ensures var r := LoadWordSide(R, o);
      Blend(rt, ReadAt(mem, r, p, 0), r.mask) == if o == 3 then SignExtended(mem[p..p + 4]) else rt[..7 - o] + mem[p..p + o + 1]
  {
    var sdata := ReadWord(mem, p) + ZERO[..4];
    assert Shl(sdata, 0) == sdata;
    var v := Sar(sdata, 7 - o);
    SelectTail(rt, v, if o == 3 then 8 else o + 1);
    assert v == seq(7 - o, _ => SignByte(sdata)) + mem[p..p + o + 1];
  }

  lemma LoadDoubleLeft(mem: seq<Byte>, rt: Dword, p: nat, o: nat)
    requires o < 8 && p + 8 <= |mem|
    ensures var r := LoadDoubleSide(L, o);
      Blend(rt, ReadAt(mem, r, p, o), r.mask) == mem[p + o..p + 8] + rt[8 - o..]
  {
    assert ReadWord(mem, p) + ReadWord(mem, p + 4) == mem[p..p + 8];
    var sdata := Shl(mem[p..p + 8], o);
    assert Sar(sdata, 0) == sdata;
    SelectHead(rt, sdata, 8 - o);
  }

  lemma LoadDoubleRight(mem: seq<Byte>, rt: Dword, p: nat, o: nat)
    requires o < 8 && p + 8 <= |mem|
    ensures var r := LoadDoubleSide(R, o);
      Blend(rt, ReadAt(mem, r, p, 0), r.mask) == rt[..7 - o] + mem[p..p + o + 1]
  {
    assert ReadWord(mem, p) + ReadWord(mem, p + 4) == mem[p..p + 8];
    var sdata: Dword := mem[p..p + 8];
    assert Shl(sdata, 0) == sdata;
    SelectTail(rt, Sar(sdata, 7 - o), o + 1);
  }

  // ----------------------------------------------------- plain loads and stores

  /** The bytes as a register: sign- or zero-extended. */
  function Extended(b: seq<Byte>, signed: bool): Dword
    requires 1 <= |b| <= 8
  {
    seq(8 - |b|, _ => if signed && b[0] >= 128 then 255 else 0) + b
  }

  /** A load of 1, 2 or 4 bytes at offset o of its word, which it does not leave. */
  lemma PlainLoadReads(mem: seq<Byte>, bytes: nat, signed: bool, p: nat, o: nat)
    requires bytes in {1, 2, 4} && o + bytes <= 4 && p + 4 <= |mem|
    ensures ReadAt(mem, PlainLoad(bytes, signed), p, o) == Extended(mem[p + o..p + o + bytes], signed)
  {
    var w: Dword := ReadWord(mem, p) + ZERO[..4];
    var s := Shl(w, o);
    forall k | 0 <= k < bytes ensures s[k] == mem[p + o + k] {
      assert s[k] == w[o + k] == ReadWord(mem, p)[o + k];
    }
    hide Shl;
    var x, y := ReadAt(mem, PlainLoad(bytes, signed), p, o), Extended(mem[p + o..p + o + bytes], signed);
    forall i | 0 <= i < 8 ensures x[i] == y[i] {
      assert i >= 8 - bytes ==> Sar(s, 8 - bytes)[i] == s[i - (8 - bytes)];
    }
  }

  lemma PlainStoreByte(bytes: nat, rt: Dword, o: nat, j: nat)
    requires bytes in {1, 2, 4} && o + bytes <= 4 && j < 4
    ensures var r := PlainStore(bytes, rt, o);
      && (r.wdqm[4 + j] <==> o <= j < o + bytes)
      && (o <= j < o + bytes ==> r.data[4 + j] == rt[8 - bytes + j - o])
  {
    var d, m := Shl(rt, 4 - bytes), Mask32(ShlMask(Low(4), 4 - bytes));
    if j >= o {
      assert d[4 + j - o] == if 8 - bytes + j - o < 8 then rt[8 - bytes + j - o] else 0;
      assert Shr(d, o)[4 + j] == d[4 + j - o];
      assert ShrMask(m, o)[4 + j] == m[4 + j - o];
    } else {
      assert ShrMask(m, o)[4 + j] == if 4 + j >= o then m[4 + j - o] else false;
    }
  }

  /** A store of 1, 2 or 4 bytes writes the register's low bytes and nothing else. */
  lemma PlainStoreWrites(mem: seq<Byte>, bytes: nat, rt: Dword, p: nat, o: nat)
    requires bytes in {1, 2, 4} && o + bytes <= 4 && p + 4 <= |mem|
    ensures WriteAt(mem, PlainStore(bytes, rt, o), p) == Replaced(mem, p + o, rt[8 - bytes..])
  {
    StoreWordBytes(mem, PlainStore(bytes, rt, o), p);
    var m, w := WriteAt(mem, PlainStore(bytes, rt, o), p), Replaced(mem, p + o, rt[8 - bytes..]);
    hide WriteAt, Shl, Shr, ShlMask, ShrMask, Mask32, Low;
    forall i | 0 <= i < |mem| ensures m[i] == w[i] {
      if p <= i < p + 4 {
        PlainStoreByte(bytes, rt, o, i - p);
      }
    }
  }

  // ------------------------------------------------------------- the pairs

  /** A head and a tail that meet make the whole. */
  lemma ReplacedTwice(mem: seq<Byte>, a: nat, b: seq<Byte>, head: nat, tail: nat)
    requires a + |b| <= |mem| && head <= |b| && tail <= |b| && head + tail >= |b|
    ensures Replaced(Replaced(mem, a, b[..head]), a + |b| - tail, b[|b| - tail..]) == Replaced(mem, a, b)
  {
  }

  /** The last byte of an unaligned unit lies in the next aligned one, just before the first byte's place. */
  lemma LastByte(dword: bool, a: nat)
    ensures var n := Bytes(dword); var o := Offset(dword, a);
      if o == 0 then Offset(dword, a + n - 1) == n - 1 && Base(dword, a + n - 1) == a
      else Offset(dword, a + n - 1) == o - 1 && Base(dword, a + n - 1) == a - o + n
  {
  }

  /** SWL at a and SWR at a + 3 store exactly the four bytes of the word at a. */
  lemma StoreWordPair(mem: seq<Byte>, rt: Dword, a: nat)
    requires InRam(mem, a) && InRam(mem, a + 3)
    ensures a + 4 <= |mem|
    ensures ExecuteStore(ExecuteStore(mem, false, L, rt, a), false, R, rt, a + 3) == Replaced(mem, a, rt[4..])
  {
    hide WriteAt, Replaced, InRam, Shl, Shr, ShlMask, ShrMask, Low, Mask32;
    LastByte(false, a);
    BaseInRam(mem, false, a);
    BaseInRam(mem, false, a + 3);
    var o, o' := a % 4, (a + 3) % 4;
    StoreWordLeft(mem, rt, a - o, o);
    var m := Replaced(mem, a, rt[4..8 - o]);
    StoreWordRight(m, rt, a + 3 - o', o');
    var w := rt[4..];
    assert rt[4..8 - o] == w[..4 - o] && rt[7 - o'..] == w[3 - o'..];
    ReplacedTwice(mem, a, w, 4 - o, o' + 1);
  }

  /** SDL at a and SDR at a + 7 store exactly the eight bytes of the doubleword at a. */
  lemma StoreDoublePair(mem: seq<Byte>, rt: Dword, a: nat)
    requires InRam(mem, a) && InRam(mem, a + 7)
    ensures a + 8 <= |mem|
    ensures ExecuteStore(ExecuteStore(mem, true, L, rt, a), true, R, rt, a + 7) == Replaced(mem, a, rt)
  {
    hide WriteAt, Replaced, InRam, Shl, Shr, ShlMask, ShrMask, Low;
    LastByte(true, a);
    BaseInRam(mem, true, a);
    BaseInRam(mem, true, a + 7);
    var o, o' := a % 8, (a + 7) % 8;
    StoreDoubleLeft(mem, rt, a - o, o);
    var m := Replaced(mem, a, rt[..8 - o]);
    StoreDoubleRight(m, rt, a + 7 - o', o');
    ReplacedTwice(mem, a, rt, 8 - o, o' + 1);
  }

  /** LWL at a and LWR at a + 3, in either order, yield the word at a, sign-extended. */
  lemma LoadWordPair(mem: seq<Byte>, rt: Dword, a: nat)
    requires InRam(mem, a) && InRam(mem, a + 3)
    ensures a + 4 <= |mem|
    ensures ExecuteLoad(mem, false, R, ExecuteLoad(mem, false, L, rt, a), a + 3) == SignExtended(mem[a..a + 4])
    ensures ExecuteLoad(mem, false, L, ExecuteLoad(mem, false, R, rt, a + 3), a) == SignExtended(mem[a..a + 4])
  {
    hide ReadAt, InRam, Blend, High, Low;
    LastByte(false, a);
    BaseInRam(mem, false, a);
    BaseInRam(mem, false, a + 3);
    AlignedInRam(mem, false, a + 3);
    var o, o' := a % 4, (a + 3) % 4;
    var p, p' := a - o, a + 3 - o';
    var left, right := ExecuteLoad(mem, false, L, rt, a), ExecuteLoad(mem, false, R, rt, a + 3);
    LoadWordLeft(mem, rt, p, o);
    LoadWordRight(mem, left, p', o');
    LoadWordRight(mem, rt, p', o');
    LoadWordLeft(mem, right, p, o);
    if o == 0 {
      assert mem[p + o..p + 4] + right[8..] == mem[a..a + 4];
    } else {
      assert 7 - o' == 8 - o && p' == a + 4 - o;
      assert mem[a..a + 4 - o] + mem[a + 4 - o..a + 4] == mem[a..a + 4];
      assert left[..7 - o'] + mem[p'..p' + o' + 1] == SignExtended(mem[a..a + 4]);
      assert mem[p + o..p + 4] + right[8 - o..] == mem[a..a + 4];
    }
  }

  /** LDL at a and LDR at a + 7, in either order, yield the doubleword at a. */
  lemma LoadDoublePair(mem: seq<Byte>, rt: Dword, a: nat)
    requires InRam(mem, a) && InRam(mem, a + 7)
    ensures a + 8 <= |mem|
    ensures ExecuteLoad(mem, true, R, ExecuteLoad(mem, true, L, rt, a), a + 7) == mem[a..a + 8]
    ensures ExecuteLoad(mem, true, L, ExecuteLoad(mem, true, R, rt, a + 7), a) == mem[a..a + 8]
  {
    hide ReadAt, InRam, Blend, High, Low;
    LastByte(true, a);
    BaseInRam(mem, true, a);
    BaseInRam(mem, true, a + 7);
    AlignedInRam(mem, true, a + 7);
    var o, o' := a % 8, (a + 7) % 8;
    var p, p' := a - o, a + 7 - o';
    var left, right := ExecuteLoad(mem, true, L, rt, a), ExecuteLoad(mem, true, R, rt, a + 7);
    LoadDoubleLeft(mem, rt, p, o);
    LoadDoubleRight(mem, left, p', o');
    LoadDoubleRight(mem, rt, p', o');
    LoadDoubleLeft(mem, right, p, o);
    if o == 0 {
      assert left[..7 - o'] + mem[p'..p' + o' + 1] == mem[a..a + 8];
      assert mem[p + o..p + 8] + right[8..] == mem[a..a + 8];
    } else {
      assert 7 - o' == 8 - o && p' == a + 8 - o;
      assert left[..8 - o] == mem[a..a + 8 - o];
      assert right[8 - o..] == mem[a + 8 - o..a + 8];
      assert mem[a..a + 8 - o] + mem[a + 8 - o..a + 8] == mem[a..a + 8];
    }
  }

  /** A word stored by a pair is the word a pair loads back, at any address. */
  lemma WordPairRoundTrip(mem: seq<Byte>, rt: Dword, rt': Dword, a: nat)
    requires InRam(mem, a) && InRam(mem, a + 3)
    ensures var m := ExecuteStore(ExecuteStore(mem, false, L, rt, a), false, R, rt, a + 3);
      ExecuteLoad(m, false, R, ExecuteLoad(m, false, L, rt', a), a + 3) == SignExtended(rt[4..])
  {
    hide ExecuteStore, ExecuteLoad;
    StoreWordPair(mem, rt, a);
    LoadWordPair(Replaced(mem, a, rt[4..]), rt', a);
  }
}
