/** SHA-1 as FIPS 180-1 defines it, and the streaming computation of
    device/sha1.c on values: a buffer of 64 bytes, its fill count, the bit count
    and the five chaining words. */
module Sha1 {

  type Byte = b: nat | b < 256
  type Word = bv32

  const TWO64: nat := 0x1_0000_0000_0000_0000

  // ------------------------------------------------------------ words and bytes

  lemma WordFits(a: Byte, b: Byte, c: Byte, d: Byte)
    ensures a * 0x100_0000 + b * 0x1_0000 + c * 0x100 + d < 0x1_0000_0000
  {
  }

  /** A word from its bytes, the first the most significant: section 2 of FIPS 180-1. */
  function BigEndian(a: Byte, b: Byte, c: Byte, d: Byte): Word {
    WordFits(a, b, c, d);
    (a * 0x100_0000 + b * 0x1_0000 + c * 0x100 + d) as bv32
  }

  /** The word that a little-endian host reads from four bytes. */
  function LittleEndian(a: Byte, b: Byte, c: Byte, d: Byte): Word { BigEndian(d, c, b, a) }

  /** The bytes of a word, the most significant first. */
  function WordBytes(w: Word): (s: seq<Byte>)
    ensures |s| == 4
  {
    var n := w as nat;
    [n / 0x100_0000 % 256, n / 0x1_0000 % 256, n / 0x100 % 256, n % 256]
  }

  function Power256(n: nat): (p: nat)
    ensures p > 0
  {
    if n == 0 then 1 else 256 * Power256(n - 1)
  }

  /** The eight bytes of the bit count, the most significant first. */
  function LengthBytes(bits: nat): (s: seq<Byte>)
    ensures |s| == 8
  {
    seq(8, i requires 0 <= i < 8 => bits / Power256(7 - i) % 256)
  }

  // ---------------------------------------- FIPS 180-1, sections 3, 5 and 7

  function Rotate1(x: Word): Word { (x << 1) | (x >> 31) }

  function Rotate5(x: Word): Word { (x << 5) | (x >> 27) }

  function Rotate30(x: Word): Word { (x << 30) | (x >> 2) }

  function Choose(b: Word, c: Word, d: Word): Word { (b & c) | (!b & d) }

  function Parity(b: Word, c: Word, d: Word): Word { b ^ c ^ d }

  function Majority(b: Word, c: Word, d: Word): Word { (b & c) | (b & d) | (c & d) }

  function F(t: nat, b: Word, c: Word, d: Word): Word {
    if t < 20 then Choose(b, c, d) else if t < 40 then Parity(b, c, d) else if t < 60 then Majority(b, c, d) else Parity(b, c, d)
  }

  function K(t: nat): Word {
    if t < 20 then 0x5A827999 else if t < 40 then 0x6ED9EBA1 else if t < 60 then 0x8F1BBCDC else 0xCA62C1D6
  }

  function Mix(a: Word, b: Word, c: Word, d: Word): Word { Rotate1(a ^ b ^ c ^ d) }

  function Sum(x: Word, y: Word): Word { x + y }

  function Temp(a: Word, f: Word, e: Word, w: Word, k: Word): Word { Rotate5(a) + f + e + w + k }

  type Block = m: seq<Byte> | |m| == 64 witness seq(64, _ => 0)

  /** Word t of a block. */
  function BlockWord(m: Block, t: nat): Word
    requires t < 16
  {
    BigEndian(m[4 * t], m[4 * t + 1], m[4 * t + 2], m[4 * t + 3])
  }

  /** The 80-word schedule: section 7, steps a and b. */
  function W(m: Block, t: nat): Word {
    if t < 16 then BlockWord(m, t) else Mix(W(m, t - 3), W(m, t - 8), W(m, t - 14), W(m, t - 16))
  }

  datatype Chain = Chain(a: Word, b: Word, c: Word, d: Word, e: Word)

  /** Step d of section 7 for one t. */
  function Round(m: Block, t: nat, x: Chain): Chain {
    Chain(Temp(x.a, F(t, x.b, x.c, x.d), x.e, W(m, t), K(t)), x.a, Rotate30(x.b), x.c, x.d)
  }

  function Rounds(m: Block, h: Chain, t: nat): Chain {
    if t == 0 then h else Round(m, t - 1, Rounds(m, h, t - 1))
  }

  function Compress(h: Chain, m: Block): Chain {
    var x := Rounds(m, h, 80);
    Chain(Sum(h.a, x.a), Sum(h.b, x.b), Sum(h.c, x.c), Sum(h.d, x.d), Sum(h.e, x.e))
  }

  const H0 := Chain(0x67452301, 0xEFCDAB89, 0x98BADCFE, 0x10325476, 0xC3D2E1F0)

  function HashBlocks(h: Chain, data: seq<Byte>): Chain
    requires |data| % 64 == 0
    decreases |data|
  {
    if data == [] then h
    else
      assert |data| >= 64;
      HashBlocks(Compress(h, data[..64]), data[64..])
  }

  function Zeros(n: nat): (s: seq<Byte>)
    ensures |s| == n
  {
    seq(n, _ => 0)
  }

  /** How many zero bytes follow the byte 0x80: the fewest that leave room for the length. */
  function ZeroPadding(n: nat): (k: nat)
    ensures k < 64 && (n + 1 + k) % 64 == 56
  {
    var r := n % 64;
    assert n == 64 * (n / 64) + r;
    if r <= 55 then 55 - r else 119 - r
  }

  /** Section 4: the padded message.  The standard limits the length to 64 bits;
      past that the count is taken modulo 2^64. */
  function Padded(msg: seq<Byte>): (p: seq<Byte>)
    ensures |p| % 64 == 0
  {
    msg + [0x80] + Zeros(ZeroPadding(|msg|)) + LengthBytes(8 * |msg| % TWO64)
  }

  function ChainBytes(h: Chain): (s: seq<Byte>)
    ensures |s| == 20
  {
    WordBytes(h.a) + WordBytes(h.b) + WordBytes(h.c) + WordBytes(h.d) + WordBytes(h.e)
  }

  /** The message digest of FIPS 180-1. */
  function Digest(msg: seq<Byte>): (s: seq<Byte>)
    ensures |s| == 20
  {
    ChainBytes(HashBlocks(H0, Padded(msg)))
  }

  // ------------------------------------------------- the streaming computation

  /** struct sha1_ctxt: the bit count is the 64-bit field c. */
  datatype Context = Context(h: Chain, m: Block, count: nat, bits: nat) {
    predicate Valid() { count < 64 && bits < TWO64 }
  }

  /** Bytes copied into the buffer at its count, which never go past its end; a
      full buffer is hashed and cleared. */
  function Took(x: Context, chunk: seq<Byte>): (y: Context)
    requires x.Valid() && x.count + |chunk| <= 64
    ensures y.Valid() && y.bits == x.bits
  {
    var m := x.m[..x.count] + chunk + x.m[x.count + |chunk|..];
    if x.count + |chunk| == 64 then Context(Compress(x.h, m), Zeros(64), 0, x.bits)
    else Context(x.h, m, x.count + |chunk|, x.bits)
  }

  function Counted(x: Context, n: nat): (y: Context)
    requires x.Valid()
    ensures y.Valid()
  {
    x.(bits := (x.bits + 8 * n) % TWO64)
  }

  /** sha1_loop. */
  function Loop(x: Context, input: seq<Byte>): (y: Context)
    requires x.Valid()
    ensures y.Valid()
    decreases |input|
  {
    if input == [] then x
    else
      var gap := 64 - x.count;
      var n := if gap < |input| then gap else |input|;
      Loop(Counted(Took(x, input[..n]), n), input[n..])
  }

  const START := Context(H0, Zeros(64), 0, 0)

  /** sha1_pad up to the length. */
  function PadZeros(x: Context): (y: Context)
    requires x.Valid()
    ensures y.Valid() && y.count == 56 && y.bits == x.bits
  {
    var y := Took(x, [0x80]);
    var z := if 64 - y.count < 8 then Took(y, Zeros(64 - y.count)) else y;
    Took(z, Zeros(64 - z.count - 8))
  }

  /** sha1_pad. */
  function Pad(x: Context): (y: Context)
    requires x.Valid()
    ensures y.Valid() && y.count == 0
  {
    Took(PadZeros(x), LengthBytes(x.bits))
  }

  // ------------------------------------------------------- chunk independence

  /** One byte at a time. */
  function Absorb(x: Context, input: seq<Byte>): (y: Context)
    requires x.Valid()
    ensures y.Valid()
    decreases |input|
  {
    if input == [] then x
    else
      var last := |input| - 1;
      Counted(Took(Absorb(x, input[..last]), [input[last]]), 1)
  }

  lemma {:induction false} AbsorbTwice(x: Context, a: seq<Byte>, b: seq<Byte>)
    requires x.Valid()
    ensures Absorb(x, a + b) == Absorb(Absorb(x, a), b)
    decreases |b|
  {
    hide Took, Counted;
    if b == [] {
      assert a + b == a;
    } else {
      var last := |b| - 1;
      AbsorbTwice(x, a, b[..last]);
      assert (a + b)[..|a + b| - 1] == a + b[..last];
    }
  }

  lemma CountedTwice(x: Context, k: nat, n: nat)
    requires x.Valid()
    ensures Counted(Counted(x, k), n) == Counted(x, k + n)
  {
  }

  lemma TookAndCounted(x: Context, chunk: seq<Byte>, n: nat)
    requires x.Valid() && x.count + |chunk| <= 64
    ensures Took(Counted(x, n), chunk) == Counted(Took(x, chunk), n)
  {
    hide Compress;
  }

  lemma TookOneMore(x: Context, chunk: seq<Byte>, b: Byte)
    requires x.Valid() && x.count + |chunk| < 64
    ensures Took(x, chunk + [b]) == Took(Took(x, chunk), [b])
  {
    hide Compress;
    var y := Took(x, chunk);
    assert x.m[..x.count] + (chunk + [b]) + x.m[x.count + |chunk| + 1..] == y.m[..y.count] + [b] + y.m[y.count + 1..];
  }

  /** A copied chunk is its bytes one at a time. */
  lemma {:induction false} ChunkIsBytes(x: Context, chunk: seq<Byte>)
    requires x.Valid() && x.count + |chunk| <= 64
    ensures Counted(Took(x, chunk), |chunk|) == Absorb(x, chunk)
    decreases |chunk|
  {
    hide Compress;
    if chunk == [] {
      assert x.m[..x.count] + chunk + x.m[x.count..] == x.m;
    } else {
      var last := |chunk| - 1;
      var head, b := chunk[..last], chunk[last];
      ChunkIsBytes(x, head);
      assert chunk == head + [b];
      TookOneMore(x, head, b);
      hide Took, Counted;
      TookAndCounted(Took(x, head), [b], last);
      CountedTwice(Took(x, chunk), last, 1);
    }
  }

  /** sha1_loop, whatever its chunks, takes the bytes one at a time. */
  lemma {:induction false} LoopIsAbsorb(x: Context, input: seq<Byte>)
    requires x.Valid()
    ensures Loop(x, input) == Absorb(x, input)
    decreases |input|
  {
    hide Took, Counted;
    if input != [] {
      var gap := 64 - x.count;
      var n := if gap < |input| then gap else |input|;
      ChunkIsBytes(x, input[..n]);
      LoopIsAbsorb(Absorb(x, input[..n]), input[n..]);
      AbsorbTwice(x, input[..n], input[n..]);
      assert input[..n] + input[n..] == input;
    }
  }

  /** From any context, two calls do what one call on the whole input does. */
  lemma StreamingIsChunkIndependent(x: Context, a: seq<Byte>, b: seq<Byte>)
    requires x.Valid()
    ensures Loop(Loop(x, a), b) == Loop(x, a + b)
  {
    LoopIsAbsorb(x, a);
    LoopIsAbsorb(Loop(x, a), b);
    LoopIsAbsorb(x, a + b);
    AbsorbTwice(x, a, b);
  }

  // -------------------------------------------------------- the digest

  /** The context has hashed the whole blocks of the data and holds the rest. */
  ghost predicate Holds(x: Context, data: seq<Byte>) {
    && x.Valid() && x.count == |data| % 64
    && x.h == HashBlocks(H0, data[..|data| - |data| % 64])
    && x.m[..x.count] == data[|data| - |data| % 64..]
  }

  lemma {:induction false} HashBlocksAppend(h: Chain, data: seq<Byte>, m: Block)
    requires |data| % 64 == 0
    ensures HashBlocks(h, data + m) == Compress(HashBlocks(h, data), m)
    decreases |data|
  {
    hide Compress;
    if data == [] {
      assert data + m == m;
      assert m[..64] == m && m[64..] == [];
      assert HashBlocks(Compress(h, m), []) == Compress(h, m);
    } else {
      assert |data| >= 64;
      assert (data + m)[..64] == data[..64] && (data + m)[64..] == data[64..] + m;
      HashBlocksAppend(Compress(h, data[..64]), data[64..], m);
    }
  }

  lemma SplitAt64(n: nat, k: nat)
    requires n % 64 + k <= 64
    ensures (n + k) % 64 == if n % 64 + k == 64 then 0 else n % 64 + k
  {
  }

  lemma TookHolds(x: Context, data: seq<Byte>, chunk: seq<Byte>)
    requires Holds(x, data) && x.count + |chunk| <= 64
    ensures Holds(Took(x, chunk), data + chunk)
  {
    hide Compress, HashBlocks;
    SplitAt64(|data|, |chunk|);
    var whole := |data| - |data| % 64;
    var all := data + chunk;
    var m := x.m[..x.count] + chunk + x.m[x.count + |chunk|..];
    if x.count + |chunk| == 64 {
      assert m == data[whole..] + chunk;
      HashBlocksAppend(H0, data[..whole], m);
      assert all[..|all|] == data[..whole] + m;
      assert Zeros(64)[..0] == all[|all|..];
    } else {
      assert all[..whole] == data[..whole];
      assert m[..x.count + |chunk|] == all[whole..];
    }
  }

  lemma CountedHolds(x: Context, data: seq<Byte>, n: nat)
    requires Holds(x, data)
    ensures Holds(Counted(x, n), data)
  {
  }

  lemma StartHolds()
    ensures Holds(START, [])
  {
  }

  lemma BitsOfMore(n: nat)
    ensures (8 * n % TWO64 + 8) % TWO64 == 8 * (n + 1) % TWO64
  {
  }

  lemma {:induction false} AbsorbHolds(msg: seq<Byte>)
    ensures var x := Absorb(START, msg); Holds(x, msg) && x.bits == 8 * |msg| % TWO64
  {
    hide Holds, Took;
    if msg == [] {
      StartHolds();
    } else {
      var last := |msg| - 1;
      AbsorbHolds(msg[..last]);
      var x := Absorb(START, msg[..last]);
      TookHolds(x, msg[..last], [msg[last]]);
      assert msg[..last] + [msg[last]] == msg;
      CountedHolds(Took(x, [msg[last]]), msg, 1);
      BitsOfMore(last);
    }
  }

  lemma HoldsCount(x: Context, data: seq<Byte>)
    requires Holds(x, data)
    ensures x.Valid() && x.count == |data| % 64
  {
  }

  /** The padding of the source is the padding of the standard, with one or two blocks. */
  lemma PadHolds(x: Context, msg: seq<Byte>)
    requires Holds(x, msg) && x.bits == 8 * |msg| % TWO64
    ensures Holds(Pad(x), Padded(msg))
  {
    hide Holds, Took, LengthBytes;
    HoldsCount(x, msg);
    var r := |msg| % 64;
    var y := Took(x, [0x80]);
    var d := msg + [0x80];
    TookHolds(x, msg, [0x80]);
    HoldsCount(y, d);
    SplitAt64(|msg|, 1);
    if 64 - y.count < 8 {
      TookHolds(y, d, Zeros(64 - y.count));
      var z := Took(y, Zeros(64 - y.count));
      HoldsCount(z, d + Zeros(64 - y.count));
      SplitAt64(|d|, 64 - y.count);
      TookHolds(z, d + Zeros(64 - y.count), Zeros(56));
      assert d + Zeros(64 - y.count) + Zeros(56) == d + Zeros(ZeroPadding(|msg|));
    } else {
      TookHolds(y, d, Zeros(56 - y.count));
    }
    TookHolds(PadZeros(x), d + Zeros(ZeroPadding(|msg|)), LengthBytes(x.bits));
  }

  /** sha1: the digest of the standard, for every byte string. */
  lemma StreamDigest(msg: seq<Byte>)
    ensures ChainBytes(Pad(Loop(START, msg)).h) == Digest(msg)
  {
    hide Pad, HashBlocks, ChainBytes, Padded;
    LoopIsAbsorb(START, msg);
    AbsorbHolds(msg);
    PadHolds(Loop(START, msg), msg);
    var p := Padded(msg);
    assert p[..|p| - |p| % 64] == p;
  }
}
