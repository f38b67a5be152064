/** The SHA-1 context of device/sha1.c, updated in place: the 16-word circular
    schedule and the four loops of sha1_step, the copying loop of sha1_loop and
    the padding. */
module Sha1Object {
  import opened Sha1

  // ------------------------------------------------------- the 16-word schedule

  /** The oldest schedule word still held before round t. */
  function Oldest(t: nat): nat { if t < 16 then 0 else t - 16 }

  /** The 16 words before round t: the last 16 of the 80-word schedule, each at its number modulo 16. */
  ghost predicate Window(w: seq<Word>, m: Block, t: nat) {
    |w| == 16 && forall i :: Oldest(t) <= i < Oldest(t) + 16 ==> w[i % 16] == W(m, i)
  }

  /** The word that replaces slot s. */
  function NewWord(w: seq<Word>, s: nat): Word
    requires |w| == 16 && s < 16
  {
    Mix(w[(s + 13) % 16], w[(s + 8) % 16], w[(s + 2) % 16], w[s])
  }

  lemma Remainder16(q: nat, r: nat)
    requires r < 16
    ensures (16 * q + r) % 16 == r
  {
  }

  /** The slot of the schedule word that lies k rounds back. */
  lemma SlotBack(t: nat, k: nat)
    requires 0 < k <= 16 <= t
    ensures (t - k) % 16 == if t % 16 >= k then t % 16 - k else t % 16 + 16 - k
  {
    var q, s := t / 16, t % 16;
    assert t == 16 * q + s;
    if s >= k {
      Remainder16(q, s - k);
    } else {
      Remainder16(q - 1, s + 16 - k);
      assert t - k == 16 * (q - 1) + (s + 16 - k);
    }
  }

  lemma SlotsBack(t: nat)
    requires t >= 16
    ensures var s := t % 16;
      (t - 3) % 16 == (s + 13) % 16 && (t - 8) % 16 == (s + 8) % 16 && (t - 14) % 16 == (s + 2) % 16 && (t - 16) % 16 == s
  {
    SlotBack(t, 3);
    SlotBack(t, 8);
    SlotBack(t, 14);
    SlotBack(t, 16);
  }

  lemma OtherSlot(t: nat, i: nat)
    requires t - 16 < i < t
    ensures i % 16 != t % 16
  {
  }

  /** From round 16 on, the replaced word is the word of the round, and the window moves on. */
  lemma WindowMoves(w: seq<Word>, m: Block, t: nat)
    requires Window(w, m, t) && t >= 16
    ensures NewWord(w, t % 16) == W(m, t)
    ensures Window(w[t % 16 := NewWord(w, t % 16)], m, t + 1)
  {
    NewWordIsNext(w, m, t);
    hide Mix, BlockWord, NewWord, W;
    var w' := w[t % 16 := W(m, t)];
    forall i | t - 16 < i <= t ensures w'[i % 16] == W(m, i) {
      if i < t {
        OtherSlot(t, i);
      }
    }
  }

  lemma NewWordIsNext(w: seq<Word>, m: Block, t: nat)
    requires Window(w, m, t) && t >= 16
    ensures NewWord(w, t % 16) == W(m, t)
  {
    SlotsBack(t);
    assert W(m, t) == Mix(W(m, t - 3), W(m, t - 8), W(m, t - 14), W(m, t - 16));
    hide Mix, W;
    assert w[(t - 3) % 16] == W(m, t - 3) && w[(t - 8) % 16] == W(m, t - 8);
    assert w[(t - 14) % 16] == W(m, t - 14) && w[(t - 16) % 16] == W(m, t - 16);
  }

  lemma FirstWords(w: seq<Word>, m: Block, t: nat)
    requires Window(w, m, t) && t < 16
    ensures w[t] == W(m, t) && Window(w, m, t + 1)
  {
    assert w[t % 16] == W(m, t);
  }

  /** Byte i of a block, with the bytes of each word reversed. */
  function Swapped(i: nat): nat {
    if i % 4 == 0 then i + 3 else if i % 4 == 1 then i + 1 else if i % 4 == 2 then i - 1 else i - 3
  }

  ghost predicate SwappedUpTo(a: seq<Byte>, m: Block, n: nat) {
    |a| == 64 && forall i :: 0 <= i < 64 ==> a[i] == if i < n then m[Swapped(i)] else m[i]
  }

  function WithWordSwapped(a: seq<Byte>, s: nat): seq<Byte>
    requires |a| == 64 && s < 16
  {
    a[4 * s := a[4 * s + 3]][4 * s + 1 := a[4 * s + 2]][4 * s + 2 := a[4 * s + 1]][4 * s + 3 := a[4 * s]]
  }

  lemma SwapNext(a: seq<Byte>, m: Block, s: nat)
    requires |a| == 64 && s < 16 && SwappedUpTo(a, m, 4 * s)
    ensures SwappedUpTo(WithWordSwapped(a, s), m, 4 * s + 4)
  {
    var b := WithWordSwapped(a, s);
    forall i | 0 <= i < 64 ensures b[i] == if i < 4 * s + 4 then m[Swapped(i)] else m[i] {
    }
  }

  lemma NothingSwapped(m: Block)
    ensures SwappedUpTo(m, m, 0)
  {
  }

  lemma SwappedWord(a: seq<Byte>, m: Block, s: nat)
    requires SwappedUpTo(a, m, 64) && s < 16
    ensures LittleEndian(a[4 * s], a[4 * s + 1], a[4 * s + 2], a[4 * s + 3]) == BlockWord(m, s)
  {
    hide BigEndian;
    assert a[4 * s] == m[4 * s + 3] && a[4 * s + 1] == m[4 * s + 2] && a[4 * s + 2] == m[4 * s + 1] && a[4 * s + 3] == m[4 * s];
  }

  lemma FirstWindow(w: seq<Word>, m: Block)
    requires |w| == 16 && forall i :: 0 <= i < 16 ==> w[i] == BlockWord(m, i)
    ensures Window(w, m, 0)
  {
    hide BlockWord;
    forall i | 0 <= i < 16 ensures w[i % 16] == W(m, i) {
    }
  }

  class Sha1Context {
    const h: array<Word>
    const m: array<Byte>
    var count: nat
    var bits: nat

    ghost predicate Valid()
      reads this, h, m
    {
      h.Length == 5 && m.Length == 64 && count < 64 && bits < TWO64
    }

    ghost function Contents(): (x: Context)
      requires Valid()
      reads this, h, m
      ensures x.Valid()
    {
      Context(Chain(h[0], h[1], h[2], h[3], h[4]), m[..], count, bits)
    }

    /** sha1_init. */
    constructor ()
      ensures Valid() && Contents() == START && fresh(h) && fresh(m)
    {
      h := new Word[] [0x67452301, 0xEFCDAB89, 0x98BADCFE, 0x10325476, 0xC3D2E1F0];
      m := new Byte[64](_ => 0);
      count, bits := 0, 0;
      new;
      assert m[..] == Zeros(64);
    }

    /** The byte swaps of sha1_step. */
    method SwapBytes()
      requires Valid()
      modifies m
      ensures SwappedUpTo(m[..], old(m[..]), 64)
    {
      hide SwappedUpTo;
      NothingSwapped(m[..]);
      var s: nat := 0;
      while s < 16
        invariant s <= 16 && SwappedUpTo(m[..], old(m[..]), 4 * s)
      {
        ghost var a := m[..];
        m[4 * s], m[4 * s + 1], m[4 * s + 2], m[4 * s + 3] := m[4 * s + 3], m[4 * s + 2], m[4 * s + 1], m[4 * s];
        assert m[..] == WithWordSwapped(a, s);
        SwapNext(a, old(m[..]), s);
        s := s + 1;
      }
    }

    /** The view of the swapped block as words. */
    method BlockWords(ghost block: Block) returns (w: array<Word>)
      requires Valid() && SwappedUpTo(m[..], block, 64)
      ensures fresh(w) && w.Length == 16 && Window(w[..], block, 0)
    {
      hide BigEndian;
      w := new Word[16](_ => 0);
      var s: nat := 0;
      while s < 16
        invariant s <= 16
        invariant forall i :: 0 <= i < s ==> w[i] == BlockWord(block, i)
      {
        SwappedWord(m[..], block, s);
        w[s] := LittleEndian(m[4 * s], m[4 * s + 1], m[4 * s + 2], m[4 * s + 3]);
        s := s + 1;
      }
      FirstWindow(w[..], block);
    }

    /** The four loops of sha1_step. */
    method RunRounds(w: array<Word>, ghost block: Block, x: Chain) returns (y: Chain)
      requires w.Length == 16 && Window(w[..], block, 0)
      modifies w
      ensures y == Rounds(block, x, 80)
    {
      hide Window, Temp, Rotate30, Choose, Parity, Majority, Mix, W, NewWord;
      var a, b, c, d, e := x.a, x.b, x.c, x.d, x.e;
      var t: nat := 0;
      while t < 20
        invariant t <= 20 && w.Length == 16
        invariant Window(w[..], block, t) && Chain(a, b, c, d, e) == Rounds(block, x, t)
      {
        var s := t % 16;
        if t >= 16 {
          WindowMoves(w[..], block, t);
          w[s] := NewWord(w[..], s);
        } else {
          FirstWords(w[..], block, t);
        }
        var tmp := Temp(a, Choose(b, c, d), e, w[s], K(t));
        e, d, c, b, a := d, c, Rotate30(b), a, tmp;
        t := t + 1;
      }
      while t < 40
        invariant 20 <= t <= 40 && w.Length == 16
        invariant Window(w[..], block, t) && Chain(a, b, c, d, e) == Rounds(block, x, t)
      {
        var s := t % 16;
        WindowMoves(w[..], block, t);
        w[s] := NewWord(w[..], s);
        var tmp := Temp(a, Parity(b, c, d), e, w[s], K(t));
        e, d, c, b, a := d, c, Rotate30(b), a, tmp;
        t := t + 1;
      }
      while t < 60
        invariant 40 <= t <= 60 && w.Length == 16
        invariant Window(w[..], block, t) && Chain(a, b, c, d, e) == Rounds(block, x, t)
      {
        var s := t % 16;
        WindowMoves(w[..], block, t);
        w[s] := NewWord(w[..], s);
        var tmp := Temp(a, Majority(b, c, d), e, w[s], K(t));
        e, d, c, b, a := d, c, Rotate30(b), a, tmp;
        t := t + 1;
      }
      while t < 80
        invariant 60 <= t <= 80 && w.Length == 16
        invariant Window(w[..], block, t) && Chain(a, b, c, d, e) == Rounds(block, x, t)
      {
        var s := t % 16;
        WindowMoves(w[..], block, t);
        w[s] := NewWord(w[..], s);
        var tmp := Temp(a, Parity(b, c, d), e, w[s], K(t));
        e, d, c, b, a := d, c, Rotate30(b), a, tmp;
        t := t + 1;
      }
      y := Chain(a, b, c, d, e);
    }

    /** sha1_step: the block is hashed into the chaining words and cleared. */
    method Step()
      requires Valid()
      modifies h, m
      ensures Valid() && Contents() == Context(Compress(old(Contents().h), old(m[..])), Zeros(64), count, bits)
    {
      hide Window, Rounds, Sum;
      ghost var block: Block := m[..];
      SwapBytes();
      var w := BlockWords(block);
      var x := Chain(h[0], h[1], h[2], h[3], h[4]);
      var y := RunRounds(w, block, x);
      h[0], h[1], h[2], h[3], h[4] := Sum(h[0], y.a), Sum(h[1], y.b), Sum(h[2], y.c), Sum(h[3], y.d), Sum(h[4], y.e);
      Clear(0, 64);
      assert m[..] == Zeros(64);
    }

    /** memset(&m.b8[from], 0, n). */
    method Clear(from: nat, n: nat)
      requires from + n <= m.Length
      modifies m
      ensures m[..] == old(m[..])[..from] + Zeros(n) + old(m[..])[from + n..]
    {
      var i := 0;
      while i < n
        invariant 0 <= i <= n
        invariant forall k :: 0 <= k < m.Length ==> m[k] == if from <= k < from + i then 0 else old(m[k])
      {
        m[from + i] := 0;
        i := i + 1;
      }
    }

    /** bcopy of some bytes to the buffer at its count. */
    method Copy(chunk: seq<Byte>)
      requires Valid() && count + |chunk| <= 64
      modifies m
      ensures m[..] == old(m[..])[..count] + chunk + old(m[..])[count + |chunk|..]
    {
      var i := 0;
      while i < |chunk|
        invariant 0 <= i <= |chunk|
        invariant forall k :: 0 <= k < 64 ==> m[k] == if count <= k < count + i then chunk[k - count] else old(m[k])
      {
        m[count + i] := chunk[i];
        i := i + 1;
      }
    }

    /** The count after n more bytes, and the step on a full buffer. */
    method Advance(n: nat)
      requires Valid() && 0 < count + n <= 64
      modifies this, h, m
      ensures Valid()
      ensures Contents() == if old(count) + n == 64 then Context(Compress(old(Contents().h), old(m[..])), Zeros(64), 0, old(bits))
                            else old(Contents()).(count := old(count) + n)
    {
      hide Compress;
      count := (count + n) % 64;
      if count == 0 {
        Step();
      }
    }

    /** One turn of the loop of sha1_loop. */
    method Take(chunk: seq<Byte>)
      requires Valid() && 0 < |chunk| <= 64 - count
      modifies this, h, m
      ensures Valid() && Contents() == Counted(Took(old(Contents()), chunk), |chunk|)
    {
      hide Compress;
      Copy(chunk);
      bits := (bits + 8 * |chunk|) % TWO64;
      Advance(|chunk|);
    }

    /** sha1_loop. */
    method Update(input: seq<Byte>)
      requires Valid()
      modifies this, h, m
      ensures Valid() && Contents() == Loop(old(Contents()), input)
    {
      hide Took, Counted;
      var off: nat := 0;
      while off < |input|
        invariant off <= |input| && Valid()
        invariant Loop(Contents(), input[off..]) == Loop(old(Contents()), input)
      {
        var gap := 64 - count;
        var n := if gap < |input| - off then gap else |input| - off;
        ghost var rest := input[off..];
        assert input[off..off + n] == rest[..n] && input[off + n..] == rest[n..];
        Take(input[off..off + n]);
        off := off + n;
      }
    }

    /** PUTPAD. */
    method PutPad(b: Byte)
      requires Valid()
      modifies this, h, m
      ensures Valid() && Contents() == Took(old(Contents()), [b])
    {
      hide Compress;
      ghost var x := Contents();
      m[count] := b;
      assert m[..] == x.m[..count] + [b] + x.m[count + 1..];
      Advance(1);
    }

    /** The zero bytes of the padding. */
    method PutZeros(n: nat)
      requires Valid() && 0 < count + n <= 64
      modifies this, h, m
      ensures Valid() && Contents() == Took(old(Contents()), Zeros(n))
    {
      hide Compress;
      Clear(count, n);
      Advance(n);
    }

    /** sha1_pad. */
    method PadOut()
      requires Valid()
      modifies this, h, m
      ensures Valid() && Contents() == Pad(old(Contents()))
    {
      hide Compress, Took, LengthBytes;
      PutPad(0x80);
      if 64 - count < 8 {
        PutZeros(64 - count);
      }
      ghost var y := Contents();
      if 64 - count - 8 > 0 {
        PutZeros(64 - count - 8);
      } else {
        TookNothing(y);
      }
      assert Contents() == PadZeros(old(Contents()));
      ghost var z := Contents();
      TookNothing(z);
      var bytes := LengthBytes(bits);
      var i := 0;
      while i < 8
        invariant 0 <= i <= 8 && Valid() && Contents() == Took(z, bytes[..i])
      {
        TookNext(z, bytes, i);
        PutPad(bytes[i]);
        i := i + 1;
      }
      assert bytes[..8] == bytes;
    }

    /** sha1_result. */
    method Result() returns (digest: seq<Byte>)
      requires Valid()
      modifies this, h, m
      ensures digest == ChainBytes(Pad(old(Contents())).h)
    {
      hide Pad, WordBytes;
      PadOut();
      digest := WordBytes(h[0]) + WordBytes(h[1]) + WordBytes(h[2]) + WordBytes(h[3]) + WordBytes(h[4]);
    }
  }

  lemma TookNothing(x: Context)
    requires x.Valid()
    ensures Took(x, []) == x && Took(x, Zeros(0)) == x
  {
    assert x.m[..x.count] + [] + x.m[x.count..] == x.m;
    assert Zeros(0) == [];
  }

  lemma TookNext(x: Context, bytes: seq<Byte>, i: nat)
    requires x.Valid() && x.count == 56 && |bytes| == 8 && i < 8
    ensures Took(Took(x, bytes[..i]), [bytes[i]]) == Took(x, bytes[..i + 1])
  {
    TookOneMore(x, bytes[..i], bytes[i]);
    assert bytes[..i] + [bytes[i]] == bytes[..i + 1];
  }

  /** sha1: the digest that FIPS 180-1 defines, of any byte string. */
  method Sha1Of(data: seq<Byte>) returns (digest: seq<Byte>)
    ensures digest == Digest(data)
  {
    hide Digest, Pad, Loop, ChainBytes;
    var x := new Sha1Context();
    x.Update(data);
    digest := x.Result();
    StreamDigest(data);
  }
}
