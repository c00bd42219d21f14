// CRC-32C, the reflected bitwise form, on the 32 bits of the register: which errors it must
// catch, and why checksumming in chunks is checksumming the whole.
module Crc32c {
  type Reg = c: seq<bool> | |c| == 32 witness Falses(32)   // bit 0 first
  type Octet = b: seq<bool> | |b| == 8 witness Falses(8)

  function Falses(n: nat): (z: seq<bool>)
    ensures |z| == n && forall i :: 0 <= i < n ==> !z[i]
  {
    seq<bool>(n, i => false)
  }

  // 0x1EDC6F41 reflected, that is 0x82F63B78, low byte first.
  const POLY_78: Octet := [false, false, false, true, true, true, true, false]
  const POLY_3B: Octet := [true, true, false, true, true, true, false, false]
  const POLY_F6: Octet := [false, true, true, false, true, true, true, true]
  const POLY_82: Octet := [false, true, false, false, false, false, false, true]
  const POLY: Reg := POLY_78 + POLY_3B + POLY_F6 + POLY_82

  const ONES: Reg := Fill(true)

  function Fill(b: bool): Reg { seq<bool>(32, i => b) }

  function Value(bits: seq<bool>): nat {
    if bits == [] then 0 else (if bits[0] then 1 else 0) + 2 * Value(bits[1..])
  }

  lemma {:induction false} ValueAppend(a: seq<bool>, b: seq<bool>)
    ensures Value(a + b) == Value(a) + Pow2(|a|) * Value(b)
  {
    if a == [] {
      assert a + b == b;
    } else {
      assert (a + b)[1..] == a[1..] + b;
      ValueAppend(a[1..], b);
      Doubled(Value(a[1..]), Pow2(|a| - 1), Value(b));
    }
  }

  lemma Doubled(u: nat, p: nat, v: nat)
    ensures 2 * (u + p * v) == 2 * u + (2 * p) * v
  {}

  function Pow2(n: nat): nat { if n == 0 then 1 else 2 * Pow2(n - 1) }

  lemma OctetValues()
    ensures Value(POLY_78) == 0x78 && Value(POLY_3B) == 0x3B && Value(POLY_F6) == 0xF6 && Value(POLY_82) == 0x82
  {
    assert Value([false, true, true, true, true]) == 30;
    assert Value([true, true]) == 3;
    assert POLY_78 == [false, false, false] + [true, true, true, true, false];
  }

  lemma PolyValue()
    ensures Value(POLY) == 0x82F63B78
  {
    hide Value;
    OctetValues();
    ValueAppend(POLY_78, POLY_3B + POLY_F6 + POLY_82);
    ValueAppend(POLY_3B, POLY_F6 + POLY_82);
    ValueAppend(POLY_F6, POLY_82);
    assert POLY == POLY_78 + (POLY_3B + POLY_F6 + POLY_82)
      && POLY_3B + POLY_F6 + POLY_82 == POLY_3B + (POLY_F6 + POLY_82);
    assert Pow2(8) == 256;
  }

  function Xor(x: Reg, y: Reg): Reg { seq<bool>(32, i requires 0 <= i < 32 => x[i] != y[i]) }

  function And(x: Reg, y: Reg): Reg { seq<bool>(32, i requires 0 <= i < 32 => x[i] && y[i]) }

  function ShiftRight(x: Reg): Reg { x[1..] + [false] }

  // A string of at most 32 bits in the low end of the register.
  function Pad(w: seq<bool>): Reg
    requires |w| <= 32
  {
    w + Falses(32 - |w|)
  }

  // One shift of the register.
  function Step(c: Reg): Reg {
    Xor(ShiftRight(c), if c[0] then POLY else Pad([]))
  }

  function Steps(c: Reg, n: nat): Reg
    decreases n
  {
    if n == 0 then c else Steps(Step(c), n - 1)
  }

  // The register after a string of bits, first bit first.
  function FoldBits(c: Reg, w: seq<bool>): Reg
    decreases |w|
  {
    if w == [] then c else FoldBits(Step(Xor(c, Pad([w[0]]))), w[1..])
  }

  function Bits(m: seq<Octet>): (w: seq<bool>)
    ensures |w| == 8 * |m|
  {
    if m == [] then [] else Bits(m[..|m| - 1]) + m[|m| - 1]
  }

  // The checksum by definition: shift every bit of the message through the register.
  function Crc(m: seq<Octet>): Reg { Xor(FoldBits(ONES, Bits(m)), ONES) }

  // ---- words of bits ----------------------------------------------------------------------------------------

  // Up to 32 bits may be put into the register at once and shifted afterwards.
  lemma {:induction false} FoldAtOnce(c: Reg, w: seq<bool>)
    requires |w| <= 32
    ensures FoldBits(c, w) == Steps(Xor(c, Pad(w)), |w|)
    decreases |w|
  {
    if w == [] {
      assert Xor(c, Pad(w)) == c;
    } else {
      var c1 := Step(Xor(c, Pad([w[0]])));
      FoldAtOnce(c1, w[1..]);
      assert Step(Xor(c, Pad(w))) == Xor(c1, Pad(w[1..]));
    }
  }

  lemma {:induction false} FoldBitsAppend(c: Reg, a: seq<bool>, b: seq<bool>)
    ensures FoldBits(c, a + b) == FoldBits(FoldBits(c, a), b)
    decreases |a|
  {
    if a == [] {
      assert a + b == b;
    } else {
      assert (a + b)[1..] == a[1..] + b;
      FoldBitsAppend(Step(Xor(c, Pad([a[0]]))), a[1..], b);
    }
  }

  lemma {:induction false} StepsNext(c: Reg, n: nat)
    ensures Steps(c, n + 1) == Step(Steps(c, n))
    decreases n
  {
    if n > 0 { StepsNext(Step(c), n - 1); }
  }

  // crc32c_update: a byte is put in at once, then eight shifts in the mask form.
  method Update(crc0: Reg, data: seq<Octet>) returns (crc: Reg)
    ensures crc == FoldBits(crc0, Bits(data))
  {
    crc := crc0;
    var i := 0;
    while i < |data|
      invariant i <= |data| && crc == FoldBits(crc0, Bits(data[..i]))
    {
      ghost var was := crc;
      crc := Xor(crc, Pad(data[i]));
      var k := 0;
      while k < 8
        invariant k <= 8 && crc == Steps(Xor(was, Pad(data[i])), k)
      {
        var mask := Fill(crc[0]);   // 0 - (crc & 1)
        StepsNext(Xor(was, Pad(data[i])), k);
        assert Xor(ShiftRight(crc), And(POLY, mask)) == Step(crc);
        crc := Xor(ShiftRight(crc), And(POLY, mask));
        k := k + 1;
      }
      FoldAtOnce(was, data[i]);
      FoldBitsAppend(crc0, Bits(data[..i]), data[i]);
      assert data[..i + 1][..i] == data[..i];
      i := i + 1;
    }
    assert data[..i] == data;
  }

  // ---- chunks --------------------------------------------------------------------------------------------------

  lemma {:induction false} BitsAppend(a: seq<Octet>, b: seq<Octet>)
    ensures Bits(a + b) == Bits(a) + Bits(b)
    decreases |b|
  {
    if b == [] {
      assert a + b == a;
    } else {
      assert (a + b)[..|a + b| - 1] == a + b[..|b| - 1];
      BitsAppend(a, b[..|b| - 1]);
    }
  }

  function Concat(chunks: seq<seq<Octet>>): seq<Octet> {
    if chunks == [] then [] else Concat(chunks[..|chunks| - 1]) + chunks[|chunks| - 1]
  }

  // The running checksum of mkfs: fold chunk after chunk, finalise at the end.  It is the
  // checksum of the whole buffer, which mount compares against.
  method UpdateChunks(chunks: seq<seq<Octet>>) returns (crc: Reg)
    ensures crc == Crc(Concat(chunks))
  {
    var running := ONES;
    var j := 0;
    while j < |chunks|
      invariant j <= |chunks| && running == FoldBits(ONES, Bits(Concat(chunks[..j])))
    {
      var before := Concat(chunks[..j]);
      BitsAppend(before, chunks[j]);
      FoldBitsAppend(ONES, Bits(before), Bits(chunks[j]));
      assert chunks[..j + 1][..j] == chunks[..j];
      running := Update(running, chunks[j]);
      j := j + 1;
    }
    assert chunks[..j] == chunks;
    crc := Xor(running, ONES);
  }

  // ---- errors ----------------------------------------------------------------------------------------------------

  // No shift loses information: the top bit of the polynomial is set.
  lemma StepInjective(x: Reg, y: Reg)
    requires Step(x) == Step(y)
    ensures x == y
  {
    assert Step(x)[31] == x[0] && Step(y)[31] == y[0];
    forall i | 0 < i < 32 ensures x[i] == y[i] {
      assert Step(x)[i - 1] == (x[i] != (x[0] && POLY[i - 1]));
      assert Step(y)[i - 1] == (y[i] != (y[0] && POLY[i - 1]));
    }
  }

  lemma {:induction false} StepsInjective(x: Reg, y: Reg, n: nat)
    requires Steps(x, n) == Steps(y, n)
    ensures x == y
    decreases n
  {
    if n > 0 {
      StepsInjective(Step(x), Step(y), n - 1);
      StepInjective(x, y);
    }
  }

  lemma XorInjective(x: Reg, y: Reg, z: Reg)
    requires Xor(x, z) == Xor(y, z) || Xor(z, x) == Xor(z, y)
    ensures x == y
  {
    forall i | 0 <= i < 32 ensures x[i] == y[i] {
      assert Xor(x, z)[i] == (x[i] != z[i]) && Xor(y, z)[i] == (y[i] != z[i]);
      assert Xor(z, x)[i] == (z[i] != x[i]) && Xor(z, y)[i] == (z[i] != y[i]);
    }
  }

  // Equal registers after the same bits were equal before them.
  lemma {:induction false} FoldInjective(x: Reg, y: Reg, w: seq<bool>)
    requires FoldBits(x, w) == FoldBits(y, w)
    ensures x == y
    decreases |w|
  {
    if w != [] {
      var b := Pad([w[0]]);
      FoldInjective(Step(Xor(x, b)), Step(Xor(y, b)), w[1..]);
      StepInjective(Xor(x, b), Xor(y, b));
      XorInjective(x, y, b);
    }
  }

  // Up to 32 bits are determined by what they do to a register.
  lemma WindowInjective(c: Reg, a: seq<bool>, b: seq<bool>)
    requires |a| == |b| <= 32 && FoldBits(c, a) == FoldBits(c, b)
    ensures a == b
  {
    FoldAtOnce(c, a);
    FoldAtOnce(c, b);
    StepsInjective(Xor(c, Pad(a)), Xor(c, Pad(b)), |a|);
    XorInjective(Pad(a), Pad(b), c);
    assert a == Pad(a)[..|a|] && b == Pad(b)[..|b|];
  }

  // Two bit strings that differ only within a window of 32 bits fold to different registers.
  lemma BurstFolds(c: Reg, pre: seq<bool>, a: seq<bool>, b: seq<bool>, post: seq<bool>)
    requires |a| == |b| <= 32 && a != b
    ensures FoldBits(c, pre + a + post) != FoldBits(c, pre + b + post)
  {
    FoldBitsAppend(c, pre + a, post);
    FoldBitsAppend(c, pre, a);
    FoldBitsAppend(c, pre + b, post);
    FoldBitsAppend(c, pre, b);
    if FoldBits(c, pre + a + post) == FoldBits(c, pre + b + post) {
      FoldInjective(FoldBits(FoldBits(c, pre), a), FoldBits(FoldBits(c, pre), b), post);
      WindowInjective(FoldBits(c, pre), a, b);
    }
  }

  // Every burst of up to 32 bits is caught: messages of one length whose bits differ only inside
  // a 32-bit window, wherever it starts, have different checksums.
  lemma BurstCaught(m: seq<Octet>, m': seq<Octet>, at: nat, len: nat)
    requires |m| == |m'| && at + len <= 8 * |m| && len <= 32 && Bits(m) != Bits(m')
    requires forall i :: 0 <= i < 8 * |m| && !(at <= i < at + len) ==> Bits(m)[i] == Bits(m')[i]
    ensures Crc(m) != Crc(m')
  {
    hide Bits, FoldBits, Xor;
    var w, w' := Bits(m), Bits(m');
    var pre, a, post := w[..at], w[at..at + len], w[at + len..];
    var a' := w'[at..at + len];
    assert w == pre + a + post;
    assert w' == pre + a' + post;
    BurstFolds(ONES, pre, a, a', post);
    if Crc(m) == Crc(m') { XorInjective(FoldBits(ONES, w), FoldBits(ONES, w'), ONES); }
  }

  lemma {:induction false} BitsInjective(m: seq<Octet>, m': seq<Octet>)
    requires |m| == |m'| && Bits(m) == Bits(m')
    ensures m == m'
  {
    if m != [] {
      var r, r' := m[..|m| - 1], m'[..|m'| - 1];
      assert Bits(m)[..8 * |r|] == Bits(r) && Bits(m')[..8 * |r|] == Bits(r');
      assert Bits(m)[8 * |r|..] == m[|m| - 1] && Bits(m')[8 * |r|..] == m'[|m'| - 1];
      BitsInjective(r, r');
      assert m == r + [m[|m| - 1]] && m' == r' + [m'[|m'| - 1]];
    }
  }

  // In particular, four consecutive bytes in error never pass.
  lemma FourBytesCaught(pre: seq<Octet>, a: seq<Octet>, b: seq<Octet>, post: seq<Octet>)
    requires |a| == |b| <= 4 && a != b
    ensures Crc(pre + a + post) != Crc(pre + b + post)
  {
    BitsAppend(pre + a, post);
    BitsAppend(pre, a);
    BitsAppend(pre + b, post);
    BitsAppend(pre, b);
    if Bits(a) == Bits(b) { BitsInjective(a, b); }
    BurstFolds(ONES, Bits(pre), Bits(a), Bits(b), Bits(post));
    if Crc(pre + a + post) == Crc(pre + b + post) {
      XorInjective(FoldBits(ONES, Bits(pre + a + post)), FoldBits(ONES, Bits(pre + b + post)), ONES);
    }
  }

  // ---- polynomials -------------------------------------------------------------------------------------------------

  // The powers of x in the Castagnoli polynomial.
  const EXPONENTS: set<nat> := {32, 28, 27, 26, 25, 23, 22, 20, 19, 18, 14, 13, 11, 10, 9, 8, 6, 0}

  // Its coefficients, highest power first.
  function Generator(): (p: seq<bool>)
    ensures |p| == 33
  {
    seq<bool>(33, i requires 0 <= i < 33 => 32 - i in EXPONENTS)
  }

  function Sum(a: seq<bool>, b: seq<bool>): (c: seq<bool>)
    requires |a| == |b|
    ensures |c| == |a|
  {
    seq<bool>(|a|, i requires 0 <= i < |a| => a[i] != b[i])
  }

  // Long division by the generator, on coefficients modulo 2, highest power first.
  function Remainder(u: seq<bool>): (r: Reg)
    requires |u| >= 32
    decreases |u|
  {
    if |u| == 32 then u
    else if u[0] then Remainder(Sum(u, Generator() + Falses(|u| - 33))[1..])
    else Remainder(u[1..])
  }

  lemma PolyIsGenerator(i: nat)
    requires i < 32
    ensures Generator()[i + 1] == POLY[i] && Generator()[0]
  {}

  // One step of the division, when the register holds the first 32 coefficients.
  lemma DivideStep(c: Reg, w: seq<bool>)
    requires w != []
    ensures var n := |w|; var c' := Step(Xor(c, Pad([w[0]])));
      Remainder(Sum(c + Falses(n), w + Falses(32))) == Remainder(Sum(c' + Falses(n - 1), w[1..] + Falses(32)))
  {
    var n := |w|;
    var u := Sum(c + Falses(n), w + Falses(32));
    var x := Xor(c, Pad([w[0]]));
    var v := Sum(Step(x) + Falses(n - 1), w[1..] + Falses(32));
    var q := Generator() + Falses(n - 1);
    assert x[0] == u[0] && forall i :: 0 < i < 32 ==> x[i] == c[i];
    forall i | 0 <= i < n + 31 ensures v[i] == (u[i + 1] != (u[0] && q[i + 1])) {
      if i < 32 {
        PolyIsGenerator(i);
        assert Step(x)[i] == ((if i < 31 then x[i + 1] else false) != (x[0] && POLY[i]));
      }
    }
    if u[0] {
      assert Sum(u, q)[1..] == v;
    } else {
      assert u[1..] == v;
    }
  }

  // Shifting bits through the register divides: the register is the remainder of the string with the register's start
  // value added to its first 32 coefficients.
  lemma {:induction false} FoldDivides(c: Reg, w: seq<bool>)
    ensures FoldBits(c, w) == Remainder(Sum(c + Falses(|w|), w + Falses(32)))
    decreases |w|
  {
    if w == [] {
      assert Sum(c + Falses(0), [] + Falses(32)) == c;
    } else {
      FoldDivides(Step(Xor(c, Pad([w[0]]))), w[1..]);
      DivideStep(c, w);
    }
  }

  lemma {:induction false} RemainderAdds(u: seq<bool>, r: Reg)
    requires |u| >= 32
    ensures Remainder(Sum(u, Falses(|u| - 32) + r)) == Xor(Remainder(u), r)
    decreases |u|
  {
    var n := |u| - 32;
    var v := Sum(u, Falses(n) + r);
    if n == 0 {
      assert v == Xor(u, r);
    } else {
      assert v[0] == u[0];
      var q := Generator() + Falses(|u| - 33);
      if u[0] {
        assert Sum(v, q)[1..] == Sum(Sum(u, q)[1..], Falses(n - 1) + r);
        RemainderAdds(Sum(u, q)[1..], r);
      } else {
        assert v[1..] == Sum(u[1..], Falses(n - 1) + r);
        RemainderAdds(u[1..], r);
      }
    }
  }

  // The checksum by the standard: a message followed by its checksum, with the first 32 bits of the whole and the
  // checksum itself complemented, is a multiple of the generator; and no other 32 bits make it one.
  lemma CodewordDivides(m: seq<Octet>, r: Reg)
    ensures var n := 8 * |m|;
      Remainder(Sum(ONES + Falses(n), Bits(m) + Xor(r, ONES))) == Falses(32) <==> r == Crc(m)
  {
    hide *;
    var c := FoldBits(ONES, Bits(m));
    RemainderOf(ONES, Bits(m), Xor(r, ONES));
    XorZero(c, Xor(r, ONES));
    CrcIs(m, r);
  }

  lemma CrcIs(m: seq<Octet>, r: Reg)
    ensures r == Crc(m) <==> FoldBits(ONES, Bits(m)) == Xor(r, ONES)
  {
    hide FoldBits, Bits, Xor;
    XorTwice(r, ONES);
    XorTwice(FoldBits(ONES, Bits(m)), ONES);
  }

  lemma RemainderOf(c: Reg, w: seq<bool>, s: Reg)
    ensures Remainder(Sum(c + Falses(|w|), w + s)) == Xor(FoldBits(c, w), s)
  {
    hide FoldBits, Remainder, Sum, Xor;
    FoldDivides(c, w);
    RemainderAdds(Sum(c + Falses(|w|), w + Falses(32)), s);
    TailAdds(c, w, s);
  }

  lemma TailAdds(c: Reg, w: seq<bool>, s: Reg)
    ensures Sum(c + Falses(|w|), w + s) == Sum(Sum(c + Falses(|w|), w + Falses(32)), Falses(|w|) + s)
  {
    var a, b, z := c + Falses(|w|), w + Falses(32), Falses(|w|) + s;
    forall i | 0 <= i < |w| + 32 ensures (w + s)[i] == (b[i] != z[i]) {}
  }

  lemma XorZero(x: Reg, y: Reg)
    ensures Xor(x, y) == Falses(32) <==> x == y
  {
    if Xor(x, y) == Falses(32) {
      forall i | 0 <= i < 32 ensures x[i] == y[i] { assert !Xor(x, y)[i]; }
    }
  }

  lemma XorTwice(x: Reg, y: Reg)
    ensures Xor(Xor(x, y), y) == x
  {}
}
