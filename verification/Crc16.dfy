/**
  CRC-16 (`crc16.c`): the table-driven loop computes the remainder of the
  message polynomial times x^16 on division by G(x) = x^16 + x^12 + x^5 + 1.

  Polynomials over GF(2) are sequences of coefficients, highest power first.
  The reference is multiplication by G, not the division loop: a register `u`
  is a remainder of `bits` when `bits` followed by `u` is a multiple of G.
 */
module Crc16 {
  import opened Crc16Table

  type Poly = seq<bool>

  // ---- reference: multiples of G ----

  predicate Coef(q: Poly, i: int) {
    0 <= i < |q| && q[i]
  }

  /** Coefficient `i` of q(x)G(x): the four terms of G shift q by 0, 4, 11 and 16 places. */
  predicate ProductCoef(q: Poly, i: int) {
    ((Coef(q, i) != Coef(q, i - 4)) != Coef(q, i - 11)) != Coef(q, i - 16)
  }

  function TimesG(q: Poly): Poly {
    seq(|q| + 16, i => ProductCoef(q, i))
  }

  /** Dividing `bits` by G gives quotient `q` and remainder `u`. */
  predicate Quotient(bits: Poly, q: Poly, u: Poly) {
    |q| == |bits| && |u| == 16 && TimesG(q) == bits + u
  }

  ghost predicate IsRemainder(bits: Poly, u: Poly) {
    exists q: Poly :: Quotient(bits, q, u)
  }

  // ---- bit-by-bit division ----

  type Reg = u: Poly | |u| == 16 witness seq(16, _ => false)

  /** Shift in one message bit; subtract G when a one falls off the top. */
  function StepReg(u: Reg, b: bool): Reg {
    seq(16, k requires 0 <= k < 16 =>
      (k < 15 && u[k + 1]) != ((u[0] != b) && (k == 3 || k == 10 || k == 15)))
  }

  function Divide(u: Reg, bits: Poly): Reg {
    if bits == [] then u else StepReg(Divide(u, bits[..|bits| - 1]), bits[|bits| - 1])
  }

  function Zeros(n: nat): Poly {
    seq(n, _ => false)
  }

  function Xor(a: Poly, b: Poly): (r: Poly)
    requires |a| == |b|
    ensures |r| == |a|
  {
    seq(|a|, k requires 0 <= k < |a| => a[k] != b[k])
  }

  lemma {:induction false} DivideConcat(u: Reg, a: Poly, b: Poly)
    ensures Divide(u, a + b) == Divide(Divide(u, a), b)
  {
    if b == [] {
      assert a + b == a;
    } else {
      assert (a + b)[..|a + b| - 1] == a + b[..|b| - 1];
      DivideConcat(u, a, b[..|b| - 1]);
    }
  }

  lemma DivideCons(u: Reg, b: bool, rest: Poly)
    ensures Divide(u, [b] + rest) == Divide(StepReg(u, b), rest)
  {
    DivideConcat(u, [b], rest);
    assert [b][..0] == [];
    assert Divide(u, [b]) == StepReg(Divide(u, []), b);
  }

  lemma ProductSnoc(q: Poly, c: bool, i: nat)
    ensures ProductCoef(q + [c], i) ==
            (ProductCoef(q, i) != (c && (i == |q| || i == |q| + 4 || i == |q| + 11 || i == |q| + 16)))
  {
    assert forall j :: Coef(q + [c], j) == (Coef(q, j) || (j == |q| && c));
  }

  /** One division step extends the quotient by one bit and keeps the remainder equation. */
  lemma QuotientSnoc(bits: Poly, q: Poly, u: Reg, b: bool)
    requires Quotient(bits, q, u)
    ensures Quotient(bits + [b], q + [u[0] != b], StepReg(u, b))
  {
    var n, c := |bits|, u[0] != b;
    var lhs, rhs := TimesG(q + [c]), bits + [b] + StepReg(u, b);
    forall i | 0 <= i < n + 17
      ensures lhs[i] == rhs[i]
    {
      ProductSnoc(q, c, i);
      assert ProductCoef(q, i) == (i < n + 16 && (bits + u)[i]) by {
        if i < n + 16 {
          assert ProductCoef(q, i) == TimesG(q)[i];
        }
      }
    }
  }

  lemma {:induction false} DivideLeavesRemainder(bits: Poly) returns (q: Poly)
    ensures Quotient(bits, q, Divide(Zeros(16), bits))
  {
    if bits == [] {
      q := [];
      assert TimesG(q) == bits + Zeros(16);
    } else {
      var init := bits[..|bits| - 1];
      var p := DivideLeavesRemainder(init);
      var u := Divide(Zeros(16), init);
      QuotientSnoc(init, p, u, bits[|bits| - 1]);
      q := p + [u[0] != bits[|bits| - 1]];
      assert bits == init + [bits[|bits| - 1]];
    }
  }

  /** The leading coefficients of q(x)G(x) determine q. */
  lemma {:induction false} QuotientUnique(p: Poly, q: Poly, k: nat)
    requires |p| == |q| && k <= |p|
    requires forall i :: 0 <= i < |p| ==> ProductCoef(p, i) == ProductCoef(q, i)
    ensures p[..k] == q[..k]
  {
    if k > 0 {
      QuotientUnique(p, q, k - 1);
      assert forall j :: j < k - 1 ==> Coef(p, j) == Coef(q, j) by {
        assert forall j :: 0 <= j < k - 1 ==> p[j] == p[..k - 1][j] && q[j] == q[..k - 1][j];
      }
      assert ProductCoef(p, k - 1) == ProductCoef(q, k - 1);
      assert p[..k] == p[..k - 1] + [p[k - 1]] && q[..k] == q[..k - 1] + [q[k - 1]];
    }
  }

  lemma RemainderUnique(bits: Poly, p: Poly, u: Poly, q: Poly, v: Poly)
    requires Quotient(bits, p, u) && Quotient(bits, q, v)
    ensures u == v
  {
    forall i | 0 <= i < |p| ensures ProductCoef(p, i) == ProductCoef(q, i) {
      assert TimesG(p)[i] == bits[i] == TimesG(q)[i];
    }
    QuotientUnique(p, q, |p|);
    assert p == p[..|p|] == q[..|q|] == q;
    assert u == (bits + u)[|bits|..] == (bits + v)[|bits|..] == v;
  }

  /** Bit-by-bit division computes the one and only remainder modulo G. */
  lemma DivideIsRemainder(bits: Poly, u: Poly)
    ensures IsRemainder(bits, u) <==> u == Divide(Zeros(16), bits)
  {
    var p := DivideLeavesRemainder(bits);
    if q: Poly :| Quotient(bits, q, u) {
      RemainderUnique(bits, p, Divide(Zeros(16), bits), q, u);
    }
  }

  // ---- linearity and loading ----

  lemma {:induction false} DivideLinear(u: Reg, v: Reg, x: Poly, y: Poly)
    requires |x| == |y|
    ensures Divide(Xor(u, v), Xor(x, y)) == Xor(Divide(u, x), Divide(v, y))
  {
    if x != [] {
      var n := |x| - 1;
      DivideLinear(u, v, x[..n], y[..n]);
      assert Xor(x, y)[..n] == Xor(x[..n], y[..n]);
      var du, dv := Divide(u, x[..n]), Divide(v, y[..n]);
      assert StepReg(Xor(du, dv), x[n] != y[n]) == Xor(StepReg(du, x[n]), StepReg(dv, y[n]));
    }
  }

  lemma LoadOne(u: Reg, b: bool, y: Poly)
    requires |y| <= 15
    ensures StepReg(Xor(u, [b] + y + Zeros(15 - |y|)), false) == Xor(StepReg(u, b), y + Zeros(16 - |y|))
  {
    var x := [b] + y + Zeros(15 - |y|);
    forall k | 0 <= k < 16
      ensures StepReg(Xor(u, x), false)[k] == Xor(StepReg(u, b), y + Zeros(16 - |y|))[k]
    {
      assert k < 15 ==> x[k + 1] == (y + Zeros(16 - |y|))[k];
    }
  }

  /** Feeding up to sixteen bits equals adding them into the register first and feeding zeros. */
  lemma {:induction false} Load(u: Reg, x: Poly)
    requires |x| <= 16
    ensures Divide(u, x) == Divide(Xor(u, x + Zeros(16 - |x|)), Zeros(|x|))
    decreases |x|
  {
    if x == [] {
      assert Xor(u, x + Zeros(16)) == u;
    } else {
      var b, y := x[0], x[1..];
      var loaded := Xor(u, x + Zeros(16 - |x|));
      assert x == [b] + y && Zeros(|x|) == [false] + Zeros(|y|);
      DivideCons(u, b, y);
      DivideCons(loaded, false, Zeros(|y|));
      Load(StepReg(u, b), y);
      LoadOne(u, b, y);
    }
  }

  lemma StepInjective(u: Reg, v: Reg, b: bool)
    requires StepReg(u, b) == StepReg(v, b)
    ensures u == v
  {
    var s, t := StepReg(u, b), StepReg(v, b);
    assert s[15] == t[15];
    forall k | 0 <= k < 16 ensures u[k] == v[k] {
      if k > 0 {
        assert s[k - 1] == t[k - 1];
      }
    }
  }

  lemma {:induction false} DivideInjective(u: Reg, v: Reg, x: Poly)
    requires Divide(u, x) == Divide(v, x)
    ensures u == v
  {
    if x != [] {
      var n := |x| - 1;
      StepInjective(Divide(u, x[..n]), Divide(v, x[..n]), x[n]);
      DivideInjective(u, v, x[..n]);
    }
  }

  /** From the same register, two different sixteen-bit windows never lead to the same register. */
  lemma WindowInjective(u: Reg, x: Poly, y: Poly)
    requires |x| == |y| == 16
    requires Divide(u, x) == Divide(u, y)
    ensures x == y
  {
    Load(u, x);
    Load(u, y);
    assert x + Zeros(0) == x && y + Zeros(0) == y;
    DivideInjective(Xor(u, x), Xor(u, y), Zeros(16));
    forall k | 0 <= k < 16 ensures x[k] == y[k] {
      assert Xor(u, x)[k] == Xor(u, y)[k];
    }
  }

  /** Burst detection on bit strings: a burst of at most sixteen bits always changes the remainder. */
  lemma BurstChangesRemainder(prefix: Poly, x: Poly, y: Poly, suffix: Poly)
    requires |x| == |y| == 16 && x != y
    ensures Divide(Zeros(16), prefix + x + suffix) != Divide(Zeros(16), prefix + y + suffix)
  {
    var u := Divide(Zeros(16), prefix);
    DivideConcat(Zeros(16), prefix, x);
    DivideConcat(Zeros(16), prefix, y);
    DivideConcat(Zeros(16), prefix + x, suffix);
    DivideConcat(Zeros(16), prefix + y, suffix);
    if Divide(Zeros(16), prefix + x + suffix) == Divide(Zeros(16), prefix + y + suffix) {
      DivideInjective(Divide(u, x), Divide(u, y), suffix);
      WindowInjective(u, x, y);
    }
  }

  // ---- words and bytes as bits ----

  /** Bit `k` of a word, counted from the most significant end. */
  predicate Bit(w: bv16, k: nat) {
    match k
    case 0 => w & 0x8000 == 0x8000 case 1 => w & 0x4000 == 0x4000 case 2 => w & 0x2000 == 0x2000
    case 3 => w & 0x1000 == 0x1000 case 4 => w & 0x0800 == 0x0800 case 5 => w & 0x0400 == 0x0400
    case 6 => w & 0x0200 == 0x0200 case 7 => w & 0x0100 == 0x0100 case 8 => w & 0x0080 == 0x0080
    case 9 => w & 0x0040 == 0x0040 case 10 => w & 0x0020 == 0x0020 case 11 => w & 0x0010 == 0x0010
    case 12 => w & 0x0008 == 0x0008 case 13 => w & 0x0004 == 0x0004 case 14 => w & 0x0002 == 0x0002
    case 15 => w & 0x0001 == 0x0001 case _ => false
  }

  function WordBits(w: bv16): Reg {
    seq(16, k requires 0 <= k => Bit(w, k))
  }

  /** The byte moved to the upper half of a word. */
  function High(c: bv8): bv16 {
    (c as bv16) << 8
  }

  function ByteBits(c: bv8): (r: Poly)
    ensures |r| == 8
  {
    WordBits(High(c))[..8]
  }

  function Bits(m: seq<bv8>): (r: Poly)
    ensures |r| == 8 * |m|
  {
    if m == [] then [] else Bits(m[..|m| - 1]) + ByteBits(m[|m| - 1])
  }

  lemma XorBit(x: bv16, y: bv16, z: bv16, k: nat)
    requires z == x ^ y
    ensures Bit(z, k) == (Bit(x, k) != Bit(y, k))
  {
    match k
    case 0 => case 1 => case 2 => case 3 => case 4 => case 5 => case 6 => case 7 =>
    case 8 => case 9 => case 10 => case 11 => case 12 => case 13 => case 14 => case 15 =>
    case _ =>
  }

  lemma ShiftByteBit(x: bv16, k: nat)
    ensures Bit(x << 8, k) == (k < 8 && Bit(x, k + 8))
  {
    match k
    case 0 => case 1 => case 2 => case 3 => case 4 => case 5 => case 6 => case 7 =>
    case 8 => case 9 => case 10 => case 11 => case 12 => case 13 => case 14 => case 15 =>
    case _ =>
  }

  /** One division step on a word, with no message bit coming in. */
  function Shift(r: bv16): bv16 {
    (r << 1) ^ ((r >> 15) * 0x1021)
  }

  lemma ShiftBit(r: bv16, k: nat)
    requires k < 16
    ensures Bit(Shift(r), k) == (Bit(r, k + 1) != (Bit(r, 0) && (k == 3 || k == 10 || k == 15)))
  {
    match k
    case 0 => case 1 => case 2 => case 3 => case 4 => case 5 => case 6 => case 7 =>
    case 8 => case 9 => case 10 => case 11 => case 12 => case 13 => case 14 => case 15 =>
  }

  lemma ShiftBits(r: bv16)
    ensures WordBits(Shift(r)) == StepReg(WordBits(r), false)
  {
    forall k | 0 <= k < 16 ensures WordBits(Shift(r))[k] == StepReg(WordBits(r), false)[k] {
      ShiftBit(r, k);
    }
  }

  lemma BitsInjective(v: bv16, w: bv16)
    requires WordBits(v) == WordBits(w)
    ensures v == w
  {
    forall k | 0 <= k < 16 ensures Bit(v, k) == Bit(w, k) {
      assert WordBits(v)[k] == WordBits(w)[k];
    }
    SameBits(v, w);
  }

  lemma SameBits(v: bv16, w: bv16)
    requires forall k :: 0 <= k < 16 ==> Bit(v, k) == Bit(w, k)
    ensures v == w
  {
    assert Bit(v, 0) == Bit(w, 0) && Bit(v, 1) == Bit(w, 1) && Bit(v, 2) == Bit(w, 2) && Bit(v, 3) == Bit(w, 3);
    assert Bit(v, 4) == Bit(w, 4) && Bit(v, 5) == Bit(w, 5) && Bit(v, 6) == Bit(w, 6) && Bit(v, 7) == Bit(w, 7);
    assert Bit(v, 8) == Bit(w, 8) && Bit(v, 9) == Bit(w, 9) && Bit(v, 10) == Bit(w, 10) && Bit(v, 11) == Bit(w, 11);
    assert Bit(v, 12) == Bit(w, 12) && Bit(v, 13) == Bit(w, 13) && Bit(v, 14) == Bit(w, 14) && Bit(v, 15) == Bit(w, 15);
  }

  lemma XorWord(x: bv16, y: bv16) returns (z: bv16)
    ensures z == x ^ y && WordBits(z) == Xor(WordBits(x), WordBits(y))
  {
    z := x ^ y;
    forall k | 0 <= k < 16 ensures WordBits(z)[k] == Xor(WordBits(x), WordBits(y))[k] {
      XorBit(x, y, z, k);
    }
  }

  // ---- the table is eight division steps ----

  lemma {:induction false} ChainBits(us: seq<Reg>, n: nat)
    requires n < |us|
    requires forall k :: 0 <= k < |us| - 1 ==> us[k + 1] == StepReg(us[k], false)
    ensures us[n] == Divide(us[0], Zeros(n))
  {
    if n > 0 {
      ChainBits(us, n - 1);
      assert us[(n - 1) + 1] == StepReg(us[n - 1], false);
      assert Zeros(n)[..n - 1] == Zeros(n - 1);
    }
  }

  lemma Shift8Bits(r: bv16)
    ensures WordBits(Shift(Shift(Shift(Shift(Shift(Shift(Shift(Shift(r))))))))) == Divide(WordBits(r), Zeros(8))
  {
    var us := ShiftTrail(r);
    ChainBits(us, 8);
  }

  lemma ShiftTrail(r: bv16) returns (us: seq<Reg>)
    ensures |us| == 9 && us[0] == WordBits(r)
    ensures us[8] == WordBits(Shift(Shift(Shift(Shift(Shift(Shift(Shift(Shift(r)))))))))
    ensures forall k :: 0 <= k < |us| - 1 ==> us[k + 1] == StepReg(us[k], false)
  {
    var r1 := ShiftOnce(r);
    var r2 := ShiftOnce(r1);
    var r3 := ShiftOnce(r2);
    var r4 := ShiftOnce(r3);
    var r5 := ShiftOnce(r4);
    var r6 := ShiftOnce(r5);
    var r7 := ShiftOnce(r6);
    var r8 := ShiftOnce(r7);
    us := [WordBits(r), WordBits(r1), WordBits(r2), WordBits(r3), WordBits(r4),
           WordBits(r5), WordBits(r6), WordBits(r7), WordBits(r8)];
  }

  lemma ShiftOnce(r: bv16) returns (s: bv16)
    ensures s == Shift(r) && WordBits(s) == StepReg(WordBits(r), false)
  {
    ShiftBits(r);
    s := Shift(r);
  }

  /** What the checksum loop needs of its table: entry `i` is eight division steps on `i`. */
  ghost predicate GoodTable(tab: bv8 -> bv16) {
    forall i: bv8 :: WordBits(tab(i)) == Divide(WordBits(High(i)), Zeros(8))
  }

  lemma TableEntry(i: bv8)
    ensures Tab(i) == Shift(Shift(Shift(Shift(Shift(Shift(Shift(Shift(High(i)))))))))
  {
  }

  /** All 256 constants of the table are right. */
  lemma TableIsGood()
    ensures GoodTable(Tab)
  {
    forall i: bv8 ensures WordBits(Tab(i)) == Divide(WordBits(High(i)), Zeros(8)) {
      TableEntry(i);
      Shift8Bits(High(i));
    }
  }

  // ---- one byte through the table is eight bits through the divider ----

  /** While nothing falls off the top, dividing only moves bits up. */
  lemma {:induction false} ShiftOut(k: nat, x: Poly)
    requires |x| + k == 16
    ensures Divide(Zeros(k) + x, Zeros(k)) == x + Zeros(k)
  {
    if k == 0 {
      assert Zeros(k) + x == x + Zeros(k);
    } else {
      hide Divide, StepReg;
      ShiftOut(k - 1, x + [false]);
      DivideCons(Zeros(k) + x, false, Zeros(k - 1));
      ShiftOutOne(k, x);
    }
  }

  lemma ShiftOutOne(k: nat, x: Poly)
    requires |x| + k == 16 && k > 0
    ensures Zeros(k) == [false] + Zeros(k - 1)
    ensures StepReg(Zeros(k) + x, false) == Zeros(k - 1) + (x + [false])
    ensures (x + [false]) + Zeros(k - 1) == x + Zeros(k)
  {
    hide Divide;
  }

  lemma ShiftByteBits(r: bv16) returns (s: bv16)
    ensures s == r << 8 && WordBits(s) == WordBits(r)[8..] + Zeros(8)
  {
    s := r << 8;
    forall k | 0 <= k < 16 ensures WordBits(s)[k] == (WordBits(r)[8..] + Zeros(8))[k] {
      ShiftByteBit(r, k);
    }
  }

  lemma TopByteBit(w: bv16, v: bv16, k: nat)
    requires v == w & 0xff00
    ensures Bit(v, k) == (k < 8 && Bit(w, k))
  {
    match k
    case 0 => case 1 => case 2 => case 3 => case 4 => case 5 => case 6 => case 7 =>
    case 8 => case 9 => case 10 => case 11 => case 12 => case 13 => case 14 => case 15 =>
    case _ =>
  }

  lemma TopByteBits(w: bv16, v: bv16)
    requires v == w & 0xff00
    ensures WordBits(v) == WordBits(w)[..8] + Zeros(8)
  {
    forall k | 0 <= k < 16 ensures WordBits(v)[k] == (WordBits(w)[..8] + Zeros(8))[k] {
      TopByteBit(w, v, k);
    }
  }

  function Index(r: bv16, c: bv8): bv8 {
    ((r >> 8) ^ (c as bv16)) as bv8
  }

  lemma IndexWord(r: bv16, c: bv8) returns (w: bv16)
    ensures WordBits(w) == Xor(WordBits(r), WordBits(High(c)))
    ensures High(Index(r, c)) == w & 0xff00
  {
    w := XorWord(r, High(c));
    IndexMask(r, c, w);
  }

  lemma IndexMask(r: bv16, c: bv8, w: bv16)
    requires w == r ^ High(c)
    ensures High(Index(r, c)) == w & 0xff00
  {
  }

  lemma IndexBits(r: bv16, c: bv8)
    ensures WordBits(High(Index(r, c))) == Xor(WordBits(r)[..8], ByteBits(c)) + Zeros(8)
  {
    var w := IndexWord(r, c);
    TopByteBits(w, High(Index(r, c)));
    assert Xor(WordBits(r), WordBits(High(c)))[..8] == Xor(WordBits(r)[..8], ByteBits(c));
  }

  /** Register-level form of the checksum loop body. */
  lemma SumOfHalves(u: Reg, c: Poly)
    requires |c| == 8
    ensures Xor(Divide(Xor(u[..8], c) + Zeros(8), Zeros(8)), u[8..] + Zeros(8)) == Divide(u, c)
  {
    var hi, lo: Reg := Xor(u[..8], c) + Zeros(8), Zeros(8) + u[8..];
    ShiftOut(8, u[8..]);
    DivideLinear(hi, lo, Zeros(8), Zeros(8));
    assert Xor(Zeros(8), Zeros(8)) == Zeros(8);
    assert Xor(hi, lo) == Xor(u, c + Zeros(8));
    Load(u, c);
  }

  function Combine(entry: bv16, cksum: bv16): bv16 {
    entry ^ (cksum << 8)
  }

  /** One iteration of the checksum loop: fold byte `c` into `cksum`. */
  function Step(tab: bv8 -> bv16, cksum: bv16, c: bv8): bv16 {
    Combine(tab(Index(cksum, c)), cksum)
  }

  lemma CombineBits(t: bv16, r: bv16)
    ensures WordBits(Combine(t, r)) == Xor(WordBits(t), WordBits(r)[8..] + Zeros(8))
  {
    var low := ShiftByteBits(r);
    var sum := XorWord(t, low);
  }

  lemma StepBits(tab: bv8 -> bv16, r: bv16, c: bv8)
    requires GoodTable(tab)
    ensures WordBits(Step(tab, r, c)) == Divide(WordBits(r), ByteBits(c))
  {
    IndexBits(r, c);
    StepBitsAt(tab, r, c, Index(r, c));
  }

  lemma StepBitsAt(tab: bv8 -> bv16, r: bv16, c: bv8, i: bv8)
    requires GoodTable(tab)
    requires WordBits(High(i)) == Xor(WordBits(r)[..8], ByteBits(c)) + Zeros(8)
    ensures WordBits(Combine(tab(i), r)) == Divide(WordBits(r), ByteBits(c))
  {
    CombineBits(tab(i), r);
    SumOfHalves(WordBits(r), ByteBits(c));
  }

  // ---- the checksum ----

  function CrcWith(tab: bv8 -> bv16, m: seq<bv8>): bv16 {
    if m == [] then 0 else Step(tab, CrcWith(tab, m[..|m| - 1]), m[|m| - 1])
  }

  function Crc(m: seq<bv8>): bv16 {
    CrcWith(Tab, m)
  }

  lemma ZeroBits()
    ensures WordBits(0) == Zeros(16)
  {
    forall k | 0 <= k < 16 ensures !Bit(0, k) {}
  }

  lemma {:induction false} CrcWithBits(tab: bv8 -> bv16, m: seq<bv8>)
    requires GoodTable(tab)
    ensures WordBits(CrcWith(tab, m)) == Divide(Zeros(16), Bits(m))
  {
    if m == [] {
      ZeroBits();
    } else {
      var init := m[..|m| - 1];
      CrcWithBits(tab, init);
      StepBits(tab, CrcWith(tab, init), m[|m| - 1]);
      DivideConcat(Zeros(16), Bits(init), ByteBits(m[|m| - 1]));
    }
  }

  /** The table-driven checksum is bit-by-bit division with zero initial value. */
  lemma CrcBits(m: seq<bv8>)
    ensures WordBits(Crc(m)) == Divide(Zeros(16), Bits(m))
  {
    TableIsGood();
    CrcWithBits(Tab, m);
  }

  /** The checksum is the unique remainder of the message polynomial times x^16 modulo G. */
  lemma CrcIsRemainder(m: seq<bv8>, w: bv16)
    ensures IsRemainder(Bits(m), WordBits(w)) <==> w == Crc(m)
  {
    CrcBits(m);
    DivideIsRemainder(Bits(m), WordBits(w));
    if WordBits(w) == WordBits(Crc(m)) {
      BitsInjective(w, Crc(m));
    }
  }

  /** Checksum of the first `len` bytes of a buffer; a negative length reads nothing. */
  method CygCrc16(buf: array<bv8>, len: int) returns (cksum: bv16)
    requires len <= buf.Length
    ensures IsRemainder(Bits(buf[..if len < 0 then 0 else len]), WordBits(cksum))
    ensures cksum == Crc(buf[..if len < 0 then 0 else len])
  {
    cksum := 0;
    var i := 0;
    while i < len
      invariant 0 <= i && (i <= len || i == 0)
      invariant cksum == Crc(buf[..i])
    {
      assert buf[..i + 1] == buf[..i] + [buf[i]];
      cksum := Step(Tab, cksum, buf[i]);
      i := i + 1;
    }
    CrcIsRemainder(buf[..i], cksum);
  }

  // ---- error detection ----

  lemma {:induction false} BitsConcat(a: seq<bv8>, b: seq<bv8>)
    ensures Bits(a + b) == Bits(a) + Bits(b)
  {
    if b == [] {
      assert a + b == a;
    } else {
      assert (a + b)[..|a + b| - 1] == a + b[..|b| - 1];
      BitsConcat(a, b[..|b| - 1]);
    }
  }

  lemma ByteBitsInjective(c: bv8, d: bv8)
    requires ByteBits(c) == ByteBits(d)
    ensures c == d
  {
    forall k | 0 <= k < 16 ensures WordBits(High(c))[k] == WordBits(High(d))[k] {
      if k < 8 {
        assert ByteBits(c)[k] == ByteBits(d)[k];
      } else {
        ShiftByteBit(c as bv16, k);
        ShiftByteBit(d as bv16, k);
      }
    }
    assert WordBits(High(c)) == WordBits(High(d));
    BitsInjective(High(c), High(d));
    HighInjective(c, d);
  }

  lemma HighInjective(c: bv8, d: bv8)
    requires High(c) == High(d)
    ensures c == d
  {
  }

  lemma PairBits(c: bv8, d: bv8)
    ensures Bits([c, d]) == ByteBits(c) + ByteBits(d)
  {
    assert [c, d][..1] == [c] && [c][..0] == [];
    assert Bits([c]) == Bits([]) + ByteBits(c);
  }

  /** Messages that differ only inside two adjacent bytes never collide, at any length and position. */
  lemma AdjacentBytesDetected(a: seq<bv8>, b: seq<bv8>, at: nat)
    requires |a| == |b| && at + 2 <= |a|
    requires forall i :: 0 <= i < |a| && i != at && i != at + 1 ==> a[i] == b[i]
    requires a != b
    ensures Crc(a) != Crc(b)
  {
    var x, y := [a[at], a[at + 1]], [b[at], b[at + 1]];
    var pre, post := a[..at], a[at + 2..];
    assert a == pre + x + post && b == pre + y + post;
    BitsConcat(pre, x);
    BitsConcat(pre, y);
    BitsConcat(pre + x, post);
    BitsConcat(pre + y, post);
    PairBits(x[0], x[1]);
    PairBits(y[0], y[1]);
    if Bits(x) == Bits(y) {
      assert ByteBits(x[0]) == Bits(x)[..8] == ByteBits(y[0]);
      assert ByteBits(x[1]) == Bits(x)[8..] == ByteBits(y[1]);
      ByteBitsInjective(x[0], y[0]);
      ByteBitsInjective(x[1], y[1]);
      assert false;
    }
    BurstChangesRemainder(Bits(pre), Bits(x), Bits(y), Bits(post));
    CrcBits(a);
    CrcBits(b);
  }

  lemma {:induction false} ZeroIsFixed(n: nat)
    ensures Divide(Zeros(16), Zeros(n)) == Zeros(16)
  {
    if n > 0 {
      ZeroIsFixed(n - 1);
      assert Zeros(n)[..n - 1] == Zeros(n - 1);
      assert StepReg(Zeros(16), false) == Zeros(16);
    }
  }

  /** A register is cancelled by exactly its own sixteen bits. */
  lemma OnlyOwnBitsCancel(u: Reg, x: Poly)
    requires |x| == 16
    ensures Divide(u, x) == Zeros(16) <==> x == u
  {
    Load(u, x);
    ZeroIsFixed(16);
    assert x + Zeros(0) == x;
    if x == u {
      assert Xor(u, x) == Zeros(16);
    }
    if Divide(u, x) == Zeros(16) {
      DivideInjective(Xor(u, x), Zeros(16), Zeros(16));
      forall k | 0 <= k < 16 ensures x[k] == u[k] {
        assert Xor(u, x)[k] == Zeros(16)[k];
      }
    }
  }

  lemma Halves(w: bv16)
    ensures ByteBits((w >> 8) as bv8) + ByteBits((w & 0xff) as bv8) == WordBits(w)
  {
  }

  lemma CancelledByOwnBits(m: seq<bv8>, hi: bv8, lo: bv8)
    ensures Crc(m + [hi, lo]) == 0 <==> ByteBits(hi) + ByteBits(lo) == WordBits(Crc(m))
  {
    CrcBits(m);
    CrcBits(m + [hi, lo]);
    BitsConcat(m, [hi, lo]);
    PairBits(hi, lo);
    DivideConcat(Zeros(16), Bits(m), Bits([hi, lo]));
    OnlyOwnBitsCancel(WordBits(Crc(m)), Bits([hi, lo]));
    ZeroBits();
    if WordBits(Crc(m + [hi, lo])) == WordBits(0) {
      BitsInjective(Crc(m + [hi, lo]), 0);
    }
  }

  /** Appending two bytes makes the checksum zero exactly when they are the message's own checksum, high byte first. */
  lemma AppendedCrcIsZero(m: seq<bv8>, hi: bv8, lo: bv8)
    ensures Crc(m + [hi, lo]) == 0 <==> hi == (Crc(m) >> 8) as bv8 && lo == (Crc(m) & 0xff) as bv8
  {
    CancelledByOwnBits(m, hi, lo);
    OwnBytes(Crc(m), hi, lo);
  }

  lemma OwnBytes(w: bv16, hi: bv8, lo: bv8)
    ensures ByteBits(hi) + ByteBits(lo) == WordBits(w) <==> hi == (w >> 8) as bv8 && lo == (w & 0xff) as bv8
  {
    Halves(w);
    SamePair(hi, lo, (w >> 8) as bv8, (w & 0xff) as bv8);
  }

  lemma SamePair(a: bv8, b: bv8, c: bv8, d: bv8)
    ensures ByteBits(a) + ByteBits(b) == ByteBits(c) + ByteBits(d) <==> a == c && b == d
  {
    var p, q := ByteBits(a) + ByteBits(b), ByteBits(c) + ByteBits(d);
    if p == q {
      assert ByteBits(a) == p[..8] == ByteBits(c);
      assert ByteBits(b) == p[8..] == ByteBits(d);
      ByteBitsInjective(a, c);
      ByteBitsInjective(b, d);
    }
  }
}
