/**
  What the numbers of `mtdparts` texts mean (`simple_strtoul` with base 0 and
  `memsize_parse`): numerals in base 8, 10 and 16, their positional value modulo
  2^32, and the unit letters.
 */
module MtdNumbers {
  import opened Common
  import opened MtdText

  // ---- numerals ----

  /** The character stands for the digit `v`, in either case. */
  predicate Denotes(c: char, v: nat) {
    || (v < 10 && c as nat == '0' as nat + v)
    || (10 <= v < 16 && (c as nat == 'a' as nat + (v - 10) || c as nat == 'A' as nat + (v - 10)))
  }

  lemma DigitMeans(c: char, v: nat)
    ensures Denotes(c, v) <==> IsHexDigit(c) && DigitValue(c) == v
  {
  }

  function Power(b: nat, n: nat): nat {
    if n == 0 then 1 else b * Power(b, n - 1)
  }

  /** The value of digits, most significant first. */
  function Positional(vs: seq<nat>, base: nat): nat {
    if vs == [] then 0 else vs[0] * Power(base, |vs| - 1) + Positional(vs[1..], base)
  }

  /** The text consists of these digits. */
  ghost predicate Spells(text: string, vs: seq<nat>, base: nat) {
    |text| == |vs| && forall i :: 0 <= i < |vs| ==> vs[i] < base && Denotes(text[i], vs[i])
  }

  /** No digit of the base comes first. */
  ghost predicate StopsDigits(rest: string, base: nat) {
    forall v: nat :: v < base ==> !Denotes(Head(rest), v)
  }

  lemma ModStep(x: nat, y: nat, z: nat)
    ensures ((x % U32) * y + z) % U32 == (x * y + z) % U32
  {
    var q, r := x / U32, x % U32;
    assert x == q * U32 + r;
    assert x * y + z == (r * y + z) + (q * y) * U32 by {
      assert (q * U32 + r) * y == (q * U32) * y + r * y;
      assert (q * U32) * y == (q * y) * U32;
    }
    ModMultiple(r * y + z, q * y);
  }

  lemma ModMultiple(a: nat, k: nat)
    ensures (a + k * U32) % U32 == a % U32
  {
  }

  lemma {:induction false} DigitsAreValue(text: string, vs: seq<nat>, base: nat, acc: u32, rest: string)
    requires 0 < base <= 16 && Spells(text, vs, base) && StopsDigits(rest, base)
    ensures Digits(text + rest, base, acc) == Number((acc * Power(base, |vs|) + Positional(vs, base)) % U32, rest)
    decreases |vs|
  {
    hide *;
    if vs == [] {
      NoDigitsLeft(text, rest, base, acc);
    } else {
      var next := (acc * base + vs[0]) % U32;
      FirstDigit(text, vs, base);
      DigitsStep(text, rest, base, acc, vs[0], next);
      DigitsAreValue(text[1..], vs[1..], base, next, rest);
      ValueStep(acc, base, vs);
    }
  }

  lemma NoDigitsLeft(text: string, rest: string, base: nat, acc: u32)
    requires Spells(text, [], base) && StopsDigits(rest, base)
    ensures Digits(text + rest, base, acc) == Number(acc, rest)
    ensures (acc * Power(base, 0) + Positional([], base)) % U32 == acc
  {
    hide Digits, StopsDigits;
    assert text + rest == rest;
    NoDigits(rest, base, acc);
  }

  lemma FirstDigit(text: string, vs: seq<nat>, base: nat)
    requires Spells(text, vs, base) && vs != []
    ensures text != "" && vs[0] < base && Denotes(text[0], vs[0]) && Spells(text[1..], vs[1..], base)
  {
  }

  lemma DigitsStep(text: string, rest: string, base: nat, acc: u32, v: nat, next: u32)
    requires text != "" && v < base && Denotes(text[0], v) && next == (acc * base + v) % U32
    ensures Digits(text + rest, base, acc) == Digits(text[1..] + rest, base, next)
  {
    DigitMeans(text[0], v);
    hide Digits, Denotes, IsHexDigit, DigitValue;
    assert (text + rest)[1..] == text[1..] + rest && (text + rest)[0] == text[0];
    DigitsOne(text + rest, base, acc, next);
  }

  lemma DigitsOne(s: string, base: nat, acc: u32, next: u32)
    requires s != "" && IsDigitIn(s[0], base) && next == (acc * base + DigitValue(s[0])) % U32
    ensures Digits(s, base, acc) == Digits(s[1..], base, next)
  {
  }

  lemma NoDigits(rest: string, base: nat, acc: u32)
    requires StopsDigits(rest, base)
    ensures Digits(rest, base, acc) == Number(acc, rest)
  {
    if rest != "" {
      NotADigit(Head(rest), rest, base);
    }
  }

  lemma NotADigit(c: char, rest: string, base: nat)
    requires StopsDigits(rest, base) && c == Head(rest)
    ensures !IsDigitIn(c, base)
  {
    if IsHexDigit(c) {
      var v := DigitValue(c);
      DigitMeans(c, v);
      assert Denotes(Head(rest), v);
    }
  }

  lemma ValueStep(acc: nat, base: nat, vs: seq<nat>)
    requires vs != []
    ensures (((acc * base + vs[0]) % U32) * Power(base, |vs| - 1) + Positional(vs[1..], base)) % U32
            == (acc * Power(base, |vs|) + Positional(vs, base)) % U32
  {
    var p, rest := Power(base, |vs| - 1), Positional(vs[1..], base);
    ModStep(acc * base + vs[0], p, rest);
    Distribute(acc, base, vs[0], p);
  }

  lemma Distribute(acc: nat, base: nat, v: nat, p: nat)
    ensures (acc * base + v) * p == acc * (base * p) + v * p
  {
  }

  /** How `simple_strtoul` chooses the base: "0x" before hexadecimal digits, another "0" before octal ones. */
  ghost predicate Numeral(s: string, base: nat, vs: seq<nat>) {
    match base
    case 10 => Spells(s, vs, 10) && vs != [] && vs[0] != 0
    case 16 => |s| > 2 && s[..2] == "0x" && Spells(s[2..], vs, 16)
    case 8 => |s| > 0 && s[0] == '0' && Spells(s[1..], vs, 8)
    case _ => false
  }

  /** Every numeral reads as its positional value modulo 2^32, and the text behind it is left. */
  lemma NumeralRead(s: string, base: nat, vs: seq<nat>, rest: string)
    requires Numeral(s, base, vs) && StopsDigits(rest, base) && (s == "0" ==> Head(rest) != 'x')
    ensures StrToUl(s + rest) == Number(Positional(vs, base) % 0x1_0000_0000, rest)
  {
    var all := s + rest;
    match base
    case 10 =>
      assert all[0] == s[0];
      DigitMeans(s[0], vs[0]);
      DigitsAreValue(s, vs, 10, 0, rest);
    case 16 =>
      assert all[0] == s[..2][0] && all[1..][0] == s[..2][1] && all[2] == s[2..][0];
      DigitMeans(s[2], vs[0]);
      assert all[2..] == s[2..] + rest;
      DigitsAreValue(s[2..], vs, 16, 0, rest);
    case 8 =>
      assert all[0] == '0' && all[1..] == s[1..] + rest;
      if |s| > 1 {
        assert all[1..][0] == s[1..][0];
        DigitMeans(s[1], vs[0]);
      }
      DigitsAreValue(s[1..], vs, 8, 0, rest);
  }

  // ---- units ----

  /** A unit letter in either case, or none, and the power of two it stands for. */
  predicate IsUnit(unit: string, k: nat) {
    || (unit == "" && k == 0)
    || ((unit == "K" || unit == "k") && k == 10)
    || ((unit == "M" || unit == "m") && k == 20)
    || ((unit == "G" || unit == "g") && k == 30)
  }

  /** A numeral with each of the unit letters behind it, or none: the value times the unit modulo 2^32, and the text
      behind the letter is left. */
  lemma SizeRead(s: string, base: nat, vs: seq<nat>, unit: string, k: nat, rest: string)
    requires Numeral(s, base, vs) && IsUnit(unit, k)
    requires unit == "" ==> StopsDigits(rest, base) && Head(rest) !in "GgMmKk" && (s == "0" ==> Head(rest) != 'x')
    ensures MemsizeParse(s + (unit + rest)) == Number((Positional(vs, base) * Power(2, k)) % 0x1_0000_0000, rest)
  {
    hide StrToUl, Numeral, Positional, StopsDigits, Power;
    Powers();
    if unit == "" {
      assert unit + rest == rest;
      NumeralRead(s, base, vs, rest);
    } else {
      UnitIsNoDigit(unit[0], unit + rest, base);
      NumeralRead(s, base, vs, unit + rest);
      UnitApplied(s + (unit + rest), Positional(vs, base), unit, k, rest);
    }
  }

  lemma UnitApplied(s: string, n: nat, unit: string, k: nat, rest: string)
    requires unit != "" && IsUnit(unit, k) && StrToUl(s) == Number(n % U32, unit + rest)
    ensures MemsizeParse(s) == Number((n * Power(2, k)) % U32, rest)
  {
    hide StrToUl, Power;
    Powers();
    assert (unit + rest)[0] == unit[0] && (unit + rest)[1..] == rest;
    ModStep(n, Power(2, k), 0);
  }

  /** Sizes are printed in the largest unit that divides them: only gigabytes may have a number that divides by 1024. */
  lemma LargestUnit(size: nat) returns (q: nat, unit: string, k: nat)
    ensures MemsizeFormat(size) == Decimal(q) + unit && q * Power(2, k) == size && (k == 30 || q % 1024 != 0)
    ensures (unit, k) in {("", 0), ("k", 10), ("m", 20), ("g", 30)}
  {
    Powers();
    hide Decimal, Power;
    if size % 0x4000_0000 == 0 {
      q, unit, k := size / 0x4000_0000, "g", 30;
    } else if size % 0x10_0000 == 0 {
      q, unit, k := size / 0x10_0000, "m", 20;
    } else if size % 1024 == 0 {
      q, unit, k := size / 1024, "k", 10;
    } else {
      q, unit, k := size, "", 0;
      assert Decimal(q) + "" == Decimal(q);
    }
  }

  lemma Powers()
    ensures Power(2, 0) == 1 && Power(2, 10) == 1024 && Power(2, 20) == 0x10_0000 && Power(2, 30) == 0x4000_0000
  {
    assert Power(2, 5) == 32;
    PowerAdds(5, 5);
    PowerAdds(10, 10);
    PowerAdds(20, 10);
  }

  lemma {:induction false} PowerAdds(m: nat, n: nat)
    ensures Power(2, m + n) == Power(2, m) * Power(2, n)
  {
    if m > 0 {
      PowerAdds(m - 1, n);
    }
  }

  lemma UnitIsNoDigit(c: char, s: string, base: nat)
    requires c in "GgMmKk" && s != "" && s[0] == c
    ensures StopsDigits(s, base) && c != 'x'
  {
    forall v: nat | v < base
      ensures !Denotes(Head(s), v)
    {
      DigitMeans(c, v);
    }
  }
}
