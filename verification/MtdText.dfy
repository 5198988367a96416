/**
  Numbers in the text of the `mtdparts` variable (`cmd_jffs2.c`): reading and
  writing memory sizes.  Texts are C strings; parsers are functions from a
  text to a value and the rest of the text.
 */
module MtdText {
  import opened Common

  const SIZE_KB: nat := 1024
  const SIZE_MB: nat := 0x10_0000
  const SIZE_GB: nat := 0x4000_0000

  type u32 = n: nat | n < U32

  // ---- simple_strtoul with base 0 ----

  /** The first character of a C string, its terminator when it is empty. */
  function Head(s: string): char {
    if s == "" then '\0' else s[0]
  }

  predicate IsDigit(c: char) {
    '0' <= c <= '9'
  }

  predicate IsHexDigit(c: char) {
    IsDigit(c) || 'a' <= c <= 'f' || 'A' <= c <= 'F'
  }

  function DigitValue(c: char): nat
    requires IsHexDigit(c)
  {
    if IsDigit(c) then c as nat - '0' as nat
    else if 'a' <= c <= 'f' then c as nat - 'a' as nat + 10
    else c as nat - 'A' as nat + 10
  }

  predicate IsDigitIn(c: char, base: nat) {
    IsHexDigit(c) && DigitValue(c) < base
  }

  datatype Number = Number(value: u32, rest: string)

  /** The digit loop, with unsigned long arithmetic. */
  function Digits(s: string, base: nat, acc: u32): (n: Number)
    ensures |n.rest| <= |s| && (|n.rest| == |s| ==> n.value == acc)
  {
    if s != "" && IsDigitIn(s[0], base) then Digits(s[1..], base, (acc * base + DigitValue(s[0])) % U32)
    else Number(acc, s)
  }

  function StrToUl(s: string): (n: Number)
    ensures |n.rest| <= |s| && (|n.rest| == |s| ==> n.value == 0)
  {
    if Head(s) != '0' then Digits(s, 10, 0)
    else if Head(s[1..]) == 'x' && |s| > 2 && IsHexDigit(s[2]) then Digits(s[2..], 16, 0)
    else Digits(s[1..], 8, 0)
  }

  // ---- memsize_parse and memsize_format ----

  /** What a unit suffix multiplies by; 1 means there is none. */
  function Unit(c: char): nat {
    if c == 'G' || c == 'g' then SIZE_GB
    else if c == 'M' || c == 'm' then SIZE_MB
    else if c == 'K' || c == 'k' then SIZE_KB
    else 1
  }

  function MemsizeParse(s: string): (n: Number)
    ensures |n.rest| <= |s| && (|n.rest| == |s| ==> n.value == 0)
  {
    var n := StrToUl(s);
    var unit := Unit(Head(n.rest));
    if unit == 1 then n else Number((n.value * unit) % U32, n.rest[1..])
  }

  function Decimal(n: nat): string {
    if n < 10 then [('0' as nat + n) as char] else Decimal(n / 10) + [('0' as nat + n % 10) as char]
  }

  function MemsizeFormat(size: nat): string {
    if size % SIZE_GB == 0 then Decimal(size / SIZE_GB) + "g"
    else if size % SIZE_MB == 0 then Decimal(size / SIZE_MB) + "m"
    else if size % SIZE_KB == 0 then Decimal(size / SIZE_KB) + "k"
    else Decimal(size)
  }

  // ---- printing then reading ----

  lemma DigitChar(d: nat)
    requires d < 10
    ensures IsDigit(('0' as nat + d) as char) && DigitValue(('0' as nat + d) as char) == d
  {
  }

  lemma OneDigit(acc: u32, d: nat, rest: string)
    requires d < 10 && acc * 10 + d < U32
    ensures Digits([('0' as nat + d) as char] + rest, 10, acc) == Digits(rest, 10, acc * 10 + d)
  {
    DigitChar(d);
    var s := [('0' as nat + d) as char] + rest;
    assert s[1..] == rest;
  }

  /** Reading a printed number goes on with the text behind it. */
  lemma {:induction false} DigitsOfDecimal(n: u32, rest: string)
    ensures Digits(Decimal(n) + rest, 10, 0) == Digits(rest, 10, n)
  {
    if n < 10 {
      OneDigit(0, n, rest);
    } else {
      var c := ('0' as nat + n % 10) as char;
      DigitsOfDecimal(n / 10, [c] + rest);
      assert Decimal(n) + rest == Decimal(n / 10) + ([c] + rest);
      OneDigit(n / 10, n % 10, rest);
    }
  }

  lemma {:induction false} DecimalHead(n: nat)
    ensures Decimal(n) != "" && IsDigit(Decimal(n)[0])
    ensures Decimal(n)[0] == '0' <==> n == 0
  {
    if n < 10 {
      DigitChar(n);
    } else {
      DecimalHead(n / 10);
    }
  }

  /** A character that would be taken for a continuation of a printed number. */
  predicate Numeric(c: char) {
    IsDigit(c) || Unit(c) != 1
  }

  lemma StrToUlOfDecimal(n: u32, rest: string)
    requires !IsDigit(Head(rest)) && !(n == 0 && Head(rest) == 'x')
    ensures StrToUl(Decimal(n) + rest) == Number(n, rest)
  {
    DecimalHead(n);
    var s := Decimal(n) + rest;
    if n == 0 {
      assert s[1..] == rest;
    } else {
      DigitsOfDecimal(n, rest);
      StopsHere(rest, n);
    }
  }

  lemma StopsHere(rest: string, n: u32)
    requires !IsDigit(Head(rest))
    ensures Digits(rest, 10, n) == Number(n, rest)
  {
  }

  /** `memsize_parse` undoes `memsize_format` for every 32-bit size. */
  lemma MemsizeRoundTrip(size: u32, rest: string)
    requires !Numeric(Head(rest))
    ensures MemsizeParse(MemsizeFormat(size) + rest) == Number(size, rest)
  {
    if size % SIZE_GB == 0 {
      UnitRoundTrip(size, 'g', rest);
    } else if size % SIZE_MB == 0 {
      UnitRoundTrip(size, 'm', rest);
    } else if size % SIZE_KB == 0 {
      UnitRoundTrip(size, 'k', rest);
    } else {
      StrToUlOfDecimal(size, rest);
    }
  }

  lemma UnitRoundTrip(size: u32, unit: char, rest: string)
    requires (unit == 'g' || unit == 'm' || unit == 'k') && size % Unit(unit) == 0
    ensures MemsizeParse(Decimal(size / Unit(unit)) + [unit] + rest) == Number(size, rest)
  {
    var n := size / Unit(unit);
    Exact(size, Unit(unit));
    StrToUlOfDecimal(n, [unit] + rest);
    assert Decimal(n) + [unit] + rest == Decimal(n) + ([unit] + rest);
    assert ([unit] + rest)[1..] == rest;
  }

  lemma Exact(size: nat, unit: nat)
    requires unit > 0 && size % unit == 0
    ensures size / unit <= size && (size / unit) * unit == size
  {
    var q := size / unit;
    assert size == unit * q + size % unit;
    Grows(q, unit);
  }

  lemma Grows(q: nat, unit: nat)
    requires unit > 0
    ensures q <= q * unit && q * unit == unit * q
  {
    assert q * unit == q + q * (unit - 1);
  }

  lemma MemsizeHead(size: nat)
    ensures MemsizeFormat(size) != "" && IsDigit(MemsizeFormat(size)[0])
  {
    DecimalHead(size);
    DecimalHead(size / SIZE_GB);
    DecimalHead(size / SIZE_MB);
    DecimalHead(size / SIZE_KB);
  }
}
