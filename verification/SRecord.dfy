/**
  Motorola S-records: the printer of the `saves` command, the decoder and the
  loader of the `loads` command (`cmd_load.c`, `s_record.c`).
 */
module SRecord {
  import opened Common

  type Memory = int -> Byte

  // ---- hexadecimal text ----

  function HexDigit(n: nat): char
    requires n < 16
  {
    "0123456789ABCDEF"[n]
  }

  function Hex2(b: Byte): (s: string)
    ensures |s| == 2
  {
    [HexDigit(b / 16), HexDigit(b % 16)]
  }

  function HexText(bytes: seq<Byte>): (s: string)
    ensures |s| == 2 * |bytes|
  {
    if bytes == [] then "" else Hex2(bytes[0]) + HexText(bytes[1..])
  }

  /** `hex1_bin`. */
  function Hex1Bin(c: char): int {
    if '0' <= c <= '9' then c as int - '0' as int
    else if 'a' <= c <= 'f' then c as int + 10 - 'a' as int
    else if 'A' <= c <= 'F' then c as int + 10 - 'A' as int
    else -1
  }

  /** The character at `i` of a NUL-terminated string. */
  function At(s: string, i: nat): char {
    if i < |s| then s[i] else '\0'
  }

  /** `hex2_bin`: the byte written at `i`, or -1. */
  function Hex2Bin(s: string, i: nat): (v: int)
    ensures -1 <= v < 256
  {
    var hi := Hex1Bin(At(s, i));
    if hi < 0 then -1
    else
      var lo := Hex1Bin(At(s, i + 1));
      if lo < 0 then -1 else hi * 16 + lo
  }

  /** `n` bytes written from position `i`. */
  function HexBytes(s: string, i: nat, n: nat): (r: Option<seq<Byte>>)
    ensures r.Some? ==> |r.value| == n
    decreases n
  {
    if n == 0 then Some([])
    else
      var v := Hex2Bin(s, i);
      if v < 0 then None
      else
        match HexBytes(s, i + 2, n - 1)
        case None => None
        case Some(rest) => Some([v] + rest)
  }

  lemma Hex2Back(s: string, i: nat, b: Byte)
    requires i + 2 <= |s| && s[i..i + 2] == Hex2(b)
    ensures Hex2Bin(s, i) == b
  {
    assert s[i] == s[i..i + 2][0] && s[i + 1] == s[i..i + 2][1];
    DigitBack(b / 16);
    DigitBack(b % 16);
  }

  lemma DigitBack(n: nat)
    requires n < 16
    ensures Hex1Bin(HexDigit(n)) == n
  {
  }

  lemma {:induction false} HexTextBack(s: string, i: nat, bytes: seq<Byte>)
    requires i + 2 * |bytes| <= |s| && s[i..i + 2 * |bytes|] == HexText(bytes)
    ensures HexBytes(s, i, |bytes|) == Some(bytes)
    decreases |bytes|
  {
    if bytes != [] {
      HexTextStep(bytes);
      hide HexText, Hex2, Hex2Bin;
      CutSlice(s, i, Hex2(bytes[0]), HexText(bytes[1..]));
      Hex2Back(s, i, bytes[0]);
      HexTextBack(s, i + 2, bytes[1..]);
      assert bytes == [bytes[0]] + bytes[1..];
    }
  }

  lemma CutSlice(s: string, i: nat, a: string, b: string)
    requires i + |a| + |b| <= |s| && s[i..i + |a| + |b|] == a + b
    ensures s[i..i + |a|] == a && s[i + |a|..i + |a| + |b|] == b
  {
    var t := s[i..i + |a| + |b|];
    assert t[..|a|] == s[i..i + |a|] && t[|a|..] == s[i + |a|..i + |a| + |b|];
  }

  /** Digits are printed in upper case. */
  lemma PrintedUpper(n: nat)
    requires n < 16
    ensures HexDigit(n) as nat == if n < 10 then '0' as nat + n else 'A' as nat + (n - 10)
  {
  }

  lemma {:induction false} HexTextConcat(a: seq<Byte>, b: seq<Byte>)
    ensures HexText(a + b) == HexText(a) + HexText(b)
  {
    if a == [] {
      assert a + b == b;
    } else {
      hide HexText, Hex2;
      HexTextConcat(a[1..], b);
      assert (a + b)[1..] == a[1..] + b;
      HexTextStep(a + b);
      HexTextStep(a);
      Assoc(Hex2(a[0]), HexText(a[1..]), HexText(b));
    }
  }

  lemma Assoc(a: string, b: string, c: string)
    ensures (a + b) + c == a + (b + c)
  {
  }

  lemma HexTextStep(a: seq<Byte>)
    requires a != []
    ensures HexText(a) == Hex2(a[0]) + HexText(a[1..])
  {
  }

  // ---- sums ----

  function Sum(bytes: seq<Byte>): nat {
    if bytes == [] then 0 else bytes[0] + Sum(bytes[1..])
  }

  lemma {:induction false} SumConcat(a: seq<Byte>, b: seq<Byte>)
    ensures Sum(a + b) == Sum(a) + Sum(b)
  {
    if a == [] {
      assert a + b == b;
    } else {
      SumConcat(a[1..], b);
      assert (a + b)[1..] == a[1..] + b;
    }
  }

  /** Replacing one byte by another always changes the sum modulo 256. */
  lemma SumChanges(bytes: seq<Byte>, i: nat, b: Byte)
    requires i < |bytes| && b != bytes[i]
    ensures Sum(bytes[i := b]) % 256 != Sum(bytes) % 256
  {
    SumConcat(bytes[..i], [bytes[i]] + bytes[i + 1..]);
    SumConcat(bytes[..i], [b] + bytes[i + 1..]);
    assert bytes == bytes[..i] + ([bytes[i]] + bytes[i + 1..]);
    assert bytes[i := b] == bytes[..i] + ([b] + bytes[i + 1..]);
    var d := Sum(bytes[..i]) + Sum(bytes[i + 1..]);
    assert Sum(bytes) == d + bytes[i] && Sum(bytes[i := b]) == d + b;
  }

  // ---- decoding one record ----

  datatype Status = Rec(kind: char) | Empty | BadType | NoSrec | BadChks

  /** What `srec_decode` returns, and what it leaves in its out-parameters on success. */
  datatype Decoded = Decoded(status: Status, count: int, addr: nat, data: seq<Byte>)

  function Failed(status: Status): Decoded {
    Decoded(status, 0, 0, [])
  }

  /** Position just after the first 'S', or the end of the text. */
  function SkipToS(s: string, i: nat): (k: nat)
    requires i <= |s|
    ensures k <= |s|
    decreases |s| - i
  {
    if i == |s| then i else if s[i] == 'S' then i + 1 else SkipToS(s, i + 1)
  }

  /** Bytes of address that a record of this type carries; 0 for no such type. */
  function AddressBytes(kind: char): (n: nat)
    ensures n <= 4
  {
    if kind in "37" then 4 else if kind in "28" then 3 else if kind in "0159" then 2 else 0
  }

  function DataBytes(kind: char, length: Byte): int {
    if kind == '5' then 0 else length - AddressBytes(kind) - 1
  }

  /** A big-endian number. */
  function Number(bytes: seq<Byte>): nat {
    if bytes == [] then 0 else Number(bytes[..|bytes| - 1]) * 256 + bytes[|bytes| - 1]
  }

  /** `srec_decode`. */
  function SrecDecode(s: string): Decoded {
    var i := SkipToS(s, 0);
    if i == |s| then Failed(Empty)
    else
      var kind := s[i];
      var length := Hex2Bin(s, i + 1);
      if length < 0 then Failed(NoSrec)
      else if AddressBytes(kind) == 0 then Failed(BadType)
      else DecodeFields(s, i + 3, kind, length)
  }

  function DecodeFields(s: string, i: nat, kind: char, length: Byte): Decoded {
    var alen, count := AddressBytes(kind), DataBytes(kind, length);
    var dlen := if count < 0 then 0 else count;
    match HexBytes(s, i, alen)
    case None => Failed(NoSrec)
    case Some(addr) =>
      match HexBytes(s, i + 2 * alen, dlen)
      case None => Failed(NoSrec)
      case Some(data) =>
        var v := Hex2Bin(s, i + 2 * (alen + dlen));
        if v < 0 then Failed(NoSrec)
        else if v != 255 - (length + Sum(addr) + Sum(data)) % 256 then Failed(BadChks)
        else Decoded(Rec(kind), count, Number(addr), data)
  }

  /** A record written out: its type, then its bytes, of which the first is how many follow. */
  function Line(kind: char, bytes: seq<Byte>): string {
    ['S', kind] + HexText(bytes)
  }

  /** The bytes of a record: the number of bytes that follow, address, data, checksum. */
  function Fields(addr: seq<Byte>, data: seq<Byte>, check: Byte): seq<Byte>
    requires |addr| + |data| < 255
  {
    [|addr| + |data| + 1] + (addr + (data + [check]))
  }

  /** The types and their address widths: two bytes in records of type 0, 1, 5 and 9, three in 2 and 8, four in 3 and 7. */
  predicate HasWidth(kind: char, n: nat) {
    || (n == 2 && (kind == '0' || kind == '1' || kind == '5' || kind == '9'))
    || (n == 3 && (kind == '2' || kind == '8'))
    || (n == 4 && (kind == '3' || kind == '7'))
  }

  lemma WidthExact(kind: char, n: nat)
    ensures HasWidth(kind, n) <==> AddressBytes(kind) == n > 0
  {
  }

  /**
    A record whose length byte is right is accepted exactly when all its bytes,
    checksum included, add up to 0xFF; it then yields its own address, as wide as
    its type says, and its data. A record of type 5 has no data.
   */
  lemma AcceptedExact(kind: char, addr: seq<Byte>, data: seq<Byte>, check: Byte)
    requires HasWidth(kind, |addr|) && (kind == '5' ==> data == []) && |addr| + |data| < 255
    ensures SrecDecode(Line(kind, Fields(addr, data, check))) ==
            if Sum(Fields(addr, data, check)) % 256 == 255
            then Decoded(Rec(kind), |data|, Number(addr), data)
            else Failed(BadChks)
  {
    hide *;
    var s := Line(kind, Fields(addr, data, check));
    var length := |addr| + |data| + 1;
    WidthExact(kind, |addr|);
    LineBack(s, kind, length, addr, data, check);
    DecodeLine(s, kind, length);
    FieldsExact(s, kind, length, addr, data, check);
    FieldsSum(addr, data, check);
  }

  lemma DecodeLine(s: string, kind: char, length: Byte)
    requires |s| > 1 && SkipToS(s, 0) == 1 && s[1] == kind && Hex2Bin(s, 2) == length && AddressBytes(kind) > 0
    ensures SrecDecode(s) == DecodeFields(s, 4, kind, length)
  {
    hide SkipToS, Hex2Bin, AddressBytes, DecodeFields;
  }

  lemma FieldsExact(s: string, kind: char, length: Byte, addr: seq<Byte>, data: seq<Byte>, check: Byte)
    requires |addr| == AddressBytes(kind) && (kind == '5' ==> data == []) && |addr| + |data| + 1 == length
    requires HexBytes(s, 4, |addr|) == Some(addr)
    requires HexBytes(s, 4 + 2 * |addr|, |data|) == Some(data)
    requires Hex2Bin(s, 4 + 2 * (|addr| + |data|)) == check
    ensures DecodeFields(s, 4, kind, length) ==
            if (length + Sum(addr) + Sum(data) + check) % 256 == 255
            then Decoded(Rec(kind), |data|, Number(addr), data)
            else Failed(BadChks)
  {
    hide *;
    DataBytesIs(kind, length, |addr|, |data|);
    FromFields(s, kind, length, |addr|, |data|, addr, data, check);
    ChecksumIs(length + Sum(addr) + Sum(data), check);
  }

  lemma DataBytesIs(kind: char, length: Byte, a: nat, n: nat)
    requires AddressBytes(kind) == a && a + n + 1 == length && (kind == '5' ==> n == 0)
    ensures DataBytes(kind, length) == n
  {
  }

  /** Decoding from what the fields are read as. */
  lemma FromFields(s: string, kind: char, length: Byte, a: nat, n: nat, addr: seq<Byte>, data: seq<Byte>, check: Byte)
    requires AddressBytes(kind) == a && DataBytes(kind, length) == n
    requires HexBytes(s, 4, a) == Some(addr) && HexBytes(s, 4 + 2 * a, n) == Some(data) && Hex2Bin(s, 4 + 2 * (a + n)) == check
    ensures DecodeFields(s, 4, kind, length) ==
            if check == 255 - (length + Sum(addr) + Sum(data)) % 256 then Decoded(Rec(kind), n, Number(addr), data)
            else Failed(BadChks)
  {
    hide HexBytes, Hex2Bin, Sum, Number, AddressBytes, DataBytes;
  }

  lemma ChecksumIs(sum: nat, check: Byte)
    ensures check == 255 - sum % 256 <==> (sum + check) % 256 == 255
  {
  }

  lemma FieldsSum(addr: seq<Byte>, data: seq<Byte>, check: Byte)
    requires |addr| + |data| < 255
    ensures Sum(Fields(addr, data, check)) == |addr| + |data| + 1 + Sum(addr) + Sum(data) + check
  {
    SumOne(|addr| + |data| + 1);
    SumOne(check);
    hide Sum;
    SumConcat([|addr| + |data| + 1], addr + (data + [check]));
    SumConcat(addr, data + [check]);
    SumConcat(data, [check]);
  }

  lemma SumOne(b: Byte)
    ensures Sum([b]) == b
  {
  }

  lemma FieldsText(length: Byte, addr: seq<Byte>, data: seq<Byte>, check: Byte)
    requires |addr| + |data| < 255 && length == |addr| + |data| + 1
    ensures HexText(Fields(addr, data, check)) ==
            Hex2(length) + (HexText(addr) + (HexText(data) + Hex2(check)))
  {
    OneText(length);
    OneText(check);
    hide HexText, Hex2;
    assert Fields(addr, data, check) == [length] + (addr + (data + [check]));
    hide Fields;
    FourTexts([length], addr, data, [check]);
  }

  lemma FourTexts(a: seq<Byte>, b: seq<Byte>, c: seq<Byte>, d: seq<Byte>)
    ensures HexText(a + (b + (c + d))) == HexText(a) + (HexText(b) + (HexText(c) + HexText(d)))
  {
    hide HexText;
    HexTextConcat(a, b + (c + d));
    HexTextConcat(b, c + d);
    HexTextConcat(c, d);
  }

  lemma OneText(b: Byte)
    ensures HexText([b]) == Hex2(b)
  {
  }

  /** Every field of a printed record is found at its place. */
  lemma LineBack(s: string, kind: char, length: Byte, addr: seq<Byte>, data: seq<Byte>, check: Byte)
    requires |addr| + |data| < 255 && length == |addr| + |data| + 1 && s == Line(kind, Fields(addr, data, check))
    ensures |s| > 1 && SkipToS(s, 0) == 1 && s[1] == kind
    ensures Hex2Bin(s, 2) == length
    ensures HexBytes(s, 4, |addr|) == Some(addr)
    ensures HexBytes(s, 4 + 2 * |addr|, |data|) == Some(data)
    ensures Hex2Bin(s, 4 + 2 * (|addr| + |data|)) == check
  {
    hide *;
    LineText(s, kind, length, addr, data, check);
    StartsWithS(s, kind, Hex2(length) + (HexText(addr) + (HexText(data) + Hex2(check))));
    PiecesBack(s, ['S', kind], length, addr, data, check);
  }

  lemma PiecesBack(s: string, p: string, length: Byte, addr: seq<Byte>, data: seq<Byte>, check: Byte)
    requires s == p + (Hex2(length) + (HexText(addr) + (HexText(data) + Hex2(check)))) && |p| == 2
    ensures Hex2Bin(s, 2) == length
    ensures HexBytes(s, 4, |addr|) == Some(addr)
    ensures HexBytes(s, 4 + 2 * |addr|, |data|) == Some(data)
    ensures Hex2Bin(s, 4 + 2 * (|addr| + |data|)) == check
  {
    hide *;
    var h, a, d, c := Hex2(length), HexText(addr), HexText(data), Hex2(check);
    Regroup(p, h, a, d, c);
    ByteAt(s, p, length, a + (d + c));
    FieldAt(s, p + h, addr, d + c);
    FieldAt(s, p + h + a, data, c);
    ByteAt(s, p + h + a + d, check, "");
  }

  lemma Regroup(p: string, h: string, a: string, d: string, c: string)
    ensures p + (h + (a + (d + c))) == (p + h) + (a + (d + c))
                                    == (p + h + a) + (d + c)
                                    == (p + h + a + d) + (c + "")
  {
    Assoc(p, h, a + (d + c));
    Assoc(p + h, a, d + c);
    Assoc(p + h + a, d, c);
    assert c + "" == c;
  }

  lemma LineText(s: string, kind: char, length: Byte, addr: seq<Byte>, data: seq<Byte>, check: Byte)
    requires |addr| + |data| < 255 && length == |addr| + |data| + 1 && s == Line(kind, Fields(addr, data, check))
    ensures s == ['S', kind] + (Hex2(length) + (HexText(addr) + (HexText(data) + Hex2(check))))
  {
    hide HexText, Hex2, Fields;
    FieldsText(length, addr, data, check);
  }

  lemma StartsWithS(s: string, kind: char, rest: string)
    requires s == ['S', kind] + rest
    ensures SkipToS(s, 0) == 1 && s[1] == kind
  {
    assert s[0] == 'S';
  }

  lemma FieldAt(s: string, pre: string, bytes: seq<Byte>, post: string)
    requires s == pre + (HexText(bytes) + post)
    ensures HexBytes(s, |pre|, |bytes|) == Some(bytes)
  {
    hide HexText, HexBytes;
    assert s[|pre|..|pre| + 2 * |bytes|] == HexText(bytes);
    HexTextBack(s, |pre|, bytes);
  }

  lemma ByteAt(s: string, pre: string, b: Byte, post: string)
    requires s == pre + (Hex2(b) + post)
    ensures Hex2Bin(s, |pre|) == b
  {
    hide Hex2Bin;
    assert s[|pre|..|pre| + 2] == Hex2(b);
    Hex2Back(s, |pre|, b);
  }

  /** Two byte strings that differ in exactly one place. */
  predicate OneByteWrong(x: seq<Byte>, y: seq<Byte>) {
    |x| == |y| && exists i :: 0 <= i < |x| && x[i] != y[i] && x == y[i := x[i]]
  }

  /** One wrong byte after the length byte of a good record is always caught. */
  lemma WrongByteCaught(kind: char, addr: seq<Byte>, data: seq<Byte>, check: Byte,
                        addr': seq<Byte>, data': seq<Byte>, check': Byte)
    requires |addr'| == |addr| && HasWidth(kind, |addr|) && |data'| == |data|
    requires (kind == '5' ==> data == []) && |addr| + |data| < 255
    requires SrecDecode(Line(kind, Fields(addr, data, check))).status == Rec(kind)
    requires OneByteWrong(Fields(addr', data', check'), Fields(addr, data, check))
    ensures SrecDecode(Line(kind, Fields(addr', data', check'))) == Failed(BadChks)
  {
    hide SrecDecode, Line, Sum, Fields;
    AcceptedExact(kind, addr, data, check);
    AcceptedExact(kind, addr', data', check');
    var x, y := Fields(addr', data', check'), Fields(addr, data, check);
    var i :| 0 <= i < |x| && x[i] != y[i] && x == y[i := x[i]];
    SumChanges(y, i, x[i]);
  }

  // ---- printing memory ----

  function AddrBytes(a: nat): (r: seq<Byte>)
    requires a < U32
    ensures |r| == 4
  {
    [a / 0x100_0000, a / 0x1_0000 % 256, a / 0x100 % 256, a % 256]
  }

  lemma AddrBack(a: nat)
    requires a < U32
    ensures Number(AddrBytes(a)) == a
  {
    var b := AddrBytes(a);
    assert b[..3][..2][..1] == b[..1] && b[..3][..2] == b[..2];
    assert Number(b[..1]) == a / 0x100_0000;
    assert Number(b[..2]) == a / 0x1_0000;
    assert Number(b[..3]) == a / 0x100;
  }

  /** The checksum that makes a record's bytes add up to 0xFF. */
  function Checksum(addr: seq<Byte>, data: seq<Byte>): Byte {
    255 - (|addr| + |data| + 1 + Sum(addr) + Sum(data)) % 256
  }

  /** The bytes of the S3 record that carries `data` to address `a`. */
  function DataRecord(a: nat, data: seq<Byte>): seq<Byte>
    requires a < U32 && |data| <= 16
  {
    Fields(AddrBytes(a), data, Checksum(AddrBytes(a), data))
  }

  const SREC3_START := "S0030000FC\n"
  const SREC3_END := "S70500000000FA\n"

  /** The bytes of memory from `address`, which wraps at the top. */
  function Bytes(mem: Memory, address: int, count: nat): (r: seq<Byte>)
    ensures |r| == count
  {
    seq(count, k requires 0 <= k < count => mem((address + k) % U32))
  }

  datatype Chunk = Chunk(addr: nat, data: seq<Byte>)

  /** The data records: sixteen bytes each, the rest in the last one. */
  function Chunks(address: nat, bytes: seq<Byte>): (r: seq<Chunk>)
    requires address < U32
    ensures forall c :: c in r ==> c.addr < U32 && |c.data| <= 16
    decreases |bytes|
  {
    if bytes == [] then []
    else
      var k := if |bytes| < 16 then |bytes| else 16;
      [Chunk(address, bytes[..k])] + Chunks((address + k) % U32, bytes[k..])
  }

  function Carried(chunks: seq<Chunk>): seq<Byte> {
    if chunks == [] then [] else chunks[0].data + Carried(chunks[1..])
  }

  function Printed(chunks: seq<Chunk>): string
    requires forall c :: c in chunks ==> c.addr < U32 && |c.data| <= 16
  {
    if chunks == [] then ""
    else Line('3', DataRecord(chunks[0].addr, chunks[0].data)) + "\n" + Printed(chunks[1..])
  }

  /** All that `save_serial` prints. */
  function Saved(mem: Memory, address: nat, count: nat): string
    requires address < U32
  {
    SREC3_START + Printed(Chunks(address, Bytes(mem, address, count))) + SREC3_END
  }

  lemma {:induction false} ChunksCarry(address: nat, bytes: seq<Byte>)
    requires address < U32
    ensures Carried(Chunks(address, bytes)) == bytes
    decreases |bytes|
  {
    if bytes != [] {
      var k := if |bytes| < 16 then |bytes| else 16;
      var rest := Chunks((address + k) % U32, bytes[k..]);
      ChunksCarry((address + k) % U32, bytes[k..]);
      CarriedStep(Chunk(address, bytes[..k]), rest);
      assert bytes == bytes[..k] + bytes[k..];
    }
  }

  lemma CarriedStep(c: Chunk, rest: seq<Chunk>)
    ensures Carried([c] + rest) == c.data + Carried(rest)
  {
    assert ([c] + rest)[1..] == rest;
  }

  /** Each record holds 1 to 16 bytes, all but the last 16, and names the address of its first byte. */
  lemma {:induction false} ChunksPlaced(address: nat, bytes: seq<Byte>, i: nat)
    requires address < U32 && i < |Chunks(address, bytes)|
    ensures var c := Chunks(address, bytes);
            && 1 <= |c[i].data| <= 16
            && c[i].addr == (address + |Carried(c[..i])|) % U32
            && (i + 1 < |c| ==> |c[i].data| == 16)
    decreases |bytes|
  {
    hide Chunks, Carried;
    SomeChunks(address, bytes);
    var k := if |bytes| < 16 then |bytes| else 16;
    var next := (address + k) % U32;
    var head, rest := Chunk(address, bytes[..k]), Chunks(next, bytes[k..]);
    ChunksStep(address, bytes, k);
    if k < 16 {
      assert bytes[k..] == [];
      NoChunks(next);
    }
    if i > 0 {
      ChunksPlaced(next, bytes[k..], i - 1);
    }
    PlacedStep(head, rest, k, next, i);
  }

  lemma SomeChunks(address: nat, bytes: seq<Byte>)
    requires address < U32 && Chunks(address, bytes) != []
    ensures bytes != []
  {
  }

  lemma ChunksStep(address: nat, bytes: seq<Byte>, k: nat)
    requires address < U32 && bytes != [] && k == if |bytes| < 16 then |bytes| else 16
    ensures Chunks(address, bytes) == [Chunk(address, bytes[..k])] + Chunks((address + k) % U32, bytes[k..])
  {
  }

  lemma NoChunks(address: nat)
    requires address < U32
    ensures Chunks(address, []) == []
  {
  }

  lemma PlacedStep(head: Chunk, rest: seq<Chunk>, k: nat, next: nat, i: nat)
    requires head.addr < U32 && |head.data| == k && 1 <= k <= 16 && next == (head.addr + k) % U32
    requires k < 16 ==> rest == []
    requires i <= |rest|
    requires i > 0 ==>
               && 1 <= |rest[i - 1].data| <= 16
               && rest[i - 1].addr == (next + |Carried(rest[..i - 1])|) % U32
               && (i < |rest| ==> |rest[i - 1].data| == 16)
    ensures var c := [head] + rest;
            && 1 <= |c[i].data| <= 16
            && c[i].addr == (head.addr + |Carried(c[..i])|) % U32
            && (i + 1 < |c| ==> |c[i].data| == 16)
  {
    var c := [head] + rest;
    if i == 0 {
      assert Carried(c[..0]) == [];
    } else {
      hide Carried;
      assert c[..i] == [head] + rest[..i - 1];
      CarriedStep(head, rest[..i - 1]);
      ModAdd(head.addr, k, |Carried(rest[..i - 1])|);
    }
  }

  lemma ModAdd(a: int, b: int, c: int)
    ensures ((a + b) % U32 + c) % U32 == (a + (b + c)) % U32
  {
  }

  /** Every printed data record decodes to its own address and data. */
  lemma DecodeSaved(a: nat, data: seq<Byte>)
    requires a < U32 && |data| <= 16
    ensures Sum(DataRecord(a, data)) % 256 == 255
    ensures SrecDecode(Line('3', DataRecord(a, data))) == Decoded(Rec('3'), |data|, a, data)
  {
    hide SrecDecode, Line, Sum, Fields, Number, AddrBytes;
    var addr := AddrBytes(a);
    FieldsSum(addr, data, Checksum(addr, data));
    AcceptedExact('3', addr, data, Checksum(addr, data));
    AddrBack(a);
  }

  // ---- loading ----

  datatype Input = Record(text: string, rest: string) | Stopped

  /** `read_record`: one line; a NUL or a control-C, or a stream that ends, stops it. */
  function ReadRecord(input: string, room: nat): (r: Input)
    ensures r.Record? ==> |r.rest| < |input| || (room == 0 && r.rest == input)
  {
    if room == 0 then Record("", input)
    else if input == "" then Stopped
    else if input[0] == '\r' || input[0] == '\n' then Record("", input[1..])
    else if input[0] as int == 0 || input[0] as int == 3 then Stopped
    else
      match ReadRecord(input[1..], room - 1)
      case Stopped => Stopped
      case Record(text, rest) => Record([input[0]] + text, rest)
  }

  /** Bytes copied to `a` and up, wrapping at the top of memory. */
  function Store(mem: Memory, a: int, data: seq<Byte>): Memory {
    x => if (x - a) % U32 < |data| then data[(x - a) % U32] else mem(x)
  }

  /** The loader's memory and the range it has seen. */
  datatype Loader = Loader(mem: Memory, start: nat, end: nat)

  /** `Undefined`: a data record too short for its own fields. */
  datatype Outcome = Loaded(l: Loader, entry: nat) | Aborted(l: Loader) | Undefined

  function TakeRecord(l: Loader, d: Decoded, offset: nat): Loader
    requires d.status.Rec?
  {
    if d.status.kind in "123" then
      var a := (d.addr + offset) % U32;
      var last := (a + d.count - 1) % U32;
      Loader(Store(l.mem, a, d.data), if a < l.start then a else l.start, if last > l.end then last else l.end)
    else l
  }

  const SREC_MAXRECLEN := 516

  function Load(input: string, offset: nat, l: Loader): Outcome
    decreases |input|
  {
    match ReadRecord(input, SREC_MAXRECLEN)
    case Stopped => Aborted(l)
    case Record(text, rest) =>
      var d := SrecDecode(text);
      if d.status.Empty? then Load(rest, offset, l)
      else if !d.status.Rec? then Aborted(l)
      else if d.status.kind in "789" then Loaded(l, d.addr)
      else if d.status.kind in "123" && d.count < 0 then Undefined
      else Load(rest, offset, TakeRecord(l, d, offset))
  }

  function Fresh(mem: Memory): Loader {
    Loader(mem, U32 - 1, 0)
  }

  function FileSize(l: Loader): int {
    (l.end - l.start + 1) % U32
  }
}
