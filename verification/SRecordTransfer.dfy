/**
  Saving memory as S-records and loading it back (`save_serial`, `load_serial`
  in `cmd_load.c`): the loops, and the round trip through the text.
 */
module SRecordTransfer {
  import opened Common
  import opened SRecord

  // ---- the printed text, read back line by line ----

  predicate Plain(s: string) {
    forall c :: c in s ==> c as int > 3 && c != '\r' && c != '\n'
  }

  lemma {:induction false} HexTextPlain(bytes: seq<Byte>)
    ensures Plain(HexText(bytes))
  {
    if bytes != [] {
      HexTextPlain(bytes[1..]);
      DigitPlain(bytes[0] / 16);
      DigitPlain(bytes[0] % 16);
    }
  }

  lemma DigitPlain(n: nat)
    requires n < 16
    ensures Plain([HexDigit(n)])
  {
  }

  lemma ReadLineBack(line: string, rest: string, room: nat)
    requires Plain(line) && |line| < room
    ensures ReadRecord(line + "\n" + rest, room) == Record(line, rest)
  {
    ReadEnds(line, '\n', rest, room);
  }

  /** A line that fits ends at a line feed or a carriage return; a NUL or a control-C in it stops the reader. */
  lemma {:induction false} ReadEnds(line: string, c: char, rest: string, room: nat)
    requires Plain(line) && |line| < room
    requires c == '\r' || c == '\n' || c as int == 0 || c as int == 3
    ensures ReadRecord(line + [c] + rest, room) == if c == '\r' || c == '\n' then Record(line, rest) else Stopped
  {
    var input := line + [c] + rest;
    if line == "" {
      assert input[0] == c && input[1..] == rest;
    } else {
      assert input[0] == line[0] && input[0] in line;
      assert input[1..] == line[1..] + [c] + rest;
      assert Plain(line[1..]) by {
        assert forall c :: c in line[1..] ==> c in line;
      }
      ReadEnds(line[1..], c, rest, room - 1);
      assert [line[0]] + line[1..] == line;
    }
  }

  /** A longer line is cut after as many characters as fit, and the rest is left for the next record. */
  lemma {:induction false} ReadCuts(line: string, rest: string, room: nat)
    requires Plain(line) && |line| == room
    ensures ReadRecord(line + rest, room) == Record(line, rest)
  {
    if line == "" {
      assert line + rest == rest;
    } else {
      assert (line + rest)[0] == line[0] && line[0] in line;
      assert (line + rest)[1..] == line[1..] + rest;
      assert Plain(line[1..]) by {
        assert forall c :: c in line[1..] ==> c in line;
      }
      ReadCuts(line[1..], rest, room - 1);
      assert [line[0]] + line[1..] == line;
    }
  }

  /** What the loader does with the data records. */
  function After(chunks: seq<Chunk>, offset: nat, l: Loader): Loader {
    if chunks == [] then l
    else
      var c := chunks[0];
      After(chunks[1..], offset, TakeRecord(l, Decoded(Rec('3'), |c.data|, c.addr, c.data), offset))
  }

  lemma DataLine(a: nat, data: seq<Byte>, rest: string)
    requires a < U32 && |data| <= 16
    ensures ReadRecord(Line('3', DataRecord(a, data)) + "\n" + rest, SREC_MAXRECLEN)
            == Record(Line('3', DataRecord(a, data)), rest)
  {
    var bytes := DataRecord(a, data);
    assert |bytes| <= 22;
    hide DataRecord, HexText;
    HexTextPlain(bytes);
    ReadLineBack(Line('3', bytes), rest, SREC_MAXRECLEN);
  }

  lemma {:induction false} LoadPrinted(chunks: seq<Chunk>, offset: nat, l: Loader)
    requires forall c :: c in chunks ==> c.addr < U32 && |c.data| <= 16
    ensures Load(Printed(chunks) + SREC3_END, offset, l) == Loaded(After(chunks, offset, l), 0)
    decreases |chunks|
  {
    if chunks == [] {
      LoadEnd(offset, l);
      assert Printed(chunks) + SREC3_END == SREC3_END;
    } else {
      var c, rest := chunks[0], Printed(chunks[1..]) + SREC3_END;
      var line := Line('3', DataRecord(c.addr, c.data));
      var d := Decoded(Rec('3'), |c.data|, c.addr, c.data);
      assert Printed(chunks) + SREC3_END == line + "\n" + rest by {
        assert Printed(chunks) == line + "\n" + Printed(chunks[1..]);
      }
      DataLine(c.addr, c.data, rest);
      DecodeSaved(c.addr, c.data);
      LoadPrinted(chunks[1..], offset, TakeRecord(l, d, offset));
      hide Printed, SrecDecode, ReadRecord, Line, DataRecord, TakeRecord;
      LoadStep(line + "\n" + rest, line, rest, d, offset, l);
    }
  }

  lemma LoadStep(input: string, text: string, rest: string, d: Decoded, offset: nat, l: Loader)
    requires ReadRecord(input, SREC_MAXRECLEN) == Record(text, rest) && SrecDecode(text) == d
    requires d.status == Rec('3') && d.count >= 0
    ensures Load(input, offset, l) == Load(rest, offset, TakeRecord(l, d, offset))
  {
    hide SrecDecode, ReadRecord, TakeRecord;
  }

  lemma HexPrepend(b: Byte, rest: seq<Byte>, text: string)
    requires HexText(rest) == text
    ensures HexText([b] + rest) == Hex2(b) + text
  {
    assert ([b] + rest)[1..] == rest;
  }

  lemma ZerosText()
    ensures HexText([0, 0]) == "0000" && HexText([0, 0, 0, 0]) == "00000000"
    ensures Hex2(3) == "03" && Hex2(5) == "05" && Hex2(0xFC) == "FC" && Hex2(0xFA) == "FA"
  {
    assert Hex2(0) == "00";
    var z: seq<Byte> := [0];
    OneText(0);
    hide HexText, Hex2;
    HexPrepend(0, z, "00");
    assert [0] + z == [0, 0];
    HexTextConcat([0, 0], [0, 0]);
    assert [0, 0] + [0, 0] == [0, 0, 0, 0];
  }

  lemma FixedText(s: string, kind: char, length: Byte, addr: seq<Byte>, check: Byte, h: string, a: string, c: string)
    requires |addr| + 1 == length && h == Hex2(length) && a == HexText(addr) && c == Hex2(check)
    requires s == ['S', kind] + (h + (a + c))
    ensures s == Line(kind, Fields(addr, [], check))
  {
    assert HexText([]) == "" && "" + c == c;
    hide HexText, Hex2, Fields;
    FieldsText(length, addr, [], check);
  }

  /** A record with an all-zero address and no data, from its pieces. */
  lemma FixedDecodes(s: string, kind: char, length: Byte, addr: seq<Byte>, check: Byte, h: string, a: string, c: string)
    requires HasWidth(kind, |addr|) && kind != '5'
    requires Sum(addr) == 0 && Number(addr) == 0 && |addr| + 1 == length && length + check == 255
    requires h == Hex2(length) && a == HexText(addr) && c == Hex2(check)
    requires s == ['S', kind] + (h + (a + c))
    ensures SrecDecode(s) == Decoded(Rec(kind), 0, 0, [])
  {
    hide SrecDecode, HexText, Hex2, Sum, Number, Line, Fields, HasWidth;
    FixedText(s, kind, length, addr, check, h, a, c);
    ZeroSum(addr, check);
    AcceptedExact(kind, addr, [], check);
  }

  lemma ZeroSum(addr: seq<Byte>, check: Byte)
    requires Sum(addr) == 0 && |addr| + 1 + check == 255
    ensures Sum(Fields(addr, [], check)) == 255
  {
    assert Sum([]) == 0;
    hide Sum, Fields;
    FieldsSum(addr, [], check);
  }

  lemma StartPieces()
    ensures "S0030000FC" == ['S', '0'] + ("03" + ("0000" + "FC")) && Plain("S0030000FC")
    ensures SREC3_START == "S0030000FC" + "\n"
  {
  }

  lemma EndPieces()
    ensures "S70500000000FA" == ['S', '7'] + ("05" + ("00000000" + "FA")) && Plain("S70500000000FA")
    ensures SREC3_END == "S70500000000FA" + "\n" + ""
  {
  }

  lemma Zeros()
    ensures Number([0, 0]) == 0 && Sum([0, 0]) == 0
    ensures Number([0, 0, 0, 0]) == 0 && Sum([0, 0, 0, 0]) == 0
  {
    var z: seq<Byte> := [0, 0];
    assert z[..1] == [0] && Number(z[..1]) == 0 && Sum(z) == 0;
    assert AddrBytes(0) == [0, 0, 0, 0];
    AddrBack(0);
    SumConcat(z, z);
    assert z + z == [0, 0, 0, 0];
  }

  /** The header and the trailer are good records. */
  lemma StartDecodes(s: string)
    requires s == "S0030000FC"
    ensures SrecDecode(s) == Decoded(Rec('0'), 0, 0, [])
  {
    hide SrecDecode, HexText, Hex2, Sum, Number;
    Zeros();
    ZerosText();
    StartPieces();
    FixedDecodes(s, '0', 3, [0, 0], 0xFC, "03", "0000", "FC");
  }

  lemma EndDecodes(s: string)
    requires s == "S70500000000FA"
    ensures SrecDecode(s) == Decoded(Rec('7'), 0, 0, [])
  {
    hide SrecDecode, HexText, Hex2, Sum, Number;
    Zeros();
    ZerosText();
    EndPieces();
    FixedDecodes(s, '7', 5, [0, 0, 0, 0], 0xFA, "05", "00000000", "FA");
  }

  lemma LoadEnd(offset: nat, l: Loader)
    ensures Load(SREC3_END, offset, l) == Loaded(l, 0)
  {
    hide Load, SrecDecode, Plain;
    EndPieces();
    EndDecodes("S70500000000FA");
    EndOfFile("S70500000000FA", offset, l);
  }

  lemma EndOfFile(s: string, offset: nat, l: Loader)
    requires Plain(s) && |s| < SREC_MAXRECLEN && SrecDecode(s) == Decoded(Rec('7'), 0, 0, [])
    ensures Load(s + "\n" + "", offset, l) == Loaded(l, 0)
  {
    hide ReadRecord, SrecDecode;
    ReadLineBack(s, "", SREC_MAXRECLEN);
  }

  lemma LoadStart(rest: string, offset: nat, l: Loader)
    ensures Load(SREC3_START + rest, offset, l) == Load(rest, offset, l)
  {
    hide Load, SrecDecode, Plain;
    StartPieces();
    StartDecodes("S0030000FC");
    StartOfFile("S0030000FC", rest, offset, l);
  }

  lemma StartOfFile(s: string, rest: string, offset: nat, l: Loader)
    requires Plain(s) && |s| < SREC_MAXRECLEN && SrecDecode(s) == Decoded(Rec('0'), 0, 0, [])
    ensures Load(s + "\n" + rest, offset, l) == Load(rest, offset, l)
  {
    hide ReadRecord, SrecDecode;
    ReadLineBack(s, rest, SREC_MAXRECLEN);
  }

  // ---- the memory after loading ----

  lemma {:induction false} AfterMem(address: nat, bytes: seq<Byte>, offset: nat, l: Loader, x: int)
    requires address < U32 && |bytes| <= U32
    ensures var t := (x - address - offset) % U32;
            After(Chunks(address, bytes), offset, l).mem(x) == if t < |bytes| then bytes[t] else l.mem(x)
    decreases |bytes|
  {
    if bytes == [] {
      NoChunks(address);
    } else {
      hide *;
      var k := if |bytes| < 16 then |bytes| else 16;
      var next, rest := (address + k) % U32, bytes[k..];
      var l' := TakeRecord(l, Decoded(Rec('3'), k, address, bytes[..k]), offset);
      AfterMem(next, rest, offset, l', x);
      AfterStep(address, bytes, offset, l, k);
      Shift(x, address, k, offset, |bytes|);
      TakenMem(l, bytes[..k], address, offset, x);
      PickByte(bytes, k, (x - address - offset) % U32, (x - next - offset) % U32, l.mem(x));
    }
  }

  /** A byte of the first `k` or of the rest. */
  lemma PickByte(bytes: seq<Byte>, k: nat, t: nat, t': nat, before: Byte)
    requires k <= |bytes| && (if t >= k then t' == t - k else t' >= |bytes| - k)
    ensures (if t' < |bytes[k..]| then bytes[k..][t'] else if t < |bytes[..k]| then bytes[..k][t] else before)
            == if t < |bytes| then bytes[t] else before
  {
  }

  lemma TakenMem(l: Loader, data: seq<Byte>, address: nat, offset: nat, x: int)
    ensures var t := (x - (address + offset) % U32) % U32;
            TakeRecord(l, Decoded(Rec('3'), |data|, address, data), offset).mem(x) == if t < |data| then data[t] else l.mem(x)
  {
  }

  lemma AfterStep(address: nat, bytes: seq<Byte>, offset: nat, l: Loader, k: nat)
    requires address < U32 && bytes != [] && k == if |bytes| < 16 then |bytes| else 16
    ensures After(Chunks(address, bytes), offset, l) ==
            After(Chunks((address + k) % U32, bytes[k..]), offset,
                  TakeRecord(l, Decoded(Rec('3'), k, address, bytes[..k]), offset))
  {
    hide TakeRecord;
    assert Chunks(address, bytes)[1..] == Chunks((address + k) % U32, bytes[k..]);
  }

  /** Where a byte of the range falls, before or after the first `k`. */
  lemma Shift(x: int, address: int, k: nat, offset: int, n: nat)
    requires k <= n <= U32
    ensures var t, t' := (x - address - offset) % U32, (x - (address + k) % U32 - offset) % U32;
            && (x - (address + offset) % U32) % U32 == t
            && (if t >= k then t' == t - k else t' >= n - k)
  {
  }

  /**
    Round trip: loading the text saved from one memory writes exactly the saved
    range, moved by the load offset, and nothing else, for every address and
    count, also when either range wraps at the top of memory.
   */
  lemma SaveThenLoad(mem: Memory, address: nat, count: nat, offset: nat, target: Memory, x: int)
    requires address < U32 && count < U32 && offset < U32
    ensures var r := Load(Saved(mem, address, count), offset, Fresh(target));
            && r.Loaded? && r.entry == 0
            && r.l.mem(x) == if (x - address - offset) % U32 < count then mem((x - offset) % U32) else target(x)
  {
    var bytes := Bytes(mem, address, count);
    var t := (x - address - offset) % U32;
    assert t < count ==> bytes[t] == mem((x - offset) % U32) by {
      Unwrap(x, address, offset);
    }
    SavedLoads(mem, address, count, offset, target);
    hide Load, Saved, Bytes, Chunks, After;
    AfterMem(address, bytes, offset, Fresh(target), x);
  }

  lemma Unwrap(x: int, address: int, offset: int)
    ensures (address + (x - address - offset) % U32) % U32 == (x - offset) % U32
  {
  }

  lemma SavedLoads(mem: Memory, address: nat, count: nat, offset: nat, target: Memory)
    requires address < U32
    ensures Load(Saved(mem, address, count), offset, Fresh(target))
            == Loaded(After(Chunks(address, Bytes(mem, address, count)), offset, Fresh(target)), 0)
  {
    hide Load, Bytes, Chunks, After, Printed;
    var chunks := Chunks(address, Bytes(mem, address, count));
    LoadStart(Printed(chunks) + SREC3_END, offset, Fresh(target));
    LoadPrinted(chunks, offset, Fresh(target));
    Assoc(SREC3_START, Printed(chunks), SREC3_END);
  }

  lemma {:induction false} AfterRange(address: nat, bytes: seq<Byte>, offset: nat, l: Loader)
    requires address < U32 && bytes != [] && (address + offset) % U32 + |bytes| <= U32
    ensures var a, z := (address + offset) % U32, (address + offset) % U32 + |bytes| - 1;
            var r := After(Chunks(address, bytes), offset, l);
            && r.start == (if a < l.start then a else l.start)
            && r.end == (if z > l.end then z else l.end)
    decreases |bytes|
  {
    hide Chunks, After, TakeRecord;
    var k := if |bytes| < 16 then |bytes| else 16;
    var next, rest := (address + k) % U32, bytes[k..];
    var l' := TakeRecord(l, Decoded(Rec('3'), k, address, bytes[..k]), offset);
    AfterStep(address, bytes, offset, l, k);
    TakenRange(l, bytes[..k], address, offset);
    if rest == [] {
      AfterNothing(next, offset, l');
    } else {
      NextPlace(address, k, offset);
      AfterRange(next, rest, offset, l');
    }
  }

  lemma AfterNothing(address: nat, offset: nat, l: Loader)
    requires address < U32
    ensures After(Chunks(address, []), offset, l) == l
  {
  }

  lemma NextPlace(address: nat, k: nat, offset: nat)
    requires (address + offset) % U32 + k < U32
    ensures ((address + k) % U32 + offset) % U32 == (address + offset) % U32 + k
  {
  }

  lemma TakenRange(l: Loader, data: seq<Byte>, address: nat, offset: nat)
    requires data != [] && (address + offset) % U32 + |data| <= U32
    ensures var a, z := (address + offset) % U32, (address + offset) % U32 + |data| - 1;
            var r := TakeRecord(l, Decoded(Rec('3'), |data|, address, data), offset);
            && r.start == (if a < l.start then a else l.start)
            && r.end == (if z > l.end then z else l.end)
  {
  }

  // ---- the loops of the source ----

  /** The low `n` bytes of a number, added up. */
  function LowBytes(value: nat, n: nat): nat {
    if n == 0 then 0 else value % 256 + LowBytes(value / 256, n - 1)
  }

  lemma AddressSum(a: nat)
    requires a < U32
    ensures LowBytes(a, 4) == Sum(AddrBytes(a))
  {
    var b, c, d := a / 256, a / 0x1_0000, a / 0x100_0000;
    assert c == b / 256 && d == c / 256 && d < 256;
    assert LowBytes(d, 1) == d;
    assert LowBytes(c, 2) == c % 256 + d;
    assert LowBytes(b, 3) == b % 256 + (c % 256 + d);
    SumOfFour(d, c % 256, b % 256, a % 256);
  }

  lemma SumOfFour(d: Byte, c: Byte, b: Byte, a: Byte)
    ensures Sum([d, c, b, a]) == d + c + b + a
  {
    SumConcat([d], [c]);
    SumConcat([b], [a]);
    SumConcat([d] + [c], [b] + [a]);
    assert ([d] + [c]) + ([b] + [a]) == [d, c, b, a];
  }

  /** The loops that add the bytes of the length and of the address to the checksum. */
  method AddBytes(checksum: nat, value: nat, n: nat) returns (c: nat)
    ensures c == checksum + LowBytes(value, n)
  {
    c := checksum;
    var i, v := 0, value;
    while i < n
      invariant 0 <= i <= n
      invariant c + LowBytes(v, n - i) == checksum + LowBytes(value, n)
    {
      c := c + v % 256;
      v := v / 256;
      i := i + 1;
    }
  }

  method RecordChecksum(address: nat, length: nat, sum: nat, ghost data: seq<Byte>) returns (c: Byte)
    requires address < U32 && |data| <= 16 && length == |data| + 5 && sum == Sum(data)
    ensures c == Checksum(AddrBytes(address), data)
  {
    var checksum := AddBytes(sum, length, 2);
    checksum := AddBytes(checksum, address, 4);
    assert LowBytes(length, 2) == length + LowBytes(0, 1);
    AddressSum(address);
    c := 255 - checksum % 256;
  }

  /** One data record, from the collected hex text and the running checksum. */
  method FormatRecord(address: nat, hex: string, sum: nat, ghost data: seq<Byte>) returns (record: string)
    requires address < U32 && |data| <= 16 && hex == HexText(data) && sum == Sum(data)
    ensures record == Line('3', DataRecord(address, data)) + "\n"
  {
    hide HexText, Sum, Hex2, AddrBytes, Checksum;
    var length := 4 + |hex| / 2 + 1;
    var checksum := RecordChecksum(address, length, sum, data);
    RecordText(length, AddrBytes(address), data, checksum);
    record := "S3" + (Hex2(length) + (HexText(AddrBytes(address)) + (hex + Hex2(checksum)))) + "\n";
  }

  lemma RecordText(length: Byte, addr: seq<Byte>, data: seq<Byte>, check: Byte)
    requires |addr| == 4 && |data| <= 16 && length == |data| + 5
    ensures Line('3', Fields(addr, data, check)) == "S3" + (Hex2(length) + (HexText(addr) + (HexText(data) + Hex2(check))))
  {
    hide HexText, Hex2, Fields;
    FieldsText(length, addr, data, check);
  }

  lemma BytesSnoc(mem: Memory, a: nat, k: nat)
    ensures Bytes(mem, a, k + 1) == Bytes(mem, a, k) + [mem((a + k) % U32)]
  {
  }

  /** The hex text and the sum of the `k` bytes collected so far. */
  ghost predicate Collected(mem: Memory, a: nat, k: nat, hex: string, sum: nat) {
    hex == HexText(Bytes(mem, a, k)) && sum == Sum(Bytes(mem, a, k))
  }

  lemma CollectNone(mem: Memory, a: nat)
    ensures Collected(mem, a, 0, "", 0)
  {
  }

  lemma Collect(mem: Memory, a: nat, k: nat, hex: string, sum: nat, c: Byte)
    requires Collected(mem, a, k, hex, sum) && c == mem((a + k) % U32)
    ensures Collected(mem, a, k + 1, hex + Hex2(c), sum + c)
  {
    BytesSnoc(mem, a, k);
    OneText(c);
    SumOne(c);
    hide HexText, Sum, Bytes, Hex2;
    HexTextConcat(Bytes(mem, a, k), [c]);
    SumConcat(Bytes(mem, a, k), [c]);
  }

  /** What is still to print. */
  ghost function ToPrint(mem: Memory, a: nat, n: nat): string
    requires a < U32
  {
    Printed(Chunks(a, Bytes(mem, a, n))) + SREC3_END
  }

  /** A full record, or the last one, is the first of those still to print. */
  lemma FirstRecord(mem: Memory, a: nat, k: nat, n: nat)
    requires a < U32 && (k == 16 || (k < 16 && n == 0))
    ensures var next := (a + k) % U32;
            Printed(Chunks(a, Bytes(mem, a, k + n))) ==
            (if k == 0 then "" else Line('3', DataRecord(a, Bytes(mem, a, k))) + "\n")
            + Printed(Chunks(next, Bytes(mem, next, n)))
  {
    var next, bytes := (a + k) % U32, Bytes(mem, a, k + n);
    BytesSplit(mem, a, k, n);
    if k > 0 {
      hide Bytes, Line, DataRecord;
      assert Chunks(a, bytes) == [Chunk(a, bytes[..k])] + Chunks(next, bytes[k..]);
      hide Chunks;
      PrintedStep(Chunk(a, bytes[..k]), Chunks(next, bytes[k..]));
    }
  }

  lemma PrintedStep(c: Chunk, rest: seq<Chunk>)
    requires c.addr < U32 && |c.data| <= 16
    requires forall d :: d in rest ==> d.addr < U32 && |d.data| <= 16
    ensures Printed([c] + rest) == Line('3', DataRecord(c.addr, c.data)) + "\n" + Printed(rest)
  {
    hide Line, DataRecord;
    assert ([c] + rest)[1..] == rest;
  }

  lemma BytesSplit(mem: Memory, a: nat, k: nat, n: nat)
    ensures Bytes(mem, a, k + n)[..k] == Bytes(mem, a, k)
    ensures Bytes(mem, a, k + n)[k..] == Bytes(mem, (a + k) % U32, n)
  {
    var l, r := Bytes(mem, a, k + n)[k..], Bytes(mem, (a + k) % U32, n);
    forall i | 0 <= i < n
      ensures l[i] == r[i]
    {
      ModAdd(a, k, i);
    }
  }

  lemma PrintRecord(mem: Memory, a: nat, k: nat, n: nat, out: string, record: string)
    requires a < U32 && (k == 16 || (k < 16 && n == 0))
    requires record == if k == 0 then "" else Line('3', DataRecord(a, Bytes(mem, a, k))) + "\n"
    ensures out + ToPrint(mem, a, k + n) == (out + record) + ToPrint(mem, (a + k) % U32, n)
  {
    hide Printed, Chunks, Bytes, Line, DataRecord;
    FirstRecord(mem, a, k, n);
    var rest := Printed(Chunks((a + k) % U32, Bytes(mem, (a + k) % U32, n)));
    Assoc(record, rest, SREC3_END);
    Assoc(out, record, rest + SREC3_END);
  }

  lemma SavedIs(mem: Memory, address: nat, count: nat)
    requires address < U32
    ensures Saved(mem, address, count) == SREC3_START + ToPrint(mem, address, count)
    ensures ToPrint(mem, address, 0) == SREC3_END
  {
    Assoc(SREC3_START, Printed(Chunks(address, Bytes(mem, address, count))), SREC3_END);
  }

  /** `save_serial`, when nobody interrupts it. */
  method SaveSerial(mem: Memory, address: nat, count: nat) returns (out: string)
    requires address < U32 && count < U32
    ensures out == Saved(mem, address, count)
  {
    hide HexText, Sum, Bytes, Chunks, Printed, Hex2, Line, DataRecord, Collected, ToPrint, Saved;
    var a: nat, n: nat, reclen: nat, checksum: nat, hex := address, count, 0, 0, "";
    out := SREC3_START;
    SavedIs(mem, address, count);
    CollectNone(mem, a);
    var first := true;
    while first || n > 0
      invariant a < U32 && reclen < 16
      invariant !first && n == 0 ==> reclen == 0
      invariant Collected(mem, a, reclen, hex, checksum)
      invariant out + ToPrint(mem, a, reclen + n) == Saved(mem, address, count)
      decreases n, first
    {
      first := false;
      if n > 0 {
        var c := mem((a + reclen) % U32);
        Collect(mem, a, reclen, hex, checksum, c);
        checksum := checksum + c;
        hex := hex + Hex2(c);
        reclen := reclen + 1;
        n := n - 1;
      }
      if reclen == 16 || n == 0 {
        var record := "";
        if reclen > 0 {
          record := DumpRecord(mem, a, reclen, hex, checksum);
        }
        PrintRecord(mem, a, reclen, n, out, record);
        out := out + record;
        a := (a + reclen) % U32;
        checksum, reclen, hex := 0, 0, "";
        CollectNone(mem, a);
      }
    }
    SavedIs(mem, a, 0);
    out := out + SREC3_END;
  }

  method DumpRecord(ghost mem: Memory, a: nat, ghost k: nat, hex: string, sum: nat) returns (record: string)
    requires a < U32 && k <= 16 && Collected(mem, a, k, hex, sum)
    ensures record == Line('3', DataRecord(a, Bytes(mem, a, k))) + "\n"
  {
    record := FormatRecord(a, hex, sum, Bytes(mem, a, k));
  }

  function Prepend(pre: string, r: Input): Input {
    if r.Stopped? then Stopped else Record(pre + r.text, r.rest)
  }

  lemma PrependStep(input: string, room: nat, pre: string)
    requires room > 0 && input != "" && input[0] != '\r' && input[0] != '\n' && input[0] as int != 0 && input[0] as int != 3
    ensures Prepend(pre, ReadRecord(input, room)) == Prepend(pre + [input[0]], ReadRecord(input[1..], room - 1))
  {
    var r := ReadRecord(input[1..], room - 1);
    if r.Record? {
      assert pre + ([input[0]] + r.text) == pre + [input[0]] + r.text;
    }
  }

  /** `read_record`. */
  method ReadLine(input: string, room: nat) returns (r: Input)
    ensures r == ReadRecord(input, room)
  {
    var p, buf := 0, "";
    assert input[0..] == input;
    while p < room
      invariant p <= room && p <= |input|
      invariant Prepend(buf, ReadRecord(input[p..], room - p)) == Prepend("", ReadRecord(input, room))
    {
      if p == |input| {
        return Stopped;
      }
      var c := input[p];
      if c == '\r' || c == '\n' {
        assert input[p..][1..] == input[p + 1..] && buf + "" == buf;
        return Record(buf, input[p + 1..]);
      }
      if c as int == 0 || c as int == 3 {
        return Stopped;
      }
      PrependStep(input[p..], room - p, buf);
      assert input[p..][1..] == input[p + 1..];
      buf := buf + [c];
      p := p + 1;
    }
    assert buf + "" == buf;
    return Record(buf, input[p..]);
  }

  lemma {:induction false} HexBytesSnoc(s: string, i: nat, n: nat)
    ensures var r, v := HexBytes(s, i, n), Hex2Bin(s, i + 2 * n);
            HexBytes(s, i, n + 1) == if r.None? || v < 0 then None else Some(r.value + [v])
    decreases n
  {
    hide Hex2Bin;
    if n == 0 {
      var v := Hex2Bin(s, i);
      assert HexBytes(s, i + 2, 0) == Some([]);
      assert v >= 0 ==> [v] + [] == [] + [v];
    } else {
      HexBytesSnoc(s, i + 2, n - 1);
      var first, mid, v := Hex2Bin(s, i), HexBytes(s, i + 2, n - 1), Hex2Bin(s, i + 2 * n);
      assert i + 2 + 2 * (n - 1) == i + 2 * n;
      if first >= 0 && mid.Some? && v >= 0 {
        assert [first] + (mid.value + [v]) == ([first] + mid.value) + [v];
      }
    }
  }

  lemma {:induction false} HexBytesMore(s: string, i: nat, m: nat, n: nat)
    requires m <= n && HexBytes(s, i, m).None?
    ensures HexBytes(s, i, n).None?
    decreases n
  {
    if m < n {
      HexBytesMore(s, i, m, n - 1);
      HexBytesSnoc(s, i, n - 1);
    }
  }

  /** The loops of `srec_decode` over hex pairs: the bytes, or none where one is malformed. */
  method ReadHex(s: string, i: nat, n: nat) returns (r: Option<seq<Byte>>, sum: nat)
    ensures r == HexBytes(s, i, n)
    ensures r.Some? ==> sum == Sum(r.value)
  {
    var bytes: seq<Byte> := [];
    var k := 0;
    sum := 0;
    hide Hex2Bin;
    while k < n
      invariant k <= n && HexBytes(s, i, k) == Some(bytes) && sum == Sum(bytes)
    {
      var v := Hex2Bin(s, i + 2 * k);
      HexBytesSnoc(s, i, k);
      if v < 0 {
        HexBytesMore(s, i, k + 1, n);
        return None, 0;
      }
      SumSnoc(bytes, v);
      bytes := bytes + [v];
      sum := sum + v;
      k := k + 1;
    }
    r := Some(bytes);
  }

  lemma SumSnoc(bytes: seq<Byte>, v: Byte)
    ensures Sum(bytes + [v]) == Sum(bytes) + v
  {
    SumOne(v);
    SumConcat(bytes, [v]);
  }

  /** `srec_decode`. */
  method Decode(s: string) returns (d: Decoded)
    ensures d == SrecDecode(s)
  {
    hide HexBytes, Hex2Bin, Sum, Number, AddressBytes;
    var i := FindS(s);
    if i == |s| {
      return Failed(Empty);
    }
    var kind := s[i];
    var length := Hex2Bin(s, i + 1);
    if length < 0 {
      return Failed(NoSrec);
    }
    var alen := AddressBytes(kind);
    if alen == 0 {
      return Failed(BadType);
    }
    var count := DataBytes(kind, length);
    var dlen := if count < 0 then 0 else count;
    var addr, asum := ReadHex(s, i + 3, alen);
    if addr.None? {
      return Failed(NoSrec);
    }
    var data, dsum := ReadHex(s, i + 3 + 2 * alen, dlen);
    if data.None? {
      return Failed(NoSrec);
    }
    var v := Hex2Bin(s, i + 3 + 2 * (alen + dlen));
    if v < 0 {
      return Failed(NoSrec);
    }
    if v != 255 - (length + asum + dsum) % 256 {
      return Failed(BadChks);
    }
    d := Decoded(Rec(kind), count, Number(addr.value), data.value);
  }

  method FindS(s: string) returns (i: nat)
    ensures i == SkipToS(s, 0)
  {
    i := 0;
    while i < |s|
      invariant i <= |s| && SkipToS(s, i) == SkipToS(s, 0)
    {
      if s[i] == 'S' {
        return i + 1;
      }
      i := i + 1;
    }
  }

  /** `load_serial` into memory that is not flash. */
  method LoadSerial(text: string, offset: nat, mem: Memory) returns (r: Outcome)
    ensures r == Load(text, offset, Fresh(mem))
  {
    hide SrecDecode, ReadRecord, Store;
    var input, m, start: nat, end: nat := text, mem, U32 - 1, 0;
    while true
      invariant Load(input, offset, Loader(m, start, end)) == Load(text, offset, Fresh(mem))
      decreases |input|
    {
      var line := ReadLine(input, SREC_MAXRECLEN);
      if line.Stopped? {
        return Aborted(Loader(m, start, end));
      }
      var d := Decode(line.text);
      if d.status.Rec? {
        if d.status.kind in "123" {
          if d.count < 0 {
            return Undefined;
          }
          var a := (d.addr + offset) % U32;
          m := Store(m, a, d.data);
          if a < start {
            start := a;
          }
          var last := (a + d.count - 1) % U32;
          if last > end {
            end := last;
          }
        } else if d.status.kind in "789" {
          return Loaded(Loader(m, start, end), d.addr);
        }
      } else if !d.status.Empty? {
        return Aborted(Loader(m, start, end));
      }
      input := line.rest;
    }
  }
}
