/**
  What loading any S-record file does (`load_serial` in `cmd_load.c`,
  `srec_decode` in `s_record.c`): good records of every type, each line ended in
  any of the usual ways, and the lines that are not good records.
 */
module SRecordFiles {
  import opened Common
  import opened SRecord
  import opened SRecordTransfer

  // ---- good files ----

  /** One good record and the way its line ends. */
  datatype SRec = SRec(kind: char, addr: seq<Byte>, data: seq<Byte>, eol: string)

  predicate LineEnd(eol: string) {
    eol == "\n" || eol == "\r" || eol == "\r\n"
  }

  /** A header, data or count record. */
  predicate Good(r: SRec) {
    && HasWidth(r.kind, |r.addr|) && |r.addr| + |r.data| < 255 && LineEnd(r.eol)
    && (r.kind == '0' || r.kind == '1' || r.kind == '2' || r.kind == '3' || (r.kind == '5' && r.data == []))
  }

  /** An end record. */
  predicate GoodEnd(r: SRec) {
    && HasWidth(r.kind, |r.addr|) && |r.addr| + |r.data| < 255 && LineEnd(r.eol)
    && (r.kind == '7' || r.kind == '8' || r.kind == '9')
  }

  function RecordLine(r: SRec): string
    requires |r.addr| + |r.data| < 255
  {
    Line(r.kind, Fields(r.addr, r.data, Checksum(r.addr, r.data)))
  }

  function FileText(rs: seq<SRec>): string
    requires forall r :: r in rs ==> Good(r)
  {
    if rs == [] then ""
    else
      var last := rs[|rs| - 1];
      assert last in rs && Good(last);
      assert forall r :: r in rs[..|rs| - 1] ==> r in rs;
      FileText(rs[..|rs| - 1]) + (RecordLine(last) + last.eol)
  }

  /** The byte at `x` once the records were loaded, looked up from the last record back: the last one of type 1, 2 or 3
      that carries an address whose sum with the offset is `x` decides. */
  function Final(rs: seq<SRec>, offset: nat, mem: Memory, x: int): Byte {
    if rs == [] then mem(x)
    else
      var r := rs[|rs| - 1];
      var t := (x - Number(r.addr) - offset) % 0x1_0000_0000;
      if (r.kind == '1' || r.kind == '2' || r.kind == '3') && t < |r.data| then r.data[t]
      else Final(rs[..|rs| - 1], offset, mem, x)
  }

  // ---- reading them ----

  lemma GoodDecodes(kind: char, addr: seq<Byte>, data: seq<Byte>)
    requires HasWidth(kind, |addr|) && (kind == '5' ==> data == []) && |addr| + |data| < 255
    ensures SrecDecode(Line(kind, Fields(addr, data, Checksum(addr, data)))) == Decoded(Rec(kind), |data|, Number(addr), data)
  {
    hide SrecDecode, Line, Fields, Sum, Number, HasWidth;
    FieldsSum(addr, data, Checksum(addr, data));
    AcceptedExact(kind, addr, data, Checksum(addr, data));
  }

  lemma GoodLineFits(r: SRec)
    requires |r.addr| + |r.data| < 255 && r.kind as int > 31
    ensures |RecordLine(r)| < 516 && Plain(RecordLine(r))
  {
    var bytes := Fields(r.addr, r.data, Checksum(r.addr, r.data));
    assert |bytes| <= 256;
    hide Fields, HexText;
    HexTextPlain(bytes);
  }

  /** Reading one line of a file, whichever way it ends; a carriage return and a line feed leave an empty line. */
  lemma LineRead(line: string, eol: string, rest: string)
    requires Plain(line) && |line| < 516 && LineEnd(eol)
    ensures ReadRecord(line + eol + rest, SREC_MAXRECLEN) == Record(line, eol[1..] + rest)
  {
    hide ReadRecord;
    assert line + eol + rest == line + [eol[0]] + (eol[1..] + rest);
    ReadEnds(line, eol[0], eol[1..] + rest, SREC_MAXRECLEN);
  }

  lemma EmptyLine(eol: string, rest: string, offset: nat, l: Loader)
    requires LineEnd(eol)
    ensures Load(eol[1..] + rest, offset, l) == Load(rest, offset, l)
  {
    if |eol| > 1 {
      var input := "" + "\n" + rest;
      assert eol[1..] + rest == input;
      ReadEnds("", '\n', rest, SREC_MAXRECLEN);
      NoRecord("");
      hide ReadRecord, SrecDecode;
    } else {
      assert eol[1..] + rest == rest;
    }
  }

  /** Text without an 'S', or with nothing behind the first one, is an empty record. */
  lemma NoRecord(s: string)
    requires 'S' !in s
    ensures SrecDecode(s) == Failed(Empty) && SrecDecode(s + "S") == Failed(Empty)
  {
    NoS(s, 0);
    assert (s + "S")[0..|s|] == s;
    SkipTo(s + "S", 0, |s|);
    hide SkipToS;
  }

  lemma {:induction false} NoS(s: string, i: nat)
    requires i <= |s| && 'S' !in s[i..]
    ensures SkipToS(s, i) == |s|
    decreases |s| - i
  {
    if i < |s| {
      assert s[i] == s[i..][0] && s[i] in s[i..];
      assert s[i + 1..] == s[i..][1..];
      NoS(s, i + 1);
    }
  }

  /** The loader's state after good records. */
  function AfterRecords(rs: seq<SRec>, offset: nat, l: Loader): Loader {
    if rs == [] then l
    else
      var r := rs[|rs| - 1];
      TakeRecord(AfterRecords(rs[..|rs| - 1], offset, l), Decoded(Rec(r.kind), |r.data|, Number(r.addr), r.data), offset)
  }

  lemma LoadOne(r: SRec, rest: string, offset: nat, l: Loader)
    requires Good(r)
    ensures Load(RecordLine(r) + r.eol + rest, offset, l)
            == Load(rest, offset, TakeRecord(l, Decoded(Rec(r.kind), |r.data|, Number(r.addr), r.data), offset))
  {
    var d := Decoded(Rec(r.kind), |r.data|, Number(r.addr), r.data);
    GoodDecodes(r.kind, r.addr, r.data);
    GoodLineFits(r);
    hide SrecDecode, ReadRecord, TakeRecord, RecordLine, Number, HasWidth, LineEnd;
    var line := RecordLine(r);
    LineRead(line, r.eol, rest);
    OneRecord(line + r.eol + rest, line, r.eol[1..] + rest, d, offset, l);
    EmptyLine(r.eol, rest, offset, TakeRecord(l, d, offset));
  }

  lemma OneRecord(input: string, text: string, rest: string, d: Decoded, offset: nat, l: Loader)
    requires ReadRecord(input, SREC_MAXRECLEN) == Record(text, rest) && SrecDecode(text) == d && d.status.Rec? && d.count >= 0
    requires d.status.kind == '0' || d.status.kind == '1' || d.status.kind == '2' || d.status.kind == '3' || d.status.kind == '5'
    ensures Load(input, offset, l) == Load(rest, offset, TakeRecord(l, d, offset))
  {
    hide SrecDecode, ReadRecord, TakeRecord;
  }

  lemma {:induction false} LoadRecords(rs: seq<SRec>, rest: string, offset: nat, l: Loader)
    requires forall r :: r in rs ==> Good(r)
    ensures Load(FileText(rs) + rest, offset, l) == Load(rest, offset, AfterRecords(rs, offset, l))
    decreases |rs|
  {
    if rs == [] {
      assert FileText(rs) + rest == rest;
    } else {
      var init, r := rs[..|rs| - 1], rs[|rs| - 1];
      assert forall q :: q in init ==> q in rs;
      assert r in rs;
      var tail := RecordLine(r) + r.eol;
      assert FileText(rs) == FileText(init) + tail;
      hide Load, RecordLine, TakeRecord, Good, FileText;
      Assoc(FileText(init), tail, rest);
      LoadRecords(init, tail + rest, offset, l);
      LoadOne(r, rest, offset, AfterRecords(init, offset, l));
    }
  }

  lemma LoadsEnd(r: SRec, rest: string, offset: nat, l: Loader)
    requires GoodEnd(r)
    ensures Load(RecordLine(r) + r.eol + rest, offset, l) == Loaded(l, Number(r.addr))
  {
    GoodDecodes(r.kind, r.addr, r.data);
    GoodLineFits(r);
    hide SrecDecode, ReadRecord, Number, HasWidth, LineEnd;
    var line := RecordLine(r);
    LineRead(line, r.eol, rest);
    hide RecordLine;
  }

  lemma {:induction false} BytesLoaded(rs: seq<SRec>, offset: nat, l: Loader, x: int)
    ensures AfterRecords(rs, offset, l).mem(x) == Final(rs, offset, l.mem, x)
  {
    if rs != [] {
      var init, r := rs[..|rs| - 1], rs[|rs| - 1];
      BytesLoaded(init, offset, l, x);
      TakenByte(AfterRecords(init, offset, l), r.kind, Number(r.addr), r.data, offset, x);
    }
  }

  lemma TakenByte(l: Loader, kind: char, addr: nat, data: seq<Byte>, offset: nat, x: int)
    ensures var t := (x - addr - offset) % U32;
            TakeRecord(l, Decoded(Rec(kind), |data|, addr, data), offset).mem(x) ==
            if (kind == '1' || kind == '2' || kind == '3') && t < |data| then data[t] else l.mem(x)
  {
    assert (x - (addr + offset) % U32) % U32 == (x - addr - offset) % U32;
  }

  /**
    Loading any file of good records that ends in an end record of any type: every
    byte lies at its own address plus the offset, a later record wins over an
    earlier one, all other bytes are unchanged, and the entry is the address of the
    end record. What follows the end record is not read.
   */
  lemma FileLoads(rs: seq<SRec>, end: SRec, rest: string, offset: nat, mem: Memory, x: int)
    requires (forall r :: r in rs ==> Good(r)) && GoodEnd(end)
    ensures var r := Load(FileText(rs) + (RecordLine(end) + end.eol + rest), offset, Fresh(mem));
            r.Loaded? && r.entry == Number(end.addr) && r.l.mem(x) == Final(rs, offset, mem, x)
  {
    hide Load, FileText, RecordLine, AfterRecords, Final, Good, HasWidth, LineEnd;
    LoadRecords(rs, RecordLine(end) + end.eol + rest, offset, Fresh(mem));
    LoadsEnd(end, rest, offset, AfterRecords(rs, offset, Fresh(mem)));
    BytesLoaded(rs, offset, Fresh(mem), x);
  }

  // ---- lines that are not good records ----

  /** Hexadecimal digits are read in either case. */
  lemma HexDigitExact(c: char, v: nat)
    ensures Hex1Bin(c) == v <==>
            || (v < 10 && c as nat == '0' as nat + v)
            || (10 <= v < 16 && (c as nat == 'A' as nat + (v - 10) || c as nat == 'a' as nat + (v - 10)))
  {
  }

  /** A type other than 0, 1, 2, 3, 5, 7, 8 and 9 is refused, after its length was read. */
  lemma UnknownType(s: string)
    requires |s| > 1 && s[0] == 'S' && s[1] !in "01235789"
    ensures SrecDecode(s) == Failed(if Hex2Bin(s, 2) < 0 then NoSrec else BadType)
  {
    assert SkipToS(s, 0) == 1;
    hide Hex2Bin;
  }

  lemma {:induction false} HexBytesSplit(s: string, i: nat, a: nat, b: nat)
    ensures HexBytes(s, i, a + b).None? <==> HexBytes(s, i, a).None? || HexBytes(s, i + 2 * a, b).None?
    decreases a
  {
    hide Hex2Bin;
    if a > 0 {
      HexBytesSplit(s, i + 2, a - 1, b);
      assert i + 2 + 2 * (a - 1) == i + 2 * a;
    }
  }

  /** A record of a known type is malformed exactly when its length, or one of the bytes that type and length ask for, is
      not written in two hexadecimal digits. */
  lemma MalformedExact(s: string, w: nat)
    requires |s| > 1 && s[0] == 'S' && HasWidth(s[1], w)
    ensures var length := Hex2Bin(s, 2);
            var n := if s[1] == '5' || length < w + 1 then 0 else length - w - 1;
            SrecDecode(s).status == NoSrec <==> length < 0 || HexBytes(s, 4, w + n + 1).None?
  {
    WidthExact(s[1], w);
    AtS(s);
    hide SkipToS, Hex2Bin, HasWidth, HexBytes, DecodeFields, AddressBytes;
    var length := Hex2Bin(s, 2);
    if length >= 0 {
      var n := if s[1] == '5' || length < w + 1 then 0 else length - w - 1;
      FieldsMalformed(s, s[1], length, w, n);
    }
  }

  lemma AtS(s: string)
    requires s != "" && s[0] == 'S'
    ensures SkipToS(s, 0) == 1
  {
  }

  lemma FieldsMalformed(s: string, kind: char, length: Byte, w: nat, n: nat)
    requires AddressBytes(kind) == w && n == if kind == '5' || length < w + 1 then 0 else length - w - 1
    ensures DecodeFields(s, 4, kind, length).status == NoSrec <==> HexBytes(s, 4, w + n + 1).None?
  {
    hide HexBytes, Hex2Bin, AddressBytes, Sum, Number;
    HexBytesSplit(s, 4, w, n + 1);
    HexBytesSplit(s, 4 + 2 * w, n, 1);
    OneByte(s, 4 + 2 * w + 2 * n);
    assert w + n + 1 == w + (n + 1) && 4 + 2 * (w + n) == 4 + 2 * w + 2 * n;
  }

  lemma OneByte(s: string, i: nat)
    ensures HexBytes(s, i, 1).None? <==> Hex2Bin(s, i) < 0
  {
    hide Hex2Bin;
    assert HexBytes(s, i + 2, 0) == Some([]);
  }

  /** Whatever stands before the first 'S' of a line is skipped. */
  lemma SkipsToS(g: string, s: string)
    requires 'S' !in g && s != "" && s[0] == 'S'
    ensures SrecDecode(g + s) == SrecDecode(s)
  {
    var all := g + s;
    SkipTo(all, 0, |g|);
    assert SkipToS(s, 0) == 1;
    if |s| > 1 {
      assert all[|g| + 1] == s[1];
      ShiftByte(g, s, 2);
      hide Hex2Bin, AddressBytes, SkipToS;
      if Hex2Bin(s, 2) >= 0 {
        ShiftFields(g, s, s[1], Hex2Bin(s, 2));
      }
      hide DecodeFields;
    }
  }

  lemma {:induction false} SkipTo(s: string, i: nat, k: nat)
    requires i <= k < |s| && 'S' !in s[i..k] && s[k] == 'S'
    ensures SkipToS(s, i) == k + 1
    decreases k - i
  {
    if i < k {
      assert s[i] == s[i..k][0] && s[i] in s[i..k];
      assert s[i + 1..k] == s[i..k][1..];
      SkipTo(s, i + 1, k);
    }
  }

  lemma ShiftByte(g: string, s: string, i: nat)
    ensures Hex2Bin(g + s, |g| + i) == Hex2Bin(s, i)
  {
    assert At(g + s, |g| + i) == At(s, i) && At(g + s, |g| + i + 1) == At(s, i + 1);
  }

  lemma {:induction false} ShiftBytes(g: string, s: string, i: nat, n: nat)
    ensures HexBytes(g + s, |g| + i, n) == HexBytes(s, i, n)
    decreases n
  {
    hide Hex2Bin;
    if n > 0 {
      ShiftByte(g, s, i);
      ShiftBytes(g, s, i + 2, n - 1);
      assert |g| + i + 2 == |g| + (i + 2);
    }
  }

  lemma ShiftFields(g: string, s: string, kind: char, length: Byte)
    ensures DecodeFields(g + s, |g| + 4, kind, length) == DecodeFields(s, 4, kind, length)
  {
    var a, count := AddressBytes(kind), DataBytes(kind, length);
    var n := if count < 0 then 0 else count;
    hide HexBytes, Hex2Bin, AddressBytes, DataBytes, Sum, Number;
    ShiftBytes(g, s, 4, a);
    ShiftBytes(g, s, 4 + 2 * a, n);
    ShiftByte(g, s, 4 + 2 * (a + n));
  }

  /** A line that is not a record, has a wrong checksum or is malformed ends the load at once, as do a NUL and a control-C;
      what was loaded before stays. */
  lemma BadLineAborts(line: string, c: char, rest: string, offset: nat, l: Loader)
    requires Plain(line) && |line| < 516
    requires || ((c == '\r' || c == '\n') && !SrecDecode(line).status.Rec? && SrecDecode(line).status != Empty)
             || c as int == 0 || c as int == 3
    ensures Load(line + [c] + rest, offset, l) == Aborted(l)
  {
    ReadEnds(line, c, rest, SREC_MAXRECLEN);
    hide ReadRecord, SrecDecode;
  }

  /** A data record whose length byte does not cover its own address and checksum has no defined outcome. */
  lemma ShortRecordUndefined(line: string, eol: string, rest: string, offset: nat, l: Loader)
    requires Plain(line) && |line| < 516 && LineEnd(eol)
    requires var d := SrecDecode(line); d.count < 0 && (d.status == Rec('1') || d.status == Rec('2') || d.status == Rec('3'))
    ensures Load(line + eol + rest, offset, l) == Undefined
  {
    LineRead(line, eol, rest);
    hide ReadRecord, SrecDecode;
  }
}
