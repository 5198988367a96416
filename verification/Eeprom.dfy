/**
  Paged EEPROM access (`cmd_eeprom.c`): the device, whose address counter wraps
  inside a page, and the loops that cut a transfer into transactions.
 */
module Eeprom {
  import opened Common

  type Byte = bv8

  /** `I2C_RXTX_LEN`. */
  const MAX_TRANSFER := 128

  function Page(bits: nat): (p: nat)
    ensures p > 0
  {
    if bits == 0 then 1 else 2 * Page(bits - 1)
  }

  // ---- the device ----

  /** The address counter after one byte. */
  function Next(addr: nat, page: nat): nat
    requires page > 0
  {
    if (addr + 1) % page == 0 && addr + 1 >= page then addr + 1 - page else addr + 1
  }

  /** The device's array after it took `data` with its counter at `addr`. */
  function PageWrite(mem: seq<Byte>, addr: nat, data: seq<Byte>, page: nat): (r: seq<Byte>)
    requires page > 0
    ensures |r| == |mem|
    decreases |data|
  {
    if data == [] then mem
    else PageWrite(if addr < |mem| then mem[addr := data[0]] else mem, Next(addr, page), data[1..], page)
  }

  /** What the device sends with its counter at `addr`; nothing answers above the array. */
  function BlockRead(mem: seq<Byte>, addr: nat, n: nat, page: nat): (r: seq<Byte>)
    requires page > 0
    ensures |r| == n
    decreases n
  {
    if n == 0 then []
    else [if addr < |mem| then mem[addr] else 0xFF] + BlockRead(mem, Next(addr, page), n - 1, page)
  }

  /** The array with `data` at `at`, and nothing else changed. */
  function Splice(mem: seq<Byte>, at: nat, data: seq<Byte>): (r: seq<Byte>)
    requires at + |data| <= |mem|
    ensures |r| == |mem|
  {
    mem[..at] + data + mem[at + |data|..]
  }

  lemma NextInPage(addr: nat, page: nat, n: nat)
    requires page > 0 && n > 1 && addr % page + n <= page
    ensures Next(addr, page) == addr + 1 && (addr + 1) % page == addr % page + 1
  {
    var q, r := addr / page, addr % page;
    assert addr + 1 == q * page + (r + 1);
    ModIs(q, r + 1, page);
  }

  lemma AtLeast(k: int, page: nat)
    requires k >= 1
    ensures k * page >= page
  {
  }

  /** Quotient and remainder are unique. */
  lemma ModIs(q: nat, r: nat, page: nat)
    requires r < page
    ensures (q * page + r) % page == r
  {
    var x := q * page + r;
    var q', r' := x / page, x % page;
    assert x == q' * page + r';
    assert (q - q') * page == r' - r;
    if q' > q {
      AtLeast(q' - q, page);
    } else if q > q' {
      AtLeast(q - q', page);
    }
  }

  lemma AddPages(x: nat, k: nat, page: nat)
    requires page > 0
    ensures (x + k * page) % page == x % page
  {
    var q, r := x / page, x % page;
    assert x + k * page == (q + k) * page + r;
    ModIs(q + k, r, page);
  }

  /** Inside a page, the device is a flat array. */
  lemma {:induction false} WriteInPage(mem: seq<Byte>, addr: nat, data: seq<Byte>, page: nat)
    requires page > 0 && addr % page + |data| <= page && addr + |data| <= |mem|
    ensures PageWrite(mem, addr, data, page) == Splice(mem, addr, data)
    decreases |data|
  {
    if |data| == 1 {
      assert data[1..] == [];
      assert PageWrite(mem[addr := data[0]], Next(addr, page), [], page) == mem[addr := data[0]];
    } else if data != [] {
      NextInPage(addr, page, |data|);
      WriteInPage(mem[addr := data[0]], addr + 1, data[1..], page);
      SpliceStep(mem, addr, data);
    }
  }

  lemma SpliceStep(mem: seq<Byte>, addr: nat, data: seq<Byte>)
    requires data != [] && addr + |data| <= |mem|
    ensures Splice(mem[addr := data[0]], addr + 1, data[1..]) == Splice(mem, addr, data)
  {
  }

  lemma {:induction false} ReadInPage(mem: seq<Byte>, addr: nat, n: nat, page: nat)
    requires page > 0 && addr % page + n <= page && addr + n <= |mem|
    ensures BlockRead(mem, addr, n, page) == mem[addr..addr + n]
    decreases n
  {
    if n == 1 {
      assert BlockRead(mem, Next(addr, page), 0, page) == [];
    } else if n > 0 {
      NextInPage(addr, page, n);
      ReadInPage(mem, addr + 1, n - 1, page);
    }
  }

  // ---- cutting a transfer ----

  /** The length of the next transaction of a transfer with `left` bytes to go. */
  function ChunkLen(offset: nat, left: nat, page: nat): nat
    requires page > 0
  {
    var room := page - (offset % 256) % page;
    var limit := if room > MAX_TRANSFER then MAX_TRANSFER else room;
    if left > limit then limit else left
  }

  datatype Chunk = Chunk(at: nat, len: nat)

  function Chunks(offset: nat, left: nat, page: nat): seq<Chunk>
    requires page > 0
    decreases left
  {
    if left == 0 then []
    else
      var len := ChunkLen(offset, left, page);
      [Chunk(offset, len)] + Chunks(offset + len, left - len, page)
  }

  function Total(chunks: seq<Chunk>): nat {
    if chunks == [] then 0 else chunks[0].len + Total(chunks[1..])
  }

  /** A transaction that stays inside the page it starts in. */
  predicate InPage(c: Chunk, page: nat)
    requires page > 0
  {
    c.at % page + c.len <= page
  }

  lemma SmallPage(bits: nat)
    requires bits <= 8
    ensures 256 % Page(bits) == 0 && Page(bits) <= 256
  {
    assert Page(0) == 1 && Page(1) == 2 && Page(2) == 4 && Page(3) == 8;
    assert Page(4) == 16 && Page(5) == 32 && Page(6) == 64 && Page(7) == 128 && Page(8) == 256;
  }

  lemma {:induction false} BigPage(bits: nat)
    requires bits > 8
    ensures Page(bits) % 256 == 0 && Page(bits) >= 512
  {
    SmallPage(8);
    if bits > 9 {
      BigPage(bits - 1);
    } else {
      assert Page(8) == 256;
    }
  }

  lemma ModOfMod(x: nat, k: nat, page: nat)
    requires page > 0 && k > 0
    ensures k * page > 0 && (x % (k * page)) % page == x % page
  {
    AtLeast(k, page);
    var m := k * page;
    var q, y := x / m, x % m;
    assert x == y + (q * k) * page by {
      assert q * (k * page) == (q * k) * page;
    }
    AddPages(y, q * k, page);
  }

  /** With pages of at most 256 bytes the block offset gives the offset in the page. */
  lemma PageOffset(offset: nat, bits: nat)
    requires bits <= 8
    ensures (offset % 256) % Page(bits) == offset % Page(bits)
  {
    SmallPage(bits);
    var page := Page(bits);
    var k := 256 / page;
    assert 256 == k * page;
    ModOfMod(offset, k, page);
  }

  /** The first byte of a page is reached again one page later. */
  lemma ChunkFits(offset: nat, left: nat, bits: nat)
    requires bits <= 8
    ensures offset % Page(bits) + ChunkLen(offset, left, Page(bits)) <= Page(bits)
  {
    PageOffset(offset, bits);
  }

  /** No transaction leaves its page, for any offset and length, exactly when a page has at most 256 bytes. */
  lemma StaysInPageExact(bits: nat)
    ensures (forall offset: nat, left: nat :: InPage(Chunk(offset, ChunkLen(offset, left, Page(bits))), Page(bits)))
            <==> bits <= 8
  {
    var page := Page(bits);
    if bits <= 8 {
      forall offset: nat, left: nat
        ensures InPage(Chunk(offset, ChunkLen(offset, left, page)), page)
      {
        ChunkFits(offset, left, bits);
      }
    } else {
      BigPage(bits);
      LastByte(page);
      assert !InPage(Chunk(page - 1, ChunkLen(page - 1, 2, page)), page);
    }
  }

  lemma LastByte(page: nat)
    requires page >= 512 && page % 256 == 0
    ensures ChunkLen(page - 1, 2, page) == 2 && (page - 1) % page == page - 1
  {
    assert (page - 1) % 256 == 255;
  }

  /** With larger pages, a two-byte write at the end of a page puts its second byte at the start of that page. */
  lemma LargePageWraps(mem: seq<Byte>, bits: nat, x: Byte, y: Byte)
    requires bits > 8 && |mem| > Page(bits)
    ensures Chunks(Page(bits) - 1, 2, Page(bits)) == [Chunk(Page(bits) - 1, 2)]
    ensures PageWrite(mem, Page(bits) - 1, [x, y], Page(bits)) == mem[Page(bits) - 1 := x][0 := y]
  {
    var page := Page(bits);
    BigPage(bits);
    LastByte(page);
    assert Chunks(page + 1, 0, page) == [];
    assert Next(page - 1, page) == 0;
    assert [x, y][1..] == [y] && [y][1..] == [];
    assert PageWrite(mem[page - 1 := x], 0, [y], page) == PageWrite(mem[page - 1 := x][0 := y], Next(0, page), [], page);
  }

  /** The transactions tile the range in order, and none is empty or longer than the bus allows. */
  lemma {:induction false} ChunksTile(offset: nat, left: nat, page: nat, i: nat)
    requires page > 0
    ensures var cs := Chunks(offset, left, page);
            && Total(cs) == left
            && (i < |cs| ==> 1 <= cs[i].len <= MAX_TRANSFER && cs[i].at == offset + Total(cs[..i]))
    decreases left
  {
    if left > 0 {
      var len := ChunkLen(offset, left, page);
      var head, rest := Chunk(offset, len), Chunks(offset + len, left - len, page);
      var cs := Chunks(offset, left, page);
      ChunksTile(offset + len, left - len, page, if i == 0 then 0 else i - 1);
      assert cs == [head] + rest && cs[1..] == rest;
      if 0 < i < |cs| {
        assert cs[..i][1..] == rest[..i - 1];
      }
    }
  }

  /** No transaction is shorter than it has to be: it ends the range, has the longest length the bus allows, or ends at
      the end of its page. */
  lemma {:induction false} ChunksLongest(offset: nat, left: nat, bits: nat, i: nat)
    requires bits <= 8 && i < |Chunks(offset, left, Page(bits))|
    ensures var c := Chunks(offset, left, Page(bits))[i];
            c.at + c.len == offset + left || c.len == 128 || (c.at + c.len) % Page(bits) == 0
    decreases left
  {
    var page := Page(bits);
    var len := ChunkLen(offset, left, page);
    LenBound(offset, left, page);
    if i > 0 {
      ChunksLongest(offset + len, left - len, bits, i - 1);
    } else {
      FirstLongest(offset, left, bits);
    }
  }

  lemma FirstLongest(offset: nat, left: nat, bits: nat)
    requires bits <= 8
    ensures var len := ChunkLen(offset, left, Page(bits));
            len == left || len == 128 || (offset + len) % Page(bits) == 0
  {
    hide Page;
    PageOffset(offset, bits);
    ToPageEnd(offset, Page(bits));
    LongestIs(offset, left, Page(bits), offset % Page(bits));
  }

  lemma LongestIs(offset: nat, left: nat, page: nat, r: nat)
    requires page > 0 && r == (offset % 256) % page
    ensures var len := ChunkLen(offset, left, page); len == left || len == 128 || len == page - r
  {
  }

  lemma ToPageEnd(offset: nat, page: nat)
    requires page > 0
    ensures (offset + (page - offset % page)) % page == 0
  {
    var q, r := offset / page, offset % page;
    assert offset == q * page + r;
    assert (q + 1) * page == q * page + page;
    ModIs(q + 1, 0, page);
  }

  lemma SpliceTwice(mem: seq<Byte>, at: nat, a: seq<Byte>, b: seq<Byte>)
    requires at + |a| + |b| <= |mem|
    ensures Splice(Splice(mem, at, a), at + |a|, b) == Splice(mem, at, a + b)
  {
  }

  // ---- a whole transfer ----

  /** The device's array after a transfer, transaction by transaction. */
  function WriteChunks(mem: seq<Byte>, offset: nat, data: seq<Byte>, page: nat): (r: seq<Byte>)
    requires page > 0
    ensures |r| == |mem|
    decreases |data|
  {
    if data == [] then mem
    else
      var len := ChunkLen(offset, |data|, page);
      WriteChunks(PageWrite(mem, offset, data[..len], page), offset + len, data[len..], page)
  }

  /** The splitter suits the device: pages of at most 256 bytes, or a device of one page. */
  predicate Suits(bits: nat, n: nat) {
    bits <= 8 || n <= Page(bits)
  }

  lemma ChunkInPage(offset: nat, left: nat, bits: nat, n: nat)
    requires Suits(bits, n) && left > 0 && offset + left <= n
    ensures offset % Page(bits) + ChunkLen(offset, left, Page(bits)) <= Page(bits)
  {
    if bits <= 8 {
      ChunkFits(offset, left, bits);
    } else {
      ModIs(0, offset, Page(bits));
    }
  }

  /** On such a device a transfer is a write to a flat array. */
  lemma {:induction false} TransferIsFlat(mem: seq<Byte>, offset: nat, data: seq<Byte>, bits: nat)
    requires Suits(bits, |mem|) && offset + |data| <= |mem|
    ensures WriteChunks(mem, offset, data, Page(bits)) == Splice(mem, offset, data)
    decreases |data|
  {
    if data == [] {
      SpliceNone(mem, offset);
    } else {
      hide *;
      var len := ChunkLen(offset, |data|, Page(bits));
      LenBound(offset, |data|, Page(bits));
      assert data == data[..len] + data[len..];
      FirstChunkFlat(mem, offset, data[..len], |data|, bits);
      TransferIsFlat(Splice(mem, offset, data[..len]), offset + len, data[len..], bits);
      FlatStep(mem, offset, data, data[..len], data[len..], Page(bits));
    }
  }

  lemma FlatStep(mem: seq<Byte>, offset: nat, data: seq<Byte>, part: seq<Byte>, rest: seq<Byte>, page: nat)
    requires page > 0 && data == part + rest && data != [] && |part| == ChunkLen(offset, |data|, page)
    requires offset + |data| <= |mem| && PageWrite(mem, offset, part, page) == Splice(mem, offset, part)
    requires WriteChunks(Splice(mem, offset, part), offset + |part|, rest, page) == Splice(Splice(mem, offset, part), offset + |part|, rest)
    ensures WriteChunks(mem, offset, data, page) == Splice(mem, offset, data)
  {
    hide *;
    TransferStep(mem, offset, data, page, part, rest);
    SpliceTwice(mem, offset, part, rest);
  }

  lemma FirstChunkFlat(mem: seq<Byte>, offset: nat, part: seq<Byte>, left: nat, bits: nat)
    requires Suits(bits, |mem|) && 0 < left && offset + left <= |mem| && |part| == ChunkLen(offset, left, Page(bits))
    ensures offset + |part| <= |mem| && PageWrite(mem, offset, part, Page(bits)) == Splice(mem, offset, part)
  {
    hide PageWrite, Splice;
    LenBound(offset, left, Page(bits));
    ChunkInPage(offset, left, bits, |mem|);
    WriteInPage(mem, offset, part, Page(bits));
  }

  /** Every transfer to a device of `n` bytes is a flat write exactly when the splitter suits the device. */
  lemma FlatExact(bits: nat, n: nat)
    ensures (forall mem: seq<Byte>, offset: nat, data: seq<Byte> :: |mem| == n && offset + |data| <= n ==>
               WriteChunks(mem, offset, data, Page(bits)) == Splice(mem, offset, data))
            <==> Suits(bits, n)
  {
    if Suits(bits, n) {
      forall mem: seq<Byte>, offset: nat, data: seq<Byte> | |mem| == n && offset + |data| <= n
        ensures WriteChunks(mem, offset, data, Page(bits)) == Splice(mem, offset, data)
      {
        TransferIsFlat(mem, offset, data, bits);
      }
    } else {
      var mem: seq<Byte> := seq(n, _ => 0);
      WrappedTransfer(mem, bits);
    }
  }

  lemma WrappedTransfer(mem: seq<Byte>, bits: nat)
    requires bits > 8 && |mem| > Page(bits) && mem[0] == 0
    ensures WriteChunks(mem, Page(bits) - 1, [1, 1], Page(bits)) != Splice(mem, Page(bits) - 1, [1, 1])
  {
    var page := Page(bits);
    BigPage(bits);
    LastByte(page);
    LargePageWraps(mem, bits, 1, 1);
    assert [1 as Byte, 1][..2] == [1, 1] && [1 as Byte, 1][2..] == [];
    var r := mem[page - 1 := 1][0 := 1];
    assert WriteChunks(r, page + 1, [], page) == r;
    assert r[0] == 1 && Splice(mem, page - 1, [1, 1])[0] == 0;
  }

  /** A device on the bus, with pages of `Page(bits)` bytes for writing and 256 for reading. */
  class Device {
    const bits: nat
    /** Which transactions the bus refuses. */
    const refused: nat -> bool
    var mem: seq<Byte>
    /** Transactions so far. */
    var count: nat
    ghost var log: seq<Chunk>

    constructor (bits: nat, mem: seq<Byte>, refused: nat -> bool)
      ensures this.bits == bits && this.mem == mem && this.refused == refused && count == 0 && log == []
    {
      this.bits, this.mem, this.refused, this.count, this.log := bits, mem, refused, 0, [];
    }

    /** One write transaction, `i2c_write`: a refused one has no effect. */
    method I2cWrite(offset: nat, data: seq<Byte>) returns (ok: bool)
      modifies this
      ensures ok == !refused(old(count))
      ensures mem == if ok then PageWrite(old(mem), offset, data, Page(bits)) else old(mem)
      ensures count == old(count) + 1 && log == old(log) + [Chunk(offset, |data|)]
    {
      ok := !refused(count);
      if ok {
        mem := PageWrite(mem, offset, data, Page(bits));
      }
      count, log := count + 1, log + [Chunk(offset, |data|)];
    }

    /** One read transaction, `i2c_read`: a refused one leaves the buffer as it was. */
    method I2cRead(offset: nat, buffer: seq<Byte>) returns (ok: bool, data: seq<Byte>)
      modifies this
      ensures mem == old(mem)
      ensures ok == !refused(old(count))
      ensures data == if ok then BlockRead(mem, offset, |buffer|, 256) else buffer
      ensures count == old(count) + 1 && log == old(log) + [Chunk(offset, |buffer|)]
    {
      ok := !refused(count);
      data := if ok then BlockRead(mem, offset, |buffer|, 256) else buffer;
      count, log := count + 1, log + [Chunk(offset, |buffer|)];
    }

    /** Nothing between two points in time was refused. */
    ghost predicate Accepted(from: nat, to: nat) {
      forall i :: from <= i < to ==> !refused(i)
    }

    /** The loop of `eeprom_write` up to `end`, where the buffer ends. */
    method WriteRange(offset: nat, buffer: seq<Byte>, end: nat) returns (rcode: int)
      requires end == offset + |buffer| <= |mem|
      modifies this
      ensures old(count) <= count && (rcode == 0 <==> Accepted(old(count), count))
      ensures log == old(log) + Chunks(offset, |buffer|, Page(bits))
      ensures |mem| == old(|mem|)
      ensures rcode == 0 ==> mem == WriteChunks(old(mem), offset, buffer, Page(bits))
      ensures Suits(bits, |mem|) ==> mem[..offset] == old(mem[..offset]) && mem[end..] == old(mem[end..])
    {
      hide Splice, PageWrite, ChunkLen, Page, Suits, Chunks, WriteChunks;
      var page := Page(bits);
      var off, done := offset, 0;
      rcode := 0;
      ghost var was := mem;
      assert buffer[0..] == buffer;
      while off < end
        invariant done <= |buffer| && off == offset + done
        invariant |mem| == |was| && old(count) <= count
        invariant rcode == 0 <==> Accepted(old(count), count)
        invariant log + Chunks(off, |buffer| - done, page) == old(log) + Chunks(offset, |buffer|, page)
        invariant rcode == 0 ==> WriteChunks(mem, off, buffer[done..], page) == WriteChunks(was, offset, buffer, page)
        invariant Suits(bits, |was|) ==> mem[..offset] == was[..offset] && mem[end..] == was[end..]
        decreases end - off
      {
        var len := ChunkLen(off, end - off, page);
        LenBound(off, end - off, page);
        var part := buffer[done..done + len];
        TransferStep(mem, off, buffer[done..], page, part, buffer[done + len..]);
        if Suits(bits, |mem|) {
          ChunkFrame(mem, off, part, offset, end, bits);
        }
        LogStep(log, off, |buffer| - done, page);
        var ok := I2cWrite(off, part);
        if !ok {
          rcode := 1;
        }
        done, off := done + len, off + len;
      }
      TransferEnds(mem, off, buffer[done..], page);
      NoChunks(off, page);
      assert log + [] == log;
    }

    /**
      `eeprom_write`: without a refused transaction the device's array is what the
      transactions make of it; on a device that suits the splitter this is the
      array with the buffer at the range, and other bytes never change. The result
      is 0 exactly when nothing was refused. A range that reaches the top of the
      32-bit offsets is skipped, also with result 0.
     */
    method EepromWrite(offset: nat, buffer: seq<Byte>) returns (rcode: int)
      requires offset < U32 && |buffer| < U32
      requires offset + |buffer| < U32 ==> offset + |buffer| <= |mem|
      modifies this
      ensures old(count) <= count && (rcode == 0 <==> Accepted(old(count), count))
      ensures offset + |buffer| >= U32 ==> mem == old(mem) && count == old(count) && log == old(log)
      ensures offset + |buffer| < U32 ==>
                && log == old(log) + Chunks(offset, |buffer|, Page(bits))
                && |mem| == old(|mem|)
                && (rcode == 0 ==> mem == WriteChunks(old(mem), offset, buffer, Page(bits)))
      ensures offset + |buffer| < U32 && Suits(bits, |mem|) ==>
                && (rcode == 0 ==> mem == Splice(old(mem), offset, buffer))
                && mem[..offset] == old(mem[..offset])
                && mem[offset + |buffer|..] == old(mem[offset + |buffer|..])
    {
      hide Splice, Suits, WriteChunks, Chunks, Page;
      var end := (offset + |buffer|) % U32;
      if offset < end {
        if Suits(bits, |mem|) {
          TransferIsFlat(mem, offset, buffer, bits);
        }
        rcode := WriteRange(offset, buffer, end);
      } else {
        if offset + |buffer| < U32 {
          SpliceNone(mem, offset);
          assert buffer == [];
          TransferEnds(mem, offset, buffer, Page(bits));
          NoChunks(offset, Page(bits));
        }
        rcode := 0;
      }
    }

    /** Writing a range and reading it again: the written bytes come back, and no other byte changed. */
    method WriteThenRead(offset: nat, buffer: seq<Byte>, scratch: seq<Byte>) returns (written: int, read: int, data: seq<Byte>)
      requires Suits(bits, |mem|) && |scratch| == |buffer| && offset + |buffer| < U32 && offset + |buffer| <= |mem|
      modifies this
      ensures written == 0 && read == 0 <==> Accepted(old(count), count)
      ensures written == 0 && read == 0 ==> data == buffer && mem == Splice(old(mem), offset, buffer)
      ensures |mem| == old(|mem|)
      ensures mem[..offset] == old(mem[..offset]) && mem[offset + |buffer|..] == old(mem[offset + |buffer|..])
    {
      hide Splice, Suits, WriteChunks, Chunks;
      SpliceReadsBack(mem, offset, buffer);
      written := EepromWrite(offset, buffer);
      read, data := EepromRead(offset, scratch);
    }

    /** The loop of `eeprom_read` up to `end`. */
    method ReadRange(offset: nat, buffer: seq<Byte>, end: nat) returns (rcode: int, data: seq<Byte>)
      requires end == offset + |buffer| <= |mem|
      modifies this
      ensures mem == old(mem)
      ensures old(count) <= count && (rcode == 0 <==> Accepted(old(count), count))
      ensures log == old(log) + Chunks(offset, |buffer|, 256)
      ensures |data| == |buffer|
      ensures rcode == 0 ==> data == mem[offset..end]
    {
      hide BlockRead, ChunkLen, Chunks;
      var off, done := offset, 0;
      rcode, data := 0, [];
      while off < end
        invariant done <= |buffer| && off == offset + done && |data| == done
        invariant mem == old(mem) && old(count) <= count
        invariant rcode == 0 <==> Accepted(old(count), count)
        invariant log + Chunks(off, |buffer| - done, 256) == old(log) + Chunks(offset, |buffer|, 256)
        invariant rcode == 0 ==> data == mem[offset..off]
        decreases end - off
      {
        var len := ChunkLen(off, end - off, 256);
        BlockFits(off, end - off);
        LenBound(off, end - off, 256);
        ReadInPage(mem, off, len, 256);
        assert mem[offset..off] + mem[off..off + len] == mem[offset..off + len];
        LogStep(log, off, |buffer| - done, 256);
        var ok, part := I2cRead(off, buffer[done..done + len]);
        if !ok {
          rcode := 1;
        }
        data := data + part;
        done, off := done + len, off + len;
      }
      NoChunks(off, 256);
      assert log + [] == log;
    }

    /** `eeprom_read`: the bytes of the range when the bus refuses nothing; the device is not changed. */
    method EepromRead(offset: nat, buffer: seq<Byte>) returns (rcode: int, data: seq<Byte>)
      requires offset < U32 && |buffer| < U32
      requires offset + |buffer| < U32 ==> offset + |buffer| <= |mem|
      modifies this
      ensures mem == old(mem)
      ensures old(count) <= count && (rcode == 0 <==> Accepted(old(count), count))
      ensures offset + |buffer| >= U32 ==> data == buffer && count == old(count) && log == old(log)
      ensures offset + |buffer| < U32 ==>
                && log == old(log) + Chunks(offset, |buffer|, 256)
                && |data| == |buffer|
                && (rcode == 0 ==> data == mem[offset..offset + |buffer|])
    {
      hide Chunks, BlockRead;
      var end := (offset + |buffer|) % U32;
      if offset < end {
        rcode, data := ReadRange(offset, buffer, end);
      } else {
        NoChunks(offset, 256);
        rcode, data := 0, buffer;
      }
    }
  }

  /** One transaction of a transfer to `lo..hi` leaves the bytes outside alone. */
  lemma ChunkFrame(mem: seq<Byte>, off: nat, part: seq<Byte>, lo: nat, hi: nat, bits: nat)
    requires Suits(bits, |mem|) && lo <= off < hi <= |mem| && |part| == ChunkLen(off, hi - off, Page(bits))
    ensures PageWrite(mem, off, part, Page(bits))[..lo] == mem[..lo]
    ensures PageWrite(mem, off, part, Page(bits))[hi..] == mem[hi..]
  {
    hide PageWrite, Splice;
    LenBound(off, hi - off, Page(bits));
    ChunkInPage(off, hi - off, bits, |mem|);
    WriteInPage(mem, off, part, Page(bits));
    SpliceFrame(mem, off, part, lo, hi);
  }

  lemma TransferStep(mem: seq<Byte>, off: nat, data: seq<Byte>, page: nat, part: seq<Byte>, rest: seq<Byte>)
    requires page > 0 && data != [] && data == part + rest && |part| == ChunkLen(off, |data|, page)
    ensures WriteChunks(mem, off, data, page) == WriteChunks(PageWrite(mem, off, part, page), off + |part|, rest, page)
  {
    assert data[..|part|] == part && data[|part|..] == rest;
  }

  lemma TransferEnds(mem: seq<Byte>, off: nat, data: seq<Byte>, page: nat)
    requires page > 0 && data == []
    ensures WriteChunks(mem, off, data, page) == mem
  {
  }

  lemma NoChunks(off: nat, page: nat)
    requires page > 0
    ensures Chunks(off, 0, page) == []
  {
  }

  lemma BlockFits(off: nat, left: nat)
    ensures off % 256 + ChunkLen(off, left, 256) <= 256
  {
  }

  lemma LenBound(off: nat, left: nat, page: nat)
    requires page > 0
    ensures ChunkLen(off, left, page) <= left && (left > 0 ==> ChunkLen(off, left, page) > 0)
  {
  }

  lemma LogStep(log: seq<Chunk>, off: nat, left: nat, page: nat)
    requires page > 0 && left > 0
    ensures var len := ChunkLen(off, left, page);
            len <= left && log + Chunks(off, left, page) == (log + [Chunk(off, len)]) + Chunks(off + len, left - len, page)
  {
  }

  lemma SpliceNone(mem: seq<Byte>, at: nat)
    requires at <= |mem|
    ensures Splice(mem, at, []) == mem
  {
  }

  lemma SpliceFrame(mem: seq<Byte>, at: nat, part: seq<Byte>, lo: nat, hi: nat)
    requires lo <= at && at + |part| <= hi <= |mem|
    ensures Splice(mem, at, part)[..lo] == mem[..lo]
    ensures Splice(mem, at, part)[hi..] == mem[hi..]
  {
  }

  /** What a write put into the range is what a read of the same range returns. */
  lemma SpliceReadsBack(mem: seq<Byte>, at: nat, data: seq<Byte>)
    requires at + |data| <= |mem|
    ensures Splice(mem, at, data)[at..at + |data|] == data
  {
  }
}
