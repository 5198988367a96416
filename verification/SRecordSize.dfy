/**
  The size that `load_serial` reports (`cmd_load.c`): the distance between the
  lowest first and the highest last address of the records it has seen.  It is
  worked out for every saved range, also for those that wrap at the top of memory.
 */
module SRecordSize {
  import opened Common
  import opened SRecord
  import opened SRecordTransfer

  // ---- cutting the records in two ----

  lemma {:induction false} ChunksSplit(address: nat, x: seq<Byte>, y: seq<Byte>, last: nat)
    requires address < U32 && |x| % 16 == 0 && last == (address + |x|) % U32
    ensures Chunks(address, x + y) == Chunks(address, x) + Chunks(last, y)
    decreases |x|
  {
    hide Chunks;
    if x == [] {
      assert x + y == y;
      NoChunks(address);
    } else {
      var next := (address + 16) % U32;
      ModAdd(address, 16, |x| - 16);
      ChunksSplit(next, x[16..], y, last);
      assert x == x[..16] + x[16..];
      SplitStep(address, x[..16], x[16..], y, next, last);
    }
  }

  lemma SplitStep(address: nat, head: seq<Byte>, tail: seq<Byte>, y: seq<Byte>, next: nat, last: nat)
    requires address < U32 && |head| == 16 && next == (address + 16) % U32 && last < U32
    requires Chunks(next, tail + y) == Chunks(next, tail) + Chunks(last, y)
    ensures Chunks(address, (head + tail) + y) == Chunks(address, head + tail) + Chunks(last, y)
  {
    hide Chunks;
    ChunksHead(address, head, tail);
    ChunksHead(address, head, tail + y);
    assert (head + tail) + y == head + (tail + y);
  }

  lemma ChunksHead(address: nat, head: seq<Byte>, rest: seq<Byte>)
    requires address < U32 && |head| == 16
    ensures Chunks(address, head + rest) == [Chunk(address, head)] + Chunks((address + 16) % U32, rest)
  {
    var all := head + rest;
    assert all[..16] == head && all[16..] == rest;
    hide Chunks;
    ChunksStep(address, all, 16);
  }

  lemma {:induction false} AfterConcat(a: seq<Chunk>, b: seq<Chunk>, offset: nat, l: Loader)
    ensures After(a + b, offset, l) == After(b, offset, After(a, offset, l))
    decreases |a|
  {
    hide TakeRecord;
    if a == [] {
      assert a + b == b;
    } else {
      var c := a[0];
      assert (a + b)[1..] == a[1..] + b;
      AfterConcat(a[1..], b, offset, TakeRecord(l, Decoded(Rec('3'), |c.data|, c.addr, c.data), offset));
    }
  }

  lemma AfterSplit(address: nat, x: seq<Byte>, y: seq<Byte>, offset: nat, l: Loader)
    requires address < U32 && |x| % 16 == 0
    ensures After(Chunks(address, x + y), offset, l) ==
            After(Chunks((address + |x|) % U32, y), offset, After(Chunks(address, x), offset, l))
  {
    hide Chunks, After;
    ChunksSplit(address, x, y, (address + |x|) % U32);
    AfterConcat(Chunks(address, x), Chunks((address + |x|) % U32, y), offset, l);
  }

  lemma PlaceAfter(address: nat, k: nat, offset: nat)
    ensures ((address + k) % U32 + offset) % U32 == ((address + offset) % U32 + k) % U32
  {
  }

  // ---- the range of addresses seen ----

  /** The range seen so far. */
  datatype Range = Range(start: int, end: int)

  function Seen(l: Loader): Range {
    Range(l.start, l.end)
  }

  /** The range once a record from `a` to `z` was taken. */
  function Extend(r: Range, a: int, z: int): Range {
    Range(if a < r.start then a else r.start, if z > r.end then z else r.end)
  }

  /** Records that do not wrap extend the range by their first and last address; none extends it by nothing. */
  lemma SeenFlat(address: nat, bytes: seq<Byte>, offset: nat, l: Loader, a: nat)
    requires address < U32 && a == (address + offset) % U32 && a + |bytes| <= U32
    ensures Seen(After(Chunks(address, bytes), offset, l)) ==
            if bytes == [] then Seen(l) else Extend(Seen(l), a, a + |bytes| - 1)
  {
    if bytes == [] {
      NoChunks(address);
    } else {
      hide Chunks, After;
      AfterRange(address, bytes, offset, l);
    }
  }

  /** One record across the top ends at a small address. */
  lemma SeenAcross(address: nat, bytes: seq<Byte>, offset: nat, l: Loader, a: nat)
    requires address < U32 && a == (address + offset) % U32 && 0 < |bytes| <= 16 && a + |bytes| > U32
    ensures Seen(After(Chunks(address, bytes), offset, l)) == Extend(Seen(l), a, a + |bytes| - 1 - U32)
  {
    AfterStep(address, bytes, offset, l, |bytes|);
    NoChunks((address + |bytes|) % U32);
    hide Chunks;
    assert bytes[|bytes|..] == [];
    TakenAcross(l, bytes[..|bytes|], address, offset);
  }

  lemma TakenAcross(l: Loader, data: seq<Byte>, address: nat, offset: nat)
    requires 0 < |data| <= 16 && (address + offset) % U32 + |data| > U32
    ensures var a := (address + offset) % U32;
            Seen(TakeRecord(l, Decoded(Rec('3'), |data|, address, data), offset)) ==
            Extend(Seen(l), a, a + |data| - 1 - U32)
  {
  }

  // ---- the size ----

  /** The reported size of `n` bytes loaded from address `s` on. */
  function Reported(s: nat, n: nat): int
    requires s < U32
  {
    if n == 0 then 2
    else if s + n <= U32 || n <= 16 then n
    else if s % 16 == 0 then 0
    else if s > U32 - 16 then n - 16
    else if n <= (U32 - s) / 16 * 16 + 16 then (U32 - s) / 16 * 16
    else U32 - 16
  }

  function SizeOf(r: Range): int {
    (r.end - r.start + 1) % U32
  }

  const NOTHING := Range(U32 - 1, 0)

  /** Records meet the top of memory exactly at a record boundary. */
  lemma SizeAligned(address: nat, bytes: seq<Byte>, offset: nat, l: Loader, s: nat)
    requires address < U32 && s == (address + offset) % U32 && s % 16 == 0 && Seen(l) == NOTHING
    requires s + |bytes| > U32 && |bytes| < U32
    ensures SizeOf(Seen(After(Chunks(address, bytes), offset, l))) == 0
  {
    hide Chunks, After;
    var w := U32 - s;
    var x, y := bytes[..w], bytes[w..];
    var next := (address + w) % U32;
    assert bytes == x + y;
    AfterSplit(address, x, y, offset, l);
    PlaceAfter(address, w, offset);
    SeenFlat(address, x, offset, l, s);
    SeenFlat(next, y, offset, After(Chunks(address, x), offset, l), 0);
  }

  /** One record lies across the top of memory; `k` whole records come before it, `m` bytes of it lie below the top. */
  lemma SizeAcross(address: nat, bytes: seq<Byte>, offset: nat, l: Loader, s: nat, k: nat, m: nat)
    requires address < U32 && s == (address + offset) % U32 && 0 < m < 16 && U32 == s + 16 * k + m
    requires 16 * k + m < |bytes| < U32 && Seen(l) == NOTHING
    ensures Seen(After(Chunks(address, bytes), offset, l)) == RangeAcross(s, |bytes|, k, m)
  {
    hide Chunks, After, Extend;
    var x, z := bytes[..16 * k], bytes[16 * k..];
    assert bytes == x + z;
    AfterSplit(address, x, z, offset, l);
    PlaceAfter(address, 16 * k, offset);
    SeenFlat(address, x, offset, l, s);
    AcrossAndRest((address + 16 * k) % U32, z, offset, After(Chunks(address, x), offset, l), m);
  }

  function RangeAcross(s: nat, n: nat, k: nat, m: nat): Range {
    var t := if n < 16 * k + 16 then n - 16 * k else 16;
    var r1 := if k == 0 then NOTHING else Extend(NOTHING, s, s + 16 * k - 1);
    var r2 := Extend(r1, U32 - m, t - m - 1);
    if n <= 16 * k + 16 then r2 else Extend(r2, 16 - m, n - 16 * k - m - 1)
  }

  /** The record across the top, which has `m` bytes below it, and the records behind it. */
  lemma AcrossAndRest(address: nat, z: seq<Byte>, offset: nat, l: Loader, m: nat)
    requires address < U32 && 0 < m < 16 && (address + offset) % U32 == U32 - m && m < |z| < U32
    ensures var t := if |z| < 16 then |z| else 16;
            var r := Extend(Seen(l), U32 - m, t - m - 1);
            Seen(After(Chunks(address, z), offset, l)) == if |z| <= 16 then r else Extend(r, 16 - m, |z| - m - 1)
  {
    hide Chunks, After, Extend;
    if |z| <= 16 {
      SeenAcross(address, z, offset, l, U32 - m);
    } else {
      var y, rest := z[..16], z[16..];
      assert z == y + rest;
      AfterSplit(address, y, rest, offset, l);
      PlaceAfter(address, 16, offset);
      SeenAcross(address, y, offset, l, U32 - m);
      SeenFlat((address + 16) % U32, rest, offset, After(Chunks(address, y), offset, l), 16 - m);
    }
  }

  lemma SizeIs(address: nat, bytes: seq<Byte>, offset: nat, l: Loader, s: nat)
    requires address < U32 && s == (address + offset) % U32 && |bytes| < U32 && Seen(l) == NOTHING
    ensures SizeOf(Seen(After(Chunks(address, bytes), offset, l))) == Reported(s, |bytes|)
  {
    hide Chunks, After, RangeAcross, Seen, SizeOf;
    if s + |bytes| <= U32 {
      SeenFlat(address, bytes, offset, l, s);
      FlatSize(s, |bytes|);
    } else if s % 16 == 0 {
      SizeAligned(address, bytes, offset, l, s);
    } else {
      var k := (U32 - s) / 16;
      SizeAcross(address, bytes, offset, l, s, k, U32 - s - 16 * k);
      AcrossSize(s, |bytes|, k);
    }
  }

  lemma FlatSize(s: nat, n: nat)
    requires s + n <= U32 && n < U32
    ensures SizeOf(if n == 0 then NOTHING else Extend(NOTHING, s, s + n - 1)) == if n == 0 then 2 else n
  {
  }

  lemma AcrossSize(s: nat, n: nat, k: nat)
    requires s < U32 && s % 16 != 0 && s + n > U32 && n < U32 && k == (U32 - s) / 16
    ensures SizeOf(RangeAcross(s, n, k, U32 - s - 16 * k)) == Reported(s, n)
  {
  }

  /** The `filesize` a load of saved memory reports, for every address, count and offset. */
  lemma ReportedSize(mem: Memory, address: nat, count: nat, offset: nat, target: Memory)
    requires address < U32 && offset < U32 && count < U32
    ensures var r := Load(Saved(mem, address, count), offset, Fresh(target));
            r.Loaded? && FileSize(r.l) == Reported((address + offset) % U32, count)
  {
    hide Load, Saved, Bytes, Chunks, After, Reported;
    SavedLoads(mem, address, count, offset, target);
    SizeIs(address, Bytes(mem, address, count), offset, Fresh(target), (address + offset) % U32);
  }

  /** The reported size is the saved count exactly for non-empty ranges that do not wrap or are a single record, and,
      by coincidence, for ranges of all but 16 bytes that start off a record boundary away from both ends. */
  lemma ReportedExact(s: nat, n: nat)
    requires s < U32 && n < U32
    ensures Reported(s, n) == n <==>
            n > 0 && (s + n <= U32 || n <= 16 || (n == U32 - 16 && s % 16 != 0 && 32 < s < U32 - 16))
  {
  }

  /** Concretely: 32 bytes saved at 0xFFFFFFF0 are reported as none, an empty file as 2. */
  lemma WrongSizes(mem: Memory, target: Memory)
    ensures var r := Load(Saved(mem, 0xFFFF_FFF0, 32), 0, Fresh(target)); r.Loaded? && FileSize(r.l) == 0
    ensures var r := Load(Saved(mem, 0, 0), 0, Fresh(target)); r.Loaded? && FileSize(r.l) == 2
  {
    hide Load, Saved, FileSize, Fresh;
    ReportedSize(mem, 0xFFFF_FFF0, 32, 0, target);
    ReportedSize(mem, 0, 0, 0, target);
  }
}
