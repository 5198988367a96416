/**
  The log ring (`cmd_log.c`): `logbuff_printk` with its scratch buffer, the
  ring it writes to, and the commands that append to it and reset it.
 */
module LogBuffer {
  import opened Common
  import opened LogStream

  /** The ring index is taken modulo this. */
  const LOGBUFF_LEN := 16384

  const BUF_SIZE := 1024

  /** The ring `d` holds the last `size` characters of the stream, each at its index modulo the length. */
  ghost predicate Holds(d: seq<char>, stream: string, size: nat) {
    && |d| == LOGBUFF_LEN
    && size == (if |stream| < LOGBUFF_LEN then |stream| else LOGBUFF_LEN)
    && forall j :: |stream| - size <= j < |stream| ==> d[j % LOGBUFF_LEN] == stream[j]
  }

  lemma SlotsDiffer(j: int, n: int)
    requires 0 < n - j < LOGBUFF_LEN
    ensures j % LOGBUFF_LEN != n % LOGBUFF_LEN
  {
  }

  lemma RingStep(d: seq<char>, stream: string, size: nat, c: char)
    requires Holds(d, stream, size)
    ensures Holds(d[|stream| % LOGBUFF_LEN := c], stream + [c], if size < LOGBUFF_LEN then size + 1 else size)
  {
    var n := |stream|;
    var d', stream', size' := d[n % LOGBUFF_LEN := c], stream + [c], if size < LOGBUFF_LEN then size + 1 else size;
    forall j | n + 1 - size' <= j < n + 1
      ensures d'[j % LOGBUFF_LEN] == stream'[j]
    {
      if j < n {
        SlotsDiffer(j, n);
      }
    }
  }

  lemma AddMultiple(x: int, k: int)
    ensures (x + k * LOGBUFF_LEN) % LOGBUFF_LEN == x % LOGBUFF_LEN
  {
    assert (x + k * LOGBUFF_LEN) / LOGBUFF_LEN == x / LOGBUFF_LEN + k;
  }

  /** The ring index computed from the wrapped counters is the stream position modulo the length. */
  lemma SlotIs(n: nat, size: nat, start: nat)
    requires size <= n && start == (n - size) % U32
    ensures (start + size) % U32 % LOGBUFF_LEN == n % LOGBUFF_LEN
  {
    var a, b := (n - size) / U32, (start + size) / U32;
    var slot := (start + size) % U32;
    assert n == slot + (a + b) * U32;
    assert (a + b) * U32 == (a + b) * 262144 * LOGBUFF_LEN;
    AddMultiple(slot, (a + b) * 262144);
  }

  lemma SizeIs(d: seq<char>, stream: string, size: nat)
    requires Holds(d, stream, size)
    ensures size == if |stream| < LOGBUFF_LEN then |stream| else LOGBUFF_LEN
  {
  }

  /** How the counters move with one more character. */
  lemma CountersStep(n: nat, size: nat)
    requires size == if n < LOGBUFF_LEN then n else LOGBUFF_LEN
    ensures var size' := if size < LOGBUFF_LEN then size + 1 else size;
            var start := (n - size) % U32;
            (n + 1 - size') % U32 == if size < LOGBUFF_LEN then start else (start + 1) % U32
    ensures (n % U32 + 1) % U32 == (n + 1) % U32
  {
  }

  class Log {
    const ring: array<char>
    const buf: array<char>
    var start: nat
    var size: nat
    var logged: nat
    /** -1 between lines. */
    var level: int

    /** Everything logged since the last reset. */
    ghost var stream: string

    ghost predicate Valid()
      reads this, ring, buf
    {
      && ring != buf && buf.Length == BUF_SIZE && ring.Length == LOGBUFF_LEN
      && Holds(ring[..], stream, size)
      && start == (|stream| - size) % U32
      && logged == |stream| % U32
      && -1 <= level <= 7
    }

    ghost predicate LineOpen()
      reads this
    {
      level >= 0
    }

    constructor ()
      ensures Valid() && stream == "" && level == -1
      ensures fresh(ring) && fresh(buf)
    {
      ring := new char[LOGBUFF_LEN](_ => '\0');
      buf := new char[BUF_SIZE](_ => '\0');
      start, size, logged, level := 0, 0, 0, -1;
      stream := "";
    }

    /** One character into the ring. */
    method Put(c: char)
      requires Valid()
      modifies this`start, this`size, this`logged, this`stream, ring
      ensures Valid() && stream == old(stream) + [c]
    {
      hide Holds;
      ghost var d := ring[..];
      SizeIs(d, stream, size);
      SlotIs(|stream|, size, start);
      RingStep(d, stream, size, c);
      CountersStep(|stream|, size);
      ring[(start + size) % U32 % LOGBUFF_LEN] := c;
      assert ring[..] == d[|stream| % LOGBUFF_LEN := c];
      if size < LOGBUFF_LEN {
        size := size + 1;
      } else {
        start := (start + 1) % U32;
      }
      logged := (logged + 1) % U32;
      stream := stream + [c];
    }

    /** `log reset`: forgets the characters, not the line under way. */
    method Reset()
      requires Valid()
      modifies this`start, this`size, this`logged, this`stream
      ensures Valid() && stream == "" && LineOpen() == old(LineOpen())
    {
      start, size, logged, stream := 0, 0, 0, "";
    }

    /** What the ring holds, oldest first, read through the wrapped counters. */
    ghost function Contents(): (s: string)
      requires Valid()
      reads this, ring, buf
      ensures |s| == size
    {
      seq(size, i requires 0 <= i < size && Valid() reads this, ring, buf => ring[(start + i) % U32 % LOGBUFF_LEN])
    }

    /** The ring holds the last characters of the stream, as many as fit. */
    lemma ContentsAreLast()
      requires Valid()
      ensures Contents() == stream[|stream| - size..]
      ensures size == if |stream| < 16384 then |stream| else 16384
      ensures logged == |stream| % 0x1_0000_0000
    {
      var last := stream[|stream| - size..];
      forall i | 0 <= i < size
        ensures Contents()[i] == last[i]
      {
        var n := |stream| - size + i;
        SlotIs(n, i, start);
        assert ring[..][n % LOGBUFF_LEN] == stream[n];
      }
    }

    /** The inner loop: the line from `p`, up to its line feed or the end of the text. */
    method PutLine(p0: nat, end: nat) returns (p: nat, lineFeed: bool)
      requires Valid() && p0 < end <= BUF_SIZE
      modifies this`start, this`size, this`logged, this`stream, ring
      ensures Valid() && p0 <= p <= end && (lineFeed ==> p < end) && (!lineFeed ==> p == end)
      ensures lineFeed ==> buf[p] == '\n'
      ensures forall k :: p0 <= k < p ==> buf[k] != '\n'
      ensures stream + Emit(!lineFeed, buf[if lineFeed then p + 1 else p..end]) == old(stream) + Emit(true, buf[p0..end])
    {
      p, lineFeed := p0, false;
      while p < end
        invariant p0 <= p <= end && Valid() && !lineFeed
        invariant forall k :: p0 <= k < p ==> buf[k] != '\n'
        invariant stream + Emit(true, buf[p..end]) == old(stream) + Emit(true, buf[p0..end])
      {
        var c := buf[p];
        EmitOne(buf[p..end], stream);
        assert buf[p..end][1..] == buf[p + 1..end];
        Put(c);
        if c == '\n' {
          lineFeed := true;
          return;
        }
        p := p + 1;
      }
    }

    /** `logbuff_printk`. */
    method Printk(line: string) returns (n: nat)
      requires Valid() && |line| + 4 <= BUF_SIZE && '\0' !in line
      modifies this, ring, buf
      ensures Valid() && n == |line|
      ensures stream == old(stream) + Emit(old(LineOpen()), line)
      ensures LineOpen() == Open(old(LineOpen()), line)
    {
      hide Holds, Emit;
      n := |line|;
      CopyIn(buf, line);
      var end := 3 + n;
      var p := 3;
      ghost var t := 3;
      while p < end
        invariant 3 <= t <= end && t <= p && (p < end ==> t == p) && (p >= end ==> t == end) && Valid()
        invariant buf[t..end] == line[t - 3..]
        invariant end < BUF_SIZE && buf[end] == '\0'
        invariant stream + Emit(LineOpen(), line[t - 3..]) == old(stream) + Emit(old(LineOpen()), line)
        invariant LineOpen() == Open(old(LineOpen()), line[..t - 3])
        decreases end - p
      {
        ghost var t0, was := t, buf[t..];
        assert was[..end - t0] == line[t0 - 3..];
        p, t := PrintLine(p, end);
        assert buf[t0..end] == was[..end - t0];
        assert buf[t..end] == buf[t0..end][t - t0..];
        assert line[t - 3..] == line[t0 - 3..][t - t0..];
        assert line[..t - 3][|line[..t - 3]| - 1] == line[t - 4];
      }
      assert line[t - 3..] == "";
      assert line[..t - 3] == line;
      EmitNothing(LineOpen());
    }

    /** `logbuff_putc`: a NUL is an empty string. */
    method Putc(c: char)
      requires Valid()
      modifies this, ring, buf
      ensures Valid()
      ensures stream == old(stream) + Emit(old(LineOpen()), if c == '\0' then "" else [c])
      ensures LineOpen() == Open(old(LineOpen()), if c == '\0' then "" else [c])
    {
      var _ := Printk(if c == '\0' then "" else [c]);
    }

    /** `log append`: the arguments, a space after each but the last, a line feed after that. */
    method Append(args: seq<string>)
      requires Valid()
      requires forall arg :: arg in args ==> |arg| + 4 <= BUF_SIZE && '\0' !in arg
      modifies this, ring, buf
      ensures Valid()
      ensures stream == old(stream) + EmitAll(old(LineOpen()), AppendCalls(args, |args|))
      ensures LineOpen() == OpenAll(old(LineOpen()), AppendCalls(args, |args|))
    {
      hide Holds, Emit, EmitAll, OpenAll, Open;
      var i := 0;
      ghost var open := LineOpen();
      EmitAllNone(open);
      while i < |args|
        invariant i <= |args| && Valid()
        invariant stream == old(stream) + EmitAll(open, AppendCalls(args, i))
        invariant LineOpen() == OpenAll(open, AppendCalls(args, i))
      {
        var sep := if i < |args| - 1 then ' ' else '\n';
        ghost var before, now := stream, LineOpen();
        var _ := Printk(args[i]);
        ghost var mid := LineOpen();
        Putc(sep);
        EmitTwo(now, args[i], [sep]);
        EmitAllConcat(open, AppendCalls(args, i), [args[i], [sep]]);
        assert stream == before + (Emit(now, args[i]) + Emit(mid, [sep]));
        assert AppendCalls(args, i + 1) == AppendCalls(args, i) + [args[i], [sep]];
        Regroup(old(stream), EmitAll(open, AppendCalls(args, i)), EmitAll(now, [args[i], [sep]]));
        i := i + 1;
      }
    }

    /** One event. */
    method Do(e: Event)
      requires Valid() && Fits(e)
      modifies this, ring, buf
      ensures Valid()
      ensures stream == if e.Reset? then "" else old(stream) + EmitAll(old(LineOpen()), CallsOf(e))
      ensures LineOpen() == OpenAll(old(LineOpen()), CallsOf(e))
    {
      hide Holds, Emit, EmitAll, OpenAll, Open, AppendCalls;
      match e {
        case Say(text) =>
          EmitAllOne(LineOpen(), text);
          var _ := Printk(text);
        case PutChar(c) =>
          EmitAllOne(LineOpen(), if c == '\0' then "" else [c]);
          Putc(c);
        case AppendArgs(args) => Append(args);
        case Reset =>
          EmitAllNone(LineOpen());
          Reset();
      }
    }

    /** Any run of log calls and resets on a new log. */
    method Run(events: seq<Event>)
      requires Valid() && stream == "" && !LineOpen()
      requires forall e :: e in events ==> Fits(e)
      modifies this, ring, buf
      ensures Valid() && stream == StreamAfter(events) && LineOpen() == After(events).open
    {
      hide Holds, EmitAll, OpenAll, CallsOf, After, Fits;
      var i := 0;
      NothingYet();
      while i < |events|
        invariant i <= |events| && Valid()
        invariant stream == StreamAfter(events[..i]) && LineOpen() == After(events[..i]).open
      {
        assert events[i] in events;
        OneMore(events, i);
        Do(events[i]);
        i := i + 1;
      }
      assert events[..i] == events;
    }

    /** One round of the outer loop; `t` is where the remaining text starts. */
    method PrintLine(p0: nat, end: nat) returns (p: nat, ghost t: nat)
      requires Valid() && 3 <= p0 < end < BUF_SIZE && buf[end] == '\0'
      modifies this, ring, buf
      ensures Valid() && p0 < t <= end && t <= p && (p < end ==> t == p) && (p >= end ==> t == end)
      ensures buf[p0..] == old(buf[p0..])
      ensures stream + Emit(LineOpen(), buf[t..end]) == old(stream) + Emit(old(LineOpen()), buf[p0..end])
      ensures LineOpen() == (buf[t - 1] != '\n')
    {
      hide Holds, Emit;
      var q := p0;
      if level < 0 {
        q, level := StartLine(buf, p0, end);
      }
      assert stream + Emit(true, buf[q..end]) == old(stream) + Emit(old(LineOpen()), buf[p0..end]);
      var lineFeed;
      p, lineFeed := PutLine(q, end);
      t := p;
      if lineFeed {
        level := -1;
        t := p + 1;
      }
      p := p + 1;
    }
  }

  /** The texts of an event fit the scratch buffer. */
  predicate Fits(e: Event) {
    match e
    case Say(text) => |text| + 4 <= BUF_SIZE && '\0' !in text
    case PutChar(c) => true
    case AppendArgs(args) => forall arg :: arg in args ==> |arg| + 4 <= BUF_SIZE && '\0' !in arg
    case Reset => true
  }

  lemma NothingYet()
    ensures StreamAfter([]) == "" && !After([]).open
  {
  }

  /** What one more event does to the specified stream. */
  lemma OneMore(events: seq<Event>, i: nat)
    requires i < |events|
    ensures var e, s := events[i], After(events[..i]);
            && After(events[..i + 1]).open == OpenAll(s.open, CallsOf(e))
            && StreamAfter(events[..i + 1]) == if e.Reset? then "" else StreamAfter(events[..i]) + EmitAll(s.open, CallsOf(e))
  {
    hide EmitAll, OpenAll;
    var e, s := events[i], After(events[..i]);
    assert events[..i + 1][..i] == events[..i] && events[..i + 1][i] == e;
    OpenAfter(events[..i]);
    EmitAllConcat(s.atReset, s.calls, CallsOf(e));
    EmitAllNone(s.open);
  }

  lemma EmitAllNone(open: bool)
    ensures EmitAll(open, []) == "" && OpenAll(open, []) == open
  {
  }

  lemma EmitTwo(open: bool, a: string, b: string)
    ensures EmitAll(open, [a, b]) == Emit(open, a) + Emit(Open(open, a), b)
    ensures OpenAll(open, [a, b]) == Open(Open(open, a), b)
  {
    hide Emit, EmitAll, OpenAll, Open;
    assert [a, b] == [a] + [b];
    EmitAllConcat(open, [a], [b]);
    EmitAllOne(open, a);
    EmitAllOne(Open(open, a), b);
  }

  lemma Regroup(a: string, b: string, c: string)
    ensures (a + b) + c == a + (b + c)
  {
  }

  lemma EmitNothing(open: bool)
    ensures Emit(open, "") == ""
  {
  }

  /** What the first character of a line under way adds. */
  lemma EmitOne(text: string, stream: string)
    requires text != ""
    ensures stream + Emit(true, text) == (stream + [text[0]]) + Emit(text[0] != '\n', text[1..])
  {
  }

  /** The copy of the text to the scratch buffer, three bytes in. */
  method CopyIn(buf: array<char>, line: string)
    requires |line| + 4 <= buf.Length
    modifies buf
    ensures buf[3..3 + |line|] == line && buf[3 + |line|] == '\0'
  {
    var i := 0;
    while i < |line|
      invariant i <= |line| && buf[3..3 + i] == line[..i]
    {
      buf[3 + i] := line[i];
      i := i + 1;
    }
    buf[3 + i] := '\0';
    assert line[..i] == line;
  }

  /** The start of a line at `p`: its own tag, or the default one written over the three characters before it. */
  method StartLine(buf: array<char>, p: nat, end: nat) returns (q: nat, level: int)
    requires 3 <= p < end < buf.Length && buf[end] == '\0'
    modifies buf
    ensures buf[p..] == old(buf[p..])
    ensures q <= p && level == if Tagged(buf[p..end]) then buf[p + 1] as int - '0' as int else 4
    ensures forall k :: q <= k < p ==> buf[k] != '\n'
    ensures Emit(true, buf[q..end]) == Emit(false, buf[p..end])
  {
    hide Emit;
    q := p;
    if buf[p] != '<' || buf[p + 1] < '0' || buf[p + 1] > '7' || buf[p + 2] != '>' {
      q := p - 3;
      buf[q] := '<';
      buf[q + 1] := '4';
      buf[q + 2] := '>';
      assert buf[q..end] == DEFAULT_TAG + buf[p..end];
      DefaultGoesOut(buf[p..end]);
    } else {
      OwnTag(buf[p..end]);
    }
    level := buf[q + 1] as int - '0' as int;
  }

  lemma OwnTag(text: string)
    requires Tagged(text)
    ensures Emit(true, text) == Emit(false, text)
  {
  }

  lemma DefaultGoesOut(text: string)
    requires text != "" && !Tagged(text)
    ensures Emit(true, DEFAULT_TAG + text) == Emit(false, text)
  {
    var s := DEFAULT_TAG + text;
    assert s[1..][1..] == s[2..] && s[2..][1..] == s[3..] && s[3..] == text;
    assert Emit(true, s) == [s[0]] + Emit(true, s[1..]);
    assert Emit(true, s[1..]) == [s[1]] + Emit(true, s[2..]);
    assert Emit(true, s[2..]) == [s[2]] + Emit(true, text);
  }
}
