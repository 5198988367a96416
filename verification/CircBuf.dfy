/**
  The overwriting circular buffer (`circbuf.c`): a fixed array, the position of
  the oldest byte, the position of the next one, and the number held.
 */
module CircBuf {

  /** The last `n` elements. */
  function Last(s: seq<char>, n: nat): seq<char> {
    if |s| <= n then s else s[|s| - n..]
  }

  lemma LastOfLast(a: seq<char>, b: seq<char>, n: nat)
    ensures Last(Last(a, n) + b, n) == Last(a + b, n)
  {
    if |a| > n {
      assert a + b == a[..|a| - n] + (Last(a, n) + b);
    }
  }

  lemma LastStep(before: seq<char>, src: seq<char>, i: nat, n: nat)
    requires i < |src|
    ensures Last(Last(before + src[..i], n) + [src[i]], n) == Last(before + src[..i + 1], n)
  {
    LastOfLast(before + src[..i], [src[i]], n);
    assert before + src[..i + 1] == before + src[..i] + [src[i]];
  }

  /** The first `n` elements, or all of them. */
  function Oldest(s: seq<char>, n: nat): seq<char> {
    if |s| <= n then s else s[..n]
  }

  function Wrap(i: nat, n: nat): nat
    requires n > 0
  {
    if i >= n then i - n else i
  }

  /** The `size` bytes of the ring `d` from position `top`, oldest first. */
  function Held(d: seq<char>, top: nat, size: nat): (s: seq<char>)
    requires top < |d| && size <= |d|
    ensures |s| == size
  {
    seq(size, k requires 0 <= k < size => d[Wrap(top + k, |d|)])
  }

  lemma PushAppends(d: seq<char>, top: nat, size: nat, c: char)
    requires top < |d| && size < |d|
    ensures Held(d[Wrap(top + size, |d|) := c], top, size + 1) == Held(d, top, size) + [c]
  {
    var l, r := Held(d[Wrap(top + size, |d|) := c], top, size + 1), Held(d, top, size) + [c];
    forall k | 0 <= k < size + 1
      ensures l[k] == r[k]
    {
      assert k < size ==> Wrap(top + k, |d|) != Wrap(top + size, |d|);
    }
  }

  lemma PushReplaces(d: seq<char>, top: nat, c: char)
    requires top < |d|
    ensures Held(d[top := c], Wrap(top + 1, |d|), |d|) == Held(d, top, |d|)[1..] + [c]
  {
    var n := |d|;
    var l, r := Held(d[top := c], Wrap(top + 1, n), n), Held(d, top, n)[1..] + [c];
    forall k | 0 <= k < n
      ensures l[k] == r[k]
    {
      assert Wrap(Wrap(top + 1, n) + k, n) == Wrap(top + k + 1, n) || k == n - 1;
    }
  }

  /** Writing at the tail keeps the newest bytes, whether the ring is full or not. */
  lemma PushKeepsNewest(d: seq<char>, top: nat, size: nat, c: char, top': nat, size': nat)
    requires top < |d| && size <= |d|
    requires if size < |d| then top' == top && size' == size + 1 else top' == Wrap(top + 1, |d|) && size' == size
    ensures Held(d[Wrap(top + size, |d|) := c], top', size') == Last(Held(d, top, size) + [c], |d|)
  {
    if size < |d| {
      PushAppends(d, top, size, c);
    } else {
      PushReplaces(d, top, c);
    }
  }

  lemma PopShifts(d: seq<char>, top: nat, size: nat, len: nat)
    requires top < |d| && len <= size <= |d|
    ensures len < |d| ==> Held(d, Wrap(top + len, |d|), size - len) == Held(d, top, size)[len..]
  {
    var n := |d|;
    if len < n {
      var l, r := Held(d, Wrap(top + len, n), size - len), Held(d, top, size)[len..];
      forall k | 0 <= k < size - len
        ensures l[k] == r[k]
      {
        assert Wrap(Wrap(top + len, n) + k, n) == Wrap(top + (len + k), n);
      }
    }
  }

  class CircularBuffer {
    const data: array<char>
    var top: nat
    var tail: nat
    var size: nat

    ghost predicate Valid()
      reads this, data
    {
      && top < data.Length && size <= data.Length
      && tail == Wrap(top + size, data.Length)
    }

    /** Bytes held, oldest first. */
    ghost function Contents(): (s: seq<char>)
      requires Valid()
      reads this, data
      ensures |s| == size
    {
      Held(data[..], top, size)
    }

    /** `buf_init`, for a positive capacity. */
    constructor (capacity: nat)
      requires capacity > 0
      ensures Valid() && Contents() == [] && data.Length == capacity && fresh(data)
    {
      data := new char[capacity](_ => '\0');
      top, tail, size := 0, 0, 0;
    }

    /** One byte of `buf_push`: a full buffer drops its oldest byte. */
    method PushOne(c: char)
      requires Valid()
      modifies this, data
      ensures Valid() && Contents() == Last(old(Contents()) + [c], data.Length)
    {
      hide Held, Last;
      ghost var d, top0, size0 := data[..], top, size;
      var n := data.Length;
      data[tail] := c;
      assert data[..] == d[tail := c];
      tail := tail + 1;
      if tail == n {
        tail := 0;
      }
      if size < n {
        size := size + 1;
      } else {
        top := top + 1;
        if top == n {
          top := 0;
        }
      }
      PushKeepsNewest(d, top0, size0, c, top, size);
    }

    /** `buf_push`. */
    method Push(src: seq<char>) returns (len: nat)
      requires Valid()
      modifies this, data
      ensures Valid() && len == |src|
      ensures Contents() == Last(old(Contents()) + src, data.Length)
    {
      var i := 0;
      ghost var before := Contents();
      assert before + [] == before;
      while i < |src|
        invariant 0 <= i <= |src| && Valid()
        invariant Contents() == Last(before + src[..i], data.Length)
      {
        PushOne(src[i]);
        LastStep(before, src, i, data.Length);
        i := i + 1;
      }
      assert src[..i] == src;
      return i;
    }

    /** `buf_pop`: the oldest bytes, at most as many as are held. */
    method Pop(count: nat) returns (dest: seq<char>)
      requires Valid()
      modifies this
      ensures Valid()
      ensures dest == Oldest(old(Contents()), count)
      ensures Contents() == old(Contents())[|dest|..]
    {
      var len := if count > size then size else count;
      dest := [];
      var p, i := top, 0;
      ghost var before := Contents();
      while i < len
        invariant 0 <= i <= len && p == if i == data.Length then top else Wrap(top + i, data.Length)
        invariant dest == before[..i]
      {
        dest := dest + [data[p]];
        p := p + 1;
        if p == data.Length {
          p := 0;
        }
        i := i + 1;
      }
      PopShifts(data[..], top, size, len);
      top, size := p, size - len;
    }
  }

  // ---- histories ----

  datatype Op = Push(src: seq<char>) | Pop(count: nat)

  /** What is left after one operation, and what it hands out. */
  function Step(held: seq<char>, op: Op, capacity: nat): seq<char> {
    match op
    case Push(src) => Last(held + src, capacity)
    case Pop(count) => held[|Oldest(held, count)|..]
  }

  function Emitted(held: seq<char>, op: Op): seq<char> {
    if op.Pop? then Oldest(held, op.count) else []
  }

  function Run(ops: seq<Op>, capacity: nat): seq<char> {
    if ops == [] then [] else Step(Run(ops[..|ops| - 1], capacity), ops[|ops| - 1], capacity)
  }

  /** Everything pushed by a history, and everything its pops return. */
  function Pushed(ops: seq<Op>): seq<char> {
    if ops == [] then []
    else Pushed(ops[..|ops| - 1]) + (if ops[|ops| - 1].Push? then ops[|ops| - 1].src else [])
  }

  function Popped(ops: seq<Op>, capacity: nat): seq<char> {
    if ops == [] then []
    else Popped(ops[..|ops| - 1], capacity) + Emitted(Run(ops[..|ops| - 1], capacity), ops[|ops| - 1])
  }

  /** No push of the history finds too little room. */
  predicate NeverOverfull(ops: seq<Op>, capacity: nat) {
    ops == [] ||
    (var init, op := ops[..|ops| - 1], ops[|ops| - 1];
     NeverOverfull(init, capacity) && (op.Push? ==> |Run(init, capacity)| + |op.src| <= capacity))
  }

  /** Over every history the buffer holds a suffix of all bytes ever pushed, never more than its capacity. */
  lemma {:induction false} HeldIsRecent(ops: seq<Op>, capacity: nat)
    ensures |Run(ops, capacity)| <= capacity
    ensures Run(ops, capacity) == Last(Pushed(ops), |Run(ops, capacity)|)
  {
    if ops != [] {
      var init, op := ops[..|ops| - 1], ops[|ops| - 1];
      HeldIsRecent(init, capacity);
      SuffixStep(Pushed(init), Run(init, capacity), op, capacity);
    }
  }

  lemma SuffixStep(all: seq<char>, held: seq<char>, op: Op, capacity: nat)
    requires |held| <= |all| && held == all[|all| - |held|..] && |held| <= capacity
    ensures var more := all + (if op.Push? then op.src else []);
            var now := Step(held, op, capacity);
            |now| <= |more| && now == more[|more| - |now|..] && |now| <= capacity
  {
    if op.Push? {
      assert all + op.src == all[..|all| - |held|] + (held + op.src);
    } else {
      assert all + [] == all;
    }
  }

  /**
    The buffer is a lossless queue exactly when no push overfills it: then, and
    only then, the popped bytes followed by the held ones are the pushed ones.
   */
  lemma {:induction false} FifoExact(ops: seq<Op>, capacity: nat)
    ensures |Popped(ops, capacity)| + |Run(ops, capacity)| <= |Pushed(ops)|
    ensures Popped(ops, capacity) + Run(ops, capacity) == Pushed(ops) <==> NeverOverfull(ops, capacity)
    ensures !NeverOverfull(ops, capacity) ==> |Popped(ops, capacity)| + |Run(ops, capacity)| < |Pushed(ops)|
  {
    if ops != [] {
      var init, op := ops[..|ops| - 1], ops[|ops| - 1];
      FifoExact(init, capacity);
      FifoStep(Popped(init, capacity), Run(init, capacity), Pushed(init), op, capacity);
    }
  }

  lemma FifoStep(out: seq<char>, held: seq<char>, all: seq<char>, op: Op, capacity: nat)
    ensures var out', held', all' := out + Emitted(held, op), Step(held, op, capacity), all + (if op.Push? then op.src else []);
            && |out'| + |held'| + |all| <= |out| + |held| + |all'|
            && (op.Push? && |held| + |op.src| > capacity ==> |out'| + |held'| + |all| < |out| + |held| + |all'|)
            && (out + held == all && (op.Push? ==> |held| + |op.src| <= capacity) ==> out' + held' == all')
  {
    if op.Push? {
      assert out + [] == out;
      assert (out + held) + op.src == out + (held + op.src);
    } else {
      var k := |Oldest(held, op.count)|;
      assert held == Oldest(held, op.count) + held[k..];
      assert all + [] == all;
      assert (out + Oldest(held, op.count)) + held[k..] == out + held;
    }
  }
}
