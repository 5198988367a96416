/**
  The planning loops and their two users, `flash_sect_protect` and
  `flash_sect_erase` (`cmd_flash.c`), as they run over the bank table.
 */
module FlashDriver {
  import opened Common
  import opened FlashPlan

  /** The sector loop over one bank. */
  method ScanBank(b: Bank, f: nat, l: nat) returns (sf: int, sl: int)
    requires WfBank(b) && b.known && f <= l
    ensures sf == StartsAt(b, f, |b.start|) && sl == EndsAt(b, l, |b.start|)
  {
    sf, sl := -1, -1;
    var sect := 0;
    while sect < |b.start|
      invariant 0 <= sect <= |b.start|
      invariant sf == StartsAt(b, f, sect) && sl == EndsAt(b, l, sect)
    {
      SectorBounds(b, sect);
      var end := SectorEnd(b, sect);
      if !(f > end) && !(l < b.start[sect]) {
        if f == b.start[sect] {
          sf := sect;
        }
        if l == end {
          sl := sect;
        }
      }
      sect := sect + 1;
    }
  }

  /** The arrays hold the plan's ranges for the banks done, and nothing yet for the others. */
  ghost predicate Filled(sFirst: seq<int>, sLast: seq<int>, ranges: seq<(int, int)>, done: nat) {
    && |sFirst| == |sLast| == |ranges| && done <= |ranges|
    && (forall k :: 0 <= k < done ==> (sFirst[k], sLast[k]) == ranges[k])
    && (forall k :: done <= k < |ranges| ==> (sFirst[k], sLast[k]) == NONE)
  }

  /** What is left to plan is the tail of the whole plan. */
  ghost predicate Remaining(full: Plan, done: nat, count: int, rest: Plan) {
    && done + |rest.ranges| == |full.ranges|
    && full.rcode == rest.rcode && full.count == count + rest.count
    && full.ranges[done..] == rest.ranges
  }

  lemma {:induction false} UsedUp(banks: seq<Bank>, f: nat, l: nat)
    requires Wf(banks) && f > l
    ensures PlanFrom(banks, f, l) == Plan(0, seq(|banks|, _ => NONE), 0)
  {
    if banks != [] {
      UsedUp(banks[1..], f, l);
      assert [NONE] + seq(|banks| - 1, _ => NONE) == seq(|banks|, _ => NONE);
    }
  }

  /** The planning loop over a bank and those behind it, told from the first bank's outcome. */
  function Behind(ok: bool, sf: int, sl: int, others: nat, p: Plan): Plan {
    if !ok then Fail((sf, sl), others)
    else Plan(p.rcode, [(sf, sl)] + p.ranges, p.count + (if sf >= 0 then sl - sf + 1 else 0))
  }

  /** One bank of the planning loop: its range, the next address, and whether planning stops with an error. */
  method PlanBank(b: Bank, f: nat, l: nat, ghost rest: seq<Bank>)
    returns (ok: bool, sf: int, sl: int, next: nat)
    requires Wf([b] + rest) && WfBank(b) && Wf(rest) && f <= l
    ensures PlanFrom([b] + rest, f, l) == Behind(ok, sf, sl, |rest|, PlanFrom(rest, next, l))
  {
    assert ([b] + rest)[1..] == rest && ([b] + rest)[0] == b;
    if !b.known {
      return true, -1, -1, f;
    }
    sf, sl := ScanBank(b, f, l);
    next := f;
    if sf >= 0 {
      if sl < 0 && l > BankEnd(b) {
        sl := |b.start| - 1;
      }
      ok := sl >= sf;
      if ok {
        next := NextAddress(b, sl);
      }
    } else {
      ok := !(b.start[0] <= f < BankEnd(b)) && sl < 0;
    }
  }

  lemma OneBankLess(full: Plan, done: nat, count: int, ok: bool, sf: int, sl: int, others: nat, p: Plan)
    requires |p.ranges| == others && Remaining(full, done, count, Behind(ok, sf, sl, others, p))
    ensures done < |full.ranges| && full.ranges[done] == (sf, sl)
    ensures ok ==> Remaining(full, done + 1, count + (if sf >= 0 then sl - sf + 1 else 0), p)
    ensures !ok ==> full.rcode == 1 && full.count == count && forall k :: done < k < |full.ranges| ==> full.ranges[k] == NONE
  {
    var rest := Behind(ok, sf, sl, others, p);
    assert full.ranges[done] == full.ranges[done..][0];
    assert full.ranges[done + 1..] == full.ranges[done..][1..] == rest.ranges[1..];
    if !ok {
      forall k | done < k < |full.ranges| ensures full.ranges[k] == NONE {
        assert full.ranges[k] == full.ranges[done..][k - done];
      }
    }
  }

  lemma NoneLeft(full: Plan, done: nat, count: int, others: nat)
    requires Remaining(full, done, count, Plan(0, seq(others, _ => NONE), 0))
    ensures full.rcode == 0 && full.count == count
    ensures forall k :: done <= k < |full.ranges| ==> full.ranges[k] == NONE
  {
    forall k | done <= k < |full.ranges| ensures full.ranges[k] == NONE {
      assert full.ranges[k] == full.ranges[done..][k - done];
    }
  }

  /** `flash_fill_sect_ranges`. */
  method FillSectRanges(banks: seq<Bank>, addrFirst: nat, addrLast: nat, sFirst: array<int>, sLast: array<int>)
    returns (rcode: int, count: int)
    requires Wf(banks) && sFirst != sLast && sFirst.Length == sLast.Length == |banks|
    modifies sFirst, sLast
    ensures var p := PlanFrom(banks, addrFirst, addrLast);
            rcode == p.rcode && count == p.count && Filled(sFirst[..], sLast[..], p.ranges, |banks|)
  {
    ghost var full := PlanFrom(banks, addrFirst, addrLast);
    count := 0;
    ClearRanges(sFirst, sLast);
    var f: nat, bank := addrFirst, 0;
    hide PlanFrom, WfBank, Remaining, Filled, Behind;
    assert banks[0..] == banks;
    NotStarted(sFirst[..], sLast[..], full);
    while bank < |banks| && f <= addrLast
      invariant 0 <= bank <= |banks|
      invariant Filled(sFirst[..], sLast[..], full.ranges, bank)
      invariant Remaining(full, bank, count, PlanFrom(banks[bank..], f, addrLast))
    {
      var ok;
      ok, f, count := PlanNext(banks, bank, f, addrLast, sFirst, sLast, count, full);
      if !ok {
        return 1, count;
      }
      bank := bank + 1;
    }
    UsedUpOrDone(banks[bank..], f, addrLast);
    NoneLeft(full, bank, count, |banks| - bank);
    FilledUp(sFirst[..], sLast[..], full.ranges, bank);
    return 0, count;
  }

  /** One round of the loop over the banks. */
  method PlanNext(banks: seq<Bank>, bank: nat, f: nat, l: nat, sFirst: array<int>, sLast: array<int>, count: int,
                  ghost full: Plan)
    returns (ok: bool, next: nat, count': int)
    requires Wf(banks) && bank < |banks| && f <= l && sFirst != sLast && |full.ranges| == |banks|
    requires Filled(sFirst[..], sLast[..], full.ranges, bank)
    requires Wf(banks[bank..]) && Remaining(full, bank, count, PlanFrom(banks[bank..], f, l))
    modifies sFirst, sLast
    ensures Wf(banks[bank + 1..])
    ensures ok ==> Filled(sFirst[..], sLast[..], full.ranges, bank + 1)
    ensures ok ==> Remaining(full, bank + 1, count', PlanFrom(banks[bank + 1..], next, l))
    ensures !ok ==> full.rcode == 1 && full.count == count' && Filled(sFirst[..], sLast[..], full.ranges, |banks|)
  {
    hide PlanFrom, WfBank, Remaining, Filled, Behind;
    ghost var rest := banks[bank + 1..];
    assert banks[bank..] == [banks[bank]] + rest;
    var sf, sl;
    ok, sf, sl, next := PlanBank(banks[bank], f, l, rest);
    OneBankLess(full, bank, count, ok, sf, sl, |rest|, PlanFrom(rest, next, l));
    StoreRange(sFirst, sLast, bank, sf, sl, full.ranges);
    count' := count;
    if !ok {
      FilledUp(sFirst[..], sLast[..], full.ranges, bank + 1);
    } else if sf >= 0 {
      count' := count + (sl - sf + 1);
    }
  }

  lemma NotStarted(sFirst: seq<int>, sLast: seq<int>, full: Plan)
    requires |sFirst| == |sLast| == |full.ranges|
    requires forall k :: 0 <= k < |sFirst| ==> sFirst[k] == -1 && sLast[k] == -1
    ensures Filled(sFirst, sLast, full.ranges, 0) && Remaining(full, 0, 0, full)
  {
    assert full.ranges[0..] == full.ranges;
  }

  method StoreRange(sFirst: array<int>, sLast: array<int>, bank: nat, sf: int, sl: int, ghost ranges: seq<(int, int)>)
    requires sFirst != sLast && Filled(sFirst[..], sLast[..], ranges, bank)
    requires bank < |ranges| && ranges[bank] == (sf, sl)
    modifies sFirst, sLast
    ensures Filled(sFirst[..], sLast[..], ranges, bank + 1)
  {
    sFirst[bank], sLast[bank] := sf, sl;
  }

  lemma FilledUp(sFirst: seq<int>, sLast: seq<int>, ranges: seq<(int, int)>, done: nat)
    requires Filled(sFirst, sLast, ranges, done)
    requires forall k :: done <= k < |ranges| ==> ranges[k] == NONE
    ensures Filled(sFirst, sLast, ranges, |ranges|)
  {
  }

  lemma UsedUpOrDone(banks: seq<Bank>, f: nat, l: nat)
    requires Wf(banks) && (banks == [] || f > l)
    ensures PlanFrom(banks, f, l) == Plan(0, seq(|banks|, _ => NONE), 0)
  {
    if banks != [] {
      UsedUp(banks, f, l);
    }
  }

  method ClearRanges(sFirst: array<int>, sLast: array<int>)
    requires sFirst != sLast && sFirst.Length == sLast.Length
    modifies sFirst, sLast
    ensures forall k :: 0 <= k < sFirst.Length ==> sFirst[k] == sLast[k] == -1
  {
    var bank := 0;
    while bank < sFirst.Length
      invariant 0 <= bank <= sFirst.Length
      invariant forall k :: 0 <= k < bank ==> sFirst[k] == sLast[k] == -1
    {
      sFirst[bank], sLast[bank] := -1, -1;
      bank := bank + 1;
    }
  }

  // ---- protecting ----

  /** A bank with its per-sector protection flags. */
  class FlashInfo {
    const bank: Bank
    const protect: array<int>

    constructor (b: Bank)
      requires WfBank(b)
      ensures bank == b && fresh(protect) && protect.Length == |b.start|
    {
      bank := b;
      protect := new int[|b.start|](_ => 0);
    }
  }

  function Banks(infos: seq<FlashInfo>): (banks: seq<Bank>)
    ensures |banks| == |infos| && forall i :: 0 <= i < |infos| ==> banks[i] == infos[i].bank
  {
    seq(|infos|, i requires 0 <= i < |infos| => infos[i].bank)
  }

  ghost predicate WfInfos(infos: seq<FlashInfo>) {
    && (forall i :: 0 <= i < |infos| ==>
          WfBank(infos[i].bank) && infos[i].protect.Length == |infos[i].bank.start|)
    && (forall i, j :: 0 <= i < j < |infos| ==> infos[i].protect != infos[j].protect)
  }

  ghost function Flags(infos: seq<FlashInfo>): set<array<int>> {
    set i | 0 <= i < |infos| :: infos[i].protect
  }

  /** The flags of one bank after protecting the sectors of range `r`. */
  ghost predicate Protected(before: seq<int>, b: Bank, r: (int, int), p: int, after: seq<int>) {
    && |after| == |before|
    && forall s :: 0 <= s < |before| ==> after[s] == if Used(b, r) && r.0 <= s <= r.1 then p else before[s]
  }

  method ProtectBank(info: FlashInfo, sf: int, sl: int, p: int)
    requires WfBank(info.bank) && info.protect.Length == |info.bank.start|
    requires Used(info.bank, (sf, sl))
    modifies info.protect
    ensures Protected(old(info.protect[..]), info.bank, (sf, sl), p, info.protect[..])
  {
    var i := sf;
    while i <= sl
      invariant sf <= i <= sl + 1
      invariant forall s :: 0 <= s < info.protect.Length ==>
                  info.protect[s] == if sf <= s < i then p else old(info.protect[s])
    {
      info.protect[i] := p;
      i := i + 1;
    }
  }

  /** One round of the loop over the banks: only the flags of this bank can change. */
  method ProtectOne(infos: seq<FlashInfo>, bank: nat, sf: int, sl: int, p: int)
    requires WfInfos(infos) && bank < |infos|
    requires (sf, sl) == NONE || Used(infos[bank].bank, (sf, sl))
    modifies infos[bank].protect
    ensures Protected(old(infos[bank].protect[..]), infos[bank].bank, (sf, sl), p, infos[bank].protect[..])
  {
    if infos[bank].bank.known && 0 <= sf <= sl {
      ProtectBank(infos[bank], sf, sl, p);
    }
  }

  /** `flash_sect_protect`: sets the flag of exactly the planned sectors, or of none and fails. */
  method SectProtect(infos: seq<FlashInfo>, p: int, addrFirst: nat, addrLast: nat) returns (rcode: int)
    requires WfInfos(infos)
    modifies Flags(infos)
    ensures var plan := PlanFrom(Banks(infos), addrFirst, addrLast);
            if Succeeds(plan)
            then rcode == 0 && forall i :: 0 <= i < |infos| ==>
                   Protected(old(infos[i].protect[..]), infos[i].bank, plan.ranges[i], p, infos[i].protect[..])
            else rcode != 0 && forall i :: 0 <= i < |infos| ==> infos[i].protect[..] == old(infos[i].protect[..])
  {
    var sFirst, sLast := new int[|infos|], new int[|infos|];
    var planned;
    rcode, planned := FillSectRanges(Banks(infos), addrFirst, addrLast, sFirst, sLast);
    RcodeIsBinary(Banks(infos), addrFirst, addrLast);
    ghost var plan := PlanFrom(Banks(infos), addrFirst, addrLast);
    PlanRanges(Banks(infos), addrFirst, addrLast);
    if planned != 0 && rcode == 0 {
      ProtectAll(infos, sFirst[..], sLast[..], p, plan.ranges);
    } else if rcode == 0 {
      rcode := 1;
    }
  }

  /** The loop over the banks, for planned ranges. */
  method ProtectAll(infos: seq<FlashInfo>, firsts: seq<int>, lasts: seq<int>, p: int, ghost ranges: seq<(int, int)>)
    requires WfInfos(infos) && |ranges| == |infos| && Filled(firsts, lasts, ranges, |infos|)
    requires forall i :: 0 <= i < |infos| ==> ranges[i] == NONE || Used(infos[i].bank, ranges[i])
    modifies Flags(infos)
    ensures forall i :: 0 <= i < |infos| ==>
              Protected(old(infos[i].protect[..]), infos[i].bank, ranges[i], p, infos[i].protect[..])
  {
    hide Protected, Used, WfBank;
    var bank := 0;
    while bank < |infos|
      invariant 0 <= bank <= |infos|
      invariant forall i :: 0 <= i < bank ==>
        Protected(old(infos[i].protect[..]), infos[i].bank, ranges[i], p, infos[i].protect[..])
      invariant forall i :: bank <= i < |infos| ==> infos[i].protect[..] == old(infos[i].protect[..])
    {
      assert (firsts[bank], lasts[bank]) == ranges[bank];
      ProtectOne(infos, bank, firsts[bank], lasts[bank], p);
      bank := bank + 1;
    }
  }

  lemma {:induction false} RcodeIsBinary(banks: seq<Bank>, f: nat, l: nat)
    requires Wf(banks)
    ensures PlanFrom(banks, f, l).rcode == 0 || PlanFrom(banks, f, l).rcode == 1
  {
    if banks != [] {
      var b := banks[0];
      RcodeIsBinary(banks[1..], f, l);
      if b.known && f <= l {
        var sf, sl := StartsAt(b, f, |b.start|), EndsAt(b, l, |b.start|);
        var last := if sl < 0 then |b.start| - 1 else sl;
        RcodeIsBinary(banks[1..], NextAddress(b, last), l);
      }
    }
  }

  /** In a successful plan every range is either unused or names sectors of its bank. */
  lemma {:induction false} PlanRanges(banks: seq<Bank>, f: nat, l: nat)
    requires Wf(banks)
    ensures var p := PlanFrom(banks, f, l);
            p.rcode == 0 ==> forall i :: 0 <= i < |banks| ==> p.ranges[i] == NONE || Used(banks[i], p.ranges[i])
  {
    var p := PlanFrom(banks, f, l);
    if banks != [] && p.rcode == 0 {
      PlanHead(banks, f, l);
      PlanRanges(banks[1..], After(banks[0], p.ranges[0], f), l);
      forall i | 0 <= i < |banks| ensures p.ranges[i] == NONE || Used(banks[i], p.ranges[i]) {
        if i > 0 {
          assert p.ranges[i] == p.ranges[1..][i - 1] && banks[i] == banks[1..][i - 1];
        }
      }
    }
  }

  // ---- erasing ----

  /** A call of the hardware's `flash_erase`. */
  datatype EraseCall = EraseCall(bank: nat, first: int, last: int)

  /** The erase calls a plan asks for, in bank order. */
  function Calls(ranges: seq<(int, int)>, n: nat): seq<EraseCall>
    requires n <= |ranges|
  {
    if n == 0 then []
    else Calls(ranges, n - 1) +
         (if ranges[n - 1].0 >= 0 then [EraseCall(n - 1, ranges[n - 1].0, ranges[n - 1].1)] else [])
  }

  /** The calls are exactly the ranges that were planned, one for each bank, in ascending order of banks. */
  lemma {:induction false} CallsExact(ranges: seq<(int, int)>, n: nat)
    requires n <= |ranges|
    ensures forall b: nat, f: int, l: int ::
              EraseCall(b, f, l) in Calls(ranges, n) <==> b < n && ranges[b] == (f, l) && f >= 0
    ensures forall i, j :: 0 <= i < j < |Calls(ranges, n)| ==> Calls(ranges, n)[i].bank < Calls(ranges, n)[j].bank < n
    ensures forall i :: 0 <= i < |Calls(ranges, n)| ==> Calls(ranges, n)[i].bank < n
  {
    if n > 0 {
      CallsExact(ranges, n - 1);
    }
  }

  /** Every call but the last succeeded, and `rcode` is the result of the last one. */
  predicate StopsAtFailure(calls: seq<EraseCall>, hw: seq<int>, rcode: int) {
    && (forall k :: 0 <= k < |calls| ==> calls[k].bank < |hw|)
    && (forall k :: 0 <= k < |calls| - 1 ==> hw[calls[k].bank] == 0)
    && rcode == if calls == [] then 0 else hw[calls[|calls| - 1].bank]
  }

  /** `flash_sect_erase`: asks the hardware for exactly the planned ranges, stopping at its first failure
      (`hw` gives the result for each bank), or for none and fails. */
  method SectErase(banks: seq<Bank>, addrFirst: nat, addrLast: nat, hw: seq<int>)
    returns (rcode: int, calls: seq<EraseCall>)
    requires Wf(banks) && |hw| == |banks|
    ensures var plan := PlanFrom(banks, addrFirst, addrLast);
            if Succeeds(plan)
            then calls <= Calls(plan.ranges, |banks|) && StopsAtFailure(calls, hw, rcode) &&
                 (rcode == 0 ==> calls == Calls(plan.ranges, |banks|))
            else rcode != 0 && calls == []
  {
    var sFirst, sLast := new int[|banks|], new int[|banks|];
    var planned;
    rcode, planned := FillSectRanges(banks, addrFirst, addrLast, sFirst, sLast);
    RcodeIsBinary(banks, addrFirst, addrLast);
    ghost var plan := PlanFrom(banks, addrFirst, addrLast);
    calls := [];
    if planned != 0 && rcode == 0 {
      var bank := 0;
      while bank < |banks| && rcode == 0
        invariant 0 <= bank <= |banks|
        invariant calls == Calls(plan.ranges, bank)
        invariant StopsAtFailure(calls, hw, rcode)
      {
        assert (sFirst[..][bank], sLast[..][bank]) == plan.ranges[bank];
        if sFirst[bank] >= 0 {
          calls := calls + [EraseCall(bank, sFirst[bank], sLast[bank])];
          rcode := hw[bank];
        }
        bank := bank + 1;
      }
      CallsPrefix(plan.ranges, bank, |banks|);
    } else if rcode == 0 {
      rcode := 1;
    }
  }

  lemma {:induction false} CallsPrefix(ranges: seq<(int, int)>, n: nat, m: nat)
    requires n <= m <= |ranges|
    ensures Calls(ranges, n) <= Calls(ranges, m)
  {
    if n < m {
      CallsPrefix(ranges, n, m - 1);
    }
  }
}
