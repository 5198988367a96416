/**
  Sector planning (`flash_fill_sect_ranges` in `cmd_flash.c`): an address range
  is turned into one range of sectors per flash bank.  Addresses are 32-bit;
  the one place where the code can wrap around is written out.
 */
module FlashPlan {
  import opened Common

  /** `flash_info_t`: sector start addresses and total size; unknown banks are skipped. */
  datatype Bank = Bank(known: bool, start: seq<nat>, size: nat)

  /** A known bank has sectors in ascending order that end inside the 32-bit address space. */
  ghost predicate WfBank(b: Bank) {
    b.known ==>
      && 1 <= |b.start| <= 0x8000
      && (forall i, j :: 0 <= i < j < |b.start| ==> b.start[i] < b.start[j])
      && b.start[|b.start| - 1] < b.start[0] + b.size <= U32
  }

  ghost predicate Wf(banks: seq<Bank>) {
    forall i :: 0 <= i < |banks| ==> WfBank(banks[i])
  }

  function BankEnd(b: Bank): int
    requires |b.start| > 0
  {
    b.start[0] + b.size - 1
  }

  /** Last address of sector `s`. */
  function SectorEnd(b: Bank, s: nat): int
    requires s < |b.start|
  {
    if s == |b.start| - 1 then BankEnd(b)
    else
      var next: int := b.start[s + 1];
      next - 1
  }

  lemma SectorBounds(b: Bank, s: nat)
    requires WfBank(b) && b.known && s < |b.start|
    ensures b.start[0] <= b.start[s] <= SectorEnd(b, s) <= BankEnd(b) < U32
  {
  }

  // ---- searching one bank ----

  /** The last of the first `n` sectors that starts at `f`, or -1. */
  function StartsAt(b: Bank, f: nat, n: nat): (s: int)
    requires n <= |b.start|
    ensures -1 <= s < n
    ensures s >= 0 ==> b.start[s] == f
    ensures s < 0 ==> forall k :: 0 <= k < n ==> b.start[k] != f
  {
    if n == 0 then -1 else if b.start[n - 1] == f then n - 1 else StartsAt(b, f, n - 1)
  }

  /** The last of the first `n` sectors that ends at `l`, or -1. */
  function EndsAt(b: Bank, l: nat, n: nat): (s: int)
    requires n <= |b.start|
    ensures -1 <= s < n
    ensures s >= 0 ==> SectorEnd(b, s) == l
    ensures s < 0 ==> forall k :: 0 <= k < n ==> SectorEnd(b, k) != l
  {
    if n == 0 then -1 else if SectorEnd(b, n - 1) == l then n - 1 else EndsAt(b, l, n - 1)
  }

  // ---- the plan ----

  datatype Plan = Plan(rcode: int, ranges: seq<(int, int)>, count: int)

  const NONE := (-1, -1)

  /** The planning loop from some bank on, with `f` the next address still to be covered. */
  function PlanFrom(banks: seq<Bank>, f: nat, l: nat): (p: Plan)
    requires Wf(banks)
    ensures |p.ranges| == |banks| && p.count >= 0
  {
    if banks == [] then Plan(0, [], 0)
    else
      var b, rest := banks[0], banks[1..];
      if f > l || !b.known then Skip(NONE, PlanFrom(rest, f, l))
      else
        var sf, sl := StartsAt(b, f, |b.start|), EndsAt(b, l, |b.start|);
        if sf >= 0 then
          if sl < 0 && l <= BankEnd(b) then Fail((sf, sl), |rest|)
          else
            var last := if sl < 0 then |b.start| - 1 else sl;
            if last < sf then Fail((sf, last), |rest|)
            else
              var p := PlanFrom(rest, NextAddress(b, last), l);
              Plan(p.rcode, [(sf, last)] + p.ranges, p.count + (last - sf + 1))
        else if b.start[0] <= f < BankEnd(b) || sl >= 0 then Fail((sf, sl), |rest|)
        else Skip((sf, sl), PlanFrom(rest, f, l))
  }

  function Skip(r: (int, int), p: Plan): Plan {
    Plan(p.rcode, [r] + p.ranges, p.count)
  }

  function Fail(r: (int, int), others: nat): Plan {
    Plan(1, [r] + seq(others, _ => NONE), 0)
  }

  /** The address after sector `s`; one past the top of the address space is zero. */
  function NextAddress(b: Bank, s: nat): nat
    requires WfBank(b) && b.known && s < |b.start|
  {
    if s == |b.start| - 1 then (BankEnd(b) + 1) % U32 else b.start[s + 1]
  }

  /** The verdict on one known bank, for a range that is not empty.  A first address that starts a sector is taken up to the
      sector that ends at the last address, or to the end of the bank when the range goes on, and is an error otherwise.
      One that starts no sector is an error inside the bank, but not at the bank's very last address, and wherever the
      range ends with a sector of the bank. */
  lemma OneBank(b: Bank, f: nat, l: nat)
    requires WfBank(b) && b.known && f <= l
    ensures var p := PlanFrom([b], f, l);
            var n := |b.start|;
            var starts := exists s :: 0 <= s < n && b.start[s] == f;
            var ends := exists s :: 0 <= s < n && SectorEnd(b, s) == l;
            && (p.rcode == 0 || p.rcode == 1)
            && (p.rcode == 0 <==>
                  if starts then ends || l > BankEnd(b) else !ends && (f < b.start[0] || f >= BankEnd(b)))
            && (p.rcode == 0 && starts ==>
                  && p.count == p.ranges[0].1 - p.ranges[0].0 + 1
                  && b.start[p.ranges[0].0] == f && SectorEnd(b, p.ranges[0].1) == if ends then l else BankEnd(b))
            && (p.rcode == 0 && !starts ==> p.count == 0)
  {
    assert [b][1..] == [];
    var n := |b.start|;
    var sf, sl := StartsAt(b, f, n), EndsAt(b, l, n);
    if sf >= 0 && sl >= 0 {
      SectorBounds(b, sf);
      SectorBounds(b, sl);
    }
  }

  // ---- what a plan covers ----

  /** Range `r` of bank `b` names sectors of the bank. */
  predicate Used(b: Bank, r: (int, int)) {
    b.known && 0 <= r.0 <= r.1 < |b.start|
  }

  ghost predicate Covers(b: Bank, r: (int, int), x: int) {
    Used(b, r) && b.start[r.0] <= x <= SectorEnd(b, r.1)
  }

  ghost predicate Planned(banks: seq<Bank>, ranges: seq<(int, int)>, x: int)
    requires |banks| == |ranges|
  {
    exists i :: 0 <= i < |banks| && Covers(banks[i], ranges[i], x)
  }

  lemma PlannedCons(banks: seq<Bank>, ranges: seq<(int, int)>, x: int)
    requires |banks| == |ranges| > 0
    ensures Planned(banks, ranges, x) <==> Covers(banks[0], ranges[0], x) || Planned(banks[1..], ranges[1..], x)
  {
    if Planned(banks[1..], ranges[1..], x) {
      var i :| 0 <= i < |banks| - 1 && Covers(banks[1..][i], ranges[1..][i], x);
      assert Covers(banks[i + 1], ranges[i + 1], x);
    }
    if Planned(banks, ranges, x) && !Covers(banks[0], ranges[0], x) {
      var i :| 0 <= i < |banks| && Covers(banks[i], ranges[i], x);
      assert Covers(banks[1..][i - 1], ranges[1..][i - 1], x);
    }
  }

  /** Where planning stands after the first bank of a successful plan. */
  function After(b: Bank, r: (int, int), f: nat): nat
    requires WfBank(b)
  {
    if Used(b, r) then NextAddress(b, r.1) else f
  }

  lemma PlanHead(banks: seq<Bank>, f: nat, l: nat)
    requires Wf(banks) && banks != [] && PlanFrom(banks, f, l).rcode == 0
    ensures var p, b := PlanFrom(banks, f, l), banks[0];
            var q := PlanFrom(banks[1..], After(b, p.ranges[0], f), l);
            && p.ranges[1..] == q.ranges && q.rcode == 0
            && p.count == q.count + (if Used(b, p.ranges[0]) then p.ranges[0].1 - p.ranges[0].0 + 1 else 0)
            && (Used(b, p.ranges[0]) ==>
                  b.start[p.ranges[0].0] == f <= SectorEnd(b, p.ranges[0].1) <= l)
  {
    var p, b := PlanFrom(banks, f, l), banks[0];
    if Used(b, p.ranges[0]) {
      SectorBounds(b, p.ranges[0].0);
      SectorBounds(b, p.ranges[0].1);
    }
  }

  lemma NextIsPastEnd(b: Bank, s: nat)
    requires WfBank(b) && b.known && s < |b.start| && SectorEnd(b, s) < U32 - 1
    ensures NextAddress(b, s) == SectorEnd(b, s) + 1
  {
    SectorBounds(b, s);
  }

  // ---- contiguous banks ----

  /** The known banks follow each other without gaps from address `a` up. */
  ghost predicate Contiguous(banks: seq<Bank>, a: nat)
    requires Wf(banks)
  {
    banks == [] || (
      if banks[0].known then banks[0].start[0] == a && Contiguous(banks[1..], BankEnd(banks[0]) + 1)
      else Contiguous(banks[1..], a))
  }

  /** First address above the flash. */
  ghost function Top(banks: seq<Bank>, a: nat): nat
    requires Wf(banks)
  {
    if banks == [] then a
    else if banks[0].known then Top(banks[1..], BankEnd(banks[0]) + 1)
    else Top(banks[1..], a)
  }

  ghost predicate StartsSector(banks: seq<Bank>, f: nat) {
    exists i :: 0 <= i < |banks| && banks[i].known && StartsAt(banks[i], f, |banks[i].start|) >= 0
  }

  ghost predicate EndsSector(banks: seq<Bank>, l: nat) {
    exists i :: 0 <= i < |banks| && banks[i].known && EndsAt(banks[i], l, |banks[i].start|) >= 0
  }

  lemma StartsCons(banks: seq<Bank>, f: nat)
    requires banks != []
    ensures StartsSector(banks, f) <==>
            (banks[0].known && StartsAt(banks[0], f, |banks[0].start|) >= 0) || StartsSector(banks[1..], f)
  {
    if StartsSector(banks[1..], f) {
      var i :| 0 <= i < |banks| - 1 && banks[1..][i].known && StartsAt(banks[1..][i], f, |banks[1..][i].start|) >= 0;
      assert banks[1..][i] == banks[i + 1];
    }
    if i :| 0 <= i < |banks| && banks[i].known && StartsAt(banks[i], f, |banks[i].start|) >= 0 {
      assert i > 0 ==> banks[1..][i - 1] == banks[i];
    }
  }

  lemma EndsCons(banks: seq<Bank>, l: nat)
    requires banks != []
    ensures EndsSector(banks, l) <==>
            (banks[0].known && EndsAt(banks[0], l, |banks[0].start|) >= 0) || EndsSector(banks[1..], l)
  {
    if EndsSector(banks[1..], l) {
      var i :| 0 <= i < |banks| - 1 && banks[1..][i].known && EndsAt(banks[1..][i], l, |banks[1..][i].start|) >= 0;
      assert banks[1..][i] == banks[i + 1];
    }
    if i :| 0 <= i < |banks| && banks[i].known && EndsAt(banks[i], l, |banks[i].start|) >= 0 {
      assert i > 0 ==> banks[1..][i - 1] == banks[i];
    }
  }

  /** Sectors start and end inside their bank. */
  lemma InBank(b: Bank, x: nat)
    requires WfBank(b) && b.known
    ensures StartsAt(b, x, |b.start|) >= 0 ==> b.start[0] <= x <= BankEnd(b)
    ensures EndsAt(b, x, |b.start|) >= 0 ==> b.start[0] <= x <= BankEnd(b)
  {
    var s, e := StartsAt(b, x, |b.start|), EndsAt(b, x, |b.start|);
    if s >= 0 {
      SectorBounds(b, s);
    }
    if e >= 0 {
      SectorBounds(b, e);
    }
  }

  lemma {:induction false} AboveBase(banks: seq<Bank>, a: nat, x: nat)
    requires Wf(banks) && Contiguous(banks, a)
    ensures a <= Top(banks, a)
    ensures StartsSector(banks, x) ==> a <= x
    ensures EndsSector(banks, x) ==> a <= x
  {
    if banks != [] {
      var b := banks[0];
      if b.known {
        InBank(b, x);
      }
      AboveBase(banks[1..], if b.known then BankEnd(b) + 1 else a, x);
      StartsCons(banks, x);
      EndsCons(banks, x);
    }
  }

  ghost predicate Idle(banks: seq<Bank>, p: Plan)
    requires |p.ranges| == |banks|
  {
    p.count == 0 && forall x :: !Planned(banks, p.ranges, x)
  }

  lemma IdleCons(banks: seq<Bank>, p: Plan, q: Plan)
    requires banks != [] && |p.ranges| == |banks| && |q.ranges| == |banks| - 1
    requires p.count == q.count && p.ranges[1..] == q.ranges && !Used(banks[0], p.ranges[0])
    requires Idle(banks[1..], q)
    ensures Idle(banks, p)
  {
    forall x ensures !Planned(banks, p.ranges, x) {
      PlannedCons(banks, p.ranges, x);
    }
  }

  /** Once the range is used up, the remaining banks are left alone. */
  lemma {:induction false} NothingLeft(banks: seq<Bank>, f: nat, l: nat)
    requires Wf(banks) && f > l
    ensures PlanFrom(banks, f, l).rcode == 0 && Idle(banks, PlanFrom(banks, f, l))
  {
    if banks != [] {
      NothingLeft(banks[1..], f, l);
      IdleCons(banks, PlanFrom(banks, f, l), PlanFrom(banks[1..], f, l));
    }
  }

  /** No bank can follow one that ends at the top of the address space. */
  lemma {:induction false} NothingAbove(banks: seq<Bank>, f: nat, l: nat)
    requires Wf(banks) && Contiguous(banks, U32)
    ensures PlanFrom(banks, f, l).rcode == 0 && Idle(banks, PlanFrom(banks, f, l))
  {
    if banks != [] {
      assert WfBank(banks[0]);
      assert !banks[0].known;
      NothingAbove(banks[1..], f, l);
      IdleCons(banks, PlanFrom(banks, f, l), PlanFrom(banks[1..], f, l));
    }
  }

  /** Once the banks lie above the start address, nothing is ever planned. */
  lemma {:induction false} StartMissed(banks: seq<Bank>, a: nat, f: nat, l: nat)
    requires Wf(banks) && Contiguous(banks, a) && f < a
    ensures PlanFrom(banks, f, l).count == 0
  {
    if banks != [] {
      var b := banks[0];
      if b.known {
        InBank(b, f);
      }
      StartMissed(banks[1..], if b.known then BankEnd(b) + 1 else a, f, l);
    }
  }

  ghost predicate Succeeds(p: Plan) {
    p.rcode == 0 && p.count > 0
  }

  /** What an exact plan is: it succeeds iff both ends lie on sector boundaries, and then covers the range and
      nothing else. */
  ghost predicate ExactPlan(banks: seq<Bank>, p: Plan, f: nat, l: nat)
    requires |p.ranges| == |banks|
  {
    && (Succeeds(p) <==> StartsSector(banks, f) && EndsSector(banks, l))
    && (Succeeds(p) ==> forall x :: Planned(banks, p.ranges, x) <==> f <= x <= l)
  }

  ghost predicate ExactOn(banks: seq<Bank>, f: nat, l: nat)
    requires Wf(banks)
  {
    ExactPlan(banks, PlanFrom(banks, f, l), f, l)
  }

  /** For known banks mapped contiguously upward and a range inside the flash, planning is exact. */
  lemma {:induction false} PlanExact(banks: seq<Bank>, a: nat, f: nat, l: nat)
    requires Wf(banks) && Contiguous(banks, a)
    requires a <= f <= l < Top(banks, a)
    ensures ExactOn(banks, f, l)
  {
    var b, rest := banks[0], banks[1..];
    StartsCons(banks, f);
    EndsCons(banks, l);
    if !b.known {
      PlanExact(rest, a, f, l);
      ExactSkipped(banks, f, l);
    } else {
      InBank(b, f);
      InBank(b, l);
      var next := BankEnd(b) + 1;
      if f >= next {
        PlanExact(rest, next, f, l);
        ExactSkipped(banks, f, l);
      } else {
        AboveBase(rest, next, f);
        AboveBase(rest, next, l);
        if StartsAt(b, f, |b.start|) < 0 {
          StartMissed(rest, next, f, l);
        } else if l <= BankEnd(b) {
          ExactInside(banks, a, f, l);
        } else {
          PlanExact(rest, next, next, l);
          StartFound(rest, next, l);
          ExactAcross(banks, f, l);
        }
      }
    }
  }

  /** Planning that begins at the first address of the banks finds its start. */
  lemma {:induction false} StartFound(banks: seq<Bank>, a: nat, l: nat)
    requires Wf(banks) && Contiguous(banks, a) && a <= l < Top(banks, a)
    ensures l < U32 && StartsSector(banks, a)
    ensures PlanFrom(banks, a, l).rcode == 0 ==> PlanFrom(banks, a, l).count > 0
  {
    var b := banks[0];
    StartsCons(banks, a);
    if b.known {
      TopBound(banks[1..], BankEnd(b) + 1);
    } else {
      StartFound(banks[1..], a, l);
    }
  }

  lemma {:induction false} TopBound(banks: seq<Bank>, a: nat)
    requires Wf(banks) && a <= U32
    ensures Top(banks, a) <= U32
  {
    if banks != [] {
      assert WfBank(banks[0]);
      TopBound(banks[1..], if banks[0].known then BankEnd(banks[0]) + 1 else a);
    }
  }

  lemma ExactSkipped(banks: seq<Bank>, f: nat, l: nat)
    requires Wf(banks) && banks != [] && f <= l
    requires banks[0].known ==> f > BankEnd(banks[0])
    requires ExactOn(banks[1..], f, l)
    ensures ExactOn(banks, f, l)
  {
    var p, q := PlanFrom(banks, f, l), PlanFrom(banks[1..], f, l);
    StartsCons(banks, f);
    EndsCons(banks, l);
    if banks[0].known {
      InBank(banks[0], f);
      InBank(banks[0], l);
    }
    assert p.ranges[1..] == q.ranges && !Used(banks[0], p.ranges[0]);
    forall x ensures Planned(banks, p.ranges, x) <==> Planned(banks[1..], q.ranges, x) {
      PlannedCons(banks, p.ranges, x);
    }
  }

  /** One unfolding of the planning loop on a bank that takes part. */
  lemma UseFirst(banks: seq<Bank>, f: nat, l: nat, last: nat)
    requires Wf(banks) && banks != [] && banks[0].known && f <= l
    requires var b := banks[0];
             var sf, sl := StartsAt(b, f, |b.start|), EndsAt(b, l, |b.start|);
             && 0 <= sf <= last < |b.start|
             && (if sl >= 0 then last == sl else l > BankEnd(b) && last == |b.start| - 1)
    ensures var b, p := banks[0], PlanFrom(banks, f, l);
            var sf, q := StartsAt(b, f, |b.start|), PlanFrom(banks[1..], NextAddress(b, last), l);
            && p.ranges[0] == (sf, last) && p.ranges[1..] == q.ranges
            && p.rcode == q.rcode && p.count > q.count
  {
  }

  lemma PlannedUsed(banks: seq<Bank>, ranges: seq<(int, int)>, f: nat, end: int)
    requires |banks| == |ranges| > 0 && Used(banks[0], ranges[0]) && banks[0].start[ranges[0].0] == f
    requires end == SectorEnd(banks[0], ranges[0].1)
    ensures forall x :: Planned(banks, ranges, x) <==> f <= x <= end || Planned(banks[1..], ranges[1..], x)
  {
    forall x ensures Planned(banks, ranges, x) <==> f <= x <= end || Planned(banks[1..], ranges[1..], x) {
      PlannedCons(banks, ranges, x);
    }
  }

  /** Both ends in the first bank. */
  lemma ExactInside(banks: seq<Bank>, a: nat, f: nat, l: nat)
    requires Wf(banks) && banks != [] && Contiguous(banks, a) && banks[0].known
    requires f <= l <= BankEnd(banks[0]) && StartsAt(banks[0], f, |banks[0].start|) >= 0
    ensures ExactOn(banks, f, l)
  {
    var b, rest := banks[0], banks[1..];
    var sf, sl := StartsAt(b, f, |b.start|), EndsAt(b, l, |b.start|);
    StartsCons(banks, f);
    EndsCons(banks, l);
    AboveBase(rest, BankEnd(b) + 1, l);
    if sl >= 0 {
      SectorOrder(b, sf, sl);
      var p, next := PlanFrom(banks, f, l), NextAddress(b, sl);
      if l == U32 - 1 {
        NothingAbove(rest, next, l);
      } else {
        NextIsPastEnd(b, sl);
        NothingLeft(rest, next, l);
      }
      UseFirst(banks, f, l, sl);
      PlannedUsed(banks, p.ranges, f, l);
    }
  }

  lemma SectorOrder(b: Bank, s: nat, e: nat)
    requires WfBank(b) && b.known && s < |b.start| && e < |b.start| && b.start[s] <= SectorEnd(b, e)
    ensures s <= e
  {
  }

  /** The range starts in the first bank and goes on in the next. */
  lemma ExactAcross(banks: seq<Bank>, f: nat, l: nat)
    requires Wf(banks) && banks != [] && banks[0].known
    requires f <= BankEnd(banks[0]) < l < U32 && StartsAt(banks[0], f, |banks[0].start|) >= 0
    requires ExactOn(banks[1..], BankEnd(banks[0]) + 1, l)
    requires StartsSector(banks[1..], BankEnd(banks[0]) + 1)
    requires var q := PlanFrom(banks[1..], BankEnd(banks[0]) + 1, l); q.rcode == 0 ==> q.count > 0
    ensures ExactOn(banks, f, l)
  {
    var b, rest, n := banks[0], banks[1..], |banks[0].start|;
    var sf := StartsAt(b, f, n);
    StartsCons(banks, f);
    EndsCons(banks, l);
    InBank(b, l);
    NextIsPastEnd(b, n - 1);
    UseFirst(banks, f, l, n - 1);
    var p, q := PlanFrom(banks, f, l), PlanFrom(rest, BankEnd(b) + 1, l);
    PlannedUsed(banks, p.ranges, f, BankEnd(b));
    CombineExact(banks, p, q, f, BankEnd(b) + 1, l);
  }

  lemma CombineExact(banks: seq<Bank>, p: Plan, q: Plan, f: nat, m: nat, l: nat)
    requires |p.ranges| == |banks| == |q.ranges| + 1 && f <= m <= l
    requires p.rcode == q.rcode && p.count > q.count >= 0 && (q.rcode == 0 ==> q.count > 0)
    requires ExactPlan(banks[1..], q, m, l) && StartsSector(banks[1..], m)
    requires StartsSector(banks, f) && (EndsSector(banks, l) <==> EndsSector(banks[1..], l))
    requires forall x :: Planned(banks, p.ranges, x) <==> f <= x < m || Planned(banks[1..], q.ranges, x)
    ensures ExactPlan(banks, p, f, l)
  {
  }

  // ---- the top of the address space ----

  /** With a bank at the top and a later bank at address zero, planning the top bank also plans the other one:
      the next address wraps to zero and the loop goes on. */
  lemma WrapPlansMore()
    ensures var banks := [Bank(true, [0xffff0000], 0x10000), Bank(true, [0], 0x10000)];
            && Wf(banks)
            && Succeeds(PlanFrom(banks, 0xffff0000, 0xffffffff))
            && Planned(banks, PlanFrom(banks, 0xffff0000, 0xffffffff).ranges, 0)
  {
    var top, low := Bank(true, [0xffff0000], 0x10000), Bank(true, [0], 0x10000);
    var banks := [top, low];
    assert WfBank(top) && WfBank(low);
    assert banks[1..] == [low] && [low][1..] == [];
    assert StartsAt(top, 0xffff0000, 1) == 0 && EndsAt(top, 0xffffffff, 1) == 0;
    assert StartsAt(low, 0, 1) == 0 && EndsAt(low, 0xffffffff, 1) < 0;
    UseFirst(banks, 0xffff0000, 0xffffffff, 0);
    UseFirst([low], 0, 0xffffffff, 0);
    var p := PlanFrom(banks, 0xffff0000, 0xffffffff);
    assert p.ranges[1] == p.ranges[1..][0] == (0, 0);
    assert Covers(banks[1], p.ranges[1], 0);
  }

  /** The bank's last address is the last one there is. */
  ghost predicate EndsAtTop(b: Bank) {
    b.known && |b.start| > 0 && BankEnd(b) == U32 - 1
  }

  ghost predicate StartsAtZero(b: Bank) {
    b.known && |b.start| > 0 && b.start[0] == 0
  }

  /** No bank at address zero comes after a bank that ends at the top. */
  ghost predicate WrapFree(banks: seq<Bank>) {
    forall i, j :: 0 <= i < j < |banks| && EndsAtTop(banks[i]) ==> !StartsAtZero(banks[j])
  }

  /** Two banks share no address. */
  ghost predicate Apart(a: Bank, b: Bank) {
    a.known && b.known && |a.start| > 0 && |b.start| > 0 ==> BankEnd(a) < b.start[0] || BankEnd(b) < a.start[0]
  }

  ghost predicate Disjoint(banks: seq<Bank>) {
    forall i, j :: 0 <= i < j < |banks| ==> Apart(banks[i], banks[j])
  }

  /** The plan covers one run of addresses that starts at `f` and stays inside the range. */
  ghost predicate IsRun(banks: seq<Bank>, f: nat, l: nat)
    requires Wf(banks)
  {
    exists g: nat ::
      && f <= g && (g <= l + 1 || g == f)
      && (PlanFrom(banks, f, l).count > 0 <==> g > f)
      && CoversRun(banks, PlanFrom(banks, f, l).ranges, f, g)
  }

  ghost predicate CoversRun(banks: seq<Bank>, ranges: seq<(int, int)>, f: nat, g: nat)
    requires |banks| == |ranges|
  {
    forall x :: Planned(banks, ranges, x) <==> f <= x < g
  }

  /** With no bank at zero, planning on from zero finds nothing. */
  lemma {:induction false} NothingAtZero(banks: seq<Bank>, l: nat)
    requires Wf(banks) && PlanFrom(banks, 0, l).rcode == 0
    requires forall i :: 0 <= i < |banks| ==> !StartsAtZero(banks[i])
    ensures Idle(banks, PlanFrom(banks, 0, l))
  {
    if banks != [] {
      var p, b := PlanFrom(banks, 0, l), banks[0];
      assert WfBank(b);
      PlanHead(banks, 0, l);
      assert !Used(b, p.ranges[0]);
      NothingAtZero(banks[1..], l);
      IdleCons(banks, p, PlanFrom(banks[1..], 0, l));
    }
  }

  /** Any bank order: a successful plan covers one run of addresses that starts at `f` and stays inside the
      range, unless planning wraps around from the top of the address space to a bank at zero. */
  lemma {:induction false} RunUnlessWrapped(banks: seq<Bank>, f: nat, l: nat) returns (g: nat)
    requires Wf(banks) && l < U32 && (l < U32 - 1 || WrapFree(banks))
    requires PlanFrom(banks, f, l).rcode == 0
    ensures f <= g && (g <= l + 1 || g == f)
    ensures CoversRun(banks, PlanFrom(banks, f, l).ranges, f, g)
    ensures PlanFrom(banks, f, l).count > 0 <==> g > f
  {
    var p := PlanFrom(banks, f, l);
    if banks == [] {
      g := f;
    } else {
      PlanHead(banks, f, l);
      var b, r := banks[0], p.ranges[0];
      var rest := banks[1..];
      if Used(b, r) && SectorEnd(b, r.1) == U32 - 1 {
        SectorBounds(b, r.1);
        TopSector(b, r.1);
        assert EndsAtTop(banks[0]);
        assert forall i :: 0 <= i < |rest| ==> rest[i] == banks[i + 1];
        NothingAtZero(rest, l);
        g := U32;
      } else {
        if Used(b, r) {
          SectorBounds(b, r.1);
          NextIsPastEnd(b, r.1);
        }
        assert forall i, j :: 0 <= i < j < |rest| ==> rest[i] == banks[i + 1] && rest[j] == banks[j + 1];
        g := RunUnlessWrapped(rest, After(b, r, f), l);
      }
      forall x
        ensures Planned(banks, p.ranges, x) <==> f <= x < g
      {
        PlannedCons(banks, p.ranges, x);
      }
    }
  }

  lemma TopSector(b: Bank, s: nat)
    requires WfBank(b) && b.known && s < |b.start| && SectorEnd(b, s) == U32 - 1
    ensures s == |b.start| - 1 && NextAddress(b, s) == 0 && EndsAtTop(b)
  {
    if s < |b.start| - 1 {
      SectorBounds(b, s + 1);
    }
  }

  /** No bank has `f` behind its first address. */
  ghost predicate NotInside(banks: seq<Bank>, f: nat) {
    forall i :: 0 <= i < |banks| && banks[i].known && |banks[i].start| > 0 ==>
      f <= banks[i].start[0] || f > BankEnd(banks[i])
  }

  ghost predicate NoneAtTop(banks: seq<Bank>) {
    forall i :: 0 <= i < |banks| ==> !EndsAtTop(banks[i])
  }

  lemma NoEndAtTop(b: Bank)
    requires WfBank(b) && b.known && !EndsAtTop(b)
    ensures EndsAt(b, U32 - 1, |b.start|) < 0 && BankEnd(b) < U32 - 1
  {
    var s := EndsAt(b, U32 - 1, |b.start|);
    if s >= 0 {
      TopSector(b, s);
    }
  }

  lemma RestOf(banks: seq<Bank>)
    requires Wf(banks) && banks != [] && Disjoint(banks)
    ensures Wf(banks[1..]) && Disjoint(banks[1..])
    ensures forall i :: 0 <= i < |banks| - 1 ==> Apart(banks[0], banks[1..][i])
    ensures NoneAtTop(banks) ==> NoneAtTop(banks[1..])
  {
    var rest := banks[1..];
    assert forall i :: 0 <= i < |rest| ==> rest[i] == banks[i + 1];
    forall i, j | 0 <= i < j < |rest|
      ensures Apart(rest[i], rest[j])
    {
      assert Apart(banks[i + 1], banks[j + 1]);
    }
  }

  /** A bank that has no sector starting at `f`, none ending at the top, and does not contain `f` is passed over. */
  lemma PassOver(banks: seq<Bank>, f: nat)
    requires Wf(banks) && banks != [] && f < U32
    requires banks[0].known ==>
               && (f < banks[0].start[0] || f > BankEnd(banks[0]))
               && !EndsAtTop(banks[0])
    ensures var p, q := PlanFrom(banks, f, U32 - 1), PlanFrom(banks[1..], f, U32 - 1);
            p.rcode == q.rcode && p.ranges[1..] == q.ranges
  {
    if banks[0].known {
      NoEndAtTop(banks[0]);
      InBank(banks[0], f);
    }
  }

  /** A bank that starts at `f` is taken whole when the range goes on above it. */
  lemma TakeWhole(banks: seq<Bank>, f: nat)
    requires Wf(banks) && banks != [] && banks[0].known && banks[0].start[0] == f && !EndsAtTop(banks[0])
    ensures var b, p := banks[0], PlanFrom(banks, f, U32 - 1);
            var q := PlanFrom(banks[1..], BankEnd(b) + 1, U32 - 1);
            && p.rcode == q.rcode && p.ranges[1..] == q.ranges && p.ranges[0] == (0, |b.start| - 1)
  {
    var b := banks[0];
    NoEndAtTop(b);
    assert StartsAt(b, f, |b.start|) == 0;
    UseFirst(banks, f, U32 - 1, |b.start| - 1);
  }

  /** Planning that starts between disjoint banks, none of which ends at the top, never fails, and from zero it
      plans a bank at zero. */
  lemma {:induction false} NeverFails(banks: seq<Bank>, f: nat)
    requires Wf(banks) && Disjoint(banks) && NoneAtTop(banks) && NotInside(banks, f) && f < U32
    ensures PlanFrom(banks, f, U32 - 1).rcode == 0
    ensures f == 0 && (exists j :: 0 <= j < |banks| && StartsAtZero(banks[j])) ==>
              Planned(banks, PlanFrom(banks, f, U32 - 1).ranges, 0)
  {
    if banks != [] {
      var b, rest, p := banks[0], banks[1..], PlanFrom(banks, f, U32 - 1);
      assert WfBank(b);
      RestOf(banks);
      PlannedCons(banks, p.ranges, 0);
      assert forall i :: 0 <= i < |rest| ==> rest[i] == banks[i + 1];
      if b.known && b.start[0] == f {
        TakeWhole(banks, f);
        NoEndAtTop(b);
        NeverFails(rest, BankEnd(b) + 1);
      } else {
        PassOver(banks, f);
        NeverFails(rest, f);
      }
    }
  }

  function LastSector(b: Bank): nat
    requires |b.start| > 0
  {
    b.start[|b.start| - 1]
  }

  /** The first bank ends at the top: its last sector is planned, and after it the bank at zero. */
  lemma EscapesHere(banks: seq<Bank>, j: nat)
    requires Wf(banks) && Disjoint(banks) && 0 < j < |banks| && EndsAtTop(banks[0]) && StartsAtZero(banks[j])
    ensures var p := PlanFrom(banks, LastSector(banks[0]), U32 - 1);
            p.rcode == 0 && Planned(banks, p.ranges, 0)
  {
    var b, rest := banks[0], banks[1..];
    var f := LastSector(b);
    assert WfBank(b);
    assert StartsAt(b, f, |b.start|) == |b.start| - 1;
    assert EndsAt(b, U32 - 1, |b.start|) == |b.start| - 1;
    UseFirst(banks, f, U32 - 1, |b.start| - 1);
    hide PlanFrom, StartsAt, EndsAt;
    RestOf(banks);
    AboveNone(b, rest);
    assert rest[j - 1] == banks[j];
    NeverFails(rest, 0);
    PlannedCons(banks, PlanFrom(banks, f, U32 - 1).ranges, 0);
  }

  lemma AboveNone(b: Bank, rest: seq<Bank>)
    requires Wf(rest) && EndsAtTop(b) && forall k :: 0 <= k < |rest| ==> Apart(b, rest[k])
    requires WfBank(b)
    ensures NoneAtTop(rest) && NotInside(rest, 0)
  {
    forall k | 0 <= k < |rest|
      ensures !EndsAtTop(rest[k])
    {
      assert WfBank(rest[k]) && Apart(b, rest[k]);
    }
  }

  /** The other direction: disjoint banks that are not free of wrapping have a range whose plan succeeds and
      leaves the range. */
  lemma {:induction false} WrapEscapes(banks: seq<Bank>, i: nat, j: nat)
    requires Wf(banks) && Disjoint(banks) && i < j < |banks| && EndsAtTop(banks[i]) && StartsAtZero(banks[j])
    ensures var p := PlanFrom(banks, LastSector(banks[i]), U32 - 1);
            p.rcode == 0 && Planned(banks, p.ranges, 0)
  {
    hide PlanFrom, StartsAt, EndsAt;
    if i == 0 {
      EscapesHere(banks, j);
    } else {
      var f := LastSector(banks[i]);
      AwayFrom(banks[0], banks[i]);
      PassOver(banks, f);
      RestOf(banks);
      assert banks[1..][i - 1] == banks[i] && banks[1..][j - 1] == banks[j];
      WrapEscapes(banks[1..], i - 1, j - 1);
      PlannedCons(banks, PlanFrom(banks, f, U32 - 1).ranges, 0);
    }
  }

  lemma AwayFrom(b: Bank, c: Bank)
    requires WfBank(b) && WfBank(c) && Apart(b, c) && EndsAtTop(c)
    ensures c.start[0] <= LastSector(c) < U32
    ensures b.known ==> LastSector(c) > BankEnd(b) && !EndsAtTop(b)
    ensures StartsAtZero(b) ==> LastSector(c) > 0
  {
  }

  /** For disjoint banks in any order: every successful plan up to `l` is a run inside its range exactly when `l`
      is below the top of the address space or no bank at zero follows a bank at the top. */
  lemma RunExact(banks: seq<Bank>, l: nat)
    requires Wf(banks) && Disjoint(banks) && l < U32
    ensures (forall f: nat :: f < U32 && PlanFrom(banks, f, l).rcode == 0 ==> IsRun(banks, f, l))
            <==> l < U32 - 1 || WrapFree(banks)
  {
    if l < U32 - 1 || WrapFree(banks) {
      forall f: nat | f < U32 && PlanFrom(banks, f, l).rcode == 0
        ensures IsRun(banks, f, l)
      {
        var g := RunUnlessWrapped(banks, f, l);
      }
    } else {
      var i, j :| 0 <= i < j < |banks| && EndsAtTop(banks[i]) && StartsAtZero(banks[j]);
      WrapEscapes(banks, i, j);
      assert Apart(banks[i], banks[j]);
      AwayFrom(banks[j], banks[i]);
      NotRun(banks, LastSector(banks[i]), l);
    }
  }

  lemma NotRun(banks: seq<Bank>, f: nat, l: nat)
    requires Wf(banks) && f > 0 && Planned(banks, PlanFrom(banks, f, l).ranges, 0)
    ensures !IsRun(banks, f, l)
  {
    assert forall g: nat :: !CoversRun(banks, PlanFrom(banks, f, l).ranges, f, g);
  }
}
