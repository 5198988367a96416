/**
  Sorted insertion of partitions one after the other (`cmd_jffs2.c`), when some
  of them start at the same offset: each group of equal offsets is turned round.
 */
module MtdTies {
  import opened Common
  import opened MtdText
  import opened MtdPart
  import opened MtdTable

  /** The first and the last partition of the group of equal offsets around `i`. */
  function GroupStart(parts: seq<Part>, i: nat): (lo: nat)
    requires i < |parts|
    ensures lo <= i
  {
    if i > 0 && parts[i - 1].offset == parts[i].offset then GroupStart(parts, i - 1) else i
  }

  function GroupEnd(parts: seq<Part>, i: nat): (hi: nat)
    requires i < |parts|
    ensures i <= hi < |parts|
    decreases |parts| - i
  {
    if i + 1 < |parts| && parts[i + 1].offset == parts[i].offset then GroupEnd(parts, i + 1) else i
  }

  /** `lo` to `hi` is the whole group of `i`. */
  ghost predicate IsGroup(parts: seq<Part>, i: nat, lo: nat, hi: nat) {
    && lo <= i <= hi < |parts|
    && (forall k :: lo <= k <= hi ==> parts[k].offset == parts[i].offset)
    && (lo > 0 ==> parts[lo - 1].offset != parts[i].offset)
    && (hi + 1 < |parts| ==> parts[hi + 1].offset != parts[i].offset)
  }

  lemma {:induction false} StartInGroup(parts: seq<Part>, i: nat)
    requires i < |parts|
    ensures var lo := GroupStart(parts, i);
            && (forall k :: lo <= k <= i ==> parts[k].offset == parts[i].offset)
            && (lo > 0 ==> parts[lo - 1].offset != parts[i].offset)
  {
    if i > 0 && parts[i - 1].offset == parts[i].offset {
      StartInGroup(parts, i - 1);
    }
  }

  lemma {:induction false} EndInGroup(parts: seq<Part>, i: nat)
    requires i < |parts|
    ensures var hi := GroupEnd(parts, i);
            && (forall k :: i <= k <= hi ==> parts[k].offset == parts[i].offset)
            && (hi + 1 < |parts| ==> parts[hi + 1].offset != parts[i].offset)
    decreases |parts| - i
  {
    if i + 1 < |parts| && parts[i + 1].offset == parts[i].offset {
      EndInGroup(parts, i + 1);
    }
  }

  /** There is one such group. */
  lemma GroupIs(parts: seq<Part>, i: nat, lo: nat, hi: nat)
    requires i < |parts|
    ensures IsGroup(parts, i, lo, hi) <==> lo == GroupStart(parts, i) && hi == GroupEnd(parts, i)
  {
    StartInGroup(parts, i);
    EndInGroup(parts, i);
  }

  /** Position `i` seen from the other end of its group. */
  function Opposite(parts: seq<Part>, i: nat): (j: nat)
    requires i < |parts|
    ensures j < |parts|
  {
    GroupStart(parts, i) + GroupEnd(parts, i) - i
  }

  lemma OppositeIs(parts: seq<Part>, i: nat, lo: nat, hi: nat)
    requires IsGroup(parts, i, lo, hi)
    ensures Opposite(parts, i) == lo + hi - i
  {
    GroupIs(parts, i, lo, hi);
  }

  /** Every group of equal offsets turned round. */
  function Mirror(parts: seq<Part>): (r: seq<Part>)
    ensures |r| == |parts|
  {
    seq(|parts|, i requires 0 <= i < |parts| => parts[Opposite(parts, i)])
  }

  lemma MirrorOffsets(parts: seq<Part>, i: nat)
    requires i < |parts|
    ensures Mirror(parts)[i] == parts[Opposite(parts, i)]
    ensures Mirror(parts)[i].offset == parts[i].offset
  {
    GroupIs(parts, i, GroupStart(parts, i), GroupEnd(parts, i));
  }

  lemma MirrorDistinct(parts: seq<Part>)
    requires Distinct(parts)
    ensures Mirror(parts) == parts
  {
    forall i | 0 <= i < |parts|
      ensures Mirror(parts)[i] == parts[i]
    {
      OppositeIs(parts, i, i, i);
    }
  }

  /** Turning round twice gives the list back. */
  lemma MirrorTwice(parts: seq<Part>)
    ensures Mirror(Mirror(parts)) == parts
  {
    var m := Mirror(parts);
    forall i | 0 <= i < |parts|
      ensures Mirror(m)[i] == parts[i]
    {
      MirrorTwiceAt(parts, m, i);
    }
  }

  lemma MirrorTwiceAt(parts: seq<Part>, m: seq<Part>, i: nat)
    requires i < |parts| && m == Mirror(parts)
    ensures Mirror(m)[i] == parts[i]
  {
    hide GroupStart, GroupEnd, IsGroup, Mirror;
    var lo, hi := GroupStart(parts, i), GroupEnd(parts, i);
    GroupIs(parts, i, lo, hi);
    SameGroup(parts, m, i, lo, hi);
    AtOpposite(m, i, lo, hi);
    AtOpposite(parts, lo + hi - i, lo, hi);
  }

  lemma SameGroup(parts: seq<Part>, m: seq<Part>, i: nat, lo: nat, hi: nat)
    requires IsGroup(parts, i, lo, hi) && m == Mirror(parts)
    ensures IsGroup(m, i, lo, hi) && IsGroup(parts, lo + hi - i, lo, hi)
  {
    forall k | 0 <= k < |parts|
      ensures m[k].offset == parts[k].offset
    {
      MirrorOffsets(parts, k);
    }
  }

  // ---- one more partition behind the others ----

  /** Below the last group of an ascending list all offsets are smaller. */
  lemma LastGroup(parts: seq<Part>, k: nat)
    requires Sorted(parts) && parts != [] && k == GroupStart(parts, |parts| - 1)
    ensures forall i :: 0 <= i < k ==> parts[i].offset < parts[|parts| - 1].offset
    ensures forall i :: k <= i < |parts| ==> parts[i].offset == parts[|parts| - 1].offset
  {
    var n := |parts| - 1;
    StartInGroup(parts, n);
    hide GroupStart;
    forall i | 0 <= i < k
      ensures parts[i].offset < parts[n].offset
    {
      assert i < k - 1 ==> parts[i].offset <= parts[k - 1].offset;
      assert parts[k - 1].offset <= parts[n].offset;
    }
  }

  /** It starts where sorted insertion puts the last partition. */
  lemma InsertsAtGroup(parts: seq<Part>, init: seq<Part>, k: nat)
    requires Sorted(parts) && parts != [] && init == parts[..|parts| - 1]
    requires k == GroupStart(parts, |parts| - 1)
    ensures InsertIndex(Mirror(init), parts[|parts| - 1].offset) == k
  {
    var p, m := parts[|parts| - 1], Mirror(init);
    LastGroup(parts, k);
    hide GroupStart, Mirror, Sorted, InsertIndex;
    forall i | 0 <= i < |init|
      ensures m[i].offset == parts[i].offset
    {
      MirrorOffsets(init, i);
    }
    IndexIs(m, p.offset, k);
  }

  lemma PrefixGroup(parts: seq<Part>, init: seq<Part>, i: nat, lo: nat, hi: nat)
    requires IsGroup(parts, i, lo, hi) && hi < |init| && init <= parts
    ensures IsGroup(init, i, lo, hi)
  {
  }

  lemma MirrorBefore(parts: seq<Part>, init: seq<Part>, k: nat, i: nat)
    requires Sorted(parts) && parts != [] && init == parts[..|parts| - 1]
    requires k == GroupStart(parts, |parts| - 1) && i < k
    ensures Mirror(parts)[i] == Mirror(init)[i]
  {
    var lo, hi := GroupStart(parts, i), GroupEnd(parts, i);
    LastGroup(parts, k);
    GroupIs(parts, i, lo, hi);
    assert hi < |init| by {
      assert parts[hi].offset == parts[i].offset < parts[|parts| - 1].offset;
    }
    hide GroupStart, GroupEnd, Mirror, Opposite, Sorted;
    PrefixGroup(parts, init, i, lo, hi);
    OppositeIs(init, i, lo, hi);
    OppositeIs(parts, i, lo, hi);
    MirrorOffsets(parts, i);
    MirrorOffsets(init, i);
  }

  lemma MirrorIn(parts: seq<Part>, init: seq<Part>, k: nat, i: nat)
    requires parts != [] && init == parts[..|parts| - 1]
    requires k == GroupStart(parts, |parts| - 1) && k <= i < |parts|
    ensures Mirror(parts)[i] == if i == k then parts[|parts| - 1] else Mirror(init)[i - 1]
  {
    StartInGroup(parts, |parts| - 1);
    GroupOf(parts, k, i);
    hide *;
    if i > k {
      MirrorAfter(parts, init, k, i);
    } else {
      AtOpposite(parts, i, k, |parts| - 1);
    }
  }

  lemma MirrorAfter(parts: seq<Part>, init: seq<Part>, k: nat, i: nat)
    requires parts != [] && init == parts[..|parts| - 1] && k < i && IsGroup(parts, i, k, |parts| - 1)
    ensures i < |parts| && Mirror(parts)[i] == Mirror(init)[i - 1]
  {
    ShorterGroup(parts, init, i, k);
    hide *;
    AtOpposite(parts, i, k, |parts| - 1);
    AtOpposite(init, i - 1, k, |parts| - 2);
    var j := k + |parts| - 1 - i;
    assert init[j] == parts[j];
  }

  lemma GroupOf(parts: seq<Part>, k: nat, i: nat)
    requires k <= i < |parts| && (forall j :: k <= j < |parts| ==> parts[j].offset == parts[|parts| - 1].offset)
    requires k > 0 ==> parts[k - 1].offset != parts[|parts| - 1].offset
    ensures IsGroup(parts, i, k, |parts| - 1)
  {
  }

  lemma AtOpposite(parts: seq<Part>, i: nat, lo: nat, hi: nat)
    requires IsGroup(parts, i, lo, hi)
    ensures lo <= i <= hi < |parts| && Mirror(parts)[i] == parts[lo + hi - i]
  {
    OppositeIs(parts, i, lo, hi);
    MirrorOffsets(parts, i);
  }

  lemma ShorterGroup(parts: seq<Part>, init: seq<Part>, i: nat, k: nat)
    requires parts != [] && init == parts[..|parts| - 1] && k < i < |parts| && IsGroup(parts, i, k, |parts| - 1)
    ensures IsGroup(init, i - 1, k, |parts| - 2)
  {
  }

  /** Inserting the last partition into the turned list of the others turns the whole list. */
  lemma MirrorSnoc(parts: seq<Part>)
    requires Sorted(parts) && parts != []
    ensures SortAdd(Mirror(parts[..|parts| - 1]), parts[|parts| - 1]) == Some(Mirror(parts))
  {
    var n := |parts| - 1;
    var init, p := parts[..n], parts[n];
    var m, k := Mirror(init), GroupStart(parts, n);
    InsertsAtGroup(parts, init, k);
    if n > 0 {
      MirrorOffsets(init, 0);
      assert parts[0].offset <= parts[n].offset && parts[n].offset > 0;
    }
    var r := m[..k] + [p] + m[k..];
    forall i | 0 <= i <= n
      ensures Mirror(parts)[i] == r[i]
    {
      if i < k {
        MirrorBefore(parts, init, k, i);
      } else {
        MirrorIn(parts, init, k, i);
      }
    }
    assert Mirror(parts) == r;
  }
}
