/**
  The partition table of `cmd_jffs2.c`: one list of partitions per device, kept
  sorted by offset, and a cursor naming the current partition that every
  insertion and deletion has to follow.
 */
module MtdTable {
  import opened Common
  import opened MtdText
  import opened MtdPart

  datatype Device = Device(id: MtdId, parts: seq<Part>, numParts: nat)

  /** `cur` is the position of `current_dev` in the device list, `partnum` is `current_partnum` (8 bits). */
  datatype Table = Table(devices: seq<Device>, cur: Option<nat>, partnum: nat)

  // ---- sorted insertion ----

  /** Where `part_sort_add` links a partition: before the first one that does not start earlier. */
  function InsertIndex(parts: seq<Part>, offset: u32): (k: nat)
    ensures k <= |parts|
    ensures forall i :: 0 <= i < k ==> parts[i].offset < offset
    ensures k < |parts| ==> offset <= parts[k].offset
  {
    if parts == [] || offset <= parts[0].offset then 0 else 1 + InsertIndex(parts[1..], offset)
  }

  function Inserted(parts: seq<Part>, p: Part): seq<Part> {
    var k := InsertIndex(parts, p.offset);
    parts[..k] + [p] + parts[k..]
  }

  /** Only one partition may start at offset zero. */
  function SortAdd(parts: seq<Part>, p: Part): Option<seq<Part>> {
    if parts != [] && p.offset == 0 && parts[0].offset == 0 then None else Some(Inserted(parts, p))
  }

  /** Ascending offsets, with at most one partition at offset zero. */
  ghost predicate Sorted(parts: seq<Part>) {
    forall i, j :: 0 <= i < j < |parts| ==> parts[i].offset <= parts[j].offset && parts[j].offset > 0
  }

  ghost predicate Distinct(parts: seq<Part>) {
    forall i, j :: 0 <= i < j < |parts| ==> parts[i].offset != parts[j].offset
  }

  lemma InsertedSorted(parts: seq<Part>, p: Part)
    requires Sorted(parts) && SortAdd(parts, p).Some?
    ensures Sorted(Inserted(parts, p))
  {
  }

  /** The list without position `i`, position by position. */
  predicate WithoutAt(parts: seq<Part>, i: nat, r: seq<Part>) {
    && i < |parts| && |r| == |parts| - 1
    && forall a :: 0 <= a < |r| ==> r[a] == parts[if a < i then a else a + 1]
  }

  lemma RemovedSorted(parts: seq<Part>, i: nat)
    requires Sorted(parts) && i < |parts|
    ensures Sorted(parts[..i] + parts[i + 1..])
  {
    SortedWithout(parts, i, parts[..i] + parts[i + 1..]);
  }

  lemma SortedWithout(parts: seq<Part>, i: nat, r: seq<Part>)
    requires Sorted(parts) && WithoutAt(parts, i, r)
    ensures Sorted(r)
  {
    forall a, b | 0 <= a < b < |r| ensures r[a].offset <= r[b].offset && r[b].offset > 0 {
      assert r[a] == parts[if a < i then a else a + 1] && r[b] == parts[if b < i then b else b + 1];
    }
  }

  lemma RemovedDistinct(parts: seq<Part>, i: nat)
    requires Distinct(parts) && i < |parts|
    ensures Distinct(parts[..i] + parts[i + 1..])
  {
    DistinctWithout(parts, i, parts[..i] + parts[i + 1..]);
  }

  lemma DistinctWithout(parts: seq<Part>, i: nat, r: seq<Part>)
    requires Distinct(parts) && WithoutAt(parts, i, r)
    ensures Distinct(r)
  {
    forall a, b | 0 <= a < b < |r| ensures r[a].offset != r[b].offset {
      assert r[a] == parts[if a < i then a else a + 1] && r[b] == parts[if b < i then b else b + 1];
    }
  }

  // ---- the operations ----

  ghost predicate WfPart(id: MtdId, p: Part)
    requires WfId(id)
  {
    InDevice(id, p) && WfName(p.name)
  }

  ghost predicate WfDevice(d: Device) {
    && WfId(d.id)
    && 0 < d.numParts == |d.parts| < 256
    && Sorted(d.parts)
    && (forall i :: 0 <= i < |d.parts| ==> WfPart(d.id, d.parts[i]))
  }

  ghost predicate Inv(t: Table) {
    && (forall d :: 0 <= d < |t.devices| ==> WfDevice(t.devices[d]))
    && (t.cur.None? <==> t.devices == [])
    && (t.cur.Some? ==> t.cur.value < |t.devices|)
  }

  /** The cursor names an existing partition. */
  ghost predicate CursorOk(t: Table) {
    t.cur.Some? ==> t.cur.value < |t.devices| && t.partnum < |t.devices[t.cur.value].parts|
  }

  function CurrentPart(t: Table): Part
    requires t.cur.Some? && t.cur.value < |t.devices| && t.partnum < |t.devices[t.cur.value].parts|
  {
    t.devices[t.cur.value].parts[t.partnum]
  }

  /** The number of partitions and the current partition number are kept in 16 and 8 bits. */
  function Inc(n: nat, width: nat): nat
    requires width > 0
  {
    if n + 1 >= width then 0 else n + 1
  }

  function Dec(n: nat, width: nat): nat
    requires width > 0
  {
    if n == 0 then width - 1 else n - 1
  }

  /** `part_sort_add` to device `d` of the table, with the cursor moved when the current partition moves. */
  function AddSorted(t: Table, d: nat, p: Part): Option<Table>
    requires d < |t.devices|
  {
    var dev := t.devices[d];
    match SortAdd(dev.parts, p)
    case None => None
    case Some(parts) =>
      var k := InsertIndex(dev.parts, p.offset);
      var moves := t.cur == Some(d) && t.partnum < |dev.parts| && k < |dev.parts| &&
                   dev.parts[k].offset <= dev.parts[t.partnum].offset;
      Some(Table(t.devices[d := Device(dev.id, parts, Inc(dev.numParts, 65536))], t.cur,
                 if moves then Inc(t.partnum, 256) else t.partnum))
  }

  /** `part_add`. */
  function PartAdd(t: Table, d: nat, p: Part): Option<Table>
    requires d < |t.devices|
    requires t.devices[d].id.geometry.Nand? ==> t.devices[d].id.geometry.eraseSize > 0
  {
    match PartValidate(t.devices[d].id, p)
    case None => None
    case Some(q) => AddSorted(t, d, q)
  }

  /** `device_del`. */
  function DeviceDel(t: Table, d: nat): Table
    requires d < |t.devices|
  {
    var rest := t.devices[..d] + t.devices[d + 1..];
    if t.cur == Some(d) then
      if rest == [] then Table(rest, None, t.partnum) else Table(rest, Some(0), 0)
    else
      Table(rest, if t.cur.Some? && t.cur.value > d then Some(t.cur.value - 1) else t.cur, t.partnum)
  }

  /** `part_del`: the last partition takes its device with it. */
  function PartDel(t: Table, d: nat, i: nat): Table
    requires d < |t.devices| && i < |t.devices[d].parts|
  {
    var dev := t.devices[d];
    if dev.numParts == 1 then DeviceDel(t, d)
    else
      var partnum :=
        if t.cur == Some(d) && t.partnum < |dev.parts| then
          if t.partnum == i then 0
          else if dev.parts[i].offset <= dev.parts[t.partnum].offset then Dec(t.partnum, 256)
          else t.partnum
        else t.partnum;
      Table(t.devices[d := Device(dev.id, dev.parts[..i] + dev.parts[i + 1..], Dec(dev.numParts, 65536))], t.cur, partnum)
  }

  /** `device_add`: the first device becomes the current one. */
  function DeviceAdd(t: Table, dev: Device): Table {
    if t.devices == [] then Table([dev], Some(0), 0) else t.(devices := t.devices + [dev])
  }

  // ---- what every operation changes ----

  /** Every device but `d` is as it was, and `d` has its id. */
  predicate OnlyDevice(t: Table, r: Table, d: nat) {
    && |r.devices| == |t.devices| && d < |t.devices| && r.devices[d].id == t.devices[d].id
    && forall e :: 0 <= e < |t.devices| && e != d ==> r.devices[e] == t.devices[e]
  }

  /** Adding, for every device and cursor: it fails exactly when the partition is not valid or would be the second at
      offset zero; otherwise the list of that device gains the validated partition, behind all that start earlier, and
      nothing else changes but the place of the cursor. */
  lemma AddExact(t: Table, d: nat, p: Part)
    requires d < |t.devices| && WfId(t.devices[d].id) && t.devices[d].numParts < 65535
    ensures var dev := t.devices[d];
            PartAdd(t, d, p).None? <==>
            PartValidate(dev.id, p).None? || (dev.parts != [] && p.offset == 0 && dev.parts[0].offset == 0)
    ensures PartAdd(t, d, p).Some? ==>
              var r, parts, q := PartAdd(t, d, p).value, t.devices[d].parts, PartValidate(t.devices[d].id, p).value;
              && OnlyDevice(t, r, d) && r.cur == t.cur && r.devices[d].numParts == t.devices[d].numParts + 1
              && exists k :: 0 <= k <= |parts| && r.devices[d].parts == parts[..k] + [q] + parts[k..]
                             && (forall i :: 0 <= i < k ==> parts[i].offset < q.offset)
                             && (k < |parts| ==> q.offset <= parts[k].offset)
  {
    var dev := t.devices[d];
    var v := PartValidate(dev.id, p);
    if v.Some? {
      ValidateExact(dev.id, p, v.value);
      hide PartValidate;
      var k := InsertIndex(dev.parts, v.value.offset);
      assert Inserted(dev.parts, v.value) == dev.parts[..k] + [v.value] + dev.parts[k..];
    }
  }

  /** Removing a device, for every cursor: the others stay in order.  When it was the current one, the first partition of
      the first device is current, if there is one; otherwise the same partition of the same device stays current. */
  lemma DeviceDelExact(t: Table, d: nat)
    requires d < |t.devices| && (t.cur.Some? ==> t.cur.value < |t.devices|)
    ensures var r := DeviceDel(t, d);
            && r.devices == t.devices[..d] + t.devices[d + 1..]
            && (t.cur == Some(d) && |t.devices| > 1 ==> r.cur == Some(0) && r.partnum == 0)
            && (t.cur == Some(d) && |t.devices| == 1 ==> r.cur == None)
            && (t.cur == None ==> r.cur == None)
            && (t.cur.Some? && t.cur != Some(d) ==>
                  && r.cur.Some? && r.cur.value < |r.devices|
                  && r.devices[r.cur.value] == t.devices[t.cur.value] && r.partnum == t.partnum)
  {
  }

  /** Deleting, for every device and cursor: the list of that device loses exactly the partition at `i`; a device with
      one partition goes as a whole. */
  lemma DeleteExact(t: Table, d: nat, i: nat)
    requires d < |t.devices| && i < |t.devices[d].parts| && t.devices[d].numParts == |t.devices[d].parts|
    ensures var r, parts := PartDel(t, d, i), t.devices[d].parts;
            if |parts| == 1 then r == DeviceDel(t, d)
            else
              && OnlyDevice(t, r, d) && r.cur == t.cur && r.devices[d].numParts == |parts| - 1
              && r.devices[d].parts == parts[..i] + parts[i + 1..]
              && (t.cur != Some(d) ==> r.partnum == t.partnum)
  {
  }

  /** A new device goes to the end; the first one of all becomes current, with its first partition. */
  lemma DeviceAddExact(t: Table, dev: Device)
    ensures var r := DeviceAdd(t, dev);
            && r.devices == t.devices + [dev]
            && (if t.devices == [] then r.cur == Some(0) && r.partnum == 0 else r.cur == t.cur && r.partnum == t.partnum)
  {
  }

  // ---- what every operation keeps ----

  lemma PartAddKeepsInv(t: Table, d: nat, p: Part)
    requires Inv(t) && d < |t.devices| && WfName(p.name) && |t.devices[d].parts| < 255
    ensures PartAdd(t, d, p).Some? ==> Inv(PartAdd(t, d, p).value)
  {
    var dev := t.devices[d];
    assert WfDevice(dev);
    ValidatedIsInDevice(dev.id, p);
    var v := PartValidate(dev.id, p);
    if v.Some? {
      AddSortedKeepsInv(t, d, v.value);
    }
  }

  lemma AddSortedKeepsInv(t: Table, d: nat, p: Part)
    requires Inv(t) && d < |t.devices| && |t.devices[d].parts| < 255
    requires WfId(t.devices[d].id) && WfPart(t.devices[d].id, p)
    ensures AddSorted(t, d, p).Some? ==> Inv(AddSorted(t, d, p).value)
  {
    var dev := t.devices[d];
    assert WfDevice(dev);
    if SortAdd(dev.parts, p).Some? {
      InsertedSorted(dev.parts, p);
      InsertedWf(dev, p);
    }
  }

  lemma InsertedWf(dev: Device, p: Part)
    requires WfDevice(dev) && WfPart(dev.id, p) && Sorted(Inserted(dev.parts, p)) && |dev.parts| < 255
    ensures WfDevice(Device(dev.id, Inserted(dev.parts, p), dev.numParts + 1))
  {
  }

  lemma DeviceDelKeepsInv(t: Table, d: nat)
    requires Inv(t) && d < |t.devices|
    ensures Inv(DeviceDel(t, d))
  {
  }

  lemma PartDelKeepsInv(t: Table, d: nat, i: nat)
    requires Inv(t) && d < |t.devices| && i < |t.devices[d].parts|
    ensures Inv(PartDel(t, d, i))
  {
    var dev := t.devices[d];
    assert WfDevice(dev);
    if dev.numParts == 1 {
      DeviceDelKeepsInv(t, d);
    } else {
      RemovedSorted(dev.parts, i);
      RemovedWf(dev, i);
    }
  }

  lemma RemovedWf(dev: Device, i: nat)
    requires WfDevice(dev) && i < |dev.parts| && |dev.parts| > 1 && Sorted(dev.parts[..i] + dev.parts[i + 1..])
    ensures WfDevice(Device(dev.id, dev.parts[..i] + dev.parts[i + 1..], dev.numParts - 1))
  {
  }

  lemma DeviceAddKeepsInv(t: Table, dev: Device)
    requires Inv(t) && WfDevice(dev)
    ensures Inv(DeviceAdd(t, dev))
  {
  }

  // ---- the cursor ----

  /** Adding a partition never changes which partition is current. */
  lemma AddKeepsCurrent(t: Table, d: nat, p: Part)
    requires Inv(t) && CursorOk(t) && d < |t.devices| && |t.devices[d].parts| < 255
    requires t.cur.Some? && PartAdd(t, d, p).Some?
    ensures var r := PartAdd(t, d, p).value;
            CursorOk(r) && r.cur == t.cur && CurrentPart(r) == CurrentPart(t)
  {
    var dev := t.devices[d];
    assert WfDevice(dev);
    AddSortedCurrent(t, d, PartValidate(dev.id, p).value);
  }

  lemma AddSortedCurrent(t: Table, d: nat, q: Part)
    requires CursorOk(t) && t.cur.Some? && d < |t.devices| && Sorted(t.devices[d].parts)
    requires |t.devices[d].parts| < 255 && AddSorted(t, d, q).Some?
    ensures var r := AddSorted(t, d, q).value;
            CursorOk(r) && r.cur == t.cur && CurrentPart(r) == CurrentPart(t)
  {
    if t.cur == Some(d) {
      InsertedAt(t.devices[d].parts, q, t.partnum);
    }
  }

  /** The partition at `i` is found one place further on exactly when it does not start before the insertion. */
  lemma InsertedAt(parts: seq<Part>, p: Part, i: nat)
    requires Sorted(parts) && i < |parts|
    ensures var k := InsertIndex(parts, p.offset);
            var moves := k < |parts| && parts[k].offset <= parts[i].offset;
            i + 1 < |Inserted(parts, p)| && Inserted(parts, p)[if moves then i + 1 else i] == parts[i]
  {
    var k := InsertIndex(parts, p.offset);
    if k < |parts| && i != k {
      assert k < i ==> parts[k].offset <= parts[i].offset;
    }
  }

  /** Deleting another partition keeps the current one, unless the deleted one comes later but starts at the
      same offset; deleting the current one makes the first partition of the device current. */
  lemma DeleteMovesCursor(t: Table, i: nat)
    requires Inv(t) && CursorOk(t) && t.cur.Some?
    requires i < |t.devices[t.cur.value].parts| && |t.devices[t.cur.value].parts| > 1
    ensures var d, r := t.cur.value, PartDel(t, t.cur.value, i);
            var parts := t.devices[d].parts;
            && r.cur == t.cur && r.devices[d].parts == parts[..i] + parts[i + 1..]
            && (i == t.partnum ==> r.partnum == 0)
            && (i != t.partnum ==>
                  ((r.partnum < |r.devices[d].parts| && Follows(r.partnum, t.partnum, i)) <==>
                   !(i > t.partnum && parts[i].offset == parts[t.partnum].offset)))
  {
    var d := t.cur.value;
    var parts := t.devices[d].parts;
    assert WfDevice(t.devices[d]);
    if i < t.partnum {
      assert parts[i].offset <= parts[t.partnum].offset;
    } else if i > t.partnum {
      assert parts[t.partnum].offset <= parts[i].offset;
    }
  }

  /** `after` is the position of the partition that was at `before`, once position `removed` is gone. */
  predicate Follows(after: nat, before: nat, removed: nat) {
    after == if removed < before then before - 1 else before
  }

  lemma FollowsSamePart(parts: seq<Part>, before: nat, removed: nat, after: nat)
    requires before < |parts| && removed < |parts| && before != removed && Follows(after, before, removed)
    ensures after < |parts| - 1 && (parts[..removed] + parts[removed + 1..])[after] == parts[before]
  {
  }

  /** With distinct offsets the cursor follows the current partition through every deletion elsewhere. */
  lemma DeleteKeepsCurrent(t: Table, d: nat, i: nat)
    requires Inv(t) && CursorOk(t) && t.cur.Some?
    requires d < |t.devices| && i < |t.devices[d].parts| && Distinct(t.devices[d].parts)
    ensures CursorOk(PartDel(t, d, i))
    ensures !(t.cur == Some(d) && (i == t.partnum || |t.devices[d].parts| == 1)) ==>
              PartDel(t, d, i).cur.Some? && CurrentPart(PartDel(t, d, i)) == CurrentPart(t)
    ensures t.cur == Some(d) && i == t.partnum && |t.devices[d].parts| > 1 ==>
              PartDel(t, d, i).cur == t.cur && PartDel(t, d, i).partnum == 0
  {
    var dev := t.devices[d];
    assert WfDevice(dev);
    if t.cur == Some(d) && |dev.parts| > 1 {
      DeleteMovesCursor(t, i);
      if i != t.partnum {
        FollowsSamePart(dev.parts, t.partnum, i, PartDel(t, d, i).partnum);
      }
    } else if t.cur == Some(d) {
      DeviceDelKeepsInv(t, d);
      assert (t.devices[..d] + t.devices[d + 1..]) != [] ==>
               WfDevice((t.devices[..d] + t.devices[d + 1..])[0]);
    }
  }

  /** A valid table with two partitions at one offset, the first of them current: deleting the second makes the
      cursor wrap to 255, where there is no partition.  `index_partitions`, which runs next, then asks for the name of
      a partition that does not exist. */
  lemma CursorLostOnTie(id: MtdId, a: Part, b: Part)
    requires WfId(id) && WfPart(id, a) && WfPart(id, b) && a.offset == b.offset > 0
    ensures var t := Table([Device(id, [a, b], 2)], Some(0), 0);
            Inv(t) && CursorOk(t) && PartDel(t, 0, 1).partnum == 255 && !CursorOk(PartDel(t, 0, 1))
  {
    assert WfDevice(Device(id, [a, b], 2));
    assert [a, b][..1] + [a, b][2..] == [a];
  }

  // ---- the global partition number ----

  function Flatten(devices: seq<Device>): seq<Part> {
    if devices == [] then [] else Flatten(devices[..|devices| - 1]) + devices[|devices| - 1].parts
  }

  lemma {:induction false} FlattenAt(devices: seq<Device>, d: nat, i: nat)
    requires d < |devices| && i < |devices[d].parts|
    ensures |Flatten(devices[..d])| + i < |Flatten(devices)|
    ensures Flatten(devices)[|Flatten(devices[..d])| + i] == devices[d].parts[i]
  {
    var n := |devices| - 1;
    if d < n {
      FlattenAt(devices[..n], d, i);
      assert devices[..n][..d] == devices[..d];
    }
  }

  /** What `index_partitions` publishes: the current partition's place among all partitions (16 bits). */
  function DevNum(t: Table): Option<nat> {
    match t.cur
    case None => None
    case Some(c) => if c < |t.devices| then Some((|Flatten(t.devices[..c])| + t.partnum) % 65536) else None
  }

  lemma DevNumIsIndex(t: Table)
    requires CursorOk(t) && t.cur.Some? && |Flatten(t.devices)| <= 65536
    ensures DevNum(t).Some? && DevNum(t).value < |Flatten(t.devices)|
    ensures Flatten(t.devices)[DevNum(t).value] == CurrentPart(t)
  {
    FlattenAt(t.devices, t.cur.value, t.partnum);
  }

  // ---- runs ----

  datatype Op =
    | Add(d: nat, p: Part)
    | Delete(d: nat, i: nat)
    | NewDevice(dev: Device)
    | Select(d: nat, i: nat)

  /** The table with every invariant: lists, cursor, and distinct offsets per device. */
  ghost predicate Good(t: Table) {
    Inv(t) && CursorOk(t) && forall d :: 0 <= d < |t.devices| ==> Distinct(t.devices[d].parts)
  }

  ghost predicate Allowed(t: Table, op: Op) {
    match op
    case Add(d, p) =>
      && d < |t.devices| && WfDevice(t.devices[d]) && WfName(p.name) && |t.devices[d].parts| < 255
      && forall i :: 0 <= i < |t.devices[d].parts| ==> t.devices[d].parts[i].offset != p.offset
    case Delete(d, i) => d < |t.devices| && i < |t.devices[d].parts|
    case NewDevice(dev) => WfDevice(dev) && Distinct(dev.parts)
    case Select(d, i) => d < |t.devices| && i < |t.devices[d].parts|
  }

  ghost function Apply(t: Table, op: Op): Table
    requires Allowed(t, op)
  {
    match op
    case Add(d, p) => var r := PartAdd(t, d, p); if r.Some? then r.value else t
    case Delete(d, i) => PartDel(t, d, i)
    case NewDevice(dev) => DeviceAdd(t, dev)
    case Select(d, i) => t.(cur := Some(d), partnum := i)
  }

  lemma InsertedDistinct(parts: seq<Part>, p: Part)
    requires Distinct(parts) && forall i :: 0 <= i < |parts| ==> parts[i].offset != p.offset
    ensures Distinct(Inserted(parts, p))
  {
  }

  lemma AddKeepsGood(t: Table, d: nat, p: Part)
    requires Good(t) && Allowed(t, Add(d, p)) && PartAdd(t, d, p).Some?
    ensures Good(PartAdd(t, d, p).value)
  {
    PartAddKeepsInv(t, d, p);
    AddKeepsCurrent(t, d, p);
    InsertedDistinct(t.devices[d].parts, PartValidate(t.devices[d].id, p).value);
  }

  lemma DeleteKeepsGood(t: Table, d: nat, i: nat)
    requires Good(t) && Allowed(t, Delete(d, i))
    ensures Good(PartDel(t, d, i))
  {
    assert WfDevice(t.devices[d]);
    PartDelKeepsInv(t, d, i);
    DeleteKeepsCurrent(t, d, i);
    RemovedDistinct(t.devices[d].parts, i);
  }

  lemma ApplyKeepsGood(t: Table, op: Op)
    requires Good(t) && Allowed(t, op)
    ensures Good(Apply(t, op))
  {
    match op
    case Add(d, p) =>
      if PartAdd(t, d, p).Some? {
        AddKeepsGood(t, d, p);
      }
    case Delete(d, i) => DeleteKeepsGood(t, d, i);
    case NewDevice(dev) => DeviceAddKeepsInv(t, dev);
    case Select(d, i) =>
  }

  ghost predicate RunOk(t: Table, ops: seq<Op>)
    decreases |ops|
  {
    ops != [] ==> Allowed(t, ops[0]) && RunOk(Apply(t, ops[0]), ops[1..])
  }

  ghost function RunAll(t: Table, ops: seq<Op>): Table
    requires RunOk(t, ops)
    decreases |ops|
  {
    if ops == [] then t else RunAll(Apply(t, ops[0]), ops[1..])
  }

  /** Every table reached from the empty one by additions, deletions and selections is good. */
  lemma {:induction false} RunsKeepGood(t: Table, ops: seq<Op>)
    requires Good(t) && RunOk(t, ops)
    ensures Good(RunAll(t, ops))
    decreases |ops|
  {
    if ops != [] {
      ApplyKeepsGood(t, ops[0]);
      RunsKeepGood(Apply(t, ops[0]), ops[1..]);
    }
  }

  /** The run neither selects another partition nor deletes the current one. */
  ghost predicate SparesCurrent(t: Table, ops: seq<Op>)
    requires RunOk(t, ops)
    decreases |ops|
  {
    ops != [] ==>
      && !ops[0].Select? && (ops[0].Delete? ==> !(t.cur == Some(ops[0].d) && t.partnum == ops[0].i))
      && SparesCurrent(Apply(t, ops[0]), ops[1..])
  }

  lemma StepKeepsCurrent(t: Table, op: Op)
    requires Good(t) && t.cur.Some? && Allowed(t, op) && !op.Select?
    requires op.Delete? ==> !(t.cur == Some(op.d) && t.partnum == op.i)
    ensures var r := Apply(t, op); CursorOk(r) && r.cur.Some? && CurrentPart(r) == CurrentPart(t)
  {
    match op
    case Add(d, p) =>
      if PartAdd(t, d, p).Some? {
        AddKeepsCurrent(t, d, p);
      }
    case Delete(d, i) =>
      assert WfDevice(t.devices[d]);
      DeleteKeepsCurrent(t, d, i);
    case NewDevice(dev) =>
  }

  /** Over any run of additions, deletions and new devices that spares the current partition, the cursor goes on naming
      that partition. */
  lemma {:induction false} RunsKeepCurrent(t: Table, ops: seq<Op>)
    requires Good(t) && t.cur.Some? && RunOk(t, ops) && SparesCurrent(t, ops)
    ensures var r := RunAll(t, ops); CursorOk(r) && r.cur.Some? && CurrentPart(r) == CurrentPart(t)
    decreases |ops|
  {
    if ops != [] {
      StepKeepsCurrent(t, ops[0]);
      ApplyKeepsGood(t, ops[0]);
      hide Good, Allowed, Apply;
      RunsKeepCurrent(Apply(t, ops[0]), ops[1..]);
    }
  }

  // ---- the table as it is kept ----

  /** The globals `devices`, `current_dev`, `current_partnum` and the variable `mtddevnum`. */
  class PartitionTable {
    var devices: seq<Device>
    var cur: Option<nat>
    var partnum: nat
    var mtddevnum: Option<nat>

    function View(): Table
      reads this
    {
      Table(devices, cur, partnum)
    }

    ghost predicate Valid()
      reads this
    {
      Inv(View()) && mtddevnum == DevNum(View())
    }

    constructor ()
      ensures Valid() && View() == Table([], None, 0)
    {
      devices, cur, partnum, mtddevnum := [], None, 0, None;
    }

    /** `index_partitions`. */
    method IndexPartitions()
      requires Inv(View())
      modifies this`mtddevnum
      ensures Valid()
    {
      if cur.None? {
        mtddevnum := None;
        return;
      }
      var num, dentry := 0, 0;
      while dentry != cur.value
        invariant 0 <= dentry <= cur.value < |devices|
        invariant num == |Flatten(devices[..dentry])| % 65536
        decreases cur.value - dentry
      {
        assert devices[..dentry + 1][..dentry] == devices[..dentry];
        assert WfDevice(devices[dentry]);
        AddMod(|Flatten(devices[..dentry])|, devices[dentry].numParts);
        num := (num + devices[dentry].numParts) % 65536;
        dentry := dentry + 1;
      }
      AddMod(|Flatten(devices[..dentry])|, partnum);
      mtddevnum := Some((num + partnum) % 65536);
    }

    /** `part_sort_add`: walk the list to the insertion point. */
    method PartSortAdd(d: nat, p: Part) returns (rc: int)
      requires Valid() && d < |devices| && |devices[d].parts| < 255 && WfPart(devices[d].id, p)
      modifies this
      ensures Valid()
      ensures match AddSorted(old(View()), d, p)
              case None => rc == 1 && View() == old(View())
              case Some(t) => rc == 0 && View() == t
    {
      var dev := devices[d];
      assert WfDevice(dev);
      var clash, entry := FindInsertion(dev.parts, p.offset);
      if clash {
        return 1;
      }
      AddSortedKeepsInv(View(), d, p);
      if cur == Some(d) && partnum < |dev.parts| && entry < |dev.parts| &&
         dev.parts[entry].offset <= dev.parts[partnum].offset {
        partnum := Inc(partnum, 256);
      }
      devices := devices[d := Device(dev.id, dev.parts[..entry] + [p] + dev.parts[entry..], Inc(dev.numParts, 65536))];
      IndexPartitions();
      return 0;
    }

    /** `part_add`. */
    method AddPartition(d: nat, p: Part) returns (rc: int)
      requires Valid() && d < |devices| && |devices[d].parts| < 255 && WfName(p.name)
      requires WfDevice(devices[d])
      modifies this
      ensures Valid()
      ensures match PartAdd(old(View()), d, p)
              case None => rc == 1 && View() == old(View())
              case Some(t) => rc == 0 && View() == t
    {
      var v := PartValidate(devices[d].id, p);
      if v.None? {
        return 1;
      }
      ValidatedIsInDevice(devices[d].id, p);
      rc := PartSortAdd(d, v.value);
    }

    /** `device_del`. */
    method RemoveDevice(d: nat)
      requires Valid() && d < |devices|
      modifies this
      ensures Valid() && View() == DeviceDel(old(View()), d)
    {
      DeviceDelKeepsInv(View(), d);
      devices := devices[..d] + devices[d + 1..];
      if cur == Some(d) {
        if devices == [] {
          cur := None;
        } else {
          cur, partnum := Some(0), 0;
        }
      } else if cur.Some? && cur.value > d {
        cur := Some(cur.value - 1);
      }
      IndexPartitions();
    }

    /** `part_del`. */
    method DeletePartition(d: nat, i: nat)
      requires Valid() && d < |devices| && i < |devices[d].parts|
      modifies this
      ensures Valid() && View() == PartDel(old(View()), d, i)
    {
      var dev := devices[d];
      PartDelKeepsInv(View(), d, i);
      if dev.numParts == 1 {
        RemoveDevice(d);
        return;
      }
      if cur == Some(d) && partnum < |dev.parts| {
        if partnum == i {
          partnum := 0;
        } else if dev.parts[i].offset <= dev.parts[partnum].offset {
          partnum := Dec(partnum, 256);
        }
      }
      devices := devices[d := Device(dev.id, dev.parts[..i] + dev.parts[i + 1..], Dec(dev.numParts, 65536))];
      IndexPartitions();
    }

    /** `device_add`. */
    method AddDevice(dev: Device)
      requires Valid() && WfDevice(dev)
      modifies this
      ensures Valid() && View() == DeviceAdd(old(View()), dev)
    {
      DeviceAddKeepsInv(View(), dev);
      if devices == [] {
        cur, partnum := Some(0), 0;
      }
      devices := devices + [dev];
      IndexPartitions();
    }
  }

  /** The list walk of `part_sort_add`. */
  method FindInsertion(parts: seq<Part>, offset: u32) returns (clash: bool, entry: nat)
    ensures clash <==> parts != [] && offset == 0 && parts[0].offset == 0
    ensures !clash ==> entry == InsertIndex(parts, offset)
  {
    entry := 0;
    while entry < |parts|
      invariant 0 <= entry <= |parts|
      invariant forall i :: 0 <= i < entry ==> parts[i].offset < offset
    {
      if offset == parts[entry].offset && parts[entry].offset == 0 {
        return true, entry;
      }
      if offset <= parts[entry].offset {
        IndexIs(parts, offset, entry);
        return false, entry;
      }
      entry := entry + 1;
    }
    IndexIs(parts, offset, entry);
    return false, entry;
  }

  lemma AddMod(a: nat, b: nat)
    ensures (a % 65536 + b) % 65536 == (a + b) % 65536
  {
  }

  lemma IndexIs(parts: seq<Part>, offset: u32, k: nat)
    requires k <= |parts|
    requires forall i :: 0 <= i < k ==> parts[i].offset < offset
    requires k < |parts| ==> offset <= parts[k].offset
    ensures InsertIndex(parts, offset) == k
  {
  }
}
