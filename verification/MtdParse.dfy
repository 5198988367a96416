/**
  The text of the `mtdparts` variable (`cmd_jffs2.c`): `parse_mtdparts` with
  `device_parse`, `generate_mtdparts`, and the exact condition under which
  reading a printed table gives the table back.
 */
module MtdParse {
  import opened Common
  import opened MtdText
  import opened MtdPart
  import opened MtdTable
  import opened MtdTies

  ghost predicate WfIds(ids: seq<MtdId>) {
    forall i :: 0 <= i < |ids| ==> WfId(ids[i])
  }

  /** `id_find_by_mtd_id`. */
  function FindId(ids: seq<MtdId>, name: string): (r: Option<MtdId>)
    ensures r.Some? ==> r.value in ids
  {
    if ids == [] then None else if ids[0].mtdId == name then Some(ids[0]) else FindId(ids[1..], name)
  }

  /** `device_find`. */
  function FindDevice(devs: seq<Device>, id: MtdId): (r: Option<Device>)
    ensures r.None? <==> forall i :: 0 <= i < |devs| ==> !SameDevice(devs[i].id, id)
    ensures r.Some? ==> r.value in devs && r.value.id.num == id.num && r.value.id.geometry.Nor? == id.geometry.Nor?
  {
    if devs == [] then None
    else if SameDevice(devs[0].id, id) then Some(devs[0])
    else
      assert forall i :: 0 < i < |devs| ==> devs[i] == devs[1..][i - 1];
      FindDevice(devs[1..], id)
  }

  // ---- parsing ----

  function End(p: Part): u32 {
    (p.offset + p.size) % U32
  }

  /** A definition without an offset continues where the one before it ended. */
  function Placed(p: Part, offset: u32): Part {
    if p.offset == OFFSET_NOT_SPECIFIED then p.(offset := offset) else p
  }

  /** The partition loop of `device_parse`. */
  function ParseParts(id: MtdId, s: string, offset: u32): (r: Option<Parsed<seq<Part>>>)
    requires WfId(id)
    ensures r.Some? ==> |r.value.rest| <= |s| && (r.value.rest == "" || r.value.rest[0] == ';')
    decreases |s|
  {
    if s == "" || s[0] == ';' then Some(Parsed([], s))
    else
      match PartParse(s)
      case None => None
      case Some(p) =>
        match PartValidate(id, Placed(p.value, offset))
        case None => None
        case Some(q) =>
          match ParseParts(id, p.rest, End(q))
          case None => None
          case Some(r) => Some(Parsed([q] + r.value, r.rest))
  }

  /** Move the parsed partitions into a device list, one `part_sort_add` each. */
  function SortAll(parts: seq<Part>): Option<seq<Part>> {
    if parts == [] then Some([])
    else
      match SortAll(parts[..|parts| - 1])
      case None => None
      case Some(sorted) => SortAdd(sorted, parts[|parts| - 1])
  }

  /** Where partitions without an offset start: behind the last one when the device already exists. */
  function FirstOffset(devs: seq<Device>, id: MtdId): u32 {
    match FindDevice(devs, id)
    case None => 0
    case Some(dev) => if dev.parts == [] then 0 else End(dev.parts[|dev.parts| - 1])
  }

  function DeviceParse(ids: seq<MtdId>, devs: seq<Device>, s: string): (r: Option<Parsed<Device>>)
    requires WfIds(ids)
    ensures r.Some? ==> |r.value.rest| < |s|
  {
    var i := IndexOf(s, ':');
    if i < 0 then None
    else
      match FindId(ids, s[..i])
      case None => None
      case Some(id) =>
        match ParseParts(id, s[i + 1..], FirstOffset(devs, id))
        case None => None
        case Some(parts) =>
          if parts.value == [] then None
          else
            match SortAll(parts.value)
            case None => None
            case Some(sorted) =>
              Some(Parsed(Device(id, sorted, |sorted| % 65536),
                          if parts.rest == "" then parts.rest else parts.rest[1..]))
  }

  /** The device loop of `parse_mtdparts`. */
  function ParseDevices(ids: seq<MtdId>, s: string, devs: seq<Device>): Option<seq<Device>>
    requires WfIds(ids)
    decreases |s|
  {
    if s == "" then Some(devs)
    else
      match DeviceParse(ids, devs, s)
      case None => None
      case Some(d) =>
        if FindDevice(devs, d.value.id).Some? then None
        else ParseDevices(ids, d.rest, devs + [d.value])
  }

  const PREFIX := "mtdparts="

  function ParseMtdparts(ids: seq<MtdId>, text: string): Option<seq<Device>>
    requires WfIds(ids)
  {
    if |text| <= 9 || text[..9] != PREFIX then None else ParseDevices(ids, text[9..], [])
  }

  // ---- printing ----

  function PartsFormat(parts: seq<Part>, prevEnd: u32): string
    requires parts != []
  {
    if |parts| == 1 then PartFormat(parts[0], prevEnd)
    else PartFormat(parts[0], prevEnd) + "," + PartsFormat(parts[1..], End(parts[0]))
  }

  function DeviceFormat(d: Device): string
    requires d.parts != []
  {
    d.id.mtdId + ":" + PartsFormat(d.parts, 0)
  }

  predicate NonEmpty(devs: seq<Device>) {
    forall i :: 0 <= i < |devs| ==> devs[i].parts != []
  }

  function DevicesFormat(devs: seq<Device>): string
    requires devs != [] && NonEmpty(devs)
  {
    if |devs| == 1 then DeviceFormat(devs[0])
    else DeviceFormat(devs[0]) + ";" + DevicesFormat(devs[1..])
  }

  /** What `generate_mtdparts` prints, when it fits. */
  function Print(devs: seq<Device>): string
    requires NonEmpty(devs)
  {
    if devs == [] then "" else PREFIX + DevicesFormat(devs)
  }

  // ---- reading back what was printed ----

  predicate AllBig(parts: seq<Part>) {
    forall i :: 0 <= i < |parts| ==> parts[i].size >= MIN_PART_SIZE
  }

  ghost predicate WfParts(id: MtdId, parts: seq<Part>)
    requires WfId(id)
  {
    forall i :: 0 <= i < |parts| ==> WfPart(id, parts[i])
  }

  predicate EndsList(tail: string) {
    tail == "" || tail[0] == ';'
  }

  function DropComma(tail: string): string {
    if Head(tail) == ',' then tail[1..] else tail
  }

  lemma PartBack(id: MtdId, p: Part, prevEnd: u32, tail: string)
    requires WfId(id) && WfPart(id, p) && IsTail(tail)
    ensures var s := PartFormat(p, prevEnd) + tail;
            && s != "" && s[0] != ';'
            && (p.size < MIN_PART_SIZE ==> PartParse(s) == None)
            && (p.size >= MIN_PART_SIZE ==>
                  && PartParse(s).Some? && PartParse(s).value.rest == DropComma(tail)
                  && PartValidate(id, Placed(PartParse(s).value.value, prevEnd)) == Some(p))
  {
    PartRoundTrip(p, prevEnd, tail);
    ValidatedIsInDevice(id, p);
    MemsizeHead(p.size);
    var s := PartFormat(p, prevEnd) + tail;
    assert s[0] == MemsizeFormat(p.size)[0];
    assert p.offset != OFFSET_NOT_SPECIFIED;
  }

  function Prepend(q: Part, r: Option<Parsed<seq<Part>>>): Option<Parsed<seq<Part>>> {
    match r
    case None => None
    case Some(x) => Some(Parsed([q] + x.value, x.rest))
  }

  /** The partition loop over one printed partition and what follows it. */
  lemma OneStep(id: MtdId, p: Part, prevEnd: u32, tail: string)
    requires WfId(id) && WfPart(id, p) && IsTail(tail)
    ensures ParseParts(id, PartFormat(p, prevEnd) + tail, prevEnd) ==
            if p.size < MIN_PART_SIZE then None else Prepend(p, ParseParts(id, DropComma(tail), End(p)))
  {
    PartBack(id, p, prevEnd, tail);
  }

  lemma {:induction false} PartsBack(id: MtdId, parts: seq<Part>, prevEnd: u32, tail: string)
    requires WfId(id) && WfParts(id, parts) && parts != [] && EndsList(tail)
    ensures ParseParts(id, PartsFormat(parts, prevEnd) + tail, prevEnd) ==
            if AllBig(parts) then Some(Parsed(parts, tail)) else None
    decreases |parts|
  {
    hide PartParse, PartFormat, PartValidate;
    var p, rest := parts[0], parts[1..];
    assert parts == [p] + rest;
    BigCons(p, rest);
    if rest == [] {
      OneStep(id, p, prevEnd, tail);
      assert DropComma(tail) == tail && AllBig(rest);
      assert ParseParts(id, tail, End(p)) == Some(Parsed([], tail));
      assert [p] + [] == parts;
    } else {
      var later := PartsFormat(rest, End(p)) + tail;
      OneStep(id, p, prevEnd, "," + later);
      assert PartsFormat(parts, prevEnd) + tail == PartFormat(p, prevEnd) + ("," + later);
      assert DropComma("," + later) == later;
      PartsBack(id, rest, End(p), tail);
    }
  }

  lemma BigCons(p: Part, rest: seq<Part>)
    ensures AllBig([p] + rest) <==> p.size >= MIN_PART_SIZE && AllBig(rest)
  {
    var all := [p] + rest;
    if AllBig(all) {
      assert all[0] == p;
      forall i | 0 <= i < |rest| ensures rest[i].size >= MIN_PART_SIZE {
        assert rest[i] == all[i + 1];
      }
    }
  }

  /** Partitions printed in ascending order are read back with every group of equal offsets turned round. */
  lemma {:induction false} SortAllMirrors(parts: seq<Part>)
    requires Sorted(parts)
    ensures SortAll(parts) == Some(Mirror(parts))
  {
    if parts == [] {
      assert Mirror(parts) == [];
    } else {
      var n := |parts| - 1;
      PrefixSorted(parts, parts[..n]);
      SortAllMirrors(parts[..n]);
      MirrorSnoc(parts);
    }
  }

  lemma PrefixSorted(parts: seq<Part>, init: seq<Part>)
    requires Sorted(parts) && init <= parts
    ensures Sorted(init)
  {
    forall i, j | 0 <= i < j < |init|
      ensures init[i].offset <= init[j].offset && init[j].offset > 0
    {
      assert init[i] == parts[i] && init[j] == parts[j];
    }
  }

  lemma {:induction false} IndexOfColon(name: string, rest: string)
    requires ':' !in name
    ensures IndexOf(name + ":" + rest, ':') == |name|
  {
    var s := name + ":" + rest;
    if name != "" {
      assert s[0] == name[0];
      assert s[1..] == name[1..] + ":" + rest;
      IndexOfColon(name[1..], rest);
    }
  }

  /** A device that can be printed and read: valid, and found by its mtd-id. */
  ghost predicate WfShown(ids: seq<MtdId>, d: Device) {
    WfDevice(d) && FindId(ids, d.id.mtdId) == Some(d.id)
  }

  /** The same, with no two partitions at one offset. */
  ghost predicate WfPrinted(ids: seq<MtdId>, d: Device) {
    WfShown(ids, d) && Distinct(d.parts)
  }

  /** The device as it is read back. */
  function Mirrored(d: Device): Device {
    Device(d.id, Mirror(d.parts), d.numParts)
  }

  lemma DeviceBack(ids: seq<MtdId>, devs: seq<Device>, d: Device, tail: string)
    requires WfIds(ids) && WfShown(ids, d) && FindDevice(devs, d.id).None? && EndsList(tail)
    ensures DeviceParse(ids, devs, DeviceFormat(d) + tail) ==
            if AllBig(d.parts) then Some(Parsed(Mirrored(d), if tail == "" then "" else tail[1..])) else None
  {
    hide ParseParts, PartsFormat, PartFormat, SortAll, AllBig, Mirror;
    var name, body := d.id.mtdId, PartsFormat(d.parts, 0) + tail;
    var s := DeviceFormat(d) + tail;
    assert s == name + ":" + body;
    IndexOfColon(name, body);
    assert s[..|name|] == name && s[|name| + 1..] == body;
    PartsBack(d.id, d.parts, 0, tail);
    SortAllMirrors(d.parts);
  }

  ghost predicate AllDevicesBig(devs: seq<Device>) {
    forall i :: 0 <= i < |devs| ==> AllBig(devs[i].parts)
  }

  /** The devices differ from each other and from those already read. */
  ghost predicate Fresh(acc: seq<Device>, devs: seq<Device>) {
    && (forall i, j :: 0 <= i < |acc| && 0 <= j < |devs| ==> !SameDevice(acc[i].id, devs[j].id))
    && (forall i, j :: 0 <= i < j < |devs| ==> !SameDevice(devs[i].id, devs[j].id))
  }

  function AllMirrored(devs: seq<Device>): (r: seq<Device>)
    ensures |r| == |devs|
  {
    if devs == [] then [] else [Mirrored(devs[0])] + AllMirrored(devs[1..])
  }

  lemma {:induction false} DevicesBack(ids: seq<MtdId>, acc: seq<Device>, devs: seq<Device>)
    requires WfIds(ids) && devs != [] && NonEmpty(devs) && Fresh(acc, devs)
    requires forall i :: 0 <= i < |devs| ==> WfShown(ids, devs[i])
    ensures ParseDevices(ids, DevicesFormat(devs), acc) ==
            if AllDevicesBig(devs) then Some(acc + AllMirrored(devs)) else None
    decreases |devs|
  {
    hide DeviceParse, DeviceFormat, AllBig, WfShown, Fresh, AllDevicesBig, Mirror;
    var d, rest := devs[0], devs[1..];
    FreshStep(acc, devs);
    LastBig(d);
    DevicesBigCons(devs);
    DeviceTextNonEmpty(d);
    if rest == [] {
      DeviceBack(ids, acc, d, "");
      assert DeviceFormat(d) + "" == DeviceFormat(d);
      assert devs == [d] && AllMirrored(devs) == [Mirrored(d)];
    } else {
      var later := ";" + DevicesFormat(rest);
      DeviceBack(ids, acc, d, later);
      assert DevicesFormat(devs) == DeviceFormat(d) + later && later[1..] == DevicesFormat(rest);
      DevicesBack(ids, acc + [Mirrored(d)], rest);
      assert acc + [Mirrored(d)] + AllMirrored(rest) == acc + AllMirrored(devs);
    }
  }

  lemma FreshStep(acc: seq<Device>, devs: seq<Device>)
    requires Fresh(acc, devs) && devs != []
    ensures Fresh(acc + [Mirrored(devs[0])], devs[1..]) && FindDevice(acc, devs[0].id).None?
  {
  }

  lemma LastBig(d: Device)
    ensures AllDevicesBig([]) && (AllDevicesBig([d]) <==> AllBig(d.parts))
  {
    assert [d][0] == d;
  }

  lemma DevicesBigCons(devs: seq<Device>)
    requires devs != []
    ensures AllDevicesBig(devs) <==> AllBig(devs[0].parts) && AllDevicesBig(devs[1..])
  {
    if AllBig(devs[0].parts) && AllDevicesBig(devs[1..]) {
      forall i | 0 <= i < |devs| ensures AllBig(devs[i].parts) {
        assert i > 0 ==> devs[i] == devs[1..][i - 1];
      }
    }
  }

  /** A name is found exactly when an id has it, and the first such id is the one found. */
  lemma {:induction false} FirstIdFound(ids: seq<MtdId>, name: string, k: nat)
    ensures k < |ids| && ids[k].mtdId == name && (forall j :: 0 <= j < k ==> ids[j].mtdId != name) ==>
              FindId(ids, name) == Some(ids[k])
    ensures FindId(ids, name) == None <==> forall j :: 0 <= j < |ids| ==> ids[j].mtdId != name
  {
    if ids != [] {
      FirstIdFound(ids[1..], name, if k == 0 then 0 else k - 1);
      assert forall j :: 0 < j < |ids| ==> ids[j] == ids[1..][j - 1];
    }
  }

  /** With distinct mtd-ids every id on the list is found by its own name. */
  lemma {:induction false} DistinctIdsFound(ids: seq<MtdId>, k: nat)
    requires k < |ids| && forall i, j :: 0 <= i < j < |ids| ==> ids[i].mtdId != ids[j].mtdId
    ensures FindId(ids, ids[k].mtdId) == Some(ids[k])
  {
    if k > 0 {
      DistinctIdsFound(ids[1..], k - 1);
    }
  }

  /** A table of different valid devices, known by their mtd-ids. */
  ghost predicate WfShownTable(ids: seq<MtdId>, devs: seq<Device>) {
    && WfIds(ids) && Fresh([], devs)
    && forall i :: 0 <= i < |devs| ==> WfShown(ids, devs[i])
  }

  /** The same, each with partitions at distinct offsets. */
  ghost predicate WfTable(ids: seq<MtdId>, devs: seq<Device>) {
    && WfIds(ids) && Fresh([], devs)
    && forall i :: 0 <= i < |devs| ==> WfPrinted(ids, devs[i])
  }

  /** Printing then parsing, for every valid table: the devices come back in order, each with its groups of
      equal offsets turned round, unless a partition is smaller than the parser accepts; then the printed
      text does not parse at all. */
  lemma PrintParseMirrors(ids: seq<MtdId>, devs: seq<Device>)
    requires WfShownTable(ids, devs) && devs != []
    ensures NonEmpty(devs)
    ensures ParseMtdparts(ids, Print(devs)) == if AllDevicesBig(devs) then Some(AllMirrored(devs)) else None
  {
    forall i | 0 <= i < |devs|
      ensures devs[i].parts != []
    {
      assert WfShown(ids, devs[i]);
    }
    DevicesBack(ids, [], devs);
    assert [] + AllMirrored(devs) == AllMirrored(devs);
    var text := Print(devs);
    assert text[..9] == PREFIX && text[9..] == DevicesFormat(devs);
    DevicesTextNonEmpty(devs);
  }

  /** Each partition equals the one at the other end of its group of equal offsets. */
  ghost predicate TiesAgree(devs: seq<Device>) {
    forall d, i :: 0 <= d < |devs| && 0 <= i < |devs[d].parts| ==> devs[d].parts[Opposite(devs[d].parts, i)] == devs[d].parts[i]
  }

  lemma {:induction false} MirroredAt(devs: seq<Device>, d: nat)
    requires d < |devs|
    ensures AllMirrored(devs)[d] == Mirrored(devs[d])
  {
    if d > 0 {
      MirroredAt(devs[1..], d - 1);
    }
  }

  lemma MirrorIsSame(parts: seq<Part>)
    ensures Mirror(parts) == parts <==> forall i :: 0 <= i < |parts| ==> parts[Opposite(parts, i)] == parts[i]
  {
    forall i | 0 <= i < |parts|
      ensures Mirror(parts)[i] == parts[Opposite(parts, i)]
    {
      MirrorOffsets(parts, i);
    }
    hide Mirror;
  }

  /** The mirrored table is the table itself exactly when tied partitions agree. */
  lemma MirrorSame(devs: seq<Device>)
    ensures AllMirrored(devs) == devs <==> TiesAgree(devs)
  {
    forall d | 0 <= d < |devs|
      ensures AllMirrored(devs)[d] == Mirrored(devs[d])
      ensures Mirror(devs[d].parts) == devs[d].parts <==>
              forall i :: 0 <= i < |devs[d].parts| ==> devs[d].parts[Opposite(devs[d].parts, i)] == devs[d].parts[i]
    {
      MirroredAt(devs, d);
      MirrorIsSame(devs[d].parts);
    }
    hide AllMirrored, Mirror, Opposite;
    if AllMirrored(devs) == devs {
      forall d | 0 <= d < |devs|
        ensures Mirror(devs[d].parts) == devs[d].parts
      {
        assert AllMirrored(devs)[d] == devs[d];
      }
    }
    if TiesAgree(devs) {
      forall d | 0 <= d < |devs|
        ensures AllMirrored(devs)[d] == devs[d]
      {
        assert Mirror(devs[d].parts) == devs[d].parts;
      }
    }
  }

  /** Printing then parsing gives a valid table back exactly when no partition is smaller than the parser
      accepts and tied partitions agree. */
  lemma PrintParseExact(ids: seq<MtdId>, devs: seq<Device>)
    requires WfShownTable(ids, devs) && devs != []
    ensures NonEmpty(devs)
    ensures ParseMtdparts(ids, Print(devs)) == Some(devs) <==> AllDevicesBig(devs) && TiesAgree(devs)
  {
    hide AllMirrored, ParseMtdparts, Print, TiesAgree;
    PrintParseMirrors(ids, devs);
    MirrorSame(devs);
  }

  const CHIP := MtdId(0, 0x10_0000, "nand0", Nand(512))

  /** Concretely: two partitions at one offset come back swapped. */
  lemma TiesNotRestored()
    ensures var a, b := Part(4096, 4096, Some("a"), false), Part(4096, 4096, Some("b"), false);
            var devs := [Device(CHIP, [a, b], 2)];
            WfShownTable([CHIP], devs) && NonEmpty(devs) && ParseMtdparts([CHIP], Print(devs)) != Some(devs)
  {
    var a, b := Part(4096, 4096, Some("a"), false), Part(4096, 4096, Some("b"), false);
    var devs := [Device(CHIP, [a, b], 2)];
    ChipShown(a, b);
    hide ParseMtdparts, Print;
    PrintParseExact([CHIP], devs);
    assert IsGroup([a, b], 0, 0, 1);
    OppositeIs([a, b], 0, 0, 1);
    assert devs[0].parts[0] != devs[0].parts[Opposite(devs[0].parts, 0)];
  }

  lemma ChipShown(a: Part, b: Part)
    requires a == Part(4096, 4096, Some("a"), false) && b == Part(4096, 4096, Some("b"), false)
    ensures WfShownTable([CHIP], [Device(CHIP, [a, b], 2)])
  {
    assert WfPart(CHIP, a) && WfPart(CHIP, b);
  }

  /** Concretely: '-' at the last erase block of a device gives a partition smaller than the parser's minimum, which is
      printed and then refused. */
  lemma SmallNotRestored()
    ensures PartValidate(CHIP, Part(SIZE_REMAINING, 0xFFE00, None, false)) == Some(LAST_BLOCK)
    ensures var devs := [Device(CHIP, [LAST_BLOCK], 1)];
            WfShownTable([CHIP], devs) && NonEmpty(devs) && ParseMtdparts([CHIP], Print(devs)) == None
  {
    var devs := [Device(CHIP, [LAST_BLOCK], 1)];
    LastBlock();
    hide ParseMtdparts, Print, WfShownTable, AllDevicesBig, PartValidate;
    PrintParseMirrors([CHIP], devs);
  }

  const LAST_BLOCK := Part(512, 0xFFE00, None, false)

  lemma LastBlock()
    ensures PartValidate(CHIP, Part(SIZE_REMAINING, 0xFFE00, None, false)) == Some(LAST_BLOCK)
    ensures var devs := [Device(CHIP, [LAST_BLOCK], 1)]; WfShownTable([CHIP], devs) && !AllDevicesBig(devs)
  {
    var devs := [Device(CHIP, [LAST_BLOCK], 1)];
    assert WfPart(CHIP, LAST_BLOCK);
    assert devs[0].parts[0] == LAST_BLOCK;
  }

  /** With distinct offsets, printing then parsing is the identity unless a partition is too small. */
  lemma PrintParse(ids: seq<MtdId>, devs: seq<Device>)
    requires WfTable(ids, devs) && devs != []
    ensures NonEmpty(devs)
    ensures ParseMtdparts(ids, Print(devs)) == if AllDevicesBig(devs) then Some(devs) else None
  {
    forall d | 0 <= d < |devs|
      ensures WfShown(ids, devs[d]) && Mirror(devs[d].parts) == devs[d].parts && AllMirrored(devs)[d] == devs[d]
    {
      assert WfPrinted(ids, devs[d]);
      MirrorDistinct(devs[d].parts);
      MirroredAt(devs, d);
    }
    hide ParseMtdparts, Print, WfShown, Mirror;
    PrintParseMirrors(ids, devs);
    assert AllMirrored(devs) == devs;
  }

  lemma DeviceTextNonEmpty(d: Device)
    requires d.parts != []
    ensures DeviceFormat(d) != ""
  {
  }

  lemma DevicesTextNonEmpty(devs: seq<Device>)
    requires devs != [] && NonEmpty(devs)
    ensures DevicesFormat(devs) != ""
  {
    DeviceTextNonEmpty(devs[0]);
  }

  // ---- everything the parser accepts is valid ----

  /** A device as the parser builds it: known id, at least one partition, sorted, all valid and inside. */
  ghost predicate ParsedDevice(ids: seq<MtdId>, d: Device) {
    && WfId(d.id) && FindId(ids, d.id.mtdId) == Some(d.id)
    && d.parts != [] && d.numParts == |d.parts| % 65536
    && Sorted(d.parts) && WfParts(d.id, d.parts)
  }

  lemma ParsedName(s: string)
    ensures PartParse(s).Some? ==> WfName(PartParse(s).value.value.name)
  {
  }

  lemma {:induction false} ParsedParts(id: MtdId, s: string, offset: u32)
    requires WfId(id)
    ensures ParseParts(id, s, offset).Some? ==> WfParts(id, ParseParts(id, s, offset).value.value)
    decreases |s|
  {
    hide PartParse, PartValidate, InDevice;
    if s != "" && s[0] != ';' && PartParse(s).Some? {
      var p := PartParse(s).value;
      var v := PartValidate(id, Placed(p.value, offset));
      ParsedName(s);
      if v.Some? {
        ValidatedIsInDevice(id, Placed(p.value, offset));
        ValidatedName(id, Placed(p.value, offset));
        ParsedParts(id, p.rest, End(v.value));
      }
    }
  }

  lemma ValidatedName(id: MtdId, p: Part)
    requires WfId(id)
    ensures PartValidate(id, p).Some? ==> PartValidate(id, p).value.name == p.name
  {
  }

  lemma {:induction false} SortAllValid(id: MtdId, parts: seq<Part>)
    requires WfId(id) && WfParts(id, parts)
    ensures SortAll(parts).Some? ==>
              var r := SortAll(parts).value;
              Sorted(r) && WfParts(id, r) && multiset(r) == multiset(parts)
  {
    if parts != [] {
      var n := |parts| - 1;
      var init, last := parts[..n], parts[n];
      SortAllValid(id, init);
      if SortAll(parts).Some? {
        var r := SortAll(init).value;
        InsertedSorted(r, last);
        InsertedParts(id, r, last);
        assert parts == init + [last];
      }
    }
  }

  lemma InsertedParts(id: MtdId, parts: seq<Part>, p: Part)
    requires WfId(id) && WfParts(id, parts) && WfPart(id, p)
    ensures WfParts(id, Inserted(parts, p))
    ensures multiset(Inserted(parts, p)) == multiset(parts) + multiset{p}
  {
    var k := InsertIndex(parts, p.offset);
    assert parts == parts[..k] + parts[k..];
  }

  lemma {:induction false} FindIdName(ids: seq<MtdId>, name: string)
    ensures FindId(ids, name).Some? ==> FindId(ids, name).value.mtdId == name
  {
    if ids != [] {
      FindIdName(ids[1..], name);
    }
  }

  lemma DeviceParseValid(ids: seq<MtdId>, devs: seq<Device>, s: string)
    requires WfIds(ids) && DeviceParse(ids, devs, s).Some?
    ensures ParsedDevice(ids, DeviceParse(ids, devs, s).value.value)
  {
    hide ParseParts, SortAll;
    var i := IndexOf(s, ':');
    FindIdName(ids, s[..i]);
    var id := FindId(ids, s[..i]).value;
    var parts := ParseParts(id, s[i + 1..], FirstOffset(devs, id)).value.value;
    ParsedParts(id, s[i + 1..], FirstOffset(devs, id));
    SortAllValid(id, parts);
    assert |multiset(parts)| == |parts| && |multiset(SortAll(parts).value)| == |SortAll(parts).value|;
  }

  lemma {:induction false} ParseDevicesValid(ids: seq<MtdId>, s: string, devs: seq<Device>)
    requires WfIds(ids) && Fresh([], devs) && forall i :: 0 <= i < |devs| ==> ParsedDevice(ids, devs[i])
    ensures ParseDevices(ids, s, devs).Some? ==>
              var r := ParseDevices(ids, s, devs).value;
              Fresh([], r) && forall i :: 0 <= i < |r| ==> ParsedDevice(ids, r[i])
    decreases |s|
  {
    hide DeviceParse, ParsedDevice;
    if s != "" && DeviceParse(ids, devs, s).Some? {
      var d := DeviceParse(ids, devs, s).value;
      DeviceParseValid(ids, devs, s);
      if FindDevice(devs, d.value.id).None? {
        ParseDevicesValid(ids, d.rest, devs + [d.value]);
      }
    }
  }

  /** Whatever text is accepted, the table read from it names known devices, each once, with sorted, aligned,
      non-empty partitions inside the device. */
  lemma ParsedTableValid(ids: seq<MtdId>, text: string)
    requires WfIds(ids) && ParseMtdparts(ids, text).Some?
    ensures text[..9] == "mtdparts=" && |text| > 9
    ensures var devs := ParseMtdparts(ids, text).value;
            Fresh([], devs) && forall i :: 0 <= i < |devs| ==> ParsedDevice(ids, devs[i])
  {
    hide ParseDevices, ParsedDevice;
    ParseDevicesValid(ids, text[9..], []);
  }

  // ---- reading back under any list of ids ----

  /** Different valid devices, whatever ids are known. */
  ghost predicate ValidDevices(devs: seq<Device>) {
    Fresh([], devs) && forall i :: 0 <= i < |devs| ==> WfDevice(devs[i])
  }

  /** Every device is found by its own mtd-id. */
  ghost predicate Known(ids: seq<MtdId>, devs: seq<Device>) {
    forall i :: 0 <= i < |devs| ==> FindId(ids, devs[i].id.mtdId) == Some(devs[i].id)
  }

  /** Different valid devices are read back exactly when they are known, no partition is too small, and tied
      partitions agree. */
  lemma ReadBackExact(ids: seq<MtdId>, devs: seq<Device>)
    requires WfIds(ids) && ValidDevices(devs) && devs != []
    ensures NonEmpty(devs)
    ensures ParseMtdparts(ids, Print(devs)) == Some(devs)
            <==> Known(ids, devs) && AllDevicesBig(devs) && TiesAgree(devs)
  {
    forall i | 0 <= i < |devs|
      ensures devs[i].parts != []
    {
      assert WfDevice(devs[i]);
    }
    hide ParseMtdparts, Print, TiesAgree, AllDevicesBig, WfDevice;
    if ParseMtdparts(ids, Print(devs)) == Some(devs) {
      ParsedTableValid(ids, Print(devs));
      forall i | 0 <= i < |devs|
        ensures FindId(ids, devs[i].id.mtdId) == Some(devs[i].id)
      {
        assert ParsedDevice(ids, devs[i]);
      }
    }
    if Known(ids, devs) {
      PrintParseExact(ids, devs);
    }
  }

  // ---- which small partitions can be read ----

  /** Large enough, or filled up to the end of the device. */
  predicate BigOrLast(id: MtdId, p: Part) {
    p.size >= MIN_PART_SIZE || p.offset + p.size == id.size
  }

  lemma ParsedBigOrLast(id: MtdId, s: string, offset: u32)
    requires WfId(id) && PartParse(s).Some?
    ensures var v := PartValidate(id, Placed(PartParse(s).value.value, offset)); v.Some? ==> BigOrLast(id, v.value)
  {
    ParsedSize(s);
    hide PartParse;
  }

  lemma ParsedSize(s: string)
    requires PartParse(s).Some?
    ensures PartParse(s).value.value.size >= MIN_PART_SIZE
  {
    hide ParseOffset, ParseName, ParseRo, ParseEnd, MemsizeParse;
  }

  lemma {:induction false} PartsBigOrLast(id: MtdId, s: string, offset: u32)
    requires WfId(id)
    ensures ParseParts(id, s, offset).Some? ==>
              forall p :: p in ParseParts(id, s, offset).value.value ==> BigOrLast(id, p)
    decreases |s|
  {
    hide PartParse, PartValidate, BigOrLast;
    if s != "" && s[0] != ';' && PartParse(s).Some? {
      var p := PartParse(s).value;
      var v := PartValidate(id, Placed(p.value, offset));
      ParsedBigOrLast(id, s, offset);
      if v.Some? {
        PartsBigOrLast(id, p.rest, End(v.value));
      }
    }
  }

  lemma {:induction false} SortAllMembers(parts: seq<Part>)
    ensures SortAll(parts).Some? ==> forall p :: p in SortAll(parts).value ==> p in parts
  {
    if parts != [] {
      var n := |parts| - 1;
      SortAllMembers(parts[..n]);
      assert parts == parts[..n] + [parts[n]];
    }
  }

  lemma {:induction false} DevicesBigOrLast(ids: seq<MtdId>, s: string, devs: seq<Device>)
    requires WfIds(ids) && forall d, p :: d in devs && p in d.parts ==> BigOrLast(d.id, p)
    ensures ParseDevices(ids, s, devs).Some? ==>
              forall d, p :: d in ParseDevices(ids, s, devs).value && p in d.parts ==> BigOrLast(d.id, p)
    decreases |s|
  {
    hide DeviceParse, BigOrLast;
    if s != "" && DeviceParse(ids, devs, s).Some? {
      var d := DeviceParse(ids, devs, s).value;
      DeviceBigOrLast(ids, devs, s);
      if FindDevice(devs, d.value.id).None? {
        DevicesBigOrLast(ids, d.rest, devs + [d.value]);
      }
    }
  }

  lemma DeviceBigOrLast(ids: seq<MtdId>, devs: seq<Device>, s: string)
    requires WfIds(ids) && DeviceParse(ids, devs, s).Some?
    ensures var d := DeviceParse(ids, devs, s).value.value; forall p :: p in d.parts ==> BigOrLast(d.id, p)
  {
    hide ParseParts, SortAll, BigOrLast;
    var i := IndexOf(s, ':');
    var id := FindId(ids, s[..i]).value;
    PartsBigOrLast(id, s[i + 1..], FirstOffset(devs, id));
    SortAllMembers(ParseParts(id, s[i + 1..], FirstOffset(devs, id)).value.value);
  }

  /** In every table read from text, a partition below the minimum is one that '-' filled up to the end of its device. */
  lemma SmallEndsDevice(ids: seq<MtdId>, text: string)
    requires WfIds(ids) && ParseMtdparts(ids, text).Some?
    ensures forall d, p :: d in ParseMtdparts(ids, text).value && p in d.parts ==>
              p.size >= MIN_PART_SIZE || p.offset + p.size == d.id.size
  {
    hide ParseDevices;
    DevicesBigOrLast(ids, text[9..], []);
  }

  // ---- devices that are in the table already ----

  /** Two ids name the same device exactly when both type and number agree. */
  lemma SameDeviceExact(a: MtdId, b: MtdId)
    ensures SameDevice(a, b) <==> a.num == b.num && (a.geometry.Nor? <==> b.geometry.Nor?)
  {
  }

  /** A definition without an offset for a device in the table continues where the device's last partition ends. */
  lemma ContinuesDevice(devs: seq<Device>, id: MtdId)
    ensures FirstOffset(devs, id) ==
            match FindDevice(devs, id)
            case Some(dev) =>
              if dev.parts == [] then 0
              else (dev.parts[|dev.parts| - 1].offset + dev.parts[|dev.parts| - 1].size) % 0x1_0000_0000
            case None => 0
  {
  }
}
