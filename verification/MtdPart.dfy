/**
  Flash partitions (`cmd_jffs2.c`): validation against the device, and the
  text of one partition definition, read by `part_parse` and written by
  `generate_mtdparts`.
 */
module MtdPart {
  import opened Common
  import opened MtdText

  const SIZE_REMAINING: u32 := 0xffff_ffff
  const OFFSET_NOT_SPECIFIED: u32 := 0xffff_ffff
  const MIN_PART_SIZE: nat := 4096

  /** A partition; `name` is None when the name was generated from size and offset. */
  datatype Part = Part(size: u32, offset: u32, name: Option<string>, ro: bool)

  /** Erase granularity: sector start offsets of a NOR chip, erase block size of a NAND chip. */
  datatype Geometry = Nor(sectors: seq<u32>) | Nand(eraseSize: nat)

  /** An entry of the `mtdids` list. */
  datatype MtdId = MtdId(num: nat, size: u32, mtdId: string, geometry: Geometry)

  /** Same device: same type and number. */
  predicate SameDevice(a: MtdId, b: MtdId) {
    a.geometry.Nor? == b.geometry.Nor? && a.num == b.num
  }

  ghost predicate WfId(id: MtdId) {
    && id.size < SIZE_REMAINING && ':' !in id.mtdId
    && (id.geometry.Nand? ==> id.geometry.eraseSize > 0)
  }

  // ---- part_validate ----

  predicate Aligned(id: MtdId, offset: u32, size: u32)
    requires id.geometry.Nand? ==> id.geometry.eraseSize > 0
  {
    match id.geometry
    case Nor(sectors) =>
      offset in sectors && ((offset + size) % U32 in sectors || id.size == (offset + size) % U32)
    case Nand(eraseSize) =>
      offset % eraseSize == 0 && size % eraseSize == 0
  }

  /** `part_validate`: the partition with a fill-up size resolved, or None when it is refused. */
  function PartValidate(id: MtdId, p: Part): Option<Part>
    requires id.geometry.Nand? ==> id.geometry.eraseSize > 0
  {
    var size: u32 := if p.size == SIZE_REMAINING then (id.size - p.offset) % U32 else p.size;
    var end := (p.offset + size) % U32;
    if p.offset > id.size then None
    else if end <= p.offset then None
    else if end > id.size then None
    else if Aligned(id, p.offset, size) then Some(p.(size := size))
    else None
  }

  /** A partition that lies in the device, without wrap-around, on erase boundaries, and is not empty. */
  ghost predicate InDevice(id: MtdId, p: Part)
    requires WfId(id)
  {
    0 < p.size && p.offset + p.size <= id.size && Aligned(id, p.offset, p.size)
  }

  lemma ValidatedIsInDevice(id: MtdId, p: Part)
    requires WfId(id)
    ensures PartValidate(id, p).Some? ==> InDevice(id, PartValidate(id, p).value)
    ensures InDevice(id, p) ==> PartValidate(id, p) == Some(p)
  {
  }

  /** Validation in full: a partition is accepted exactly when, with '-' replaced by all that is left of the device, it
      is not empty, lies in the device, and starts and ends on erase boundaries (a NOR partition may also end with the
      device); nothing but the size changes. */
  lemma ValidateExact(id: MtdId, p: Part, q: Part)
    requires WfId(id)
    ensures PartValidate(id, p) == Some(q) <==>
            && q.offset == p.offset && q.name == p.name && q.ro == p.ro
            && (if p.size == 0xffff_ffff then q.offset + q.size == id.size else q.size == p.size)
            && q.size > 0 && q.offset + q.size <= id.size
            && match id.geometry
               case Nor(sectors) =>
                 && (exists i :: 0 <= i < |sectors| && sectors[i] == q.offset)
                 && (q.offset + q.size == id.size || exists i :: 0 <= i < |sectors| && sectors[i] == q.offset + q.size)
               case Nand(eraseSize) => q.offset % eraseSize == 0 && q.size % eraseSize == 0
  {
    AlignedExact(id, q);
    assert Aligned(id, p.offset, q.size) == Aligned(id, q.offset, q.size) || q.offset != p.offset;
    hide Aligned;
  }

  lemma AlignedExact(id: MtdId, q: Part)
    requires WfId(id)
    ensures q.offset + q.size <= id.size ==>
              (Aligned(id, q.offset, q.size) <==>
               match id.geometry
               case Nor(sectors) =>
                 && (exists i :: 0 <= i < |sectors| && sectors[i] == q.offset)
                 && (q.offset + q.size == id.size || exists i :: 0 <= i < |sectors| && sectors[i] == q.offset + q.size)
               case Nand(eraseSize) => q.offset % eraseSize == 0 && q.size % eraseSize == 0)
  {
  }

  // ---- part_parse ----

  /** `strchr`. */
  function IndexOf(s: string, c: char): (i: int)
    ensures -1 <= i < |s|
    ensures i >= 0 ==> s[i] == c && c !in s[..i]
    ensures i < 0 ==> c !in s
  {
    if s == "" then -1
    else if s[0] == c then 0
    else
      var i := IndexOf(s[1..], c);
      assert i >= 0 ==> s[..i + 1] == [s[0]] + s[1..][..i];
      if i < 0 then -1 else i + 1
  }

  datatype Parsed<T> = Parsed(value: T, rest: string)

  /** Size field: a number, or '-' for all remaining space. */
  function ParseSize(s: string): (r: Option<Parsed<u32>>)
    ensures r.Some? ==> |r.value.rest| < |s|
  {
    if Head(s) == '-' then Some(Parsed(SIZE_REMAINING, s[1..]))
    else
      var n := MemsizeParse(s);
      if n.value < MIN_PART_SIZE then None else Some(Parsed(n.value, n.rest))
  }

  function ParseOffset(s: string): (r: Parsed<u32>)
    ensures |r.rest| <= |s|
  {
    if Head(s) == '@' then
      var n := MemsizeParse(s[1..]);
      Parsed(n.value, n.rest)
    else Parsed(OFFSET_NOT_SPECIFIED, s)
  }

  function ParseName(s: string): Option<Parsed<Option<string>>> {
    if Head(s) != '(' then Some(Parsed(None, s))
    else
      var i := IndexOf(s[1..], ')');
      if i <= 0 then None else Some(Parsed(Some(s[1..][..i]), s[1..][i + 1..]))
  }

  function ParseRo(s: string): Parsed<bool> {
    if |s| >= 2 && s[..2] == "ro" then Parsed(true, s[2..]) else Parsed(false, s)
  }

  /** End of a definition: a comma leads to the next one, which a fill-up partition does not allow. */
  function ParseEnd(s: string, size: u32): Option<string> {
    if Head(s) == ',' then (if size == SIZE_REMAINING then None else Some(s[1..]))
    else if s == "" || s[0] == ';' then Some(s)
    else None
  }

  function PartParse(s: string): (r: Option<Parsed<Part>>)
    ensures r.Some? ==> |r.value.rest| < |s|
  {
    match ParseSize(s)
    case None => None
    case Some(size) =>
      var offset := ParseOffset(size.rest);
      match ParseName(offset.rest)
      case None => None
      case Some(name) =>
        var ro := ParseRo(name.rest);
        match ParseEnd(ro.rest, size.value)
        case None => None
        case Some(rest) => Some(Parsed(Part(size.value, offset.value, name.value, ro.value), rest))
  }

  // ---- printing ----

  function OffsetText(p: Part, prevEnd: nat): string {
    if p.offset != prevEnd then "@" + MemsizeFormat(p.offset) else ""
  }

  function NameText(p: Part): string {
    match p.name
    case None => ""
    case Some(name) => "(" + name + ")"
  }

  function RoText(p: Part): string {
    if p.ro then "ro" else ""
  }

  /** One partition; its offset is written only when it does not continue at `prevEnd`. */
  function PartFormat(p: Part, prevEnd: nat): string {
    MemsizeFormat(p.size) + OffsetText(p, prevEnd) + NameText(p) + RoText(p)
  }

  /** Names that survive printing: what `part_parse` can have produced. */
  ghost predicate WfName(name: Option<string>) {
    name.Some? ==> name.value != "" && ')' !in name.value
  }

  /** What can follow a partition definition. */
  predicate IsTail(s: string) {
    s == "" || s[0] == ',' || s[0] == ';'
  }

  lemma RoRoundTrip(p: Part, tail: string)
    requires p.ro || IsTail(tail)
    ensures ParseRo(RoText(p) + tail) == Parsed(p.ro, tail)
    ensures !Numeric(Head(RoText(p) + tail)) && Head(RoText(p) + tail) != '@' && Head(RoText(p) + tail) != '('
  {
    if p.ro {
      assert ("ro" + tail)[..2] == "ro" && ("ro" + tail)[2..] == tail;
    } else {
      assert "" + tail == tail;
    }
  }

  lemma {:induction false} IndexOfFirst(name: string, rest: string)
    requires ')' !in name
    ensures IndexOf(name + ")" + rest, ')') == |name|
  {
    var s := name + ")" + rest;
    if name != "" {
      assert s[0] == name[0];
      assert s[1..] == name[1..] + ")" + rest;
      IndexOfFirst(name[1..], rest);
    }
  }

  lemma NameRoundTrip(p: Part, rest: string)
    requires WfName(p.name) && Head(rest) != '('
    ensures ParseName(NameText(p) + rest) == Some(Parsed(p.name, rest))
  {
    if p.name.Some? {
      var name := p.name.value;
      var s := NameText(p) + rest;
      IndexOfFirst(name, rest);
      assert s[1..] == name + ")" + rest;
      assert (name + ")" + rest)[..|name|] == name;
      assert (name + ")" + rest)[|name| + 1..] == rest;
    } else {
      assert NameText(p) + rest == rest;
    }
  }

  lemma OffsetRoundTrip(p: Part, prevEnd: nat, rest: string)
    requires !Numeric(Head(rest)) && Head(rest) != '@'
    ensures ParseOffset(OffsetText(p, prevEnd) + rest) ==
            Parsed(if p.offset != prevEnd then p.offset else OFFSET_NOT_SPECIFIED, rest)
  {
    if p.offset != prevEnd {
      MemsizeRoundTrip(p.offset, rest);
      var s := OffsetText(p, prevEnd) + rest;
      assert s[0] == '@' && s[1..] == MemsizeFormat(p.offset) + rest;
    } else {
      assert OffsetText(p, prevEnd) + rest == rest;
    }
  }

  lemma SizeRoundTrip(p: Part, rest: string)
    requires !Numeric(Head(rest))
    ensures ParseSize(MemsizeFormat(p.size) + rest) ==
            if p.size < MIN_PART_SIZE then None else Some(Parsed(p.size, rest))
  {
    MemsizeHead(p.size);
    MemsizeRoundTrip(p.size, rest);
    assert Head(MemsizeFormat(p.size) + rest) == MemsizeFormat(p.size)[0];
  }

  /** The text behind the size never continues a number. */
  lemma FieldHeads(p: Part, prevEnd: nat, tail: string)
    requires p.ro || IsTail(tail)
    ensures var c := Head(NameText(p) + (RoText(p) + tail)); !Numeric(c) && c != '@'
    ensures !Numeric(Head(OffsetText(p, prevEnd) + (NameText(p) + (RoText(p) + tail))))
  {
    RoRoundTrip(p, tail);
    if p.name.None? {
      assert NameText(p) + (RoText(p) + tail) == RoText(p) + tail;
    }
    if p.offset == prevEnd {
      assert OffsetText(p, prevEnd) + (NameText(p) + (RoText(p) + tail)) == NameText(p) + (RoText(p) + tail);
    }
  }

  lemma FieldsInOrder(a: string, b: string, c: string, d: string, e: string)
    ensures a + b + c + d + e == a + (b + (c + (d + e)))
  {
  }

  /** What a definition makes of the text behind it: a comma leads on, a semicolon or the end stays, all else is wrong. */
  function Continues(q: Part, tail: string): Option<Parsed<Part>> {
    if tail == "" || tail[0] == ';' then Some(Parsed(q, tail))
    else if tail[0] == ',' then Some(Parsed(q, tail[1..]))
    else None
  }

  /** The fields behind the size, read back. */
  lemma FieldsRoundTrip(p: Part, prevEnd: nat, tail: string)
    requires (p.ro || IsTail(tail)) && WfName(p.name)
    ensures var r3 := RoText(p) + tail;
            var r2 := NameText(p) + r3;
            var r1 := OffsetText(p, prevEnd) + r2;
            && !Numeric(Head(r1))
            && ParseOffset(r1) == Parsed(if p.offset != prevEnd then p.offset else OFFSET_NOT_SPECIFIED, r2)
            && ParseName(r2) == Some(Parsed(p.name, r3))
            && ParseRo(r3) == Parsed(p.ro, tail)
  {
    hide ParseOffset, ParseName, ParseRo, OffsetText, NameText, RoText, Numeric, WfName;
    FieldHeads(p, prevEnd, tail);
    OffsetRoundTrip(p, prevEnd, NameText(p) + (RoText(p) + tail));
    RoRoundTrip(p, tail);
    NameRoundTrip(p, RoText(p) + tail);
  }

  /** Reading back one printed partition, whatever follows a read-only one: it fails exactly when the size is below 4096
      or the text does not go on as it should. */
  lemma PartRoundTrip(p: Part, prevEnd: nat, tail: string)
    requires (p.ro || IsTail(tail)) && WfName(p.name) && p.size != SIZE_REMAINING
    ensures PartParse(PartFormat(p, prevEnd) + tail) ==
            if p.size < 4096 then None
            else Continues(p.(offset := if p.offset != prevEnd then p.offset else OFFSET_NOT_SPECIFIED), tail)
  {
    hide MemsizeFormat, PartParse, PartFormat, ParseSize, ParseOffset, ParseName, ParseRo, OffsetText, NameText, RoText, Numeric, WfName;
    var r3 := RoText(p) + tail;
    var r2 := NameText(p) + r3;
    var r1 := OffsetText(p, prevEnd) + r2;
    FieldsRoundTrip(p, prevEnd, tail);
    FormatFields(p, prevEnd, tail);
    SizeRoundTrip(p, r1);
    FromFields(MemsizeFormat(p.size) + r1, if p.size < 4096 then None else Some(Parsed(p.size, r1)),
               if p.offset != prevEnd then p.offset else OFFSET_NOT_SPECIFIED, r2, p.name, r3, p.ro, tail);
  }

  lemma FormatFields(p: Part, prevEnd: nat, tail: string)
    ensures PartFormat(p, prevEnd) + tail ==
            MemsizeFormat(p.size) + (OffsetText(p, prevEnd) + (NameText(p) + (RoText(p) + tail)))
  {
    hide MemsizeFormat, OffsetText, NameText, RoText;
    FieldsInOrder(MemsizeFormat(p.size), OffsetText(p, prevEnd), NameText(p), RoText(p), tail);
  }

  /** A definition from what its fields are read as. */
  lemma FromFields(s: string, size: Option<Parsed<u32>>, offset: u32, r2: string, name: Option<string>, r3: string, ro: bool,
                   tail: string)
    requires ParseSize(s) == size
    requires size.Some? ==> ParseOffset(size.value.rest) == Parsed(offset, r2)
    requires ParseName(r2) == Some(Parsed(name, r3)) && ParseRo(r3) == Parsed(ro, tail)
    ensures PartParse(s) ==
            if size.None? || (size.value.value == SIZE_REMAINING && Head(tail) == ',') then None
            else Continues(Part(size.value.value, offset, name, ro), tail)
  {
    hide ParseSize, ParseOffset, ParseName, ParseRo;
  }

  /** A definition with '-' for its size takes all that is left, and no other definition may follow it. */
  lemma FillUpRead(p: Part, prevEnd: nat, tail: string)
    requires (p.ro || IsTail(tail)) && WfName(p.name)
    ensures PartParse("-" + (OffsetText(p, prevEnd) + (NameText(p) + (RoText(p) + tail)))) ==
            if Head(tail) == ',' then None
            else Continues(p.(size := 0xffff_ffff, offset := if p.offset != prevEnd then p.offset else 0xffff_ffff), tail)
  {
    hide MemsizeFormat, PartParse, PartFormat, ParseSize, ParseOffset, ParseName, ParseRo, OffsetText, NameText, RoText, Numeric, WfName;
    var r3 := RoText(p) + tail;
    var r2 := NameText(p) + r3;
    var r1 := OffsetText(p, prevEnd) + r2;
    FieldsRoundTrip(p, prevEnd, tail);
    FillUpSize(r1);
    FromFields("-" + r1, Some(Parsed(0xffff_ffff, r1)), if p.offset != prevEnd then p.offset else 0xffff_ffff, r2, p.name, r3,
               p.ro, tail);
  }

  lemma FillUpSize(rest: string)
    ensures ParseSize("-" + rest) == Some(Parsed(0xffff_ffff, rest))
  {
    assert ("-" + rest)[0] == '-' && ("-" + rest)[1..] == rest;
  }
}
