/**
  The cursor-advancing loops of `cmd_jffs2.c` over the text of `mtdparts`:
  number scanning, the partition and device loops of the parser, and the
  printer with its length accounting.
 */
module MtdDriver {
  import opened Common
  import opened MtdText
  import opened MtdPart
  import opened MtdTable
  import opened MtdParse

  /** The digit loop of `simple_strtoul`. */
  method ScanDigits(text: string, from: nat, base: nat) returns (value: u32, p: nat)
    requires from <= |text|
    ensures from <= p <= |text| && Digits(text[from..], base, 0) == Number(value, text[p..])
  {
    value, p := 0, from;
    while p < |text| && IsDigitIn(text[p], base)
      invariant from <= p <= |text|
      invariant Digits(text[from..], base, 0) == Digits(text[p..], base, value)
    {
      assert text[p..][1..] == text[p + 1..];
      value := (value * base + DigitValue(text[p])) % U32;
      p := p + 1;
    }
  }

  /** `memsize_parse`: a number and its unit suffix. */
  method ScanMemsize(text: string, from: nat) returns (value: u32, p: nat)
    requires from <= |text|
    ensures from <= p <= |text| && MemsizeParse(text[from..]) == Number(value, text[p..])
  {
    var s := text[from..];
    if Head(s) != '0' {
      value, p := ScanDigits(text, from, 10);
    } else if from + 2 < |text| && text[from + 1] == 'x' && IsHexDigit(text[from + 2]) {
      assert s[2..] == text[from + 2..] && s[1..][0] == 'x';
      value, p := ScanDigits(text, from + 2, 16);
    } else {
      assert s[1..] == text[from + 1..];
      value, p := ScanDigits(text, from + 1, 8);
    }
    var unit := if p < |text| then Unit(text[p]) else 1;
    if unit != 1 {
      assert text[p..][1..] == text[p + 1..];
      value := (value * unit) % U32;
      p := p + 1;
    }
  }

  /** The search loops of `strchr`: the next `c` from `from` on, or -1. */
  method ScanFor(text: string, from: nat, c: char) returns (p: int)
    requires from <= |text|
    ensures IndexOf(text[from..], c) == if p < 0 then -1 else p - from
    ensures p < 0 || from <= p < |text|
  {
    p := from;
    while p < |text|
      invariant from <= p <= |text|
      invariant var i := IndexOf(text[p..], c);
                IndexOf(text[from..], c) == if i < 0 then -1 else i + (p - from)
    {
      if text[p] == c {
        return;
      }
      assert text[p..][1..] == text[p + 1..];
      p := p + 1;
    }
    return -1;
  }

  /** The size field of a definition: a number or '-'. */
  method ScanSize(s: string) returns (ok: bool, size: u32, p: nat)
    ensures p <= |s|
    ensures ParseSize(s) == if ok then Some(Parsed(size, s[p..])) else None
  {
    if s != "" && s[0] == '-' {
      return true, SIZE_REMAINING, 1;
    }
    assert s[0..] == s;
    size, p := ScanMemsize(s, 0);
    ok := size >= MIN_PART_SIZE;
  }

  /** The optional offset field, behind '@'. */
  method ScanOffset(s: string, from: nat) returns (offset: u32, p: nat)
    requires from <= |s|
    ensures from <= p <= |s| && ParseOffset(s[from..]) == Parsed(offset, s[p..])
  {
    if from < |s| && s[from] == '@' {
      assert s[from..][1..] == s[from + 1..];
      offset, p := ScanMemsize(s, from + 1);
    } else {
      offset, p := OFFSET_NOT_SPECIFIED, from;
    }
  }

  /** The optional name, between parentheses. */
  method ScanName(s: string, from: nat) returns (ok: bool, name: Option<string>, p: nat)
    requires from <= |s|
    ensures from <= p <= |s|
    ensures ParseName(s[from..]) == if ok then Some(Parsed(name, s[p..])) else None
  {
    if from == |s| || s[from] != '(' {
      return true, None, from;
    }
    assert s[from..][1..] == s[from + 1..];
    var q := ScanFor(s, from + 1, ')');
    if q <= from + 1 {
      return false, None, from;
    }
    ghost var body := s[from + 1..];
    assert body[..q - from - 1] == s[from + 1..q] && body[q - from..] == s[q + 1..];
    return true, Some(s[from + 1..q]), q + 1;
  }

  /** `part_parse`: one partition definition. */
  method ScanPart(s: string) returns (r: Option<Parsed<Part>>)
    ensures r == PartParse(s)
  {
    hide ParseSize, ParseOffset, ParseName;
    var sizeOk, size, p := ScanSize(s);
    if !sizeOk {
      return None;
    }
    var offset;
    offset, p := ScanOffset(s, p);
    var nameOk, name;
    nameOk, name, p := ScanName(s, p);
    if !nameOk {
      return None;
    }
    var ro := p + 2 <= |s| && s[p..p + 2] == "ro";
    assert p + 2 <= |s| ==> s[p..][..2] == s[p..p + 2] && s[p..][2..] == s[p + 2..];
    if ro {
      p := p + 2;
    }
    if p < |s| && s[p] == ',' {
      if size == SIZE_REMAINING {
        return None;
      }
      p := p + 1;
    } else if p < |s| && s[p] != ';' {
      return None;
    }
    return Some(Parsed(Part(size, offset, name, ro), s[p..]));
  }

  /** The partition loop of `device_parse`: collects the partitions of one device. */
  method ScanParts(id: MtdId, text: string, offset: u32) returns (r: Option<Parsed<seq<Part>>>)
    requires WfId(id)
    ensures r == ParseParts(id, text, offset)
  {
    var p, at, done: seq<Part> := text, offset, [];
    BehindNothing(ParseParts(id, text, offset));
    while p != "" && p[0] != ';'
      invariant ParseParts(id, text, offset) == Behind(done, ParseParts(id, p, at))
      decreases |p|
    {
      var part := ScanPart(p);
      if part.None? {
        return None;
      }
      var v := PartValidate(id, Placed(part.value.value, at));
      if v.None? {
        return None;
      }
      BehindOne(done, v.value, ParseParts(id, part.value.rest, End(v.value)));
      p, at, done := part.value.rest, End(v.value), done + [v.value];
    }
    assert done + [] == done;
    return Some(Parsed(done, p));
  }

  lemma BehindNothing(r: Option<Parsed<seq<Part>>>)
    ensures Behind([], r) == r
  {
    if r.Some? {
      assert [] + r.value.value == r.value.value;
    }
  }

  function Behind(done: seq<Part>, r: Option<Parsed<seq<Part>>>): Option<Parsed<seq<Part>>> {
    match r
    case None => None
    case Some(x) => Some(Parsed(done + x.value, x.rest))
  }

  lemma BehindOne(done: seq<Part>, q: Part, r: Option<Parsed<seq<Part>>>)
    ensures Behind(done, Prepend(q, r)) == Behind(done + [q], r)
  {
    if r.Some? {
      assert done + ([q] + r.value.value) == (done + [q]) + r.value.value;
    }
  }

  /** `id_find_by_mtd_id`. */
  method LookupId(ids: seq<MtdId>, name: string) returns (r: Option<MtdId>)
    ensures r == FindId(ids, name)
  {
    var i := 0;
    assert ids[0..] == ids;
    while i < |ids|
      invariant i <= |ids| && FindId(ids[i..], name) == FindId(ids, name)
    {
      if ids[i].mtdId == name {
        return Some(ids[i]);
      }
      assert ids[i..][1..] == ids[i + 1..];
      i := i + 1;
    }
    return None;
  }

  /** `device_find`. */
  method LookupDevice(devs: seq<Device>, id: MtdId) returns (r: Option<Device>)
    ensures r == FindDevice(devs, id)
  {
    var i := 0;
    assert devs[0..] == devs;
    while i < |devs|
      invariant i <= |devs| && FindDevice(devs[i..], id) == FindDevice(devs, id)
    {
      if SameDevice(devs[i].id, id) {
        return Some(devs[i]);
      }
      assert devs[i..][1..] == devs[i + 1..];
      i := i + 1;
    }
    return None;
  }

  /** The loop that moves the parsed partitions into the device's sorted list. */
  method SortParts(parts: seq<Part>) returns (r: Option<seq<Part>>)
    ensures r == SortAll(parts)
  {
    var sorted: seq<Part>, i := [], 0;
    while i < |parts|
      invariant i <= |parts| && SortAll(parts[..i]) == Some(sorted)
    {
      var clash, at := FindInsertion(sorted, parts[i].offset);
      assert parts[..i + 1][..i] == parts[..i];
      if clash {
        SortFails(parts, i + 1);
        return None;
      }
      sorted := sorted[..at] + [parts[i]] + sorted[at..];
      i := i + 1;
    }
    assert parts[..i] == parts;
    return Some(sorted);
  }

  lemma {:induction false} SortFails(parts: seq<Part>, i: nat)
    requires i <= |parts| && SortAll(parts[..i]).None?
    ensures SortAll(parts).None?
    decreases |parts| - i
  {
    if i < |parts| {
      assert parts[..i + 1][..i] == parts[..i];
      SortFails(parts, i + 1);
    } else {
      assert parts[..i] == parts;
    }
  }

  /** `device_parse`: the mtd-id, its partitions, and the list they are sorted into. */
  method ScanDevice(ids: seq<MtdId>, devs: seq<Device>, s: string) returns (r: Option<Parsed<Device>>)
    requires WfIds(ids)
    ensures r == DeviceParse(ids, devs, s)
  {
    hide ParseParts, SortAll, IndexOf;
    assert s[0..] == s;
    var colon := ScanFor(s, 0, ':');
    if colon < 0 {
      return None;
    }
    var id := LookupId(ids, s[..colon]);
    if id.None? {
      return None;
    }
    var dev := LookupDevice(devs, id.value);
    var offset := 0;
    if dev.Some? && dev.value.parts != [] {
      offset := End(dev.value.parts[|dev.value.parts| - 1]);
    }
    var parts := ScanParts(id.value, s[colon + 1..], offset);
    if parts.None? || parts.value.value == [] {
      return None;
    }
    var sorted := SortParts(parts.value.value);
    if sorted.None? {
      return None;
    }
    var rest := parts.value.rest;
    if rest != "" {
      rest := rest[1..];
    }
    return Some(Parsed(Device(id.value, sorted.value, |sorted.value| % 65536), rest));
  }

  /** The device loop of `parse_mtdparts`; on an error the table is left empty. */
  method ScanMtdparts(ids: seq<MtdId>, text: string) returns (rc: int, devices: seq<Device>)
    requires WfIds(ids)
    ensures match ParseMtdparts(ids, text)
            case None => rc == 1 && devices == []
            case Some(devs) => rc == 0 && devices == devs
  {
    devices := [];
    if |text| < 9 || text[..9] != PREFIX {
      return 1, [];
    }
    var p, err := text[9..], 1;
    while p != ""
      invariant ParseDevices(ids, text[9..], []) == ParseDevices(ids, p, devices)
      invariant err == 1 ==> p == text[9..] && devices == []
      invariant err == 0 ==> |text| > 9
      invariant err == 0 || err == 1
      decreases |p|
    {
      var d := ScanDevice(ids, devices, p);
      if d.None? {
        return 1, [];
      }
      var known := LookupDevice(devices, d.value.value.id);
      if known.Some? {
        return 1, [];
      }
      devices, p, err := devices + [d.value.value], d.value.rest, 0;
    }
    return err, devices;
  }

  // ---- generate_mtdparts ----

  /** Append a piece if it fits the space left. */
  method Put(out: string, max: nat, piece: string) returns (ok: bool, out': string, max': nat)
    ensures ok <==> |piece| <= max
    ensures ok ==> out' == out + piece && max' == max - |piece|
    ensures !ok ==> max' == 0
  {
    if |piece| > max {
      return false, out, 0;
    }
    return true, out + piece, max - |piece|;
  }

  /** One partition: size, offset when there is a gap, name when user supplied, read-only flag. */
  method PutPart(out: string, max: nat, p: Part, prevEnd: u32) returns (ok: bool, out': string, max': nat)
    ensures ok <==> |PartFormat(p, prevEnd)| <= max
    ensures ok ==> out' == out + PartFormat(p, prevEnd) && max' == max - |PartFormat(p, prevEnd)|
  {
    hide MemsizeFormat;
    ghost var a, b, c, d := MemsizeFormat(p.size), OffsetText(p, prevEnd), NameText(p), RoText(p);
    ok, out', max' := Put(out, max, MemsizeFormat(p.size));
    if ok && p.offset != prevEnd {
      ok, out', max' := Put(out', max', "@" + MemsizeFormat(p.offset));
    }
    if ok && p.name.Some? {
      ok, out', max' := Put(out', max', "(" + p.name.value + ")");
    }
    if ok && p.ro {
      ok, out', max' := Put(out', max', "ro");
    }
    assert ok ==> out' == out + (a + b + c + d);
  }

  /** The partitions of one device, separated by commas. */
  method PutParts(out: string, max: nat, parts: seq<Part>, numParts: nat) returns (ok: bool, out': string, max': nat)
    requires parts != [] && numParts == |parts|
    ensures ok <==> |PartsFormat(parts, 0)| <= max
    ensures ok ==> out' == out + PartsFormat(parts, 0) && max' == max - |PartsFormat(parts, 0)|
  {
    hide PartFormat;
    ghost var full := PartsFormat(parts, 0);
    out', max' := out, max;
    var prevEnd: u32, cnt := 0, 0;
    ok := true;
    assert parts[0..] == parts;
    while cnt < |parts|
      invariant 0 <= cnt <= |parts| && ok
      invariant out' + (if cnt < |parts| then PartsFormat(parts[cnt..], prevEnd) else "") == out + full
      invariant max' == max - (|out'| - |out|) && |out'| >= |out|
    {
      var p := parts[cnt];
      assert parts[cnt..][1..] == parts[cnt + 1..];
      ghost var rest := PartsFormat(parts[cnt..], prevEnd);
      ghost var before := out';
      ok, out', max' := PutPart(out', max', p, prevEnd);
      if !ok {
        return;
      }
      cnt := cnt + 1;
      if numParts > cnt {
        ok, out', max' := Put(out', max', ",");
        if !ok {
          return;
        }
        assert before + rest == out' + PartsFormat(parts[cnt..], End(p));
      }
      prevEnd := End(p);
    }
  }

  /** `generate_mtdparts`: the printed table when the text behind the prefix fits `buflen - 1` characters,
      otherwise an error and an empty text. */
  method GenerateMtdparts(devs: seq<Device>, buflen: nat) returns (rc: int, text: string)
    requires buflen > 0
    requires forall i :: 0 <= i < |devs| ==> 0 < devs[i].numParts == |devs[i].parts|
    ensures NonEmpty(devs)
    ensures if devs == [] || |DevicesFormat(devs)| <= buflen - 1
            then rc == 0 && text == Print(devs)
            else rc == 1 && text == ""
  {
    if devs == [] {
      return 0, "";
    }
    var ok, out, max := PutDevices(PREFIX, buflen - 1, devs);
    if !ok {
      return 1, "";
    }
    return 0, out;
  }

  method PutDevices(out: string, max: nat, devs: seq<Device>) returns (ok: bool, out': string, max': nat)
    requires devs != [] && forall i :: 0 <= i < |devs| ==> 0 < devs[i].numParts == |devs[i].parts|
    ensures NonEmpty(devs) && (ok <==> |DevicesFormat(devs)| <= max)
    ensures ok ==> out' == out + DevicesFormat(devs)
  {
    hide PartsFormat;
    ghost var full := DevicesFormat(devs);
    out', max', ok := out, max, true;
    var n := 0;
    assert devs[0..] == devs;
    while n < |devs|
      invariant 0 <= n <= |devs| && ok
      invariant out' + (if n < |devs| then DevicesFormat(devs[n..]) else "") == out + full
      invariant max' == max - (|out'| - |out|) && |out'| >= |out|
    {
      assert devs[n..][1..] == devs[n + 1..];
      ghost var rest := DevicesFormat(devs[n..]);
      ghost var before := out';
      ok, out', max' := PutDevice(out', max', devs[n]);
      if !ok {
        return;
      }
      n := n + 1;
      if n < |devs| {
        ok, out', max' := Put(out', max', ";");
        if !ok {
          return;
        }
        assert before + rest == out' + DevicesFormat(devs[n..]);
      }
    }
  }

  method PutDevice(out: string, max: nat, dev: Device) returns (ok: bool, out': string, max': nat)
    requires 0 < dev.numParts == |dev.parts|
    ensures ok <==> |DeviceFormat(dev)| <= max
    ensures ok ==> out' == out + DeviceFormat(dev) && max' == max - |DeviceFormat(dev)|
  {
    hide PartsFormat;
    ok, out', max' := Put(out, max, dev.id.mtdId + ":");
    if ok {
      ok, out', max' := PutParts(out', max', dev.parts, dev.numParts);
    }
  }
}
