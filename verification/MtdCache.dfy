/**
  The "last seen" cache of `cmd_jffs2.c`: `mtdparts_init` parses the variables
  only when they changed since the last time, and every command that edits the
  table rewrites both the variable and the cached text.

  Variables are values; reading the `mtdids` text is a parameter.  A device refers
  to the entry of its id, and reading the ids again frees all entries; so the model
  counts how often the ids were read, and notes the reading that a table refers to.
 */
module MtdCache {
  import opened Common
  import opened MtdText
  import opened MtdPart
  import opened MtdTable
  import opened MtdTies
  import opened MtdParse

  const MTDIDS_MAXLEN := 128
  const MTDPARTS_MAXLEN := 512

  /** The two environment variables, the cached copies, and the lists in memory. */
  datatype State = State(
    envIds: Option<string>,
    envParts: Option<string>,
    lastIds: string,
    lastParts: string,
    ids: seq<MtdId>,
    devices: seq<Device>,
    gen: nat,                  // how often the ids were read
    devGen: nat)               // the reading whose entries the devices refer to

  const INITIAL := State(None, None, "", "", [], [], 0, 0)

  /** The devices refer to entries that still exist. */
  predicate Live(s: State) {
    s.devices == [] || s.devGen == s.gen
  }

  /** How the `mtdids` text is read, and the text used when the variable is not set. */
  datatype Platform = Platform(readIds: string -> Option<seq<MtdId>>, defaultIds: Option<string>)

  /** The ids a platform can yield are usable: well-formed, with distinct names. */
  ghost predicate WfPlatform(pf: Platform) {
    forall text: string :: pf.readIds(text).Some? ==> GoodIds(pf.readIds(text).value)
  }

  ghost predicate GoodIds(ids: seq<MtdId>) {
    WfIds(ids) && forall i, j :: 0 <= i < j < |ids| ==> ids[i].mtdId != ids[j].mtdId
  }

  datatype Result = Result(state: State, rc: int)

  // ---- mtdparts_init ----

  /** `devices_init`. */
  function NoDevices(s: State): State {
    s.(lastParts := "", devices := [])
  }

  /** The ids step: skip it when the text is the cached one. */
  function RefreshIds(pf: Platform, s: State, text: string): Option<State> {
    if s.lastIds != "" && s.lastIds == text then Some(s)
    else
      match pf.readIds(text)
      case None => None
      case Some(ids) => Some(s.(ids := ids, lastIds := text, gen := s.gen + 1))
  }

  /** The partition step: parse when the variable or the ids changed, forget everything when it was unset. */
  function RefreshParts(s: State, idsChanged: bool): Result
    requires WfIds(s.ids)
  {
    match s.envParts
    case Some(parts) =>
      if s.lastParts == "" || s.lastParts != parts || idsChanged then
        match ParseMtdparts(s.ids, parts)
        case None => Result(NoDevices(s), 1)
        case Some(devices) => Result(s.(devices := devices, lastParts := parts, devGen := s.gen), 0)
      else Result(s, 0)
    case None =>
      if s.lastParts != "" then Result(NoDevices(s), 0) else Result(s, 0)
  }

  predicate IdsChanged(s: State, text: string) {
    !(s.lastIds != "" && s.lastIds == text)
  }

  function Init(pf: Platform, s0: State): Result
    requires WfPlatform(pf) && WfIds(s0.ids)
  {
    if s0.envIds.None? && pf.defaultIds.None? then Result(s0, 1)
    else
      var text := if s0.envIds.Some? then s0.envIds.value else pf.defaultIds.value;
      var s := s0.(envIds := Some(text));
      if |text| > MTDIDS_MAXLEN - 1 || (s.envParts.Some? && |s.envParts.value| > MTDPARTS_MAXLEN - 1) then Result(s, 1)
      else
        match RefreshIds(pf, s, text)
        case None => Result(NoDevices(s.(ids := [], lastIds := "", gen := s.gen + 1)), 1)
        case Some(s1) =>
          assert WfIds(s1.ids) by {
            assert IdsChanged(s, text) ==> GoodIds(pf.readIds(text).value);
          }
          RefreshParts(s1, IdsChanged(s, text))
  }

  // ---- commands ----

  /** `generate_mtdparts_save`: print into the cache and the variable; too long a text clears both. */
  function Save(s: State): State
    requires NonEmpty(s.devices)
  {
    if s.devices == [] || |DevicesFormat(s.devices)| > MTDPARTS_MAXLEN - 1 then s.(lastParts := "", envParts := None)
    else s.(lastParts := Print(s.devices), envParts := Some(Print(s.devices)))
  }

  /** The operation names things that exist. */
  predicate Editable(devs: seq<Device>, op: Op) {
    && (op.Add? ==> op.d < |devs| && (devs[op.d].id.geometry.Nand? ==> devs[op.d].id.geometry.eraseSize > 0))
    && (op.Delete? ==> op.d < |devs| && op.i < |devs[op.d].parts|)
  }

  /** The device list after one editing operation; the cursor plays no part in it. */
  function Edited(devs: seq<Device>, op: Op): seq<Device>
    requires Editable(devs, op)
  {
    var t := Table(devs, None, 0);
    match op
    case Add(d, p) => var r := PartAdd(t, d, p); if r.Some? then r.value.devices else devs
    case Delete(d, i) => PartDel(t, d, i).devices
    case NewDevice(dev) => devs + [dev]
    case Select(d, i) => devs
  }

  /** The first device of an empty table refers to the ids in memory; operations on a table keep its reading. */
  function WithEdit(s: State, op: Op): State
    requires Editable(s.devices, op)
  {
    s.(devices := Edited(s.devices, op), devGen := if s.devices == [] then s.gen else s.devGen)
  }

  datatype Command =
    | Sync                                  // any command starts with mtdparts_init
    | Edit(op: Op)                          // mtdparts add and mtdparts del
    | DelAll
    | SetIds(text: Option<string>)          // the user sets a variable
    | SetParts(text: Option<string>)

  /** The model of the command is defined; in every state of a run it is. */
  ghost predicate Possible(s: State, c: Command) {
    && WfIds(s.ids)
    && (c.Edit? ==> Editable(s.devices, c.op) && NonEmpty(Edited(s.devices, c.op)))
  }

  ghost function Execute(pf: Platform, s: State, c: Command): State
    requires WfPlatform(pf)
  {
    if !Possible(s, c) then s
    else
      match c
      case Sync => Init(pf, s).state
      case Edit(op) => Save(WithEdit(s, op))
      case DelAll => NoDevices(s.(envParts := None))
      case SetIds(text) => s.(envIds := text)
      case SetParts(text) => s.(envParts := text)
  }

  // ---- the invariant ----

  /** The cache never lies: a cached text parses to the table in memory, under the ids in memory, which are
      what the cached ids text means. */
  ghost predicate Sound(pf: Platform, s: State) {
    && GoodIds(s.ids)
    && (s.lastIds != "" ==> pf.readIds(s.lastIds) == Some(s.ids))
    && (s.lastParts != "" ==> ParseMtdparts(s.ids, s.lastParts) == Some(s.devices))
  }

  /** The table in memory: different valid devices, all on the list of ids, with distinct offsets and no partition
      below the parser's minimum. */
  ghost predicate Clean(s: State) {
    WfTable(s.ids, s.devices) && AllDevicesBig(s.devices)
  }

  /** Everything that holds in every state of a run: the cache is sound, the table valid, its ids alive, and the only
      table without a cached text is one whose text is too long. */
  ghost predicate Invariant(pf: Platform, s: State) {
    && Sound(pf, s) && Clean(s) && Live(s)
    && NonEmpty(s.devices) && (s.devices != [] && s.lastParts == "" ==> TooLong(s.devices))
  }

  lemma InitialInvariant(pf: Platform)
    ensures Invariant(pf, INITIAL)
  {
  }

  // ---- saving ----

  /** The text of the table does not fit: nothing is cached. */
  predicate TooLong(devs: seq<Device>)
    requires NonEmpty(devs)
  {
    devs != [] && |DevicesFormat(devs)| > MTDPARTS_MAXLEN - 1
  }

  lemma NonEmptyPrint(devs: seq<Device>)
    requires devs != [] && NonEmpty(devs)
    ensures Print(devs) != ""
  {
  }

  lemma ValidNonEmpty(devs: seq<Device>)
    requires ValidDevices(devs)
    ensures NonEmpty(devs)
  {
    forall i | 0 <= i < |devs|
      ensures devs[i].parts != []
    {
      assert WfDevice(devs[i]);
    }
  }

  /** For different valid devices under any ids, what is saved parses to the table exactly when the table is empty,
      does not fit, or has only known devices, no partition that is too small and no tied partitions that differ. */
  lemma SaveExact(s: State)
    requires WfIds(s.ids) && ValidDevices(s.devices)
    ensures NonEmpty(s.devices)
    ensures (Save(s).lastParts != "" ==> ParseMtdparts(s.ids, Save(s).lastParts) == Some(s.devices))
            <==> || s.devices == [] || TooLong(s.devices)
                 || (Known(s.ids, s.devices) && AllDevicesBig(s.devices) && TiesAgree(s.devices))
  {
    ValidNonEmpty(s.devices);
    hide ParseMtdparts, Print, DevicesFormat, AllDevicesBig, TiesAgree, Known, ValidDevices;
    if s.devices != [] {
      ReadBackExact(s.ids, s.devices);
      NonEmptyPrint(s.devices);
    }
  }

  /** What saving leaves in the variable and in the cache: the same text, or nothing when the table is empty or its text
      behind the prefix has more than 511 characters. */
  lemma SaveTexts(s: State)
    requires NonEmpty(s.devices)
    ensures var r := Save(s);
            && r == s.(lastParts := r.lastParts, envParts := r.envParts)
            && (if s.devices == [] || |DevicesFormat(s.devices)| > 511 then r.lastParts == "" && r.envParts == None
                else r.lastParts == "mtdparts=" + DevicesFormat(s.devices) && r.envParts == Some(r.lastParts))
  {
  }

  lemma CleanDevices(ids: seq<MtdId>, devs: seq<Device>)
    requires WfTable(ids, devs)
    ensures ValidDevices(devs) && Known(ids, devs) && TiesAgree(devs) && NonEmpty(devs)
  {
    forall d | 0 <= d < |devs|
      ensures WfDevice(devs[d]) && FindId(ids, devs[d].id.mtdId) == Some(devs[d].id)
      ensures Mirror(devs[d].parts) == devs[d].parts
    {
      assert WfPrinted(ids, devs[d]);
      MirrorDistinct(devs[d].parts);
    }
    forall d, i | 0 <= d < |devs| && 0 <= i < |devs[d].parts|
      ensures devs[d].parts[Opposite(devs[d].parts, i)] == devs[d].parts[i]
    {
      MirrorOffsets(devs[d].parts, i);
    }
    ValidNonEmpty(devs);
  }

  lemma SaveSound(pf: Platform, s: State, t: State)
    requires Sound(pf, s) && t == s.(devices := t.devices, devGen := t.devGen)
    requires WfTable(s.ids, t.devices) && AllDevicesBig(t.devices) && Live(t)
    ensures NonEmpty(t.devices) && Invariant(pf, Save(t))
  {
    hide ParseMtdparts, Print, DevicesFormat, AllDevicesBig, TiesAgree, Known, ValidDevices, WfTable;
    CleanDevices(s.ids, t.devices);
    SaveExact(t);
    if t.devices != [] {
      NonEmptyPrint(t.devices);
    }
  }

  // ---- edits ----

  /** The size a partition will have: '-' fills the device up. */
  function ResolvedSize(id: MtdId, p: Part): int {
    if p.size == SIZE_REMAINING then id.size - p.offset else p.size
  }

  /** What an operation has to bring along: an unused offset, a size the parser accepts, a known new device. */
  ghost predicate OpOk(ids: seq<MtdId>, devs: seq<Device>, op: Op) {
    match op
    case Add(d, p) =>
      && d < |devs| && WfName(p.name) && |devs[d].parts| < 255 && ResolvedSize(devs[d].id, p) >= MIN_PART_SIZE
      && forall i :: 0 <= i < |devs[d].parts| ==> devs[d].parts[i].offset != p.offset
    case Delete(d, i) => d < |devs| && i < |devs[d].parts|
    case NewDevice(dev) => WfPrinted(ids, dev) && AllBig(dev.parts) && FindDevice(devs, dev.id).None?
    case Select(d, i) => true
  }

  /** Every operation keeps a clean table clean. */
  lemma EditKeepsTable(ids: seq<MtdId>, devs: seq<Device>, op: Op)
    requires WfTable(ids, devs) && AllDevicesBig(devs) && OpOk(ids, devs, op)
    ensures Editable(devs, op) && WfTable(ids, Edited(devs, op)) && AllDevicesBig(Edited(devs, op))
  {
    match op
    case Add(d, p) => AddKeepsTable(ids, devs, d, p);
    case Delete(d, i) => DeleteKeepsTable(ids, devs, d, i);
    case NewDevice(dev) =>
    case Select(d, i) =>
  }

  /** Replacing a device by one with the same id. */
  lemma ReplaceKeepsTable(ids: seq<MtdId>, devs: seq<Device>, d: nat, dev: Device)
    requires WfTable(ids, devs) && AllDevicesBig(devs)
    requires d < |devs| && WfPrinted(ids, dev) && dev.id == devs[d].id && AllBig(dev.parts)
    ensures WfTable(ids, devs[d := dev]) && AllDevicesBig(devs[d := dev])
  {
    hide WfPrinted, AllBig;
  }

  lemma RemoveKeepsTable(ids: seq<MtdId>, devs: seq<Device>, d: nat)
    requires WfTable(ids, devs) && AllDevicesBig(devs) && d < |devs|
    ensures WfTable(ids, devs[..d] + devs[d + 1..]) && AllDevicesBig(devs[..d] + devs[d + 1..])
  {
    hide WfPrinted, AllBig;
  }

  lemma AddKeepsTable(ids: seq<MtdId>, devs: seq<Device>, d: nat, p: Part)
    requires WfTable(ids, devs) && AllDevicesBig(devs) && OpOk(ids, devs, Add(d, p))
    ensures Editable(devs, Add(d, p))
    ensures WfTable(ids, Edited(devs, Add(d, p))) && AllDevicesBig(Edited(devs, Add(d, p)))
  {
    var dev := devs[d];
    assert WfPrinted(ids, dev) && AllBig(dev.parts);
    var v := PartValidate(dev.id, p);
    if v.Some? && SortAdd(dev.parts, v.value).Some? {
      var dev' := Device(dev.id, Inserted(dev.parts, v.value), dev.numParts + 1);
      AddedDevice(ids, dev, p, v.value);
      hide WfPrinted, AllBig, WfTable, AllDevicesBig;
      ReplaceKeepsTable(ids, devs, d, dev');
    }
  }

  lemma AddedDevice(ids: seq<MtdId>, dev: Device, p: Part, q: Part)
    requires WfPrinted(ids, dev) && AllBig(dev.parts) && |dev.parts| < 255 && WfName(p.name)
    requires PartValidate(dev.id, p) == Some(q) && SortAdd(dev.parts, q).Some?
    requires ResolvedSize(dev.id, p) >= MIN_PART_SIZE
    requires forall i :: 0 <= i < |dev.parts| ==> dev.parts[i].offset != p.offset
    ensures WfPrinted(ids, Device(dev.id, Inserted(dev.parts, q), dev.numParts + 1)) && AllBig(Inserted(dev.parts, q))
  {
    ValidatedIsInDevice(dev.id, p);
    hide Inserted;
    InsertedSorted(dev.parts, q);
    InsertedWf(dev, q);
    InsertedDistinct(dev.parts, q);
    InsertedBig(dev.parts, q);
  }

  lemma InsertedBig(parts: seq<Part>, p: Part)
    requires AllBig(parts) && p.size >= MIN_PART_SIZE
    ensures AllBig(Inserted(parts, p))
  {
  }

  lemma DeleteKeepsTable(ids: seq<MtdId>, devs: seq<Device>, d: nat, i: nat)
    requires WfTable(ids, devs) && AllDevicesBig(devs) && OpOk(ids, devs, Delete(d, i))
    ensures WfTable(ids, Edited(devs, Delete(d, i))) && AllDevicesBig(Edited(devs, Delete(d, i)))
  {
    var dev := devs[d];
    assert WfPrinted(ids, dev) && AllBig(dev.parts);
    if dev.numParts == 1 {
      RemoveKeepsTable(ids, devs, d);
    } else {
      RemovedSorted(dev.parts, i);
      RemovedDistinct(dev.parts, i);
      RemovedWf(dev, i);
      assert AllBig(dev.parts[..i] + dev.parts[i + 1..]);
      ReplaceKeepsTable(ids, devs, d, Device(dev.id, dev.parts[..i] + dev.parts[i + 1..], dev.numParts - 1));
    }
  }

  /** What each operation makes of the list of devices. */
  lemma EditedExact(devs: seq<Device>, op: Op)
    requires Editable(devs, op) && forall d :: 0 <= d < |devs| ==> WfDevice(devs[d])
    ensures match op
            case Add(d, p) =>
              var r := PartAdd(Table(devs, None, 0), d, p);
              Edited(devs, op) == if r.Some? then r.value.devices else devs
            case Delete(d, i) =>
              var dev := devs[d];
              Edited(devs, op) ==
                if |dev.parts| == 1 then devs[..d] + devs[d + 1..]
                else devs[d := Device(dev.id, dev.parts[..i] + dev.parts[i + 1..], |dev.parts| - 1)]
            case NewDevice(dev) => Edited(devs, op) == devs + [dev]
            case Select(d, i) => Edited(devs, op) == devs
  {
    if op.Delete? {
      assert WfDevice(devs[op.d]);
    }
  }

  // ---- mtdparts_init ----

  lemma EmptyTextFails(ids: seq<MtdId>, text: string)
    requires WfIds(ids) && ParseMtdparts(ids, text).Some?
    ensures text != ""
  {
  }

  lemma RefreshPartsSound(pf: Platform, s: State, idsChanged: bool)
    requires GoodIds(s.ids) && (s.lastIds != "" ==> pf.readIds(s.lastIds) == Some(s.ids))
    requires !idsChanged ==> Sound(pf, s)
    ensures Sound(pf, RefreshParts(s, idsChanged).state)
    ensures s.envParts.Some? ==>
              match ParseMtdparts(s.ids, s.envParts.value)
              case Some(devs) => RefreshParts(s, idsChanged).rc == 0 && RefreshParts(s, idsChanged).state.devices == devs
              case None => RefreshParts(s, idsChanged).rc == 1 && RefreshParts(s, idsChanged).state.devices == []
    ensures s.envParts.None? ==>
              && RefreshParts(s, idsChanged).rc == 0
              && RefreshParts(s, idsChanged).state.devices == if s.lastParts != "" then [] else s.devices
    ensures RefreshParts(s, idsChanged).state.ids == s.ids
    ensures var r := RefreshParts(s, idsChanged).state;
            && r.envParts == s.envParts && r.envIds == s.envIds && r.lastIds == s.lastIds
            && (s.envParts.Some? && ParseMtdparts(s.ids, s.envParts.value).Some? ==> r.lastParts == s.envParts.value)
    ensures s.envParts.Some? && (idsChanged || Live(s)) ==> Live(RefreshParts(s, idsChanged).state)
    ensures s.envParts.None? ==> (Live(RefreshParts(s, idsChanged).state) <==> s.lastParts != "" || Live(s))
    ensures RefreshParts(s, idsChanged).state.lastParts == "" ==>
              RefreshParts(s, idsChanged).state.devices == [] || (s.lastParts == "" && s.envParts.None?)
  {
    hide ParseMtdparts;
    if s.envParts.Some? && ParseMtdparts(s.ids, s.envParts.value).Some? {
      EmptyTextFails(s.ids, s.envParts.value);
    }
  }

  /** The ids text in force for a call of `mtdparts_init`. */
  function IdsText(pf: Platform, s: State): Option<string> {
    if s.envIds.Some? then s.envIds else pf.defaultIds
  }

  /** The call gets as far as the ids: there is a text for them, and both texts have a legal length. */
  predicate Proceeds(pf: Platform, s: State) {
    && IdsText(pf, s).Some? && |IdsText(pf, s).value| <= 127
    && (s.envParts.Some? ==> |s.envParts.value| <= 511)
  }

  /** What the two variables mean for a table in memory: the parsed text, or without `mtdparts` no table, except
      that a table that is not cached is left alone. */
  function Meaning(pf: Platform, s: State): Option<seq<Device>>
    requires WfPlatform(pf) && Proceeds(pf, s)
  {
    match pf.readIds(IdsText(pf, s).value)
    case None => None
    case Some(ids) =>
      match s.envParts
      case Some(parts) => assert GoodIds(ids); ParseMtdparts(ids, parts)
      case None => Some(if s.lastParts != "" then [] else s.devices)
  }

  /** The call frees the entries that a table in memory refers to, and keeps the table: the ids are read again, but
      without `mtdparts` and without a cached text nothing removes the devices. */
  ghost predicate Strands(pf: Platform, s: State)
    requires WfPlatform(pf)
  {
    && Proceeds(pf, s) && pf.readIds(IdsText(pf, s).value).Some? && IdsChanged(s, IdsText(pf, s).value)
    && s.envParts.None? && s.lastParts == "" && s.devices != []
  }

  /** Skipping the parse gives what parsing would have given: a call succeeds exactly when it proceeds and the
      variables have a meaning, whatever was cached before; then the table in memory is that meaning, and
      otherwise it is unchanged or empty.  Its ids stay alive exactly when the call does not strand it. */
  lemma InitMeansParse(pf: Platform, s: State)
    requires WfPlatform(pf) && Sound(pf, s)
    ensures Sound(pf, Init(pf, s).state)
    ensures var r := Init(pf, s);
            if !Proceeds(pf, s) then r.rc == 1 && r.state.ids == s.ids && r.state.devices == s.devices
            else
              match Meaning(pf, s)
              case None => r.rc == 1 && r.state.devices == []
              case Some(devs) => r.rc == 0 && r.state.devices == devs && Some(r.state.ids) == pf.readIds(IdsText(pf, s).value)
    ensures Live(s) ==> (Live(Init(pf, s).state) <==> !Strands(pf, s))
    ensures var r := Init(pf, s).state;
            && r.envParts == s.envParts && r.envIds == IdsText(pf, s)
            && (Proceeds(pf, s) ==>
                  r.lastIds == if pf.readIds(IdsText(pf, s).value).Some? then IdsText(pf, s).value else "")
            && (Proceeds(pf, s) && Meaning(pf, s).Some? && s.envParts.Some? ==> r.lastParts == s.envParts.value)
    ensures var r := Init(pf, s).state;
            r.lastParts == "" ==> r.devices == [] || (r.devices == s.devices && s.lastParts == "")
  {
    hide ParseMtdparts, RefreshParts, Print, DevicesFormat;
    if Proceeds(pf, s) {
      var text := IdsText(pf, s).value;
      var s1 := s.(envIds := Some(text));
      var r := RefreshIds(pf, s1, text);
      assert GoodIds([]);
      if r.Some? {
        assert IdsChanged(s1, text) ==> GoodIds(pf.readIds(text).value);
        RefreshPartsSound(pf, r.value, IdsChanged(s1, text));
      }
    }
  }

  /** A table as the user may bring it in as text: distinct offsets, no partition filled up to less than the minimum,
      fewer than 256 partitions per device. */
  ghost predicate Tidy(devs: seq<Device>) {
    AllDevicesBig(devs) && forall d :: 0 <= d < |devs| ==> Distinct(devs[d].parts) && |devs[d].parts| < 256
  }

  /** What to check before `mtdparts_init`: a text that is about to be read is tidy, and a table that is not cached
      does not outlive its ids. */
  ghost predicate SyncOk(pf: Platform, s: State)
    requires WfPlatform(pf)
  {
    Proceeds(pf, s) && Meaning(pf, s).Some? ==>
      if s.envParts.Some? then Tidy(Meaning(pf, s).value)
      else s.lastParts == "" ==> s.devices == [] || !IdsChanged(s, IdsText(pf, s).value)
  }

  lemma TidyParsed(ids: seq<MtdId>, text: string)
    requires WfIds(ids) && ParseMtdparts(ids, text).Some?
    ensures var devs := ParseMtdparts(ids, text).value;
            Tidy(devs) <==> WfTable(ids, devs) && AllDevicesBig(devs)
  {
    ParsedTableValid(ids, text);
    hide ParseMtdparts, AllDevicesBig;
    var devs := ParseMtdparts(ids, text).value;
    forall d | 0 <= d < |devs|
      ensures WfPrinted(ids, devs[d]) <==> Distinct(devs[d].parts) && |devs[d].parts| < 256
    {
      assert ParsedDevice(ids, devs[d]);
      TidyDevice(ids, devs[d]);
    }
  }

  lemma TidyDevice(ids: seq<MtdId>, d: Device)
    requires ParsedDevice(ids, d)
    ensures WfPrinted(ids, d) <==> Distinct(d.parts) && |d.parts| < 256
  {
  }

  /** The check is exact: from a valid table with living ids, `mtdparts_init` leaves one if and only if it holds. */
  lemma SyncExact(pf: Platform, s: State)
    requires WfPlatform(pf) && Sound(pf, s) && Clean(s) && Live(s)
    ensures Clean(Init(pf, s).state) && Live(Init(pf, s).state) <==> SyncOk(pf, s)
  {
    InitMeansParse(pf, s);
    hide Init, ParseMtdparts, AllDevicesBig, WfTable, Tidy;
    if Proceeds(pf, s) && Meaning(pf, s).Some? {
      var ids := pf.readIds(IdsText(pf, s).value).value;
      assert GoodIds(ids);
      if s.envParts.Some? {
        TidyParsed(ids, s.envParts.value);
      } else {
        EmptyTable(ids);
      }
    } else {
      EmptyTable(Init(pf, s).state.ids);
    }
  }

  lemma EmptyTable(ids: seq<MtdId>)
    requires WfIds(ids)
    ensures WfTable(ids, []) && AllDevicesBig([])
  {
  }

  // ---- runs ----

  /** Conditions on the command alone, all of which can be checked before it is given. */
  ghost predicate Allowed(pf: Platform, s: State, c: Command)
    requires WfPlatform(pf)
  {
    (c.Sync? ==> SyncOk(pf, s)) && (c.Edit? ==> OpOk(s.ids, s.devices, c.op))
  }

  /** `mtdparts delall` leaves no table, no variable and no cached text. */
  lemma DelAllExact(pf: Platform, s: State)
    requires WfPlatform(pf) && WfIds(s.ids)
    ensures Execute(pf, s, DelAll) == s.(devices := [], envParts := None, lastParts := "")
  {
  }

  lemma ExecuteSound(pf: Platform, s: State, c: Command)
    requires WfPlatform(pf) && Invariant(pf, s) && Allowed(pf, s, c)
    ensures Possible(s, c) && Invariant(pf, Execute(pf, s, c))
  {
    hide Init, Save, ParseMtdparts, WfTable, AllDevicesBig, SyncOk, OpOk, Editable, Edited, TooLong, NonEmpty;
    match c
    case Sync =>
      InitMeansParse(pf, s);
      SyncExact(pf, s);
      CleanDevices(Init(pf, s).state.ids, Init(pf, s).state.devices);
    case Edit(op) =>
      EditKeepsTable(s.ids, s.devices, op);
      SaveSound(pf, s, WithEdit(s, op));
    case DelAll =>
      EmptyTable(s.ids);
      CleanDevices(s.ids, []);
    case SetIds(text) =>
    case SetParts(text) =>
  }

  ghost predicate RunOk(pf: Platform, s: State, cs: seq<Command>)
    requires WfPlatform(pf)
    decreases |cs|
  {
    cs != [] ==> Allowed(pf, s, cs[0]) && RunOk(pf, Execute(pf, s, cs[0]), cs[1..])
  }

  ghost function RunAll(pf: Platform, s: State, cs: seq<Command>): State
    requires WfPlatform(pf)
    decreases |cs|
  {
    if cs == [] then s else RunAll(pf, Execute(pf, s, cs[0]), cs[1..])
  }

  lemma {:induction false} RunSound(pf: Platform, s: State, cs: seq<Command>)
    requires WfPlatform(pf) && Invariant(pf, s) && RunOk(pf, s, cs)
    ensures Invariant(pf, RunAll(pf, s, cs))
    decreases |cs|
  {
    hide Execute, Invariant, Allowed;
    if cs != [] {
      ExecuteSound(pf, s, cs[0]);
      RunSound(pf, Execute(pf, s, cs[0]), cs[1..]);
    }
  }

  /** In every state reached from power-up by any run of commands and variable changes, a cached text parses to the
      table in memory, the table is valid and refers to ids that exist, and only a table too long has no cached text. */
  lemma CacheSound(pf: Platform, cs: seq<Command>)
    requires WfPlatform(pf) && RunOk(pf, INITIAL, cs)
    ensures var s := RunAll(pf, INITIAL, cs);
            && Sound(pf, s) && Clean(s) && Live(s)
            && NonEmpty(s.devices) && (s.devices != [] && s.lastParts == "" ==> TooLong(s.devices))
  {
    hide RunAll, RunOk;
    InitialInvariant(pf);
    RunSound(pf, INITIAL, cs);
  }

  // ---- where the cache fails ----

  /** A table whose text is too long stays in memory with nothing cached.  When `mtdids` is then set and read, the call
      succeeds and keeps the table, and its ids are alive afterwards if and only if the text is the cached one: any
      other text, even one that means the same ids, frees the entries that the devices refer to. */
  lemma StaleTable(pf: Platform, s: State, text: string)
    requires WfPlatform(pf) && Invariant(pf, s)
    requires TooLong(s.devices) && s.lastParts == "" && s.envParts.None?
    requires |text| < MTDIDS_MAXLEN && pf.readIds(text).Some?
    ensures var r := Init(pf, s.(envIds := Some(text)));
            && RunAll(pf, s, [SetIds(Some(text)), Sync]) == r.state
            && r.rc == 0 && r.state.devices == s.devices
            && (Live(r.state) <==> text == s.lastIds && text != "")
  {
    hide ParseMtdparts, Print, DevicesFormat, WfTable, AllDevicesBig, Init;
    var s1 := s.(envIds := Some(text));
    RunTwo(pf, s, SetIds(Some(text)), Sync);
    assert Execute(pf, s, SetIds(Some(text))) == s1;
    InitMeansParse(pf, s1);
  }

  /** The limit of the printer does not count the prefix, the limit of `mtdparts_init` does: a saved table is accepted
      by the next call if and only if its text behind the prefix has at most 502 characters. */
  lemma SavedAccepted(pf: Platform, s: State)
    requires WfPlatform(pf) && Sound(pf, s) && Clean(s) && Live(s)
    requires s.devices != [] && NonEmpty(s.devices) && !TooLong(s.devices)
    requires IdsText(pf, s).Some? && |IdsText(pf, s).value| < MTDIDS_MAXLEN && pf.readIds(IdsText(pf, s).value) == Some(s.ids)
    ensures var r := Init(pf, Save(s));
            && (r.rc == 0 <==> |DevicesFormat(s.devices)| <= 502)
            && r.state.devices == s.devices
  {
    hide ParseMtdparts, DevicesFormat, Init, Print, WfTable, AllDevicesBig;
    var t := Save(s);
    SaveSound(pf, s, s);
    PrintParse(s.ids, s.devices);
    PrintLength(s.devices);
    InitMeansParse(pf, t);
    assert t.envParts == Some(Print(s.devices)) && t.devices == s.devices;
    assert IdsText(pf, t) == IdsText(pf, s);
    assert Proceeds(pf, t) <==> |Print(s.devices)| <= 511;
    assert Proceeds(pf, t) ==> Meaning(pf, t) == Some(s.devices);
  }

  lemma PrintLength(devs: seq<Device>)
    requires devs != [] && NonEmpty(devs)
    ensures |Print(devs)| == 9 + |DevicesFormat(devs)|
  {
  }

  lemma RunTwo(pf: Platform, s: State, a: Command, b: Command)
    requires WfPlatform(pf)
    ensures var s1 := Execute(pf, s, a);
            && RunAll(pf, s, [a, b]) == Execute(pf, s1, b)
            && (RunOk(pf, s, [a, b]) <==> Allowed(pf, s, a) && Allowed(pf, s1, b))
  {
    hide Execute, Allowed;
    var s1 := Execute(pf, s, a);
    assert [a, b][1..] == [b] && [b][1..] == [];
    assert RunAll(pf, s1, [b]) == RunAll(pf, Execute(pf, s1, b), []);
    assert RunOk(pf, s1, [b]) <==> Allowed(pf, s1, b) && RunOk(pf, Execute(pf, s1, b), []);
  }

  lemma {:induction false} RunConcat(pf: Platform, s: State, a: seq<Command>, b: seq<Command>)
    requires WfPlatform(pf)
    ensures RunAll(pf, s, a + b) == RunAll(pf, RunAll(pf, s, a), b)
    ensures RunOk(pf, s, a + b) <==> RunOk(pf, s, a) && RunOk(pf, RunAll(pf, s, a), b)
    decreases |a|
  {
    hide Execute, Allowed;
    if a == [] {
      assert a + b == b;
    } else {
      assert (a + b)[1..] == a[1..] + b;
      RunConcat(pf, Execute(pf, s, a[0]), a[1..], b);
    }
  }

  // ---- runs that show it ----

  /** A platform on which two texts mean the same ids. */
  function DemoIds(text: string): Option<seq<MtdId>> {
    if text == "a" || text == "b" then Some([CHIP]) else None
  }

  const DEMO := Platform(DemoIds, None)
  /** A name of `n` characters. */
  function Name(n: nat): (s: string)
    ensures |s| == n && ')' !in s
  {
    if n == 0 then "" else Name(n - 1) + "x"
  }

  const FIRST := Part(4096, 0, Some(Name(470)), false)
  const ONE := Device(CHIP, [FIRST], 1)

  /** A second partition with a name of `n` characters. */
  function Second(n: nat): Part {
    Part(4096, 4096, Some(Name(n)), false)
  }

  function Two(n: nat): Device {
    Device(CHIP, [FIRST, Second(n)], 2)
  }

  lemma DemoPartLengths(n: nat)
    ensures |PartFormat(FIRST, 0)| == 474 && |PartFormat(Second(n), 4096)| == n + 4
  {
    assert Decimal(4) == "4";
    assert MemsizeFormat(4096) == "4k";
    hide Name, MemsizeFormat;
    assert |NameText(FIRST)| == 472 && |NameText(Second(n))| == n + 2;
    assert OffsetText(FIRST, 0) == "" && OffsetText(Second(n), 4096) == "";
    assert RoText(FIRST) == "" && RoText(Second(n)) == "";
  }

  /** The first table prints 480 characters behind the prefix, the second one 485 and its name. */
  lemma DemoLengths(n: nat)
    ensures NonEmpty([ONE]) && |DevicesFormat([ONE])| == 480 && |Print([ONE])| == 489
    ensures NonEmpty([Two(n)]) && |DevicesFormat([Two(n)])| == 485 + n
  {
    DemoPartLengths(n);
    hide PartFormat, Name;
    assert End(FIRST) == 4096;
    assert [FIRST, Second(n)][1..] == [Second(n)];
    assert |PartsFormat([FIRST, Second(n)], 0)| == 474 + 1 + (n + 4);
    assert |DeviceFormat(ONE)| == 480 && |DeviceFormat(Two(n))| == 485 + n;
  }

  lemma DemoTables(n: nat)
    requires n > 0
    ensures WfTable([CHIP], [ONE]) && AllDevicesBig([ONE]) && Tidy([ONE])
    ensures OpOk([CHIP], [ONE], Add(0, Second(n))) && Editable([ONE], Add(0, Second(n)))
    ensures Edited([ONE], Add(0, Second(n))) == [Two(n)]
  {
    DemoFirst();
    DemoAdded(n);
  }

  lemma DemoFirst()
    ensures WfTable([CHIP], [ONE]) && AllDevicesBig([ONE]) && Tidy([ONE])
  {
    hide Name;
    assert WfPart(CHIP, FIRST);
    assert WfDevice(ONE) && WfPrinted([CHIP], ONE);
  }

  lemma DemoAdded(n: nat)
    requires n > 0
    ensures OpOk([CHIP], [ONE], Add(0, Second(n))) && Editable([ONE], Add(0, Second(n)))
    ensures Edited([ONE], Add(0, Second(n))) == [Two(n)]
  {
    hide Name;
    assert [ONE][0].parts[0].offset == 0;
    assert InsertIndex([FIRST], 4096) == 1;
    assert [FIRST][..1] + [Second(n)] + [FIRST][1..] == [FIRST, Second(n)];
  }

  /** The ids are set and a text with one partition of a long name is read; then a partition is added. */
  function Upto(n: nat): seq<Command> {
    [SetIds(Some("a")), SetParts(Some(Print([ONE])))] + [Sync, Edit(Add(0, Second(n)))]
  }

  lemma DemoIsWf()
    ensures WfPlatform(DEMO)
  {
  }

  lemma UptoRuns(n: nat)
    requires n > 0
    ensures WfPlatform(DEMO) && RunOk(DEMO, INITIAL, Upto(n)) && NonEmpty([Two(n)])
    ensures RunAll(DEMO, INITIAL, Upto(n)) ==
            Save(State(Some("a"), Some(Print([ONE])), "a", Print([ONE]), [CHIP], [Two(n)], 1, 1))
  {
    DemoIsWf();
    DemoLengths(n);
    DemoTables(n);
    hide ParseMtdparts, Print, DevicesFormat, WfTable, AllDevicesBig, Tidy, OpOk, Editable, Edited, SyncOk, Save, RunAll, RunOk, Two, Second;
    var s1 := INITIAL.(envIds := Some("a"));
    var s2 := s1.(envParts := Some(Print([ONE])));
    RunConcat(DEMO, INITIAL, [SetIds(Some("a")), SetParts(Some(Print([ONE])))], [Sync, Edit(Add(0, Second(n)))]);
    RunTwo(DEMO, INITIAL, SetIds(Some("a")), SetParts(Some(Print([ONE]))));
    RunTwo(DEMO, s2, Sync, Edit(Add(0, Second(n))));
    assert Execute(DEMO, INITIAL, SetIds(Some("a"))) == s1;
    assert Execute(DEMO, s1, SetParts(Some(Print([ONE])))) == s2;
    DemoSync(s2);
    DemoEdit(n);
  }

  /** The state once the first text was read. */
  function ReadOnce(): State {
    State(Some("a"), Some(Print([ONE])), "a", Print([ONE]), [CHIP], [ONE], 1, 1)
  }

  lemma DemoSync(s: State)
    requires s == INITIAL.(envIds := Some("a"), envParts := Some(Print([ONE])))
    ensures WfPlatform(DEMO) && SyncOk(DEMO, s) && Execute(DEMO, s, Sync) == ReadOnce()
  {
    DemoIsWf();
    DemoLengths(1);
    DemoTables(1);
    PrintParse([CHIP], [ONE]);
    assert DEMO.readIds("a") == Some([CHIP]) && GoodIds([CHIP]);
    hide ParseMtdparts, Print, DevicesFormat, WfTable, AllDevicesBig, Tidy, GoodIds, DemoIds;
    var s1 := s.(ids := [CHIP], lastIds := "a", gen := 1);
    assert RefreshIds(DEMO, s, "a") == Some(s1);
    assert RefreshParts(s1, true) == Result(ReadOnce(), 0);
    hide RefreshIds, RefreshParts;
    assert Init(DEMO, s) == Result(ReadOnce(), 0);
  }

  lemma DemoEdit(n: nat)
    requires n > 0
    ensures WfPlatform(DEMO) && NonEmpty([Two(n)])
    ensures Execute(DEMO, ReadOnce(), Edit(Add(0, Second(n)))) == Save(ReadOnce().(devices := [Two(n)]))
  {
    DemoIsWf();
    DemoLengths(n);
    DemoTables(n);
    hide Save, Edited, Editable, Print, DevicesFormat, Two, Second;
  }

  /** Concretely: from power-up, a text of 489 characters is read and a partition with a name of 30 characters added,
      which makes the table too long; another text for the same ids then strands it. */
  lemma StaleReached()
    ensures WfPlatform(DEMO) && RunOk(DEMO, INITIAL, Upto(30))
    ensures var s := RunAll(DEMO, INITIAL, Upto(30) + [SetIds(Some("b")), Sync]);
            s.devices == [Two(30)] && s.ids == [CHIP] && !Live(s)
  {
    UptoRuns(30);
    DemoLengths(30);
    var s := RunAll(DEMO, INITIAL, Upto(30));
    CacheSound(DEMO, Upto(30));
    RunConcat(DEMO, INITIAL, Upto(30), [SetIds(Some("b")), Sync]);
    hide RunAll, RunOk, Upto, Two, DevicesFormat, Print, ParseMtdparts, Sound, Clean;
    StaleTable(DEMO, s, "b");
    InitMeansParse(DEMO, s.(envIds := Some("b")));
  }

  /** Concretely: with a name of 20 characters the table is saved, and the next initialisation refuses its text. */
  lemma SavedRefused()
    ensures WfPlatform(DEMO) && RunOk(DEMO, INITIAL, Upto(20))
    ensures var s := RunAll(DEMO, INITIAL, Upto(20));
            s.devices == [Two(20)] && s.lastParts != "" && WfIds(s.ids) && Init(DEMO, s).rc == 1
  {
    UptoRuns(20);
    DemoLengths(20);
    CacheSound(DEMO, Upto(20));
    NonEmptyPrint([Two(20)]);
    PrintLength([Two(20)]);
    hide RunAll, RunOk, Upto, Two, DevicesFormat, Print, ParseMtdparts, Clean;
    var s := RunAll(DEMO, INITIAL, Upto(20));
    assert !Proceeds(DEMO, s);
    InitMeansParse(DEMO, s);
  }
}
