/**
  `mtdparts_init` and `generate_mtdparts_save` (`cmd_jffs2.c`) over the globals
  they keep, proved against module `MtdCache`.
 */
module MtdCommands {
  import opened Common
  import opened MtdText
  import opened MtdPart
  import opened MtdTable
  import opened MtdParse
  import opened MtdDriver
  import opened MtdCache

  class MtdGlobals {
    const pf: Platform
    var envIds: Option<string>      // variable mtdids
    var envParts: Option<string>    // variable mtdparts
    var lastIds: string
    var lastParts: string
    var ids: seq<MtdId>
    var devices: seq<Device>
    ghost var gen: nat              // how often the ids were read
    ghost var devGen: nat           // the reading whose entries the devices refer to

    constructor (pf: Platform)
      requires WfPlatform(pf)
      ensures this.pf == pf && View() == INITIAL && Valid()
    {
      this.pf := pf;
      envIds, envParts, lastIds, lastParts, ids, devices := None, None, "", "", [], [];
      gen, devGen := 0, 0;
    }

    ghost function View(): State
      reads this
    {
      State(envIds, envParts, lastIds, lastParts, ids, devices, gen, devGen)
    }

    ghost predicate Valid()
      reads this
    {
      WfPlatform(pf) && GoodIds(ids)
    }

    /** `devices_init`. */
    method DevicesInit()
      requires Valid()
      modifies this`lastParts, this`devices
      ensures Valid() && View() == NoDevices(old(View()))
    {
      lastParts, devices := "", [];
    }

    /** The partition half of `mtdparts_init`. */
    method ParseOrSkip(idsChanged: bool) returns (rc: int)
      requires Valid()
      modifies this`lastParts, this`devices, this`devGen
      ensures Valid() && Result(View(), rc) == RefreshParts(old(View()), idsChanged)
    {
      hide ParseMtdparts;
      if envParts.Some? && (lastParts == "" || lastParts != envParts.value || idsChanged) {
        DevicesInit();
        rc, devices := ScanMtdparts(ids, envParts.value);
        if rc != 0 {
          return 1;
        }
        lastParts, devGen := envParts.value, gen;
        return 0;
      }
      if envParts.None? && lastParts != "" {
        DevicesInit();
      }
      return 0;
    }

    /** `mtdparts_init`. */
    method MtdpartsInit() returns (rc: int)
      requires Valid()
      modifies this
      ensures Valid() && Result(View(), rc) == Init(pf, old(View()))
    {
      hide RefreshParts;
      if envIds.None? {
        if pf.defaultIds.None? {
          return 1;
        }
        envIds := pf.defaultIds;
      }
      var text := envIds.value;
      if |text| > MTDIDS_MAXLEN - 1 {
        return 1;
      }
      if envParts.Some? && |envParts.value| > MTDPARTS_MAXLEN - 1 {
        return 1;
      }
      var idsChanged := !(lastIds != "" && lastIds == text);
      if idsChanged {
        gen := gen + 1;
        var parsed := pf.readIds(text);
        if parsed.None? {
          ids, lastIds := [], "";
          DevicesInit();
          return 1;
        }
        assert GoodIds(parsed.value);
        ids, lastIds := parsed.value, text;
      }
      rc := ParseOrSkip(idsChanged);
    }

    /** `generate_mtdparts_save` into the cache, as every editing command calls it. */
    method GenerateSave() returns (rc: int)
      requires Valid() && forall i :: 0 <= i < |devices| ==> 0 < devices[i].numParts == |devices[i].parts|
      modifies this`lastParts, this`envParts
      ensures Valid() && NonEmpty(devices) && View() == Save(old(View()))
      ensures rc == 0 <==> devices == [] || |DevicesFormat(devices)| <= MTDPARTS_MAXLEN - 1
    {
      hide DevicesFormat;
      rc, lastParts := GenerateMtdparts(devices, MTDPARTS_MAXLEN);
      envParts := if lastParts != "" && rc == 0 then Some(lastParts) else None;
    }
  }
}
