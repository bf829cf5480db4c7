/** phNxpUciHal_handle_set_country_code and extcal_do_restrictions: a country code reconfigures the
    cascade, the runtime settings and the capability map, and is answered
    (uwb/halimpl/hal/phNxpUciHal_ext.cc:1250-1275, 1313-1370). */
module CountryCode {
  import opened Bytes
  import opened Tlv
  import opened TagMap
  import opened Uci
  import opened CountryCaps
  import opened CapsMask
  import Cascade
  import ConfigLines
  import ConfigParser

  const CAPS_NAME := "UWB_COUNTRY_CODE_CAPS"
  const STATUS_OK := 0x00
  const STATUS_UWB_OFF := 0x53

  /** Room for the blob, and the bytes behind it the scan may look at. */
  const CAPS_ROOM := MAX_DATA_LEN + 3

  /** What such a buffer held before. */
  type Stack = s: seq<byte> | |s| == CAPS_ROOM witness seq(CAPS_ROOM, i => 0)

  function Text(c: Code): string { [c.c0 as char, c.c1 as char] }

  /** Everything a country code can change: the configuration, the settings, whether the capability map
      was created, and the map. */
  datatype State = State(loaded: Cascade.Loaded, rt: Settings, mapCreated: bool, conf: TagMap)

  /** The blob, if it is configured and not empty. */
  function CapsOf(l: Cascade.Layers): Option<seq<byte>> {
    match Cascade.GetByteArray(l, CAPS_NAME, MAX_DATA_LEN)
    case Some(caps) => if |caps| > 0 then Some(caps) else None
    case None => None
  }

  /** The blob's effect, with `stack` the earlier contents of the buffer it is copied to. */
  function FromCaps(code: Code, caps: seq<byte>, stack: Stack): Settings
    requires |caps| <= MAX_DATA_LEN
  {
    AppliedCaps(code, caps + stack[|caps|..], |caps|)
  }

  const RESTRICTED_CHANNELS := "cal.restricted_channels"
  const UWB_DISABLE := "cal.uwb_disable"

  /** extcal_do_restrictions: the settings from the extra calibration files. */
  function Restrictions(l: Cascade.Layers, code: Code): Settings {
    Restricted(Cascade.GetNum(l, RESTRICTED_CHANNELS, 2), Cascade.GetNum(l, UWB_DISABLE, 1), code)
  }

  function Restricted(mask: Option<nat>, disable: Option<nat>, code: Code): Settings {
    Settings(if mask.Some? && mask.value < 0x1_0000 then mask.value else 0,
             ValidCode(code) && (disable.Some? ==> disable.value == 0), 0, [])
  }

  /** Under which names the configuration is looked up: the mask's low 16 bits; and a switch that disables UWB
      unless its low byte is zero, which it cannot enable for an invalid code. */
  lemma CalibrationSettings(l: Cascade.Layers, code: Code)
    ensures var r := Restrictions(l, code);
      && r.txOffset == 0 && r.txSends == []
      && (match Cascade.Find(l, "cal.restricted_channels") { case Some(Number(n)) => r.mask == n % 65536 case _ => r.mask == 0 })
      && (r.uwbEnable <==>
            ValidCode(code) && match Cascade.Find(l, "cal.uwb_disable") { case Some(Number(n)) => n % 256 == 0 case _ => true })
    ensures CapsOf(l) ==
      match Cascade.Find(l, "UWB_COUNTRY_CODE_CAPS")
      case Some(ByteArray(b)) => if 0 < |b| <= 4200 then Some(b) else None
      case _ => None
  {
  }

  /** What a new region changes besides the configuration: its capabilities apply, or, as long as there
      is no capability map, the calibration files' restrictions. */
  function Reconfigured(st: State, code: Code, stack: Stack): State
  {
    match CapsOf(st.loaded.layers)
    case Some(caps) =>
      var rt := FromCaps(code, caps, stack);
      st.(rt := rt, mapCreated := true, conf := PutAll(st.conf, ChannelTlvs(rt.mask)))
    case None =>
      if st.mapCreated then st else st.(rt := Restrictions(st.loaded.layers, code))
  }

  /** One command. Within the same region nothing is done. */
  function SetCountry(disk: Cascade.Disk, st: State, code: Code, stack: Stack): State
    requires |st.loaded.layers.extras| == |disk.extras|
  {
    var loaded := Cascade.Apply(disk, st.loaded, Text(code));
    if loaded.region == st.loaded.region then st
    else Reconfigured(st.(loaded := loaded), code, stack)
  }

  function Reply(uwbEnable: bool): seq<byte> {
    [0x4C, 0x01, 0x00, 0x01, if uwbEnable then STATUS_OK else STATUS_UWB_OFF]
  }

  // ----- The object

  class Country {
    const config: Cascade.CascadeConfig
    const rt: RuntimeSettings
    const caps: CapsResponder

    ghost predicate Valid()
      reads config, config.extras
    {
      config.Valid()
    }

    ghost function View(): State
      reads config, config.extras, rt, caps
    {
      State(Cascade.Loaded(config.region, config.View()), rt.View(), caps.mapCreated, caps.confMap)
    }

    /** The globals as they are before the first command. */
    constructor (disk: Cascade.Disk)
      requires Cascade.NamedRegions(disk.regions)
      ensures Valid() && fresh(config) && fresh(config.extras) && fresh(rt) && fresh(caps) && fresh(caps.response)
      ensures config.disk == disk && View() == Initial(disk) && caps.response.Length == MAX_DATA_LEN
      ensures caps.forwarded == [] && caps.inputMap == []
    {
      config := new Cascade.CascadeConfig(disk);
      rt := new RuntimeSettings();
      caps := new CapsResponder();
      new;
      config.ViewIsRegions();
    }

    method ApplyRestrictions(code: Code)
      requires Valid()
      modifies rt
      ensures rt.View() == Restrictions(config.View(), code)
    {
      config.ViewIsRegions();
      var mask := config.ReadNum(RESTRICTED_CHANNELS, 2);
      var disable := config.ReadNum(UWB_DISABLE, 1);
      Restrict(mask, disable, code);
    }

    method Restrict(mask: Option<nat>, disable: Option<nat>, code: Code)
      modifies rt
      ensures rt.View() == Restricted(mask, disable, code)
    {
      rt.Reset();
      if mask.Some? && mask.value < 0x1_0000 { rt.restrictedChannelMask := mask.value; }
      if disable.Some? { rt.uwbEnable := disable.value == 0; }
      if !ValidCode(code) { rt.uwbEnable := false; }
    }

    /** Loads the blob into the settings and the capability map. */
    method LoadCaps(code: Code, blob: seq<byte>, stack: Stack)
      requires |blob| <= MAX_DATA_LEN
      modifies rt, caps`mapCreated, caps`confMap
      ensures rt.View() == FromCaps(code, blob, stack)
      ensures caps.mapCreated && caps.confMap == PutAll(old(caps.confMap), ChannelTlvs(rt.restrictedChannelMask))
    {
      caps.mapCreated := false;
      var ccCaps := new byte[CAPS_ROOM](i requires 0 <= i < CAPS_ROOM =>
        if i < |blob| then blob[i] else stack[i]);
      assert ccCaps[..] == blob + stack[|blob|..];
      var ccData := new byte[MAX_DATA_LEN];
      var ccDataLen := ApplyCountryCaps(rt, code, ccCaps, |blob|, ccData, MAX_DATA_LEN);
      ParseEncoded(caps.confMap, ChannelTlvs(rt.restrictedChannelMask));
      assert ccData[0..6] == ccData[..6];
      var ok;
      ok, caps.confMap := Parse(caps.confMap, ccData, 0, ccDataLen);
      if ok { caps.mapCreated := true; }
    }

    /** What a new region changes besides the configuration. */
    method Reconfigure(code: Code, stack: Stack)
      requires Valid()
      modifies rt, caps`mapCreated, caps`confMap
      ensures View() == Reconfigured(old(View()), code, stack)
    {
      config.ViewIsRegions();
      var blob := config.ReadBytes(CAPS_NAME, MAX_DATA_LEN);
      if blob.Some? && |blob.value| > 0 {
        LoadCaps(code, blob.value, stack);
      }
      if !caps.mapCreated {
        ApplyRestrictions(code);
      }
    }

    method HandleSetCountryCode(code: Code, stack: Stack)
      requires Valid()
      modifies config`region, config.extras, rt, caps`mapCreated, caps`confMap, caps`forwarded
      ensures Valid() && View() == SetCountry(config.disk, old(View()), code, stack)
      ensures caps.forwarded == old(caps.forwarded) + [Reply(rt.uwbEnable)]
      ensures caps.forwarded == old(caps.forwarded) + [[0x4C, 1, 0, 1, if rt.uwbEnable then 0 else 0x53]]
    {
      var changed := config.SetCountryCode(Text(code));
      if changed { Reconfigure(code, stack); }
      caps.forwarded := caps.forwarded + [Reply(rt.uwbEnable)];
    }
  }

  // ----- Over all runs

  function Initial(disk: Cascade.Disk): State {
    State(Cascade.Loaded("", Cascade.LayersAt(disk, "")), Settings(0, false, 0, []), false, [])
  }

  /** A set-country command, and what the blob's buffer held when it was handled. */
  datatype Command = Command(code: Code, stack: Stack)

  /** The state after a sequence of set-country commands. */
  function After(disk: Cascade.Disk, cmds: seq<Command>): (st: State)
    ensures |st.loaded.layers.extras| == |disk.extras|
  {
    if cmds == [] then Initial(disk)
    else
      var last := cmds[|cmds| - 1];
      SetCountry(disk, After(disk, cmds[..|cmds| - 1]), last.code, last.stack)
  }

  /** The region map as the code loads it: named regions listing two upper-case letters each; and no
      region is named like an invalid code. */
  ghost predicate ProperRegions(regions: seq<Cascade.Region>) {
    && Cascade.NamedRegions(regions)
    && (forall i, c :: 0 <= i < |regions| && c in regions[i].codes ==> |c| == 2 && 'A' <= c[0] <= 'Z' && 'A' <= c[1] <= 'Z')
    && (forall i, c: Code :: 0 <= i < |regions| && regions[i].name == Text(c) ==> ValidCode(c))
  }

  function RegionOf(disk: Cascade.Disk, c: Code): string { Cascade.Xlate(disk.regions, Text(c)) }

  function CapsIn(disk: Cascade.Disk, region: string): Option<seq<byte>> { CapsOf(Cascade.LayersAt(disk, region)) }

  /** An invalid code is a region of its own, and no other code leads there. */
  lemma {:induction false} InvalidCodeIsItsRegion(regions: seq<Cascade.Region>, c: Code, invalid: Code)
    requires ProperRegions(regions) && !ValidCode(invalid)
    ensures Cascade.Xlate(regions, Text(invalid)) == Text(invalid)
    ensures Cascade.Xlate(regions, Text(c)) == Text(invalid) ==> c == invalid
  {
    if regions != [] {
      InvalidCodeIsItsRegion(regions[1..], c, invalid);
      assert Text(invalid) !in regions[0].codes;
    }
  }

  /** The cascade part of the state follows the last code's region. */
  lemma {:induction false} LoadedFollows(disk: Cascade.Disk, cmds: seq<Command>)
    requires Cascade.NamedRegions(disk.regions)
    ensures var st := After(disk, cmds);
      && st.loaded.layers == Cascade.LayersAt(disk, st.loaded.region)
      && (cmds == [] ==> st.loaded.region == "")
      && (cmds != [] ==> st.loaded.region == RegionOf(disk, cmds[|cmds| - 1].code))
    decreases |cmds|
  {
    if cmds != [] {
      var front, last := cmds[..|cmds| - 1], cmds[|cmds| - 1].code;
      LoadedFollows(disk, front);
      Cascade.XlateNotEmpty(disk.regions, Text(last));
      Cascade.ReloadIsExtrasAt(disk, After(disk, front).loaded.region, RegionOf(disk, last));
    }
  }

  /** One step to another region under an invalid code: UWB ends up off exactly when that region has
      capabilities, or no capability map exists, or UWB was off already. */
  lemma StepToInvalidCode(disk: Cascade.Disk, st: State, code: Code, stack: Stack)
    requires Cascade.NamedRegions(disk.regions) && !ValidCode(code)
    requires st.loaded.layers == Cascade.LayersAt(disk, st.loaded.region) && RegionOf(disk, code) != st.loaded.region
    ensures !SetCountry(disk, st, code, stack).rt.uwbEnable <==>
      CapsIn(disk, RegionOf(disk, code)).Some? || !st.mapCreated || !st.rt.uwbEnable
  {
    Cascade.XlateNotEmpty(disk.regions, Text(code));
    Cascade.ReloadIsExtrasAt(disk, st.loaded.region, RegionOf(disk, code));
  }

  /** A code whose region has capabilities that leave UWB on. */
  predicate EnabledByCaps(disk: Cascade.Disk, code: Code, stack: Stack)
  {
    var caps := CapsIn(disk, RegionOf(disk, code));
    caps.Some? && |caps.value| <= MAX_DATA_LEN && FromCaps(code, caps.value, stack).uwbEnable
  }

  /** An invalid code that has no capabilities. */
  predicate Uncovered(disk: Cascade.Disk, c: Code) { !ValidCode(c) && CapsIn(disk, Text(c)).None? }

  /** What the files must say for invalid codes to be safe: every invalid code has capabilities, or no
      code's capabilities ever leave UWB on (in particular when there are none at all). */
  ghost predicate FilesAreSafe(disk: Cascade.Disk) {
    || (forall c: Code :: !Uncovered(disk, c))
    || NeverEnabled(disk)
  }

  ghost predicate NeverEnabled(disk: Cascade.Disk) {
    forall c: Code, stack: Stack :: !EnabledByCaps(disk, c, stack)
  }

  /** What every run keeps: without a region yet, or in the region of an invalid code, UWB is off. */
  ghost predicate OffWhenInvalid(st: State) {
    && (st.loaded.region == "" ==> !st.rt.uwbEnable && !st.mapCreated)
    && (forall c: Code :: !ValidCode(c) && st.loaded.region == Text(c) ==> !st.rt.uwbEnable)
  }

  ghost predicate NeverOnByMap(disk: Cascade.Disk, st: State) {
    NeverEnabled(disk) ==> !(st.mapCreated && st.rt.uwbEnable)
  }

  lemma OffStep(disk: Cascade.Disk, st: State, code: Code, stack: Stack)
    requires ProperRegions(disk.regions) && FilesAreSafe(disk)
    requires st.loaded.layers == Cascade.LayersAt(disk, st.loaded.region)
    requires OffWhenInvalid(st) && NeverOnByMap(disk, st)
    ensures OffWhenInvalid(SetCountry(disk, st, code, stack)) && NeverOnByMap(disk, SetCountry(disk, st, code, stack))
  {
    var region, after := RegionOf(disk, code), SetCountry(disk, st, code, stack);
    Cascade.XlateNotEmpty(disk.regions, Text(code));
    if region != st.loaded.region {
      Cascade.ReloadIsExtrasAt(disk, st.loaded.region, region);
      assert after.loaded.region == region;
      if CapsIn(disk, region).Some? && after.rt.uwbEnable { assert EnabledByCaps(disk, code, stack); }
      forall c: Code | !ValidCode(c) && region == Text(c) ensures !after.rt.uwbEnable {
        assert CapsIn(disk, Text(c)).None? ==> Uncovered(disk, c);
        InvalidCodeIsItsRegion(disk.regions, code, c);
        StepToInvalidCode(disk, st, code, stack);
      }
    }
  }

  lemma {:induction false} OffInvariant(disk: Cascade.Disk, cmds: seq<Command>)
    requires ProperRegions(disk.regions) && FilesAreSafe(disk)
    ensures OffWhenInvalid(After(disk, cmds)) && NeverOnByMap(disk, After(disk, cmds))
    decreases |cmds|
  {
    if cmds != [] {
      var front, last := cmds[..|cmds| - 1], cmds[|cmds| - 1];
      OffInvariant(disk, front);
      LoadedFollows(disk, front);
      OffStep(disk, After(disk, front), last.code, last.stack);
    }
  }

  /** A run that ends in an invalid code and leaves UWB on. */
  predicate LeavesOn(disk: Cascade.Disk, cmds: seq<Command>) {
    cmds != [] && !ValidCode(cmds[|cmds| - 1].code) && After(disk, cmds).rt.uwbEnable
  }

  lemma SafeFilesKeepUwbOff(disk: Cascade.Disk, cmds: seq<Command>)
    requires ProperRegions(disk.regions) && FilesAreSafe(disk)
    ensures !LeavesOn(disk, cmds)
  {
    if cmds != [] && !ValidCode(cmds[|cmds| - 1].code) {
      OffInvariant(disk, cmds);
      LoadedFollows(disk, cmds);
      InvalidCodeIsItsRegion(disk.regions, cmds[|cmds| - 1].code, cmds[|cmds| - 1].code);
    }
  }

  /** The UWB-off guarantee: no run of commands ending in an invalid code leaves UWB on, the
      unchanged-region shortcut included, exactly when the files are safe. */
  lemma UwbOffIffFilesAreSafe(disk: Cascade.Disk)
    requires ProperRegions(disk.regions)
    ensures (forall cmds: seq<Command> :: !LeavesOn(disk, cmds)) <==> FilesAreSafe(disk)
  {
    if FilesAreSafe(disk) {
      forall cmds: seq<Command> ensures !LeavesOn(disk, cmds) { SafeFilesKeepUwbOff(disk, cmds); }
    } else {
      var _ := UnsafeRun(disk);
    }
  }

  /** What the upper layer is told in a run, command by command. */
  function Answers(disk: Cascade.Disk, cmds: seq<Command>): (r: seq<seq<byte>>)
    ensures |r| == |cmds|
  {
    if cmds == [] then [] else Answers(disk, cmds[..|cmds| - 1]) + [Reply(After(disk, cmds).rt.uwbEnable)]
  }

  /** Every answer is a five-byte notification, with status 0 if the commands up to it leave UWB on and 0x53
      if they leave it off. */
  lemma {:induction false} AnswerIs(disk: Cascade.Disk, cmds: seq<Command>, k: nat)
    requires k < |cmds|
    ensures Answers(disk, cmds)[k] ==
      if After(disk, cmds[..k + 1]).rt.uwbEnable then [0x4C, 0x01, 0x00, 0x01, 0x00] else [0x4C, 0x01, 0x00, 0x01, 0x53]
    decreases |cmds|
  {
    if k == |cmds| - 1 {
      assert cmds[..k + 1] == cmds;
    } else {
      AnswerIs(disk, cmds[..|cmds| - 1], k);
      assert cmds[..|cmds| - 1][..k + 1] == cmds[..k + 1];
    }
  }

  /** The last command of a run carries an invalid code: one that is not two letters or digits, or "00". */
  predicate EndsInvalid(cmds: seq<Command>) {
    && cmds != []
    && var c := cmds[|cmds| - 1].code;
       !((0x30 <= c.c0 <= 0x39 || 0x41 <= c.c0 <= 0x5A || 0x61 <= c.c0 <= 0x7A) &&
         (0x30 <= c.c1 <= 0x39 || 0x41 <= c.c1 <= 0x5A || 0x61 <= c.c1 <= 0x7A)) ||
       (c.c0 == 0x30 && c.c1 == 0x30)
  }

  /** So with safe files, and only with them, every run that ends in an invalid code ends with the answer that
      UWB is off. */
  lemma InvalidCodeIsAnsweredOffIff(disk: Cascade.Disk)
    requires ProperRegions(disk.regions)
    ensures (forall cmds :: EndsInvalid(cmds) ==> Answers(disk, cmds)[|cmds| - 1] == [0x4C, 0x01, 0x00, 0x01, 0x53]) <==>
      FilesAreSafe(disk)
  {
    forall cmds | EndsInvalid(cmds)
      ensures LeavesOn(disk, cmds) <==> Answers(disk, cmds)[|cmds| - 1] != [0x4C, 0x01, 0x00, 0x01, 0x53]
    {
      LastAnswer(disk, cmds);
    }
    UwbOffIffFilesAreSafe(disk);
    forall cmds | LeavesOn(disk, cmds) ensures EndsInvalid(cmds) {}
  }

  lemma LastAnswer(disk: Cascade.Disk, cmds: seq<Command>)
    requires EndsInvalid(cmds)
    ensures LeavesOn(disk, cmds) <==> Answers(disk, cmds)[|cmds| - 1] != [0x4C, 0x01, 0x00, 0x01, 0x53]
  {
    var last: byte := 4;
    AnswerIs(disk, cmds, |cmds| - 1);
    assert cmds[..|cmds|] == cmds;
    assert [0x4C, 0x01, 0x00, 0x01, 0x00][last] != [0x4C, 0x01, 0x00, 0x01, 0x53][last];
  }

  lemma UnsafeRun(disk: Cascade.Disk) returns (cmds: seq<Command>)
    requires ProperRegions(disk.regions) && !FilesAreSafe(disk)
    ensures LeavesOn(disk, cmds)
  {
    var bad: Code :| Uncovered(disk, bad);
    var good: Code, stack: Stack :| EnabledByCaps(disk, good, stack);
    StaysOn(disk, [Command(good, stack)], Command(bad, stack));
    cmds := [Command(good, stack)] + [Command(bad, stack)];
  }

  lemma FirstCode(disk: Cascade.Disk, cmds: seq<Command>)
    requires ProperRegions(disk.regions) && |cmds| == 1 && EnabledByCaps(disk, cmds[0].code, cmds[0].stack)
    ensures var st := After(disk, cmds);
      st.mapCreated && st.rt.uwbEnable && st.loaded.region == RegionOf(disk, cmds[0].code)
  {
    LoadedFollows(disk, cmds);
    Cascade.XlateNotEmpty(disk.regions, Text(cmds[0].code));
    Cascade.ReloadIsExtrasAt(disk, "", RegionOf(disk, cmds[0].code));
  }

  /** The failing runs: a code with capabilities, then an invalid one without. The map stays, so neither
      path runs, and UWB stays on. */
  lemma StaysOn(disk: Cascade.Disk, cmds: seq<Command>, bad: Command)
    requires ProperRegions(disk.regions) && |cmds| == 1 && EnabledByCaps(disk, cmds[0].code, cmds[0].stack)
    requires Uncovered(disk, bad.code)
    ensures LeavesOn(disk, cmds + [bad])
  {
    var st, run := After(disk, cmds), cmds + [bad];
    FirstCode(disk, cmds);
    InvalidCodeIsItsRegion(disk.regions, bad.code, bad.code);
    LoadedFollows(disk, cmds);
    StepToInvalidCode(disk, st, bad.code, bad.stack);
    assert run[..|run| - 1] == cmds;
  }

  // ----- The code a region was entered with

  /** The code that entered the region a run ends in: later codes of the same region change nothing. */
  function EnteringCode(disk: Cascade.Disk, cmds: seq<Command>): Code
    requires cmds != []
  {
    var front, last := cmds[..|cmds| - 1], cmds[|cmds| - 1].code;
    if front != [] && RegionOf(disk, front[|front| - 1].code) == RegionOf(disk, last) then EnteringCode(disk, front)
    else last
  }

  /** Settings that came from the blob of the current region, under that code. */
  ghost predicate SetFromBlob(st: State, code: Code, blob: seq<byte>)
    requires |blob| <= MAX_DATA_LEN
  {
    st.mapCreated && exists stack: Stack :: st.rt == FromCaps(code, blob, stack)
  }

  lemma EnterRegion(disk: Cascade.Disk, st: State, code: Code, stack: Stack)
    requires Cascade.NamedRegions(disk.regions) && st.loaded.layers == Cascade.LayersAt(disk, st.loaded.region)
    requires RegionOf(disk, code) != st.loaded.region && CapsIn(disk, RegionOf(disk, code)).Some?
    ensures var blob := CapsIn(disk, RegionOf(disk, code)).value;
      |blob| <= MAX_DATA_LEN && SetFromBlob(SetCountry(disk, st, code, stack), code, blob)
  {
    Cascade.XlateNotEmpty(disk.regions, Text(code));
    Cascade.ReloadIsExtrasAt(disk, st.loaded.region, RegionOf(disk, code));
    var blob := CapsIn(disk, RegionOf(disk, code)).value;
    assert SetCountry(disk, st, code, stack).rt == FromCaps(code, blob, stack);
  }

  /** After every run that ends in a region with a blob, the settings are those of the blob under the code
      that entered the region. */
  lemma {:induction false} SettingsAreOfEnteringCode(disk: Cascade.Disk, cmds: seq<Command>)
    requires Cascade.NamedRegions(disk.regions) && cmds != []
    requires CapsIn(disk, RegionOf(disk, cmds[|cmds| - 1].code)).Some?
    ensures var blob := CapsIn(disk, RegionOf(disk, cmds[|cmds| - 1].code)).value;
      |blob| <= MAX_DATA_LEN && SetFromBlob(After(disk, cmds), EnteringCode(disk, cmds), blob)
    decreases |cmds|
  {
    var front, last := cmds[..|cmds| - 1], cmds[|cmds| - 1];
    LoadedFollows(disk, front);
    if front != [] && RegionOf(disk, front[|front| - 1].code) == RegionOf(disk, last.code) {
      SettingsAreOfEnteringCode(disk, front);
    } else {
      if front == [] { Cascade.XlateNotEmpty(disk.regions, Text(last.code)); }
      EnterRegion(disk, After(disk, front), last.code, last.stack);
    }
  }

  // ----- Files made to order

  /** One calibration file for all countries. */
  function OneFile(text: string): Cascade.Disk {
    Cascade.Disk((path: string) => if path == "cal" then Some(text) else None, map[], map[], map[], [Cascade.Fixed("cal")], [])
  }

  lemma OneFileFinds(text: string, region: string, name: string)
    ensures Cascade.Find(Cascade.LayersAt(OneFile(text), region), name) ==
      if name in ConfigParser.Parse(text) then Some(ConfigParser.Parse(text)[name]) else None
  {
    var disk := OneFile(text);
    var l := Cascade.LayersAt(disk, region);
    Cascade.LayerIsFile(disk, region, 0);
    assert l.extras[..0] == [] && l.extras[0] == ConfigParser.Parse(text);
    assert Cascade.FindLast(l.extras[..0], name) == None;
  }

  /** From the file's characters to the settings: the digits of a hexadecimal line are the channel mask after
      every first country code, valid or not, and UWB is on exactly for the valid ones. */
  lemma CalibrationFile(x: char, s: string, ds: seq<nat>, cmd: Command)
    requires (x == 'x' || x == 'X') && ConfigLines.Spells(s, ds, true)
    ensures var st := After(OneFile("cal.restricted_channels" + "=" + ("0" + [x] + s)), [cmd]);
      && !st.mapCreated && st.rt.mask == ConfigLines.Value(ds, true) % 0x1_0000_0000_0000_0000 % 65536
      && (st.rt.uwbEnable <==> ValidCode(cmd.code))
  {
    var text := "cal.restricted_channels" + "=" + ("0" + [x] + s);
    var disk, region := OneFile(text), Text(cmd.code);
    ConfigLines.HexadecimalLine("cal.restricted_channels", x, s, ds, "\n");
    OneFileFinds(text, region, "cal.restricted_channels");
    OneFileFinds(text, region, "cal.uwb_disable");
    OneFileFinds(text, region, "UWB_COUNTRY_CODE_CAPS");
    CalibrationSettings(Cascade.LayersAt(disk, region), cmd.code);
    FirstCommand(disk, cmd);
  }

  /** So 0x20 closes channel 5, and not channel 9. */
  lemma MaskForChannel5(cmd: Command)
    ensures var mask := After(OneFile("cal.restricted_channels" + "=" + ("0" + ['x'] + "20")), [cmd]).rt.mask;
      mask == 0x20 && Bit(mask, 5) && !Bit(mask, 9)
  {
    TwoZero([2, 0]);
    MaskFrom('x', "20", [2, 0], cmd);
  }

  lemma TwoZero(ds: seq<nat>)
    requires ds == [2, 0]
    ensures ConfigLines.Spells("20", ds, true) && ConfigLines.Value(ds, true) == 0x20
  {
    ConfigLines.ValueStep([], 2, true);
    ConfigLines.ValueStep([2], 0, true);
    assert [] + [2] == [2] && [2] + [0] == ds;
  }

  lemma MaskFrom(x: char, s: string, ds: seq<nat>, cmd: Command)
    requires (x == 'x' || x == 'X') && ConfigLines.Spells(s, ds, true) && ConfigLines.Value(ds, true) == 0x20
    ensures var mask := After(OneFile("cal.restricted_channels" + "=" + ("0" + [x] + s)), [cmd]).rt.mask;
      mask == 0x20 && Bit(mask, 5) && !Bit(mask, 9)
  {
    CalibrationFile(x, s, ds, cmd);
    CountryCaps.ChannelBits();
  }

  lemma FirstCommand(disk: Cascade.Disk, cmd: Command)
    requires disk.regions == [] && CapsOf(Cascade.LayersAt(disk, Text(cmd.code))).None?
    ensures var st := After(disk, [cmd]);
      !st.mapCreated && st.rt == Restrictions(Cascade.LayersAt(disk, Text(cmd.code)), cmd.code)
  {
    assert [cmd][..0] == [];
    Cascade.ReloadIsExtrasAt(disk, "", Text(cmd.code));
  }

  /** One country-specific file, and one region that has it. */
  function OneRegion(region: string, text: string, regions: seq<Cascade.Region>): Cascade.Disk {
    Cascade.Disk((path: string) => if path == region then Some(text) else None, map[], map[], map[],
                 [Cascade.PerCountry("", "")], regions)
  }

  lemma OneRegionCaps(home: string, text: string, regions: seq<Cascade.Region>, region: string)
    requires home != "" && region != ""
    ensures CapsIn(OneRegion(home, text, regions), region) ==
      if region != home || CAPS_NAME !in ConfigParser.Parse(text) then None
      else
        match ConfigParser.Parse(text)[CAPS_NAME]
        case ByteArray(b) => if 0 < |b| <= MAX_DATA_LEN then Some(b) else None
        case _ => None
  {
    var disk := OneRegion(home, text, regions);
    var l := Cascade.LayersAt(disk, region);
    var held := Cascade.ExtraAt(disk, disk.extras[0], region);
    assert "" + region + "" == region;
    assert held == if region == home then ConfigParser.Parse(text) else map[];
    assert l.extras == [held] && l.extras[..0] == [];
    assert Cascade.FindLast(l.extras, CAPS_NAME) == if CAPS_NAME in held then Some(held[CAPS_NAME]) else None;
  }

  /** Every blob can be written to a file that gives it to one region, and none to the others. */
  lemma DiskWithBlob(home: string, blob: seq<byte>, regions: seq<Cascade.Region>) returns (disk: Cascade.Disk)
    requires home != "" && 0 < |blob| <= MAX_DATA_LEN
    ensures disk.regions == regions
    ensures forall region :: region != "" ==> CapsIn(disk, region) == if region == home then Some(blob) else None
  {
    var m := map[CAPS_NAME := ConfigParser.ByteArray(blob)];
    assert ConfigParser.PrintableToken(CAPS_NAME);
    var es := ConfigParser.EveryMapRoundTrips(m);
    disk := OneRegion(home, ConfigParser.Print(es), regions);
    forall region | region != "" ensures CapsIn(disk, region) == if region == home then Some(blob) else None {
      OneRegionCaps(home, ConfigParser.Print(es), regions, region);
    }
  }

  /** A blob without sections leaves UWB on for a valid code. */
  lemma EmptyBlobEnables(code: Code, stack: Stack)
    requires ValidCode(code)
    ensures FromCaps(code, [0], stack).uwbEnable
  {
  }

  /** A file that gives the United States capabilities without restrictions, and no file for "00". */
  lemma UnsafeFilesExist() returns (disk: Cascade.Disk)
    ensures ProperRegions(disk.regions) && !FilesAreSafe(disk)
  {
    var us, none := CountryCaps.Code(0x55, 0x53), CountryCaps.Code(0x30, 0x30);
    disk := DiskWithBlob(Text(us), [0], []);
    assert Text(us)[0] != Text(none)[0];
    assert Uncovered(disk, none);
    var stack: Stack := seq(CAPS_ROOM, i => 0);
    EmptyBlobEnables(us, stack);
    assert EnabledByCaps(disk, us, stack);
  }
}
