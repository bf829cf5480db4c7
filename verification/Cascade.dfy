/** CascadeConfig and RegionCodeMap: the layered lookup over configuration files, some of which are
    re-read when the region changes (uwb/halimpl/utils/phNxpConfig.cc:453-485, 585-631, 654-886, 953-981). */
module Cascade {
  import opened Bytes
  import opened ConfigParser

  /** An extra configuration file: a plain path, or one with the country specifier between two parts. */
  datatype ExtraFile = Fixed(path: string) | PerCountry(before: string, after: string)

  /** A region and the two-letter codes of its countries, in the map's iteration order. */
  datatype Region = Region(name: string, codes: set<string>)

  /** What does not change between two initialisations: the contents of the disk and what the main
      configuration said about files and regions. */
  datatype Disk = Disk(file: string -> Option<string>, main: Settings, uci: Settings, caps: Settings,
                       extras: seq<ExtraFile>, regions: seq<Region>)

  /** The settings held in memory, layer by layer. */
  datatype Layers = Layers(caps: Settings, extras: seq<Settings>, main: Settings, uci: Settings)

  function Read(disk: Disk, path: string): Settings {
    match disk.file(path)
    case None => map[]
    case Some(text) => Parse(text)
  }

  function PathFor(f: ExtraFile, region: string): string {
    match f
    case Fixed(path) => path
    case PerCountry(before, after) => before + region + after
  }

  /** RegionCodeMap::xlateCountryCode: the first region listing the code, or the code itself. */
  function Xlate(regions: seq<Region>, code: string): string {
    if regions == [] then code
    else if code in regions[0].codes then regions[0].name
    else Xlate(regions[1..], code)
  }

  predicate NamedRegions(regions: seq<Region>) {
    forall i :: 0 <= i < |regions| ==> regions[i].name != ""
  }

  // ----- The state as a value

  /** The current region ("" before the first country code) and the layers. */
  datatype Loaded = Loaded(region: string, layers: Layers)

  /** The settings an extra file holds under a region; a country-specific one is empty before any. */
  function ExtraAt(disk: Disk, f: ExtraFile, region: string): Settings {
    if f.PerCountry? && region == "" then map[] else Read(disk, PathFor(f, region))
  }

  function ExtrasAt(disk: Disk, fs: seq<ExtraFile>, region: string): (r: seq<Settings>)
    ensures |r| == |fs| && forall i :: 0 <= i < |fs| ==> r[i] == ExtraAt(disk, fs[i], region)
  {
    if fs == [] then [] else [ExtraAt(disk, fs[0], region)] + ExtrasAt(disk, fs[1..], region)
  }

  /** The layers as a function of the region alone. */
  function LayersAt(disk: Disk, region: string): Layers {
    Layers(disk.caps, ExtrasAt(disk, disk.extras, region), disk.main, disk.uci)
  }

  /** Reloading touches the country-specific files only, and only their own slots. */
  function Reload(disk: Disk, held: seq<Settings>, fs: seq<ExtraFile>, region: string): (r: seq<Settings>)
    requires |held| == |fs|
    ensures |r| == |fs|
    ensures forall i :: 0 <= i < |fs| ==> r[i] == if fs[i].PerCountry? then Read(disk, PathFor(fs[i], region)) else held[i]
  {
    if fs == [] then []
    else [if fs[0].PerCountry? then Read(disk, PathFor(fs[0], region)) else held[0]] + Reload(disk, held[1..], fs[1..], region)
  }

  /** CascadeConfig::setCountryCode. */
  function Apply(disk: Disk, st: Loaded, code: string): Loaded
    requires |st.layers.extras| == |disk.extras|
  {
    var region := Xlate(disk.regions, code);
    if region == st.region then st
    else Loaded(region, st.layers.(extras := Reload(disk, st.layers.extras, disk.extras, region)))
  }

  /** The state after a history of country codes. */
  function After(disk: Disk, codes: seq<string>): (st: Loaded)
    ensures |st.layers.extras| == |disk.extras|
  {
    if codes == [] then Loaded("", LayersAt(disk, ""))
    else Apply(disk, After(disk, codes[..|codes| - 1]), codes[|codes| - 1])
  }

  predicate ProperCodes(codes: seq<string>) { forall i :: 0 <= i < |codes| ==> codes[i] != "" }

  lemma XlateNotEmpty(regions: seq<Region>, code: string)
    requires NamedRegions(regions) && code != ""
    ensures Xlate(regions, code) != ""
  {
  }

  lemma ReloadIsExtrasAt(disk: Disk, from: string, to: string)
    requires to != ""
    ensures Reload(disk, ExtrasAt(disk, disk.extras, from), disk.extras, to) == ExtrasAt(disk, disk.extras, to)
  {
  }

  /** Whatever the history, the layers are those of the last region. */
  lemma {:induction false} LayersFollowRegion(disk: Disk, codes: seq<string>)
    requires NamedRegions(disk.regions) && ProperCodes(codes)
    ensures After(disk, codes).layers == LayersAt(disk, After(disk, codes).region)
    ensures codes != [] ==> After(disk, codes).region == Xlate(disk.regions, codes[|codes| - 1])
    decreases |codes|
  {
    if codes != [] {
      var front, last := codes[..|codes| - 1], codes[|codes| - 1];
      LayersFollowRegion(disk, front);
      XlateNotEmpty(disk.regions, last);
      ReloadIsExtrasAt(disk, After(disk, front).region, Xlate(disk.regions, last));
    }
  }

  function Held(disk: Disk, path: string): Settings {
    match disk.file(path)
    case None => map[]
    case Some(text) => Parse(text)
  }

  /** Which file each extra layer holds: a country's is named by its region, between the two parts of the path,
      and there is none before the first region. */
  lemma LayerIsFile(disk: Disk, region: string, i: nat)
    requires i < |disk.extras|
    ensures |LayersAt(disk, region).extras| == |disk.extras|
    ensures match disk.extras[i]
      case Fixed(path) => LayersAt(disk, region).extras[i] == Held(disk, path)
      case PerCountry(before, after) =>
        LayersAt(disk, region).extras[i] == if |region| == 0 then map[] else Held(disk, before + region + after)
  {
  }

  /** Lookup, in the code's order: capabilities, extra files from the last to the first, main, UCI. */
  function Find(l: Layers, name: string): Option<Param> {
    if name in l.caps then Some(l.caps[name])
    else
      var e := FindLast(l.extras, name);
      if e.Some? then e
      else if name in l.main then Some(l.main[name])
      else if name in l.uci then Some(l.uci[name])
      else None
  }

  function FindLast(extras: seq<Settings>, name: string): Option<Param> {
    if extras == [] then None
    else
      var last := extras[|extras| - 1];
      if name in last then Some(last[name]) else FindLast(extras[..|extras| - 1], name)
  }

  /** Cascade history-independence: what any lookup finds depends only on the last region. */
  lemma FindIsHistoryIndependent(disk: Disk, a: seq<string>, b: seq<string>, name: string)
    requires NamedRegions(disk.regions) && ProperCodes(a) && ProperCodes(b) && a != [] && b != []
    requires Xlate(disk.regions, a[|a| - 1]) == Xlate(disk.regions, b[|b| - 1])
    ensures Find(After(disk, a).layers, name) == Find(After(disk, b).layers, name)
  {
    LayersFollowRegion(disk, a);
    LayersFollowRegion(disk, b);
  }

  /** One map with the layers' precedence: later operands of `+` win. */
  function Merged(l: Layers): Settings { l.uci + l.main + MergedExtras(l.extras) + l.caps }

  function MergedExtras(extras: seq<Settings>): Settings {
    if extras == [] then map[] else MergedExtras(extras[..|extras| - 1]) + extras[|extras| - 1]
  }

  lemma {:induction false} FindLastIsMerged(extras: seq<Settings>, name: string)
    ensures FindLast(extras, name) == if name in MergedExtras(extras) then Some(MergedExtras(extras)[name]) else None
    decreases |extras|
  {
    if extras != [] { FindLastIsMerged(extras[..|extras| - 1], name); }
  }

  /** The cascade is a lookup in one merged map. */
  lemma FindIsMergedLookup(l: Layers, name: string)
    ensures Find(l, name) == if name in Merged(l) then Some(Merged(l)[name]) else None
  {
    FindLastIsMerged(l.extras, name);
  }

  /** Two differently named regions list the code. */
  predicate Ambiguous(regions: seq<Region>, code: string) {
    exists i, j :: 0 <= i < |regions| && 0 <= j < |regions| && Conflict(regions[i], regions[j], code)
  }

  predicate Conflict(r: Region, q: Region, code: string) { code in r.codes && code in q.codes && r.name != q.name }

  ghost predicate Reordering(a: seq<Region>, b: seq<Region>) { multiset(a) == multiset(b) }

  /** Without such a conflict, translation does not depend on the hash map's iteration order. */
  lemma {:induction false} XlateIgnoresOrder(a: seq<Region>, b: seq<Region>, code: string)
    requires Reordering(a, b) && !Ambiguous(a, code)
    ensures Xlate(a, code) == Xlate(b, code)
  {
    XlateIsFound(a, code);
    XlateIsFound(b, code);
    forall r | r in b ensures r in a { assert r in multiset(b); }
    forall r | r in a ensures r in b { assert r in multiset(a); }
    if r :| r in a && code in r.codes && Xlate(a, code) == r.name {
      if q :| q in b && code in q.codes && Xlate(b, code) == q.name {
        var i :| 0 <= i < |a| && a[i] == r;
        var j :| 0 <= j < |a| && a[j] == q;
        assert !Conflict(a[i], a[j], code);
      }
    }
  }

  /** The list with its `k`-th region in front. */
  function InFront(regions: seq<Region>, k: nat): seq<Region>
    requires k < |regions|
  {
    [regions[k]] + (regions[..k] + regions[k + 1..])
  }

  lemma InFrontReorders(regions: seq<Region>, k: nat)
    requires k < |regions|
    ensures Reordering(regions, InFront(regions, k))
  {
    assert regions == regions[..k] + [regions[k]] + regions[k + 1..];
  }

  /** Some iteration order of the same regions translates the code differently if and only if two
      differently named regions list it. */
  lemma {:induction false} XlateDependsOnOrderIff(regions: seq<Region>, code: string)
    ensures (exists other :: Reordering(regions, other) && Xlate(other, code) != Xlate(regions, code)) <==>
      Ambiguous(regions, code)
  {
    if Ambiguous(regions, code) {
      var i, j :| 0 <= i < |regions| && 0 <= j < |regions| && Conflict(regions[i], regions[j], code);
      var k := if regions[i].name != Xlate(regions, code) then i else j;
      InFrontReorders(regions, k);
      assert Xlate(InFront(regions, k), code) == regions[k].name;
    } else {
      forall other | Reordering(regions, other) ensures Xlate(other, code) == Xlate(regions, code) {
        XlateIgnoresOrder(regions, other, code);
      }
    }
  }

  lemma {:induction false} XlateIsFound(regions: seq<Region>, code: string)
    ensures (exists r :: r in regions && code in r.codes && Xlate(regions, code) == r.name) ||
      (Xlate(regions, code) == code && forall r :: r in regions ==> code !in r.codes)
  {
    if regions != [] {
      if code in regions[0].codes {
        assert regions[0] in regions;
      } else {
        XlateIsFound(regions[1..], code);
        assert regions == [regions[0]] + regions[1..];
      }
    }
  }

  // ----- Typed access

  /** The low bytes of a number, for an integer of 8, 2 or 1 bytes; other sizes are refused. */
  function Narrow(n: nat, bytes: nat): Option<nat> {
    if bytes == 8 then Some(n)
    else if bytes == 2 then Some(n % 0x1_0000)
    else if bytes == 1 then Some(n % 0x100)
    else None
  }

  /** NxpConfig_GetNum. */
  function GetNum(l: Layers, name: string, bytes: nat): Option<nat> {
    match Find(l, name)
    case Some(Number(n)) => Narrow(n, bytes)
    case _ => None
  }

  function GetByteArray(l: Layers, name: string, capacity: nat): Option<seq<byte>> {
    match Find(l, name)
    case Some(ByteArray(b)) => if |b| <= capacity then Some(b) else None
    case _ => None
  }

  // ----- The object

  class CascadeConfig {
    const disk: Disk
    const extras: seq<ConfigFile>
    var region: string

    function View(): Layers
      reads extras
    {
      Layers(disk.caps, seq(|extras|, i requires 0 <= i < |extras| reads extras => extras[i].settings), disk.main, disk.uci)
    }

    /** The files are distinct objects, and hold what the current region says. */
    ghost predicate Valid()
      reads this, extras
    {
      && |extras| == |disk.extras| && NamedRegions(disk.regions)
      && (forall i, j :: 0 <= i < j < |extras| ==> extras[i] != extras[j])
      && (forall i :: 0 <= i < |extras| ==> extras[i].settings == ExtraAt(disk, disk.extras[i], region))
    }

    lemma ViewIsRegions()
      requires Valid()
      ensures View() == LayersAt(disk, region)
    {
      assert View().extras == ExtrasAt(disk, disk.extras, region);
    }

    /** CascadeConfig::init: a country-specific file is not read before a country is known. */
    constructor (disk: Disk)
      requires NamedRegions(disk.regions)
      ensures Valid() && fresh(extras) && this.disk == disk && region == ""
    {
      var files: seq<ConfigFile> := [];
      for i := 0 to |disk.extras|
        invariant |files| == i && fresh(files)
        invariant forall j, k :: 0 <= j < k < i ==> files[j] != files[k]
        invariant forall k :: 0 <= k < i ==> files[k].settings == ExtraAt(disk, disk.extras[k], "")
      {
        var f := new ConfigFile();
        if disk.extras[i].Fixed? {
          var _ := f.ReadConfig(disk.file(PathFor(disk.extras[i], "")));
        }
        files := files + [f];
      }
      this.disk, extras, region := disk, files, "";
    }

    /** CUwbNxpConfig::setCountry on every extra file. */
    method SetCountry(name: string)
      requires Valid() && name != ""
      modifies extras
      ensures forall k :: 0 <= k < |extras| ==> extras[k].settings == ExtraAt(disk, disk.extras[k], name)
    {
      for i := 0 to |extras|
        invariant forall k :: 0 <= k < i ==> extras[k].settings == ExtraAt(disk, disk.extras[k], name)
        invariant forall k :: i <= k < |extras| ==> extras[k].settings == ExtraAt(disk, disk.extras[k], region)
      {
        if disk.extras[i].PerCountry? {
          var _ := extras[i].ReadConfig(disk.file(PathFor(disk.extras[i], name)));
        }
      }
    }

    method SetCountryCode(code: string) returns (changed: bool)
      requires Valid() && code != ""
      modifies this`region, extras
      ensures Valid() && region == Xlate(disk.regions, code)
      ensures changed == (region != old(region))
      ensures Loaded(region, View()) == Apply(disk, Loaded(old(region), old(View())), code)
    {
      var name := Xlate(disk.regions, code);
      XlateNotEmpty(disk.regions, code);
      ViewIsRegions();
      if name == region { return false; }
      ReloadIsExtrasAt(disk, region, name);
      SetCountry(name);
      region := name;
      ViewIsRegions();
      changed := true;
    }

    method FindParam(name: string) returns (p: Option<Param>)
      requires Valid()
      ensures p == Find(LayersAt(disk, region), name)
    {
      ViewIsRegions();
      ghost var l := View();
      if name in disk.caps { return Some(disk.caps[name]); }
      var i := |extras|;
      assert l.extras[..i] == l.extras;
      while i > 0
        invariant 0 <= i <= |extras| && FindLast(l.extras, name) == FindLast(l.extras[..i], name)
      {
        i := i - 1;
        assert l.extras[..i + 1][..i] == l.extras[..i] && l.extras[i] == extras[i].settings;
        if name in extras[i].settings { return Some(extras[i].settings[name]); }
      }
      if name in disk.main { return Some(disk.main[name]); }
      if name in disk.uci { return Some(disk.uci[name]); }
      return None;
    }

    method ReadNum(name: string, bytes: nat) returns (n: Option<nat>)
      requires Valid()
      ensures n == GetNum(LayersAt(disk, region), name, bytes)
    {
      var p := FindParam(name);
      match p
      case Some(Number(v)) => n := Narrow(v, bytes);
      case _ => n := None;
    }

    method ReadBytes(name: string, capacity: nat) returns (b: Option<seq<byte>>)
      requires Valid()
      ensures b == GetByteArray(LayersAt(disk, region), name, capacity)
    {
      var p := FindParam(name);
      match p
      case Some(ByteArray(v)) => b := if |v| <= capacity then Some(v) else None;
      case _ => b := None;
    }
  }
}
