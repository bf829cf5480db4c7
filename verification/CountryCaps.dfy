/** phNxpUciHal_applyCountryCaps: per-country settings from the COUNTRY_CODE_CAPS blob
    (uwb/halimpl/hal/phNxpUciHal_ext.cc:338-442). */
module CountryCaps {
  import opened Bytes
  import opened Tlv
  import opened Uci

  const TAG_COUNTRY := 0x00
  const TAG_UWB_ENABLE := 0x01
  const TAG_CHANNEL_5 := 0x02
  const TAG_CHANNEL_9 := 0x03
  const TAG_TX_POWER := 0x05

  datatype Code = Code(c0: byte, c1: byte)

  /** C's isalnum in the "C" locale. */
  predicate Alnum(c: byte) { 0x30 <= c <= 0x39 || 0x41 <= c <= 0x5A || 0x61 <= c <= 0x7A }

  predicate ValidCode(c: Code) { Alnum(c.c0) && Alnum(c.c1) && c != Code(0x30, 0x30) }

  /** The per-country settings, and the TX power offsets re-sent to the chip while applying them
      (the nested send itself is not part of this model). */
  datatype Settings = Settings(mask: word, uwbEnable: bool, txOffset: int, txSends: seq<int>)

  const DEFAULTS := Settings(0, true, 0, [])

  /** The struct the code updates in place. */
  class RuntimeSettings {
    var restrictedChannelMask: word
    var uwbEnable: bool
    var txPowerOffset: int
    var txSends: seq<int>

    function View(): Settings
      reads this
    {
      Settings(restrictedChannelMask, uwbEnable, txPowerOffset, txSends)
    }

    constructor ()
      ensures View() == Settings(0, false, 0, [])
    {
      restrictedChannelMask, uwbEnable, txPowerOffset, txSends := 0, false, 0, [];
    }

    method Reset()
      modifies this
      ensures View() == DEFAULTS
    {
      restrictedChannelMask, uwbEnable, txPowerOffset, txSends := 0, true, 0, [];
    }
  }

  /** One TLV inside the requested country's sections; `b0` and `b1` are the bytes behind its length. */
  function Apply(st: Settings, tag: byte, len: byte, b0: byte, b1: byte): Settings {
    if tag == TAG_UWB_ENABLE && len == 1 then st.(uwbEnable := b0 != 0)
    else if tag == TAG_CHANNEL_5 && len == 1 && b0 == 0 then st.(mask := OrWord(st.mask, 0x20))
    else if tag == TAG_CHANNEL_9 && len == 1 && b0 == 0 then st.(mask := OrWord(st.mask, 0x200))
    else if tag == TAG_TX_POWER && len == 2 then
      var offset := Signed16(Le16(b0, b1));
      st.(txOffset := offset, txSends := st.txSends + [offset])
    else st
  }

  predicate NowFound(found: bool, code: Code, tag: byte, b0: byte, b1: byte) {
    if tag == TAG_COUNTRY then b0 == code.c0 && b1 == code.c1 else found
  }

  /** The scan over the buffer suffix `s`, of which `left` bytes belong to the blob. The code looks up
      to two bytes past a TLV's head without checking the end. */
  function ScanBlob(s: seq<byte>, left: int, code: Code, found: bool, st: Settings): Settings
    requires |s| >= left + 3
    decreases left
  {
    if left <= 0 then st
    else
      var st' := if found then Apply(st, s[0], s[1], s[2], s[3]) else st;
      var n := 2 + s[1] as int;
      if left <= n then st'
      else ScanBlob(s[n..], left - n, code, NowFound(found, code, s[0], s[2], s[3]), st')
  }

  /** What applying the blob's `len` bytes at the front of `buf` yields. */
  function AppliedCaps(code: Code, buf: seq<byte>, len: nat): Settings
    requires |buf| >= len + 3
  {
    var st := ScanBlob(buf[1..], len - 1, code, false, DEFAULTS);
    if ValidCode(code) then st else st.(uwbEnable := false)
  }

  /** The advertised channel masks: bit 0 / bit 3 of the FiRa mask and bit 0 / bit 1 of the CCC mask
      stand for channel 5 / channel 9. */
  function FiraChannels(mask: word): byte {
    var all := 0xFF;
    var no5 := if Bit(mask, 5) then And(all, 0xFE) else all;
    if Bit(mask, 9) then And(no5, 0xF7) else no5
  }

  function CccChannels(mask: word): byte {
    (if Bit(mask, 5) then 0 else 1) + (if Bit(mask, 9) then 0 else 2)
  }

  /** The TLVs handed on to the capability map. */
  function ChannelTlvs(mask: word): seq<Tlv> {
    [Tlv(TAG_UWB_CHANNELS, [FiraChannels(mask)]), Tlv(TAG_CCC_UWB_CHANNELS, [CccChannels(mask)])]
  }

  method ApplyCountryCaps(rt: RuntimeSettings, code: Code, resp: array<byte>, respLen: nat,
                          data: array<byte>, capacity: nat) returns (dataLen: nat)
    requires respLen <= MAX_DATA_LEN && respLen + 3 <= resp.Length
    requires 6 <= capacity <= data.Length && data != resp
    modifies rt, data
    ensures rt.View() == AppliedCaps(code, resp[..], respLen)
    ensures dataLen == 6 && data[..6] == EncodeAll(ChannelTlvs(rt.restrictedChannelMask))
  {
    rt.Reset();
    ApplySections(rt, code, resp, respLen, resp[1..]);
    if !ValidCode(code) && rt.uwbEnable {
      rt.uwbEnable := false;
    }
    dataLen := WriteChannels(rt.restrictedChannelMask, data, capacity);
  }

  /** The scan over the blob behind its first byte (the number of countries, which is not used). */
  method ApplySections(rt: RuntimeSettings, code: Code, resp: array<byte>, respLen: nat, ghost s: seq<byte>)
    requires respLen <= MAX_DATA_LEN && respLen + 3 <= resp.Length
    requires |s| == resp.Length - 1 && forall k :: 1 <= k < resp.Length ==> resp[k] == s[k - 1]
    modifies rt
    ensures rt.View() == ScanBlob(s, respLen - 1, code, false, old(rt.View()))
  {
    var idx, found := 1, false;
    ghost var total := ScanBlob(s, respLen - 1, code, false, rt.View());
    while idx < respLen
      invariant 1 <= idx
      invariant total == if idx < respLen then ScanBlob(s[idx - 1..], respLen - idx, code, found, rt.View()) else rt.View()
      decreases respLen - idx
    {
      ghost var before := idx;
      idx, found := ApplyOne(rt, code, resp, respLen, idx, found, s[idx - 1..]);
      if idx < respLen { SuffixOfSuffix(s, before - 1, idx - before); }
    }
  }

  /** One TLV of the blob. */
  method ApplyOne(rt: RuntimeSettings, code: Code, resp: array<byte>, respLen: nat, idx0: nat, found0: bool, ghost rest: seq<byte>)
    returns (idx: nat, found: bool)
    requires idx0 < respLen && respLen + 3 <= resp.Length && |rest| >= respLen - idx0 + 3
    requires resp[idx0..idx0 + 4] == rest[..4]
    modifies rt
    ensures idx0 < idx
    ensures ScanBlob(rest, respLen - idx0, code, found0, old(rt.View())) ==
      if idx < respLen then ScanBlob(rest[idx - idx0..], respLen - idx, code, found, rt.View()) else rt.View()
  {
    idx, found := idx0, found0;
    ghost var four := resp[idx..idx + 4];
    assert four[0] == rest[0] && four[1] == rest[1] && four[2] == rest[2] && four[3] == rest[3];
    var tag, len := resp[idx], resp[idx + 1];
    idx := idx + 2;
    if found {
      ApplyTlv(rt, tag, len, resp[idx], resp[idx + 1]);
    }
    if tag == TAG_COUNTRY {
      found := resp[idx] == code.c0 && resp[idx + 1] == code.c1;
    }
    idx := idx + len as int;
  }

  lemma SuffixOfSuffix(s: seq<byte>, i: nat, n: nat)
    requires i + n <= |s|
    ensures s[i..][n..] == s[i + n..]
  {
  }

  /** The advertised masks as two TLVs; each is written only if it still fits. */
  method WriteChannels(mask: word, data: array<byte>, capacity: nat) returns (index: nat)
    requires 6 <= capacity <= data.Length
    modifies data
    ensures index == 6 && data[..6] == EncodeAll(ChannelTlvs(mask))
  {
    var fira, ccc := 0xFF, 0;
    if Bit(mask, 5) { fira := And(fira, 0xFE); }
    if Bit(mask, 9) { fira := And(fira, 0xF7); }
    if !Bit(mask, 5) { ccc := Or(ccc, 1); }
    if !Bit(mask, 9) { ccc := Or(ccc, 2); }
    index := 0;
    if index + 3 <= capacity {
      data[0], data[1], data[2] := TAG_UWB_CHANNELS, 1, fira;
      index := 3;
    }
    if index + 3 <= capacity {
      data[3], data[4], data[5] := TAG_CCC_UWB_CHANNELS, 1, ccc;
      index := 6;
    }
    EncodedChannels(mask);
  }

  lemma EncodedChannels(mask: word)
    ensures EncodeAll(ChannelTlvs(mask)) ==
      [0x0E, 1, FiraChannels(mask), 0xA3, 1, CccChannels(mask)]
  {
    var ts := ChannelTlvs(mask);
    assert ts == [ts[0]] + [ts[1]];
    assert EncodeAll([ts[1]]) == Encode(ts[1]);
    assert ts[1..] == [ts[1]];
  }

  method ApplyTlv(rt: RuntimeSettings, tag: byte, len: byte, b0: byte, b1: byte)
    modifies rt
    ensures rt.View() == Apply(old(rt.View()), tag, len, b0, b1)
  {
    match tag
    case 0x01 => if len == 1 { rt.uwbEnable := b0 != 0; }
    case 0x02 => if len == 1 && b0 == 0 { rt.restrictedChannelMask := OrWord(rt.restrictedChannelMask, 0x20); }
    case 0x03 => if len == 1 && b0 == 0 { rt.restrictedChannelMask := OrWord(rt.restrictedChannelMask, 0x200); }
    case 0x05 =>
      if len == 2 {
        rt.txPowerOffset := Signed16(Le16(b0, b1));
        rt.txSends := rt.txSends + [rt.txPowerOffset];
      }
    case _ =>
  }

  /** A channel is advertised exactly when it is not restricted; every other FiRa bit stays set. */
  lemma FiraMask(mask: word, i: nat)
    requires i < 8
    ensures Bit(FiraChannels(mask), i) <==> !(i == 0 && Bit(mask, 5)) && !(i == 3 && Bit(mask, 9))
  {
    MaskBits(i);
    if Bit(mask, 5) {
      BitOfAnd(0xFF, 0xFE, i);
      if Bit(mask, 9) { BitOfAnd(And(0xFF, 0xFE), 0xF7, i); }
    } else if Bit(mask, 9) {
      BitOfAnd(0xFF, 0xF7, i);
    }
  }

  lemma CccMask(mask: word, i: nat)
    ensures Bit(CccChannels(mask), i) <==> (i == 0 && !Bit(mask, 5)) || (i == 1 && !Bit(mask, 9))
  {
    LowBits(CccChannels(mask), i);
  }

  lemma MaskBits(i: nat)
    requires i < 8
    ensures Bit(0xFF, i) && (Bit(0xFE, i) <==> i != 0) && (Bit(0xF7, i) <==> i != 3)
  {
    match i case 0 => case 1 => case 2 => case 3 => case 4 => case 5 => case 6 => case _ => assert i == 7;
  }

  lemma LowBits(x: nat, i: nat)
    requires x < 4
    ensures Bit(x, i) <==> (i == 0 && x % 2 == 1) || (i == 1 && x >= 2)
  {
    if i >= 2 {
      assert Bit(x, i) == Bit(x / 2, i - 1) == Bit(0, i - 2);
      ZeroHasNoBits(i - 2);
    }
  }

  // ----- The blob as TLVs and sections

  /** A blob TLV whose value is long enough for what the code reads from it. */
  predicate Readable(t: Tlv) { t.tag == TAG_COUNTRY ==> |t.value| >= 2 }

  predicate WellFormedBlob(ts: seq<Tlv>) {
    AllWellFormed(ts, OneByte) && forall k :: 0 <= k < |ts| ==> Readable(ts[k])
  }

  /** The effect of one setting. */
  function ApplySetting(st: Settings, t: Tlv): Settings {
    if t.tag == TAG_UWB_ENABLE && |t.value| == 1 then st.(uwbEnable := t.value[0] != 0)
    else if t.tag == TAG_CHANNEL_5 && t.value == [0] then st.(mask := OrWord(st.mask, 0x20))
    else if t.tag == TAG_CHANNEL_9 && t.value == [0] then st.(mask := OrWord(st.mask, 0x200))
    else if t.tag == TAG_TX_POWER && |t.value| == 2 then
      var offset := Signed16(Le16(t.value[0], t.value[1]));
      st.(txOffset := offset, txSends := st.txSends + [offset])
    else st
  }

  function ApplyAll(st: Settings, ts: seq<Tlv>): Settings
    decreases |ts|
  {
    if ts == [] then st else ApplyAll(ApplySetting(st, ts[0]), ts[1..])
  }

  predicate Heads(t: Tlv, code: Code) { |t.value| >= 2 && t.value[0] == code.c0 && t.value[1] == code.c1 }

  /** The settings that stand behind a heading with `code`, up to the next heading. */
  function Relevant(ts: seq<Tlv>, code: Code, found: bool): seq<Tlv> {
    if ts == [] then []
    else if ts[0].tag == TAG_COUNTRY then Relevant(ts[1..], code, Heads(ts[0], code))
    else (if found then [ts[0]] else []) + Relevant(ts[1..], code, found)
  }

  /** The section state behind the TLV `t`. */
  predicate FoundAfter(t: Tlv, code: Code, found: bool) { if t.tag == TAG_COUNTRY then Heads(t, code) else found }

  /** Two bytes behind a TLV's head are all the code needs to apply it. */
  lemma ApplyReads(st: Settings, t: Tlv, b0: byte, b1: byte)
    requires t.tag < 0x100 && |t.value| < 0x100
    requires |t.value| >= 1 ==> t.value[0] == b0
    requires |t.value| >= 2 ==> t.value[1] == b1
    ensures Apply(st, t.tag, |t.value|, b0, b1) == ApplySetting(st, t)
  {
  }

  lemma ScanStep(t: Tlv, rest: seq<byte>, more: nat, code: Code, found: bool, st: Settings)
    requires WellFormed(t, OneByte) && Readable(t) && |rest| >= more + 3
    ensures ScanBlob(Encode(t) + rest, |Encode(t)| + more, code, found, st) ==
      ScanBlob(rest, more, code, FoundAfter(t, code, found), if found then ApplySetting(st, t) else st)
  {
    var s := Encode(t) + rest;
    assert s[0] == t.tag && s[1] == |t.value| && s[|Encode(t)|..] == rest;
    assert |t.value| >= 1 ==> s[2] == t.value[0];
    assert |t.value| >= 2 ==> s[3] == t.value[1];
    ApplyReads(st, t, s[2], s[3]);
  }

  lemma FoldStep(ts: seq<Tlv>, code: Code, found: bool, st: Settings)
    requires ts != []
    ensures ApplyAll(st, Relevant(ts, code, found)) ==
      ApplyAll(if found then ApplySetting(st, ts[0]) else st, Relevant(ts[1..], code, FoundAfter(ts[0], code, found)))
  {
    if ts[0].tag != TAG_COUNTRY {
      var r := Relevant(ts[1..], code, found);
      assert ([ts[0]] + r)[1..] == r && [] + r == r;
    }
  }

  lemma FirstOfBlob(ts: seq<Tlv>, behind: seq<byte>, code: Code, found: bool, st: Settings)
    requires WellFormedBlob(ts) && |behind| >= 3 && ts != []
    ensures ScanBlob(EncodeAll(ts) + behind, |EncodeAll(ts)|, code, found, st) ==
      ScanBlob(EncodeAll(ts[1..]) + behind, |EncodeAll(ts[1..])|, code, FoundAfter(ts[0], code, found),
               if found then ApplySetting(st, ts[0]) else st)
  {
    HeadOfBlob(ts, behind);
    ScanStep(ts[0], EncodeAll(ts[1..]) + behind, |EncodeAll(ts[1..])|, code, found, st);
  }

  lemma HeadOfBlob(ts: seq<Tlv>, behind: seq<byte>)
    requires WellFormedBlob(ts) && ts != []
    ensures EncodeAll(ts) + behind == Encode(ts[0]) + (EncodeAll(ts[1..]) + behind)
    ensures |EncodeAll(ts)| == |Encode(ts[0])| + |EncodeAll(ts[1..])|
  {
    Regroup(Encode(ts[0]), EncodeAll(ts[1..]), behind);
  }

  lemma Regroup<T>(a: seq<T>, b: seq<T>, c: seq<T>)
    ensures a + b + c == a + (b + c)
  {
  }

  /** The byte scan is a fold over the settings in the sections headed by the requested code. */
  lemma {:induction false} ScanIsFold(ts: seq<Tlv>, behind: seq<byte>, code: Code, found: bool, st: Settings)
    requires WellFormedBlob(ts) && |behind| >= 3
    ensures ScanBlob(EncodeAll(ts) + behind, |EncodeAll(ts)|, code, found, st) == ApplyAll(st, Relevant(ts, code, found))
    decreases |ts|
  {
    if ts != [] {
      var next, nowFound := if found then ApplySetting(st, ts[0]) else st, FoundAfter(ts[0], code, found);
      FirstOfBlob(ts, behind, code, found, st);
      ScanIsFold(ts[1..], behind, code, nowFound, next);
      FoldStep(ts, code, found, st);
    }
  }

  /** One country's part of the blob: a heading and its settings. */
  datatype Section = Section(code: Code, settings: seq<Tlv>)

  predicate WellFormedSection(sec: Section) {
    AllWellFormed(sec.settings, OneByte) && forall k :: 0 <= k < |sec.settings| ==> sec.settings[k].tag != 0x00
  }

  predicate WellFormedSections(secs: seq<Section>) {
    forall k :: 0 <= k < |secs| ==> WellFormedSection(secs[k])
  }

  function SectionTlvs(sec: Section): seq<Tlv> {
    [Tlv(0x00, [sec.code.c0, sec.code.c1])] + sec.settings
  }

  function Flatten(secs: seq<Section>): seq<Tlv> {
    if secs == [] then [] else SectionTlvs(secs[0]) + Flatten(secs[1..])
  }

  /** The settings of all sections with the given code, in order. */
  function SettingsFor(secs: seq<Section>, code: Code): seq<Tlv> {
    if secs == [] then []
    else (if secs[0].code == code then secs[0].settings else []) + SettingsFor(secs[1..], code)
  }

  lemma {:induction false} RelevantInSection(settings: seq<Tlv>, more: seq<Tlv>, code: Code, found: bool)
    requires forall k :: 0 <= k < |settings| ==> settings[k].tag != TAG_COUNTRY
    requires more == [] || more[0].tag == TAG_COUNTRY
    ensures Relevant(settings + more, code, found) ==
      (if found then settings else []) + Relevant(more, code, false)
    decreases |settings|
  {
    if settings == [] {
      assert settings + more == more;
    } else {
      assert (settings + more)[1..] == settings[1..] + more;
      RelevantInSection(settings[1..], more, code, found);
      assert settings == [settings[0]] + settings[1..];
    }
  }

  lemma {:induction false} RelevantIsSettingsFor(secs: seq<Section>, code: Code)
    requires WellFormedSections(secs)
    ensures WellFormedBlob(Flatten(secs)) && Relevant(Flatten(secs), code, false) == SettingsFor(secs, code)
    ensures secs != [] ==> Flatten(secs) != [] && Flatten(secs)[0].tag == TAG_COUNTRY
  {
    if secs != [] {
      var sec, more := secs[0], Flatten(secs[1..]);
      RelevantIsSettingsFor(secs[1..], code);
      assert WellFormedSection(sec);
      RelevantInSection(sec.settings, more, code, sec.code == code);
      assert SectionTlvs(sec) + more == SectionTlvs(sec)[..1] + (sec.settings + more);
      assert Flatten(secs)[1..] == sec.settings + more;
    }
  }

  /** Applying a blob made of sections: the settings are a fold over the sections with the requested
      code, and an invalid code switches UWB off whatever they say. */
  lemma CapsAreAFoldOverSections(code: Code, count: byte, secs: seq<Section>, behind: seq<byte>)
    requires WellFormedSections(secs) && |behind| >= 3
    ensures WellFormedBlob(Flatten(secs))
    ensures
      var blob := [count] + EncodeAll(Flatten(secs));
      var st := ApplyAll(DEFAULTS, SettingsFor(secs, code));
      AppliedCaps(code, blob + behind, |blob|) == if ValidCode(code) then st else st.(uwbEnable := false)
  {
    RelevantIsSettingsFor(secs, code);
    var body := EncodeAll(Flatten(secs));
    assert ([count] + body + behind)[1..] == body + behind;
    ScanIsFold(Flatten(secs), behind, code, false, DEFAULTS);
  }

  /** Section non-interference: two blobs that agree on which sections carry the requested code, and
      on the contents of those, give the same settings. */
  lemma OtherSectionsDoNotInterfere(code: Code, a: seq<Section>, b: seq<Section>, count: byte, behind: seq<byte>)
    requires WellFormedSections(a) && WellFormedSections(b) && |behind| >= 3 && |a| == |b|
    requires forall k :: 0 <= k < |a| ==> (a[k].code == code <==> b[k].code == code)
    requires forall k :: 0 <= k < |a| && a[k].code == code ==> a[k].settings == b[k].settings
    ensures WellFormedBlob(Flatten(a)) && WellFormedBlob(Flatten(b))
    ensures
      var blobA, blobB := [count] + EncodeAll(Flatten(a)), [count] + EncodeAll(Flatten(b));
      AppliedCaps(code, blobA + behind, |blobA|) == AppliedCaps(code, blobB + behind, |blobB|)
  {
    CapsAreAFoldOverSections(code, count, a, behind);
    CapsAreAFoldOverSections(code, count, b, behind);
    SameSettings(code, a, b);
  }

  lemma {:induction false} SameSettings(code: Code, a: seq<Section>, b: seq<Section>)
    requires |a| == |b|
    requires forall k :: 0 <= k < |a| ==> (a[k].code == code <==> b[k].code == code)
    requires forall k :: 0 <= k < |a| && a[k].code == code ==> a[k].settings == b[k].settings
    ensures SettingsFor(a, code) == SettingsFor(b, code)
  {
    if a != [] {
      SameSettings(code, a[1..], b[1..]);
    }
  }

  // ----- What the settings come to, without the fold

  /** Some setting forbids the channel with this tag. */
  predicate Forbids(ts: seq<Tlv>, tag: word) {
    exists k :: 0 <= k < |ts| && ForbiddenBy(ts[k], tag)
  }

  predicate ForbiddenBy(t: Tlv, tag: word) { t.tag == tag && t.value == [0] }

  lemma ForbidsStep(ts: seq<Tlv>, tag: word)
    requires ts != []
    ensures Forbids(ts, tag) <==> ForbiddenBy(ts[0], tag) || Forbids(ts[1..], tag)
  {
    if Forbids(ts, tag) && !ForbiddenBy(ts[0], tag) {
      var k :| 0 <= k < |ts| && ForbiddenBy(ts[k], tag);
      assert ForbiddenBy(ts[1..][k - 1], tag);
    }
    if Forbids(ts[1..], tag) {
      var k :| 0 <= k < |ts[1..]| && ForbiddenBy(ts[1..][k], tag);
      assert ForbiddenBy(ts[k + 1], tag);
    }
  }

  lemma {:induction false} ForbidsConcat(a: seq<Tlv>, b: seq<Tlv>, tag: word)
    ensures Forbids(a + b, tag) <==> Forbids(a, tag) || Forbids(b, tag)
    decreases |a|
  {
    if a == [] {
      assert a + b == b;
    } else {
      ForbidsConcat(a[1..], b, tag);
      ForbidsStep(a, tag);
      ForbidsStep(a + b, tag);
      assert (a + b)[1..] == a[1..] + b;
    }
  }

  lemma DoubleBit(x: nat, i: nat)
    ensures Bit(2 * x, i + 1) == Bit(x, i)
  {
  }

  /** The two masks that are ORed in have one bit each. */
  lemma ChannelBits()
    ensures Bit(0x20, 5) && !Bit(0x20, 9) && !Bit(0x200, 5) && Bit(0x200, 9)
  {
    DoubleBit(1, 0); DoubleBit(2, 1); DoubleBit(4, 2); DoubleBit(8, 3); DoubleBit(0x10, 4);
    DoubleBit(1, 4); DoubleBit(2, 5); DoubleBit(4, 6); DoubleBit(8, 7); DoubleBit(0x10, 8);
    DoubleBit(0x20, 5); DoubleBit(0x40, 6); DoubleBit(0x80, 7); DoubleBit(0x100, 8);
    DoubleBit(0x10, 0); DoubleBit(0x20, 1); DoubleBit(0x40, 2); DoubleBit(0x80, 3); DoubleBit(0x100, 4);
    ZeroHasNoBits(3);
  }

  lemma SettingBits(st: Settings, t: Tlv)
    ensures Bit(ApplySetting(st, t).mask, 5) <==> Bit(st.mask, 5) || ForbiddenBy(t, TAG_CHANNEL_5)
    ensures Bit(ApplySetting(st, t).mask, 9) <==> Bit(st.mask, 9) || ForbiddenBy(t, TAG_CHANNEL_9)
  {
    ChannelBits();
    BitOfOr(st.mask, 0x20, 5);
    BitOfOr(st.mask, 0x20, 9);
    BitOfOr(st.mask, 0x200, 5);
    BitOfOr(st.mask, 0x200, 9);
  }

  lemma {:induction false} MaskBitsOfSettings(st: Settings, ts: seq<Tlv>)
    ensures Bit(ApplyAll(st, ts).mask, 5) <==> Bit(st.mask, 5) || Forbids(ts, TAG_CHANNEL_5)
    ensures Bit(ApplyAll(st, ts).mask, 9) <==> Bit(st.mask, 9) || Forbids(ts, TAG_CHANNEL_9)
    decreases |ts|
  {
    if ts != [] {
      SettingBits(st, ts[0]);
      MaskBitsOfSettings(ApplySetting(st, ts[0]), ts[1..]);
      ForbidsStep(ts, TAG_CHANNEL_5);
      ForbidsStep(ts, TAG_CHANNEL_9);
    }
  }

  predicate Switches(t: Tlv) { t.tag == 0x01 && |t.value| == 1 }

  lemma {:induction false} NoSwitch(st: Settings, ts: seq<Tlv>)
    requires forall k :: 0 <= k < |ts| ==> !Switches(ts[k])
    ensures ApplyAll(st, ts).uwbEnable == st.uwbEnable
    decreases |ts|
  {
    if ts != [] { NoSwitch(ApplySetting(st, ts[0]), ts[1..]); }
  }

  /** Of several UWB switches in the country's settings the last one counts. */
  lemma {:induction false} LastSwitchCounts(st: Settings, ts: seq<Tlv>, k: nat)
    requires k < |ts| && Switches(ts[k]) && forall j :: k < j < |ts| ==> !Switches(ts[j])
    ensures ApplyAll(st, ts).uwbEnable <==> ts[k].value[0] != 0
    decreases |ts|
  {
    if k == 0 {
      NoSwitch(ApplySetting(st, ts[0]), ts[1..]);
    } else {
      LastSwitchCounts(ApplySetting(st, ts[0]), ts[1..], k - 1);
    }
  }

  /** The TX power offsets among some settings: two's complement, low byte first. */
  function Offsets(ts: seq<Tlv>): seq<int> {
    if ts == [] then []
    else if ts[0].tag == 0x05 && |ts[0].value| == 2 then
      var lo: int, hi: int := ts[0].value[0], ts[0].value[1];
      [if hi < 128 then lo + 256 * hi else lo + 256 * hi - 65536] + Offsets(ts[1..])
    else Offsets(ts[1..])
  }

  predicate SetsPower(t: Tlv) { t.tag == 0x05 && |t.value| == 2 }

  lemma PowerSetting(st: Settings, t: Tlv, more: seq<Tlv>)
    ensures var next, offsets := ApplySetting(st, t), Offsets([t] + more);
      if SetsPower(t) then offsets == [next.txOffset] + Offsets(more) && next.txSends == st.txSends + [next.txOffset]
      else offsets == Offsets(more) && next.txSends == st.txSends && next.txOffset == st.txOffset
  {
    assert ([t] + more)[1..] == more;
  }

  /** All of them are sent, in order, and the last one stays. */
  lemma {:induction false} OffsetsAreSent(st: Settings, ts: seq<Tlv>)
    ensures ApplyAll(st, ts).txSends == st.txSends + Offsets(ts)
    ensures ApplyAll(st, ts).txOffset == if Offsets(ts) == [] then st.txOffset else Offsets(ts)[|Offsets(ts)| - 1]
    decreases |ts|
  {
    if ts == [] {
      assert st.txSends + [] == st.txSends;
    } else {
      var next := ApplySetting(st, ts[0]);
      assert [ts[0]] + ts[1..] == ts;
      PowerSetting(st, ts[0], ts[1..]);
      OffsetsAreSent(next, ts[1..]);
      SentFirst(st.txSends, next.txOffset, Offsets(ts[1..]));
    }
  }

  lemma SentFirst(sends: seq<int>, offset: int, more: seq<int>)
    ensures sends + [offset] + more == sends + ([offset] + more)
  {
  }

  /** What a country's settings leave of UWB and its power: UWB is on if the code is valid and the last switch in
      its own sections, if any, is not zero; and the offsets are those in its own sections. */
  lemma SwitchAndPower(code: Code, count: byte, secs: seq<Section>, behind: seq<byte>, k: nat)
    requires WellFormedSections(secs) && |behind| >= 3
    requires var ts := SettingsFor(secs, code);
      if k < |ts| then Switches(ts[k]) && forall j :: k < j < |ts| ==> !Switches(ts[j]) else forall j :: 0 <= j < |ts| ==> !Switches(ts[j])
    ensures WellFormedBlob(Flatten(secs))
    ensures
      var blob, ts := [count] + EncodeAll(Flatten(secs)), SettingsFor(secs, code);
      var st, offsets := AppliedCaps(code, blob + behind, |blob|), Offsets(ts);
      && (st.uwbEnable <==> ValidCode(code) && (k < |ts| ==> ts[k].value[0] != 0))
      && st.txSends == offsets && st.txOffset == if offsets == [] then 0 else offsets[|offsets| - 1]
  {
    var ts := SettingsFor(secs, code);
    CapsAreAFoldOverSections(code, count, secs, behind);
    OffsetsAreSent(DEFAULTS, ts);
    if k < |ts| { LastSwitchCounts(DEFAULTS, ts, k); } else { NoSwitch(DEFAULTS, ts); }
    assert [] + Offsets(ts) == Offsets(ts);
  }

  /** The country's own sections forbid the channel. */
  predicate CountryForbids(secs: seq<Section>, code: Code, tag: word) {
    exists k :: 0 <= k < |secs| && secs[k].code == code && Forbids(secs[k].settings, tag)
  }

  lemma {:induction false} ForbiddenInSettings(secs: seq<Section>, code: Code, tag: word)
    ensures Forbids(SettingsFor(secs, code), tag) <==> CountryForbids(secs, code, tag)
  {
    if secs != [] {
      ForbiddenInSettings(secs[1..], code, tag);
      ForbidsConcat(if secs[0].code == code then secs[0].settings else [], SettingsFor(secs[1..], code), tag);
      if CountryForbids(secs[1..], code, tag) {
        var k :| 0 <= k < |secs[1..]| && secs[1..][k].code == code && Forbids(secs[1..][k].settings, tag);
        assert secs[k + 1] == secs[1..][k];
      }
      if CountryForbids(secs, code, tag) && !(secs[0].code == code && Forbids(secs[0].settings, tag)) {
        var k :| 0 <= k < |secs| && secs[k].code == code && Forbids(secs[k].settings, tag);
        assert secs[k] == secs[1..][k - 1];
      }
    }
  }

  /** A channel ends up restricted exactly when one of the country's own sections forbids it, whatever
      stands before, behind, or in other sections. */
  lemma CapsRestrictExactly(code: Code, count: byte, secs: seq<Section>, behind: seq<byte>)
    requires WellFormedSections(secs) && |behind| >= 3
    ensures WellFormedBlob(Flatten(secs))
    ensures
      var blob := [count] + EncodeAll(Flatten(secs));
      var mask := AppliedCaps(code, blob + behind, |blob|).mask;
      && (Bit(mask, 5) <==> CountryForbids(secs, code, 0x02))
      && (Bit(mask, 9) <==> CountryForbids(secs, code, 0x03))
  {
    CapsAreAFoldOverSections(code, count, secs, behind);
    MaskBitsOfSettings(DEFAULTS, SettingsFor(secs, code));
    ZeroHasNoBits(5);
    ZeroHasNoBits(9);
    ForbiddenInSettings(secs, code, TAG_CHANNEL_5);
    ForbiddenInSettings(secs, code, TAG_CHANNEL_9);
  }
}
