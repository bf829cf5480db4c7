/** The HAL's dispatch and the two regulatory gates together: what is advertised in capability
    responses and what may be configured (uwb/halimpl/hal/phNxpUciHal.cc:275-330, 610-668, 831-994). */
module Regulation {
  import opened Bytes
  import opened Tlv
  import opened TagMap
  import opened Uci
  import opened CapsMask
  import opened ChannelGate
  import opened CountryCode
  import Filter = AppConfigFilter
  import CountryCaps
  import CapsInfo
  import TxPower
  import Cascade

  /** SET_APP_CONFIG_RSP: failed, one parameter, invalid parameter, channel blocked by country code. */
  const BLOCKED_CHANNEL: seq<byte> := [0x41, 0x03, 0x04, 0x04, 0x02, 0x01, 0x04, 0x56]

  const TX_POWER_PER_ANTENNA := 0x04

  /** What becomes of a command. */
  datatype Outcome = Country(code: CountryCaps.Code) | Refused | Sent(packet: seq<byte>)

  /** The code of a set-country command; other lengths stand for "00". */
  function CodeIn(s: seq<byte>): CountryCaps.Code {
    if |s| == 6 then CountryCaps.Code(s[4], s[5]) else CountryCaps.Code(0x30, 0x30)
  }

  predicate IsTxPower(s: seq<byte>) { IsSetCalibration(s) && |s| >= 6 && s[5] == TX_POWER_PER_ANTENNA }

  /** The command buffer after the filter: the gate looks at it whole, with whatever lies behind the
      command. */
  function Buffered(s: seq<byte>, before: seq<byte>): (r: seq<byte>)
    requires HEADER_SIZE <= |s| <= |before|
    ensures |r| == |before|
  {
    var f := Filter.Filtered(s);
    if |f| <= |s| then f + (s + before[|s|..])[|f|..] else before
  }

  /** A command the code can process without running for ever or reading past the buffer. */
  ghost predicate Processable(s: seq<byte>, before: seq<byte>, mask: word)
    requires |before| == MAX_DATA_LEN
  {
    HEADER_SIZE <= |s| <= MAX_DATA_LEN ==>
      && !IsCapsResponse(s) && !Filter.Stalls(s)
      && (IsSetAppConfig(s) ==> Ends(Buffered(s, before), mask))
      && (IsSetCalibration(s) ==> |s| >= 6)
      && (IsTxPower(s) ==> TxPower.Complete(s[HEADER_SIZE..]))
  }

  /** What write_unlocked does with a command of acceptable length. */
  ghost function Dispatched(s: seq<byte>, before: seq<byte>, rt: CountryCaps.Settings): Outcome
    requires HEADER_SIZE <= |s| <= |before| == MAX_DATA_LEN && Processable(s, before, rt.mask)
  {
    if IsSetCountryCode(s) then Country(CodeIn(s))
    else if IsSetAppConfig(s) && Refuses(Buffered(s, before), rt.mask) then Refused
    else if IsTxPower(s) then Sent(s[..HEADER_SIZE] + TxPower.Updated(s[HEADER_SIZE..], rt.txOffset))
    else Sent(Filter.Filtered(s))
  }

  /** Bytes copied back behind the head of a packet. */
  lemma CopiedBack(f: seq<byte>, updated: seq<byte>, r: seq<byte>)
    requires HEADER_SIZE <= |f| == |r| == HEADER_SIZE + |updated|
    requires forall k :: HEADER_SIZE <= k < |r| ==> r[k] == updated[k - HEADER_SIZE]
    requires forall k :: 0 <= k < HEADER_SIZE ==> r[k] == f[k]
    ensures r == f[..HEADER_SIZE] + updated
  {
  }

  class Hal {
    const country: Country
    const cmdData: array<byte>
    var cmdLen: word
    /** What was handed to phTmlUwb_Write. */
    var tmlWrites: seq<seq<byte>>

    ghost predicate Valid()
      reads country.config, country.config.extras
    {
      && country.Valid() && cmdData.Length == MAX_DATA_LEN
      && country.caps.response.Length == MAX_DATA_LEN && cmdData != country.caps.response
    }

    constructor (disk: Cascade.Disk)
      requires Cascade.NamedRegions(disk.regions)
      ensures Valid() && country.config.disk == disk && country.View() == Initial(disk)
      ensures tmlWrites == [] && country.caps.forwarded == []
    {
      country := new Country(disk);
      cmdData := new byte[MAX_DATA_LEN];
      cmdLen, tmlWrites := 0, [];
    }

    /** phNxpUciHal_parse on the command buffer, whose first bytes are `f`. */
    method ParseCommand(stack: Stack, ghost f: seq<byte>) returns (consumed: bool)
      requires Valid() && HEADER_SIZE <= cmdLen <= MAX_DATA_LEN && f == cmdData[..cmdLen]
      requires IsSetAppConfig(f) ==> Ends(cmdData[..], country.rt.restrictedChannelMask)
      requires IsSetCalibration(f) ==> |f| >= 6
      requires IsTxPower(f) ==> TxPower.Complete(f[HEADER_SIZE..])
      requires !IsCapsResponse(f)
      modifies country.config`region, country.config.extras, country.rt
      modifies country.caps`mapCreated, country.caps`confMap, country.caps`forwarded, cmdData
      ensures Valid() && cmdLen == old(cmdLen)
      ensures consumed == (IsSetCountryCode(f) || (IsSetAppConfig(f) && Refuses(old(cmdData[..]), old(country.rt.restrictedChannelMask))))
      ensures IsSetCountryCode(f) ==>
        && country.View() == SetCountry(country.config.disk, old(country.View()), CodeIn(f), stack)
        && country.caps.forwarded == old(country.caps.forwarded) + [[0x4C, 1, 0, 1, if country.rt.uwbEnable then 0 else 0x53]]
      ensures !IsSetCountryCode(f) ==>
        && country.View() == old(country.View())
        && country.caps.forwarded == old(country.caps.forwarded) + if consumed then [BLOCKED_CHANNEL] else []
      ensures !consumed ==>
        cmdData[..cmdLen] == if IsTxPower(f) then f[..HEADER_SIZE] + TxPower.Updated(f[HEADER_SIZE..], old(country.rt.txPowerOffset)) else f
    {
      var mt, gid, oid := MessageType(cmdData[0]), Gid(cmdData[0]), Oid(cmdData[1]);
      consumed := false;
      if mt == MT_CMD {
        if gid == 0x0C && oid == 1 {
          var code := if cmdLen == 6 then CountryCaps.Code(cmdData[4], cmdData[5]) else CountryCaps.Code(0x30, 0x30);
          country.HandleSetCountryCode(code, stack);
          return true;
        } else if gid == 0x0F && oid == 0x21 {
          if cmdData[HEADER_SIZE + 1] == TX_POWER_PER_ANTENNA { StoreTxPower(f); }
        } else if gid == 1 && oid == 3 {
          consumed := CheckChannels(cmdData, country.rt.restrictedChannelMask);
          if consumed { country.caps.forwarded := country.caps.forwarded + [BLOCKED_CHANNEL]; }
        }
      }
    }

    /** The calibration is copied, adjusted and copied back. */
    method StoreTxPower(ghost f: seq<byte>)
      requires HEADER_SIZE <= cmdLen <= cmdData.Length && f == cmdData[..cmdLen] && TxPower.Complete(f[HEADER_SIZE..])
      modifies cmdData
      ensures cmdData[..cmdLen] == f[..HEADER_SIZE] + TxPower.Updated(f[HEADER_SIZE..], country.rt.txPowerOffset)
    {
      var n := cmdLen as int - HEADER_SIZE;
      var txPower := new byte[n];
      CopyBytes(cmdData, HEADER_SIZE, txPower, 0, n);
      assert txPower[..] == f[HEADER_SIZE..];
      TxPower.UpdateTxPower(txPower, country.rt.txPowerOffset);
      ghost var updated := txPower[..];
      CopyBytes(txPower, 0, cmdData, HEADER_SIZE, n);
      CopiedBack(f, updated, cmdData[..cmdLen]);
    }

    /** The command is copied to the buffer and filtered there. */
    method LoadCommand(s: seq<byte>)
      requires HEADER_SIZE <= |s| <= MAX_DATA_LEN == cmdData.Length && !Filter.Stalls(s)
      modifies this`cmdLen, cmdData
      ensures cmdLen == |Filter.Filtered(s)| <= |s| && cmdData[..cmdLen] == Filter.Filtered(s)
      ensures cmdData[..] == Buffered(s, old(cmdData[..]))
    {
      ghost var before := cmdData[..];
      forall k | 0 <= k < |s| { cmdData[k] := s[k]; }
      cmdLen := |s|;
      assert cmdData[..|s|] == s && cmdData[..] == s + before[|s|..];
      cmdLen := Filter.HandleVendorAppConfig(cmdData, cmdLen);
    }

    /** phNxpUciHal_write_unlocked. `pending` is what phTmlUwb_Write and the wait for its completion
        come to. The result is the number of bytes reported as written: a consumed command counts. */
    method WriteUnlocked(s: seq<byte>, stack: Stack, pending: bool) returns (written: nat)
      requires Valid()
      requires Processable(s, cmdData[..], country.rt.restrictedChannelMask)
      modifies this, cmdData, country.config`region, country.config.extras, country.rt
      modifies country.caps`mapCreated, country.caps`confMap, country.caps`forwarded
      ensures Valid()
      ensures !(HEADER_SIZE <= |s| <= MAX_DATA_LEN) ==>
        && written == 0 && tmlWrites == old(tmlWrites) && country.View() == old(country.View())
        && country.caps.forwarded == old(country.caps.forwarded)
      ensures HEADER_SIZE <= |s| <= MAX_DATA_LEN ==>
        match Dispatched(s, old(cmdData[..]), old(country.rt.View()))
        case Country(code) =>
          && written == |s| && tmlWrites == old(tmlWrites)
          && country.View() == SetCountry(country.config.disk, old(country.View()), code, stack)
          && country.caps.forwarded == old(country.caps.forwarded) + [[0x4C, 1, 0, 1, if country.rt.uwbEnable then 0 else 0x53]]
        case Refused =>
          && written == |s| && tmlWrites == old(tmlWrites) && country.View() == old(country.View())
          && country.caps.forwarded == old(country.caps.forwarded) + [[0x41, 3, 4, 4, 2, 1, 4, 0x56]]
        case Sent(packet) =>
          && written == (if pending then |s| else 0) && tmlWrites == old(tmlWrites) + [packet]
          && country.View() == old(country.View()) && country.caps.forwarded == old(country.caps.forwarded)
    {
      if |s| > MAX_DATA_LEN || |s| < HEADER_SIZE { return 0; }
      LoadCommand(s);
      FilterKeepsKind(s);
      var consumed := ParseCommand(stack, Filter.Filtered(s));
      if consumed { return |s|; }
      tmlWrites := tmlWrites + [cmdData[..cmdLen]];
      written := if pending then |s| else 0;
    }
  }

  /** The filter changes SET_APP_CONFIG commands only, and not what they are. */
  lemma FilterKeepsKind(s: seq<byte>)
    requires |s| >= HEADER_SIZE && !Filter.Stalls(s)
    ensures var f := Filter.Filtered(s);
      && HEADER_SIZE <= |f| <= |s| && f[0] == s[0] && f[1] == s[1] && (!IsSetAppConfig(s) ==> f == s)
  {
    Filter.FilterIsIdempotent(s);
    if |s| > Filter.BODY { Filter.WalkSizes(s[Filter.BODY..]); }
  }

  /** Which commands are taken for what, by their bytes (both values of the continuation bit, any of the two
      high bits of the second byte): a set-country command gives its two code bytes, or "00" if it does not
      have exactly two; a calibration command is adjusted if its parameter is the TX power; all others but
      SET_APP_CONFIG go out as they are. */
  lemma DispatchedByBytes(s: seq<byte>, before: seq<byte>, rt: CountryCaps.Settings)
    requires HEADER_SIZE <= |s| <= |before| == MAX_DATA_LEN && Processable(s, before, rt.mask)
    ensures (s[0] == 0x2C || s[0] == 0x3C) && s[1] % 0x40 == 1 ==>
      Dispatched(s, before, rt) == Country(if |s| == 6 then CountryCaps.Code(s[4], s[5]) else CountryCaps.Code(0x30, 0x30))
    ensures (s[0] == 0x21 || s[0] == 0x31) && s[1] % 0x40 == 3 ==>
      Dispatched(s, before, rt) == if Refuses(Buffered(s, before), rt.mask) then Refused else Sent(Filter.Filtered(s))
    ensures (s[0] == 0x2F || s[0] == 0x3F) && s[1] % 0x40 == 0x21 ==>
      && 6 <= |s| && (s[5] == 4 ==> TxPower.Complete(s[4..]))
      && Dispatched(s, before, rt) == Sent(if s[5] == 4 then s[..4] + TxPower.Updated(s[4..], rt.txOffset) else s)
    ensures
      || ((s[0] == 0x2C || s[0] == 0x3C) && s[1] % 0x40 == 1) || ((s[0] == 0x21 || s[0] == 0x31) && s[1] % 0x40 == 3)
      || ((s[0] == 0x2F || s[0] == 0x3F) && s[1] % 0x40 == 0x21) || Dispatched(s, before, rt) == Sent(s)
  {
    FilterKeepsKind(s);
  }

  /** A TX power calibration that says it has no data, or any without a country's offset, goes out as it is. */
  lemma CalibrationStays(s: seq<byte>, before: seq<byte>, rt: CountryCaps.Settings)
    requires |s| <= |before| == MAX_DATA_LEN && |s| >= 9 && (s[0] == 0x2F || s[0] == 0x3F) && s[1] % 0x40 == 0x21 && s[5] == 4
    requires Processable(s, before, rt.mask) && (rt.txOffset == 0 || s[6] == 0)
    ensures Dispatched(s, before, rt) == Sent(s)
  {
    DispatchedByBytes(s, before, rt);
    assert s[4..][2] == s[6] && s == s[..4] + s[4..];
  }

  /** The bytes of the code are the characters of the country, in that order. */
  lemma UnitedStates(disk: Cascade.Disk, before: seq<byte>, rt: CountryCaps.Settings)
    requires disk.regions == [Cascade.Region("FCC", {"US"})] && |before| == MAX_DATA_LEN
    ensures var s := [0x2C, 0x01, 0x00, 0x02, 0x55, 0x53];
      && Processable(s, before, rt.mask) && Dispatched(s, before, rt).Country?
      && RegionOf(disk, Dispatched(s, before, rt).code) == "FCC"
  {
    var s := [0x2C, 0x01, 0x00, 0x02, 0x55, 0x53];
    DispatchedByBytes(s, before, rt);
    assert Text(CountryCaps.Code(0x55, 0x53)) == "US";
  }

  /** The little-endian value at `i`. */
  function At(s: seq<byte>, i: nat): nat
    requires i + 1 < |s|
  {
    s[i] as int + 256 * s[i + 1] as int
  }

  /** A TX power calibration for up to 50 antennas goes out with the country's offset added to every antenna's
      power, which is little-endian in the last two of its five bytes: negative sums as zero, larger ones
      modulo 2^16. No other byte changes. */
  lemma CalibrationIsAdjusted(s: seq<byte>, before: seq<byte>, rt: CountryCaps.Settings, k: nat, j: nat)
    requires |before| == MAX_DATA_LEN && 9 <= |s| <= MAX_DATA_LEN && (s[0] == 0x2F || s[0] == 0x3F) && s[1] % 0x40 == 0x21
    requires s[5] == 4 && s[6] != 0 && s[7] <= 50 && 8 + 5 * s[7] as int <= |s|
    requires k < s[7] && j < |s| && (j < 8 || j >= 8 + 5 * s[7] as int || (j - 8) % 5 < 3)
    ensures Processable(s, before, rt.mask)
    ensures
      var r := Dispatched(s, before, rt);
      var sum := At(s, 8 + 5 * k + 3) + rt.txOffset;
      && r.Sent? && |r.packet| == |s| && r.packet[j] == s[j]
      && At(r.packet, 8 + 5 * k + 3) == if sum < 0 then 0 else sum % 65536
  {
    var c := s[4..];
    assert c[2] == s[6] && c[3] == s[7];
    TxPower.UpdateIsExact(c, rt.txOffset);
    DispatchedByBytes(s, before, rt);
    var u := TxPower.Updated(c, rt.txOffset);
    var p := s[..4] + u;
    assert p[4..] == u;
    PowerAt(c, u, rt.txOffset, k);
    Behind4(s, c, 5 * k + 7);
    Behind4(p, u, 5 * k + 7);
    OthersOut(s, p, s[7], j);
  }

  lemma Behind4(p: seq<byte>, c: seq<byte>, i: nat)
    requires |p| >= 4 && c == p[4..] && i + 1 < |c|
    ensures At(p, i + 4) == At(c, i) && p[i + 4] == c[i]
  {
  }

  lemma PowerAt(c: seq<byte>, u: seq<byte>, offset: int, k: nat)
    requires |u| == |c| && 5 * k + 8 < |c| && TxPower.Rms(u, k) == TxPower.Adjust(TxPower.Rms(c, k), offset)
    ensures At(u, 5 * k + 7) == if At(c, 5 * k + 7) + offset < 0 then 0 else (At(c, 5 * k + 7) + offset) % 65536
  {
    assert 4 + 5 * k + 3 == 5 * k + 7;
  }

  lemma OthersOut(s: seq<byte>, p: seq<byte>, n: nat, j: nat)
    requires 8 + 5 * n <= |s| == |p| && s[..4] == p[..4]
    requires forall i :: 0 <= i < |s| - 4 && !TxPower.IsRms(i, n) ==> p[4..][i] == s[4..][i]
    requires j < |s| && (j < 8 || j >= 8 + 5 * n || (j - 8) % 5 < 3)
    ensures p[j] == s[j]
  {
    if j < 4 {
      assert s[..4][j] == p[..4][j];
    } else {
      assert !TxPower.IsRms(j - 4, n);
      assert p[4..][j - 4] == s[4..][j - 4];
    }
  }

  // ----- The configuration gate, behind the filter

  lemma {:induction false} KeepAsks(ts: seq<Tlv>, mask: word)
    ensures Asks(Filter.Keep(ts), mask) <==> Asks(ts, mask)
    ensures ChannelsNamed(ts) ==> ChannelsNamed(Filter.Keep(ts))
    ensures AllWellFormed(ts, OneByte) ==> AllWellFormed(Filter.Keep(ts), OneByte)
  {
    if ts != [] {
      KeepAsks(ts[1..], mask);
      AsksStep(ts, mask);
      if !Filter.Unsupported(ts[0].tag) {
        var k := Filter.Keep(ts);
        assert k[1..] == Filter.Keep(ts[1..]);
        AsksStep(k, mask);
      }
    }
  }

  /** For every well-formed SET_APP_CONFIG with one-byte tags, filtered to a payload of one length byte:
      it is refused, and does not reach the chip, exactly when it asks for a restricted channel and that
      payload is at most 251 bytes; otherwise exactly its filtered parameters are sent. */
  lemma ConfigurationGate(s: seq<byte>, ts: seq<Tlv>, before: seq<byte>, rt: CountryCaps.Settings)
    requires Filter.CarriesParams(s, ts, Extended) && Filter.AllFit(ts) && |Filter.Filtered(s)| < HEADER_SIZE + 0x100
    requires AllWellFormed(ts, OneByte) && ChannelsNamed(ts) && |before| == MAX_DATA_LEN
    ensures HEADER_SIZE <= |s| <= MAX_DATA_LEN && Processable(s, before, rt.mask)
    ensures var f := Filter.Filtered(s);
      && |f| >= HEADER_SIZE
      && (Dispatched(s, before, rt) == Refused <==> |f| <= HEADER_SIZE + 251 && Asks(ts, rt.mask))
      && (Dispatched(s, before, rt) != Refused ==> Dispatched(s, before, rt) == Sent(f))
  {
    var p, f, kept := Buffered(s, before), Filter.Filtered(s), Filter.Keep(ts);
    Filter.FilterRefinesDecodeFilterEncode(s, ts);
    FilterKeepsKind(s);
    KeepAsks(ts, rt.mask);
    assert p[..|f|] == f;
    FilteredPayload(f, kept, p);
    GateIsExactUpTo251(p, rt.mask, kept);
  }

  lemma FilteredPayload(f: seq<byte>, kept: seq<Tlv>, p: seq<byte>)
    requires Filter.CarriesParams(f, kept, Extended) && |f| <= |p| == MAX_DATA_LEN && p[..|f|] == f
    requires |f| < HEADER_SIZE + 0x100
    ensures p[3] == |f| - HEADER_SIZE && FIRST <= p[3] as int + HEADER_SIZE
    ensures p[FIRST..p[3] as int + HEADER_SIZE] == EncodeAll(kept)
  {
    assert p[3] == f[3] && p[2] == f[2];
    assert p[FIRST..|f|] == f[FIRST..];
  }

  /** The gate takes the low byte of the length, plus the header, in a uint8_t: where that is at most the
      first index, nothing is checked and every channel goes through. */
  lemma UncheckedLengths(s: seq<byte>, ts: seq<Tlv>, before: seq<byte>, rt: CountryCaps.Settings)
    requires Filter.CarriesParams(s, ts, Extended) && Filter.AllFit(ts) && |before| == MAX_DATA_LEN
    requires var low := (|Filter.Filtered(s)| - HEADER_SIZE) % 0x100; low >= 252 || low <= 5
    ensures HEADER_SIZE <= |s| <= MAX_DATA_LEN && Processable(s, before, rt.mask)
    ensures Dispatched(s, before, rt) == Sent(Filter.Filtered(s))
  {
    var p, f := Buffered(s, before), Filter.Filtered(s);
    Filter.FilterRefinesDecodeFilterEncode(s, ts);
    FilterKeepsKind(s);
    assert p[..|f|] == f && p[3] == f[3];
    LowByte(f[3], f[2]);
    VerdictIs(p, rt.mask, 0);
  }

  /** On these commands it never ends, and the HAL hangs with its lock held: what the filter leaves has, within
      the range that is looked at and behind parameters with one-byte tags that ask for nothing restricted, one
      with a two-byte tag that ends in 0xFE. */
  lemma CheckNeverEnds(s: seq<byte>, ts: seq<Tlv>, us: seq<Tlv>, t: Tlv, more: seq<Tlv>, before: seq<byte>, mask: word)
    requires Filter.CarriesParams(s, ts, Extended) && Filter.AllFit(ts) && |before| == MAX_DATA_LEN
    requires Filter.Keep(ts) == us + ([t] + more) && AllWellFormed(us, OneByte) && ChannelsNamed(us) && !Asks(us, mask)
    requires t.tag >= 0x100 && t.tag % 0x100 == 0xFE
    requires FIRST + |EncodeAll(us)| < Wrap8((|Filter.Filtered(s)| - HEADER_SIZE) % 0x100 + HEADER_SIZE)
    ensures HEADER_SIZE <= |s| <= MAX_DATA_LEN && !Processable(s, before, mask)
  {
    Filter.FilterRefinesDecodeFilterEncode(s, ts);
    FilterKeepsKind(s);
    PartsWellFormed(us, [t] + more, Extended);
    PartsWellFormed([t], more, Extended);
    assert WellFormed([t][0], Extended);
    ListBytes(us, t, more);
    HangsAt(Buffered(s, before), Filter.Filtered(s), us, t, EncodeAll(more), mask);
  }

  lemma HangsAt(p: seq<byte>, f: seq<byte>, us: seq<Tlv>, t: Tlv, more: seq<byte>, mask: word)
    requires FIRST <= |f| <= |p| == MAX_DATA_LEN && p[..|f|] == f && Filter.PayloadLen(f) == |f| - HEADER_SIZE
    requires AllWellFormed(us, OneByte) && ChannelsNamed(us) && !Asks(us, mask)
    requires 0xE000 <= t.tag && t.tag % 0x100 == 0xFE && |t.value| < 0x100
    requires f[FIRST..] == EncodeAll(us) + (Encode(t) + more)
    requires FIRST + |EncodeAll(us)| < Wrap8((|f| - HEADER_SIZE) % 0x100 + HEADER_SIZE)
    ensures !Ends(p, mask)
  {
    EndOf(p, f);
    TwoByteHead(t);
    SlicedBody(p, f, EncodeAll(us), Encode(t), more, End(p));
    GateHangs(p, mask, us, p[FIRST + |EncodeAll(us)|..End(p)], FIRST + |EncodeAll(us)|);
  }

  lemma EndOf(p: seq<byte>, f: seq<byte>)
    requires HEADER_SIZE <= |f| <= |p| && p[..|f|] == f && Filter.PayloadLen(f) == |f| - HEADER_SIZE
    ensures End(p) == Wrap8((|f| - HEADER_SIZE) % 0x100 + HEADER_SIZE) && End(p) <= |f|
  {
    assert p[3] == f[3];
    LowByte(f[3], f[2]);
  }

  lemma ListBytes(us: seq<Tlv>, t: Tlv, more: seq<Tlv>)
    requires Sized(us) && |t.value| < 0x100 && Sized(more)
    ensures Sized(us + ([t] + more)) && EncodeAll(us + ([t] + more)) == EncodeAll(us) + (Encode(t) + EncodeAll(more))
  {
    EncodeCons(t, more);
    EncodeConcat(us, [t] + more);
  }

  lemma TwoByteHead(t: Tlv)
    requires |t.value| < 0x100 && t.tag >= 0x100
    ensures Encode(t)[0] == t.tag / 0x100 && Encode(t)[1] == t.tag % 0x100
  {
  }

  lemma SlicedBody(p: seq<byte>, f: seq<byte>, a: seq<byte>, e: seq<byte>, more: seq<byte>, end: nat)
    requires FIRST <= |f| <= |p| && p[..|f|] == f && f[FIRST..] == a + (e + more) && |e| >= 2
    requires FIRST + |a| < end <= |f|
    ensures var i := FIRST + |a|; p[FIRST..end] == a + p[i..end] && i + 1 < |p| && p[i] == e[0] && p[i + 1] == e[1]
  {
    var body, n := f[FIRST..], |a|;
    assert body[..n] == a && body[n] == e[0] && body[n + 1] == e[1];
    assert p[FIRST..FIRST + n] == body[..n] && p[FIRST + n] == body[n] && p[FIRST + n + 1] == body[n + 1];
    assert p[FIRST..end] == p[FIRST..FIRST + n] + p[FIRST + n..end];
  }

  lemma LowByte(lo: byte, hi: byte)
    ensures Le16(lo, hi) as int % 0x100 == lo
  {
  }

  // ----- The capability responses

  /** The packet the first rewriting leaves in the receive buffer `d`: without configured capabilities the
      received one, as far as it was not written to. */
  function FirstPacket(d: seq<byte>, dataLen: nat, ts: seq<Tlv>, vts: seq<Tlv>, a: CapsInfo.Antenna): (packet: seq<byte>)
    requires Sized(ts) && Sized(vts) && BODY <= dataLen <= |d|
    ensures BODY <= |packet|
  {
    if vts == [] then CapsInfo.Overwritten(CapsInfo.Begin(d), ts, a)[..dataLen]
    else CapsInfo.Rebuilt(CapsInfo.Rewritten(CapsInfo.Begin(d), ts, a) + vts)
  }

  /** What goes up of a response, the tag map holding `m`: the masked map, or, without a capability map, on an
      error status and when parsing fails, the packet itself. */
  function UpPacket(mapCreated: bool, conf: TagMap, behind: Behind, m: TagMap, packet: seq<byte>): (up: seq<byte>)
    requires BODY <= |packet|
    ensures BODY <= |up|
  {
    if mapCreated && packet[4] == 0 && Parses(m, packet) then Packet(packet[..BODY], MaskMap(conf, behind, Taken(m, packet)))
    else packet
  }

  predicate Parses(m: TagMap, packet: seq<byte>)
    requires BODY <= |packet|
  {
    ParseInto(m, packet[BODY..]).ok
  }

  /** The tag map after parsing, before anything is cleared. */
  function Taken(m: TagMap, packet: seq<byte>): TagMap
    requires BODY <= |packet|
  {
    ParseInto(m, packet[BODY..]).m
  }

  function LeftBehind(mapCreated: bool, m: TagMap, packet: seq<byte>): TagMap
    requires BODY <= |packet|
  {
    if !mapCreated || packet[4] != 0 then m else if Parses(m, packet) then [] else Taken(m, packet)
  }

  /** phNxpUciHal_read_complete for a well-formed GET_CAPS_INFO response outside an internal command: both
      rewritings, then the packet itself goes up unless its replacement did. */
  method ForwardCaps(hal: Hal, data: array<byte>, dataLen: word, vendor: seq<byte>, a: CapsInfo.Antenna, behind: Behind,
                     ghost ts: seq<Tlv>, ghost vts: seq<Tlv>, ghost packet: seq<byte>)
    requires hal.Valid() && data != hal.country.caps.response && BODY <= dataLen <= MAX_DATA_LEN <= data.Length
    requires CapsInfo.CarriesCaps(data[..dataLen], ts, Vendor) && CapsInfo.AoaNotFirst(ts)
    requires AllWellFormed(vts, OneByte) && vendor == EncodeAll(vts) && |vendor| <= CapsInfo.MAX_CONFIG_LEN
    requires packet == FirstPacket(data[..], dataLen, ts, vts, a)
    requires vts != [] ==> CapsInfo.VersionsArePairs(ts) && |packet| < 0x100 + HEADER_SIZE
    requires BODY + Size(Taken(hal.country.caps.inputMap, packet)) <= MAX_DATA_LEN
    modifies data, hal.country.caps, hal.country.caps.response
    ensures hal.country.View() == old(hal.country.View())
    ensures
      var caps := hal.country.caps;
      && caps.forwarded == old(caps.forwarded) + [UpPacket(caps.mapCreated, caps.confMap, behind, old(caps.inputMap), packet)]
      && caps.inputMap == LeftBehind(caps.mapCreated, old(caps.inputMap), packet)
  {
    var rxLen := RewriteFirst(data, dataLen, vendor, a, ts, vts, packet);
    ForwardRewritten(hal.country.caps, data, rxLen, behind, packet);
  }

  method RewriteFirst(data: array<byte>, dataLen: word, vendor: seq<byte>, a: CapsInfo.Antenna,
                      ghost ts: seq<Tlv>, ghost vts: seq<Tlv>, ghost packet: seq<byte>)
    returns (rxLen: word)
    requires BODY <= dataLen <= MAX_DATA_LEN <= data.Length
    requires CapsInfo.CarriesCaps(data[..dataLen], ts, Vendor) && CapsInfo.AoaNotFirst(ts)
    requires AllWellFormed(vts, OneByte) && vendor == EncodeAll(vts) && |vendor| <= CapsInfo.MAX_CONFIG_LEN
    requires packet == FirstPacket(data[..], dataLen, ts, vts, a)
    requires vts != [] ==> CapsInfo.VersionsArePairs(ts) && |packet| < 0x100 + HEADER_SIZE
    modifies data
    ensures BODY <= rxLen <= data.Length && data[..rxLen] == packet
  {
    ghost var d := data[..];
    rxLen := CapsInfo.ParseGetCapsInfo(data, dataLen, vendor, a, ts, vts);
    FirstPacketIs(d, dataLen, ts, vts, a, data[..], rxLen);
  }

  lemma FirstPacketIs(d: seq<byte>, dataLen: nat, ts: seq<Tlv>, vts: seq<Tlv>, a: CapsInfo.Antenna, after: seq<byte>, rxLen: nat)
    requires BODY <= dataLen <= |d| == |after| && rxLen <= |after| && Sized(ts) && Sized(vts)
    requires EncodeAll(vts) == [] ==> rxLen == dataLen && after == CapsInfo.Overwritten(CapsInfo.Begin(d), ts, a)
    requires EncodeAll(vts) != [] ==> after[..rxLen] == CapsInfo.Rebuilt(CapsInfo.Rewritten(CapsInfo.Begin(d), ts, a) + vts)
    ensures after[..rxLen] == FirstPacket(d, dataLen, ts, vts, a)
  {
    assert vts != [] ==> |EncodeAll(vts)| > 0;
  }

  method ForwardRewritten(caps: CapsResponder, data: array<byte>, rxLen: word, behind: Behind, ghost packet: seq<byte>)
    requires data != caps.response && caps.response.Length == MAX_DATA_LEN && BODY <= rxLen <= data.Length
    requires packet == data[..rxLen] && BODY + Size(Taken(caps.inputMap, packet)) <= MAX_DATA_LEN
    modifies caps`inputMap, caps`skipPacket, caps`forwarded, caps.response
    ensures caps.forwarded == old(caps.forwarded) + [UpPacket(caps.mapCreated, caps.confMap, behind, old(caps.inputMap), packet)]
    ensures caps.inputMap == LeftBehind(caps.mapCreated, old(caps.inputMap), packet)
  {
    assert data[4] == packet[4] && data[..BODY] == packet[..BODY] && data[BODY..rxLen] == packet[BODY..];
    caps.skipPacket := false;
    caps.Respond(data, rxLen, behind);
    if !caps.skipPacket {
      caps.forwarded := caps.forwarded + [data[..rxLen]];
    }
  }

  /** The list the first rewriting leaves: without configured vendor capabilities the device's TLVs, stamped
      with the AoA value. */
  function FirstTlvs(d: seq<byte>, ts: seq<Tlv>, vts: seq<Tlv>, a: CapsInfo.Antenna): (us: seq<Tlv>)
    requires Sized(ts) && Sized(vts)
    ensures Sized(us)
  {
    if vts == [] then CapsInfo.Stamped(ts, a) else CapsInfo.Rewritten(CapsInfo.Begin(d), ts, a) + vts
  }

  /** A response of the device, and a configuration, for which it is one: there is a value for every AoA value
      to be written over, or, when the packet is rebuilt, CCC versions have two bytes, and the result fits
      the length byte. */
  predicate Rewritable(d: seq<byte>, dataLen: nat, ts: seq<Tlv>, vts: seq<Tlv>, a: CapsInfo.Antenna) {
    && BODY <= dataLen < |d| && CapsInfo.CarriesCaps(d[..dataLen], ts, Vendor) && CapsInfo.AoaNotFirst(ts)
    && AllWellFormed(vts, Vendor)
    && if vts == [] then CapsInfo.Stampable(ts)
       else CapsInfo.VersionsArePairs(ts) && |EncodeAll(FirstTlvs(d, ts, vts, a))| + 2 < 0x100
  }

  lemma FirstPacketCarries(d: seq<byte>, dataLen: nat, ts: seq<Tlv>, vts: seq<Tlv>, a: CapsInfo.Antenna)
    requires Rewritable(d, dataLen, ts, vts, a)
    ensures CapsInfo.CarriesCaps(FirstPacket(d, dataLen, ts, vts, a), FirstTlvs(d, ts, vts, a), Vendor)
    ensures Read(FirstPacket(d, dataLen, ts, vts, a), Vendor) == FirstTlvs(d, ts, vts, a)
  {
    if vts == [] {
      UnconfiguredCarries(d, dataLen, ts, a);
    } else {
      CapsInfo.RewrittenIsVendor(CapsInfo.Begin(d), ts, a);
      CapsInfo.RebuiltCarries(FirstTlvs(d, ts, vts, a), Vendor);
    }
    DecodeEncode(FirstTlvs(d, ts, vts, a), Vendor);
  }

  lemma UnconfiguredCarries(d: seq<byte>, dataLen: nat, ts: seq<Tlv>, a: CapsInfo.Antenna)
    requires BODY <= dataLen < |d| && CapsInfo.CarriesCaps(d[..dataLen], ts, Vendor)
    requires CapsInfo.AoaNotFirst(ts) && CapsInfo.Stampable(ts)
    ensures CapsInfo.CarriesCaps(FirstPacket(d, dataLen, ts, [], a), CapsInfo.Stamped(ts, a), Vendor)
  {
    var w := CapsInfo.Begin(d);
    CapsInfo.BodyIn(d, dataLen, EncodeAll(ts));
    CapsInfo.NotNext(ts);
    CapsInfo.OverwrittenIsStamped(w, ts, d[dataLen..], a);
    CapsInfo.StampedSize(ts, a);
    var packet := FirstPacket(d, dataLen, ts, [], a);
    Assembled(packet, CapsInfo.Overwritten(w, ts, a), d[..BODY], EncodeAll(CapsInfo.Stamped(ts, a)), d[dataLen..]);
    assert forall k :: 0 <= k < BODY ==> packet[k] == packet[..BODY][k] == d[..dataLen][k];
  }

  lemma Assembled(packet: seq<byte>, whole: seq<byte>, head: seq<byte>, body: seq<byte>, post: seq<byte>)
    requires |head| == BODY && whole == head + (body + post) && packet == whole[..|head| + |body|]
    ensures packet[..BODY] == head && packet[BODY..] == body
  {
  }

  /** What a reader finds in the packet the first rewriting leaves, when vendor capabilities are configured:
      the device's TLVs with one-byte tags, in order, the AoA value by the antennas, CCC versions swapped, all
      else as it was; then the configured capabilities. */
  lemma FirstPacketPassesOn(d: seq<byte>, dataLen: nat, ts: seq<Tlv>, vts: seq<Tlv>, a: CapsInfo.Antenna, i: nat)
    requires Rewritable(d, dataLen, ts, vts, a) && vts != [] && i < |ts|
    ensures var packet := FirstPacket(d, dataLen, ts, vts, a); packet[..5] == [0x40, 0x03, 0x00, packet[3], 0x00]
    ensures var us := Read(FirstPacket(d, dataLen, ts, vts, a), Vendor);
      && |us| == CapsInfo.Kept(ts) + |vts| && us[CapsInfo.Kept(ts)..] == vts
      && (ts[i].tag < 0x100 ==>
            CapsInfo.Kept(ts[..i]) < CapsInfo.Kept(ts) && CapsInfo.PassedOnAs(ts[i], us[CapsInfo.Kept(ts[..i])], a))
  {
    var w := CapsInfo.Begin(d);
    FirstPacketCarries(d, dataLen, ts, vts, a);
    if ts[i].tag < 0x100 {
      CapsInfo.BodyIn(d, dataLen, EncodeAll(ts));
      CapsInfo.PassedOn(w, ts, d[dataLen..], a, i);
    }
  }

  /** With antennas defined without a pair a one-byte AoA value is instead a copy of the byte in front, before
      CCC versions are swapped. */
  lemma FirstPacketCopies(d: seq<byte>, dataLen: nat, ts: seq<Tlv>, vts: seq<Tlv>, a: CapsInfo.Antenna, j: nat)
    requires Rewritable(d, dataLen, ts, vts, a) && vts != [] && a.defined && a.pairs == 0 && j + 1 < CapsInfo.Kept(ts)
    ensures var us := Read(FirstPacket(d, dataLen, ts, vts, a), Vendor);
      && j + 1 < |us|
      && (us[j + 1].tag == 0x13 && |us[j + 1].value| == 1 && us[j].value != [] ==>
            us[j + 1].value[0] == if us[j].tag == 0xA4 && |us[j].value| == 2 then us[j].value[1] else us[j].value[0])
  {
    var w := CapsInfo.Begin(d);
    FirstPacketCarries(d, dataLen, ts, vts, a);
    CapsInfo.BodyIn(d, dataLen, EncodeAll(ts));
    var r := CapsInfo.Rewritten(w, ts, a);
    if r[j + 1].tag == 0x13 && |r[j + 1].value| == 1 && r[j].value != [] {
      CapsInfo.AoaCopiesPrevious(w, ts, d[dataLen..], a, j);
    }
  }

  /** And when none are: all of the device's TLVs, with the first byte of a value by the antennas if an AoA TLV
      comes next, if there is a pair or no antennas are defined, and all others as they were. */
  lemma FirstPacketIsStamped(d: seq<byte>, dataLen: nat, ts: seq<Tlv>, a: CapsInfo.Antenna, k: nat)
    requires Rewritable(d, dataLen, ts, [], a) && k < |ts|
    ensures var us := Read(FirstPacket(d, dataLen, ts, [], a), Vendor);
      && |us| == |ts| && us[k].tag == ts[k].tag && |us[k].value| == |ts[k].value|
      && if ts[k].tag < 0x100 && ts[k].tag != 0x13 && (exists j :: CapsInfo.ComesNext(ts, k, j)) && !(a.defined && a.pairs == 0)
         then ts[k].value != [] && us[k].value[1..] == ts[k].value[1..] && CapsInfo.TellsAntennas(us[k].value[0], a)
         else us[k] == ts[k]
  {
    FirstPacketCarries(d, dataLen, ts, [], a);
    if a.defined && a.pairs == 0 {
      CapsInfo.NothingOverwritten(CapsInfo.Begin(d), ts, a);
    } else if ts[k].tag < 0x100 && ts[k].tag != 0x13 && exists j :: CapsInfo.ComesNext(ts, k, j) {
      var j :| CapsInfo.ComesNext(ts, k, j);
      CapsInfo.AoaNextIff(ts, k);
      CapsInfo.ValueInFront(ts, k);
      CapsInfo.AoaStampsPrevious(ts, a, k, j);
    } else {
      CapsInfo.OthersStay(ts, a, k);
    }
  }

  // ----- The gates agree

  /** Some mask byte under the capability `tag` has bit `i` set. */
  predicate Advertised(ts: seq<Tlv>, tag: word, i: nat) {
    exists k :: 0 <= k < |ts| && AdvertisedBy(ts[k], tag, i)
  }

  predicate AdvertisedBy(t: Tlv, tag: word, i: nat) { t.tag == tag && |t.value| == 1 && Bit(t.value[0], i) }

  /** A channel's bits: in the FiRa mask, the CCC mask and the restriction mask. */
  datatype Channel = Channel(fira: nat, ccc: nat, mask: nat)
  const FIVE := Channel(0, 0, 5)
  const NINE := Channel(3, 1, 9)

  predicate Advertises(ts: seq<Tlv>, c: Channel) {
    Advertised(ts, 0x0E, c.fira) || Advertised(ts, 0xA3, c.ccc)
  }

  predicate AdvertisesRestricted(ts: seq<Tlv>, mask: word) {
    (Bit(mask, FIVE.mask) && Advertises(ts, FIVE)) || (Bit(mask, NINE.mask) && Advertises(ts, NINE))
  }

  /** What goes up in a state. */
  function Up(st: State, behind: Behind, m: TagMap, packet: seq<byte>): (up: seq<byte>)
    requires BODY <= |packet|
    ensures BODY <= |up|
  {
    UpPacket(st.mapCreated, st.conf, behind, m, packet)
  }

  /** The capability map always holds the masks of the settings the configuration gate uses. */
  ghost predicate MapFollowsMask(st: State) {
    && Sorted(st.conf)
    && (st.mapCreated ==>
          ChannelConf(st.conf, CountryCaps.FiraChannels(st.rt.mask), CountryCaps.CccChannels(st.rt.mask)))
  }

  lemma TwoPuts(m: TagMap, fira: byte, ccc: byte)
    requires Sorted(m)
    ensures var r := PutAll(m, [Tlv(TAG_UWB_CHANNELS, [fira]), Tlv(TAG_CCC_UWB_CHANNELS, [ccc])]);
      Sorted(r) && ChannelConf(r, fira, ccc)
  {
    var ts := [Tlv(TAG_UWB_CHANNELS, [fira]), Tlv(TAG_CCC_UWB_CHANNELS, [ccc])];
    var once := Put(m, TAG_UWB_CHANNELS, VecOf(ts[0]));
    assert PutAll(once, ts[1..]) == Put(once, TAG_CCC_UWB_CHANNELS, VecOf(ts[1])) by { assert ts[1..][1..] == []; }
    assert PutAll(m, ts) == PutAll(once, ts[1..]) && VecOf(ts[0]) == [1, fira] && VecOf(ts[1]) == [1, ccc];
    PutSorted(m, TAG_UWB_CHANNELS, VecOf(ts[0]));
    PutSorted(once, TAG_CCC_UWB_CHANNELS, VecOf(ts[1]));
    PutIsUpdate(m, TAG_UWB_CHANNELS, VecOf(ts[0]), TAG_UWB_CHANNELS);
    PutIsUpdate(once, TAG_CCC_UWB_CHANNELS, VecOf(ts[1]), TAG_UWB_CHANNELS);
    PutIsUpdate(once, TAG_CCC_UWB_CHANNELS, VecOf(ts[1]), TAG_CCC_UWB_CHANNELS);
  }

  lemma {:induction false} MapFollows(disk: Cascade.Disk, cmds: seq<Command>)
    ensures MapFollowsMask(After(disk, cmds))
    decreases |cmds|
  {
    if cmds != [] {
      var front, last := cmds[..|cmds| - 1], cmds[|cmds| - 1];
      MapFollows(disk, front);
      MapStep(disk, After(disk, front), last.code, last.stack);
    }
  }

  lemma MapStep(disk: Cascade.Disk, st: State, code: CountryCaps.Code, stack: Stack)
    requires |st.loaded.layers.extras| == |disk.extras| && MapFollowsMask(st)
    ensures MapFollowsMask(SetCountry(disk, st, code, stack))
  {
    var mask := SetCountry(disk, st, code, stack).rt.mask;
    TwoPuts(st.conf, CountryCaps.FiraChannels(mask), CountryCaps.CccChannels(mask));
  }

  lemma MaskedBit(m: byte, v: byte, i: nat)
    ensures Bit(And(m, v), i) <==> Bit(m, i) && Bit(v, i)
  {
    BitOfAnd(m, v, i);
  }

  lemma AdvertisesStep(t: Tlv, more: seq<Tlv>, c: Channel)
    ensures Advertises([t] + more, c) <==>
      AdvertisedBy(t, TAG_UWB_CHANNELS, c.fira) || AdvertisedBy(t, TAG_CCC_UWB_CHANNELS, c.ccc) || Advertises(more, c)
  {
    AdvertisedStep(t, more, TAG_UWB_CHANNELS, c.fira);
    AdvertisedStep(t, more, TAG_CCC_UWB_CHANNELS, c.ccc);
  }

  lemma AdvertisedStep(t: Tlv, more: seq<Tlv>, tag: word, i: nat)
    ensures Advertised([t] + more, tag, i) <==> AdvertisedBy(t, tag, i) || Advertised(more, tag, i)
  {
    var ts := [t] + more;
    if AdvertisedBy(t, tag, i) { assert AdvertisedBy(ts[0], tag, i); }
    if Advertised(more, tag, i) {
      var k :| 0 <= k < |more| && AdvertisedBy(more[k], tag, i);
      assert AdvertisedBy(ts[k + 1], tag, i);
    }
  }

  lemma MaskedEntryIsNot(fira: byte, ccc: byte, tag: word, v: seq<byte>, c: Channel)
    requires !Bit(fira, c.fira) && !Bit(ccc, c.ccc)
    ensures !AdvertisedBy(Tlv(tag, MaskedValue(fira, ccc, tag, v)), TAG_UWB_CHANNELS, c.fira)
    ensures !AdvertisedBy(Tlv(tag, MaskedValue(fira, ccc, tag, v)), TAG_CCC_UWB_CHANNELS, c.ccc)
  {
    if |v| == 1 {
      MaskedBit(fira, v[0], c.fira);
      MaskedBit(ccc, v[0], c.ccc);
    }
  }

  /** Tags below the two-byte leads are read alike, and masked; so a channel the masks lack is found in the
      printed map only behind them, where the tags are read in the reader's own way. */
  lemma {:induction false} HighTagsDecide(conf: TagMap, behind: Behind, fira: byte, ccc: byte, m: TagMap, c: Channel, ext: TagStyle)
    requires Inherited(m) && ByteMasks(m) && ChannelConf(conf, fira, ccc) && !Bit(fira, c.fira) && !Bit(ccc, c.ccc)
    ensures Advertises(ReadList(Print(MaskMap(conf, behind, m)), ext), c) <==> Advertises(ReadList(Print(High(m)), ext), c)
    decreases |m|
  {
    if m != [] {
      if m[0].tag >= 0xE0 {
        NothingToMask(conf, behind, m);
      } else {
        HighTagsDecide(conf, behind, fira, ccc, m[1..], c, ext);
        LowTagIsSilent(conf, behind, fira, ccc, m, c, ext);
      }
    }
  }

  lemma NothingToMask(conf: TagMap, behind: Behind, m: TagMap)
    requires Sorted(m) && m != [] && m[0].tag >= 0xE0
    ensures MaskMap(conf, behind, m) == m
  {
    assert forall i :: 0 <= i < |m| ==> m[0].tag <= m[i].tag;
  }

  lemma LowTagIsSilent(conf: TagMap, behind: Behind, fira: byte, ccc: byte, m: TagMap, c: Channel, ext: TagStyle)
    requires Inherited(m) && ByteMasks(m) && ChannelConf(conf, fira, ccc) && !Bit(fira, c.fira) && !Bit(ccc, c.ccc)
    requires m != [] && m[0].tag < 0xE0
    ensures Advertises(ReadList(Print(MaskMap(conf, behind, m)), ext), c) <==>
      Advertises(ReadList(Print(MaskMap(conf, behind, m[1..])), ext), c)
  {
    var r, rest := MaskMap(conf, behind, m), MaskMap(conf, behind, m[1..]);
    assert r[1..] == rest && r[0] == MaskEntry(conf, behind, m[0]);
    MaskedEntry(conf, behind, fira, ccc, m[0]);
    PrintFirst(r);
    var t := Tlv(r[0].tag, r[0].vec[1..]);
    DecodeFront(t, Print(rest), ext);
    MaskedEntryIsNot(fira, ccc, m[0].tag, m[0].vec[1..], c);
    AdvertisesStep(t, ReadList(Print(rest), ext), c);
  }

  /** All tags of the map are read the way they were meant. */
  predicate ReadAlike(m: TagMap, ext: TagStyle) {
    forall i :: 0 <= i < |m| ==> WellFormed(Tlv(m[i].tag, []), ext)
  }

  /** Then there is no channel mask behind the two-byte leads. */
  lemma HighTagsAreSilent(m: TagMap, c: Channel, ext: TagStyle)
    requires Inherited(m) && ReadAlike(m, ext)
    ensures !Advertises(ReadList(Print(High(m)), ext), c)
  {
    HighIsReadAlike(m, ext);
    NoMaskAbove(TlvsOf(High(m)), c);
  }

  lemma NoMaskAbove(ts: seq<Tlv>, c: Channel)
    requires forall i :: 0 <= i < |ts| ==> ts[i].tag >= 0xE0
    ensures !Advertises(ts, c)
  {
  }

  lemma HighIsReadAlike(m: TagMap, ext: TagStyle)
    requires Inherited(m) && ReadAlike(m, ext)
    ensures Proper(High(m)) && ReadList(Print(High(m)), ext) == TlvsOf(High(m))
    ensures forall i :: 0 <= i < |High(m)| ==> TlvsOf(High(m))[i].tag >= 0xE0
  {
    var h := High(m);
    HighShape(m);
    forall i | 0 <= i < |h| ensures ProperEntry(h[i]) && WellFormed(Tlv(h[i].tag, []), ext) {
      var j :| 0 <= j < |m| && m[j] == h[i];
    }
    TlvsReadAlike(h, ext);
    PrintIsEncode(h);
    DecodeEncode(TlvsOf(h), ext);
  }

  lemma TlvsReadAlike(m: TagMap, ext: TagStyle)
    requires Proper(m) && ReadAlike(m, ext)
    ensures AllWellFormed(TlvsOf(m), ext)
  {
    forall i | 0 <= i < |m| ensures WellFormed(TlvsOf(m)[i], ext) { assert WellFormed(Tlv(m[i].tag, []), ext); }
  }

  /** A successful response, and a tag map that may have been left behind, whose channel masks have one
      byte. A longer mask does not stay one (`LongMaskIsCut`). */
  predicate Masked(m: TagMap, packet: seq<byte>) {
    BODY <= |packet| && packet[4] == 0 && Inherited(m) && (Parses(m, packet) ==> ByteMasks(Taken(m, packet)))
  }

  /** After every history of country codes, whatever the response's bytes are, and however the reader takes
      tags: a restricted channel goes up as it stands in the response, if there is no capability map or the
      response does not parse; otherwise it goes up exactly if the reader finds it among the parsed tags from
      0xE0 on. */
  lemma ChannelGoesUpIff(disk: Cascade.Disk, cmds: seq<Command>, behind: Behind, m: TagMap, packet: seq<byte>, ext: TagStyle, c: Channel)
    requires Masked(m, packet) && (c == FIVE || c == NINE) && Bit(After(disk, cmds).rt.mask, c.mask)
    ensures var st := After(disk, cmds);
      Advertises(Read(Up(st, behind, m, packet), ext), c) <==>
      if st.mapCreated && Parses(m, packet) then Advertises(ReadList(Print(High(Taken(m, packet))), ext), c)
      else Advertises(Read(packet, ext), c)
  {
    var st := After(disk, cmds);
    if st.mapCreated && Parses(m, packet) {
      MapFollows(disk, cmds);
      StaysInherited(m, packet[BODY..]);
      CountryCaps.FiraMask(st.rt.mask, c.fira);
      CountryCaps.CccMask(st.rt.mask, c.ccc);
      HighTagsDecide(st.conf, behind, CountryCaps.FiraChannels(st.rt.mask), CountryCaps.CccChannels(st.rt.mask), Taken(m, packet), c, ext);
      PrintedBody(packet[..BODY], MaskMap(st.conf, behind, Taken(m, packet)));
    }
  }

  lemma PrintedBody(hdr: seq<byte>, m: TagMap)
    requires |hdr| == BODY
    ensures Packet(hdr, m)[BODY..] == Print(m)
  {
  }

  lemma RestrictedGoesUpIff(disk: Cascade.Disk, cmds: seq<Command>, behind: Behind, m: TagMap, packet: seq<byte>, ext: TagStyle)
    requires Masked(m, packet)
    ensures var st := After(disk, cmds);
      AdvertisesRestricted(Read(Up(st, behind, m, packet), ext), st.rt.mask) <==>
      if st.mapCreated && Parses(m, packet) then AdvertisesRestricted(ReadList(Print(High(Taken(m, packet))), ext), st.rt.mask)
      else AdvertisesRestricted(Read(packet, ext), st.rt.mask)
  {
    var mask := After(disk, cmds).rt.mask;
    if Bit(mask, FIVE.mask) { ChannelGoesUpIff(disk, cmds, behind, m, packet, ext, FIVE); }
    if Bit(mask, NINE.mask) { ChannelGoesUpIff(disk, cmds, behind, m, packet, ext, NINE); }
  }

  /** So where the reader takes the parsed tags the way the tag map does: if and only if the response
      advertises one, and there is no capability map or the response does not parse. */
  lemma ReadAlikeGoesUpIff(disk: Cascade.Disk, cmds: seq<Command>, behind: Behind, m: TagMap, packet: seq<byte>, ext: TagStyle)
    requires Masked(m, packet) && (Parses(m, packet) ==> ReadAlike(Taken(m, packet), ext))
    ensures var st := After(disk, cmds);
      AdvertisesRestricted(Read(Up(st, behind, m, packet), ext), st.rt.mask) <==>
      AdvertisesRestricted(Read(packet, ext), st.rt.mask) && (!st.mapCreated || !Parses(m, packet))
  {
    RestrictedGoesUpIff(disk, cmds, behind, m, packet, ext);
    if Parses(m, packet) {
      StaysInherited(m, packet[BODY..]);
      HighTagsAreSilent(Taken(m, packet), FIVE, ext);
      HighTagsAreSilent(Taken(m, packet), NINE, ext);
    }
  }

  /** From the device to the upper layer: what goes up of a response of the device to a reader who takes tags
      as the device means them, with or without configured vendor capabilities, and whatever earlier responses
      left in the tag map. */
  lemma DeviceResponseGoesUpIff(disk: Cascade.Disk, cmds: seq<Command>, behind: Behind, m: TagMap,
                                d: seq<byte>, dataLen: nat, ts: seq<Tlv>, vts: seq<Tlv>, a: CapsInfo.Antenna)
    requires Rewritable(d, dataLen, ts, vts, a) && Inherited(m)
    requires var packet := FirstPacket(d, dataLen, ts, vts, a); Parses(m, packet) ==> ByteMasks(Taken(m, packet))
    ensures
      var st, packet := After(disk, cmds), FirstPacket(d, dataLen, ts, vts, a);
      && (!st.mapCreated || !Parses(m, packet) ==> Up(st, behind, m, packet) == packet)
      && (AdvertisesRestricted(Read(Up(st, behind, m, packet), Vendor), st.rt.mask) <==>
          if st.mapCreated && Parses(m, packet) then AdvertisesRestricted(ReadList(Print(High(Taken(m, packet))), Vendor), st.rt.mask)
          else AdvertisesRestricted(FirstTlvs(d, ts, vts, a), st.rt.mask))
  {
    FirstPacketCarries(d, dataLen, ts, vts, a);
    RestrictedGoesUpIff(disk, cmds, behind, m, FirstPacket(d, dataLen, ts, vts, a), Vendor);
  }

  /** A reader who takes tags as the tag map itself does: parsing fails exactly when the response is no list
      of TLVs for him, or one with an empty last value. */
  lemma TagMapReaderIff(disk: Cascade.Disk, cmds: seq<Command>, behind: Behind, m: TagMap, packet: seq<byte>)
    requires Masked(m, packet)
    ensures var st := After(disk, cmds);
      AdvertisesRestricted(Read(Up(st, behind, m, packet), Extended), st.rt.mask) <==>
      AdvertisesRestricted(Read(packet, Extended), st.rt.mask) && (!st.mapCreated || EndsEmpty(Read(packet, Extended)))
  {
    StaysInherited(m, packet[BODY..]);
    AlikeForTagMap(Taken(m, packet));
    ReadAlikeGoesUpIff(disk, cmds, behind, m, packet, Extended);
    ParsesIffDecodes(m, packet[BODY..]);
  }

  lemma AlikeForTagMap(m: TagMap)
    requires Proper(m)
    ensures ReadAlike(m, Extended)
  {
    forall i | 0 <= i < |m| ensures WellFormed(Tlv(m[i].tag, []), Extended) { assert ProperEntry(m[i]); }
  }

  // ----- Vendor tags that stay in the packet

  /** How the tag map reads a vendor TLV with a 0xE3 tag: as one with a one-byte tag, whose length is the
      second tag byte. */
  lemma VendorTagIsMisread(m: TagMap, t: Tlv, more: seq<byte>)
    requires 0xE300 <= t.tag < 0xE400 && |t.value| < 0x100
    ensures var low, behind := t.tag % 0x100, [|t.value|] + t.value + more;
      ParseInto(m, Encode(t) + more) ==
      if low > |behind| then Parsed(false, m) else ParseInto(Put(m, 0xE3, [low] + behind[..low]), behind[low..])
  {
    var low: byte, behind := t.tag % 0x100, [|t.value|] + t.value + more;
    assert TagBytes(t.tag) == [0xE3, low];
    TagInFront([0xE3, low], [|t.value|], t.value, more);
    ReadOneByteTag(m, low, behind);
  }

  lemma TagInFront(tag: seq<byte>, n: seq<byte>, v: seq<byte>, more: seq<byte>)
    ensures tag + n + v + more == tag + (n + v + more)
  {
  }

  lemma ReadOneByteTag(m: TagMap, low: byte, behind: seq<byte>)
    requires behind != []
    ensures ParseInto(m, [0xE3, low] + behind) ==
      if low as int > |behind| then Parsed(false, m) else ParseInto(Put(m, 0xE3, [low] + behind[..low]), behind[low..])
  {
    EntryOf(low, behind);
  }

  lemma EntryOf(low: byte, behind: seq<byte>)
    requires behind != []
    ensures var s := [0xE3, low] + behind;
      if low as int > |behind| then ReadEntry(s).None?
      else ReadEntry(s) == Some(Entry(0xE3, [low] + behind[..low])) && s[low as int + 2..] == behind[low..]
  {
    var s := [0xE3, low] + behind;
    if low as int <= |behind| { assert s[1..2 + low as int] == [low] + behind[..low]; }
  }

  /** So a response of the device with such a TLV parses exactly when what stands behind the bytes that
      length takes is again a list for the tag map. */
  lemma VendorTagParsesIff(m: TagMap, front: seq<Tlv>, t: Tlv, more: seq<byte>)
    requires AllWellFormed(front, Extended) && 0xE300 <= t.tag < 0xE400 && |t.value| < 0x100
    ensures var low, behind := t.tag % 0x100, [|t.value|] + t.value + more;
      ParseInto(m, EncodeAll(front) + (Encode(t) + more)).ok <==>
      low <= |behind| && Decode(behind[low..], Extended).Some? && !EndsEmpty(Decode(behind[low..], Extended).value)
  {
    ParseBehind(m, front, Encode(t) + more);
    VendorTagIsMisread(PutAll(m, front), t, more);
    RestParsesIff(PutAll(m, front), t.tag % 0x100, [|t.value|] + t.value + more);
  }

  lemma RestParsesIff(m: TagMap, low: byte, behind: seq<byte>)
    ensures (if low as int > |behind| then Parsed(false, m) else ParseInto(Put(m, 0xE3, [low] + behind[..low]), behind[low..])).ok <==>
      low as int <= |behind| && Decode(behind[low..], Extended).Some? && !EndsEmpty(Decode(behind[low..], Extended).value)
  {
    if low as int <= |behind| { ParsesIffDecodes(Put(m, 0xE3, [low] + behind[..low]), behind[low..]); }
  }

  /** The ordinary case is that it does not, as when one byte is left over, or too few are there. Then the
      response goes up as it is, with all its channels. */
  lemma MisreadGoesUp(st: State, behind: Behind, m: TagMap, packet: seq<byte>, front: seq<Tlv>, t: Tlv, rest: seq<Tlv>)
    requires BODY <= |packet| && AllWellFormed(front, Extended) && AllWellFormed(front + ([t] + rest), Vendor)
    requires Sized([t] + rest) && Sized(rest) && 0xE300 <= t.tag < 0xE400 && |t.value| < 0x100
    requires packet[BODY..] == EncodeAll(front + ([t] + rest))
    requires var low, room := t.tag % 0x100, 1 + |t.value| + |EncodeAll(rest)|; low > room || low == room - 1
    ensures Up(st, behind, m, packet) == packet && Read(packet, Vendor) == front + ([t] + rest)
  {
    DecodeEncode(front + ([t] + rest), Vendor);
    MisreadFails(m, front, t, rest);
  }

  lemma MisreadFails(m: TagMap, front: seq<Tlv>, t: Tlv, rest: seq<Tlv>)
    requires AllWellFormed(front, Extended) && Sized([t] + rest) && Sized(rest) && 0xE300 <= t.tag < 0xE400 && |t.value| < 0x100
    requires var low, room := t.tag % 0x100, 1 + |t.value| + |EncodeAll(rest)|; low > room || low == room - 1
    ensures Sized(front + ([t] + rest)) && !ParseInto(m, EncodeAll(front + ([t] + rest))).ok
  {
    EncodeConcat(front, [t] + rest);
    EncodeCons(t, rest);
    VendorTagParsesIff(m, front, t, EncodeAll(rest));
    var low, all := t.tag % 0x100, [|t.value|] + t.value + EncodeAll(rest);
    if low <= |all| { OneByteIsNoList(all[low..]); }
  }

  lemma OneByteIsNoList(s: seq<byte>)
    requires |s| == 1
    ensures Decode(s, Extended).None?
  {
  }

  /** Reading on inside a vendor TLV, the tag map can also take bytes of its value for a channel mask of any
      length. */
  lemma VendorTagBringsLongMask(m: TagMap, w: seq<byte>)
    requires Sorted(m) && 1 < |w| <= 0xFD
    ensures var p := ParseInto(m, Encode(Tlv(0xE301, [TAG_UWB_CHANNELS, |w|] + w)));
      p.ok && Lookup(p.m, TAG_UWB_CHANNELS) == Some([|w|] + w)
  {
    MaskInside(m, Tlv(0xE301, [TAG_UWB_CHANNELS, |w|] + w), Tlv(TAG_UWB_CHANNELS, w));
  }

  lemma MaskInside(m: TagMap, t: Tlv, u: Tlv)
    requires Sorted(m) && t.tag == 0xE301 && u.tag < 0xE0 && u.value != [] && |u.value| <= 0xFD && t.value == [u.tag, |u.value|] + u.value
    ensures var p := ParseInto(m, Encode(t)); p.ok && Lookup(p.m, u.tag) == Some([|u.value|] + u.value)
  {
    var n: byte := |t.value|;
    VendorTagIsMisread(m, t, []);
    FirstCutOff(n, t.value);
    assert Encode(t) + [] == Encode(t) && [1] + [n] == [1, n];
    PutSorted(m, 0xE3, [1, n]);
    MaskTaken(Put(m, 0xE3, [1, n]), u.value, u);
  }

  lemma FirstCutOff(n: byte, v: seq<byte>)
    ensures ([n] + v + [])[1..] == v && ([n] + v + [])[..1] == [n]
  {
  }

  lemma MaskTaken(m: TagMap, w: seq<byte>, u: Tlv)
    requires Sorted(m) && u.tag < 0xE0 && u.value == w != [] && |w| < 0x100
    ensures var p := ParseInto(m, [u.tag, |w|] + w); p.ok && Lookup(p.m, u.tag) == Some([|w|] + w)
  {
    assert Encode(u) == [u.tag, |w|] + w;
    OneTaken(m, u);
    PutIsUpdate(m, u.tag, VecOf(u), u.tag);
  }

  /** A response's body is parsed into the empty map, masked and printed, and comes out as it was. */
  predicate GoesUpUnchanged(body: seq<byte>, conf: TagMap, behind: Behind) {
    var p := ParseInto([], body);
    p.ok && ByteMasks(p.m) && Print(MaskMap(conf, behind, p.m)) == body
  }

  /** That happens to one capability that is no channel mask. */
  lemma SingleEntryStays(u: Tlv, conf: TagMap, behind: Behind)
    requires WellFormed(u, Extended) && !ChannelTag(u.tag) && u.value != []
    ensures GoesUpUnchanged(EncodeAll([u]), conf, behind)
  {
    var m := [Entry(u.tag, VecOf(u))];
    ParseEncoded([], [u]);
    assert PutAll([], [u]) == m by { assert [u][1..] == []; }
    assert VecOf(u)[1..] == u.value;
    assert MaskMap(conf, behind, m) == m;
    PrintIsEncode(m);
    assert TlvsOf(m) == [u];
  }

  /** But it may parse: a vendor TLV in front whose second tag byte counts all that follows swallows it. The
      map exists, and the bytes that go up are the device's, with all its channels for whoever reads the
      tags as the device means them. */
  lemma VendorTagHidesChannels(t: Tlv, rest: seq<Tlv>, conf: TagMap, behind: Behind)
    requires AllWellFormed(rest, Vendor) && 0xE300 <= t.tag < 0xE400 && t.tag % 0x100 == 1 + |t.value| + |EncodeAll(rest)|
    ensures AllWellFormed([t] + rest, Vendor) && GoesUpUnchanged(EncodeAll([t] + rest), conf, behind)
    ensures Decode(EncodeAll([t] + rest), Vendor) == Some([t] + rest)
  {
    VendorList(t, rest);
    OneByteReading(t.tag, t.value, rest);
    Swallowed(t, rest, Tlv(0xE3, [|t.value|] + t.value + EncodeAll(rest)), conf, behind);
  }

  lemma VendorList(t: Tlv, rest: seq<Tlv>)
    requires AllWellFormed(rest, Vendor) && WellFormed(t, Vendor)
    ensures AllWellFormed([t] + rest, Vendor) && Decode(EncodeAll([t] + rest), Vendor) == Some([t] + rest)
  {
    DecodeEncode([t] + rest, Vendor);
  }

  lemma Swallowed(t: Tlv, rest: seq<Tlv>, u: Tlv, conf: TagMap, behind: Behind)
    requires |u.value| < 0x100 && Sized([t] + rest) && EncodeAll([t] + rest) == EncodeAll([u]) && u.tag == 0xE3 && u.value != []
    ensures GoesUpUnchanged(EncodeAll([t] + rest), conf, behind)
  {
    SingleEntryStays(u, conf, behind);
  }

  // ----- Over all responses

  predicate NothingRestricted(mask: word) { !Bit(mask, FIVE.mask) && !Bit(mask, NINE.mask) }

  /** No restricted channel goes up to such a reader, in any response, or in any that parses. */
  ghost predicate NeverGoesUp(st: State, ext: TagStyle, parsing: bool) {
    forall behind: Behind, m, packet :: Masked(m, packet) && (parsing ==> Parses(m, packet)) ==>
      !AdvertisesRestricted(Read(Up(st, behind, m, packet), ext), st.rt.mask)
  }

  /** The advertising gate keeps all restricted channels back in all responses only if there are none to keep
      back. In all responses that parse it does so, for a reader who takes tags as the tag map does, exactly
      when there is a capability map or none to keep back; for one who takes them as the device means them,
      again only if there are none. */
  lemma GatesAgreeIff(disk: Cascade.Disk, cmds: seq<Command>, ext: TagStyle)
    ensures var st := After(disk, cmds); NeverGoesUp(st, ext, false) <==> NothingRestricted(st.rt.mask)
    ensures var st := After(disk, cmds); NeverGoesUp(st, Extended, true) <==> st.mapCreated || NothingRestricted(st.rt.mask)
    ensures var st := After(disk, cmds); NeverGoesUp(st, Vendor, true) <==> NothingRestricted(st.rt.mask)
  {
    if NothingRestricted(After(disk, cmds).rt.mask) {
      assert forall ts :: !AdvertisesRestricted(ts, After(disk, cmds).rt.mask);
    } else {
      SomethingEscapes(disk, cmds, ext);
    }
    if After(disk, cmds).mapCreated { ParsedIsKeptBack(disk, cmds); }
  }

  lemma SomethingEscapes(disk: Cascade.Disk, cmds: seq<Command>, ext: TagStyle)
    requires !NothingRestricted(After(disk, cmds).rt.mask)
    ensures var st := After(disk, cmds);
      && !NeverGoesUp(st, ext, false) && !NeverGoesUp(st, Vendor, true)
      && (!st.mapCreated ==> !NeverGoesUp(st, Extended, true))
  {
    var none: Behind := (tag, j) => 0;
    EscapesUnparsed(disk, cmds, none, ext);
    Escaped(After(disk, cmds), none, Response(AllChannels(true)), ext, false);
    EscapesSwallowed(disk, cmds, none);
    Escaped(After(disk, cmds), none, Response(Swallowing()), Vendor, true);
    if !After(disk, cmds).mapCreated {
      EscapesWithoutMap(disk, cmds, none);
      Escaped(After(disk, cmds), none, Response(AllChannels(false)), Extended, true);
    }
  }

  lemma Escaped(st: State, behind: Behind, packet: seq<byte>, ext: TagStyle, parsing: bool)
    requires Masked([], packet) && (parsing ==> Parses([], packet))
    requires AdvertisesRestricted(Read(Up(st, behind, [], packet), ext), st.rt.mask)
    ensures !NeverGoesUp(st, ext, parsing)
  {
  }

  lemma ParsedIsKeptBack(disk: Cascade.Disk, cmds: seq<Command>)
    requires After(disk, cmds).mapCreated
    ensures NeverGoesUp(After(disk, cmds), Extended, true)
  {
    var st := After(disk, cmds);
    forall behind: Behind, m, packet | Masked(m, packet) && Parses(m, packet)
      ensures !AdvertisesRestricted(Read(Up(st, behind, m, packet), Extended), st.rt.mask)
    {
      TagMapReaderIff(disk, cmds, behind, m, packet);
      ParsesIffDecodes(m, packet[BODY..]);
    }
  }

  /** A response that advertises all channels, and one with an empty value behind. */
  function AllChannels(empty: bool): (ts: seq<Tlv>)
    ensures Sized(ts)
  {
    [Tlv(TAG_UWB_CHANNELS, [0xFF])] + if empty then [Tlv(0x20, [])] else []
  }

  function Response(ts: seq<Tlv>): (packet: seq<byte>)
    requires Sized(ts)
    ensures BODY <= |packet| && packet[4] == 0
  {
    CapsInfo.Rebuilt(ts)
  }

  lemma AllAdvertised(empty: bool, ext: TagStyle)
    ensures AllWellFormed(AllChannels(empty), Extended) && AllWellFormed(AllChannels(empty), ext)
    ensures EndsEmpty(AllChannels(empty)) <==> empty
    ensures Advertises(AllChannels(empty), FIVE) && Advertises(AllChannels(empty), NINE)
  {
    CountryCaps.MaskBits(0);
    CountryCaps.MaskBits(3);
    var t := AllChannels(empty)[0];
    assert AdvertisedBy(t, TAG_UWB_CHANNELS, FIVE.fira) && AdvertisedBy(t, TAG_UWB_CHANNELS, NINE.fira);
  }

  lemma ReadResponse(ts: seq<Tlv>, ext: TagStyle)
    requires AllWellFormed(ts, ext)
    ensures Response(ts)[BODY..] == EncodeAll(ts) && Read(Response(ts), ext) == ts
  {
    DecodeEncode(ts, ext);
    assert Response(ts)[BODY..] == EncodeAll(ts);
  }

  lemma EscapesUnparsed(disk: Cascade.Disk, cmds: seq<Command>, behind: Behind, ext: TagStyle)
    requires !NothingRestricted(After(disk, cmds).rt.mask)
    ensures Masked([], Response(AllChannels(true)))
    ensures AdvertisesRestricted(Read(Up(After(disk, cmds), behind, [], Response(AllChannels(true))), ext), After(disk, cmds).rt.mask)
  {
    var ts := AllChannels(true);
    AllAdvertised(true, ext);
    ReadResponse(ts, ext);
    ParseSucceedsIff([], ts);
  }

  lemma EscapesWithoutMap(disk: Cascade.Disk, cmds: seq<Command>, behind: Behind)
    requires !After(disk, cmds).mapCreated && !NothingRestricted(After(disk, cmds).rt.mask)
    ensures Masked([], Response(AllChannels(false))) && Parses([], Response(AllChannels(false)))
    ensures AdvertisesRestricted(Read(Up(After(disk, cmds), behind, [], Response(AllChannels(false))), Extended), After(disk, cmds).rt.mask)
  {
    var ts := AllChannels(false);
    AllAdvertised(false, Extended);
    ReadResponse(ts, Extended);
    ParseEncoded([], ts);
    PutAllByteMasks([], ts);
  }

  /** All channels behind a vendor TLV that swallows them. */
  function Swallowing(): (ts: seq<Tlv>)
    ensures Sized(ts)
  {
    [Tlv(0xE304, [])] + AllChannels(false)
  }

  lemma EscapesSwallowed(disk: Cascade.Disk, cmds: seq<Command>, behind: Behind)
    requires !NothingRestricted(After(disk, cmds).rt.mask)
    ensures var packet := Response(Swallowing());
      && Masked([], packet) && Parses([], packet)
      && AdvertisesRestricted(Read(Up(After(disk, cmds), behind, [], packet), Vendor), After(disk, cmds).rt.mask)
  {
    var st := After(disk, cmds);
    SwallowingStays(st.conf, behind);
    UnchangedIsRead(st, behind, Response(Swallowing()));
    AllAdvertised(false, Vendor);
    AdvertisesStep(Tlv(0xE304, []), AllChannels(false), FIVE);
    AdvertisesStep(Tlv(0xE304, []), AllChannels(false), NINE);
  }

  lemma SwallowingStays(conf: TagMap, behind: Behind)
    ensures var packet := Response(Swallowing());
      GoesUpUnchanged(packet[BODY..], conf, behind) && Read(packet, Vendor) == Swallowing()
  {
    AllAdvertised(false, Vendor);
    AllChannelsSize();
    VendorTagHidesChannels(Tlv(0xE304, []), AllChannels(false), conf, behind);
    ReadResponse(Swallowing(), Vendor);
  }

  lemma UnchangedIsRead(st: State, behind: Behind, packet: seq<byte>)
    requires BODY <= |packet| && packet[4] == 0 && GoesUpUnchanged(packet[BODY..], st.conf, behind)
    ensures Masked([], packet) && Parses([], packet) && Read(Up(st, behind, [], packet), Vendor) == Read(packet, Vendor)
  {
    PrintedBody(packet[..BODY], MaskMap(st.conf, behind, Taken([], packet)));
  }

  lemma AllChannelsSize()
    ensures |EncodeAll(AllChannels(false))| == 3
  {
    EncodeAlone(AllChannels(false)[0]);
  }

  /** The other half, for responses that parse: for the tag map's reader a capability keeps its value, the
      response's last one or an inherited one, but for the restricted channels' bits, and in the CCC mask for
      bits that stand for no channel. */
  lemma CapabilitiesStay(disk: Cascade.Disk, cmds: seq<Command>, behind: Behind, m: TagMap, packet: seq<byte>, tag: word, i: nat)
    requires Masked(m, packet) && Parses(m, packet) && After(disk, cmds).mapCreated && i < 8
    ensures
      var st := After(disk, cmds);
      var before, after := Held(m, Read(packet, Extended), tag), ValueOf(Read(Up(st, behind, m, packet), Extended), tag);
      && (before.Some? <==> after.Some?)
      && (before.Some? ==> |after.value| == |before.value|)
      && (before.Some? && (!ChannelTag(tag) || before.value == []) ==> after == before)
      && (before.Some? && tag == TAG_UWB_CHANNELS && |before.value| == 1 ==>
            (Bit(after.value[0], i) <==>
               Bit(before.value[0], i) && !(i == FIVE.fira && Bit(st.rt.mask, 5)) && !(i == NINE.fira && Bit(st.rt.mask, 9))))
      && (before.Some? && tag == TAG_CCC_UWB_CHANNELS && |before.value| == 1 ==>
            (Bit(after.value[0], i) <==>
               Bit(before.value[0], i) && ((i == FIVE.ccc && !Bit(st.rt.mask, 5)) || (i == NINE.ccc && !Bit(st.rt.mask, 9)))))
  {
    var st := After(disk, cmds);
    var fira, ccc, ts := CountryCaps.FiraChannels(st.rt.mask), CountryCaps.CccChannels(st.rt.mask), Read(packet, Extended);
    MapFollows(disk, cmds);
    ReplacementShows(st, behind, m, packet, fira, ccc);
    RewriteMasksChannelsOnly(m, ts, st.conf, behind, fira, ccc, tag);
    CountryCaps.FiraMask(st.rt.mask, i);
    CountryCaps.CccMask(st.rt.mask, i);
    if Held(m, ts, tag).Some? && |Held(m, ts, tag).value| == 1 {
      MaskedBit(fira, Held(m, ts, tag).value[0], i);
      MaskedBit(ccc, Held(m, ts, tag).value[0], i);
    }
  }

  lemma ReplacementShows(st: State, behind: Behind, m: TagMap, packet: seq<byte>, fira: byte, ccc: byte)
    requires Masked(m, packet) && Parses(m, packet) && st.mapCreated && ChannelConf(st.conf, fira, ccc)
    ensures var ts := Read(packet, Extended);
      && AllWellFormed(ts, Extended) && ByteMasks(PutAll(m, ts))
      && Read(Up(st, behind, m, packet), Extended) == ShownMap(st.conf, behind, PutAll(m, ts))
  {
    ParsesIffDecodes(m, packet[BODY..]);
    EncodeDecode(packet[BODY..], Extended);
    StaysInherited(m, packet[BODY..]);
    PacketShowsMap(packet[..BODY], st.conf, behind, fira, ccc, Taken(m, packet));
  }

  // ----- From the blob to both gates

  /** The blob of a region, made of well-formed sections. */
  predicate HasBlob(disk: Cascade.Disk, region: string, count: byte, secs: seq<CountryCaps.Section>) {
    && CountryCaps.WellFormedSections(secs) && CountryCaps.WellFormedBlob(CountryCaps.Flatten(secs))
    && CapsIn(disk, region) == Some([count] + EncodeAll(CountryCaps.Flatten(secs)))
  }

  /** A run that ends in a region with such a blob. */
  predicate EndsInBlob(disk: Cascade.Disk, cmds: seq<Command>, count: byte, secs: seq<CountryCaps.Section>) {
    cmds != [] && Cascade.NamedRegions(disk.regions) && HasBlob(disk, RegionOf(disk, cmds[|cmds| - 1].code), count, secs)
  }

  function TagOf(c: Channel): word { if c == FIVE then 0x02 else 0x03 }

  /** After every such run there is a capability map, and a channel is restricted if and only if the blob's
      sections forbid it to the code that entered the region, whatever codes came after it. */
  lemma RestrictedIffEnteringCodeForbidden(disk: Cascade.Disk, cmds: seq<Command>, count: byte,
                                           secs: seq<CountryCaps.Section>, c: Channel)
    requires EndsInBlob(disk, cmds, count, secs) && (c == FIVE || c == NINE)
    ensures After(disk, cmds).mapCreated
    ensures Bit(After(disk, cmds).rt.mask, c.mask) <==> CountryCaps.CountryForbids(secs, EnteringCode(disk, cmds), TagOf(c))
  {
    SettingsAreOfEnteringCode(disk, cmds);
    var blob, code := CapsIn(disk, RegionOf(disk, cmds[|cmds| - 1].code)).value, EnteringCode(disk, cmds);
    var stack: Stack :| After(disk, cmds).rt == FromCaps(code, blob, stack);
    CountryCaps.CapsRestrictExactly(code, count, secs, stack[|blob|..]);
  }

  /** The advertising gate: in every response that does not parse, a channel forbidden to the entering code
      goes up as it stands there; in every other one, only if the reader finds it among the tags from 0xE0
      on. */
  lemma ForbiddenChannelGoesUpIff(disk: Cascade.Disk, cmds: seq<Command>, count: byte, secs: seq<CountryCaps.Section>,
                                  c: Channel, behind: Behind, m: TagMap, packet: seq<byte>, ext: TagStyle)
    requires EndsInBlob(disk, cmds, count, secs) && (c == FIVE || c == NINE)
    requires CountryCaps.CountryForbids(secs, EnteringCode(disk, cmds), TagOf(c)) && Masked(m, packet)
    ensures Advertises(Read(Up(After(disk, cmds), behind, m, packet), ext), c) <==>
      if Parses(m, packet) then Advertises(ReadList(Print(High(Taken(m, packet))), ext), c) else Advertises(Read(packet, ext), c)
  {
    RestrictedIffEnteringCodeForbidden(disk, cmds, count, secs, c);
    ChannelGoesUpIff(disk, cmds, behind, m, packet, ext, c);
  }

  /** The parameters ask for channel 5 or 9. */
  predicate AsksFor(ps: seq<Tlv>, c: Channel) {
    exists k :: 0 <= k < |ps| && ps[k].tag == 0x04 && |ps[k].value| > 0 && ps[k].value[0] == c.mask
  }

  /** A well-formed SET_APP_CONFIG that asks for this one of the two channels and the filter leaves short
      enough. */
  predicate AskingCommand(s: seq<byte>, ps: seq<Tlv>, c: Channel) {
    && Filter.CarriesParams(s, ps, Extended) && Filter.AllFit(ps) && |Filter.Filtered(s)| <= HEADER_SIZE + 251
    && AllWellFormed(ps, OneByte) && ChannelsNamed(ps)
    && AsksFor(ps, c) && !AsksFor(ps, if c == FIVE then NINE else FIVE)
  }

  /** The configuration gate: it is refused, and does not reach the chip, if and only if the sections forbid
      the channel to the code that entered the region; otherwise it is sent, filtered. So a channel that is
      forbidden to the last code is refused exactly when it was to the entering one. */
  lemma AskingIsRefusedIff(disk: Cascade.Disk, cmds: seq<Command>, count: byte, secs: seq<CountryCaps.Section>,
                           c: Channel, s: seq<byte>, ps: seq<Tlv>, before: seq<byte>)
    requires EndsInBlob(disk, cmds, count, secs) && (c == FIVE || c == NINE)
    requires AskingCommand(s, ps, c) && |before| == MAX_DATA_LEN
    ensures HEADER_SIZE <= |s| <= MAX_DATA_LEN && Processable(s, before, After(disk, cmds).rt.mask)
    ensures Dispatched(s, before, After(disk, cmds).rt) ==
      if CountryCaps.CountryForbids(secs, EnteringCode(disk, cmds), TagOf(c)) then Refused else Sent(Filter.Filtered(s))
  {
    var st := After(disk, cmds);
    RestrictedIffEnteringCodeForbidden(disk, cmds, count, secs, c);
    AsksIffRestricted(ps, c, st.rt.mask);
    ConfigurationGate(s, ps, before, st.rt);
  }

  lemma AsksIffRestricted(ps: seq<Tlv>, c: Channel, mask: word)
    requires (c == FIVE || c == NINE) && AsksFor(ps, c) && !AsksFor(ps, if c == FIVE then NINE else FIVE)
    ensures Asks(ps, mask) <==> Bit(mask, c.mask)
  {
    if Bit(mask, c.mask) {
      var k :| 0 <= k < |ps| && ps[k].tag == TAG_CHANNEL_NUMBER && |ps[k].value| > 0 && ps[k].value[0] == c.mask;
      assert AskedBy(ps[k], mask);
    }
  }

  // ----- Two countries of one region

  const AA := CountryCaps.Code(0x41, 0x41)
  const BB := CountryCaps.Code(0x42, 0x42)

  /** Sections that forbid channel 9 to the second country only. */
  function Sections(): seq<CountryCaps.Section> {
    [CountryCaps.Section(AA, []), CountryCaps.Section(BB, [Tlv(CountryCaps.TAG_CHANNEL_9, [0])])]
  }

  lemma SectionsForbid()
    ensures CountryCaps.WellFormedSections(Sections())
    ensures CountryCaps.CountryForbids(Sections(), BB, CountryCaps.TAG_CHANNEL_9)
    ensures !CountryCaps.CountryForbids(Sections(), AA, CountryCaps.TAG_CHANNEL_9)
  {
    assert CountryCaps.ForbiddenBy(Sections()[1].settings[0], CountryCaps.TAG_CHANNEL_9);
    assert CountryCaps.Forbids(Sections()[1].settings, CountryCaps.TAG_CHANNEL_9);
    assert Sections()[1].code == BB;
  }

  /** Files under which a forbidden channel is blocked when the country enters its region, and under which
      it stays open when another country of the same region was there first. */
  lemma SharedRegionKeepsChannelOpen(stack: Stack) returns (disk: Cascade.Disk)
    ensures EndsInBlob(disk, [Command(BB, stack)], 2, Sections())
    ensures EndsInBlob(disk, [Command(AA, stack), Command(BB, stack)], 2, Sections())
    ensures EnteringCode(disk, [Command(BB, stack)]) == BB
    ensures EnteringCode(disk, [Command(AA, stack), Command(BB, stack)]) == AA
    ensures CountryCaps.CountryForbids(Sections(), BB, CountryCaps.TAG_CHANNEL_9)
    ensures !CountryCaps.CountryForbids(Sections(), AA, CountryCaps.TAG_CHANNEL_9)
    ensures Bit(After(disk, [Command(BB, stack)]).rt.mask, 9)
    ensures !Bit(After(disk, [Command(AA, stack), Command(BB, stack)]).rt.mask, 9)
  {
    disk := SharedRegion();
    var one, two := [Command(BB, stack)], [Command(AA, stack), Command(BB, stack)];
    SectionsForbid();
    BothEnter(disk, one, two);
    RestrictedIffEnteringCodeForbidden(disk, one, 2, Sections(), NINE);
    RestrictedIffEnteringCodeForbidden(disk, two, 2, Sections(), NINE);
  }

  /** A command that asks for this channel only. */
  lemma ChannelCommand(c: Channel) returns (s: seq<byte>, ps: seq<Tlv>)
    requires c == FIVE || c == NINE
    ensures AskingCommand(s, ps, c)
  {
    ps := [Tlv(TAG_CHANNEL_NUMBER, [c.mask])];
    s := [0x21, 3, 0, 8, 0, 0, 0, 0, 1] + EncodeAll(ps);
    assert EncodeAll(ps) == [TAG_CHANNEL_NUMBER, 1, c.mask] by { assert ps[1..] == []; }
    assert s[Filter.BODY..] == EncodeAll(ps);
    Filter.FilterRefinesDecodeFilterEncode(s, ps);
    FilterKeepsKind(s);
    assert ps[0].value[0] == c.mask;
  }

  /** So the same command for the same country is refused or sent, by the country that came before. */
  lemma SharedRegionCommand(stack: Stack, before: seq<byte>) returns (disk: Cascade.Disk, s: seq<byte>)
    requires |before| == MAX_DATA_LEN
    ensures HEADER_SIZE <= |s| <= MAX_DATA_LEN
    ensures var rt := After(disk, [Command(BB, stack)]).rt;
      Processable(s, before, rt.mask) && Dispatched(s, before, rt) == Refused
    ensures var rt := After(disk, [Command(AA, stack), Command(BB, stack)]).rt;
      Processable(s, before, rt.mask) && Dispatched(s, before, rt) == Sent(Filter.Filtered(s))
  {
    disk := SharedRegionKeepsChannelOpen(stack);
    var ps;
    s, ps := ChannelCommand(NINE);
    AskingIsRefusedIff(disk, [Command(BB, stack)], 2, Sections(), NINE, s, ps, before);
    AskingIsRefusedIff(disk, [Command(AA, stack), Command(BB, stack)], 2, Sections(), NINE, s, ps, before);
  }

  lemma SharedRegion() returns (disk: Cascade.Disk)
    ensures Cascade.NamedRegions(disk.regions) && HasBlob(disk, "EU", 2, Sections())
    ensures RegionOf(disk, AA) == "EU" && RegionOf(disk, BB) == "EU"
  {
    SectionsForbid();
    BlobIsShort();
    disk := DiskWithBlob("EU", [2] + EncodeAll(CountryCaps.Flatten(Sections())), [Cascade.Region("EU", {Text(AA), Text(BB)})]);
  }

  lemma BothEnter(disk: Cascade.Disk, one: seq<Command>, two: seq<Command>)
    requires |one| == 1 && one[0].code == BB && |two| == 2 && two[0].code == AA && two[1].code == BB
    requires RegionOf(disk, AA) == RegionOf(disk, BB)
    ensures EnteringCode(disk, one) == BB && EnteringCode(disk, two) == AA
  {
    assert |two[..1]| == 1 && two[..1][0] == two[0];
  }

  lemma BlobIsShort()
    ensures CountryCaps.WellFormedBlob(CountryCaps.Flatten(Sections())) && |EncodeAll(CountryCaps.Flatten(Sections()))| < 0x100
  {
    CountryCaps.RelevantIsSettingsFor(Sections(), AA);
  }
}
