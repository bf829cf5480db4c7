/** The second rewriting of a GET_CAPS_INFO response, in phNxpUciHal_parse: parse into the tag map,
    mask the channel tags with the country configuration, print the map in tag order
    (uwb/halimpl/hal/phNxpUciHal.cc:331-408). */
module CapsMask {
  import opened Bytes
  import opened Tlv
  import opened TagMap
  import opened Uci

  /** Header, status and TLV count. */
  const BODY := 6

  predicate ChannelTag(tag: word) { tag == TAG_UWB_CHANNELS || tag == TAG_CCC_UWB_CHANNELS }

  /** The words behind the end of a configuration vector, by tag and index: the code ANDs the bytes of an
      entry that is longer than the configured one with these. */
  type Behind = (word, nat) -> word

  function MaskWord(c: seq<byte>, behind: Behind, tag: word, j: nat): word { if j < |c| then c[j] else behind(tag, j) }

  function AndByte(w: word, b: byte): byte { And(w, b) }

  function AndVec(c: seq<byte>, behind: Behind, tag: word, v: seq<byte>): (r: seq<byte>)
    ensures |r| == |v| && forall j :: 0 <= j < |v| ==> r[j] == And(MaskWord(c, behind, tag, j), v[j])
  {
    seq(|v|, j requires 0 <= j < |v| => AndByte(MaskWord(c, behind, tag, j), v[j]))
  }

  /** The configuration entry an input entry is masked with, if any. */
  function MaskFor(conf: TagMap, e: Entry): Option<seq<byte>> {
    if ChannelTag(e.tag) then Lookup(conf, e.tag) else None
  }

  function MaskEntry(conf: TagMap, behind: Behind, e: Entry): Entry {
    match MaskFor(conf, e)
    case None => e
    case Some(c) => Entry(e.tag, AndVec(c, behind, e.tag, e.vec))
  }

  function MaskMap(conf: TagMap, behind: Behind, m: TagMap): (r: TagMap)
    ensures |r| == |m| && forall i :: 0 <= i < |m| ==> r[i] == MaskEntry(conf, behind, m[i])
  {
    if m == [] then [] else [MaskEntry(conf, behind, m[0])] + MaskMap(conf, behind, m[1..])
  }

  /** The packet sent up in place of a response with header bytes `hdr`, for the tag map `m`. */
  function Packet(hdr: seq<byte>, m: TagMap): seq<byte>
    requires |hdr| >= BODY
  {
    hdr[..3] + [Wrap8(Size(m) + BODY - HEADER_SIZE), hdr[4], Wrap8(|m|)] + Print(m)
  }

  /** The globals of this part of the code, and what was handed to the upper layer. */
  class CapsResponder {
    var inputMap: TagMap
    var confMap: TagMap
    var mapCreated: bool
    var skipPacket: bool
    var forwarded: seq<seq<byte>>
    const response: array<byte>

    constructor ()
      ensures inputMap == confMap == [] && !mapCreated && !skipPacket && forwarded == []
      ensures response.Length == MAX_DATA_LEN && fresh(response)
    {
      inputMap, confMap, mapCreated, skipPacket, forwarded := [], [], false, false, [];
      response := new byte[MAX_DATA_LEN];
    }

    /** The whole branch. Nothing is replaced before a country configuration was loaded, on an error
        status, or when parsing fails; in the last case what was parsed stays in `inputMap`. */
    method Respond(data: array<byte>, dataLen: word, behind: Behind)
      requires BODY <= dataLen <= data.Length && response.Length == MAX_DATA_LEN && data != response
      requires mapCreated && data[4] == 0 ==>
        var p := ParseInto(inputMap, data[BODY..dataLen]);
        p.ok ==> BODY + Size(p.m) <= MAX_DATA_LEN
      modifies this`inputMap, this`skipPacket, this`forwarded, response
      ensures !(mapCreated && old(data[4]) == 0) ==>
        inputMap == old(inputMap) && skipPacket == old(skipPacket) && forwarded == old(forwarded)
      ensures mapCreated && old(data[4]) == 0 ==>
        var p := ParseInto(old(inputMap), old(data[BODY..dataLen]));
        if p.ok then
          inputMap == [] && skipPacket && forwarded == old(forwarded) + [Packet(old(data[..BODY]), MaskMap(confMap, behind, p.m))]
        else
          inputMap == p.m && skipPacket == old(skipPacket) && forwarded == old(forwarded)
    {
      if !mapCreated || data[4] != 0 { return; }
      var ok;
      ok, inputMap := Parse(inputMap, data, BODY, dataLen);
      if !ok { return; }
      var masked := MaskChannels(inputMap, confMap, behind);
      PrintIsEncodeSize(masked);
      MaskSize(confMap, behind, inputMap);
      var arrLen := PrintPacket(masked, data, response);
      inputMap := [];
      forwarded := forwarded + [response[..arrLen]];
      skipPacket := true;
    }
  }

  /** The comparison loop: channel entries known to both maps are ANDed byte by byte. */
  method MaskChannels(input: TagMap, conf: TagMap, behind: Behind) returns (m: TagMap)
    ensures m == MaskMap(conf, behind, input)
  {
    m := input;
    for i := 0 to |m|
      invariant |m| == |input|
      invariant forall k :: 0 <= k < i ==> m[k] == MaskEntry(conf, behind, input[k])
      invariant forall k :: i <= k < |m| ==> m[k] == input[k]
    {
      var tag := m[i].tag;
      var c := Lookup(conf, tag);
      if c.Some? && (tag == TAG_UWB_CHANNELS || tag == TAG_CCC_UWB_CHANNELS) {
        var vec := m[i].vec;
        for j := 0 to |vec|
          invariant |vec| == |input[i].vec|
          invariant forall k :: 0 <= k < j ==> vec[k] == And(MaskWord(c.value, behind, tag, k), input[i].vec[k])
          invariant forall k :: j <= k < |vec| ==> vec[k] == input[i].vec[k]
        {
          vec := vec[j := AndByte(MaskWord(c.value, behind, tag, j), vec[j])];
        }
        assert vec == AndVec(c.value, behind, tag, input[i].vec);
        m := m[i := Entry(tag, vec)];
      }
    }
  }

  /** The conversion back into a packet, with its length and count bytes. */
  method PrintPacket(m: TagMap, data: array<byte>, response: array<byte>) returns (arrLen: nat)
    requires data.Length >= BODY && data != response
    requires |Print(m)| == Size(m) && BODY + Size(m) <= response.Length
    modifies response
    ensures arrLen == BODY + Size(m) && response[..arrLen] == Packet(data[..BODY], m)
  {
    arrLen := PrintEntries(m, response);
    response[0], response[1], response[2], response[4] := data[0], data[1], data[2], data[4];
    response[3] := Wrap8(arrLen - HEADER_SIZE);
    response[5] := Wrap8(|m|);
    ghost var p := Packet(data[..BODY], m);
    assert forall k :: 0 <= k < BODY ==> response[k] == p[k];
    assert forall k :: BODY <= k < arrLen ==> response[k] == p[k];
  }

  method PrintEntries(m: TagMap, response: array<byte>) returns (idx: nat)
    requires |Print(m)| == Size(m) && BODY + Size(m) <= response.Length
    modifies response
    ensures idx == BODY + Size(m)
    ensures forall k :: BODY <= k < idx ==> response[k] == Print(m)[k - BODY]
  {
    idx := BODY;
    ghost var printed: seq<byte> := [];
    for i := 0 to |m|
      invariant Print(m) == printed + Print(m[i..]) && idx == BODY + |printed|
      invariant forall k :: BODY <= k < idx ==> response[k] == printed[k - BODY]
    {
      ghost var chunk := TagBytes(m[i].tag) + m[i].vec;
      PrintedStep(m, i, printed);
      idx := PrintEntry(m[i], response, idx);
      printed := printed + chunk;
    }
    assert m[|m|..] == [] && printed + [] == printed;
  }

  lemma PrintedStep(m: TagMap, i: nat, printed: seq<byte>)
    requires i < |m| && Print(m) == printed + Print(m[i..])
    ensures Print(m) == printed + (TagBytes(m[i].tag) + m[i].vec) + Print(m[i + 1..])
    ensures |printed| + Cost(m[i]) <= |Print(m)|
  {
    assert m[i..][1..] == m[i + 1..];
  }

  method PrintEntry(e: Entry, response: array<byte>, start: nat) returns (idx: nat)
    requires start + Cost(e) <= response.Length
    modifies response
    ensures idx == start + Cost(e)
    ensures forall k :: start <= k < idx ==> response[k] == (TagBytes(e.tag) + e.vec)[k - start]
    ensures forall k :: 0 <= k < start ==> response[k] == old(response[k])
  {
    idx := start;
    if e.tag >= 0x100 {
      response[idx], response[idx + 1] := e.tag / 0x100, e.tag % 0x100;
      idx := idx + 2;
    } else {
      response[idx] := e.tag;
      idx := idx + 1;
    }
    forall k | 0 <= k < |e.vec| { response[idx + k] := e.vec[k]; }
    idx := idx + |e.vec|;
  }

  lemma {:induction false} PrintIsEncodeSize(m: TagMap)
    ensures |Print(m)| == Size(m)
  {
    if m != [] { PrintIsEncodeSize(m[1..]); }
  }

  lemma {:induction false} MaskSize(conf: TagMap, behind: Behind, m: TagMap)
    ensures Size(MaskMap(conf, behind, m)) == Size(m)
  {
    if m != [] {
      MaskSize(conf, behind, m[1..]);
      assert MaskMap(conf, behind, m)[1..] == MaskMap(conf, behind, m[1..]);
    }
  }

  // ----- Parse, mask, print

  /** A configuration map that knows both channel tags, with one mask byte each. */
  predicate ChannelConf(conf: TagMap, fira: byte, ccc: byte) {
    Lookup(conf, 0x0E) == Some([1, fira]) && Lookup(conf, 0xA3) == Some([1, ccc])
  }

  /** Channel entries hold a length byte and at most one mask byte. */
  predicate ByteMasks(m: TagMap) { forall i :: 0 <= i < |m| ==> ByteMask(m[i]) }
  predicate ByteMask(e: Entry) { ChannelTag(e.tag) ==> |e.vec| <= 2 }

  predicate ChannelsAreBytes(ts: seq<Tlv>) {
    forall i :: 0 <= i < |ts| && ChannelTag(ts[i].tag) ==> |ts[i].value| <= 1
  }

  /** What the upper layer is to see instead of the value `v` of `tag`. */
  function MaskedValue(fira: byte, ccc: byte, tag: word, v: seq<byte>): seq<byte> {
    if (tag == 0x0E || tag == 0xA3) && |v| == 1 then [And(if tag == 0x0E then fira else ccc, v[0])] else v
  }

  lemma MaskedEntry(conf: TagMap, behind: Behind, fira: byte, ccc: byte, e: Entry)
    requires ChannelConf(conf, fira, ccc) && ProperEntry(e) && ByteMask(e)
    ensures ProperEntry(MaskEntry(conf, behind, e)) && MaskEntry(conf, behind, e).tag == e.tag
    ensures MaskEntry(conf, behind, e).vec[1..] == MaskedValue(fira, ccc, e.tag, e.vec[1..])
  {
    if ChannelTag(e.tag) {
      var c := MaskFor(conf, e).value;
      var r := AndVec(c, behind, e.tag, e.vec);
      assert c[0] == 1 && And(1, 1) == 1;
      if |e.vec| == 2 {
        assert r[1..] == [And(c[1], e.vec[1])] && e.vec[1..] == [e.vec[1]];
      } else {
        assert r == [And(1, 0)] && r[1..] == [] == e.vec[1..];
      }
    }
  }

  lemma MaskedMap(conf: TagMap, behind: Behind, fira: byte, ccc: byte, m: TagMap)
    requires ChannelConf(conf, fira, ccc) && Proper(m) && ByteMasks(m)
    ensures var r := MaskMap(conf, behind, m);
      && Proper(r) && (forall i :: 0 <= i < |m| ==> r[i].tag == m[i].tag)
      && forall i :: 0 <= i < |m| ==> r[i].vec[1..] == MaskedValue(fira, ccc, m[i].tag, m[i].vec[1..])
  {
    var r := MaskMap(conf, behind, m);
    forall i | 0 <= i < |m|
      ensures ProperEntry(r[i]) && r[i].tag == m[i].tag
      ensures r[i].vec[1..] == MaskedValue(fira, ccc, m[i].tag, m[i].vec[1..])
    {
      MaskedEntry(conf, behind, fira, ccc, m[i]);
    }
  }

  lemma {:induction false} MaskedLookup(m: TagMap, r: TagMap, fira: byte, ccc: byte, tag: word)
    requires Proper(m) && Proper(r) && |m| == |r|
    requires forall i :: 0 <= i < |m| ==> r[i].tag == m[i].tag
    requires forall i :: 0 <= i < |m| ==> r[i].vec[1..] == MaskedValue(fira, ccc, m[i].tag, m[i].vec[1..])
    ensures match ValueOf(TlvsOf(m), tag)
      case None => ValueOf(TlvsOf(r), tag).None?
      case Some(v) => ValueOf(TlvsOf(r), tag) == Some(MaskedValue(fira, ccc, tag, v))
  {
    if m != [] {
      MaskedLookup(m[1..], r[1..], fira, ccc, tag);
      assert TlvsOf(m)[1..] == TlvsOf(m[1..]) && TlvsOf(r)[1..] == TlvsOf(r[1..]);
    }
  }

  // ----- Maps that responses leave behind

  /** What every response leaves of a map, whatever its bytes are. */
  predicate Inherited(m: TagMap) { Sorted(m) && Proper(m) }

  lemma StaysInherited(m: TagMap, s: seq<byte>)
    requires Inherited(m)
    ensures Inherited(ParseInto(m, s).m)
  {
    ParseKeepsShape(m, s);
  }

  /** The entries the parser reads off the bytes before it stops. */
  function EntriesOf(s: seq<byte>): seq<Entry>
    decreases |s|
  {
    if s == [] then []
    else match ReadEntry(s)
      case None => []
      case Some(e) => [e] + EntriesOf(s[Cost(e)..])
  }

  lemma {:induction false} PutKeepsBytes(m: TagMap, tag: word, vec: seq<byte>)
    requires ByteMasks(m) && ByteMask(Entry(tag, vec))
    ensures ByteMasks(Put(m, tag, vec))
  {
    if m != [] && tag > m[0].tag { PutKeepsBytes(m[1..], tag, vec); }
  }

  /** Channel masks of one byte stay so, if all that are read are. */
  lemma {:induction false} StaysByteMasks(m: TagMap, s: seq<byte>)
    requires ByteMasks(m) && ByteMasks(EntriesOf(s))
    ensures ByteMasks(ParseInto(m, s).m)
    decreases |s|
  {
    if s != [] && ReadEntry(s).Some? {
      var e := ReadEntry(s).value;
      var rest := s[Cost(e)..];
      assert EntriesOf(s)[0] == e && EntriesOf(s)[1..] == EntriesOf(rest);
      PutKeepsBytes(m, e.tag, e.vec);
      StaysByteMasks(Put(m, e.tag, e.vec), rest);
    }
  }

  lemma {:induction false} PutAllByteMasks(m: TagMap, ts: seq<Tlv>)
    requires ByteMasks(m) && Sized(ts) && ChannelsAreBytes(ts)
    ensures ByteMasks(PutAll(m, ts))
    decreases |ts|
  {
    if ts != [] {
      PutKeepsBytes(m, ts[0].tag, VecOf(ts[0]));
      PutAllByteMasks(Put(m, ts[0].tag, VecOf(ts[0])), ts[1..]);
    }
  }

  /** A longer mask does not stay a mask: its length byte is masked too, and what comes behind is read as
      further TLVs. */
  lemma LongMaskIsCut(conf: TagMap, behind: Behind, fira: byte, ccc: byte, v: seq<byte>)
    requires ChannelConf(conf, fira, ccc) && 1 < |v| < 0x100
    ensures var e := MaskEntry(conf, behind, Entry(TAG_UWB_CHANNELS, [|v|] + v));
      && |e.vec| == |v| + 1 && e.vec[0] == |v| % 2 && e.vec[1] == And(fira, v[0])
      && forall j :: 1 <= j < |v| ==> e.vec[j + 1] == And(behind(TAG_UWB_CHANNELS, j + 1), v[j])
  {
    var c, vec := [1, fira], [|v|] + v;
    var r := AndVec(c, behind, TAG_UWB_CHANNELS, vec);
    assert r[0] == And(1, |v|) && And(1, |v|) == |v| % 2;
    assert r[1] == And(fira, v[0]);
    forall j | 1 <= j < |v| ensures r[j + 1] == And(behind(TAG_UWB_CHANNELS, j + 1), v[j]) {
      assert vec[j + 1] == v[j];
    }
  }

  // ----- What is decoded again

  /** What the upper layer decodes, with the tags it knows; nothing, if that fails. */
  function ReadList(s: seq<byte>, ext: TagStyle): seq<Tlv> {
    match Decode(s, ext)
    case None => []
    case Some(ts) => ts
  }

  function Read(packet: seq<byte>, ext: TagStyle): seq<Tlv>
    requires |packet| >= BODY
  {
    ReadList(packet[BODY..], ext)
  }

  /** What decoding the packet printed for the map `m` yields. */
  function ShownMap(conf: TagMap, behind: Behind, m: TagMap): seq<Tlv> {
    if Proper(MaskMap(conf, behind, m)) then TlvsOf(MaskMap(conf, behind, m)) else []
  }

  /** ... for a response with the TLVs `ts`, from an empty map. */
  function MaskedTlvs(conf: TagMap, behind: Behind, ts: seq<Tlv>): seq<Tlv>
    requires Sized(ts)
  {
    ShownMap(conf, behind, PutAll([], ts))
  }

  /** The packet printed for such a map: decoding gives every entry, the channel masks ANDed. */
  lemma ShownMapIsMasked(conf: TagMap, behind: Behind, fira: byte, ccc: byte, m: TagMap)
    requires ChannelConf(conf, fira, ccc) && Proper(m) && ByteMasks(m)
    ensures Proper(MaskMap(conf, behind, m)) && |ShownMap(conf, behind, m)| == |m|
    ensures forall i :: 0 <= i < |m| ==>
      ShownMap(conf, behind, m)[i] == Tlv(m[i].tag, MaskedValue(fira, ccc, m[i].tag, m[i].vec[1..]))
  {
    MaskedMap(conf, behind, fira, ccc, m);
  }

  /** `packet` decodes to a response with the header bytes of `hdr`, the TLVs `shown`, `size` bytes of
      them, and the length and count bytes that belong to them. */
  predicate CarriesShown(packet: seq<byte>, hdr: seq<byte>, shown: seq<Tlv>, size: nat)
    requires |hdr| >= BODY
  {
    && |packet| == BODY + size && packet[..3] == hdr[..3] && packet[4] == hdr[4]
    && packet[3] == Wrap8(|packet| - HEADER_SIZE) && packet[5] == Wrap8(|shown|)
    && Decode(packet[BODY..], Extended) == Some(shown)
  }

  lemma PacketShowsMap(hdr: seq<byte>, conf: TagMap, behind: Behind, fira: byte, ccc: byte, m: TagMap)
    requires |hdr| >= BODY && ChannelConf(conf, fira, ccc) && Proper(m) && ByteMasks(m)
    ensures CarriesShown(Packet(hdr, MaskMap(conf, behind, m)), hdr, ShownMap(conf, behind, m), Size(m))
  {
    ShownMapIsMasked(conf, behind, fira, ccc, m);
    MaskSize(conf, behind, m);
    PrintedPacket(hdr, MaskMap(conf, behind, m));
  }

  lemma PrintedPacket(hdr: seq<byte>, r: TagMap)
    requires |hdr| >= BODY && Proper(r)
    ensures CarriesShown(Packet(hdr, r), hdr, TlvsOf(r), Size(r))
  {
    PrintIsEncode(r);
    DecodeEncode(TlvsOf(r), Extended);
    assert Packet(hdr, r)[BODY..] == Print(r);
  }

  /** The value a tag has in the map after a response: the response's last one, or else the inherited. */
  function Held(m: TagMap, ts: seq<Tlv>, tag: word): Option<seq<byte>> {
    if LastValue(ts, tag).Some? then LastValue(ts, tag)
    else match Lookup(m, tag)
      case None => None
      case Some(vec) => Some(if vec == [] then [] else vec[1..])
  }

  /** Every tag keeps its value in the replacement, except that the channel masks are ANDed. */
  lemma RewriteMasksChannelsOnly(m: TagMap, ts: seq<Tlv>, conf: TagMap, behind: Behind, fira: byte, ccc: byte, tag: word)
    requires Inherited(m) && AllWellFormed(ts, Extended) && ByteMasks(PutAll(m, ts)) && ChannelConf(conf, fira, ccc)
    ensures match Held(m, ts, tag)
      case None => ValueOf(ShownMap(conf, behind, PutAll(m, ts)), tag).None?
      case Some(v) => ValueOf(ShownMap(conf, behind, PutAll(m, ts)), tag) == Some(MaskedValue(fira, ccc, tag, v))
  {
    var all := PutAll(m, ts);
    PutAllShape(m, ts);
    MaskedMap(conf, behind, fira, ccc, all);
    PutAllLookup(m, ts, tag);
    TlvsOfLookup(m, tag);
    TlvsOfLookup(all, tag);
    MaskedLookup(all, MaskMap(conf, behind, all), fira, ccc, tag);
  }

  /** In particular what a response that failed to parse left in the map is shown in the next replacement,
      under tags the next response does not have. */
  lemma StaleEntryIsShown(stale: TagMap, ts: seq<Tlv>, conf: TagMap, behind: Behind, fira: byte, ccc: byte, tag: word)
    requires Inherited(stale) && AllWellFormed(ts, Extended) && ByteMasks(PutAll(stale, ts)) && ChannelConf(conf, fira, ccc)
    requires Lookup(stale, tag).Some? && LastValue(ts, tag).None?
    ensures Lookup(stale, tag).value != []
    ensures ValueOf(ShownMap(conf, behind, PutAll(stale, ts)), tag) ==
      Some(MaskedValue(fira, ccc, tag, Lookup(stale, tag).value[1..]))
  {
    RewriteMasksChannelsOnly(stale, ts, conf, behind, fira, ccc, tag);
    TlvsOfLookup(stale, tag);
  }

  // ----- From an empty map

  /** A response whose replacement has its own size: distinct tags, byte masks, no empty last value. */
  predicate Replaceable(ts: seq<Tlv>) {
    && AllWellFormed(ts, Extended) && UniqueTags(ts) && ChannelsAreBytes(ts)
    && ts != [] && !EndsEmpty(ts)
  }

  lemma ParsedIsTagMap(ts: seq<Tlv>)
    requires Replaceable(ts)
    ensures var m := PutAll([], ts);
      ParseInto([], EncodeAll(ts)) == Parsed(true, m) && |m| == |ts| && Size(m) == |EncodeAll(ts)| && Inherited(m) && ByteMasks(m)
  {
    ParseEncoded([], ts);
    PutAllShape([], ts);
    PutAllByteMasks([], ts);
    PutAllSize([], ts);
  }

  /** The second rewriting is parse, mask, print, starting from an empty map: the replacement has the
      response's length, header and status, and decodes to the masked list. */
  lemma RewriteIsParseMaskPrint(hdr: seq<byte>, ts: seq<Tlv>, conf: TagMap, behind: Behind, fira: byte, ccc: byte)
    requires |hdr| >= BODY && Replaceable(ts) && ChannelConf(conf, fira, ccc)
    ensures ParseInto([], EncodeAll(ts)) == Parsed(true, PutAll([], ts))
    ensures CarriesShown(Packet(hdr, MaskMap(conf, behind, PutAll([], ts))), hdr, MaskedTlvs(conf, behind, ts), |EncodeAll(ts)|)
  {
    ParsedIsTagMap(ts);
    PacketShowsMap(hdr, conf, behind, fira, ccc, PutAll([], ts));
  }

  /** The replacement has as many TLVs as the response, in the order of their tags. */
  lemma ReplacementIsSorted(ts: seq<Tlv>, conf: TagMap, behind: Behind, fira: byte, ccc: byte)
    requires Replaceable(ts) && ChannelConf(conf, fira, ccc)
    ensures
      var r := MaskedTlvs(conf, behind, ts);
      |r| == |ts| && forall i, j :: 0 <= i < j < |r| ==> r[i].tag < r[j].tag
  {
    ParsedIsTagMap(ts);
    ShownMapIsMasked(conf, behind, fira, ccc, PutAll([], ts));
  }
}
