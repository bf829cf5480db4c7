/** The first rewriting of a GET_CAPS_INFO response, phNxpUciHal_parse_get_capsInfo: vendor TLVs are
    dropped, the AoA and CCC version values replaced, the configured vendor capabilities appended
    (uwb/halimpl/hal/phNxpUciHal.cc:702-815). */
module CapsInfo {
  import opened Bytes
  import opened Tlv
  import opened Uci

  const BODY := 6
  const TAG_AOA := 0x13
  const TAG_CCC_VERSIONS := 0xA4
  const MAX_CONFIG_LEN := 260

  /** What core initialisation learnt about the receive antenna pairs. */
  datatype Antenna = Antenna(defined: bool, pairs: nat)

  /** The AoA value; for a defined configuration without pairs the code writes none. */
  function AoaValue(a: Antenna): Option<byte> {
    if !a.defined then Some(0) else if a.pairs == 1 then Some(1) else if a.pairs > 1 then Some(5) else None
  }

  /** The AoA value is written to the value position that the TLV before it left, so it needs one. */
  predicate AoaNotFirst(ts: seq<Tlv>) {
    ts != [] ==> if ts[0].tag >= 0x100 then AoaNotFirst(ts[1..]) else ts[0].tag != 0x13
  }

  /** The code swaps the two bytes of a CCC version value. */
  predicate VersionsArePairs(ts: seq<Tlv>) { forall i :: 0 <= i < |ts| ==> VersionIsPair(ts[i]) }
  predicate VersionIsPair(t: Tlv) { t.tag == 0xA4 ==> |t.value| == 2 }

  /** `s` is a successful response carrying exactly `ts`, with length and count bytes that say so. */
  predicate CarriesCaps(s: seq<byte>, ts: seq<Tlv>, ext: TagStyle) {
    && BODY <= |s| && IsCapsResponse(s) && s[4] == 0
    && AllWellFormed(ts, ext) && s[BODY..] == EncodeAll(ts)
    && s[3] == |s| - HEADER_SIZE && s[5] == |ts|
  }

  // ----- What the loop does to the received packet

  /** Where the loop stands: the receive buffer, the index of the next TLV, and the position the code keeps
      of the last value, where an AoA TLV writes. */
  datatype Cursor = Cursor(s: seq<byte>, index: nat, prev: int)

  function Next(w: Cursor, t: Tlv, a: Antenna): (r: Cursor)
    requires |t.value| < 0x100
    ensures |r.s| == |w.s|
  {
    Cursor(AfterOne(w.s, w.prev, t, a), w.index + |Encode(t)|, if t.tag >= 0x100 || t.tag == TAG_AOA then w.prev else w.index + 2)
  }

  function AfterOne(s: seq<byte>, prev: int, t: Tlv, a: Antenna): (r: seq<byte>)
    ensures |r| == |s|
  {
    if t.tag == TAG_AOA && 0 <= prev < |s| && AoaValue(a).Some? then s[prev := AoaValue(a).value] else s
  }

  /** What the loop makes of the received packet, the TLVs `rest` being still ahead. */
  function Overwritten(w: Cursor, rest: seq<Tlv>, a: Antenna): (r: seq<byte>)
    requires Sized(rest)
    ensures |r| == |w.s|
    decreases |rest|
  {
    if rest == [] then w.s else Overwritten(Next(w, rest[0], a), rest[1..], a)
  }

  /** The TLVs `rest`, then `post`, are ahead. */
  predicate Ahead(w: Cursor, rest: seq<Tlv>, post: seq<byte>) {
    Sized(rest) && -1 <= w.prev <= w.index <= |w.s| && w.s[w.index..] == EncodeAll(rest) + post
  }

  lemma AheadStep(w: Cursor, rest: seq<Tlv>, post: seq<byte>, a: Antenna)
    requires Ahead(w, rest, post) && rest != []
    ensures Ahead(Next(w, rest[0], a), rest[1..], post) && w.index + |Encode(rest[0])| + |post| <= |w.s|
    ensures w.s[w.index..w.index + |Encode(rest[0])|] == Encode(rest[0])
  {
    var e := Encode(rest[0]);
    Regroup(e, EncodeAll(rest[1..]), post);
    BehindHead(w.s, w.index, e, EncodeAll(rest[1..]) + post);
    assert Next(w, rest[0], a).s[w.index + |e|..] == w.s[w.index + |e|..];
  }

  lemma Regroup<T>(a: seq<T>, b: seq<T>, c: seq<T>)
    ensures a + b + c == a + (b + c)
  {
  }

  lemma BehindHead(s: seq<byte>, index: nat, e: seq<byte>, post: seq<byte>)
    requires index <= |s| && s[index..] == e + post
    ensures index + |e| <= |s| && s[index..index + |e|] == e && s[index + |e|..] == post
  {
    assert s[index..][..|e|] == e && s[index..][|e|..] == post;
    assert s[index..][|e|..] == s[index + |e|..] && s[index..][..|e|] == s[index..index + |e|];
  }

  /** The next TLV with a one-byte tag is an AoA TLV. */
  predicate AoaNext(ts: seq<Tlv>) {
    ts != [] && if ts[0].tag >= 0x100 then AoaNext(ts[1..]) else ts[0].tag == 0x13
  }

  /** On lists: the first byte of every value in front of an AoA TLV becomes the AoA value. */
  function Stamped(ts: seq<Tlv>, a: Antenna): (r: seq<Tlv>)
    ensures |r| == |ts| && (Sized(ts) ==> Sized(r))
    ensures forall i :: 0 <= i < |ts| ==> r[i].tag == ts[i].tag && |r[i].value| == |ts[i].value|
  {
    if ts == [] then [] else [Stamp(ts[0], ts[1..], a)] + Stamped(ts[1..], a)
  }

  function Stamp(t: Tlv, behind: seq<Tlv>, a: Antenna): (r: Tlv)
    ensures r.tag == t.tag && |r.value| == |t.value|
  {
    if t.tag < 0x100 && t.tag != TAG_AOA && AoaNext(behind) && t.value != [] && AoaValue(a).Some?
    then Tlv(t.tag, t.value[0 := AoaValue(a).value]) else t
  }

  /** Every such value has a first byte; otherwise the code overwrites the next TLV's tag. */
  predicate Stampable(ts: seq<Tlv>) {
    ts != [] ==> (ts[0].tag < 0x100 && ts[0].tag != TAG_AOA && AoaNext(ts[1..]) ==> ts[0].value != []) && Stampable(ts[1..])
  }

  lemma {:induction false} NotNext(ts: seq<Tlv>)
    ensures AoaNotFirst(ts) <==> !AoaNext(ts)
  {
    if ts != [] { NotNext(ts[1..]); }
  }

  lemma {:induction false} StampedSize(ts: seq<Tlv>, a: Antenna)
    requires Sized(ts)
    ensures |EncodeAll(Stamped(ts, a))| == |EncodeAll(ts)|
    ensures forall ext: TagStyle :: AllWellFormed(ts, ext) ==> AllWellFormed(Stamped(ts, a), ext)
  {
    if ts != [] {
      StampedSize(ts[1..], a);
      EncodeCons(Stamp(ts[0], ts[1..], a), Stamped(ts[1..], a));
    }
  }

  /** The bytes in front, once the AoA TLVs in front of the next other one have been read. */
  function StampedFront(w: Cursor, ts: seq<Tlv>, a: Antenna): (r: seq<byte>)
    requires w.index <= |w.s|
    ensures |r| == w.index
  {
    var s := if AoaNext(ts) && 0 <= w.prev < |w.s| && AoaValue(a).Some? then w.s[w.prev := AoaValue(a).value] else w.s;
    s[..w.index]
  }

  /** So the received packet ends up carrying the stamped list. */
  lemma {:induction false} OverwrittenIsStamped(w: Cursor, ts: seq<Tlv>, post: seq<byte>, a: Antenna)
    requires Ahead(w, ts, post) && Stampable(ts) && (AoaNext(ts) ==> w.prev < w.index)
    ensures Overwritten(w, ts, a) == StampedFront(w, ts, a) + (EncodeAll(Stamped(ts, a)) + post)
    decreases |ts|
  {
    if ts == [] {
      assert w.s == w.s[..w.index] + w.s[w.index..];
    } else {
      AheadStep(w, ts, post, a);
      OverwrittenIsStamped(Next(w, ts[0], a), ts[1..], post, a);
      FrontStep(w, ts, a);
      StampedStep(StampedFront(w, ts, a), Stamp(ts[0], ts[1..], a), Stamped(ts[1..], a), post);
    }
  }

  lemma StampedStep(front: seq<byte>, t: Tlv, more: seq<Tlv>, post: seq<byte>)
    requires |t.value| < 0x100 && Sized(more)
    ensures front + Encode(t) + (EncodeAll(more) + post) == front + (EncodeAll([t] + more) + post)
  {
    EncodeCons(t, more);
    Regroup(Encode(t), EncodeAll(more), post);
    Regroup(front, Encode(t), EncodeAll(more) + post);
  }

  lemma FrontStep(w: Cursor, ts: seq<Tlv>, a: Antenna)
    requires ts != [] && Sized(ts) && Stampable(ts) && -1 <= w.prev <= w.index && (AoaNext(ts) ==> w.prev < w.index)
    requires w.index + |Encode(ts[0])| <= |w.s| && w.s[w.index..w.index + |Encode(ts[0])|] == Encode(ts[0])
    ensures StampedFront(Next(w, ts[0], a), ts[1..], a) == StampedFront(w, ts, a) + Encode(Stamp(ts[0], ts[1..], a))
  {
    var l := StampedFront(Next(w, ts[0], a), ts[1..], a);
    assert l[..w.index] == StampedFront(w, ts, a);
    StampedHead(w, ts, a);
    assert l == l[..w.index] + l[w.index..];
  }

  lemma StampedHead(w: Cursor, ts: seq<Tlv>, a: Antenna)
    requires ts != [] && Sized(ts) && Stampable(ts) && -1 <= w.prev <= w.index && (AoaNext(ts) ==> w.prev < w.index)
    requires w.index + |Encode(ts[0])| <= |w.s| && w.s[w.index..w.index + |Encode(ts[0])|] == Encode(ts[0])
    ensures StampedFront(Next(w, ts[0], a), ts[1..], a)[w.index..] == Encode(Stamp(ts[0], ts[1..], a))
  {
    var e, e' := Encode(ts[0]), Encode(Stamp(ts[0], ts[1..], a));
    assert forall k :: 0 <= k < |e| ==> w.s[w.index + k] == e[k];
    assert ts[0].tag < 0x100 ==> forall k :: 0 <= k < |e| ==> e'[k] == if k == 2 then Stamp(ts[0], ts[1..], a).value[0] else e[k];
  }

  /** An AoA TLV right behind the channel mask replaces the mask in the received packet, which is what
      goes on when no vendor capabilities are configured. */
  lemma AoaOverwritesChannels(front: seq<Tlv>, mask: byte, aoa: seq<byte>, rest: seq<Tlv>, a: Antenna, v: byte)
    requires AoaValue(a) == Some(v)
    ensures var k := |front|;
      Stamped(front + [Tlv(TAG_UWB_CHANNELS, [mask]), Tlv(TAG_AOA, aoa)] + rest, a)[k] == Tlv(TAG_UWB_CHANNELS, [v])
  {
    var ts := front + [Tlv(TAG_UWB_CHANNELS, [mask]), Tlv(TAG_AOA, aoa)] + rest;
    StampedAt(ts, |front|, a);
    assert ts[|front| + 1..][0] == Tlv(TAG_AOA, aoa);
  }

  lemma {:induction false} StampedAt(ts: seq<Tlv>, k: nat, a: Antenna)
    requires k < |ts|
    ensures Stamped(ts, a)[k] == Stamp(ts[k], ts[k + 1..], a)
  {
    if k > 0 {
      StampedAt(ts[1..], k - 1, a);
      assert ts[1..][k..] == ts[k + 1..];
    }
  }

  // ----- What the loop writes to its output

  /** The position of the value that is copied: an AoA value is taken from the position of the last one. */
  function ValueAt(w: Cursor, t: Tlv): int { if t.tag == TAG_AOA then w.prev else w.index + 2 }

  /** The bytes written for one TLV: tag, length and value, of a CCC version value the last byte and the
      first. */
  function Out(w: Cursor, t: Tlv, a: Antenna): (r: seq<byte>)
    requires |t.value| < 0x100 && w.prev <= w.index && w.index + |Encode(t)| < |w.s|
    ensures |r| <= 2 * |Encode(t)|
  {
    var s, v, n := AfterOne(w.s, w.prev, t, a), ValueAt(w, t), |t.value|;
    if t.tag >= 0x100 || v < 0 then []
    else if t.tag == TAG_CCC_VERSIONS then [t.tag, n, s[v + n - 1], s[v]]
    else [t.tag, n] + s[v..v + n]
  }

  function Emitted(w: Cursor, rest: seq<Tlv>, a: Antenna): (r: seq<byte>)
    requires Sized(rest) && w.prev <= w.index && w.index + |EncodeAll(rest)| < |w.s|
    ensures |r| <= 2 * |EncodeAll(rest)|
    decreases |rest|
  {
    if rest == [] then [] else Out(w, rest[0], a) + Emitted(Next(w, rest[0], a), rest[1..], a)
  }

  /** The TLV that replaces one with a one-byte tag. */
  function Replaced(w: Cursor, t: Tlv, a: Antenna): (r: Tlv)
    ensures r.tag == t.tag && |r.value| == |t.value|
  {
    if t.tag == TAG_AOA && 0 <= w.prev && w.prev + |t.value| <= |w.s| then
      Tlv(TAG_AOA, AfterOne(w.s, w.prev, t, a)[w.prev..w.prev + |t.value|])
    else if t.tag == TAG_CCC_VERSIONS && |t.value| == 2 then Tlv(TAG_CCC_VERSIONS, [t.value[1], t.value[0]])
    else t
  }

  /** The device's TLVs as they are passed on. */
  function Rewritten(w: Cursor, rest: seq<Tlv>, a: Antenna): (r: seq<Tlv>)
    requires Sized(rest)
    ensures Sized(r) && |r| == Kept(rest)
    decreases |rest|
  {
    if rest == [] then []
    else
      var more := Rewritten(Next(w, rest[0], a), rest[1..], a);
      if rest[0].tag >= 0x100 then more else [Replaced(w, rest[0], a)] + more
  }

  /** The number of TLVs that are passed on, and the bytes of the others. */
  function Kept(ts: seq<Tlv>): (n: nat)
    ensures n <= |ts|
  {
    if ts == [] then 0 else (if ts[0].tag >= 0x100 then 0 else 1) + Kept(ts[1..])
  }

  function DroppedBytes(ts: seq<Tlv>): (n: nat)
    requires Sized(ts)
    ensures n <= |EncodeAll(ts)|
  {
    if ts == [] then 0 else (if ts[0].tag >= 0x100 then |Encode(ts[0])| else 0) + DroppedBytes(ts[1..])
  }

  /** With CCC versions of two bytes, what is written is the encoding of the rewritten list. */
  lemma {:induction false} EmittedIsEncoded(w: Cursor, rest: seq<Tlv>, post: seq<byte>, a: Antenna)
    requires Ahead(w, rest, post) && post != [] && VersionsArePairs(rest) && (w.prev >= 0 || AoaNotFirst(rest))
    ensures Emitted(w, rest, a) == EncodeAll(Rewritten(w, rest, a))
    decreases |rest|
  {
    if rest != [] {
      AheadStep(w, rest, post, a);
      EmittedIsEncoded(Next(w, rest[0], a), rest[1..], post, a);
      EmittedStep(w, rest, a, Emitted(Next(w, rest[0], a), rest[1..], a), Rewritten(Next(w, rest[0], a), rest[1..], a));
    }
  }

  lemma EmittedStep(w: Cursor, rest: seq<Tlv>, a: Antenna, behind: seq<byte>, more: seq<Tlv>)
    requires rest != [] && Sized(rest) && VersionIsPair(rest[0]) && (rest[0].tag == TAG_AOA ==> 0 <= w.prev) && w.prev <= w.index
    requires w.index + |Encode(rest[0])| < |w.s| && w.s[w.index..w.index + |Encode(rest[0])|] == Encode(rest[0])
    requires Sized(more) && behind == EncodeAll(more)
    ensures Out(w, rest[0], a) + behind == EncodeAll(if rest[0].tag >= 0x100 then more else [Replaced(w, rest[0], a)] + more)
  {
    if rest[0].tag < 0x100 {
      OutIsEncoded(w, rest[0], a);
      Joined(Out(w, rest[0], a), Replaced(w, rest[0], a), behind, more);
    } else {
      assert [] + behind == behind;
    }
  }

  lemma Joined(out: seq<byte>, t: Tlv, behind: seq<byte>, more: seq<Tlv>)
    requires |t.value| < 0x100 && Sized(more) && out == Encode(t) && behind == EncodeAll(more)
    ensures Sized([t] + more) && out + behind == EncodeAll([t] + more)
  {
    EncodeCons(t, more);
  }

  lemma OutIsEncoded(w: Cursor, t: Tlv, a: Antenna)
    requires t.tag < 0x100 && |t.value| < 0x100 && VersionIsPair(t) && (t.tag == TAG_AOA ==> 0 <= w.prev) && w.prev <= w.index
    requires w.index + |Encode(t)| < |w.s| && w.s[w.index..w.index + |Encode(t)|] == Encode(t)
    ensures Out(w, t, a) == Encode(Replaced(w, t, a))
  {
    var e := Encode(t);
    assert t.tag != TAG_AOA ==> w.s[w.index + 2..w.index + 2 + |t.value|] == t.value;
    assert t.tag == TAG_CCC_VERSIONS ==> e[2] == w.s[w.index + 2] && e[3] == w.s[w.index + 3];
  }

  lemma {:induction false} RewrittenIsVendor(w: Cursor, rest: seq<Tlv>, a: Antenna)
    requires AllWellFormed(rest, Vendor)
    ensures AllWellFormed(Rewritten(w, rest, a), Vendor)
    decreases |rest|
  {
    if rest != [] { RewrittenIsVendor(Next(w, rest[0], a), rest[1..], a); }
  }

  /** Replaced TLVs keep their size. */
  lemma {:induction false} RewrittenSize(w: Cursor, rest: seq<Tlv>, a: Antenna)
    requires Sized(rest)
    ensures |EncodeAll(Rewritten(w, rest, a))| + DroppedBytes(rest) == |EncodeAll(rest)|
    decreases |rest|
  {
    if rest != [] {
      RewrittenSize(Next(w, rest[0], a), rest[1..], a);
      if rest[0].tag < 0x100 { EncodeCons(Replaced(w, rest[0], a), Rewritten(Next(w, rest[0], a), rest[1..], a)); }
    }
  }

  /** What the rewriting is for, on lists: vendor TLVs are dropped, the AoA and CCC version values
      replaced. */
  function Meant(ts: seq<Tlv>, v: byte): seq<Tlv> {
    if ts == [] then []
    else if ts[0].tag >= 0x100 then Meant(ts[1..], v) else [MeantFor(ts[0], v)] + Meant(ts[1..], v)
  }

  function MeantFor(t: Tlv, v: byte): Tlv {
    if t.tag == 0x13 then Tlv(0x13, [v])
    else if t.tag == 0xA4 && |t.value| == 2 then Tlv(0xA4, [t.value[1], t.value[0]])
    else t
  }

  /** That is what it does when AoA values are one byte long and the antenna configuration, if defined, has
      a pair. */
  lemma {:induction false} RewrittenAsMeant(w: Cursor, rest: seq<Tlv>, post: seq<byte>, a: Antenna, v: byte)
    requires Ahead(w, rest, post) && (w.prev >= 0 || AoaNotFirst(rest)) && AoaValue(a) == Some(v)
    requires forall i :: 0 <= i < |rest| && rest[i].tag == TAG_AOA ==> |rest[i].value| == 1
    ensures Rewritten(w, rest, a) == Meant(rest, v)
    decreases |rest|
  {
    if rest != [] {
      AheadStep(w, rest, post, a);
      RewrittenAsMeant(Next(w, rest[0], a), rest[1..], post, a, v);
      assert rest[0].tag < 0x100 ==> Replaced(w, rest[0], a) == MeantFor(rest[0], v);
    }
  }

  // ----- The values, case by case

  /** What an AoA TLV is to hold, and what is written over the byte in front of it, by the antennas: 0 if none
      are defined, bit 0 (azimuth) for one pair, bits 0 and 2 (and elevation) for more. */
  predicate TellsAntennas(v: byte, a: Antenna) {
    (!a.defined ==> v == 0) && (a.defined && a.pairs == 1 ==> v == 1) && (a.defined && a.pairs > 1 ==> v == 5)
  }

  /** What the rewriting makes of the TLV `t`, by its tag: of an AoA TLV (0x13) the first value byte tells the
      antennas, if there is a pair or none are defined; a CCC version of two bytes (0xA4) has them swapped;
      every other TLV is kept. */
  predicate PassedOnAs(t: Tlv, r: Tlv, a: Antenna) {
    && r.tag == t.tag && |r.value| == |t.value|
    && (t.tag == 0x13 && t.value != [] && (a.defined ==> a.pairs > 0) ==> TellsAntennas(r.value[0], a))
    && (t.tag == 0xA4 && |t.value| == 2 ==> r.value == [t.value[1], t.value[0]])
    && (t.tag != 0x13 && (t.tag != 0xA4 || |t.value| != 2) ==> r == t)
  }

  lemma ReplacedCase(w: Cursor, t: Tlv, a: Antenna)
    requires t.tag == 0x13 ==> 0 <= w.prev && w.prev + |t.value| <= |w.s|
    ensures PassedOnAs(t, Replaced(w, t, a), a)
  {
    if t.tag == 0x13 && t.value != [] {
      var s := AfterOne(w.s, w.prev, t, a);
      assert s[w.prev..w.prev + |t.value|][0] == s[w.prev];
    }
  }

  /** The TLVs that are passed on are those with one-byte tags, in order, each as said. */
  lemma {:induction false} PassedOn(w: Cursor, rest: seq<Tlv>, post: seq<byte>, a: Antenna, i: nat)
    requires Ahead(w, rest, post) && (w.prev >= 0 || AoaNotFirst(rest)) && i < |rest| && rest[i].tag < 0x100
    ensures Kept(rest[..i]) < |Rewritten(w, rest, a)| && PassedOnAs(rest[i], Rewritten(w, rest, a)[Kept(rest[..i])], a)
    decreases |rest|
  {
    AheadStep(w, rest, post, a);
    if i == 0 {
      ReplacedCase(w, rest[0], a);
    } else {
      PassedOn(Next(w, rest[0], a), rest[1..], post, a, i - 1);
      assert rest[..i][1..] == rest[1..][..i - 1];
    }
  }

  /** With antennas defined without a pair nothing is written over the packet. */
  lemma {:induction false} NothingOverwritten(w: Cursor, rest: seq<Tlv>, a: Antenna)
    requires Sized(rest) && a.defined && a.pairs == 0
    ensures Overwritten(w, rest, a) == w.s && Stamped(rest, a) == rest
    decreases |rest|
  {
    if rest != [] { NothingOverwritten(Next(w, rest[0], a), rest[1..], a); }
  }

  lemma {:induction false} FirstCopies(w: Cursor, rest: seq<Tlv>, post: seq<byte>, a: Antenna)
    requires Ahead(w, rest, post) && 0 <= w.prev && a.defined && a.pairs == 0
    ensures var r := Rewritten(w, rest, a);
      r != [] && r[0].tag == 0x13 && |r[0].value| == 1 ==> w.prev < |w.s| && r[0].value[0] == w.s[w.prev]
    decreases |rest|
  {
    if rest != [] {
      AheadStep(w, rest, post, a);
      if rest[0].tag >= 0x100 { FirstCopies(Next(w, rest[0], a), rest[1..], post, a); }
    }
  }

  lemma ValueRead(w: Cursor, rest: seq<Tlv>, post: seq<byte>, a: Antenna)
    requires Ahead(w, rest, post) && rest != [] && rest[0].tag < 0x100 && rest[0].value != []
    requires (rest[0].tag == 0x13 ==> 0 <= w.prev) && a.defined && a.pairs == 0
    ensures var r, n := Replaced(w, rest[0], a).value, Next(w, rest[0], a);
      0 <= n.prev < |n.s| && n.s[n.prev] == if rest[0].tag == 0xA4 && |r| == 2 then r[1] else r[0]
  {
    AheadStep(w, rest, post, a);
    var e := Encode(rest[0]);
    assert e[2] == w.s[w.index..w.index + |e|][2];
  }

  /** Its AoA value is then a copy: of the first byte of the value in front of it, before that was changed. */
  lemma {:induction false} AoaCopiesPrevious(w: Cursor, rest: seq<Tlv>, post: seq<byte>, a: Antenna, j: nat)
    requires Ahead(w, rest, post) && (w.prev >= 0 || AoaNotFirst(rest)) && a.defined && a.pairs == 0
    requires var r := Rewritten(w, rest, a);
      j + 1 < |r| && r[j + 1].tag == 0x13 && |r[j + 1].value| == 1 && r[j].value != []
    ensures var r := Rewritten(w, rest, a);
      r[j + 1].value[0] == if r[j].tag == 0xA4 && |r[j].value| == 2 then r[j].value[1] else r[j].value[0]
    decreases |rest|
  {
    AheadStep(w, rest, post, a);
    if rest[0].tag >= 0x100 {
      AoaCopiesPrevious(Next(w, rest[0], a), rest[1..], post, a, j);
    } else if j > 0 {
      AoaCopiesPrevious(Next(w, rest[0], a), rest[1..], post, a, j - 1);
    } else {
      ValueRead(w, rest, post, a);
      FirstCopies(Next(w, rest[0], a), rest[1..], post, a);
    }
  }

  /** `j` is the next AoA TLV behind `k`, with nothing but vendor TLVs in between. */
  predicate ComesNext(ts: seq<Tlv>, k: nat, j: nat) {
    k < j < |ts| && ts[j].tag == 0x13 && forall i :: k < i < j ==> ts[i].tag >= 0x100
  }

  /** What becomes of the received packet otherwise: a value with an AoA TLV next tells the antennas in its first
      byte, and keeps the others. */
  lemma AoaStampsPrevious(ts: seq<Tlv>, a: Antenna, k: nat, j: nat)
    requires ComesNext(ts, k, j) && ts[k].tag < 0x100 && ts[k].tag != 0x13 && ts[k].value != [] && (a.defined ==> a.pairs > 0)
    ensures var v := Stamped(ts, a)[k].value; v[1..] == ts[k].value[1..] && TellsAntennas(v[0], a)
  {
    StampedAt(ts, k, a);
    AoaNextIff(ts, k);
  }

  /** All others stay: AoA and vendor TLVs themselves, and values without an AoA TLV next. */
  lemma OthersStay(ts: seq<Tlv>, a: Antenna, k: nat)
    requires k < |ts| && (ts[k].tag >= 0x100 || ts[k].tag == 0x13 || forall j :: !ComesNext(ts, k, j))
    ensures Stamped(ts, a)[k] == ts[k]
  {
    StampedAt(ts, k, a);
    AoaNextIff(ts, k);
  }

  lemma {:induction false} ValueInFront(ts: seq<Tlv>, k: nat)
    requires Stampable(ts) && k < |ts| && ts[k].tag < 0x100 && ts[k].tag != 0x13 && AoaNext(ts[k + 1..])
    ensures ts[k].value != []
  {
    if k > 0 {
      assert ts[1..][k..] == ts[k + 1..];
      ValueInFront(ts[1..], k - 1);
    }
  }

  lemma {:induction false} AoaNextIff(ts: seq<Tlv>, k: nat)
    requires k < |ts|
    ensures AoaNext(ts[k + 1..]) <==> exists j :: ComesNext(ts, k, j)
    decreases |ts| - k
  {
    var more := ts[k + 1..];
    if more != [] {
      assert more[0] == ts[k + 1] && more[1..] == ts[k + 2..];
      if more[0].tag >= 0x100 {
        var next := k + 1;
        AoaNextIff(ts, next);
        if j :| ComesNext(ts, next, j) { assert ComesNext(ts, k, j); }
        if j :| ComesNext(ts, k, j) { assert ComesNext(ts, next, j); }
      } else if more[0].tag == 0x13 {
        assert ComesNext(ts, k, k + 1);
      }
    }
  }

  // ----- The loop

  /** The AoA value is written over the byte at `prev`. */
  method StampPrev(data: array<byte>, prev: nat, a: Antenna, ghost t: Tlv)
    requires t.tag == TAG_AOA && prev < data.Length
    modifies data
    ensures data[..] == AfterOne(old(data[..]), prev, t, a)
  {
    if a.defined {
      if a.pairs == 1 {
        data[prev] := 1;
      } else if a.pairs > 1 {
        data[prev] := 5;
      }
    } else {
      data[prev] := 0;
    }
  }

  /** Tag, length and value go to the output. */
  method WriteOne(data: array<byte>, tag: byte, len: byte, value: nat, out: array<byte>, pp0: nat, ghost done: seq<byte>)
    returns (pp: nat)
    requires data != out && value + len as int <= data.Length && value < data.Length && 0 < value
    requires pp0 == |done| && pp0 + len as int + 4 <= out.Length && out[..pp0] == done
    modifies out
    ensures pp <= out.Length
    ensures out[..pp] == done +
      if tag == TAG_CCC_VERSIONS then [tag, len, data[value + len as int - 1], data[value]]
      else [tag, len] + data[value..value + len as int]
  {
    out[pp0], out[pp0 + 1] := tag, len;
    pp := pp0 + 2;
    if tag == TAG_CCC_VERSIONS {
      out[pp], out[pp + 1] := data[value + len as int - 1], data[value];
      pp := pp + 2;
    } else {
      CopyBytes(data, value, out, pp, len);
      pp := pp + len as int;
    }
  }

  /** One TLV with a one-byte tag. */
  method RewriteOne(data: array<byte>, index0: nat, prev0: int, out: array<byte>, pp0: nat, a: Antenna,
                    ghost w: Cursor, ghost t: Tlv, ghost done: seq<byte>)
    returns (index: nat, prev: int, pp: nat)
    requires data != out && w == Cursor(data[..], index0, prev0) && t.tag < 0x100 && |t.value| < 0x100
    requires (t.tag == TAG_AOA ==> 0 < prev0) && prev0 <= index0
    requires index0 + |Encode(t)| < data.Length && data[index0..index0 + |Encode(t)|] == Encode(t)
    requires pp0 == |done| && pp0 + |Encode(t)| + 2 <= out.Length && out[..pp0] == done
    modifies data, out
    ensures Cursor(data[..], index, prev) == Next(w, t, a)
    ensures pp <= out.Length && out[..pp] == done + Out(w, t, a)
  {
    index, prev := index0, prev0;
    HeadBytes(data[..], index0, t);
    var tag, len := data[index], data[index + 1];
    index := index + 2;
    if tag == TAG_AOA {
      StampPrev(data, prev, a, t);
    } else {
      prev := index;
    }
    pp := WriteOne(data, tag, len, prev, out, pp0, done);
    index := index + len as int;
  }

  /** What the reader sees at `index`, where `t` begins. */
  lemma HeadBytes(d: seq<byte>, index: nat, t: Tlv)
    requires |t.value| < 0x100 && index + |Encode(t)| <= |d| && d[index..index + |Encode(t)|] == Encode(t)
    ensures d[index] == TagBytes(t.tag)[0]
    ensures t.tag < 0x100 ==> d[index + 1] == |t.value|
    ensures t.tag >= 0x100 ==> d[index + 2] == |t.value|
  {
    var e := d[index..index + |Encode(t)|];
    assert d[index] == e[0] && d[index + 1] == e[1] && (t.tag >= 0x100 ==> d[index + 2] == e[2]);
  }

  /** A vendor TLV is passed over, and counted out. */
  method SkipOne(data: array<byte>, dataLen: word, index0: nat, capsLen0: byte, bodyLen0: byte, ghost t: Tlv)
    returns (index: nat, capsLen: byte, bodyLen: byte)
    requires t.tag >= 0x100 && |t.value| < 0x100 && index0 + |Encode(t)| <= dataLen <= data.Length
    requires data[index0 + 2] == |t.value| && 1 <= capsLen0 && |Encode(t)| <= bodyLen0
    ensures index == index0 + |Encode(t)| && capsLen == capsLen0 - 1 && bodyLen == bodyLen0 - |Encode(t)|
  {
    index, capsLen, bodyLen := index0 + 1, capsLen0, bodyLen0;
    if index + 1 >= dataLen { return; }
    index := index + 1;
    if index + 1 > dataLen { return; }
    var len := data[index];
    index := index + 1 + len as int;
    capsLen := capsLen - 1;
    bodyLen := bodyLen - (len + 3);
  }

  /** What stays the same from turn to turn: what will have been written in the end, what will have become
      of the receive buffer, and what the counters will have come to. */
  datatype Goal = Goal(all: seq<byte>, end: seq<byte>, kept: nat, size: nat)

  function GoalAt(w: Cursor, rest: seq<Tlv>, a: Antenna, done: seq<byte>, capsLen: int, bodyLen: int): Goal
    requires Sized(rest) && w.prev <= w.index && w.index + |EncodeAll(rest)| < |w.s|
    requires capsLen >= |rest| && bodyLen >= DroppedBytes(rest)
  {
    Goal(done + Emitted(w, rest, a), Overwritten(w, rest, a), capsLen - |rest| + Kept(rest), bodyLen - DroppedBytes(rest))
  }

  /** Where the loop stands in front of `rest`, `done` having been written. */
  ghost predicate Progress(w: Cursor, rest: seq<Tlv>, post: seq<byte>, a: Antenna, g: Goal, done: seq<byte>, capsLen: int, bodyLen: int)
  {
    && AllWellFormed(rest, Vendor) && Ahead(w, rest, post) && post != []
    && w.prev != 0 && (w.prev > 0 || AoaNotFirst(rest)) && BODY <= w.index
    && capsLen >= |rest| && bodyLen >= DroppedBytes(rest) && g == GoalAt(w, rest, a, done, capsLen, bodyLen)
  }

  lemma BodyIn(d: seq<byte>, dataLen: nat, body: seq<byte>)
    requires BODY <= dataLen < |d| && d[..dataLen][BODY..] == body
    ensures BODY + |body| == dataLen && d[BODY..] == body + d[dataLen..] && d[dataLen..] != []
  {
    assert d[..dataLen][BODY..] == d[BODY..dataLen];
  }

  /** The loop begins at the first TLV, without a value position. */
  function Begin(d: seq<byte>): Cursor { Cursor(d, BODY, -1) }

  lemma Start(d: seq<byte>, dataLen: nat, ts: seq<Tlv>, a: Antenna)
    requires BODY <= dataLen < |d| && CarriesCaps(d[..dataLen], ts, Vendor) && AoaNotFirst(ts)
    ensures DroppedBytes(ts) + 2 <= d[3] && BODY + |EncodeAll(ts)| == dataLen
    ensures Progress(Begin(d), ts, d[dataLen..], a,
                     Goal(Emitted(Begin(d), ts, a), Overwritten(Begin(d), ts, a), Kept(ts), d[3] - DroppedBytes(ts)), [], d[5], d[3])
  {
    BodyIn(d, dataLen, EncodeAll(ts));
    assert [] + Emitted(Begin(d), ts, a) == Emitted(Begin(d), ts, a);
  }

  lemma InFront(w: Cursor, rest: seq<Tlv>, post: seq<byte>, a: Antenna, g: Goal, done: seq<byte>, capsLen: int, bodyLen: int)
    requires Progress(w, rest, post, a, g, done, capsLen, bodyLen) && rest != []
    ensures var t, n := rest[0], |Encode(rest[0])|;
      && w.index + n + |post| <= |w.s| && w.s[w.index..w.index + n] == Encode(t) && |done| <= |g.all|
      && (Vendor.Lead(w.s[w.index]) <==> t.tag >= 0x100) && (t.tag >= 0x100 ==> w.s[w.index + 2] == |t.value|)
  {
    AheadStep(w, rest, post, a);
    HeadBytes(w.s, w.index, rest[0]);
  }

  lemma AfterKept(w: Cursor, rest: seq<Tlv>, post: seq<byte>, a: Antenna, g: Goal, done: seq<byte>, capsLen: int, bodyLen: int)
    requires Progress(w, rest, post, a, g, done, capsLen, bodyLen) && rest != [] && rest[0].tag < 0x100
    ensures w.prev <= w.index && w.index + |Encode(rest[0])| < |w.s|
    ensures Progress(Next(w, rest[0], a), rest[1..], post, a, g, done + Out(w, rest[0], a), capsLen, bodyLen)
  {
    AheadStep(w, rest, post, a);
    Regroup(done, Out(w, rest[0], a), Emitted(Next(w, rest[0], a), rest[1..], a));
  }

  lemma AfterDropped(w: Cursor, rest: seq<Tlv>, post: seq<byte>, a: Antenna, g: Goal, done: seq<byte>, capsLen: int, bodyLen: int)
    requires Progress(w, rest, post, a, g, done, capsLen, bodyLen) && rest != [] && rest[0].tag >= 0x100
    ensures var n := |Encode(rest[0])|;
      && Progress(Next(w, rest[0], a), rest[1..], post, a, g, done, capsLen - 1, bodyLen - n)
      && Next(w, rest[0], a) == Cursor(w.s, w.index + n, w.prev) && 1 <= capsLen && n <= bodyLen
  {
    AheadStep(w, rest, post, a);
    NothingOut(w, rest, a);
  }

  lemma NothingOut(w: Cursor, rest: seq<Tlv>, a: Antenna)
    requires Sized(rest) && w.prev <= w.index && w.index + |EncodeAll(rest)| < |w.s| && rest != [] && rest[0].tag >= 0x100
    ensures Emitted(w, rest, a) == Emitted(Next(w, rest[0], a), rest[1..], a)
    ensures Next(w, rest[0], a) == Cursor(w.s, w.index + |Encode(rest[0])|, w.prev)
  {
    assert [] + Emitted(Next(w, rest[0], a), rest[1..], a) == Emitted(Next(w, rest[0], a), rest[1..], a);
  }

  lemma KeptReady(w: Cursor, rest: seq<Tlv>, post: seq<byte>, a: Antenna, g: Goal, done: seq<byte>, capsLen: int, bodyLen: int)
    requires Progress(w, rest, post, a, g, done, capsLen, bodyLen) && rest != [] && rest[0].tag < 0x100
    ensures var n := |Encode(rest[0])|;
      && w.prev <= w.index && (rest[0].tag == TAG_AOA ==> 0 < w.prev)
      && w.index + n < |w.s| && w.s[w.index..w.index + n] == Encode(rest[0])
      && |done| <= |g.all| && n + |post| <= |w.s|
    ensures Progress(Next(w, rest[0], a), rest[1..], post, a, g, done + Out(w, rest[0], a), capsLen, bodyLen)
  {
    InFront(w, rest, post, a, g, done, capsLen, bodyLen);
    AfterKept(w, rest, post, a, g, done, capsLen, bodyLen);
  }

  method KeptTurn(data: array<byte>, dataLen: word, index0: nat, prev0: int, out: array<byte>, pp0: nat, a: Antenna,
                  ghost w: Cursor, ghost rest: seq<Tlv>, ghost post: seq<byte>, ghost g: Goal, ghost done0: seq<byte>,
                  ghost capsLen: byte, ghost bodyLen: byte)
    returns (index: nat, prev: int, pp: nat, ghost done: seq<byte>)
    requires data != out && dataLen < data.Length && |post| == data.Length - dataLen && rest != [] && rest[0].tag < 0x100
    requires w == Cursor(data[..], index0, prev0) && Progress(w, rest, post, a, g, done0, capsLen, bodyLen)
    requires pp0 == |done0| && |g.all| + dataLen + 2 <= out.Length && out[..pp0] == done0
    modifies data, out
    ensures Cursor(data[..], index, prev) == Next(w, rest[0], a)
    ensures Progress(Next(w, rest[0], a), rest[1..], post, a, g, done, capsLen, bodyLen)
    ensures pp == |done| <= out.Length && out[..pp] == done
  {
    KeptReady(w, rest, post, a, g, done0, capsLen, bodyLen);
    index, prev, pp := RewriteOne(data, index0, prev0, out, pp0, a, w, rest[0], done0);
    done := done0 + Out(w, rest[0], a);
  }

  /** One turn of the loop. */
  method Turn(data: array<byte>, dataLen: word, index0: nat, prev0: int, out: array<byte>, pp0: nat,
              capsLen0: byte, bodyLen0: byte, a: Antenna,
              ghost w: Cursor, ghost rest: seq<Tlv>, ghost post: seq<byte>, ghost g: Goal, ghost done0: seq<byte>)
    returns (index: nat, prev: int, pp: nat, capsLen: byte, bodyLen: byte, ghost done: seq<byte>)
    requires data != out && dataLen < data.Length && |post| == data.Length - dataLen && rest != []
    requires w == Cursor(data[..], index0, prev0) && Progress(w, rest, post, a, g, done0, capsLen0, bodyLen0)
    requires pp0 == |done0| && |g.all| + dataLen + 2 <= out.Length && out[..pp0] == done0
    modifies data, out
    ensures Cursor(data[..], index, prev) == Next(w, rest[0], a)
    ensures Progress(Next(w, rest[0], a), rest[1..], post, a, g, done, capsLen, bodyLen)
    ensures pp == |done| <= out.Length && out[..pp] == done
  {
    InFront(w, rest, post, a, g, done0, capsLen0, bodyLen0);
    index, prev, pp, capsLen, bodyLen, done := index0, prev0, pp0, capsLen0, bodyLen0, done0;
    var tagId := data[index];
    if tagId != 0xE0 && tagId != 0xE3 {
      index, prev, pp, done := KeptTurn(data, dataLen, index, prev, out, pp, a, w, rest, post, g, done, capsLen, bodyLen);
    } else {
      AfterDropped(w, rest, post, a, g, done0, capsLen0, bodyLen0);
      index, capsLen, bodyLen := SkipOne(data, dataLen, index, capsLen, bodyLen, rest[0]);
    }
  }

  /** The loop ends exactly when nothing is ahead, and then has reached its goal. */
  lemma AtEnd(w: Cursor, rest: seq<Tlv>, post: seq<byte>, a: Antenna, g: Goal, done: seq<byte>, capsLen: int, bodyLen: int)
    requires Progress(w, rest, post, a, g, done, capsLen, bodyLen)
    ensures w.index + |post| < |w.s| <==> rest != []
    ensures rest == [] ==> g == Goal(done, w.s, capsLen, bodyLen)
  {
    assert |w.s[w.index..]| == |EncodeAll(rest)| + |post|;
    assert done + [] == done;
  }

  /** The loop over the received TLVs. */
  method RewriteAll(data: array<byte>, dataLen: word, out: array<byte>, a: Antenna, ghost ts: seq<Tlv>)
    returns (pp: nat, capsLen: byte, bodyLen: byte)
    requires data != out && BODY <= dataLen < data.Length && out.Length >= MAX_DATA_LEN
    requires CarriesCaps(data[..dataLen], ts, Vendor) && AoaNotFirst(ts)
    modifies data, out
    ensures BODY + |EncodeAll(ts)| == dataLen && pp <= out.Length && out[..pp] == Emitted(Begin(old(data[..])), ts, a)
    ensures capsLen == Kept(ts) && DroppedBytes(ts) + 2 <= old(data[3]) && bodyLen == old(data[3]) - DroppedBytes(ts)
    ensures data[..] == Overwritten(Begin(old(data[..])), ts, a)
  {
    ghost var w, post := Begin(data[..]), data[dataLen..];
    Start(data[..], dataLen, ts, a);
    ghost var g := Goal(Emitted(w, ts, a), Overwritten(w, ts, a), Kept(ts), data[3] - DroppedBytes(ts));
    ghost var rest, done := ts, [];
    var index: nat, prev: int := BODY, -1;
    pp, capsLen, bodyLen := 0, data[5], data[3];
    AtEnd(w, rest, post, a, g, done, capsLen, bodyLen);
    while index < dataLen
      invariant index < dataLen <==> rest != []
      invariant rest == [] ==> g == Goal(done, data[..], capsLen, bodyLen)
      invariant w == Cursor(data[..], index, prev) && Progress(w, rest, post, a, g, done, capsLen, bodyLen)
      invariant pp == |done| <= out.Length && out[..pp] == done
      decreases |rest|
    {
      index, prev, pp, capsLen, bodyLen, done :=
        Turn(data, dataLen, index, prev, out, pp, capsLen, bodyLen, a, w, rest, post, g, done);
      w, rest := Next(w, rest[0], a), rest[1..];
      AtEnd(w, rest, post, a, g, done, capsLen, bodyLen);
    }
  }

  lemma PastFirst(s: seq<byte>, index: nat, rest: seq<Tlv>)
    requires index < |s| && AllWellFormed(rest, OneByte) && s[index..] == EncodeAll(rest)
    ensures rest != [] && index + 1 < |s|
    ensures var next := index + 2 + s[index + 1] as int; next <= |s| && s[next..] == EncodeAll(rest[1..])
  {
    Front(rest[0], EncodeAll(rest[1..]));
    assert s[index + 1] == s[index..][1];
    assert s[index..][|Encode(rest[0])|..] == s[index + |Encode(rest[0])|..];
  }

  /** The number of configured capabilities, counted by walking their heads. */
  method CountParams(vendor: seq<byte>, ghost vts: seq<Tlv>) returns (n: nat)
    requires AllWellFormed(vts, OneByte) && vendor == EncodeAll(vts) && vendor != []
    ensures n == |vts|
  {
    var index := 0;
    ghost var rest := vts;
    n := 0;
    while true
      invariant 0 <= index < |vendor| && AllWellFormed(rest, OneByte) && vendor[index..] == EncodeAll(rest)
      invariant n + |rest| == |vts|
      decreases |vendor| - index
    {
      PastFirst(vendor, index, rest);
      index := index + 2 + vendor[index + 1] as int;
      n := n + 1;
      rest := rest[1..];
      if index >= |vendor| { break; }
    }
    assert rest == [];
  }

  method WritePacket(data: array<byte>, out: array<byte>, bodyLen: byte, count: byte)
    requires data != out && bodyLen as int <= out.Length && BODY + bodyLen as int <= data.Length
    modifies data
    ensures data[0] == 0x40 && data[1] == 3 && data[2] == 0 && data[3] == bodyLen && data[4] == 0 && data[5] == count
    ensures forall k :: BODY <= k < BODY + bodyLen as int ==> data[k] == out[k - BODY]
  {
    data[0], data[1], data[2], data[3], data[4], data[5] := 0x40, 0x03, 0, bodyLen, 0, count;
    CopyBytes(out, 0, data, BODY, bodyLen);
  }

  /** The rebuilt packet. */
  function Rebuilt(r: seq<Tlv>): seq<byte>
    requires Sized(r)
  {
    [0x40, 3, 0, Wrap8(|EncodeAll(r)| + 2), 0, Wrap8(|r|)] + EncodeAll(r)
  }

  /** Appends the configured capabilities and rebuilds the packet, of which `bodyLen` says how long it is
      meant to be. */
  method Rebuild(data: array<byte>, out: array<byte>, pp: nat, capsLen: byte, bodyLen0: byte, vendor: seq<byte>,
                 ghost kept: seq<Tlv>, ghost vts: seq<Tlv>, ghost fits: bool)
    returns (rxLen: word)
    requires data != out && data.Length >= MAX_DATA_LEN && pp + |vendor| + 0x200 <= out.Length && vendor != []
    requires AllWellFormed(vts, OneByte) && vendor == EncodeAll(vts) && Sized(kept)
    requires fits ==>
      out[..pp] == EncodeAll(kept) && capsLen == |kept| && bodyLen0 == pp + 2 && pp + |vendor| + 2 < 0x100
    modifies data, out
    ensures rxLen == HEADER_SIZE + Wrap8(bodyLen0 as int + |vendor|) as int
    ensures Sized(kept + vts) && (fits ==> data[..rxLen] == Rebuilt(kept + vts))
  {
    ghost var before := out[..pp];
    forall k | 0 <= k < |vendor| { out[pp + k] := vendor[k]; }
    var bodyLen := Wrap8(bodyLen0 as int + |vendor|);
    var n := CountParams(vendor, vts);
    rxLen := HEADER_SIZE + bodyLen as int;
    assert out[..pp + |vendor|] == before + vendor;
    WritePacket(data, out, bodyLen, Wrap8(capsLen as int + n));
    EncodeConcat(kept, vts);
    if fits {
      Assembled(data[..rxLen], out[..], pp + |vendor|, Wrap8(|kept + vts|));
    }
  }

  lemma Assembled(packet: seq<byte>, out: seq<byte>, n: nat, count: byte)
    requires n <= |out| && |packet| == BODY + n && n + 2 < 0x100
    requires packet[0] == 0x40 && packet[1] == 3 && packet[2] == 0 && packet[3] == n + 2 && packet[4] == 0 && packet[5] == count
    requires forall k :: BODY <= k < BODY + n ==> packet[k] == out[k - BODY]
    ensures packet == [0x40, 3, 0, Wrap8(n + 2), 0, count] + out[..n]
  {
    var body := packet[BODY..];
    assert body == out[..n] by { assert forall k :: 0 <= k < n ==> body[k] == packet[k + BODY]; }
    assert packet[..BODY] == [0x40, 3, 0, Wrap8(n + 2), 0, count] && packet == packet[..BODY] + body;
  }

  lemma RebuiltCarries(r: seq<Tlv>, ext: TagStyle)
    requires AllWellFormed(r, ext) && |EncodeAll(r)| + 2 < 0x100
    ensures CarriesCaps(Rebuilt(r), r, ext)
  {
    assert Rebuilt(r)[BODY..] == EncodeAll(r);
  }

  lemma LengthByte(d: seq<byte>, dataLen: nat, ts: seq<Tlv>)
    requires BODY <= dataLen <= |d| && CarriesCaps(d[..dataLen], ts, Vendor)
    ensures d[3] == dataLen - HEADER_SIZE
  {
    assert d[..dataLen][3] == d[3];
  }

  /** The configured capabilities behind what the loop has written for the packet `d`. */
  method AppendVendor(data: array<byte>, dataLen: word, out: array<byte>, pp: nat, capsLen: byte, bodyLen: byte, vendor: seq<byte>,
                      a: Antenna, ghost d: seq<byte>, ghost ts: seq<Tlv>, ghost vts: seq<Tlv>)
    returns (rxLen: word)
    requires data != out && data.Length >= MAX_DATA_LEN && out.Length == MAX_DATA_LEN && BODY <= dataLen < |d|
    requires CarriesCaps(d[..dataLen], ts, Vendor) && AoaNotFirst(ts) && BODY + |EncodeAll(ts)| == dataLen
    requires AllWellFormed(vts, OneByte) && vendor == EncodeAll(vts) && vendor != [] && |vendor| <= MAX_CONFIG_LEN
    requires pp <= 0x200 && out[..pp] == Emitted(Begin(d), ts, a) && capsLen == Kept(ts)
    requires bodyLen as int == d[3] as int - DroppedBytes(ts)
    modifies data, out
    ensures rxLen == HEADER_SIZE + Wrap8(dataLen - HEADER_SIZE - DroppedBytes(ts) + |vendor|) as int
    ensures var r := Rewritten(Begin(d), ts, a) + vts;
      VersionsArePairs(ts) && |EncodeAll(r)| + 2 < 0x100 ==> data[..rxLen] == Rebuilt(r)
  {
    ghost var kept := Rewritten(Begin(d), ts, a);
    KeptIsEncoded(d, dataLen, ts, vts, a);
    LengthByte(d, dataLen, ts);
    rxLen := Rebuild(data, out, pp, capsLen, bodyLen, vendor, kept, vts, VersionsArePairs(ts) && |EncodeAll(kept + vts)| + 2 < 0x100);
  }

  /** The rewriting of a successful response. */
  method RewriteCaps(data: array<byte>, dataLen: word, vendor: seq<byte>, a: Antenna, ghost ts: seq<Tlv>, ghost vts: seq<Tlv>)
    returns (rxLen: word)
    requires BODY <= dataLen < data.Length && MAX_DATA_LEN <= data.Length
    requires CarriesCaps(data[..dataLen], ts, Vendor) && AoaNotFirst(ts)
    requires AllWellFormed(vts, OneByte) && vendor == EncodeAll(vts) && |vendor| <= MAX_CONFIG_LEN
    modifies data
    ensures vendor == [] ==> rxLen == dataLen && data[..] == Overwritten(Begin(old(data[..])), ts, a)
    ensures vendor != [] ==>
      var r := Rewritten(Begin(old(data[..])), ts, a) + vts;
      && rxLen == HEADER_SIZE + Wrap8(dataLen - HEADER_SIZE - DroppedBytes(ts) + |vendor|) as int
      && (VersionsArePairs(ts) && |EncodeAll(r)| + 2 < 0x100 ==> data[..rxLen] == Rebuilt(r))
  {
    rxLen := dataLen;
    var out := new byte[MAX_DATA_LEN];
    ghost var d := data[..];
    var pp, capsLen, bodyLen;
    pp, capsLen, bodyLen := RewriteAll(data, dataLen, out, a, ts);
    if vendor == [] { return; }
    rxLen := AppendVendor(data, dataLen, out, pp, capsLen, bodyLen, vendor, a, d, ts, vts);
  }

  /** The whole function, for well-formed successful responses. With vendor capabilities configured the
      packet becomes one that carries the rewritten TLVs followed by the configured ones; this needs CCC
      versions of two bytes and a result that fits the length byte. Without configured capabilities nothing
      is rebuilt, but the received packet is written to. */
  method ParseGetCapsInfo(data: array<byte>, dataLen: word, vendor: seq<byte>, a: Antenna,
                          ghost ts: seq<Tlv>, ghost vts: seq<Tlv>)
    returns (rxLen: word)
    requires BODY <= dataLen <= data.Length && MAX_DATA_LEN <= data.Length
    requires IsCapsResponse(data[..dataLen]) && data[4] == 0 ==> CarriesCaps(data[..dataLen], ts, Vendor) && AoaNotFirst(ts)
    requires AllWellFormed(vts, OneByte) && vendor == EncodeAll(vts) && |vendor| <= MAX_CONFIG_LEN
    modifies data
    ensures !(IsCapsResponse(old(data[..dataLen])) && old(data[4]) == 0) ==> rxLen == dataLen && data[..] == old(data[..])
    ensures IsCapsResponse(old(data[..dataLen])) && old(data[4]) == 0 && vendor == [] ==>
      rxLen == dataLen && data[..] == Overwritten(Begin(old(data[..])), ts, a)
    ensures IsCapsResponse(old(data[..dataLen])) && old(data[4]) == 0 && vendor != [] ==>
      var r := Rewritten(Begin(old(data[..])), ts, a) + vts;
      && rxLen == HEADER_SIZE + Wrap8(dataLen - HEADER_SIZE - DroppedBytes(ts) + |vendor|) as int
      && (VersionsArePairs(ts) && |EncodeAll(r)| + 2 < 0x100 ==> data[..rxLen] == Rebuilt(r))
  {
    if MessageType(data[0]) != MT_RSP || Gid(data[0]) != 0 || Oid(data[1]) != 3 || data[4] != 0 { return dataLen; }
    assert data[..dataLen][3] == data[3] && data[3] == dataLen - HEADER_SIZE;
    rxLen := RewriteCaps(data, dataLen, vendor, a, ts, vts);
  }

  lemma KeptIsEncoded(d: seq<byte>, dataLen: nat, ts: seq<Tlv>, vts: seq<Tlv>, a: Antenna)
    requires BODY <= dataLen < |d| && CarriesCaps(d[..dataLen], ts, Vendor) && AoaNotFirst(ts) && Sized(vts)
    requires BODY + |EncodeAll(ts)| == dataLen
    ensures var kept := Rewritten(Begin(d), ts, a);
      && |EncodeAll(kept)| + DroppedBytes(ts) == |EncodeAll(ts)| && |EncodeAll(kept + vts)| == |EncodeAll(kept)| + |EncodeAll(vts)|
      && (VersionsArePairs(ts) ==> Emitted(Begin(d), ts, a) == EncodeAll(kept))
  {
    RewrittenSize(Begin(d), ts, a);
    EncodeConcat(Rewritten(Begin(d), ts, a), vts);
    if VersionsArePairs(ts) {
      BodyIn(d, dataLen, EncodeAll(ts));
      EmittedIsEncoded(Begin(d), ts, d[dataLen..], a);
    }
  }
}
