/** Tag-length-value lists as they travel in UCI payloads, and a reference decoder for them.
    The code reads tags in three slightly different ways, which differ only in the set of lead
    bytes that announce a two-byte tag; that is the parameter `ext`. */
module Tlv {
  import opened Bytes

  datatype Tlv = Tlv(tag: word, value: seq<byte>)

  /** Which lead bytes announce a two-byte tag: none; 0xE0 to 0xE2 (command filter, tag map); 0xE0
      and 0xE3 (first rewriting of the capability response). */
  datatype TagStyle = OneByte | Extended | Vendor {
    predicate Lead(b: int) {
      match this
      case OneByte => false
      case Extended => 0xE0 <= b <= 0xE2
      case Vendor => b == 0xE0 || b == 0xE3
    }
  }

  predicate WellFormed(t: Tlv, ext: TagStyle) {
    |t.value| < 0x100 && if t.tag < 0x100 then !ext.Lead(t.tag) else ext.Lead(t.tag / 0x100)
  }

  /** The tags each style knows. */
  lemma TagsOfStyle(tag: word)
    ensures WellFormed(Tlv(tag, []), OneByte) <==> tag < 0x100
    ensures WellFormed(Tlv(tag, []), Extended) <==> tag < 0xE0 || 0xE3 <= tag < 0x100 || 0xE000 <= tag < 0xE300
    ensures WellFormed(Tlv(tag, []), Vendor) <==>
      (tag < 0x100 && tag != 0xE0 && tag != 0xE3) || 0xE000 <= tag < 0xE100 || 0xE300 <= tag < 0xE400
  {
  }

  predicate AllWellFormed(ts: seq<Tlv>, ext: TagStyle) {
    forall i :: 0 <= i < |ts| ==> WellFormed(ts[i], ext)
  }

  lemma PartsWellFormed(a: seq<Tlv>, b: seq<Tlv>, ext: TagStyle)
    requires AllWellFormed(a + b, ext)
    ensures AllWellFormed(a, ext) && AllWellFormed(b, ext)
  {
    forall i | 0 <= i < |a| ensures WellFormed(a[i], ext) { assert (a + b)[i] == a[i]; }
    forall i | 0 <= i < |b| ensures WellFormed(b[i], ext) { assert (a + b)[|a| + i] == b[i]; }
  }

  /** Every value has a length that fits the length byte. */
  predicate Sized(ts: seq<Tlv>) {
    forall i :: 0 <= i < |ts| ==> |ts[i].value| < 0x100
  }

  function TagBytes(tag: word): seq<byte> {
    if tag < 0x100 then [tag] else [tag / 0x100, tag % 0x100]
  }

  function Encode(t: Tlv): (s: seq<byte>)
    requires |t.value| < 0x100
    ensures |s| == |TagBytes(t.tag)| + 1 + |t.value|
  {
    TagBytes(t.tag) + [|t.value|] + t.value
  }

  function EncodeAll(ts: seq<Tlv>): (s: seq<byte>)
    requires Sized(ts)
    ensures |s| >= 2 * |ts|
  {
    if ts == [] then [] else Encode(ts[0]) + EncodeAll(ts[1..])
  }

  /** The TLV at the front of `s`, if it is complete and canonical. */
  function First(s: seq<byte>, ext: TagStyle): (r: Option<Tlv>)
    ensures r.Some? ==> WellFormed(r.value, ext) && 0 < |Encode(r.value)| <= |s|
  {
    if s == [] then None
    else
      var h := if ext.Lead(s[0]) then 3 else 2;
      if |s| < h || |s| - h < s[h - 1] then None
      else
        var tag := if h == 3 then Le16(s[1], s[0]) else s[0];
        var n: nat := s[h - 1];
        Some(Tlv(tag, s[h..h + n]))
  }

  /** The reference decoder: the whole of `s` as a TLV list, or None. */
  function Decode(s: seq<byte>, ext: TagStyle): Option<seq<Tlv>> {
    if s == [] then Some([])
    else match First(s, ext)
      case None => None
      case Some(t) =>
        var d := Decode(s[|Encode(t)|..], ext);
        if d.Some? then Some([t] + d.value) else None
  }

  /** What a reader standing in front of TLV `t` sees. */
  lemma Front(t: Tlv, rest: seq<byte>)
    requires |t.value| < 0x100
    ensures
      var s, h := Encode(t) + rest, |TagBytes(t.tag)|;
      && s[0] == TagBytes(t.tag)[0] && (h == 2 ==> s[1] == t.tag % 0x100)
      && s[h] == |t.value| && s[h + 1..h + 1 + |t.value|] == t.value
    ensures (Encode(t) + rest)[|Encode(t)|..] == rest
  {
  }

  lemma FirstEncoded(t: Tlv, rest: seq<byte>, ext: TagStyle)
    requires WellFormed(t, ext)
    ensures First(Encode(t) + rest, ext) == Some(t)
  {
    Front(t, rest);
  }

  /** Decoding undoes encoding. */
  lemma {:induction false} DecodeEncode(ts: seq<Tlv>, ext: TagStyle)
    requires AllWellFormed(ts, ext)
    ensures Decode(EncodeAll(ts), ext) == Some(ts)
  {
    if ts != [] {
      DecodeEncode(ts[1..], ext);
      FirstEncoded(ts[0], EncodeAll(ts[1..]), ext);
      assert EncodeAll(ts)[|Encode(ts[0])|..] == EncodeAll(ts[1..]);
      assert [ts[0]] + ts[1..] == ts;
    }
  }

  /** And encoding undoes decoding: the decoder accepts encodings only. */
  lemma {:induction false} EncodeDecode(s: seq<byte>, ext: TagStyle)
    requires Decode(s, ext).Some?
    ensures AllWellFormed(Decode(s, ext).value, ext) && EncodeAll(Decode(s, ext).value) == s
    decreases |s|
  {
    if s != [] {
      var t := First(s, ext).value;
      EncodeFirst(s, ext);
      EncodeDecode(s[|Encode(t)|..], ext);
      EncodeCons(t, Decode(s[|Encode(t)|..], ext).value);
    }
  }

  lemma EncodeFirst(s: seq<byte>, ext: TagStyle)
    requires First(s, ext).Some?
    ensures var t := First(s, ext).value; Encode(t) + s[|Encode(t)|..] == s
  {
  }

  /** A complete list in front of other bytes is decoded first. */
  lemma DecodeFront(t: Tlv, rest: seq<byte>, ext: TagStyle)
    requires WellFormed(t, ext)
    ensures Decode(Encode(t) + rest, ext) ==
      match Decode(rest, ext) { case None => None case Some(more) => Some([t] + more) }
  {
    FirstEncoded(t, rest, ext);
    Front(t, rest);
  }

  lemma {:induction false} EncodeConcat(a: seq<Tlv>, b: seq<Tlv>)
    requires Sized(a) && Sized(b)
    ensures EncodeAll(a + b) == EncodeAll(a) + EncodeAll(b)
  {
    if a == [] {
      assert a + b == b;
    } else {
      assert (a + b)[1..] == a[1..] + b;
      EncodeConcat(a[1..], b);
    }
  }

  lemma EncodeCons(t: Tlv, rest: seq<Tlv>)
    requires |t.value| < 0x100 && Sized(rest)
    ensures Sized([t] + rest) && EncodeAll([t] + rest) == Encode(t) + EncodeAll(rest)
  {
    assert ([t] + rest)[1..] == rest;
  }

  /** The same bytes as one parameter with a two-byte tag and `more` behind it, or as one with a one-byte
      tag, whose length is then the second tag byte. */
  lemma SameBytes(tag: word, v: seq<byte>, more: seq<byte>)
    requires tag >= 0x100 && tag % 0x100 == 1 + |v| + |more|
    ensures Encode(Tlv(tag, v)) + more == Encode(Tlv(tag / 0x100, [|v|] + v + more))
  {
    var low: byte := tag % 0x100;
    assert TagBytes(tag) == [tag / 0x100] + [low];
    RegroupHead([tag / 0x100], [low], [|v|], v, more);
  }

  lemma RegroupHead(a: seq<byte>, b: seq<byte>, c: seq<byte>, v: seq<byte>, more: seq<byte>)
    ensures a + b + c + v + more == a + b + (c + v + more)
  {
  }

  /** So a two-byte tag in front of other parameters can be read as one parameter that swallows them. */
  lemma OneByteReading(tag: word, v: seq<byte>, rest: seq<Tlv>)
    requires Sized(rest) && tag >= 0x100 && tag % 0x100 == 1 + |v| + |EncodeAll(rest)|
    ensures Sized([Tlv(tag, v)] + rest)
    ensures EncodeAll([Tlv(tag, v)] + rest) == EncodeAll([Tlv(tag / 0x100, [|v|] + v + EncodeAll(rest))])
  {
    SameBytes(tag, v, EncodeAll(rest));
    EncodeCons(Tlv(tag, v), rest);
    EncodeAlone(Tlv(tag / 0x100, [|v|] + v + EncodeAll(rest)));
  }

  lemma EncodeAlone(t: Tlv)
    requires |t.value| < 0x100
    ensures EncodeAll([t]) == Encode(t)
  {
    assert [t][1..] == [] && Encode(t) + [] == Encode(t);
  }
}
