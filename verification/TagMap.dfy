/** The ordered tag maps of get_input_map and get_conf_map (uwb/halimpl/utils/phNxpUciHal_utils.cc:25-26,
    511-611): a std::map from tag to the length byte followed by the value, kept as a list in key order. */
module TagMap {
  import opened Bytes
  import opened Tlv

  datatype Entry = Entry(tag: word, vec: seq<byte>)
  type TagMap = seq<Entry>

  predicate Sorted(m: TagMap) {
    forall i, j :: 0 <= i < j < |m| ==> m[i].tag < m[j].tag
  }

  /** `m[tag] = vec`. */
  function Put(m: TagMap, tag: word, vec: seq<byte>): TagMap {
    if m == [] || tag < m[0].tag then [Entry(tag, vec)] + m
    else if tag == m[0].tag then [Entry(tag, vec)] + m[1..]
    else [m[0]] + Put(m[1..], tag, vec)
  }

  function Lookup(m: TagMap, tag: word): Option<seq<byte>> {
    if m == [] then None else if m[0].tag == tag then Some(m[0].vec) else Lookup(m[1..], tag)
  }

  lemma {:induction false} PutIsUpdate(m: TagMap, tag: word, vec: seq<byte>, key: word)
    requires Sorted(m)
    ensures Lookup(Put(m, tag, vec), key) == if key == tag then Some(vec) else Lookup(m, key)
  {
    if m != [] && tag > m[0].tag {
      PutIsUpdate(m[1..], tag, vec, key);
      assert Put(m, tag, vec)[1..] == Put(m[1..], tag, vec);
    } else {
      assert ([Entry(tag, vec)] + m)[1..] == m;
      if m != [] && tag == m[0].tag {
        assert ([Entry(tag, vec)] + m[1..])[1..] == m[1..];
      }
    }
  }

  lemma {:induction false} PutSorted(m: TagMap, tag: word, vec: seq<byte>)
    requires Sorted(m)
    ensures Sorted(Put(m, tag, vec))
    ensures var r := Put(m, tag, vec);
      r != [] && (r[0].tag == tag || (m != [] && r[0].tag == m[0].tag && m[0].tag < tag))
  {
    if m != [] && tag > m[0].tag {
      PutSorted(m[1..], tag, vec);
      var r := Put(m[1..], tag, vec);
      assert forall j :: 0 <= j < |r| ==> r[0].tag <= r[j].tag;
    }
  }

  /** Bytes the entry takes when printed. */
  function Cost(e: Entry): nat { |TagBytes(e.tag)| + |e.vec| }

  function Size(m: TagMap): nat {
    if m == [] then 0 else Cost(m[0]) + Size(m[1..])
  }

  /** A new tag adds one entry and its bytes; a known one replaces its entry. */
  lemma {:induction false} PutSize(m: TagMap, tag: word, vec: seq<byte>)
    requires Sorted(m)
    ensures Lookup(m, tag).None? ==>
      |Put(m, tag, vec)| == |m| + 1 && Size(Put(m, tag, vec)) == Size(m) + Cost(Entry(tag, vec))
    ensures Lookup(m, tag).Some? ==>
      |Put(m, tag, vec)| == |m| && Size(Put(m, tag, vec)) <= Size(m) + Cost(Entry(tag, vec))
  {
    if m != [] && tag > m[0].tag {
      PutSize(m[1..], tag, vec);
      assert Put(m, tag, vec)[1..] == Put(m[1..], tag, vec);
    } else {
      if m != [] && tag < m[0].tag { AbsentBelow(m, tag); }
      assert ([Entry(tag, vec)] + m)[1..] == m;
      if m != [] { assert ([Entry(tag, vec)] + m[1..])[1..] == m[1..]; }
    }
  }

  lemma {:induction false} AbsentBelow(m: TagMap, tag: word)
    requires Sorted(m) && (m != [] ==> tag < m[0].tag)
    ensures Lookup(m, tag).None?
  {
    if m != [] { AbsentBelow(m[1..], tag); }
  }

  /** Entries as the parsers make them: a length byte that counts the value, and a tag that prints
      the way it was read. */
  predicate Proper(m: TagMap) {
    forall i :: 0 <= i < |m| ==> ProperEntry(m[i])
  }

  predicate ProperEntry(e: Entry) {
    e.vec != [] && e.vec[0] == |e.vec| - 1 && WellFormed(Tlv(e.tag, e.vec[1..]), Extended)
  }

  lemma {:induction false} PutProper(m: TagMap, tag: word, vec: seq<byte>)
    requires Proper(m) && ProperEntry(Entry(tag, vec))
    ensures Proper(Put(m, tag, vec))
  {
    if m != [] && tag > m[0].tag { PutProper(m[1..], tag, vec); }
  }

  // ----- Parsing

  datatype Parsed = Parsed(ok: bool, m: TagMap)

  /** The entry at the front of `s`, if the code's checks let it pass. They demand a byte behind every
      length byte, so a last TLV without value is refused. */
  function ReadEntry(s: seq<byte>): (r: Option<Entry>)
    requires s != []
    ensures r.Some? ==> 0 < Cost(r.value) <= |s|
  {
    var h := if Extended.Lead(s[0]) then 2 else 1;
    if |s| <= h + 1 || |s| - h - 1 < s[h] then None
    else
      var n: nat := s[h];
      Some(Entry(if h == 2 then Le16(s[1], s[0]) else s[0], s[h..h + 1 + n]))
  }

  /** Both parsers: TLVs are put into `m` until the data ends or a check fails. */
  function ParseInto(m: TagMap, s: seq<byte>): Parsed
    decreases |s|
  {
    if s == [] then Parsed(true, m)
    else match ReadEntry(s)
      case None => Parsed(false, m)
      case Some(e) => ParseInto(Put(m, e.tag, e.vec), s[Cost(e)..])
  }

  /** The parser on `data[start..len]`. What was put before a failing check stays in the map. */
  method Parse(m0: TagMap, data: array<byte>, start: nat, len: word) returns (ok: bool, m: TagMap)
    requires start <= len <= data.Length
    ensures Parsed(ok, m) == ParseInto(m0, data[start..len])
  {
    m, ok := m0, true;
    var i := start;
    ghost var rest := data[start..len];
    while i < len
      invariant start <= i <= len && rest == data[i..len]
      invariant ParseInto(m, rest) == ParseInto(m0, data[start..len])
      decreases len - i
    {
      var fits, tag, vec, next := ParseOne(data, i, len, rest);
      if !fits { return false, m; }
      m := Put(m, tag, vec);
      rest := rest[next - i..];
      i := next;
    }
  }

  method ParseOne(data: array<byte>, start: nat, len: word, ghost s: seq<byte>)
    returns (fits: bool, tag: word, vec: seq<byte>, next: nat)
    requires start < len <= data.Length && s == data[start..len]
    ensures fits == ReadEntry(s).Some?
    ensures fits ==> ReadEntry(s).value == Entry(tag, vec) && next == start + Cost(Entry(tag, vec))
  {
    var i := start;
    fits, vec, next, tag := false, [], start, data[i];
    if i + 1 >= len { return; }
    i := i + 1;
    if 0xE0 <= tag <= 0xE2 {
      if i + 1 >= len { return; }
      tag := Le16(data[i], tag);
      i := i + 1;
    }
    if i + 1 >= len { return; }
    var n: nat := data[i];
    assert n == s[i - start];
    vec := [data[i]];
    i := i + 1;
    if i + n > len { return; }
    for j := 0 to n
      invariant vec == s[i - 1 - start..i + j - start]
    {
      assert data[i + j] == s[i + j - start];
      vec := vec + [data[i + j]];
    }
    fits, next := true, i + n;
  }

  function VecOf(t: Tlv): seq<byte>
    requires |t.value| < 0x100
  {
    [|t.value|] + t.value
  }

  function PutAll(m: TagMap, ts: seq<Tlv>): TagMap
    requires Sized(ts)
    decreases |ts|
  {
    if ts == [] then m else PutAll(Put(m, ts[0].tag, VecOf(ts[0])), ts[1..])
  }

  lemma ReadEncoded(t: Tlv, rest: seq<byte>)
    requires WellFormed(t, Extended)
    ensures ReadEntry(Encode(t) + rest) ==
      if t.value == [] && rest == [] then None else Some(Entry(t.tag, VecOf(t)))
  {
    var s, h := Encode(t) + rest, |TagBytes(t.tag)|;
    Front(t, rest);
    assert s[h..h + 1 + |t.value|] == VecOf(t);
  }

  lemma ParseFront(m: TagMap, t: Tlv, rest: seq<byte>)
    requires WellFormed(t, Extended) && (t.value != [] || rest != [])
    ensures ParseInto(m, Encode(t) + rest) == ParseInto(Put(m, t.tag, VecOf(t)), rest)
  {
    ReadEncoded(t, rest);
    assert (Encode(t) + rest)[|Encode(t)|..] == rest;
  }

  predicate EndsEmpty(ts: seq<Tlv>) { ts != [] && ts[|ts| - 1].value == [] }

  /** The parser reads what the reference decoder reads, except for an empty value at the very end. */
  lemma ReadsAsFirst(s: seq<byte>)
    requires s != []
    ensures match First(s, Extended)
      case None => ReadEntry(s).None?
      case Some(t) => ReadEntry(s) == if t.value == [] && |Encode(t)| == |s| then None else Some(Entry(t.tag, VecOf(t)))
  {
    var h := if Extended.Lead(s[0]) then 2 else 1;
    if |s| > h && |s| - h - 1 >= s[h] {
      assert s[h..h + 1 + s[h] as int] == [s[h]] + s[h + 1..h + 1 + s[h] as int];
    }
  }

  /** What parsing into `m` comes to when decoding comes to `d`. */
  predicate ParsedAs(p: Parsed, m: TagMap, d: Option<seq<Tlv>>) {
    && (d.Some? ==> Sized(d.value))
    && (p.ok <==> d.Some? && !EndsEmpty(d.value))
    && (p.ok ==> p.m == PutAll(m, d.value))
  }

  /** For arbitrary bytes: they parse if and only if they are a list of TLVs whose last value is not
      empty, and then exactly these are put into the map. */
  lemma {:induction false} ParsesIffDecodes(m: TagMap, s: seq<byte>)
    ensures ParsedAs(ParseInto(m, s), m, Decode(s, Extended))
    decreases |s|
  {
    if s != [] {
      ReadsAsFirst(s);
      if First(s, Extended).Some? {
        var t := First(s, Extended).value;
        var rest := s[|Encode(t)|..];
        if rest == [] {
          LastOfList(m, t);
        } else {
          ParsesIffDecodes(Put(m, t.tag, VecOf(t)), rest);
          ParsedBehind(ParseInto(m, s), m, t, Decode(rest, Extended));
        }
      }
    }
  }

  lemma ParsedBehind(p: Parsed, m: TagMap, t: Tlv, d: Option<seq<Tlv>>)
    requires |t.value| < 0x100 && ParsedAs(p, Put(m, t.tag, VecOf(t)), d) && (d.Some? ==> d.value != [])
    ensures ParsedAs(p, m, if d.Some? then Some([t] + d.value) else None)
  {
    if d.Some? { FrontOfList(m, t, d.value); }
  }

  lemma LastOfList(m: TagMap, t: Tlv)
    requires |t.value| < 0x100
    ensures PutAll(m, [t]) == Put(m, t.tag, VecOf(t)) && [t] + [] == [t]
  {
    assert [t][1..] == [];
  }

  lemma FrontOfList(m: TagMap, t: Tlv, more: seq<Tlv>)
    requires |t.value| < 0x100 && Sized(more) && more != []
    ensures Sized([t] + more) && PutAll(m, [t] + more) == PutAll(Put(m, t.tag, VecOf(t)), more)
    ensures EndsEmpty([t] + more) <==> EndsEmpty(more)
  {
    assert ([t] + more)[1..] == more;
  }

  /** Whatever is received, and whether it parses or not, the map stays in order and its entries proper. */
  lemma {:induction false} ParseKeepsShape(m: TagMap, s: seq<byte>)
    requires Sorted(m) && Proper(m)
    ensures Sorted(ParseInto(m, s).m) && Proper(ParseInto(m, s).m)
    decreases |s|
  {
    if s != [] && ReadEntry(s).Some? {
      var e := ReadEntry(s).value;
      PutSorted(m, e.tag, e.vec);
      PutProper(m, e.tag, e.vec);
      ParseKeepsShape(Put(m, e.tag, e.vec), s[Cost(e)..]);
    }
  }

  /** A well-formed list whose last value is not empty is taken over completely. */
  lemma {:induction false} ParseEncoded(m: TagMap, ts: seq<Tlv>)
    requires AllWellFormed(ts, Extended) && !EndsEmpty(ts)
    ensures ParseInto(m, EncodeAll(ts)) == Parsed(true, PutAll(m, ts))
    decreases |ts|
  {
    if ts != [] {
      var rest := EncodeAll(ts[1..]);
      if rest == [] { assert ts[1..] == []; }
      ParseFront(m, ts[0], rest);
      ParseEncoded(Put(m, ts[0].tag, VecOf(ts[0])), ts[1..]);
    }
  }

  /** In front of other bytes every well-formed list is. */
  lemma {:induction false} ParseBehind(m: TagMap, ts: seq<Tlv>, rest: seq<byte>)
    requires AllWellFormed(ts, Extended) && rest != []
    ensures ParseInto(m, EncodeAll(ts) + rest) == ParseInto(PutAll(m, ts), rest)
    decreases |ts|
  {
    if ts == [] {
      assert [] + rest == rest;
    } else {
      var more := EncodeAll(ts[1..]) + rest;
      assert EncodeAll(ts) + rest == Encode(ts[0]) + more;
      ParseFront(m, ts[0], more);
      ParseBehind(Put(m, ts[0].tag, VecOf(ts[0])), ts[1..], rest);
    }
  }

  /** The printed map never outgrows what it held and what was received. */
  lemma {:induction false} ParseGrows(m: TagMap, s: seq<byte>)
    requires Sorted(m)
    ensures Size(ParseInto(m, s).m) <= Size(m) + |s|
    decreases |s|
  {
    if s != [] && ReadEntry(s).Some? {
      var e := ReadEntry(s).value;
      PutSorted(m, e.tag, e.vec);
      PutSize(m, e.tag, e.vec);
      ParseGrows(Put(m, e.tag, e.vec), s[Cost(e)..]);
    }
  }

  lemma OneTaken(m: TagMap, t: Tlv)
    requires WellFormed(t, Extended) && t.value != []
    ensures ParseInto(m, Encode(t)) == Parsed(true, Put(m, t.tag, VecOf(t)))
  {
    ParseFront(m, t, []);
    assert Encode(t) + [] == Encode(t);
  }

  /** With an empty last value the parser fails, having put everything in front of it into the map. */
  lemma {:induction false} ParseStopsAtEmptyLast(m: TagMap, ts: seq<Tlv>, last: Tlv)
    requires AllWellFormed(ts, Extended) && WellFormed(last, Extended) && last.value == []
    ensures ParseInto(m, EncodeAll(ts) + Encode(last)) == Parsed(false, PutAll(m, ts))
    decreases |ts|
  {
    if ts == [] {
      assert EncodeAll(ts) + Encode(last) == Encode(last) + [];
      ReadEncoded(last, []);
    } else {
      var rest := EncodeAll(ts[1..]) + Encode(last);
      assert EncodeAll(ts) + Encode(last) == Encode(ts[0]) + rest;
      ParseFront(m, ts[0], rest);
      ParseStopsAtEmptyLast(Put(m, ts[0].tag, VecOf(ts[0])), ts[1..], last);
    }
  }

  lemma ParseAllButLast(m: TagMap, ts: seq<Tlv>)
    requires AllWellFormed(ts, Extended) && EndsEmpty(ts)
    ensures ParseInto(m, EncodeAll(ts)) == Parsed(false, PutAll(m, ts[..|ts| - 1]))
  {
    var front, last := ts[..|ts| - 1], ts[|ts| - 1];
    ParseStopsAtEmptyLast(m, front, last);
    assert ts == front + [last];
    EncodeConcat(front, [last]);
    assert EncodeAll([last]) == Encode(last);
  }

  /** On a well-formed list the parser succeeds exactly when the last value is not empty. */
  lemma ParseSucceedsIff(m: TagMap, ts: seq<Tlv>)
    requires AllWellFormed(ts, Extended)
    ensures ParseInto(m, EncodeAll(ts)).ok <==> !EndsEmpty(ts)
  {
    if !EndsEmpty(ts) {
      ParseEncoded(m, ts);
    } else {
      ParseAllButLast(m, ts);
    }
  }

  predicate UniqueTags(ts: seq<Tlv>) {
    forall i, j :: 0 <= i < j < |ts| ==> ts[i].tag != ts[j].tag
  }

  /** The first value of a tag in a list; in what the map prints there is no other. */
  function ValueOf(ts: seq<Tlv>, tag: word): Option<seq<byte>> {
    if ts == [] then None else if ts[0].tag == tag then Some(ts[0].value) else ValueOf(ts[1..], tag)
  }

  /** The last value of a tag in a list. */
  function LastValue(ts: seq<Tlv>, tag: word): Option<seq<byte>> {
    if ts == [] then None
    else if LastValue(ts[1..], tag).Some? then LastValue(ts[1..], tag)
    else if ts[0].tag == tag then Some(ts[0].value) else None
  }

  /** Inserting a list: the map holds its last values on top of what it held. */
  lemma {:induction false} PutAllLookup(m: TagMap, ts: seq<Tlv>, key: word)
    requires Sorted(m) && Sized(ts)
    ensures Lookup(PutAll(m, ts), key) ==
      match LastValue(ts, key) { case None => Lookup(m, key) case Some(v) => Some([|v|] + v) }
    decreases |ts|
  {
    if ts != [] {
      PutSorted(m, ts[0].tag, VecOf(ts[0]));
      PutIsUpdate(m, ts[0].tag, VecOf(ts[0]), key);
      PutAllLookup(Put(m, ts[0].tag, VecOf(ts[0])), ts[1..], key);
    }
  }

  lemma {:induction false} PutAllShape(m: TagMap, ts: seq<Tlv>)
    requires Sorted(m) && Proper(m) && AllWellFormed(ts, Extended)
    ensures Sorted(PutAll(m, ts)) && Proper(PutAll(m, ts))
    decreases |ts|
  {
    if ts != [] {
      PutSorted(m, ts[0].tag, VecOf(ts[0]));
      assert VecOf(ts[0])[1..] == ts[0].value;
      PutProper(m, ts[0].tag, VecOf(ts[0]));
      PutAllShape(Put(m, ts[0].tag, VecOf(ts[0])), ts[1..]);
    }
  }

  lemma {:induction false} PutAllSize(m: TagMap, ts: seq<Tlv>)
    requires Sorted(m) && Sized(ts) && UniqueTags(ts)
    requires forall i :: 0 <= i < |ts| ==> Lookup(m, ts[i].tag).None?
    ensures |PutAll(m, ts)| == |m| + |ts| && Size(PutAll(m, ts)) == Size(m) + |EncodeAll(ts)|
    decreases |ts|
  {
    if ts != [] {
      var t := ts[0];
      var m' := Put(m, t.tag, VecOf(t));
      PutSorted(m, t.tag, VecOf(t));
      PutSize(m, t.tag, VecOf(t));
      forall i | 0 <= i < |ts[1..]| ensures Lookup(m', ts[1..][i].tag).None? {
        assert ts[1..][i] == ts[i + 1];
        PutIsUpdate(m, t.tag, VecOf(t), ts[i + 1].tag);
      }
      PutAllSize(m', ts[1..]);
    }
  }

  // ----- Printing

  function Print(m: TagMap): seq<byte> {
    if m == [] then [] else TagBytes(m[0].tag) + m[0].vec + Print(m[1..])
  }

  function TlvsOf(m: TagMap): (ts: seq<Tlv>)
    requires Proper(m)
    ensures |ts| == |m| && AllWellFormed(ts, Extended)
    ensures forall i :: 0 <= i < |m| ==> ts[i] == Tlv(m[i].tag, m[i].vec[1..])
  {
    if m == [] then [] else [Tlv(m[0].tag, m[0].vec[1..])] + TlvsOf(m[1..])
  }

  /** A printed map is the encoding of its entries in key order. */
  lemma {:induction false} PrintIsEncode(m: TagMap)
    requires Proper(m)
    ensures Print(m) == EncodeAll(TlvsOf(m)) && |Print(m)| == Size(m)
  {
    if m != [] {
      PrintIsEncode(m[1..]);
      assert [m[0].vec[0]] + m[0].vec[1..] == m[0].vec;
      assert TlvsOf(m)[1..] == TlvsOf(m[1..]);
      assert TagBytes(m[0].tag) + [m[0].vec[0]] + m[0].vec[1..] == TagBytes(m[0].tag) + m[0].vec;
    }
  }

  lemma PrintFirst(m: TagMap)
    requires m != [] && ProperEntry(m[0])
    ensures Print(m) == Encode(Tlv(m[0].tag, m[0].vec[1..])) + Print(m[1..])
  {
    assert [m[0].vec[0]] + m[0].vec[1..] == m[0].vec;
    assert TagBytes(m[0].tag) + [m[0].vec[0]] + m[0].vec[1..] == TagBytes(m[0].tag) + m[0].vec;
  }

  /** The entries from the first two-byte lead on; in front of them all styles read the same. */
  function High(m: TagMap): TagMap {
    if m == [] || m[0].tag >= 0xE0 then m else High(m[1..])
  }

  lemma {:induction false} HighShape(m: TagMap)
    requires Sorted(m)
    ensures Sorted(High(m)) && forall i :: 0 <= i < |High(m)| ==> High(m)[i].tag >= 0xE0 && High(m)[i] in m
  {
    if m != [] && m[0].tag < 0xE0 { HighShape(m[1..]); }
  }

  /** The value the TLV list of a map gives a tag is the map's, without the length byte. */
  lemma {:induction false} TlvsOfLookup(m: TagMap, tag: word)
    requires Proper(m)
    ensures match Lookup(m, tag)
      case None => ValueOf(TlvsOf(m), tag).None?
      case Some(vec) => vec != [] && ValueOf(TlvsOf(m), tag) == Some(vec[1..])
  {
    if m != [] {
      TlvsOfLookup(m[1..], tag);
      assert TlvsOf(m)[1..] == TlvsOf(m[1..]);
    }
  }
}
