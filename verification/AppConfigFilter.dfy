/** handlingVendorSpecificAppConfig: parameters the firmware does not support are cut out of a
    SET_APP_CONFIG command in place (uwb/halimpl/hal/phNxpUciHal.cc:175-264). */
module AppConfigFilter {
  import opened Bytes
  import opened Tlv
  import opened Uci

  /** Tags the firmware does not support. */
  predicate Unsupported(tag: int) { tag == 0x1C || 0xE3 <= tag <= 0xE5 }

  /** Header, session id and parameter count. */
  const BODY := 9

  /** How the code reads the parameter at the front of `s`: truncated; of 8-bit size 0, where the
      loop stands still for ever; or of some size. The size is held in a uint8_t and wraps. */
  datatype Head = Truncated | Stuck | Param(size: nat)

  function HeadOf(s: seq<byte>): Head
    requires s != []
  {
    var h := LeadSize(s[0]);
    if |s| < h then Truncated
    else
      var n := Wrap8(h + s[h - 1]);
      if |s| < n then Truncated else if n == 0 then Stuck else Param(n)
  }

  /** Tag bytes plus length byte. */
  function LeadSize(b: byte): nat { if Extended.Lead(b) then 3 else 2 }

  /** What walking all parameters leads to. */
  datatype Walk = Stalled | Malformed | Walked(kept: seq<byte>, removed: nat, removedBytes: nat)

  function WalkParams(s: seq<byte>): Walk {
    if s == [] then Walked([], 0, 0)
    else match HeadOf(s)
      case Truncated => Malformed
      case Stuck => Stalled
      case Param(n) => Prepend(s[..n], WalkParams(s[n..]))
  }

  /** One parameter's bytes in front of an already walked rest. Two-byte tags never match a tag to
      cut out, so the lead byte decides. */
  function Prepend(chunk: seq<byte>, w: Walk): Walk
    requires chunk != []
  {
    if !w.Walked? then w
    else if Unsupported(chunk[0]) then Walked(w.kept, w.removed + 1, w.removedBytes + |chunk|)
    else Walked(chunk + w.kept, w.removed, w.removedBytes)
  }

  function WalkBody(s: seq<byte>): Walk {
    if |s| <= BODY then Walked([], 0, 0) else WalkParams(s[BODY..])
  }

  /** Whether the filter inspects `s` at all. */
  predicate Inspects(s: seq<byte>) { IsSetAppConfig(s) && |s| <= MAX_DATA_LEN }

  /** The code's loop never ends on such a command. */
  predicate Stalls(s: seq<byte>) { Inspects(s) && WalkBody(s).Stalled? }

  /** The 16-bit payload length in the header. */
  function PayloadLen(s: seq<byte>): word
    requires |s| >= HEADER_SIZE
  {
    Le16(s[3], s[2])
  }

  /** Whether the bookkeeping bytes can be lowered by what was removed. */
  predicate Consistent(s: seq<byte>, w: Walk)
    requires |s| > BODY
  {
    w.Walked? && w.removed <= s[8] && w.removedBytes <= PayloadLen(s)
  }

  /** The command after the filter. */
  function Filtered(s: seq<byte>): seq<byte>
    requires |s| >= HEADER_SIZE
  {
    var w := WalkBody(s);
    if !Inspects(s) || |s| <= BODY || !Consistent(s, w) then s
    else
      var n := PayloadLen(s) - w.removedBytes;
      s[..2] + [n / 0x100, n % 0x100] + s[4..8] + [s[8] - w.removed] + w.kept
  }

  lemma {:induction false} WalkSizes(s: seq<byte>)
    ensures var w := WalkParams(s);
      w.Walked? ==> |w.kept| + w.removedBytes == |s| && w.removed <= w.removedBytes
  {
    if s != [] && HeadOf(s).Param? {
      WalkSizes(s[HeadOf(s).size..]);
    }
  }

  /** What the loop has established in front of the suffix `rest`: put before what walking on will
      find, it is the whole walk. */
  ghost predicate Progress(all: Walk, rest: seq<byte>, kept: seq<byte>, removed: nat, removedBytes: nat) {
    var w := WalkParams(rest);
    if w.Walked? then all == Walked(kept + w.kept, removed + w.removed, removedBytes + w.removedBytes) else all == w
  }

  lemma ProgressStep(all: Walk, rest: seq<byte>, kept: seq<byte>, removed: nat, removedBytes: nat)
    requires Progress(all, rest, kept, removed, removedBytes) && rest != [] && HeadOf(rest).Param?
    ensures var n := HeadOf(rest).size;
      if Unsupported(rest[0]) then Progress(all, rest[n..], kept, removed + 1, removedBytes + n)
      else Progress(all, rest[n..], kept + rest[..n], removed, removedBytes)
  {
    var n := HeadOf(rest).size;
    var w := WalkParams(rest[n..]);
    if w.Walked? {
      assert kept + (rest[..n] + w.kept) == kept + rest[..n] + w.kept;
    }
  }

  /** In front of a parameter the loop is not stuck, and where the code returns early the whole walk is
      malformed. */
  lemma NotStuck(all: Walk, rest: seq<byte>, kept: seq<byte>, removed: nat, removedBytes: nat)
    requires Progress(all, rest, kept, removed, removedBytes) && rest != [] && !all.Stalled?
    ensures !HeadOf(rest).Stuck? && (HeadOf(rest).Truncated? ==> !all.Walked?)
  {
  }

  lemma AllWalked(all: Walk, kept: seq<byte>, removed: nat, removedBytes: nat)
    requires Progress(all, [], kept, removed, removedBytes)
    ensures all == Walked(kept, removed, removedBytes)
  {
    assert kept + [] == kept;
  }

  /** Reads the head of the parameter at `i`; `fits` is false where the code returns early. */
  method ReadParam(data: array<byte>, dataLen: word, i: nat, ghost body: seq<byte>)
    returns (fits: bool, deleted: bool, size: nat)
    requires BODY <= i < dataLen <= data.Length
    requires |body| == dataLen - BODY && forall k :: BODY <= k < dataLen ==> data[k] == body[k - BODY]
    ensures var rest := body[i - BODY..];
      && fits == !HeadOf(rest).Truncated?
      && (fits ==> (deleted <==> Unsupported(rest[0])))
      && (fits ==> if size == 0 then HeadOf(rest).Stuck? else HeadOf(rest) == Param(size))
  {
    var tag: int := data[i];
    fits, deleted, size := false, false, 0;
    if 0xE0 <= tag <= 0xE2 {
      if i + 3 > dataLen { return; }
      tag := tag * 0x100 + data[i + 1];
      size := Wrap8(3 + data[i + 2] as int);
    } else {
      if i + 2 > dataLen { return; }
      size := Wrap8(2 + data[i + 1] as int);
    }
    fits, deleted := i + size <= dataLen, Unsupported(tag);
  }

  /** The compaction loop: copies the parameters to keep to `cmd`, behind the fixed part. `ok` is
      false on the early returns. */
  method Compact(data: array<byte>, dataLen: word, cmd: array<byte>, ghost body: seq<byte>)
    returns (ok: bool, j: nat, removed: nat, removedBytes: nat, ghost kept: seq<byte>)
    requires BODY < dataLen <= data.Length && data != cmd && dataLen <= cmd.Length
    requires |body| == dataLen - BODY && forall k :: BODY <= k < dataLen ==> data[k] == body[k - BODY]
    requires !WalkParams(body).Stalled?
    modifies cmd
    ensures ok == WalkParams(body).Walked?
    ensures ok ==> WalkParams(body) == Walked(kept, removed, removedBytes) && j == BODY + |kept| == dataLen - removedBytes
    ensures ok ==> forall k :: BODY <= k < j ==> cmd[k] == kept[k - BODY]
    ensures forall k :: 0 <= k < BODY ==> cmd[k] == old(cmd[k])
  {
    var i: nat;
    i, j, removed, removedBytes, kept, ok := BODY, BODY, 0, 0, [], false;
    ghost var all, rest := WalkParams(body), body;
    while i < dataLen
      invariant BODY <= i <= dataLen && j + removedBytes == i && j == BODY + |kept| && rest == body[i - BODY..]
      invariant forall k :: BODY <= k < j ==> cmd[k] == kept[k - BODY]
      invariant forall k :: 0 <= k < BODY ==> cmd[k] == old(cmd[k])
      invariant Progress(all, rest, kept, removed, removedBytes)
      decreases dataLen - i
    {
      NotStuck(all, rest, kept, removed, removedBytes);
      var fits, deleted, size := ReadParam(data, dataLen, i, body);
      if !fits { return; }
      ProgressStep(all, rest, kept, removed, removedBytes);
      if !deleted {
        AppendParam(data, i, cmd, j, size, kept, rest[..size]);
        kept := kept + rest[..size];
        i, j := i + size, j + size;
      } else {
        i, removed, removedBytes := i + size, removed + 1, removedBytes + size;
      }
      rest := rest[size..];
    }
    AllWalked(all, kept, removed, removedBytes);
    ok := true;
  }

  /** Copies one parameter behind those already kept. */
  method AppendParam(data: array<byte>, i: nat, cmd: array<byte>, j: nat, size: nat,
                     ghost kept: seq<byte>, ghost chunk: seq<byte>)
    requires data != cmd && i + size <= data.Length && j + size <= cmd.Length
    requires j == BODY + |kept| && forall k :: BODY <= k < j ==> cmd[k] == kept[k - BODY]
    requires |chunk| == size && forall k :: i <= k < i + size ==> data[k] == chunk[k - i]
    modifies cmd
    ensures forall k :: BODY <= k < j + size ==> cmd[k] == (kept + chunk)[k - BODY]
    ensures forall k :: 0 <= k < BODY ==> cmd[k] == old(cmd[k])
  {
    CopyBytes(data, i, cmd, j, size);
  }

  /** The filtered command, byte by byte. */
  lemma FilteredBytes(s: seq<byte>)
    requires Inspects(s) && |s| > BODY && Consistent(s, WalkBody(s))
    ensures var r, w := Filtered(s), WalkBody(s); var n := PayloadLen(s) - w.removedBytes;
      && |r| == |s| - w.removedBytes && |r| == BODY + |w.kept|
      && (forall k :: 0 <= k < 2 || 4 <= k < 8 ==> r[k] == s[k])
      && (forall k :: BODY <= k < |r| ==> r[k] == w.kept[k - BODY])
      && r[2] == n / 0x100 && r[3] == n % 0x100 && r[8] == s[8] - w.removed
  {
    WalkSizes(s[BODY..]);
    var w := WalkBody(s);
    var n := PayloadLen(s) - w.removedBytes;
    Layout(s[..2], [n / 0x100, n % 0x100], s[4..8], [s[8] - w.removed], w.kept, Filtered(s));
  }

  lemma Layout(a: seq<byte>, b: seq<byte>, c: seq<byte>, d: seq<byte>, e: seq<byte>, r: seq<byte>)
    requires |a| == 2 && |b| == 2 && |c| == 4 && |d| == 1 && r == a + b + c + d + e
    ensures |r| == BODY + |e| && r[2] == b[0] && r[3] == b[1] && r[8] == d[0]
    ensures forall k :: 0 <= k < 2 ==> r[k] == a[k]
    ensures forall k :: 4 <= k < 8 ==> r[k] == c[k - 4]
    ensures forall k :: BODY <= k < |r| ==> r[k] == e[k - BODY]
  {
  }

  /** The tail of the filter: bookkeeping bytes, then the copy back. */
  method Commit(cmd: array<byte>, removed: nat, removedBytes: nat, data: array<byte>, dataLen: word,
                ghost s: seq<byte>, ghost kept: seq<byte>)
    returns (newLen: word)
    requires BODY < dataLen <= data.Length && dataLen <= cmd.Length && cmd != data
    requires Inspects(s) && |s| == dataLen && WalkBody(s) == Walked(kept, removed, removedBytes)
    requires forall k :: 0 <= k < BODY ==> cmd[k] == s[k]
    requires BODY + |kept| == dataLen - removedBytes
    requires forall k :: BODY <= k < BODY + |kept| ==> cmd[k] == kept[k - BODY]
    requires forall k :: 0 <= k < dataLen ==> data[k] == s[k]
    modifies cmd, data
    ensures newLen == |Filtered(s)| && forall k :: 0 <= k < newLen ==> data[k] == Filtered(s)[k]
    ensures forall k :: newLen <= k < data.Length ==> data[k] == old(data[k])
  {
    newLen := dataLen;
    if cmd[8] < removed { return; }
    cmd[8] := cmd[8] - removed;
    var headerLen: word := Le16(cmd[3], cmd[2]);
    if headerLen < removedBytes { return; }
    headerLen := headerLen - removedBytes;
    cmd[2], cmd[3] := headerLen / 0x100, headerLen % 0x100;
    newLen := dataLen - removedBytes;
    FilteredBytes(s);
    CopyBytes(cmd, 0, data, 0, newLen);
  }

  /** The in-place filter: the command becomes `Filtered` of what it was and nothing behind the new
      end changes. A stalling command would make the loop run forever, so it has no outcome. On a
      command without parameters the code rewrites the length bytes it read; nothing changes. */
  method HandleVendorAppConfig(data: array<byte>, dataLen: word) returns (newLen: word)
    requires HEADER_SIZE <= dataLen <= data.Length
    requires !Stalls(data[..dataLen])
    modifies data
    ensures newLen <= dataLen && data[..newLen] == Filtered(old(data[..dataLen]))
    ensures forall k :: newLen <= k < data.Length ==> data[k] == old(data[k])
  {
    newLen := dataLen;
    ghost var s := data[..dataLen];
    if MessageType(data[0]) != MT_CMD || Gid(data[0]) != 1 || Oid(data[1]) != 3 || MAX_DATA_LEN < dataLen {
      return;
    }
    var cmd := new byte[MAX_DATA_LEN];
    CopyBytes(data, 0, cmd, 0, dataLen);
    if BODY < dataLen {
      var ok, j, removed, removedBytes;
      ghost var kept;
      ok, j, removed, removedBytes, kept := Compact(data, dataLen, cmd, s[BODY..]);
      if ok {
        newLen := Commit(cmd, removed, removedBytes, data, dataLen, s, kept);
      }
    }
    assert data[..newLen] == Filtered(s);
  }

  /** The parameters the filter is meant to leave. */
  function Keep(ts: seq<Tlv>): (r: seq<Tlv>)
    ensures |r| <= |ts|
  {
    if ts == [] then []
    else if Unsupported(ts[0].tag) then Keep(ts[1..])
    else [ts[0]] + Keep(ts[1..])
  }

  lemma {:induction false} KeepMembers(ts: seq<Tlv>, t: Tlv)
    ensures t in Keep(ts) <==> t in ts && t.tag != 0x1C && t.tag != 0xE3 && t.tag != 0xE4 && t.tag != 0xE5
  {
    if ts != [] {
      KeepMembers(ts[1..], t);
      assert ts == [ts[0]] + ts[1..];
    }
  }

  /** `s` is a SET_APP_CONFIG command carrying exactly the parameters `ts`, with the length and count
      bytes that say so. */
  predicate CarriesParams(s: seq<byte>, ts: seq<Tlv>, ext: TagStyle) {
    && BODY <= |s| <= MAX_DATA_LEN && IsSetAppConfig(s)
    && AllWellFormed(ts, ext) && s[BODY..] == EncodeAll(ts)
    && s[8] == |ts| && PayloadLen(s) == |s| - HEADER_SIZE
  }

  /** The parameter's size fits the uint8_t that holds it. */
  predicate SizeFits(t: Tlv) { |TagBytes(t.tag)| + 1 + |t.value| < 0x100 }
  predicate AllFit(ts: seq<Tlv>) { forall i :: 0 <= i < |ts| ==> SizeFits(ts[i]) }

  /** In front of a well-formed parameter the code sees its size, unless that needs 9 bits. */
  lemma EncodedHead(t: Tlv, rest: seq<byte>)
    requires WellFormed(t, Extended)
    ensures SizeFits(t) ==> HeadOf(Encode(t) + rest) == Param(|Encode(t)|)
    ensures |Encode(t)| == 0x100 ==> HeadOf(Encode(t) + rest).Stuck?
  {
    Front(t, rest);
  }

  lemma EncodedStep(t: Tlv, rest: seq<byte>)
    requires WellFormed(t, Extended) && SizeFits(t)
    ensures WalkParams(Encode(t) + rest) == Prepend(Encode(t), WalkParams(rest))
    ensures Unsupported(Encode(t)[0]) <==> Unsupported(t.tag)
  {
    EncodedHead(t, rest);
    assert (Encode(t) + rest)[..|Encode(t)|] == Encode(t);
    assert (Encode(t) + rest)[|Encode(t)|..] == rest;
  }

  lemma KeepStep(ts: seq<Tlv>)
    requires ts != [] && AllWellFormed(ts, Extended) && AllWellFormed(Keep(ts[1..]), Extended)
    ensures AllWellFormed(Keep(ts), Extended)
    ensures Keep(ts) == if Unsupported(ts[0].tag) then Keep(ts[1..]) else [ts[0]] + Keep(ts[1..])
    ensures EncodeAll(Keep(ts)) ==
      (if Unsupported(ts[0].tag) then [] else Encode(ts[0])) + EncodeAll(Keep(ts[1..]))
  {
    var r := Keep(ts[1..]);
    assert ([ts[0]] + r)[1..] == r && [] + r == r;
  }

  lemma {:induction false} WalkEncoded(ts: seq<Tlv>)
    requires AllWellFormed(ts, Extended) && AllFit(ts)
    ensures AllWellFormed(Keep(ts), Extended)
    ensures WalkParams(EncodeAll(ts)) ==
      Walked(EncodeAll(Keep(ts)), |ts| - |Keep(ts)|, RemovedBytes(ts))
  {
    if ts != [] {
      var t := ts[0];
      WalkEncoded(ts[1..]);
      KeepStep(ts);
      EncodedStep(t, EncodeAll(ts[1..]));
    }
  }

  /** The size of the parameters to cut out. */
  function RemovedBytes(ts: seq<Tlv>): nat
    requires Sized(ts)
  {
    if ts == [] then 0
    else (if Unsupported(ts[0].tag) then |Encode(ts[0])| else 0) + RemovedBytes(ts[1..])
  }

  /** The filter refines decode-filter-encode: a command carrying `ts` becomes the command carrying
      `Keep(ts)`, with the same header and session and with consistent length and count bytes. */
  lemma FilterRefinesDecodeFilterEncode(s: seq<byte>, ts: seq<Tlv>)
    requires CarriesParams(s, ts, Extended) && AllFit(ts)
    ensures !Stalls(s)
    ensures var r := Filtered(s);
      CarriesParams(r, Keep(ts), Extended) && r[..2] == s[..2] && r[4..8] == s[4..8]
  {
    if ts != [] {
      WalkEncoded(ts);
      WalkSizes(s[BODY..]);
      FilteredBytes(s);
      assert Filtered(s)[BODY..] == EncodeAll(Keep(ts));
    }
  }

  /** A SET_APP_CONFIG command in bytes: two header bytes, the length (high byte first), four bytes of
      session id, the count, and the parameters. */
  function CommandOf(id: seq<byte>, ts: seq<Tlv>): (s: seq<byte>)
    requires |id| == 4 && Sized(ts) && |ts| < 0x100 && |EncodeAll(ts)| <= 4191
    ensures |s| == 9 + |EncodeAll(ts)|
  {
    var n := 5 + |EncodeAll(ts)|;
    [0x21, 0x03, n / 256, n % 256] + id + [|ts|] + EncodeAll(ts)
  }

  /** So such a command becomes the one with the supported parameters. */
  lemma CommandIsFiltered(id: seq<byte>, ts: seq<Tlv>)
    requires |id| == 4 && AllWellFormed(ts, Extended) && AllFit(ts) && |ts| < 0x100 && |EncodeAll(ts)| <= 4191
    ensures CarriesParams(CommandOf(id, ts), ts, Extended)
    ensures Sized(Keep(ts)) && |Keep(ts)| < 0x100 && |EncodeAll(Keep(ts))| <= 4191
    ensures Filtered(CommandOf(id, ts)) == CommandOf(id, Keep(ts))
  {
    var s := CommandOf(id, ts);
    assert s[BODY..] == EncodeAll(ts);
    FilterRefinesDecodeFilterEncode(s, ts);
    assert s[4..8] == id;
    SameCommand(Filtered(s), id, Keep(ts));
  }

  lemma SameCommand(r: seq<byte>, id: seq<byte>, ts: seq<Tlv>)
    requires CarriesParams(r, ts, Extended) && |id| == 4 && |r| <= 4200 && r[..2] == [0x21, 0x03] && r[4..8] == id
    ensures Sized(ts) && |ts| < 0x100 && |EncodeAll(ts)| <= 4191 && r == CommandOf(id, ts)
  {
    assert |r| == 9 + |EncodeAll(ts)|;
    LengthBytes(r[3], r[2], |r| - 4);
    assert r == r[..2] + [r[2], r[3]] + r[4..8] + [r[8]] + r[9..];
  }

  lemma LengthBytes(lo: byte, hi: byte, n: nat)
    requires Le16(lo, hi) as int == n
    ensures hi == n / 256 && lo == n % 256
  {
  }

  /** A well-formed parameter of exactly 256 bytes, after parameters that fit, makes the loop stand
      still. */
  lemma {:induction false} OversizedParamStalls(before: seq<Tlv>, t: Tlv, post: seq<byte>)
    requires AllWellFormed(before, Extended) && WellFormed(t, Extended) && |Encode(t)| == 0x100
    requires AllFit(before)
    ensures WalkParams(EncodeAll(before) + Encode(t) + post).Stalled?
  {
    if before == [] {
      assert EncodeAll(before) + Encode(t) + post == Encode(t) + post;
      EncodedHead(t, post);
    } else {
      var rest := EncodeAll(before[1..]) + Encode(t) + post;
      assert EncodeAll(before) + Encode(t) + post == Encode(before[0]) + rest;
      EncodedStep(before[0], rest);
      OversizedParamStalls(before[1..], t, post);
    }
  }

  /** One walk after another. */
  function Then(a: Walk, w: Walk): Walk {
    if !a.Walked? then a
    else if !w.Walked? then w
    else Walked(a.kept + w.kept, a.removed + w.removed, a.removedBytes + w.removedBytes)
  }

  lemma PrependThen(chunk: seq<byte>, a: Walk, w: Walk)
    requires chunk != [] && a.Walked?
    ensures Prepend(chunk, Then(a, w)) == Then(Prepend(chunk, a), w)
  {
    if w.Walked? { assert chunk + (a.kept + w.kept) == chunk + a.kept + w.kept; }
  }

  lemma NothingThen(s: seq<byte>)
    ensures [] + s == s && WalkParams([] + s) == Then(WalkParams([]), WalkParams(s))
  {
    assert [] + s == s;
    if WalkParams(s).Walked? { assert [] + WalkParams(s).kept == WalkParams(s).kept; }
  }

  lemma OneThen(t: Tlv, more: seq<byte>, s: seq<byte>)
    requires WellFormed(t, Extended) && SizeFits(t)
    requires WalkParams(more).Walked? && WalkParams(more + s) == Then(WalkParams(more), WalkParams(s))
    ensures WalkParams(Encode(t) + more).Walked?
    ensures WalkParams(Encode(t) + (more + s)) == Then(WalkParams(Encode(t) + more), WalkParams(s))
  {
    EncodedStep(t, more);
    EncodedStep(t, more + s);
    PrependThen(Encode(t), WalkParams(more), WalkParams(s));
  }

  lemma Regroup<T>(a: seq<T>, b: seq<T>, c: seq<T>)
    ensures a + b + c == a + (b + c)
  {
  }

  /** Behind parameters that fit the walk goes on as from the start. */
  lemma {:induction false} WalkBehind(before: seq<Tlv>, s: seq<byte>)
    requires AllWellFormed(before, Extended) && AllFit(before)
    ensures WalkParams(EncodeAll(before)).Walked?
    ensures WalkParams(EncodeAll(before) + s) == Then(WalkParams(EncodeAll(before)), WalkParams(s))
    decreases |before|
  {
    if before == [] {
      NothingThen(s);
    } else {
      WalkBehind(before[1..], s);
      OneThen(before[0], EncodeAll(before[1..]), s);
      Regroup(Encode(before[0]), EncodeAll(before[1..]), s);
    }
  }

  /** Longer ones do not: the size wraps to 1 or 2, and the walk goes on inside the parameter, at its second
      or third byte, having kept or cut out just what it stepped over. So there the filter does not refine
      decode-filter-encode, and its loop ends if and only if it does on the bytes it lands on. */
  lemma OversizedParamIsCutUp(before: seq<Tlv>, t: Tlv, post: seq<byte>)
    requires AllWellFormed(before, Extended) && WellFormed(t, Extended) && |Encode(t)| > 0x100 && AllFit(before)
    ensures var s, n := Encode(t) + post, |Encode(t)| - 0x100;
      && n <= 2 && (Unsupported(s[0]) <==> Unsupported(t.tag))
      && WalkParams(EncodeAll(before) + s) == Then(WalkParams(EncodeAll(before)), Prepend(s[..n], WalkParams(s[n..])))
      && (WalkParams(EncodeAll(before) + s).Stalled? <==> WalkParams(s[n..]).Stalled?)
  {
    WalkBehind(before, Encode(t) + post);
    WrappedStep(t, post);
  }

  lemma WrappedStep(t: Tlv, post: seq<byte>)
    requires WellFormed(t, Extended) && |Encode(t)| > 0x100
    ensures var s, n := Encode(t) + post, |Encode(t)| - 0x100;
      && n <= 2 && WalkParams(s) == Prepend(s[..n], WalkParams(s[n..])) && (Unsupported(s[0]) <==> Unsupported(t.tag))
  {
    Front(t, post);
  }

  lemma WalkedStep(s: seq<byte>)
    requires s != [] && WalkParams(s).Walked?
    ensures HeadOf(s).Param?
    ensures
      var rest := WalkParams(s[HeadOf(s).size..]);
      && rest.Walked?
      && WalkParams(s).kept == if Unsupported(s[0]) then rest.kept else s[..HeadOf(s).size] + rest.kept
  {
  }

  /** A supported parameter's first byte is kept, and its second one if its size allows. */
  lemma FrontSurvives(s: seq<byte>)
    requires s != [] && !Unsupported(s[0]) && WalkParams(s).Walked?
    ensures HeadOf(s).Param?
    ensures var k, n := WalkParams(s).kept, HeadOf(s).size;
      |k| >= n && forall x :: 0 <= x < n ==> k[x] == s[x]
  {
    WalkedStep(s);
  }

  /** The bytes that decide how the first parameter is read survive in what is kept, even when its
      size wrapped and the code kept less than the parameter's own head. */
  lemma HeadSurvives(s: seq<byte>)
    requires s != [] && !Unsupported(s[0]) && WalkParams(s).Walked?
    ensures var k, h := WalkParams(s).kept, LeadSize(s[0]);
      |s| >= h && |k| >= h && k[0] == s[0] && k[h - 1] == s[h - 1]
  {
    FrontSurvives(s);
    if HeadOf(s).size < LeadSize(s[0]) {
      WrappedLengthSurvives(s);
    }
  }

  lemma WrappedLengthSurvives(s: seq<byte>)
    requires s != [] && !Unsupported(s[0]) && WalkParams(s).Walked?
    requires HeadOf(s).Param? && HeadOf(s).size < LeadSize(s[0])
    ensures var k, h := WalkParams(s).kept, LeadSize(s[0]); |k| >= h && k[h - 1] == s[h - 1]
  {
    var h, n := LeadSize(s[0]), HeadOf(s).size;
    var behind := s[n..];
    assert behind[h - 1 - n] == s[h - 1] >= 0xFE;
    WalkedStep(s);
    SecondSurvives(behind, h - 1 - n);
  }

  /** A byte 0xFE or 0xFF that made the size before it wrap is itself kept by the walk behind. */
  lemma SecondSurvives(s: seq<byte>, x: nat)
    requires WalkParams(s).Walked? && x < 2 && x < |s| && 0xFE <= s[x] && (x == 1 ==> s[x] == 0xFE)
    ensures |WalkParams(s).kept| > x && WalkParams(s).kept[x] == s[x]
    decreases x
  {
    WalkedStep(s);
    if x == 0 {
      FrontSurvives(s);
    } else {
      FrontSurvives(s);
      NoDoubleWrap(s);
    }
  }

  /** After a size wrapped to 1, a second one in a row would leave a parameter of size 256. */
  lemma NoDoubleWrap(s: seq<byte>)
    requires |s| > 1 && s[1] == 0xFE
    ensures !Extended.Lead(s[0]) || (|s| > 2 && s[2] == 0xFE) ==> !WalkParams(s).Walked?
  {
    if Extended.Lead(s[0]) && |s| > 2 && s[2] == 0xFE {
      assert HeadOf(s) == Param(1);
      assert s[1..][0] == 0xFE && s[1..][1] == 0xFE;
    }
  }

  /** Walking what a walk kept keeps all of it. */
  lemma {:induction false} Rewalk(s: seq<byte>)
    requires WalkParams(s).Walked?
    ensures WalkParams(WalkParams(s).kept) == Walked(WalkParams(s).kept, 0, 0)
  {
    if s != [] {
      WalkedStep(s);
      var n, k := HeadOf(s).size, WalkParams(s).kept;
      Rewalk(s[n..]);
      if !Unsupported(s[0]) {
        HeadSurvives(s);
        assert HeadOf(k) == Param(n);
        assert k[..n] == s[..n] && k[n..] == WalkParams(s[n..]).kept;
      }
    }
  }

  /** A command from which the walk removes nothing is left alone. */
  lemma NothingToRemove(r: seq<byte>)
    requires Inspects(r) && |r| > BODY && WalkBody(r) == Walked(r[BODY..], 0, 0)
    ensures Filtered(r) == r
  {
    Unfolded(r, PayloadLen(r));
    Halves(r[3], r[2]);
    Pieces(r);
  }

  lemma Unfolded(r: seq<byte>, n: word)
    requires Inspects(r) && |r| > BODY && WalkBody(r) == Walked(r[BODY..], 0, 0) && n == PayloadLen(r)
    ensures Filtered(r) == r[..2] + [n / 0x100, n % 0x100] + r[4..8] + [r[8]] + r[BODY..]
  {
  }

  lemma Halves(lo: byte, hi: byte)
    ensures Le16(lo, hi) as int / 0x100 == hi && Le16(lo, hi) as int % 0x100 == lo
  {
  }

  lemma Pieces(r: seq<byte>)
    requires |r| >= BODY
    ensures r[..2] + [r[2], r[3]] + r[4..8] + [r[8]] + r[BODY..] == r
  {
  }

  /** Running the filter a second time changes nothing, on every command the loop ends on, wrapped
      parameter sizes included. */
  lemma FilterIsIdempotent(s: seq<byte>)
    requires |s| >= HEADER_SIZE && !Stalls(s)
    ensures |Filtered(s)| >= HEADER_SIZE && !Stalls(Filtered(s))
    ensures Filtered(Filtered(s)) == Filtered(s)
  {
    var r := Filtered(s);
    if r != s {
      FilteredBytes(s);
      assert r[BODY..] == WalkBody(s).kept;
      Rewalk(s[BODY..]);
      if |r| > BODY {
        NothingToRemove(r);
      }
    }
  }
}
