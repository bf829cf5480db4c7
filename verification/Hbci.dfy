/** The HBCI firmware download: a stop-and-wait link with segmented, checksummed transfers and a
    status-driven master (uwb/halimpl/fwd/sr1xx/phNxpUciHal_fwd.cc:133-331, 386-684; constants from
    uwb/halimpl/fwd/sr1xx/phNxpUciHal_fwd.h:203-274, 341-387). */
module Hbci {
  import opened Bytes
  import opened Lrc

  const MAX_DATA_MOSI := 2048
  const MAX_DATA_MISO := 256
  const SEGMENTED := 0x8000

  const QUERY := 1
  const ANSWER := 2
  const COMMAND := 3
  const ACK := 4
  const VALID_APDU := 0x01
  const INVALID_CLASS := 0x82
  const INVALID_INSTRUCTION := 0x83
  const INVALID_LENGTH := 0x84

  const STATUS := 0x21
  const MODE_PATCH_ROM := 0x23
  const MODE_HIF_IMAGE := 0x24
  const BASE_PATCH_ROM := 0x20
  const BASE_HIF_IMAGE := 0x50
  const DOWNLOAD := 0x01
  const SUCCESS := 0x01

  /** An APDU header: class, instruction, and the length in little-endian order. */
  datatype Header = Header(cls: byte, ins: byte, lo: byte, hi: byte) {
    function Length(): word { Le16(lo, hi) }
    function Octets(): seq<byte> { [cls, ins, lo, hi] }
  }

  function HeaderOf(cls: byte, ins: byte, len: word): Header { Header(cls, ins, len % 0x100, len / 0x100) }

  /** What the device does with one write or read: it fails, or (a read) delivers some bytes. A run
      against a device, whatever that decides by, is a run against the script of its decisions. */
  datatype Io = Fails | Done(bytes: seq<byte>)

  /** What happens on the link: bytes are written, or a read of a header delivers some bytes, after which
      the host finds `header` in its receive structure. */
  datatype Event = Sent(bytes: seq<byte>) | Got(bytes: seq<byte>, header: Header)

  /** The link: what the device will do, what has passed, and the receive structure with header and
      payload, in which a short read leaves old bytes standing. */
  datatype Link = Link(script: seq<Io>, trace: seq<Event>, hdr: Header, payload: seq<byte>)

  datatype Outcome = Outcome(ok: bool, link: Link)

  function Put(l: Link, bytes: seq<byte>): (r: Outcome)
    ensures |r.link.script| <= |l.script| && (r.ok ==> |r.link.script| < |l.script|)
  {
    if l.script == [] then Outcome(false, l)
    else if l.script[0].Fails? then Outcome(false, l.(script := l.script[1..]))
    else Outcome(true, l.(script := l.script[1..], trace := l.trace + [Sent(bytes)]))
  }

  /** The header after a read delivered `b` into it. */
  function Overlay(h: Header, b: seq<byte>): Header {
    Header(if |b| > 0 then b[0] else h.cls, if |b| > 1 then b[1] else h.ins,
           if |b| > 2 then b[2] else h.lo, if |b| > 3 then b[3] else h.hi)
  }

  /** A read of a header delivers no more than its four bytes. */
  function Taken(b: seq<byte>): seq<byte> { if |b| > 4 then b[..4] else b }

  function GetHeader(l: Link): (r: Outcome)
    ensures |r.link.script| <= |l.script| && (r.ok ==> |r.link.script| < |l.script|)
  {
    if l.script == [] then Outcome(false, l)
    else if l.script[0].Fails? then Outcome(false, l.(script := l.script[1..]))
    else
      var h := Overlay(l.hdr, l.script[0].bytes);
      Outcome(true, l.(script := l.script[1..], trace := l.trace + [Got(Taken(l.script[0].bytes), h)], hdr := h))
  }

  function Exchange(l: Link, bytes: seq<byte>): (r: Outcome)
    ensures |r.link.script| <= |l.script| && (r.ok ==> |r.link.script| < |l.script|)
  {
    var p := Put(l, bytes);
    if p.ok then GetHeader(p.link) else p
  }

  /** An exchange that succeeds only on a positive acknowledgement. */
  function Acknowledged(l: Link, bytes: seq<byte>): (r: Outcome)
    ensures |r.link.script| <= |l.script| && (r.ok ==> |r.link.script| < |l.script|)
  {
    var x := Exchange(l, bytes);
    if x.ok && (x.link.hdr.cls != ACK || x.link.hdr.ins != VALID_APDU) then Outcome(false, x.link) else x
  }

  /** The data bytes of the next block, and the length field announcing it. */
  function BlockSize(n: nat): nat { if n > MAX_DATA_MOSI then MAX_DATA_MOSI else n }
  function BlockLength(n: nat): word { if n > MAX_DATA_MOSI then SEGMENTED else if n == 0 then 0 else n + 1 }

  function BlockHeader(cls: byte, ins: byte, n: nat): seq<byte> { HeaderOf(cls, ins, BlockLength(n)).Octets() }

  /** A block's data with its checksum, which covers the header too. */
  function BlockData(cls: byte, ins: byte, img: seq<byte>): seq<byte> {
    var data := img[..BlockSize(|img|)];
    data + [Lrc.Lrc(BlockHeader(cls, ins, |img|) + data)]
  }

  /** One turn of phHbci_PutCommand's loop: the header, and unless it announces no data, the data. */
  function PutBlock(l: Link, cls: byte, ins: byte, img: seq<byte>): (r: Outcome)
    ensures |r.link.script| <= |l.script| && (r.ok ==> |r.link.script| < |l.script|)
  {
    var h := Acknowledged(l, BlockHeader(cls, ins, |img|));
    if !h.ok || |img| == 0 then h else Acknowledged(h.link, BlockData(cls, ins, img))
  }

  /** phHbci_PutCommand. */
  function PutCommand(l: Link, cls: byte, ins: byte, img: seq<byte>): (r: Outcome)
    ensures |r.link.script| <= |l.script| && (r.ok ==> |r.link.script| < |l.script|)
    decreases |img|
  {
    var b := PutBlock(l, cls, ins, img);
    if !b.ok || |img| <= MAX_DATA_MOSI then b else PutCommand(b.link, cls, ins, img[MAX_DATA_MOSI..])
  }

  /** phHbci_GeneralStatus: the one general answer expected in each mode (0 before a mode is set). */
  predicate Ready(mode: byte, h: Header) {
    && h.cls == ANSWER
    && ((h.ins == STATUS && mode == 0) || (h.ins == MODE_PATCH_ROM && mode == MODE_PATCH_ROM) ||
        (h.ins == MODE_HIF_IMAGE && mode == MODE_HIF_IMAGE))
  }

  function Query(cls: byte, ins: byte): seq<byte> { HeaderOf(cls, ins, 0).Octets() }

  /** One turn of the status loop: another one follows, or it is over. */
  datatype Turn = Again(link: Link) | Over(outcome: Outcome)

  /** A turn of the loop in phHbci_MasterHIFImage and phHbci_MasterPatchROM, which differ in the mode and
      the base of their classes only. */
  function StatusTurn(l: Link, query: seq<byte>, mode: byte, base: byte, img: seq<byte>): (r: Turn)
    requires base <= 0xF0
    ensures r.Again? ==> |r.link.script| < |l.script|
  {
    var s := Exchange(l, query);
    if !s.ok then Over(s)
    else if s.link.hdr.cls == ANSWER || s.link.hdr.cls == ACK then
      if !Ready(mode, s.link.hdr) then Over(Outcome(false, s.link))
      else
        var c := PutCommand(s.link, base as int + COMMAND, DOWNLOAD, img);
        if !c.ok then Over(c) else Again(c.link)
    else Over(Outcome(s.link.hdr.cls == base as int + ANSWER && s.link.hdr.ins == SUCCESS, s.link))
  }

  /** The loop, which asks for the general status first and then for that of the image. */
  function Download(l: Link, query: seq<byte>, mode: byte, base: byte, img: seq<byte>): Outcome
    requires base <= 0xF0
    decreases |l.script|
  {
    match StatusTurn(l, query, mode, base, img)
    case Over(o) => o
    case Again(next) => Download(next, Query(base as int + QUERY, DOWNLOAD), mode, base, img)
  }

  function StatusQuery(): seq<byte> { Query(QUERY, STATUS) }

  /** phHbci_Master. */
  function Master(l: Link, mode: byte, img: seq<byte>): Outcome {
    var s := Exchange(l, StatusQuery());
    if !s.ok || !Ready(0, s.link.hdr) then Outcome(false, s.link)
    else
      var c := PutCommand(s.link, COMMAND, mode, []);
      if !c.ok then c
      else if mode == MODE_PATCH_ROM then Download(c.link, StatusQuery(), mode, BASE_PATCH_ROM, img)
      else if mode == MODE_HIF_IMAGE then Download(c.link, StatusQuery(), mode, BASE_HIF_IMAGE, img)
      else Outcome(false, c.link)
  }

  // ----- The transfer, and a receiver for it

  /** What the host makes of an event: of a header, the class and the instruction it finds. */
  datatype Sight = Tx(bytes: seq<byte>) | Rx(cls: byte, ins: byte)

  function Sees(e: Event): Sight {
    match e
    case Sent(bytes) => Tx(bytes)
    case Got(_, header) => Rx(header.cls, header.ins)
  }

  function SeenIn(t: seq<Event>): (r: seq<Sight>)
    ensures |r| == |t| && forall k :: 0 <= k < |t| ==> r[k] == Sees(t[k])
  {
    if t == [] then [] else SeenIn(t[..|t| - 1]) + [Sees(t[|t| - 1])]
  }

  function Seen(l: Link): seq<Sight> { SeenIn(l.trace) }

  const POSITIVE := Rx(ACK, VALID_APDU)

  /** What one block puts on the wire, when all goes well. */
  function Block(cls: byte, ins: byte, img: seq<byte>): seq<Sight> {
    [Tx(BlockHeader(cls, ins, |img|)), POSITIVE] +
    (if |img| == 0 then [] else [Tx(BlockData(cls, ins, img)), POSITIVE])
  }

  /** Everything a successful transfer puts on the wire. */
  function Transfer(cls: byte, ins: byte, img: seq<byte>): seq<Sight>
    decreases |img|
  {
    Block(cls, ins, img) + (if |img| <= MAX_DATA_MOSI then [] else Transfer(cls, ins, img[MAX_DATA_MOSI..]))
  }

  function SentIn(t: seq<Sight>): seq<seq<byte>> {
    if t == [] then [] else (if t[0].Tx? then [t[0].bytes] else []) + SentIn(t[1..])
  }

  /** A receiver: it takes a header, and unless that announces no data, a block of the announced size
      with a valid checksum; it stops at the first header without the segment flag. */
  function Reassemble(apdus: seq<seq<byte>>): Option<seq<byte>> {
    if apdus == [] || |apdus[0]| != 4 then None
    else
      var len: nat := Le16(apdus[0][2], apdus[0][3]);
      if len == 0 then if |apdus| == 1 then Some([]) else None
      else if |apdus| == 1 then None
      else
        var size := if len == SEGMENTED then MAX_DATA_MOSI + 1 else len;
        if |apdus[1]| != size || !Intact(apdus[0] + apdus[1]) then None
        else
          var data := apdus[1][..size - 1];
          if len != SEGMENTED then if |apdus| == 2 then Some(data) else None
          else match Reassemble(apdus[2..])
            case None => None
            case Some(more) => Some(data + more)
  }

  lemma BlockIsIntact(cls: byte, ins: byte, img: seq<byte>)
    ensures Intact(BlockHeader(cls, ins, |img|) + BlockData(cls, ins, img))
  {
    var h, data := BlockHeader(cls, ins, |img|), img[..BlockSize(|img|)];
    IntactIffLrc(h + data, Lrc.Lrc(h + data));
    assert h + (data + [Lrc.Lrc(h + data)]) == h + data + [Lrc.Lrc(h + data)];
  }

  lemma {:induction false} SentInConcat(a: seq<Sight>, b: seq<Sight>)
    ensures SentIn(a + b) == SentIn(a) + SentIn(b)
    decreases |a|
  {
    if a == [] {
      assert a + b == b;
    } else {
      assert (a + b)[1..] == a[1..] + b;
      SentInConcat(a[1..], b);
    }
  }

  function BlockApdus(cls: byte, ins: byte, img: seq<byte>): seq<seq<byte>> {
    [BlockHeader(cls, ins, |img|)] + (if |img| == 0 then [] else [BlockData(cls, ins, img)])
  }

  lemma SentInPair(x: seq<byte>)
    ensures SentIn([Tx(x), POSITIVE]) == [x]
  {
    var t := [Tx(x), POSITIVE];
    assert t[1..] == [POSITIVE];
    assert SentIn(t[1..]) == SentIn(t[1..][1..]) && t[1..][1..] == [];
    assert SentIn(t) == [x] + SentIn(t[1..]);
  }

  lemma SentInTransfer(cls: byte, ins: byte, img: seq<byte>)
    ensures SentIn(Transfer(cls, ins, img)) ==
      BlockApdus(cls, ins, img) + (if |img| <= MAX_DATA_MOSI then [] else SentIn(Transfer(cls, ins, img[MAX_DATA_MOSI..])))
  {
    SentInPair(BlockHeader(cls, ins, |img|));
    if |img| > 0 { SentInPair(BlockData(cls, ins, img)); }
    var head, data := [Tx(BlockHeader(cls, ins, |img|)), POSITIVE], [Tx(BlockData(cls, ins, img)), POSITIVE];
    SentInConcat(head, if |img| == 0 then [] else data);
    SentInConcat(Block(cls, ins, img), if |img| <= MAX_DATA_MOSI then [] else Transfer(cls, ins, img[MAX_DATA_MOSI..]));
  }

  function Blocks(n: nat): nat { if n <= MAX_DATA_MOSI then 1 else 1 + Blocks(n - MAX_DATA_MOSI) }

  lemma {:induction false} BlocksIsCeiling(n: nat)
    ensures n > 0 ==> Blocks(n) == (n + MAX_DATA_MOSI - 1) / MAX_DATA_MOSI
    ensures n == 0 ==> Blocks(n) == 1
  {
    if n > MAX_DATA_MOSI {
      BlocksIsCeiling(n - MAX_DATA_MOSI);
      assert (n + MAX_DATA_MOSI - 1) / MAX_DATA_MOSI == 1 + (n - 1) / MAX_DATA_MOSI;
    }
  }

  /** Segmentation and reassembly undo each other, for every image; a non-empty image takes a header and
      a data APDU a block, and ceil(n / 2048) blocks. */
  lemma {:induction false} ReassembleTransfer(cls: byte, ins: byte, img: seq<byte>)
    ensures Reassemble(SentIn(Transfer(cls, ins, img))) == Some(img)
    ensures |SentIn(Transfer(cls, ins, img))| == if |img| == 0 then 1 else 2 * Blocks(|img|)
    decreases |img|
  {
    var apdus := SentIn(Transfer(cls, ins, img));
    SentInTransfer(cls, ins, img);
    BlockIsIntact(cls, ins, img);
    if |img| > MAX_DATA_MOSI {
      var rest := img[MAX_DATA_MOSI..];
      ReassembleTransfer(cls, ins, rest);
      assert apdus[2..] == SentIn(Transfer(cls, ins, rest));
      assert img == img[..MAX_DATA_MOSI] + rest;
      assert BlockData(cls, ins, img)[..MAX_DATA_MOSI] == img[..MAX_DATA_MOSI];
    } else if |img| > 0 {
      assert BlockData(cls, ins, img)[..|img|] == img;
    }
  }

  lemma Later<T>(a: seq<T>, b: seq<T>, i: nat)
    requires |a| == 2 && i + 1 < |b|
    ensures (a + b)[i + 2] == b[i] && (a + b)[i + 3] == b[i + 1]
  {
  }

  predicate FullAt(apdus: seq<seq<byte>>, cls: byte, ins: byte, i: nat) {
    && i + 1 < |apdus| && |apdus[i + 1]| == MAX_DATA_MOSI + 1
    && apdus[i] == HeaderOf(cls, ins, SEGMENTED).Octets()
  }

  lemma FirstBlockIsFull(cls: byte, ins: byte, img: seq<byte>) returns (rest: seq<seq<byte>>)
    requires |img| > MAX_DATA_MOSI
    ensures rest == SentIn(Transfer(cls, ins, img[MAX_DATA_MOSI..])) && |BlockApdus(cls, ins, img)| == 2
    ensures SentIn(Transfer(cls, ins, img)) == BlockApdus(cls, ins, img) + rest
    ensures FullAt(SentIn(Transfer(cls, ins, img)), cls, ins, 0)
  {
    SentInTransfer(cls, ins, img);
    rest := SentIn(Transfer(cls, ins, img[MAX_DATA_MOSI..]));
  }

  /** Every block but the last carries 2048 bytes. */
  lemma {:induction false} FullBlocks(cls: byte, ins: byte, img: seq<byte>, k: nat)
    requires k + 1 < Blocks(|img|)
    ensures FullAt(SentIn(Transfer(cls, ins, img)), cls, ins, 2 * k)
    decreases |img|
  {
    var rest := FirstBlockIsFull(cls, ins, img);
    if k > 0 {
      FullBlocks(cls, ins, img[MAX_DATA_MOSI..], k - 1);
      Later(BlockApdus(cls, ins, img), rest, 2 * (k - 1));
    }
  }

  /** Every APDU but the first stands behind a positive acknowledgement, and one is last. */
  predicate Paired(t: seq<Sight>) {
    t != [] && t[|t| - 1] == POSITIVE && forall k :: 0 < k < |t| && t[k].Tx? ==> t[k - 1] == POSITIVE
  }

  lemma PairedConcat(a: seq<Sight>, b: seq<Sight>)
    requires Paired(a) && Paired(b)
    ensures Paired(a + b)
  {
    var t := a + b;
    forall k | 0 < k < |t| && t[k].Tx? ensures t[k - 1] == POSITIVE {
      if k > |a| { assert b[k - |a|] == t[k] && b[k - |a| - 1] == t[k - 1]; }
    }
  }

  lemma {:induction false} TransferIsPaired(cls: byte, ins: byte, img: seq<byte>)
    ensures Paired(Transfer(cls, ins, img))
    decreases |img|
  {
    assert Paired(Block(cls, ins, img));
    if |img| > MAX_DATA_MOSI {
      TransferIsPaired(cls, ins, img[MAX_DATA_MOSI..]);
      PairedConcat(Block(cls, ins, img), Transfer(cls, ins, img[MAX_DATA_MOSI..]));
    }
  }

  // ----- What a transfer does on the link

  /** `t` runs along `full`, except that its last event may be a refusal in place of an acknowledgement. */
  predicate Along(t: seq<Sight>, full: seq<Sight>) {
    && |t| <= |full| && (forall k :: 0 <= k < |t| - 1 ==> t[k] == full[k])
    && (t == [] || t[|t| - 1] == full[|t| - 1] || (t[|t| - 1].Rx? && full[|t| - 1] == POSITIVE))
  }

  lemma AcknowledgedTrace(l: Link, bytes: seq<byte>)
    ensures var r := Acknowledged(l, bytes);
      && Seen(l) <= Seen(r.link) && Along(Seen(r.link)[|Seen(l)|..], [Tx(bytes), POSITIVE])
      && (r.ok ==> Seen(r.link) == Seen(l) + [Tx(bytes), POSITIVE])
  {
    var p := Put(l, bytes);
    if p.ok {
      var g := GetHeader(p.link);
      assert Seen(p.link) == Seen(l) + [Tx(bytes)];
      assert g.ok ==> Seen(g.link) == Seen(l) + [Tx(bytes), Rx(g.link.hdr.cls, g.link.hdr.ins)];
    }
  }

  lemma AlongBehind(done: seq<Sight>, t: seq<Sight>, full: seq<Sight>)
    requires Along(t, full)
    ensures Along(done + t, done + full)
  {
  }

  /** A second stretch behind a completed one. */
  lemma BehindBlock(before: seq<Sight>, done: seq<Sight>, after: seq<Sight>, full: seq<Sight>)
    requires before + done <= after && Along(after[|before| + |done|..], full)
    ensures before <= after && Along(after[|before|..], done + full)
    ensures after == before + done + full ==> after == before + (done + full)
  {
    AlongBehind(done, after[|before| + |done|..], full);
    assert after[|before|..] == done + after[|before| + |done|..];
  }

  /** A first stretch that stopped. */
  lemma AlongLonger(t: seq<Sight>, full: seq<Sight>, more: seq<Sight>)
    requires Along(t, full)
    ensures Along(t, full + more)
  {
  }

  lemma PutBlockTrace(l: Link, cls: byte, ins: byte, img: seq<byte>)
    ensures var r := PutBlock(l, cls, ins, img);
      && Seen(l) <= Seen(r.link) && Along(Seen(r.link)[|Seen(l)|..], Block(cls, ins, img))
      && (r.ok ==> Seen(r.link) == Seen(l) + Block(cls, ins, img))
  {
    var head := BlockHeader(cls, ins, |img|);
    AcknowledgedTrace(l, head);
    if |img| == 0 {
      assert Block(cls, ins, img) == [Tx(head), POSITIVE];
    } else {
      TwoAcknowledged(l, head, BlockData(cls, ins, img));
    }
  }

  lemma TwoAcknowledged(l: Link, head: seq<byte>, data: seq<byte>)
    ensures var h := Acknowledged(l, head);
      var r := if h.ok then Acknowledged(h.link, data) else h;
      && Seen(l) <= Seen(r.link) && Along(Seen(r.link)[|Seen(l)|..], [Tx(head), POSITIVE] + [Tx(data), POSITIVE])
      && (r.ok ==> Seen(r.link) == Seen(l) + ([Tx(head), POSITIVE] + [Tx(data), POSITIVE]))
  {
    var h := Acknowledged(l, head);
    AcknowledgedTrace(l, head);
    AlongLonger(Seen(h.link)[|Seen(l)|..], [Tx(head), POSITIVE], [Tx(data), POSITIVE]);
    if h.ok {
      AcknowledgedTrace(h.link, data);
      BehindBlock(Seen(l), [Tx(head), POSITIVE], Seen(Acknowledged(h.link, data).link), [Tx(data), POSITIVE]);
    }
  }

  /** From `before` to `after` the host has gone along `full`; all of it, if it succeeded. */
  predicate Traces(before: seq<Sight>, after: seq<Sight>, ok: bool, full: seq<Sight>) {
    before <= after && Along(after[|before|..], full) && (ok ==> after == before + full)
  }

  lemma TracesOn(before: seq<Sight>, mid: seq<Sight>, after: seq<Sight>, ok: bool, block: seq<Sight>, rest: seq<Sight>)
    requires Traces(before, mid, true, block) && Traces(mid, after, ok, rest)
    ensures Traces(before, after, ok, block + rest)
  {
    BehindBlock(before, block, after, rest);
  }

  lemma TracesLess(before: seq<Sight>, after: seq<Sight>, block: seq<Sight>, more: seq<Sight>)
    requires Traces(before, after, false, block)
    ensures Traces(before, after, false, block + more)
  {
    AlongLonger(after[|before|..], block, more);
  }

  /** On success the host has seen exactly the transfer. However it ends, what was sent is sent in order. */
  lemma {:induction false} PutCommandTrace(l: Link, cls: byte, ins: byte, img: seq<byte>)
    ensures var r := PutCommand(l, cls, ins, img); Traces(Seen(l), Seen(r.link), r.ok, Transfer(cls, ins, img))
    decreases |img|
  {
    var b, block := PutBlock(l, cls, ins, img), Block(cls, ins, img);
    PutBlockTrace(l, cls, ins, img);
    if |img| > MAX_DATA_MOSI {
      var rest := img[MAX_DATA_MOSI..];
      if b.ok {
        PutCommandTrace(b.link, cls, ins, rest);
        var r := PutCommand(b.link, cls, ins, rest);
        TracesOn(Seen(l), Seen(b.link), Seen(r.link), r.ok, block, Transfer(cls, ins, rest));
      } else {
        TracesLess(Seen(l), Seen(b.link), block, Transfer(cls, ins, rest));
      }
    } else {
      assert block + [] == block;
    }
  }

  /** So the host sends an APDU only when it has found a positive acknowledgement of the one before in its
      header, however the transfer ends. */
  lemma NextNeedsAcknowledgement(l: Link, cls: byte, ins: byte, img: seq<byte>, k: nat)
    ensures l.trace <= PutCommand(l, cls, ins, img).link.trace
    ensures
      var t := PutCommand(l, cls, ins, img).link.trace;
      |l.trace| < k < |t| && t[k].Sent? ==> t[k - 1].Got? && Positive(t[k - 1].header)
  {
    PutCommandTrace(l, cls, ins, img);
    TransferIsPaired(cls, ins, img);
    TraceGrows(l, cls, ins, img);
    var t := PutCommand(l, cls, ins, img).link.trace;
    if |l.trace| < k < |t| && t[k].Sent? {
      FoundBefore(t, |l.trace|, Transfer(cls, ins, img), k);
    }
  }

  lemma FoundBefore(t: seq<Event>, from: nat, full: seq<Sight>, k: nat)
    requires from < k < |t| && Along(SeenIn(t)[from..], full) && Paired(full) && t[k].Sent?
    ensures t[k - 1].Got? && Positive(t[k - 1].header)
  {
    var seen, j := SeenIn(t)[from..], k - from;
    assert seen[j] == Sees(t[k]) && seen[j - 1] == Sees(t[k - 1]);
    SeenBefore(seen, full, j);
  }

  lemma SeenBefore(seen: seq<Sight>, full: seq<Sight>, j: nat)
    requires 0 < j < |seen| && Along(seen, full) && Paired(full) && seen[j].Tx?
    ensures seen[j - 1] == POSITIVE
  {
    assert seen[j] == full[j] && seen[j - 1] == full[j - 1];
  }

  lemma {:induction false} TraceGrows(l: Link, cls: byte, ins: byte, img: seq<byte>)
    ensures l.trace <= PutCommand(l, cls, ins, img).link.trace
    decreases |img|
  {
    var b := PutBlock(l, cls, ins, img);
    assert l.trace <= b.link.trace;
    if b.ok && |img| > MAX_DATA_MOSI { TraceGrows(b.link, cls, ins, img[MAX_DATA_MOSI..]); }
  }

  // ----- What the device itself has said

  predicate Positive(h: Header) { h.cls == ACK && h.ins == VALID_APDU }

  /** A read that delivers class and instruction, and one that delivers a positive acknowledgement. */
  predicate Delivers(io: Io) { io.Done? && |io.bytes| >= 2 }
  predicate Acknowledges(io: Io) { Delivers(io) && io.bytes[0] == ACK && io.bytes[1] == VALID_APDU }

  /** The host, with `h` in its header, takes the device's next `n` exchanges for acknowledged ones: old
      bytes stand where a read is short. */
  predicate Accepts(h: Header, s: seq<Io>, n: nat)
    decreases n
  {
    n == 0 ||
    (|s| >= 2 && s[0].Done? && s[1].Done? && Positive(Overlay(h, s[1].bytes)) && Accepts(Overlay(h, s[1].bytes), s[2..], n - 1))
  }

  function LastHeader(h: Header, s: seq<Io>, n: nat): Header
    requires Accepts(h, s, n)
    decreases n
  {
    if n == 0 then h else LastHeader(Overlay(h, s[1].bytes), s[2..], n - 1)
  }

  lemma {:induction false} AcceptsSplit(h: Header, s: seq<Io>, a: nat, b: nat)
    ensures Accepts(h, s, a) ==> 2 * a <= |s|
    ensures Accepts(h, s, a + b) <==> Accepts(h, s, a) && Accepts(LastHeader(h, s, a), s[2 * a..], b)
    ensures Accepts(h, s, a + b) ==> LastHeader(h, s, a + b) == LastHeader(LastHeader(h, s, a), s[2 * a..], b)
    decreases a
  {
    if a == 0 {
      assert s[0..] == s;
    } else if |s| >= 2 && s[1].Done? {
      AcceptsSplit(Overlay(h, s[1].bytes), s[2..], a - 1, b);
      assert 2 * a <= |s| ==> s[2..][2 * (a - 1)..] == s[2 * a..];
    }
  }

  /** The number of APDUs of a transfer. */
  function Apdus(n: nat): nat { if n == 0 then 1 else 2 * Blocks(n) }

  /** What an outcome is when exactly `n` exchanges decide it. */
  predicate DecidedBy(l: Link, n: nat, r: Outcome) {
    && (r.ok <==> Accepts(l.hdr, l.script, n))
    && (r.ok ==> 2 * n <= |l.script| && r.link.script == l.script[2 * n..] && r.link.hdr == LastHeader(l.hdr, l.script, n))
  }

  lemma AcknowledgedIff(l: Link, bytes: seq<byte>)
    ensures DecidedBy(l, 1, Acknowledged(l, bytes))
  {
    if |l.script| >= 2 {
      assert l.script[1..][0] == l.script[1] && l.script[1..][1..] == l.script[2..];
    }
  }

  lemma DecidedInTurn(l: Link, a: nat, x: Outcome, b: nat, y: Outcome)
    requires DecidedBy(l, a, x) && (if x.ok then DecidedBy(x.link, b, y) else !y.ok)
    ensures DecidedBy(l, a + b, y)
  {
    AcceptsSplit(l.hdr, l.script, a, b);
    if x.ok && y.ok {
      AcceptsSplit(x.link.hdr, x.link.script, b, 0);
      assert l.script[2 * a..][2 * b..] == l.script[2 * (a + b)..];
    }
  }

  lemma PutBlockIff(l: Link, cls: byte, ins: byte, img: seq<byte>)
    ensures DecidedBy(l, if |img| == 0 then 1 else 2, PutBlock(l, cls, ins, img))
  {
    var head := BlockHeader(cls, ins, |img|);
    AcknowledgedIff(l, head);
    if |img| > 0 {
      var h := Acknowledged(l, head);
      if h.ok { AcknowledgedIff(h.link, BlockData(cls, ins, img)); }
      DecidedInTurn(l, 1, h, 1, PutBlock(l, cls, ins, img));
    }
  }

  /** Exactly when a transfer succeeds, against every device: when the host finds a positive
      acknowledgement in its header after each of its APDUs. */
  lemma {:induction false} PutCommandSucceedsIff(l: Link, cls: byte, ins: byte, img: seq<byte>)
    ensures DecidedBy(l, Apdus(|img|), PutCommand(l, cls, ins, img))
    decreases |img|
  {
    PutBlockIff(l, cls, ins, img);
    if |img| > MAX_DATA_MOSI {
      var b, rest := PutBlock(l, cls, ins, img), img[MAX_DATA_MOSI..];
      if b.ok { PutCommandSucceedsIff(b.link, cls, ins, rest); }
      DecidedInTurn(l, 2, b, Apdus(|rest|), PutCommand(l, cls, ins, img));
    }
  }

  lemma {:induction false} AcceptedAnswers(h: Header, s: seq<Io>, n: nat, i: nat)
    requires Accepts(h, s, n) && i < n
    ensures 2 * n <= |s| && (Delivers(s[2 * i + 1]) ==> Acknowledges(s[2 * i + 1]))
    decreases n
  {
    AcceptsSplit(h, s, n, 0);
    if i > 0 { AcceptedAnswers(Overlay(h, s[1].bytes), s[2..], n - 1, i - 1); }
  }

  /** After a successful transfer every APDU was acknowledged by bytes the device delivered if and only if
      every header read delivered at least class and instruction. */
  lemma AcknowledgedByDeviceIff(l: Link, cls: byte, ins: byte, img: seq<byte>)
    requires PutCommand(l, cls, ins, img).ok
    ensures 2 * Apdus(|img|) <= |l.script|
    ensures (forall i :: 0 <= i < Apdus(|img|) ==> Acknowledges(l.script[2 * i + 1])) <==>
      (forall i :: 0 <= i < Apdus(|img|) ==> Delivers(l.script[2 * i + 1]))
  {
    PutCommandSucceedsIff(l, cls, ins, img);
    forall i | 0 <= i < Apdus(|img|) ensures Delivers(l.script[2 * i + 1]) ==> Acknowledges(l.script[2 * i + 1]) {
      AcceptedAnswers(l.hdr, l.script, Apdus(|img|), i);
    }
  }

  /** Without a single further byte a positive header stays one. */
  lemma {:induction false} SilenceIsAccepted(h: Header, s: seq<Io>, n: nat)
    requires Positive(h) && 2 * n <= |s| && forall k :: 0 <= k < 2 * n ==> s[k] == Done([])
    ensures Accepts(h, s, n)
    decreases n
  {
    if n > 0 { SilenceIsAccepted(h, s[2..], n - 1); }
  }

  /** A device that never delivers a byte is taken to acknowledge every image, if an acknowledgement is
      left in the header. */
  lemma SilentDeviceIsBelieved(l: Link, cls: byte, ins: byte, img: seq<byte>)
    requires Positive(l.hdr) && 2 * Apdus(|img|) <= |l.script|
    requires forall k :: 0 <= k < 2 * Apdus(|img|) ==> l.script[k] == Done([])
    ensures PutCommand(l, cls, ins, img).ok
  {
    PutCommandSucceedsIff(l, cls, ins, img);
    SilenceIsAccepted(l.hdr, l.script, Apdus(|img|));
  }

  /** And whatever is in the header, one acknowledgement of the first APDU is enough for all. */
  lemma OneAcknowledgementIsEnough(l: Link, cls: byte, ins: byte, img: seq<byte>)
    requires 2 * Apdus(|img|) <= |l.script| && l.script[0].Done? && Acknowledges(l.script[1])
    requires forall k :: 2 <= k < 2 * Apdus(|img|) ==> l.script[k] == Done([])
    ensures PutCommand(l, cls, ins, img).ok
  {
    PutCommandSucceedsIff(l, cls, ins, img);
    SilenceIsAccepted(Overlay(l.hdr, l.script[1].bytes), l.script[2..], Apdus(|img|) - 1);
  }

  /** The header the host finds agrees with what was delivered, as far as that goes. */
  predicate Honest(e: Event) {
    e.Got? ==> (|e.bytes| > 0 ==> e.bytes[0] == e.header.cls) && (|e.bytes| > 1 ==> e.bytes[1] == e.header.ins)
  }

  predicate AllHonest(l: Link) { forall k :: 0 <= k < |l.trace| ==> Honest(l.trace[k]) }

  lemma ExchangeIsHonest(l: Link, bytes: seq<byte>)
    requires AllHonest(l)
    ensures AllHonest(Exchange(l, bytes).link)
  {
  }

  lemma {:induction false} PutCommandIsHonest(l: Link, cls: byte, ins: byte, img: seq<byte>)
    requires AllHonest(l)
    ensures AllHonest(PutCommand(l, cls, ins, img).link)
    decreases |img|
  {
    var b := PutBlock(l, cls, ins, img);
    ExchangeIsHonest(l, BlockHeader(cls, ins, |img|));
    ExchangeIsHonest(Acknowledged(l, BlockHeader(cls, ins, |img|)).link, BlockData(cls, ins, img));
    if b.ok && |img| > MAX_DATA_MOSI { PutCommandIsHonest(b.link, cls, ins, img[MAX_DATA_MOSI..]); }
  }

  lemma TurnIsHonest(l: Link, query: seq<byte>, mode: byte, base: byte, img: seq<byte>)
    requires base <= 0xF0 && AllHonest(l)
    ensures match StatusTurn(l, query, mode, base, img)
      case Over(o) => AllHonest(o.link)
      case Again(next) => AllHonest(next)
  {
    ExchangeIsHonest(l, query);
    PutCommandIsHonest(Exchange(l, query).link, base as int + COMMAND, DOWNLOAD, img);
  }

  lemma {:induction false} DownloadIsHonest(l: Link, query: seq<byte>, mode: byte, base: byte, img: seq<byte>)
    requires base <= 0xF0 && AllHonest(l)
    ensures AllHonest(Download(l, query, mode, base, img).link)
    decreases |l.script|
  {
    TurnIsHonest(l, query, mode, base, img);
    match StatusTurn(l, query, mode, base, img)
    case Over(_) =>
    case Again(next) => DownloadIsHonest(next, Query(base as int + QUERY, DOWNLOAD), mode, base, img);
  }

  // ----- What a successful download means

  /** The events of a successful status loop whose first query is `query`, with `n` rounds that ended in
      the transfer `t`: each round is a query answered by the mode's ready status, then the transfer; the
      last query is answered by success. Behind a transfer the query is the one for the image status. */
  function DownloadLog(query: seq<byte>, mode: byte, base: byte, t: seq<Sight>, n: nat): seq<Sight>
    requires base <= 0xF0
    decreases n
  {
    if n == 0 then [Tx(query), Rx(base as int + ANSWER, SUCCESS)]
    else [Tx(query), Rx(ANSWER, mode)] + t + DownloadLog(Query(base as int + QUERY, DOWNLOAD), mode, base, t, n - 1)
  }

  lemma ExchangeTrace(l: Link, bytes: seq<byte>)
    ensures var r := Exchange(l, bytes);
      r.ok ==> Seen(r.link) == Seen(l) + [Tx(bytes), Rx(r.link.hdr.cls, r.link.hdr.ins)]
  {
    var r := Exchange(l, bytes);
    if r.ok {
      assert r.link.trace == l.trace + [Sent(bytes), r.link.trace[|l.trace| + 1]];
    }
  }

  /** How a turn of a successful status loop looks: the last exchange, or a round. */
  lemma TurnTrace(l: Link, query: seq<byte>, mode: byte, base: byte, img: seq<byte>, t: seq<Sight>)
    requires 0 < base <= 0xF0 && mode != 0 && t == Transfer(base as int + COMMAND, DOWNLOAD, img)
    ensures match StatusTurn(l, query, mode, base, img)
      case Over(o) => o.ok ==> Seen(o.link) == Seen(l) + [Tx(query), Rx(base as int + ANSWER, SUCCESS)]
      case Again(next) => Seen(next) == Seen(l) + [Tx(query), Rx(ANSWER, mode)] + t
  {
    var s := Exchange(l, query).link;
    ExchangeTrace(l, query);
    if StatusTurn(l, query, mode, base, img).Again? {
      PutCommandTrace(s, base as int + COMMAND, DOWNLOAD, img);
    }
  }

  lemma Append4<T>(a: seq<T>, b: seq<T>, c: seq<T>, d: seq<T>)
    ensures a + b + c + d == a + (b + c + d)
  {
  }

  /** The loop's last turn. */
  lemma LastTurn(l: Link, query: seq<byte>, mode: byte, base: byte, img: seq<byte>, t: seq<Sight>) returns (n: nat)
    requires 0 < base <= 0xF0 && mode != 0 && Download(l, query, mode, base, img).ok
    requires t == Transfer(base as int + COMMAND, DOWNLOAD, img) && StatusTurn(l, query, mode, base, img).Over?
    ensures Seen(Download(l, query, mode, base, img).link) == Seen(l) + DownloadLog(query, mode, base, t, n)
  {
    TurnTrace(l, query, mode, base, img, t);
    n := 0;
  }

  /** One more turn in front of a log. */
  lemma OneMoreRound(before: seq<Sight>, here: seq<Sight>, end: seq<Sight>, query: seq<byte>, mode: byte, base: byte,
                     t: seq<Sight>, m: nat) returns (n: nat)
    requires base <= 0xF0 && here == before + [Tx(query), Rx(ANSWER, mode)] + t
    requires end == here + DownloadLog(Query(base as int + QUERY, DOWNLOAD), mode, base, t, m)
    ensures end == before + DownloadLog(query, mode, base, t, n)
  {
    Append4(before, [Tx(query), Rx(ANSWER, mode)], t, DownloadLog(Query(base as int + QUERY, DOWNLOAD), mode, base, t, m));
    n := m + 1;
  }

  lemma NextTurn(l: Link, next: Link, query: seq<byte>, mode: byte, base: byte, img: seq<byte>)
    requires base <= 0xF0 && StatusTurn(l, query, mode, base, img) == Again(next)
    ensures Download(l, query, mode, base, img) == Download(next, Query(base as int + QUERY, DOWNLOAD), mode, base, img)
  {
  }

  /** A successful status loop: some number of complete transfers, each right after the mode's ready
      answer, then success in answer to the last query. */
  lemma {:induction false} DownloadTrace(l: Link, query: seq<byte>, mode: byte, base: byte, img: seq<byte>, t: seq<Sight>) returns (n: nat)
    requires 0 < base <= 0xF0 && mode != 0 && Download(l, query, mode, base, img).ok
    requires t == Transfer(base as int + COMMAND, DOWNLOAD, img)
    ensures Seen(Download(l, query, mode, base, img).link) == Seen(l) + DownloadLog(query, mode, base, t, n)
    decreases |l.script|
  {
    match StatusTurn(l, query, mode, base, img)
    case Over(_) =>
      n := LastTurn(l, query, mode, base, img, t);
    case Again(next) =>
      TurnTrace(l, query, mode, base, img, t);
      NextTurn(l, next, query, mode, base, img);
      var m := DownloadTrace(next, Query(base as int + QUERY, DOWNLOAD), mode, base, img, t);
      n := OneMoreRound(Seen(l), Seen(next), Seen(Download(l, query, mode, base, img).link), query, mode, base, t, m);
  }

  /** Opening a download: HBCI ready, and the mode command acknowledged. */
  function Opening(mode: byte): seq<Sight> {
    [Tx(StatusQuery()), Rx(ANSWER, STATUS), Tx(Query(COMMAND, mode)), POSITIVE]
  }

  lemma OpeningTrace(before: seq<Sight>, mode: byte, rest: seq<Sight>)
    ensures before + [Tx(StatusQuery()), Rx(ANSWER, STATUS)] + Transfer(COMMAND, mode, []) + rest ==
      before + (Opening(mode) + rest)
  {
    assert Transfer(COMMAND, mode, []) == [Tx(Query(COMMAND, mode)), POSITIVE];
  }

  /** The events of a successful run in HIF mode with `n` image transfers. */
  function HifLog(img: seq<byte>, n: nat): seq<Sight> {
    Opening(MODE_HIF_IMAGE) + DownloadLog(StatusQuery(), MODE_HIF_IMAGE, BASE_HIF_IMAGE, HifTransfer(img), n)
  }

  function HifTransfer(img: seq<byte>): seq<Sight> { Transfer(BASE_HIF_IMAGE + COMMAND, DOWNLOAD, img) }

  /** The host has seen HBCI ready, and the mode command acknowledged. */
  lemma OpeningSeen(l: Link, mode: byte)
    requires Exchange(l, StatusQuery()).ok && PutCommand(Exchange(l, StatusQuery()).link, COMMAND, mode, []).ok
    requires Exchange(l, StatusQuery()).link.hdr.cls == ANSWER && Exchange(l, StatusQuery()).link.hdr.ins == STATUS
    ensures Seen(PutCommand(Exchange(l, StatusQuery()).link, COMMAND, mode, []).link) ==
      Seen(l) + [Tx(StatusQuery()), Rx(ANSWER, STATUS)] + Transfer(COMMAND, mode, [])
  {
    ExchangeTrace(l, StatusQuery());
    PutCommandTrace(Exchange(l, StatusQuery()).link, COMMAND, mode, []);
  }

  /** Success in HIF mode: HBCI ready, the mode acknowledged, then in each round HIF ready and the complete
      image acknowledged, then Image_Success, in that order and nothing else; all this as the host sees it. */
  lemma MasterSuccess(l: Link, img: seq<byte>) returns (n: nat)
    requires Master(l, MODE_HIF_IMAGE, img).ok
    ensures Seen(Master(l, MODE_HIF_IMAGE, img).link) == Seen(l) + HifLog(img, n)
  {
    var c := PutCommand(Exchange(l, StatusQuery()).link, COMMAND, MODE_HIF_IMAGE, []);
    OpeningSeen(l, MODE_HIF_IMAGE);
    n := DownloadTrace(c.link, StatusQuery(), MODE_HIF_IMAGE, BASE_HIF_IMAGE, img, HifTransfer(img));
    OpeningTrace(Seen(l), MODE_HIF_IMAGE, DownloadLog(StatusQuery(), MODE_HIF_IMAGE, BASE_HIF_IMAGE, HifTransfer(img), n));
  }

  lemma MasterIsHonest(l: Link, mode: byte, img: seq<byte>)
    requires AllHonest(l)
    ensures AllHonest(Master(l, mode, img).link)
  {
    var s := Exchange(l, StatusQuery()).link;
    ExchangeIsHonest(l, StatusQuery());
    PutCommandIsHonest(s, COMMAND, mode, []);
    var c := PutCommand(s, COMMAND, mode, []).link;
    DownloadIsHonest(c, StatusQuery(), mode, BASE_PATCH_ROM, img);
    DownloadIsHonest(c, StatusQuery(), mode, BASE_HIF_IMAGE, img);
  }

  /** What the host saw is what the device said, over a whole run in any mode, if and only if every header
      read delivered at least class and instruction. */
  lemma SeenIsSaidIff(l: Link, mode: byte, img: seq<byte>)
    requires l.trace == []
    ensures var t := Master(l, mode, img).link.trace;
      (forall k :: 0 <= k < |t| && t[k].Got? ==> |t[k].bytes| >= 2 && Rx(t[k].bytes[0], t[k].bytes[1]) == Sees(t[k])) <==>
      (forall k :: 0 <= k < |t| && t[k].Got? ==> |t[k].bytes| >= 2)
  {
    MasterIsHonest(l, mode, img);
    var t := Master(l, mode, img).link.trace;
    forall k | 0 <= k < |t| && t[k].Got? && |t[k].bytes| >= 2 ensures Rx(t[k].bytes[0], t[k].bytes[1]) == Sees(t[k]) {
      assert Honest(t[k]);
    }
  }

  /** The device's first answer inside the status loop. */
  const FIRST_ANSWER := 5

  /** A log with a round begins with it, and ends with the answer to the image status query. */
  lemma {:induction false} LogEnds(query: seq<byte>, mode: byte, base: byte, t: seq<Sight>, n: nat) returns (more: seq<Sight>)
    requires base <= 0xF0 && n > 0
    ensures DownloadLog(query, mode, base, t, n) ==
      [Tx(query), Rx(ANSWER, mode)] + t + (more + [Tx(Query(base as int + QUERY, DOWNLOAD)), Rx(base as int + ANSWER, SUCCESS)])
    decreases n
  {
    var again := Query(base as int + QUERY, DOWNLOAD);
    var last := [Tx(again), Rx(base as int + ANSWER, SUCCESS)];
    if n == 1 {
      more := [];
      assert more + last == last;
    } else {
      var rest := LogEnds(again, mode, base, t, n - 1);
      more := [Tx(again), Rx(ANSWER, mode)] + t + rest;
      assert [Tx(again), Rx(ANSWER, mode)] + t + (rest + last) == more + last;
    }
  }

  /** With at least one round, the complete image is there to be reassembled, right behind HIF ready, and
      the run ends with an image status query answered by Image_Success. */
  lemma ImageSent(img: seq<byte>, n: nat) returns (more: seq<Sight>)
    requires n > 0
    ensures HifLog(img, n) == Opening(MODE_HIF_IMAGE) + ([Tx(StatusQuery()), Rx(ANSWER, MODE_HIF_IMAGE)] + HifTransfer(img) +
      (more + [Tx(Query(BASE_HIF_IMAGE + QUERY, DOWNLOAD)), Rx(BASE_HIF_IMAGE + ANSWER, SUCCESS)]))
    ensures Reassemble(SentIn(HifTransfer(img))) == Some(img)
  {
    ReassembleTransfer(BASE_HIF_IMAGE + COMMAND, DOWNLOAD, img);
    more := LogEnds(StatusQuery(), MODE_HIF_IMAGE, BASE_HIF_IMAGE, HifTransfer(img), n);
  }

  /** Success means the image was transferred exactly when the device answered the first general query of
      the status loop in the general class. */
  lemma ImageSentIffGeneralAnswer(img: seq<byte>, n: nat)
    ensures var log := HifLog(img, n);
      && |log| > FIRST_ANSWER && log[4] == Tx(StatusQuery())
      && (n > 0 <==> log[FIRST_ANSWER] == Rx(ANSWER, MODE_HIF_IMAGE))
      && (n == 0 <==> log[FIRST_ANSWER] == Rx(BASE_HIF_IMAGE + ANSWER, SUCCESS))
  {
    FirstAnswer(StatusQuery(), MODE_HIF_IMAGE, BASE_HIF_IMAGE, HifTransfer(img), n);
  }

  lemma FirstAnswer(query: seq<byte>, mode: byte, base: byte, t: seq<Sight>, n: nat)
    requires base <= 0xF0
    ensures var d := DownloadLog(query, mode, base, t, n);
      |d| >= 2 && d[0] == Tx(query) && d[1] == if n == 0 then Rx(base as int + ANSWER, SUCCESS) else Rx(ANSWER, mode)
  {
  }

  /** A device that reports Image_Success at once is believed: Success without a byte of the image. */
  lemma SuccessWithoutImage(l: Link, img: seq<byte>)
    requires Seen(l) == []
    requires l.script == [Done([]), Done([ANSWER, STATUS, 0, 0]), Done([]), Done([ACK, VALID_APDU, 0, 0]),
                          Done([]), Done([BASE_HIF_IMAGE + ANSWER, SUCCESS, 0, 0])]
    ensures Master(l, MODE_HIF_IMAGE, img).ok
    ensures |Seen(Master(l, MODE_HIF_IMAGE, img).link)| == 6
  {
  }

  // ----- Information queries

  /** A read of `n` bytes into the payload; larger ones than the payload are refused. */
  function GetPayload(l: Link, n: nat): (r: Outcome)
    requires |l.payload| == MAX_DATA_MISO + 1
    ensures |r.link.payload| == |l.payload| && r.link.hdr == l.hdr
  {
    if n == 0 || n > MAX_DATA_MISO + 1 || l.script == [] then Outcome(false, l)
    else if l.script[0].Fails? then Outcome(false, l.(script := l.script[1..]))
    else
      var b := l.script[0].bytes;
      var got := if |b| > n then b[..n] else b;
      Outcome(true, l.(script := l.script[1..], payload := got + l.payload[|got|..]))
  }

  function DataSize(h: Header): nat { if h.Length() == 0 then 0 else h.Length() - 1 }

  /** The acknowledgement the host gives to an answer's header. */
  function Verdict(h: Header, cls: byte, ins: byte, maxSz: nat, matchMaxSz: bool): byte {
    if h.cls != cls / 0x10 * 0x10 + ANSWER then INVALID_CLASS
    else if h.ins != ins then INVALID_INSTRUCTION
    else if h.Length() >= SEGMENTED || DataSize(h) > maxSz || (matchMaxSz && DataSize(h) != maxSz) then INVALID_LENGTH
    else VALID_APDU
  }

  datatype Info = Info(ok: bool, link: Link, data: seq<byte>)

  /** The payload announced by the header, if its checksum is right. */
  function Collect(l: Link): Info
    requires |l.payload| == MAX_DATA_MISO + 1
  {
    var n, g := DataSize(l.hdr), GetPayload(l, l.hdr.Length());
    if !g.ok || g.link.payload[n] != Lrc.Lrc(l.hdr.Octets() + g.link.payload[..n]) then Info(false, g.link, [])
    else Info(true, g.link, g.link.payload[..n])
  }

  /** phHbci_QueryInfo. */
  function QueryInfo(l: Link, cls: byte, ins: byte, maxSz: nat, matchMaxSz: bool): Info
    requires |l.payload| == MAX_DATA_MISO + 1
  {
    var x := Exchange(l, Query(cls, ins));
    var h := x.link.hdr;
    if maxSz > MAX_DATA_MISO then Info(false, l, [])
    else if !x.ok || (h.Length() < SEGMENTED && DataSize(h) == 0) then Info(false, x.link, [])
    else
      var p := Put(x.link, Query(ACK, Verdict(h, cls, ins, maxSz, matchMaxSz)));
      if !p.ok || Verdict(h, cls, ins, maxSz, matchMaxSz) != VALID_APDU then Info(false, p.link, [])
      else Collect(p.link)
  }

  /** With a device that answers every access, and in full, a query succeeds exactly when the answer has
      the query's class and instruction, an acceptable size, and header, data and checksum that add up;
      and then yields exactly the data. */
  lemma QueryInfoSucceedsIff(l: Link, cls: byte, ins: byte, maxSz: nat, matchMaxSz: bool, h: Header, p: seq<byte>, rest: seq<Io>)
    requires |l.payload| == MAX_DATA_MISO + 1 && |p| == h.Length()
    requires l.script == [Done([]), Done(h.Octets()), Done([]), Done(p)] + rest
    ensures var r := QueryInfo(l, cls, ins, maxSz, matchMaxSz);
      && (r.ok <==>
            && h.cls == cls / 0x10 * 0x10 + ANSWER && h.ins == ins
            && 2 <= |p| <= maxSz + 1 <= MAX_DATA_MISO + 1 && (matchMaxSz ==> |p| == maxSz + 1)
            && Intact(h.Octets() + p))
      && (r.ok ==> r.data == p[..|p| - 1])
  {
    var x := Exchange(l, Query(cls, ins));
    assert l.script[1..][0] == Done(h.Octets()) && l.script[1..][1..] == [Done([]), Done(p)] + rest;
    assert x.link.hdr == h && x.link.script[1..][0] == Done(p);
    if 2 <= |p| <= MAX_DATA_MISO + 1 {
      var n := |p| - 1;
      assert p == p[..n] + [p[n]];
      assert h.Octets() + p == h.Octets() + p[..n] + [p[n]];
      IntactIffLrc(h.Octets() + p[..n], p[n]);
      assert (p + l.payload[|p|..])[..n] == p[..n];
    }
  }

  /** In every run, short reads and all: success means a matching header, and data that adds up with the
      checksum byte behind it in the payload. */
  lemma QueryInfoIsChecked(l: Link, cls: byte, ins: byte, maxSz: nat, matchMaxSz: bool)
    requires |l.payload| == MAX_DATA_MISO + 1 && QueryInfo(l, cls, ins, maxSz, matchMaxSz).ok
    ensures var r := QueryInfo(l, cls, ins, maxSz, matchMaxSz); var h := r.link.hdr;
      && h.cls == cls / 0x10 * 0x10 + ANSWER && h.ins == ins && h.Length() == |r.data| + 1
      && 0 < |r.data| <= maxSz <= MAX_DATA_MISO && (matchMaxSz ==> |r.data| == maxSz)
      && |r.link.payload| == MAX_DATA_MISO + 1 && r.data == r.link.payload[..|r.data|]
      && Intact(h.Octets() + r.link.payload[..|r.data| + 1])
  {
    var r := QueryInfo(l, cls, ins, maxSz, matchMaxSz);
    var n, o := |r.data|, r.link.hdr.Octets();
    IntactIffLrc(o + r.data, r.link.payload[n]);
    assert o + r.link.payload[..n + 1] == o + r.data + [r.link.payload[n]];
  }
}
