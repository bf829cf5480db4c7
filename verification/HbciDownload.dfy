/** Exactly when a firmware download succeeds, over what the device does, and what an ordinary one looks like
    in bytes (uwb/halimpl/fwd/sr1xx/phNxpUciHal_fwd.cc:152-232, 386-684). */
module HbciDownload {
  import opened Bytes
  import opened Hbci
  import opened Lrc

  /** A write and a read that do not fail. */
  predicate Exchanged(s: seq<Io>) { |s| >= 2 && s[0].Done? && s[1].Done? }

  /** The host finds class 4 and instruction 1 in its header after each of `n` exchanges. */
  predicate Acked(h: Header, s: seq<Io>, n: nat)
    decreases n
  {
    n == 0 ||
    (Exchanged(s) && var f := Overlay(h, s[1].bytes); f.cls == 4 && f.ins == 1 && Acked(f, s[2..], n - 1))
  }

  /** The header after them. */
  function HeaderAfter(h: Header, s: seq<Io>, n: nat): Header
    requires Acked(h, s, n)
    decreases n
  {
    if n == 0 then h else HeaderAfter(Overlay(h, s[1].bytes), s[2..], n - 1)
  }

  lemma {:induction false} AckedIsAccepted(h: Header, s: seq<Io>, n: nat)
    ensures Acked(h, s, n) <==> Accepts(h, s, n)
    ensures Acked(h, s, n) ==> 2 * n <= |s| && HeaderAfter(h, s, n) == LastHeader(h, s, n)
    decreases n
  {
    if n > 0 && Exchanged(s) { AckedIsAccepted(Overlay(h, s[1].bytes), s[2..], n - 1); }
  }

  /** The status loop: after a query the host finds either `answer` with instruction 1, which is success, or
      class 2 with the mode, behind which it finds `n` acknowledgements, and the loop goes on. */
  predicate LoopSucceeds(h: Header, s: seq<Io>, mode: byte, answer: byte, n: nat)
    decreases |s|
  {
    && Exchanged(s)
    && var f := Overlay(h, s[1].bytes);
       || (f.cls == answer && f.ins == 1)
       || (f.cls == 2 && f.ins == mode && Acked(f, s[2..], n) && 2 * n <= |s[2..]|
           && LoopSucceeds(HeaderAfter(f, s[2..], n), s[2..][2 * n..], mode, answer, n))
  }

  /** The two modes, and the classes of their answers. */
  predicate ModeOf(mode: byte, answer: byte) { (mode == 0x23 && answer == 0x22) || (mode == 0x24 && answer == 0x52) }

  predicate ModeSucceeds(h: Header, s: seq<Io>, mode: byte, n: nat) {
    (mode == 0x23 && LoopSucceeds(h, s, 0x23, 0x22, n)) || (mode == 0x24 && LoopSucceeds(h, s, 0x24, 0x52, n))
  }

  lemma ExchangeIff(l: Link, bytes: seq<byte>)
    ensures var r := Exchange(l, bytes);
      && (r.ok <==> Exchanged(l.script))
      && (r.ok ==> r.link.script == l.script[2..] && r.link.hdr == Overlay(l.hdr, l.script[1].bytes))
  {
    if |l.script| >= 2 { assert l.script[1..][0] == l.script[1] && l.script[1..][1..] == l.script[2..]; }
  }

  lemma PutCommandIff(l: Link, cls: byte, ins: byte, img: seq<byte>)
    ensures var r, n := PutCommand(l, cls, ins, img), Apdus(|img|);
      && (r.ok <==> Acked(l.hdr, l.script, n))
      && (r.ok ==> 2 * n <= |l.script| && r.link.script == l.script[2 * n..] && r.link.hdr == HeaderAfter(l.hdr, l.script, n))
  {
    PutCommandSucceedsIff(l, cls, ins, img);
    AckedIsAccepted(l.hdr, l.script, Apdus(|img|));
  }

  lemma {:induction false} LoopIff(l: Link, query: seq<byte>, mode: byte, answer: byte, img: seq<byte>)
    requires ModeOf(mode, answer)
    ensures Download(l, query, mode, answer - 2, img).ok <==> LoopSucceeds(l.hdr, l.script, mode, answer, Apdus(|img|))
    decreases |l.script|
  {
    var s, base := Exchange(l, query).link, answer - 2;
    ExchangeIff(l, query);
    PutCommandIff(s, base + 3, 1, img);
    match StatusTurn(l, query, mode, base, img)
    case Over(_) =>
    case Again(next) => LoopIff(next, Query(base + 1, 1), mode, answer, img);
  }

  predicate ModeDownloads(l: Link, mode: byte, img: seq<byte>) {
    (mode == 0x23 && Download(l, StatusQuery(), 0x23, 0x20, img).ok) || (mode == 0x24 && Download(l, StatusQuery(), 0x24, 0x50, img).ok)
  }

  lemma MasterIs(l: Link, mode: byte, img: seq<byte>)
    ensures var s := Exchange(l, StatusQuery()); var c := PutCommand(s.link, 3, mode, []);
      Master(l, mode, img).ok <==>
        s.ok && s.link.hdr.cls == 2 && s.link.hdr.ins == 0x21 && c.ok && ModeDownloads(c.link, mode, img)
  {
  }

  lemma ModeIff(l: Link, mode: byte, img: seq<byte>)
    ensures ModeDownloads(l, mode, img) <==> ModeSucceeds(l.hdr, l.script, mode, Apdus(|img|))
  {
    if mode == 0x23 {
      LoopIff(l, StatusQuery(), 0x23, 0x22, img);
    } else if mode == 0x24 {
      LoopIff(l, StatusQuery(), 0x24, 0x52, img);
    }
  }

  lemma ModeAcknowledged(l: Link, mode: byte) returns (c: Outcome)
    ensures c == PutCommand(l, 3, mode, []) && (c.ok <==> Acked(l.hdr, l.script, 1))
    ensures c.ok ==> |l.script| >= 2 && c.link.script == l.script[2..] && c.link.hdr == HeaderAfter(l.hdr, l.script, 1)
  {
    c := PutCommand(l, 3, mode, []);
    PutCommandIff(l, 3, mode, []);
  }

  /** Exactly when a download succeeds, against every device: when the host finds HBCI ready in answer to the
      first query, then an acknowledgement of the mode, and the status loop of that mode succeeds. */
  lemma MasterSucceedsIff(l: Link, mode: byte, img: seq<byte>)
    ensures Master(l, mode, img).ok <==>
      && Exchanged(l.script)
      && var f, s := Overlay(l.hdr, l.script[1].bytes), l.script[2..];
         && f.cls == 2 && f.ins == 0x21 && Acked(f, s, 1) && |s| >= 2
         && ModeSucceeds(HeaderAfter(f, s, 1), s[2..], mode, Apdus(|img|))
  {
    MasterIs(l, mode, img);
    ExchangeIff(l, StatusQuery());
    var c := ModeAcknowledged(Exchange(l, StatusQuery()).link, mode);
    ModeIff(c.link, mode, img);
  }

  /** The number of acknowledgements an image needs: two for each 2048 bytes or part of them, one if it is
      empty. */
  lemma ApdusIs(n: nat)
    ensures Apdus(n) == if n == 0 then 1 else 2 * ((n + 2047) / 2048)
  {
    BlocksIsCeiling(n);
  }

  // ----- What it looks like

  /** The device delivers at least class and instruction. */
  predicate Says(io: Io, cls: byte, ins: byte) { io.Done? && |io.bytes| >= 2 && io.bytes[0] == cls && io.bytes[1] == ins }

  predicate SaysFrom(s: seq<Io>, n: nat) {
    |s| >= 2 * n && forall i :: 0 <= i < n ==> s[2 * i].Done? && Says(s[2 * i + 1], 4, 1)
  }

  lemma {:induction false} SaidIsAcked(h: Header, s: seq<Io>, n: nat)
    requires SaysFrom(s, n)
    ensures Acked(h, s, n)
    decreases n
  {
    if n > 0 {
      var rest := s[2..];
      assert s[2 * 0].Done? && Says(s[2 * 0 + 1], 4, 1);
      forall i | 0 <= i < n - 1 ensures rest[2 * i].Done? && Says(rest[2 * i + 1], 4, 1) {
        assert s[2 * (i + 1)] == rest[2 * i] && s[2 * (i + 1) + 1] == rest[2 * i + 1];
      }
      SaidIsAcked(Overlay(h, s[1].bytes), rest, n - 1);
    }
  }

  /** The ordinary device: HBCI ready, the mode acknowledged, the mode ready, an acknowledgement for each of `n`
      APDUs, and success. */
  predicate OrdinaryDevice(s: seq<Io>, mode: byte, answer: byte, n: nat) {
    && |s| >= 2 * n + 8
    && s[0].Done? && Says(s[1], 2, 0x21)
    && s[2].Done? && Says(s[3], 4, 1)
    && s[4].Done? && Says(s[5], 2, mode)
    && SaysFrom(s[6..], n)
    && s[2 * n + 6].Done? && Says(s[2 * n + 7], answer, 1)
  }

  lemma LastAnswer(h: Header, s: seq<Io>, mode: byte, answer: byte, n: nat)
    requires |s| >= 2 && s[0].Done? && Says(s[1], answer, 1)
    ensures LoopSucceeds(h, s, mode, answer, n)
  {
  }

  lemma OneRound(h: Header, s: seq<Io>, mode: byte, answer: byte, n: nat)
    requires |s| >= 2 * n + 4 && s[0].Done? && Says(s[1], 2, mode) && SaysFrom(s[2..], n)
    requires s[2 * n + 2].Done? && Says(s[2 * n + 3], answer, 1)
    ensures LoopSucceeds(h, s, mode, answer, n)
  {
    var f, rest := Overlay(h, s[1].bytes), s[2..][2 * n..];
    SaidIsAcked(f, s[2..], n);
    assert rest[0] == s[2 * n + 2] && rest[1] == s[2 * n + 3];
    LastAnswer(HeaderAfter(f, s[2..], n), rest, mode, answer, n);
  }

  /** Such a device makes every image's download succeed, in both modes. */
  lemma OrdinarySucceeds(l: Link, mode: byte, answer: byte, img: seq<byte>)
    requires ModeOf(mode, answer) && OrdinaryDevice(l.script, mode, answer, Apdus(|img|))
    ensures Master(l, mode, img).ok
  {
    var s, n, f := l.script[2..], Apdus(|img|), Overlay(l.hdr, l.script[1].bytes);
    assert s[0] == l.script[2] && s[1] == l.script[3];
    OneAcked(f, s);
    var t := s[2..];
    assert t[0] == l.script[4] && t[1] == l.script[5] && t[2..] == l.script[6..];
    assert t[2 * n + 2] == l.script[2 * n + 6] && t[2 * n + 3] == l.script[2 * n + 7];
    OneRound(HeaderAfter(f, s, 1), t, mode, answer, n);
    MasterSucceedsIff(l, mode, img);
  }

  lemma OneAcked(h: Header, s: seq<Io>)
    requires |s| >= 2 && s[0].Done? && Says(s[1], 4, 1)
    ensures Acked(h, s, 1)
  {
    assert Acked(Overlay(h, s[1].bytes), s[2..], 0);
  }

  /** The status loop's log in bytes: from the query `q` on, `n` rounds of the mode's ready answer and the
      transfer `t`, then success. */
  function Rounds(q: seq<byte>, mode: byte, answer: byte, t: seq<Sight>, n: nat): seq<Sight>
    requires ModeOf(mode, answer)
    decreases n
  {
    if n == 0 then [Tx(q), Rx(answer, 1)]
    else [Tx(q), Rx(2, mode)] + t + Rounds([answer - 1, 1, 0, 0], mode, answer, t, n - 1)
  }

  /** A whole run: HBCI ready, the mode set and acknowledged, and the status loop. */
  function RunLog(mode: byte, answer: byte, img: seq<byte>, n: nat): seq<Sight>
    requires ModeOf(mode, answer)
  {
    [Tx([1, 0x21, 0, 0]), Rx(2, 0x21), Tx([3, mode, 0, 0]), Rx(4, 1)] +
    Rounds([1, 0x21, 0, 0], mode, answer, Transfer(answer + 1, 1, img), n)
  }

  lemma {:induction false} RoundsAreLogged(q: seq<byte>, mode: byte, answer: byte, t: seq<Sight>, n: nat)
    requires ModeOf(mode, answer)
    ensures DownloadLog(q, mode, answer - 2, t, n) == Rounds(q, mode, answer, t, n)
    decreases n
  {
    if n > 0 { RoundsAreLogged([answer - 1, 1, 0, 0], mode, answer, t, n - 1); }
  }

  lemma OpeningInBytes(mode: byte)
    ensures Opening(mode) == [Tx([1, 0x21, 0, 0]), Rx(2, 0x21), Tx([3, mode, 0, 0]), Rx(4, 1)]
  {
  }

  /** Success in either mode: the host has seen such a run, and nothing else. */
  lemma SuccessfulRun(l: Link, mode: byte, answer: byte, img: seq<byte>) returns (n: nat)
    requires ModeOf(mode, answer) && Master(l, mode, img).ok
    ensures Seen(Master(l, mode, img).link) == Seen(l) + RunLog(mode, answer, img, n)
  {
    var t := Transfer(answer + 1, 1, img);
    MasterIs(l, mode, img);
    var c := PutCommand(Exchange(l, StatusQuery()).link, COMMAND, mode, []);
    OpeningSeen(l, mode);
    n := DownloadTrace(c.link, StatusQuery(), mode, answer - 2, img, t);
    OpeningTrace(Seen(l), mode, DownloadLog(StatusQuery(), mode, answer - 2, t, n));
    OpeningInBytes(mode);
    RoundsAreLogged([1, 0x21, 0, 0], mode, answer, t, n);
    MasterEnds(l, mode, answer, img);
  }

  lemma MasterEnds(l: Link, mode: byte, answer: byte, img: seq<byte>)
    requires ModeOf(mode, answer) && Master(l, mode, img).ok
    ensures var c := PutCommand(Exchange(l, StatusQuery()).link, COMMAND, mode, []);
      Master(l, mode, img) == Download(c.link, StatusQuery(), mode, answer - 2, img)
  {
  }

  lemma ReadyTurn(l: Link, q: seq<byte>, mode: byte, answer: byte, img: seq<byte>, t: seq<Sight>) returns (next: Link)
    requires ModeOf(mode, answer) && t == Transfer(answer + 1, 1, img)
    requires var s, n := l.script, Apdus(|img|); |s| >= 2 && s[0].Done? && Says(s[1], 2, mode) && SaysFrom(s[2..], n)
    ensures StatusTurn(l, q, mode, answer - 2, img) == Again(next) && next.script == l.script[2..][2 * Apdus(|img|)..]
    ensures Seen(next) == Seen(l) + [Tx(q), Rx(2, mode)] + t
  {
    var s := Exchange(l, q).link;
    ExchangeIff(l, q);
    SaidIsAcked(s.hdr, s.script, Apdus(|img|));
    PutCommandIff(s, answer + 1, 1, img);
    TurnTrace(l, q, mode, answer - 2, img, t);
    next := PutCommand(s, answer + 1, 1, img).link;
  }

  lemma SuccessTurn(l: Link, q: seq<byte>, mode: byte, answer: byte, img: seq<byte>)
    requires ModeOf(mode, answer) && |l.script| >= 2 && l.script[0].Done? && Says(l.script[1], answer, 1)
    ensures Seen(Download(l, q, mode, answer - 2, img).link) == Seen(l) + [Tx(q), Rx(answer, 1)]
  {
    ExchangeIff(l, q);
    TurnTrace(l, q, mode, answer - 2, img, Transfer(answer + 1, 1, img));
  }

  lemma OrdinaryLoop(l: Link, mode: byte, answer: byte, img: seq<byte>, t: seq<Sight>)
    requires ModeOf(mode, answer) && t == Transfer(answer + 1, 1, img)
    requires var s, n := l.script, Apdus(|img|);
      && |s| >= 2 * n + 4 && s[0].Done? && Says(s[1], 2, mode) && SaysFrom(s[2..], n)
      && s[2 * n + 2].Done? && Says(s[2 * n + 3], answer, 1)
    ensures Seen(Download(l, [1, 0x21, 0, 0], mode, answer - 2, img).link) == Seen(l) + Rounds([1, 0x21, 0, 0], mode, answer, t, 1)
  {
    var q, again: seq<byte> := [1, 0x21, 0, 0], [answer - 1, 1, 0, 0];
    var next := ReadyTurn(l, q, mode, answer, img, t);
    assert next.script[0] == l.script[2 * Apdus(|img|) + 2] && next.script[1] == l.script[2 * Apdus(|img|) + 3];
    NextTurn(l, next, q, mode, answer - 2, img);
    SuccessTurn(next, again, mode, answer, img);
    Append4(Seen(l), [Tx(q), Rx(2, mode)], t, [Tx(again), Rx(answer, 1)]);
  }

  /** And it is done with the image transferred once: the ordinary run. */
  lemma OrdinaryDownload(l: Link, mode: byte, answer: byte, img: seq<byte>)
    requires ModeOf(mode, answer) && OrdinaryDevice(l.script, mode, answer, Apdus(|img|))
    ensures Master(l, mode, img).ok
    ensures Seen(Master(l, mode, img).link) == Seen(l) + RunLog(mode, answer, img, 1)
    ensures mode == 0x24 ==> RunLog(mode, answer, img, 1) == HifLog(img, 1)
  {
    var t := Transfer(answer + 1, 1, img);
    OrdinarySucceeds(l, mode, answer, img);
    MasterIs(l, mode, img);
    var c := OrdinaryOpening(l, mode, answer, Apdus(|img|));
    MasterEnds(l, mode, answer, img);
    OrdinaryLoop(c, mode, answer, img, t);
    OpeningSeen(l, mode);
    OpeningTrace(Seen(l), mode, Rounds([1, 0x21, 0, 0], mode, answer, t, 1));
    OpeningInBytes(mode);
    RoundsAreLogged([1, 0x21, 0, 0], mode, answer, t, 1);
  }

  lemma OrdinaryOpening(l: Link, mode: byte, answer: byte, n: nat) returns (c: Link)
    requires OrdinaryDevice(l.script, mode, answer, n)
    ensures c == PutCommand(Exchange(l, StatusQuery()).link, COMMAND, mode, []).link && |c.script| >= 2 * n + 4
    ensures c.script[0].Done? && Says(c.script[1], 2, mode) && SaysFrom(c.script[2..], n)
    ensures c.script[2 * n + 2].Done? && Says(c.script[2 * n + 3], answer, 1)
  {
    ExchangeIff(l, StatusQuery());
    var s := Exchange(l, StatusQuery()).link;
    assert s.script[0] == l.script[2] && s.script[1] == l.script[3];
    OneAcked(s.hdr, s.script);
    var o := ModeAcknowledged(s, mode);
    c := o.link;
    assert c.script == l.script[4..] && c.script[2..] == l.script[6..];
  }

  /** One block in bytes: the length field is 0x8000 if more follows, else one more than the data, low byte
      first, and 0 without data; header, data and checksum add up to zero. */
  lemma BlockInBytes(cls: byte, ins: byte, img: seq<byte>)
    ensures BlockHeader(cls, ins, |img|) ==
      [cls, ins] + if |img| > 2048 then [0, 0x80] else if |img| == 0 then [0, 0] else [(|img| + 1) % 256, (|img| + 1) / 256]
    ensures var data, n := BlockData(cls, ins, img), if |img| > 2048 then 2048 else |img|;
      |data| == n + 1 && data[..n] == img[..n] && Sum(BlockHeader(cls, ins, |img|) + data) % 256 == 0
  {
    BlockIsIntact(cls, ins, img);
  }

  // ----- Information queries

  /** What the host answers to the header `h`: 0x82 to a wrong class, 0x83 to a wrong instruction, 0x84 to a
      wrong size, and 1 to what it wants to read. */
  predicate AnswersWith(code: byte, h: Header, cls: byte, ins: byte, maxSz: nat, matchMaxSz: bool) {
    if h.cls != cls / 16 * 16 + 2 then code == 0x82
    else if h.ins != ins then code == 0x83
    else if h.lo as int + 256 * h.hi as int > maxSz + 1 || h.hi >= 0x80 ||
            (matchMaxSz && h.lo as int + 256 * h.hi as int != maxSz + 1) then code == 0x84
    else code == 1
  }

  /** The three APDUs of a query whose answer announces data: what is sent, and in which order. */
  lemma QueryInBytes(l: Link, cls: byte, ins: byte, maxSz: nat, matchMaxSz: bool, h: Header, rest: seq<Io>) returns (code: byte)
    requires |l.payload| == MAX_DATA_MISO + 1 && maxSz <= 256 && h.Length() >= 2
    requires l.script == [Done([]), Done(h.Octets()), Done([])] + rest
    ensures AnswersWith(code, h, cls, ins, maxSz, matchMaxSz)
    ensures QueryInfo(l, cls, ins, maxSz, matchMaxSz).link.trace ==
      l.trace + [Sent([cls, ins, 0, 0]), Got(h.Octets(), h), Sent([4, code, 0, 0])]
  {
    var x := Exchange(l, Query(cls, ins));
    ExchangeIff(l, Query(cls, ins));
    assert l.script[0] == Done([]) && l.script[1] == Done(h.Octets()) && l.script[2..] == [Done([])] + rest;
    assert x.link.hdr == h && x.link.trace == l.trace + [Sent([cls, ins, 0, 0]), Got(h.Octets(), h)];
    code := Verdict(h, cls, ins, maxSz, matchMaxSz);
  }

  /** An answer without data is not acknowledged: the query ends there, without success. */
  lemma QueryWithoutData(l: Link, cls: byte, ins: byte, maxSz: nat, matchMaxSz: bool, h: Header, rest: seq<Io>)
    requires |l.payload| == MAX_DATA_MISO + 1 && maxSz <= 256 && h.hi == 0 && h.lo < 2
    requires l.script == [Done([]), Done(h.Octets())] + rest
    ensures var r := QueryInfo(l, cls, ins, maxSz, matchMaxSz);
      !r.ok && r.link.trace == l.trace + [Sent([cls, ins, 0, 0]), Got(h.Octets(), h)]
  {
    ExchangeIff(l, Query(cls, ins));
    assert l.script[0] == Done([]) && l.script[1] == Done(h.Octets());
    assert Exchange(l, Query(cls, ins)).link.trace == l.trace + [Sent([cls, ins, 0, 0]), Got(h.Octets(), h)];
  }
}
