/** The SET_APP_CONFIG branch of phNxpUciHal_parse: a command asking for a channel the country
    settings restrict is refused (uwb/halimpl/hal/phNxpUciHal.cc:302-330). */
module ChannelGate {
  import opened Bytes
  import opened Tlv
  import opened Uci

  /** The loop's first index: header, session id and parameter count. */
  const FIRST := 9

  predicate Blocked(mask: word, ch: byte) {
    (ch == CHANNEL_5 && Bit(mask, 5)) || (ch == CHANNEL_9 && Bit(mask, 9))
  }

  /** The end of the parameters as the code computes it, in a uint8_t. */
  function End(p: seq<byte>): byte
    requires |p| > 3
  {
    Wrap8(p[3] as int + HEADER_SIZE)
  }

  /** At most `n` iterations of the loop from index `i` of the command buffer `p`: whether the command
      is refused, or None if the loop is still running. All indices are uint8_t and wrap. */
  function Scan(p: seq<byte>, end: byte, i: byte, mask: word, n: nat): Option<bool>
    requires |p| >= 0x100
    decreases n
  {
    if i >= end then Some(false)
    else if n == 0 then None
    else
      var v := Wrap8(i as int + 2);
      if p[i] == TAG_CHANNEL_NUMBER && Blocked(mask, p[v]) then Some(true)
      else Scan(p, end, Wrap8(v as int + p[i as int + 1] as int), mask, n - 1)
  }

  /** The loop ends, with refusal or without. Index wrap-around can make it run for ever. */
  ghost predicate Ends(p: seq<byte>, mask: word)
    requires |p| >= 0x100
  {
    exists n: nat :: Scan(p, End(p), FIRST, mask, n).Some?
  }

  ghost predicate Refuses(p: seq<byte>, mask: word)
    requires |p| >= 0x100
  {
    exists n: nat :: Scan(p, End(p), FIRST, mask, n) == Some(true)
  }

  /** A verdict reached within `n` iterations stays with more of them. */
  lemma {:induction false} ScanMore(p: seq<byte>, end: byte, i: byte, mask: word, n: nat, more: nat)
    requires |p| >= 0x100 && Scan(p, end, i, mask, n).Some? && n <= more
    ensures Scan(p, end, i, mask, more) == Scan(p, end, i, mask, n)
    decreases n
  {
    if i < end {
      var v := Wrap8(i as int + 2);
      if !(p[i] == TAG_CHANNEL_NUMBER && Blocked(mask, p[v])) {
        ScanMore(p, end, Wrap8(v as int + p[i as int + 1] as int), mask, n - 1, more - 1);
      }
    }
  }

  /** The verdict is unique. */
  lemma VerdictIs(p: seq<byte>, mask: word, n: nat)
    requires |p| >= 0x100 && Scan(p, End(p), FIRST, mask, n).Some?
    ensures Ends(p, mask)
    ensures Refuses(p, mask) <==> Scan(p, End(p), FIRST, mask, n) == Some(true)
  {
    if Refuses(p, mask) {
      var m: nat :| Scan(p, End(p), FIRST, mask, m) == Some(true);
      ScanMore(p, End(p), FIRST, mask, m, m + n);
      ScanMore(p, End(p), FIRST, mask, n, m + n);
    }
  }

  // ----- When the loop ends

  /** Where the loop goes from index `i`, if it neither ends nor refuses there. */
  predicate GoesOn(p: seq<byte>, end: byte, mask: word, i: byte)
    requires |p| >= 0x100
  {
    i < end && !(p[i] == TAG_CHANNEL_NUMBER && Blocked(mask, p[Wrap8(i as int + 2)]))
  }

  function NextIndex(p: seq<byte>, i: byte): byte
    requires |p| >= 0x100 && i < 0xFF
  {
    Wrap8(Wrap8(i as int + 2) as int + p[i as int + 1] as int)
  }

  /** It is still running after `n` iterations from index `i`. */
  predicate Live(p: seq<byte>, end: byte, mask: word, n: nat, i: int)
    requires |p| >= 0x100
  {
    0 <= i < 0x100 && Scan(p, end, i, mask, n).None?
  }

  function Running(p: seq<byte>, end: byte, mask: word, n: nat): set<int>
    requires |p| >= 0x100
  {
    set i: int | 0 <= i < 0x100 && Live(p, end, mask, n, i)
  }

  lemma LiveStep(p: seq<byte>, end: byte, mask: word, n: nat, i: byte)
    requires |p| >= 0x100
    ensures Live(p, end, mask, n + 1, i) <==> GoesOn(p, end, mask, i) && Live(p, end, mask, n, NextIndex(p, i))
  {
  }

  lemma RunningShrinks(p: seq<byte>, end: byte, mask: word, n: nat)
    requires |p| >= 0x100
    ensures Running(p, end, mask, n + 1) <= Running(p, end, mask, n)
  {
    forall i | i in Running(p, end, mask, n + 1) ensures Live(p, end, mask, n, i) {
      if Scan(p, end, i, mask, n).Some? { ScanMore(p, end, i, mask, n, n + 1); }
    }
  }

  /** Once it has lost no index in an iteration, it loses none in the next. */
  lemma RunningStays(p: seq<byte>, end: byte, mask: word, n: nat)
    requires |p| >= 0x100 && Running(p, end, mask, n + 1) == Running(p, end, mask, n)
    ensures Running(p, end, mask, n + 2) == Running(p, end, mask, n + 1)
  {
    var now, after := n + 1, n + 2;
    forall i: int | 0 <= i < 0x100 ensures Live(p, end, mask, after, i) <==> Live(p, end, mask, now, i) {
      LiveStep(p, end, mask, n + 1, i);
      LiveStep(p, end, mask, n, i);
      if GoesOn(p, end, mask, i) {
        var j := NextIndex(p, i);
        assert Live(p, end, mask, n + 1, j) <==> j in Running(p, end, mask, n + 1);
        assert Live(p, end, mask, n, j) <==> j in Running(p, end, mask, n);
      }
    }
  }

  ghost predicate Settled(p: seq<byte>, end: byte, mask: word, n: nat)
    requires |p| >= 0x100
  {
    forall k: nat :: n <= k ==> Running(p, end, mask, k) == Running(p, end, mask, n)
  }

  lemma {:induction false} StaysFor(p: seq<byte>, end: byte, mask: word, n: nat, k: nat)
    requires |p| >= 0x100 && Running(p, end, mask, n + 1) == Running(p, end, mask, n) && n <= k
    ensures Running(p, end, mask, k) == Running(p, end, mask, n) && Running(p, end, mask, k + 1) == Running(p, end, mask, k)
    decreases k
  {
    if k > n {
      StaysFor(p, end, mask, n, k - 1);
      RunningStays(p, end, mask, k - 1);
    }
  }

  /** There are 256 indices to lose. */
  lemma {:induction false} RunningBound(p: seq<byte>, end: byte, mask: word, n: nat)
    requires |p| >= 0x100 && n <= 0x100
    ensures |Running(p, end, mask, n)| <= 0x100 - n || Settled(p, end, mask, n)
  {
    if n == 0 {
      Smaller(Running(p, end, mask, 0), UpTo(0x100));
    } else {
      var before, now := Running(p, end, mask, n - 1), Running(p, end, mask, n);
      RunningBound(p, end, mask, n - 1);
      RunningShrinks(p, end, mask, n - 1);
      if now == before {
        forall k: nat | n <= k ensures Running(p, end, mask, k) == now { StaysFor(p, end, mask, n - 1, k); }
      } else {
        assert Settled(p, end, mask, n - 1) ==> now == before;
        Smaller(now, before);
      }
    }
  }

  function UpTo(n: nat): (s: set<int>)
    ensures |s| == n && forall x :: x in s <==> 0 <= x < n
  {
    if n == 0 then {} else UpTo(n - 1) + {n - 1}
  }

  lemma Smaller(a: set<int>, b: set<int>)
    requires a <= b
    ensures |a| <= |b| && (a != b ==> |a| < |b|)
  {
    assert b == a + (b - a);
    if a != b { assert b - a != {}; }
  }

  const INDICES := 0x100

  /** The loop ends if and only if it does within 256 iterations. */
  lemma EndsIff(p: seq<byte>, mask: word)
    requires |p| >= 0x100
    ensures Ends(p, mask) <==> Scan(p, End(p), FIRST, mask, INDICES).Some?
  {
    if n: nat :| Scan(p, End(p), FIRST, mask, n).Some? {
      EndsWithin(p, End(p), FIRST, mask, n, INDICES);
    }
  }

  lemma EndsWithin(p: seq<byte>, end: byte, i: byte, mask: word, n: nat, limit: nat)
    requires |p| >= 0x100 && limit == 0x100 && Scan(p, end, i, mask, n).Some?
    ensures Scan(p, end, i, mask, limit).Some?
  {
    if n <= limit {
      ScanMore(p, end, i, mask, n, limit);
    } else {
      RunningBound(p, end, mask, limit);
      assert i !in Running(p, end, mask, n) && (Settled(p, end, mask, limit) ==> Running(p, end, mask, n) == Running(p, end, mask, limit));
      assert i !in Running(p, end, mask, limit) && !Live(p, end, mask, limit, i);
    }
  }

  method CheckChannels(cmd: array<byte>, mask: word) returns (refused: bool)
    requires cmd.Length >= 0x100 && Ends(cmd[..], mask)
    ensures refused <==> Refuses(cmd[..], mask)
  {
    ghost var p := cmd[..];
    ghost var n: nat :| Scan(p, End(p), FIRST, mask, n).Some?;
    VerdictIs(p, mask, n);
    var end := Wrap8(cmd[3] as int + HEADER_SIZE);
    var i: byte := FIRST;
    ghost var left := n;
    while i < end
      invariant Scan(p, end, i, mask, left) == Scan(p, End(p), FIRST, mask, n)
      decreases left
    {
      var tag, length := cmd[i], cmd[i as int + 1];
      i := Wrap8(i as int + 2);
      if tag == TAG_CHANNEL_NUMBER {
        var ch := cmd[i];
        if (ch == CHANNEL_5 && Bit(mask, 5)) || (ch == CHANNEL_9 && Bit(mask, 9)) {
          return true;
        }
      }
      i := Wrap8(i as int + length as int);
      left := left - 1;
    }
    return false;
  }

  /** The parameters ask for a restricted channel. */
  predicate Asks(ts: seq<Tlv>, mask: word) {
    exists k :: 0 <= k < |ts| && AskedBy(ts[k], mask)
  }

  predicate AskedBy(t: Tlv, mask: word) {
    t.tag == 0x04 && t.value != [] && ((t.value[0] == 5 && Bit(mask, 5)) || (t.value[0] == 9 && Bit(mask, 9)))
  }

  /** Every channel parameter names a channel. */
  predicate ChannelsNamed(ts: seq<Tlv>) {
    forall k :: 0 <= k < |ts| && ts[k].tag == 0x04 ==> ts[k].value != []
  }

  lemma AsksStep(ts: seq<Tlv>, mask: word)
    requires ts != []
    ensures Asks(ts, mask) <==> AskedBy(ts[0], mask) || Asks(ts[1..], mask)
  {
    if Asks(ts, mask) && !AskedBy(ts[0], mask) {
      var k :| 0 <= k < |ts| && AskedBy(ts[k], mask);
      assert AskedBy(ts[1..][k - 1], mask);
    }
    if Asks(ts[1..], mask) {
      var k :| 0 <= k < |ts[1..]| && AskedBy(ts[1..][k], mask);
      assert AskedBy(ts[k + 1], mask);
    }
  }

  /** Reading one parameter of a well-formed list moves to the next one. */
  lemma ScanStep(p: seq<byte>, end: byte, i: byte, mask: word, t: Tlv, rest: seq<byte>, n: nat)
    requires t.tag < 0x100 && |t.value| < 0x100 && (t.tag == TAG_CHANNEL_NUMBER ==> t.value != [])
    requires |p| >= 0x100 && i <= end && p[i..end] == Encode(t) + rest && n > 0
    ensures var next := i as int + |Encode(t)|;
      && next <= end && p[next..end] == rest
      && Scan(p, end, i, mask, n) ==
         if AskedBy(t, mask) then Some(true) else Scan(p, end, next, mask, n - 1)
  {
    var s := p[i..end];
    Front(t, rest);
    assert p[i] == s[0] && p[i as int + 1] == s[1];
    assert t.value != [] ==> p[i as int + 2] == s[2] == t.value[0];
    assert p[i + |Encode(t)|..end] == s[|Encode(t)|..] == rest;
  }

  lemma {:induction false} ScanEncoded(p: seq<byte>, end: byte, i: byte, mask: word, ts: seq<Tlv>)
    requires |p| >= 0x100 && i <= end && AllWellFormed(ts, OneByte) && ChannelsNamed(ts)
    requires p[i..end] == EncodeAll(ts)
    ensures Scan(p, end, i, mask, |ts|) == Some(Asks(ts, mask))
    decreases |ts|
  {
    if ts != [] {
      ScanStep(p, end, i, mask, ts[0], EncodeAll(ts[1..]), |ts|);
      AsksStep(ts, mask);
      if !AskedBy(ts[0], mask) {
        ScanEncoded(p, end, i + |Encode(ts[0])|, mask, ts[1..]);
      }
    }
  }

  /** On one-byte tags and payloads of up to 255 bytes the gate is exact up to 251 bytes; beyond that
      the uint8_t end wraps below the first parameter and nothing is ever refused. */
  lemma GateIsExactUpTo251(p: seq<byte>, mask: word, ts: seq<Tlv>)
    requires |p| >= 0x100 + HEADER_SIZE && AllWellFormed(ts, OneByte) && ChannelsNamed(ts)
    requires FIRST <= p[3] as int + HEADER_SIZE && p[FIRST..p[3] as int + HEADER_SIZE] == EncodeAll(ts)
    ensures Ends(p, mask)
    ensures Refuses(p, mask) <==> p[3] <= 251 && Asks(ts, mask)
  {
    if p[3] <= 251 {
      ScanEncoded(p, End(p), FIRST, mask, ts);
      VerdictIs(p, mask, |ts|);
    } else {
      VerdictIs(p, mask, 0);
    }
  }

  /** The gate reads every tag as a one-byte tag: if the bytes of a command with two-byte tags are also
      those of the parameters `us` so read, it goes by these. It is right exactly when both readings ask
      for a restricted channel or neither does. */
  lemma GateGoesByOneByteReading(p: seq<byte>, mask: word, ts: seq<Tlv>, us: seq<Tlv>)
    requires |p| >= 0x100 + HEADER_SIZE && AllWellFormed(ts, Extended) && AllWellFormed(us, OneByte) && ChannelsNamed(us)
    requires FIRST <= p[3] as int + HEADER_SIZE && p[3] <= 251
    requires p[FIRST..p[3] as int + HEADER_SIZE] == EncodeAll(ts) == EncodeAll(us)
    ensures Ends(p, mask) && (Refuses(p, mask) <==> Asks(us, mask))
    ensures (Refuses(p, mask) <==> Asks(ts, mask)) <==> (Asks(us, mask) <==> Asks(ts, mask))
  {
    GateIsExactUpTo251(p, mask, us);
  }

  /** So behind a two-byte tag whose second byte counts all that follows, no channel is refused. */
  lemma TwoByteTagHidesChannels(p: seq<byte>, mask: word, t: Tlv, rest: seq<Tlv>)
    requires |p| >= 0x100 + HEADER_SIZE && FIRST <= p[3] as int + HEADER_SIZE && p[3] <= 251
    requires WellFormed(t, Extended) && AllWellFormed(rest, Extended)
    requires t.tag >= 0x100 && t.tag % 0x100 == 1 + |t.value| + |EncodeAll(rest)|
    requires p[FIRST..p[3] as int + HEADER_SIZE] == EncodeAll([t] + rest)
    ensures Ends(p, mask) && !Refuses(p, mask)
  {
    var u := Tlv(t.tag / 0x100, [|t.value|] + t.value + EncodeAll(rest));
    OneByteReading(t.tag, t.value, rest);
    assert AllWellFormed([t] + rest, Extended) && AllWellFormed([u], OneByte);
    GateGoesByOneByteReading(p, mask, [t] + rest, [u]);
  }

  /** The one-byte reading goes parameter by parameter; whatever stands behind the parameters `us` so read is
      looked at from there on. */
  lemma {:induction false} ScanPrefix(p: seq<byte>, end: byte, i: byte, mask: word, us: seq<Tlv>, rest: seq<byte>, at: byte, n: nat, all: nat)
    requires |p| >= 0x100 && i <= end && AllWellFormed(us, OneByte) && ChannelsNamed(us) && all == |us| + n
    requires p[i..end] == EncodeAll(us) + rest && at == i + |EncodeAll(us)|
    ensures Scan(p, end, i, mask, all) == if Asks(us, mask) then Some(true) else Scan(p, end, at, mask, n)
    decreases |us|
  {
    if us != [] {
      var next := OneParam(p, end, i, mask, us, rest, at, all);
      AsksStep(us, mask);
      if !AskedBy(us[0], mask) {
        ScanPrefix(p, end, next, mask, us[1..], rest, at, n, all - 1);
      }
    }
  }

  lemma OneParam(p: seq<byte>, end: byte, i: byte, mask: word, us: seq<Tlv>, rest: seq<byte>, at: byte, all: nat) returns (next: byte)
    requires |p| >= 0x100 && i <= end && us != [] && AllWellFormed(us, OneByte) && ChannelsNamed(us) && all > 0
    requires p[i..end] == EncodeAll(us) + rest && at == i + |EncodeAll(us)|
    ensures next <= end && p[next..end] == EncodeAll(us[1..]) + rest && at == next + |EncodeAll(us[1..])|
    ensures Scan(p, end, i, mask, all) == if AskedBy(us[0], mask) then Some(true) else Scan(p, end, next, mask, all - 1)
  {
    SplitFirst(us, rest);
    ScanStep(p, end, i, mask, us[0], EncodeAll(us[1..]) + rest, all);
    next := i as int + |Encode(us[0])|;
  }

  lemma SplitFirst(us: seq<Tlv>, rest: seq<byte>)
    requires us != [] && Sized(us)
    ensures EncodeAll(us) + rest == Encode(us[0]) + (EncodeAll(us[1..]) + rest)
  {
    Regroup(Encode(us[0]), EncodeAll(us[1..]), rest);
  }

  lemma Regroup<T>(a: seq<T>, b: seq<T>, c: seq<T>)
    ensures a + b + c == a + (b + c)
  {
  }

  /** What the gate decides about a command whose one-byte reading overruns the end: behind the parameters
      `us`, the byte at `i` is taken for a tag and the next one for a length, even if it lies behind the end.
      If the sum does not wrap, the gate has gone by `us` and this last tag. */
  lemma GateAtOverrun(p: seq<byte>, mask: word, us: seq<Tlv>, rest: seq<byte>, i: byte)
    requires |p| >= 0x100 && FIRST <= End(p) && AllWellFormed(us, OneByte) && ChannelsNamed(us) && rest != []
    requires p[FIRST..End(p)] == EncodeAll(us) + rest && i == FIRST + |EncodeAll(us)|
    requires End(p) as int <= i as int + 2 + p[i as int + 1] as int < 0x100
    ensures Ends(p, mask)
    ensures Refuses(p, mask) <==> Asks(us, mask) || (p[i] == TAG_CHANNEL_NUMBER && Blocked(mask, p[i as int + 2]))
  {
    assert |p[FIRST..End(p)]| == End(p) - FIRST;
    ScanPrefix(p, End(p), FIRST, mask, us, rest, i, 1, |us| + 1);
    VerdictIs(p, mask, |us| + 1);
  }

  /** If the sum wraps, the gate goes on where it has wrapped to, before or inside the parameters. */
  lemma GateWraps(p: seq<byte>, mask: word, us: seq<Tlv>, rest: seq<byte>, i: byte, n: nat)
    requires |p| >= 0x100 && FIRST <= End(p) && AllWellFormed(us, OneByte) && ChannelsNamed(us) && rest != []
    requires p[FIRST..End(p)] == EncodeAll(us) + rest && i == FIRST + |EncodeAll(us)|
    requires i as int + 2 + p[i as int + 1] as int >= 0x100
    ensures Scan(p, End(p), FIRST, mask, |us| + 1 + n) ==
      if Asks(us, mask) || (p[i] == TAG_CHANNEL_NUMBER && Blocked(mask, p[Wrap8(i as int + 2)])) then Some(true)
      else Scan(p, End(p), i as int + 2 + p[i as int + 1] as int - 0x100, mask, n)
  {
    assert |p[FIRST..End(p)]| == End(p) - FIRST;
    ScanPrefix(p, End(p), FIRST, mask, us, rest, i, 1 + n, |us| + 1 + n);
  }

  /** An index that leads back to itself is never left. */
  lemma {:induction false} Circles(p: seq<byte>, end: byte, i: byte, mask: word, n: nat)
    requires |p| >= 0x100 && GoesOn(p, end, mask, i) && NextIndex(p, i) == i
    ensures Scan(p, end, i, mask, n).None?
  {
    if n > 0 { Circles(p, end, i, mask, n - 1); }
  }

  /** That is so where a length byte, or what is read as one, is 0xFE: if such a head stands inside the range,
      behind parameters with one-byte tags that ask for nothing restricted, the check never ends. */
  lemma GateHangs(p: seq<byte>, mask: word, us: seq<Tlv>, rest: seq<byte>, i: byte)
    requires |p| >= 0x100 && FIRST <= End(p) && AllWellFormed(us, OneByte) && ChannelsNamed(us) && !Asks(us, mask)
    requires p[FIRST..End(p)] == EncodeAll(us) + rest && i == FIRST + |EncodeAll(us)| && rest != []
    requires p[i] != TAG_CHANNEL_NUMBER && p[i as int + 1] == 0xFE
    ensures !Ends(p, mask)
  {
    assert |p[FIRST..End(p)]| == End(p) - FIRST;
    forall n: nat ensures Scan(p, End(p), FIRST, mask, n).None? {
      if Scan(p, End(p), FIRST, mask, n).Some? {
        ScanMore(p, End(p), FIRST, mask, n, |us| + n);
        ScanPrefix(p, End(p), FIRST, mask, us, rest, i, n, |us| + n);
        Circles(p, End(p), i, mask, n);
      }
    }
  }
}
