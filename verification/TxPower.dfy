/** phNxpUciHal_updateTxPower and phNxpUciHal_processCalibParamTxPowerPerAntenna: the country's power
    offset is added, in place, to every antenna's RMS value of a stored calibration
    (uwb/halimpl/hal/phNxpUciHal_ext.cc:483-535). */
module TxPower {
  import opened Bytes

  /** Channel, parameter id, length, number of antennas; then five bytes an antenna, of which the last
      two are the little-endian RMS power. */
  const FIRST_ANTENNA := 4
  const ANTENNA_SIZE := 5

  /** The new RMS value: negative sums become zero, large ones lose their high bits. */
  function Adjust(v: word, offset: int): word {
    if v + offset < 0 then 0 else (v + offset) % 0x1_0000
  }

  /** One antenna whose RMS bytes are expected at index `i`. The index is a uint8_t: the high byte is
      read behind it without wrapping, and written at the wrapped index. */
  function Bump(s: seq<byte>, i: byte, offset: int): (r: seq<byte>)
    requires i as int + 1 < |s|
    ensures |r| == |s|
  {
    var v := Adjust(Le16(s[i], s[i as int + 1]), offset);
    s[i := v % 0x100][Wrap8(i as int + 1) := v / 0x100]
  }

  /** No access is out of bounds: the entries fit, or every uint8_t index does. */
  predicate Fits(len: nat, i: byte, n: nat) {
    len > 0x100 || (i as int + ANTENNA_SIZE * n <= len && i as int + ANTENNA_SIZE * n <= 0xFF)
  }

  /** The loop over `n` antennas, the first one at index `i`. */
  function BumpAll(s: seq<byte>, i: byte, n: nat, offset: int): (r: seq<byte>)
    requires Fits(|s|, i, n)
    ensures |r| == |s|
    decreases n
  {
    if n == 0 then s
    else BumpAll(Bump(s, Wrap8(i as int + 3), offset), Wrap8(i as int + ANTENNA_SIZE), n - 1, offset)
  }

  /** Room for the antennas the calibration says it has. */
  predicate Complete(s: seq<byte>) {
    s != [] ==> |s| > FIRST_ANTENNA && Fits(|s|, FIRST_ANTENNA, s[3])
  }

  function Updated(s: seq<byte>, offset: int): (r: seq<byte>)
    requires Complete(s)
    ensures |r| == |s|
  {
    if offset == 0 || s == [] || s[2] == 0 then s else BumpAll(s, FIRST_ANTENNA, s[3], offset)
  }

  method UpdateTxPower(txPower: array<byte>, offset: int)
    requires Complete(txPower[..])
    modifies txPower
    ensures txPower[..] == Updated(old(txPower[..]), offset)
  {
    if offset == 0 { return; }
    if txPower.Length == 0 { return; }
    if txPower[2] != 0 {
      UpdateAntennas(txPower, txPower[3], offset, txPower[..]);
    }
  }

  lemma BumpStep(s: seq<byte>, i: byte, n: nat, offset: int)
    requires Fits(|s|, i, n) && n > 0
    ensures Wrap8(i as int + 3) as int + 1 < |s| && Fits(|s|, Wrap8(i as int + ANTENNA_SIZE), n - 1)
    ensures BumpAll(s, i, n, offset) ==
      BumpAll(Bump(s, Wrap8(i as int + 3), offset), Wrap8(i as int + ANTENNA_SIZE), n - 1, offset)
    ensures Wrap8(Wrap8(i as int + 3) as int + 2) == Wrap8(i as int + ANTENNA_SIZE)
  {
  }

  /** The loop, on a buffer with contents `s`. */
  method UpdateAntennas(txPower: array<byte>, n: byte, offset: int, ghost s: seq<byte>)
    requires s == txPower[..] && Fits(|s|, FIRST_ANTENNA, n)
    modifies txPower
    ensures txPower[..] == BumpAll(s, FIRST_ANTENNA, n, offset)
  {
    var index: byte := FIRST_ANTENNA;
    var left := n;
    ghost var now := s;
    while left > 0
      invariant txPower[..] == now && Fits(|now|, index, left)
      invariant BumpAll(now, index, left, offset) == BumpAll(s, FIRST_ANTENNA, n, offset)
      decreases left
    {
      BumpStep(now, index, left, offset);
      left := left - 1;
      index := Wrap8(index as int + 3);
      now := Bump(now, index, offset);
      UpdateAntenna(txPower, index, offset);
      index := Wrap8(index as int + 2);
    }
  }

  method UpdateAntenna(txPower: array<byte>, i: byte, offset: int)
    requires i as int + 1 < txPower.Length
    modifies txPower
    ensures txPower[..] == Bump(old(txPower[..]), i, offset)
  {
    var power: int := Le16(txPower[i], txPower[i as int + 1]);
    power := power + offset;
    if power < 0 { power := 0; }
    var v: word := power % 0x1_0000;
    txPower[i] := v % 0x100;
    txPower[Wrap8(i as int + 1)] := v / 0x100;
  }

  /** Which antenna's RMS value is where. */
  function Rms(s: seq<byte>, k: nat): word
    requires FIRST_ANTENNA + ANTENNA_SIZE * k + 4 < |s|
  {
    Le16(s[FIRST_ANTENNA + ANTENNA_SIZE * k + 3], s[FIRST_ANTENNA + ANTENNA_SIZE * k + 4])
  }

  predicate IsRms(j: int, n: nat) { FIRST_ANTENNA <= j < FIRST_ANTENNA + ANTENNA_SIZE * n && (j - FIRST_ANTENNA) % 5 >= 3 }

  /** `n` antennas, as many as a uint8_t index can reach: at most 50. */
  predicate Reachable(s: seq<byte>, n: nat) { n <= 50 && FIRST_ANTENNA + ANTENNA_SIZE * n <= |s| }

  predicate OutsideRms(j: int, d: nat) {
    j < FIRST_ANTENNA + ANTENNA_SIZE * d + 3 || j > FIRST_ANTENNA + ANTENNA_SIZE * d + 4
  }

  lemma BumpOne(s: seq<byte>, d: nat, n: nat, offset: int)
    requires d < n && Reachable(s, n)
    ensures var t := Bump(s, FIRST_ANTENNA + ANTENNA_SIZE * d + 3, offset);
      && Rms(t, d) == Adjust(Rms(s, d), offset)
      && forall j :: 0 <= j < |s| && OutsideRms(j, d) ==> t[j] == s[j]
  {
  }

  lemma OthersStay(s: seq<byte>, t: seq<byte>, d: nat, n: nat)
    requires d < n && Reachable(s, n) && |t| == |s|
    requires forall j :: 0 <= j < |s| && OutsideRms(j, d) ==> t[j] == s[j]
    ensures forall k :: 0 <= k < n && k != d ==> Rms(t, k) == Rms(s, k)
    ensures forall j :: 0 <= j < |s| && !IsRms(j, n) ==> t[j] == s[j]
  {
  }

  /** The loop from the `d`-th antenna on. */
  lemma {:induction false} BumpsOneByOne(s: seq<byte>, d: nat, n: nat, offset: int)
    requires d <= n && Reachable(s, n)
    ensures Fits(|s|, FIRST_ANTENNA + ANTENNA_SIZE * d, n - d)
    ensures var r := BumpAll(s, FIRST_ANTENNA + ANTENNA_SIZE * d, n - d, offset);
      && (forall k :: 0 <= k < n ==> Rms(r, k) == if k < d then Rms(s, k) else Adjust(Rms(s, k), offset))
      && (forall j :: 0 <= j < |s| && !IsRms(j, n) ==> r[j] == s[j])
    decreases n - d
  {
    if d < n {
      var i := FIRST_ANTENNA + ANTENNA_SIZE * d;
      var t := Bump(s, i + 3, offset);
      BumpOne(s, d, n, offset);
      OthersStay(s, t, d, n);
      BumpStep(s, i, n - d, offset);
      BumpsOneByOne(t, d + 1, n, offset);
    }
  }

  /** Every antenna's RMS value becomes the sum, clamped at zero and cut to 16 bits, and no other byte
      changes: channel, ids, counts and peak powers stay. */
  lemma UpdateIsExact(s: seq<byte>, offset: int)
    requires s != [] && |s| > FIRST_ANTENNA && s[2] != 0 && Reachable(s, s[3])
    ensures Complete(s)
    ensures forall k :: 0 <= k < s[3] ==> Rms(Updated(s, offset), k) == Adjust(Rms(s, k), offset)
    ensures forall j :: 0 <= j < |s| && !IsRms(j, s[3]) ==> Updated(s, offset)[j] == s[j]
  {
    var n: nat := s[3];
    BumpsOneByOne(s, 0, n, offset);
    if offset == 0 {
      forall k | 0 <= k < n ensures Rms(s, k) == Adjust(Rms(s, k), 0) { AdjustZero(Rms(s, k)); }
    } else {
      assert Updated(s, offset) == BumpAll(s, FIRST_ANTENNA, n, offset);
    }
  }

  lemma AdjustZero(v: word)
    ensures Adjust(v, 0) == v
  {
  }

  /** When applying `a` and then `b` to one value is the same as applying their sum: the first sum
      neither clamps nor wraps, or the second step cannot tell. */
  predicate Composes(v: word, a: int, b: int) {
    || 0 <= v + a < 0x1_0000
    || (v + a < 0 && b <= 0)
    || (v + a >= 0x1_0000 && v + a + b >= 0x1_0000)
  }

  predicate IsShort(a: int) { -0x8000 <= a < 0x8000 }

  lemma AdjustTwice(v: word, a: int, b: int)
    requires IsShort(a) && IsShort(b)
    ensures Adjust(Adjust(v, a), b) == Adjust(v, a + b) <==> Composes(v, a, b)
  {
  }

  lemma SameRms(r: seq<byte>, t: seq<byte>, n: nat)
    requires |r| == |t| && Reachable(r, n)
    requires forall k :: 0 <= k < n ==> Rms(r, k) == Rms(t, k)
    requires forall j :: 0 <= j < |r| && !IsRms(j, n) ==> r[j] == t[j]
    ensures r == t
  {
    forall j | 0 <= j < |r| ensures r[j] == t[j] {
      if IsRms(j, n) {
        var k := (j - FIRST_ANTENNA) / 5;
        assert Rms(r, k) == Rms(t, k);
      }
    }
  }

  /** Two offsets in turn are their sum exactly when they are on every antenna's value. */
  lemma OffsetsAddUpIff(s: seq<byte>, a: int, b: int)
    requires s != [] && |s| > FIRST_ANTENNA && s[2] != 0 && Reachable(s, s[3]) && IsShort(a) && IsShort(b)
    ensures Complete(s) && Complete(Updated(s, a))
    ensures Updated(Updated(s, a), b) == Updated(s, a + b) <==> forall k :: 0 <= k < s[3] ==> Composes(Rms(s, k), a, b)
  {
    var n: nat := s[3];
    UpdateIsExact(s, a);
    assert !IsRms(2, n) && !IsRms(3, n);
    var once := Updated(s, a);
    UpdateIsExact(once, b);
    UpdateIsExact(s, a + b);
    var twice, sum := Updated(once, b), Updated(s, a + b);
    forall k | 0 <= k < n ensures Rms(twice, k) == Rms(sum, k) <==> Composes(Rms(s, k), a, b) {
      AdjustTwice(Rms(s, k), a, b);
    }
    if forall k :: 0 <= k < n ==> Composes(Rms(s, k), a, b) {
      SameRms(twice, sum, n);
    }
  }

  // ----- More than 50 antennas

  /** A calibration for `n` antennas that holds all of them. */
  predicate Calibration(s: seq<byte>, n: nat) {
    n < 0x100 && |s| >= FIRST_ANTENNA + ANTENNA_SIZE * n && |s| > FIRST_ANTENNA && s[2] != 0 && s[3] == n
  }

  lemma CalibrationIsComplete(s: seq<byte>, n: nat)
    requires Calibration(s, n)
    ensures Complete(s)
  {
  }

  /** What the update is for: every antenna's RMS value is adjusted, and nothing else changes. */
  predicate UpdatedExactly(s: seq<byte>, n: nat, offset: int)
    requires Calibration(s, n)
  {
    CalibrationIsComplete(s, n);
    (forall k :: 0 <= k < n ==> Rms(Updated(s, offset), k) == Adjust(Rms(s, k), offset))
    && (forall j :: 0 <= j < |s| && !IsRms(j, n) ==> Updated(s, offset)[j] == s[j])
  }

  /** The index of the `m`-th antenna from the one at `i` on, and the bytes its power is stored in. */
  function IndexAfter(i: byte, m: nat): byte { (i as int + ANTENNA_SIZE * m) % 0x100 }

  predicate Touches(i: byte, m: nat, j: nat) {
    var at := IndexAfter(i, m) as int;
    j == (at + 3) % 0x100 || j == (at + 4) % 0x100
  }

  lemma IndexStep(i: byte, m: nat)
    ensures IndexAfter(Wrap8(i as int + ANTENNA_SIZE), m) == IndexAfter(i, m + 1) && IndexAfter(i, 0) == i
  {
    WrapIsMod(i as int + ANTENNA_SIZE);
    ModAdd(i as int + ANTENNA_SIZE, ANTENNA_SIZE * m);
  }

  lemma WrapIsMod(x: nat)
    ensures Wrap8(x) == x % 0x100
  {
  }

  lemma ModAdd(x: nat, y: nat)
    ensures (x % 0x100 + y) % 0x100 == (x + y) % 0x100
  {
    var q := x / 0x100;
    assert x == 0x100 * q + x % 0x100;
    ModMultiple(x % 0x100 + y, q);
  }

  lemma ModMultiple(x: nat, q: nat)
    ensures (x + 0x100 * q) % 0x100 == x % 0x100
  {
  }

  lemma BumpTouches(s: seq<byte>, i: byte, offset: int, j: nat)
    requires |s| > 0x100 && j < |s| && !Touches(i, 0, j)
    ensures Bump(s, Wrap8(i as int + 3), offset)[j] == s[j]
  {
    WrapIsMod(i as int + 3);
    WrapIsMod(Wrap8(i as int + 3) as int + 1);
    ModAdd(i as int + 3, 1);
  }

  /** A byte none of `n` antennas is stored in stays. */
  lemma {:induction false} Untouched(s: seq<byte>, i: byte, n: nat, offset: int, j: nat)
    requires |s| > 0x100 && j < |s| && forall m :: 0 <= m < n ==> !Touches(i, m, j)
    ensures BumpAll(s, i, n, offset)[j] == s[j]
    decreases n
  {
    if n > 0 {
      var next := Wrap8(i as int + ANTENNA_SIZE);
      IndexStep(i, 0);
      BumpTouches(s, i, offset, j);
      forall m | 0 <= m < n - 1 ensures !Touches(next, m, j) { IndexStep(i, m); assert !Touches(i, m + 1, j); }
      BumpStep(s, i, n, offset);
      Untouched(Bump(s, Wrap8(i as int + 3), offset), next, n - 1, offset, j);
    }
  }

  /** Bytes no uint8_t reaches stay: from the 51st antenna on no power is updated. */
  lemma TailIsUntouched(s: seq<byte>, n: nat, offset: int, j: nat)
    requires Calibration(s, n) && n > 50 && 0x100 <= j < |s|
    ensures Complete(s) && Updated(s, offset)[j] == s[j]
  {
    Untouched(s, FIRST_ANTENNA, n, offset, j);
  }

  lemma {:induction false} BumpAllSplit(s: seq<byte>, i: byte, a: nat, b: nat, offset: int)
    requires |s| > 0x100
    ensures BumpAll(s, i, a + b, offset) == BumpAll(BumpAll(s, i, a, offset), IndexAfter(i, a), b, offset)
    decreases a
  {
    if a == 0 {
      IndexStep(i, 0);
    } else {
      var u, next := FirstTurn(s, i, a, b, offset);
      BumpAllSplit(u, next, a - 1, b, offset);
    }
  }

  lemma FirstTurn(s: seq<byte>, i: byte, a: nat, b: nat, offset: int) returns (u: seq<byte>, next: byte)
    requires |s| > 0x100 && a > 0
    ensures |u| == |s| && next == Wrap8(i as int + ANTENNA_SIZE)
    ensures BumpAll(s, i, a + b, offset) == BumpAll(u, next, a - 1 + b, offset)
    ensures BumpAll(s, i, a, offset) == BumpAll(u, next, a - 1, offset) && IndexAfter(next, a - 1) == IndexAfter(i, a)
  {
    IndexStep(i, a - 1);
    u, next := Bump(s, Wrap8(i as int + 3), offset), Wrap8(i as int + ANTENNA_SIZE);
    BumpStep(s, i, a + b, offset);
    BumpStep(s, i, a, offset);
  }

  /** Up to the 51st antenna's turn: the first four bytes are as they were, and the index has wrapped to
      the parameter id. */
  lemma Turn51(s: seq<byte>, n: nat, left: nat, offset: int, first: byte, fifty: nat) returns (t: seq<byte>, third: byte)
    requires |s| > 0x100 && n == fifty + 1 + left && first == FIRST_ANTENNA && fifty == 50
    ensures |t| == |s| && t[1] == s[1] && t[2] == s[2] && third == 3
    ensures BumpAll(s, first, n, offset) == BumpAll(Bump(t, 1, offset), third, left, offset)
  {
    t, third := BumpAll(s, first, fifty, offset), 3;
    First50(s, offset, first, fifty);
    BumpAllSplit(s, first, fifty, left + 1, offset);
    NextTurn(t, IndexAfter(first, fifty), left, offset, first, fifty);
  }

  lemma First50(s: seq<byte>, offset: int, first: byte, fifty: nat)
    requires |s| > 0x100 && first == FIRST_ANTENNA && fifty == 50
    ensures BumpAll(s, first, fifty, offset)[1] == s[1] && BumpAll(s, first, fifty, offset)[2] == s[2]
  {
    forall m | 0 <= m < fifty ensures !Touches(first, m, 1) && !Touches(first, m, 2) { NotReached(m); }
    Untouched(s, first, fifty, offset, 1);
    Untouched(s, first, fifty, offset, 2);
  }

  lemma NextTurn(t: seq<byte>, i: byte, left: nat, offset: int, first: byte, fifty: nat)
    requires |t| > 0x100 && first == FIRST_ANTENNA && fifty == 50 && i == IndexAfter(first, fifty)
    ensures BumpAll(t, i, left + 1, offset) == BumpAll(Bump(t, 1, offset), 3, left, offset)
  {
    LastIndex(first, fifty);
    BumpStep(t, i, left + 1, offset);
  }

  lemma LastIndex(first: byte, fifty: nat)
    requires first == FIRST_ANTENNA && fifty == 50
    ensures var i := IndexAfter(first, fifty); Wrap8(i as int + 3) == 1 && Wrap8(i as int + ANTENNA_SIZE) == 3
  {
    assert IndexAfter(first, fifty) == 254;
  }

  lemma NotReached(m: nat)
    requires m < 50
    ensures !Touches(FIRST_ANTENNA, m, 1) && !Touches(FIRST_ANTENNA, m, 2)
  {
    var x := FIRST_ANTENNA + ANTENNA_SIZE * m;
    SmallMod(x);
    SmallMod(x + 3);
    SmallMod(x + 4);
  }

  lemma SmallMod(x: nat)
    requires x < 0x100
    ensures x % 0x100 == x
  {
  }

  /** After it no antenna comes back to the length byte, and to the parameter id only the 102nd does. */
  lemma NotReachedAgain(third: byte, m: nat)
    requires third == 3 && m < 204
    ensures !Touches(third, m, 2) && (m != 50 ==> !Touches(third, m, 1))
  {
    SmallIndex(third, m);
  }

  lemma SmallIndex(i: byte, m: nat)
    requires m < 204
    ensures var x := i + ANTENNA_SIZE * m;
      IndexAfter(i, m) == x - if x < 0x100 then 0 else if x < 0x200 then 0x100 else if x < 0x300 then 0x200 else if x < 0x400 then 0x300 else 0x400
  {
  }

  /** With more than 50 antennas the 51st antenna's adjustment is made to the parameter id and the length
      byte instead: the length byte ends up as the sum's high byte, and up to 101 antennas the parameter id
      as its low byte, with a negative offset later at most that; the powers from the 51st antenna on stay. */
  lemma FiftyFirstAntennaWraps(s: seq<byte>, n: nat, offset: int)
    requires Calibration(s, n) && n > 50 && offset != 0
    ensures Complete(s)
    ensures Updated(s, offset)[2] == Adjust(Le16(s[1], s[2]), offset) / 0x100
    ensures n <= 101 ==> Updated(s, offset)[1] == Adjust(Le16(s[1], s[2]), offset) % 0x100
    ensures offset < 0 ==> Updated(s, offset)[1] <= Adjust(Le16(s[1], s[2]), offset) % 0x100
    ensures forall k :: 50 <= k < n ==> Rms(Updated(s, offset), k) == Rms(s, k)
  {
    CalibrationIsComplete(s, n);
    var t, third := Turn51(s, n, n - 51, offset, FIRST_ANTENNA, 50);
    RestOfTurns(Bump(t, 1, offset), third, n - 51, offset, 50);
    forall k | 50 <= k < n ensures Rms(Updated(s, offset), k) == Rms(s, k) {
      TailIsUntouched(s, n, offset, FIRST_ANTENNA + ANTENNA_SIZE * k + 3);
      TailIsUntouched(s, n, offset, FIRST_ANTENNA + ANTENNA_SIZE * k + 4);
    }
  }

  lemma RestOfTurns(u: seq<byte>, third: byte, rest: nat, offset: int, fifty: nat)
    requires |u| > 0x100 && third == 3 && rest < 205 && fifty == 50
    ensures BumpAll(u, third, rest, offset)[2] == u[2]
    ensures rest <= fifty ==> BumpAll(u, third, rest, offset)[1] == u[1]
    ensures offset < 0 ==> BumpAll(u, third, rest, offset)[1] <= u[1]
  {
    forall m | 0 <= m < rest ensures !Touches(third, m, 2) { NotReachedAgain(third, m); }
    Untouched(u, third, rest, offset, 2);
    if rest <= fifty {
      NextFifty(u, third, rest, offset);
    } else {
      var w, i := BumpAll(u, third, fifty, offset), IndexAfter(third, fifty);
      NextFifty(u, third, fifty, offset);
      BumpAllSplit(u, third, fifty, rest - fifty, offset);
      if offset < 0 { Turn102(w, i, rest - fifty - 1, offset, third, fifty); }
    }
  }

  lemma NextFifty(u: seq<byte>, third: byte, rest: nat, offset: int)
    requires |u| > 0x100 && third == 3 && rest <= 50
    ensures BumpAll(u, third, rest, offset)[1] == u[1]
  {
    forall m | 0 <= m < rest ensures !Touches(third, m, 1) { NotReachedAgain(third, m); }
    Untouched(u, third, rest, offset, 1);
  }

  /** The 102nd antenna's power is written over the channel and the parameter id. */
  lemma Turn102(w: seq<byte>, i: byte, left: nat, offset: int, third: byte, fifty: nat)
    requires |w| > 0x100 && offset < 0 && third == 3 && fifty == 50 && i == IndexAfter(third, fifty) && left < 204
    ensures BumpAll(w, i, left + 1, offset)[1] <= w[1]
  {
    assert i == 253;
    BumpStep(w, i, left + 1, offset);
    var v, second: byte := Bump(w, 0, offset), 2;
    forall m | 0 <= m < left ensures !Touches(second, m, 1) { SmallIndex(second, m); }
    Untouched(v, second, left, offset, 1);
    BumpedDown(w, offset);
  }

  lemma BumpedDown(w: seq<byte>, offset: int)
    requires |w| > 0x100 && offset < 0
    ensures Bump(w, 0, offset)[1] <= w[1]
  {
    var v := Le16(w[0], w[1]);
    assert Adjust(v, offset) <= v && v / 0x100 == w[1];
  }

  lemma AdjustMoves(v: word, offset: int)
    requires IsShort(offset) && offset != 0 && (v != 0 || offset > 0)
    ensures Adjust(v, offset) != v
  {
  }

  /** The update is exact if and only if there are at most 50 antennas, whatever their powers are, unless
      the offset is zero. */
  lemma ExactIffFiftyAntennas(s: seq<byte>, n: nat, offset: int)
    requires Calibration(s, n) && IsShort(offset) && offset != 0
    ensures UpdatedExactly(s, n, offset) <==> n <= 50
  {
    if n <= 50 {
      UpdateIsExact(s, offset);
    } else {
      FiftyFirstAntennaWraps(s, n, offset);
      assert !IsRms(1, n) && !IsRms(2, n);
      if UpdatedExactly(s, n, offset) {
        if offset > 0 { AdjustMoves(Rms(s, 50), offset); } else { ParameterIdFalls(s[1], s[2], offset); }
      }
    }
  }

  /** With a negative offset the length byte cannot stay unless the parameter id falls. */
  lemma ParameterIdFalls(lo: byte, hi: byte, offset: int)
    requires hi != 0 && offset < 0 && Adjust(Le16(lo, hi), offset) / 0x100 == hi
    ensures Adjust(Le16(lo, hi), offset) % 0x100 < lo
  {
    var v := Le16(lo, hi);
    assert Adjust(v, offset) < v;
  }

  /** For the antenna count alone: the update is exact on all calibrations with that many antennas if and
      only if there are at most 50. */
  lemma ExactForCountIff(n: nat, offset: int)
    requires 0 < n < 0x100 && IsShort(offset) && offset != 0
    ensures (forall s :: Calibration(s, n) ==> UpdatedExactly(s, n, offset)) <==> n <= 50
  {
    if n <= 50 {
      forall s | Calibration(s, n) ensures UpdatedExactly(s, n, offset) { ExactIffFiftyAntennas(s, n, offset); }
    } else {
      var s := seq(FIRST_ANTENNA + ANTENNA_SIZE * n, j => if j == 3 then n else 1);
      assert Calibration(s, n);
      ExactIffFiftyAntennas(s, n, offset);
    }
  }
}
