/** phHbci_CalcLrc: the checksum of the firmware download link. The code's comment names longitudinal
    parity; what it computes is the two's complement of the byte sum
    (uwb/halimpl/fwd/sr1xx/phNxpUciHal_fwd.cc:689-708). */
module Lrc {
  import opened Bytes

  function Sum(s: seq<byte>): nat {
    if s == [] then 0 else s[0] as int + Sum(s[1..])
  }

  /** What the link relies on: header, data and checksum add up to zero modulo 256. */
  predicate Intact(s: seq<byte>) { Sum(s) % 0x100 == 0 }

  /** The checksum byte for `s`. */
  function Lrc(s: seq<byte>): byte { (0x100 - Sum(s) % 0x100) % 0x100 }

  method CalcLrc(buf: seq<byte>) returns (lrc: byte)
    ensures lrc == Lrc(buf)
  {
    lrc := 0;
    if |buf| == 0 { return; }
    for i := 0 to |buf|
      invariant (lrc as int + Sum(buf[i..])) % 0x100 == Sum(buf) % 0x100
    {
      assert buf[i..][1..] == buf[i + 1..];
      AddMod(lrc, buf[i], Sum(buf[i + 1..]));
      lrc := Wrap8(lrc as int + buf[i] as int);
    }
    lrc := 0xFF - lrc;
    lrc := Wrap8(lrc as int + 1);
  }

  lemma AddMod(a: byte, b: byte, rest: nat)
    ensures (Wrap8(a as int + b as int) as int + rest) % 0x100 == (a as int + (b as int + rest)) % 0x100
  {
    if a as int + b as int >= 0x100 { ModShift(a as int + b as int + rest - 0x100); }
  }

  lemma ModShift(x: int)
    ensures (x + 0x100) % 0x100 == x % 0x100
  {
  }

  lemma {:induction false} SumConcat(a: seq<byte>, b: seq<byte>)
    ensures Sum(a + b) == Sum(a) + Sum(b)
  {
    if a == [] {
      assert a + b == b;
    } else {
      assert (a + b)[1..] == a[1..] + b;
      SumConcat(a[1..], b);
    }
  }

  /** A sequence followed by a byte is intact exactly when that byte is the checksum. */
  lemma IntactIffLrc(s: seq<byte>, b: byte)
    ensures Intact(s + [b]) <==> b == Lrc(s)
  {
    SumConcat(s, [b]);
    assert Sum([b]) == b;
    LrcModulo(Sum(s), b);
  }

  lemma LrcModulo(n: nat, b: byte)
    ensures (n + b as int) % 0x100 == 0 <==> b == (0x100 - n % 0x100) % 0x100
  {
    var q, r := n / 0x100, n % 0x100;
    assert n == 0x100 * q + r;
    assert (n + b as int) % 0x100 == (r + b as int) % 0x100;
  }

  lemma {:induction false} SumUpdate(s: seq<byte>, i: nat, b: byte)
    requires i < |s|
    ensures Sum(s[i := b]) == Sum(s) - s[i] as int + b as int
  {
    if i == 0 {
      assert s[0 := b][1..] == s[1..];
    } else {
      assert s[i := b][1..] == s[1..][i - 1 := b];
      SumUpdate(s[1..], i - 1, b);
    }
  }

  /** Any change of a single byte is detected. */
  lemma SingleByteChangeDetected(s: seq<byte>, i: nat, b: byte)
    requires i < |s| && Intact(s) && b != s[i]
    ensures !Intact(s[i := b])
  {
    SumUpdate(s, i, b);
    DifferentResidue(Sum(s), Sum(s[i := b]));
  }

  lemma DifferentResidue(x: nat, y: nat)
    requires x != y && -0x100 < x - y < 0x100 && x % 0x100 == 0
    ensures y % 0x100 != 0
  {
  }
}
