/** What lines with numbers and byte arrays read as, told by the digits they are written with and not by
    the states of the reader (uwb/halimpl/utils/phNxpConfig.cc:136-190, 266-349). */
module ConfigLines {
  import opened Bytes
  import opened ConfigParser

  const UPPER := "0123456789ABCDEF"
  const LOWER := "0123456789abcdef"

  /** The character `c` stands for the digit `d`, as a letter in either case. */
  predicate Denotes(c: char, d: nat) { d < 16 && (c == UPPER[d] || c == LOWER[d]) }

  /** `s` is written with the digits `ds`, hexadecimal or decimal ones, the most significant first. */
  predicate Spells(s: string, ds: seq<nat>, hex: bool) {
    |s| == |ds| && forall i :: 0 <= i < |s| ==> Denotes(s[i], ds[i]) && (hex || ds[i] < 10)
  }

  function Times(v: nat, hex: bool): nat { if hex then 16 * v else 10 * v }

  /** The number that digits stand for. */
  function Value(ds: seq<nat>, hex: bool): nat {
    if ds == [] then 0 else Times(Value(ds[..|ds| - 1], hex), hex) + ds[|ds| - 1]
  }

  /** The hexadecimal digits of a number. */
  function HexDigits(n: nat): seq<nat> { if n < 16 then [n] else HexDigits(n / 16) + [n % 16] }

  lemma {:induction false} ValueOfDigits(n: nat)
    ensures Value(HexDigits(n), true) == n
  {
    if n >= 16 {
      ValueOfDigits(n / 16);
      ValueStep(HexDigits(n / 16), n % 16, true);
    } else {
      ValueStep([], n, true);
    }
  }

  lemma ValueStep(ds: seq<nat>, d: nat, hex: bool)
    ensures Value(ds + [d], hex) == Times(Value(ds, hex), hex) + d
  {
    assert (ds + [d])[..|ds|] == ds;
  }

  lemma DigitIs(c: char, d: nat)
    requires Denotes(c, d)
    ensures IsDigit(c, 16) && DigitValue(c, 16) == d
    ensures d < 10 ==> IsDigit(c, 10) && DigitValue(c, 10) == d && (c == '0' <==> d == 0)
  {
    match d
    case 0 => case 1 => case 2 => case 3 => case 4 => case 5 => case 6 => case 7 => case 8 => case 9 =>
    case 10 => case 11 => case 12 => case 13 => case 14 => case _ =>
  }

  lemma WholeTurns(x: nat, q: nat)
    ensures U64(x + 0x1_0000_0000_0000_0000 * q) == U64(x)
  {
  }

  /** The unsigned long keeps the number modulo 2^64. */
  lemma OneMoreDigit(v: nat, d: nat, hex: bool)
    ensures U64(U64(Times(U64(v), hex)) + d) == U64(Times(v, hex) + d)
  {
    var q := v / 0x1_0000_0000_0000_0000;
    var x := Times(U64(v), hex);
    WholeTurns(U64(x) + d, x / 0x1_0000_0000_0000_0000);
    WholeTurns(x + d, Times(q, hex));
  }

  function Base(hex: bool): nat { if hex then 16 else 10 }

  /** Both in a number and in an array of bytes. */
  predicate ReadsDigits(p: Parser, hex: bool) { (p.state == NumValue || (p.state == ArrNum && hex)) && p.base == Base(hex) }

  lemma DigitStep(p: Parser, v: nat, c: char, d: nat, hex: bool)
    requires ReadsDigits(p, hex) && p.num == U64(v) && Denotes(c, d) && (hex || d < 10)
    ensures Step(p, c) == p.(num := U64(Times(v, hex) + d))
  {
    DigitIs(c, d);
    OneMoreDigit(v, d, hex);
  }

  lemma SpellsRest(s: string, ds: seq<nat>, hex: bool)
    requires s != "" && Spells(s, ds, hex)
    ensures ds != [] && Denotes(s[0], ds[0]) && (hex || ds[0] < 10) && Spells(s[1..], ds[1..], hex)
  {
  }

  lemma FirstDigit(p: Parser, s: string, ds: seq<nat>, before: seq<nat>, hex: bool) returns (q: Parser, more: seq<nat>)
    requires ReadsDigits(p, hex) && s != "" && Spells(s, ds, hex) && p.num == U64(Value(before, hex))
    ensures ds != [] && more == before + [ds[0]] && q == p.(num := U64(Value(more, hex))) && Run(p, s) == Run(q, s[1..])
  {
    SpellsRest(s, ds, hex);
    DigitStep(p, Value(before, hex), s[0], ds[0], hex);
    ValueStep(before, ds[0], hex);
    more := before + [ds[0]];
    q := p.(num := U64(Value(more, hex)));
  }

  lemma Behind(before: seq<nat>, ds: seq<nat>)
    requires ds != []
    ensures before + [ds[0]] + ds[1..] == before + ds
  {
  }

  /** Digits read behind others already read. */
  lemma {:induction false} RunDigits(p: Parser, s: string, ds: seq<nat>, before: seq<nat>, hex: bool)
    requires ReadsDigits(p, hex) && Spells(s, ds, hex) && p.num == U64(Value(before, hex))
    ensures Run(p, s) == p.(num := U64(Value(before + ds, hex)))
    decreases |s|
  {
    if s == "" {
      assert before + ds == before;
    } else {
      var q, more := FirstDigit(p, s, ds, before, hex);
      SpellsRest(s, ds, hex);
      RunDigits(q, s[1..], ds[1..], more, hex);
      Behind(before, ds);
    }
  }

  // ----- Tokens and line ends

  const CAPITALS := "ABCDEFGHIJKLMNOPQRSTUVWXYZ"
  const SMALL := "abcdefghijklmnopqrstuvwxyz"

  /** What tokens are made of. */
  predicate TokenChar(c: char) { c in CAPITALS || c in SMALL || c in "0123456789" || c in "/_-.," }

  lemma IsCapital(c: char)
    ensures 'A' <= c <= 'Z' <==> c in CAPITALS
  {
    if 'A' <= c <= 'Z' { assert c == CAPITALS[c as int - 'A' as int]; }
  }

  lemma IsSmall(c: char)
    ensures 'a' <= c <= 'z' <==> c in SMALL
  {
    if 'a' <= c <= 'z' { assert c == SMALL[c as int - 'a' as int]; }
  }

  lemma IsNumeral(c: char)
    ensures '0' <= c <= '9' <==> c in "0123456789"
  {
    if '0' <= c <= '9' { assert c == "0123456789"[c as int - '0' as int]; }
  }

  /** The characters the reader takes for a token are these. */
  lemma TokenCharIff(c: char)
    ensures IsPrintable(c) <==> TokenChar(c)
  {
    IsCapital(c);
    IsSmall(c);
    IsNumeral(c);
  }

  predicate IsToken(token: string) { token != "" && forall i :: 0 <= i < |token| ==> TokenChar(token[i]) }

  lemma TokenIsPrintable(token: string)
    requires IsToken(token)
    ensures PrintableToken(token)
  {
    forall i | 0 <= i < |token| ensures IsPrintable(token[i]) { TokenCharIff(token[i]); }
  }

  /** The end of a line, and whatever stands in front of it on the line. */
  predicate LineEnd(rest: string) {
    && rest != "" && (rest[|rest| - 1] == '\n' || rest[|rest| - 1] == '\r')
    && forall i :: 0 <= i < |rest| - 1 ==> rest[i] != '\n' && rest[i] != '\r'
  }

  lemma RunLineEnd(q: Parser, after: Parser, rest: string)
    requires LineEnd(rest) && Act(q, rest[0]) == after && after.state == EndLine
    ensures Run(q, rest) == after.(state := BeginLine)
  {
    if |rest| == 1 {
      assert rest[1..] == "";
    } else {
      SkipToLineEnd(after, rest[1..]);
    }
  }

  /** Up to the equals sign. */
  lemma RunToEquals(p: Parser, token: string)
    requires p.state == BeginLine && PrintableToken(token)
    ensures Run(p, token + "=") == Parser(BeginQuote, token, "", 0, [], [], p.base, p.m)
  {
    var p1 := Parser(Token, [token[0]], "", 0, [], [], p.base, p.m);
    RunConcat(p, token, "=");
    assert Step(p, token[0]) == p1;
    RunToken(p1, token[1..]);
    assert [token[0]] + token[1..] == token;
    Run1(p1.(token := token), '=');
  }

  // ----- Numbers

  lemma NoHexDigit(c: char)
    requires c !in "0123456789ABCDEFabcdef"
    ensures !IsDigit(c, 16)
  {
    assert forall i :: 0 <= i < 22 ==> "0123456789ABCDEFabcdef"[i] in "0123456789ABCDEFabcdef";
  }

  /** A line that sets `token` to `v`, and nothing else. */
  predicate Reads(line: string, token: string, v: Param) {
    Run(START, line).state == BeginLine && Parse(line) == map[token := v]
  }

  lemma StillAtLineStart(front: string, line: string)
    requires Run(START, front).state == BeginLine && Run(START, line).state == BeginLine
    ensures Run(START, front + line).state == BeginLine
  {
    RunConcat(START, front, line);
    assert map[] + Run(START, front).m == Run(START, front).m;
    RunFollows(START, Run(START, front), Run(START, front).m, line);
  }

  /** Wherever such a line stands in a file, the setting is there unless a line in front has it. */
  lemma LineInFile(front: string, line: string, behind: string, token: string, v: Param)
    requires Run(START, front).state == BeginLine && Reads(line, token, v)
    ensures Parse(front + line + behind) == Parse(behind) + map[token := v] + Parse(front)
  {
    StillAtLineStart(front, line);
    ParseConcat(front, line);
    ParseConcat(front + line, behind);
    Merge3(Parse(behind), map[token := v], Parse(front));
  }

  lemma Merge3(a: Settings, b: Settings, c: Settings)
    ensures a + (b + c) == a + b + c
  {
  }

  /** What has been read is a number, which `rest` ends. */
  predicate Ends(q: Parser, rest: string) {
    && LineEnd(rest)
    && ((q.state == NumValue && !IsDigit(rest[0], q.base)) ||
        (q.state == BeginHex && !IsDigit(rest[0], 10) && rest[0] != 'x' && rest[0] != 'X'))
  }

  lemma NumberStored(line: string, q: Parser, token: string, rest: string)
    requires q == Run(START, line) && (q.state == NumValue || q.state == BeginHex) && q.token == token && q.m == map[]
    ensures Parse(line) == map[token := Number(q.num)]
    ensures Ends(q, rest) ==> Reads(line + rest, token, Number(q.num))
  {
    if Ends(q, rest) {
      RunConcat(START, line, rest);
      RunLineEnd(q, Emplace(q, Number(q.num)), rest);
    }
  }

  /** A parser that has read up to the equals sign of a first line. */
  function AtValueOf(token: string): Parser { Parser(BeginQuote, token, "", 0, [], [], 0, map[]) }

  lemma RunFrom(token: string, v: string)
    requires IsToken(token)
    ensures Run(START, token + "=" + v) == Run(AtValueOf(token), v)
  {
    TokenIsPrintable(token);
    RunToEquals(START, token);
    RunConcat(START, token + "=", v);
  }

  lemma RunHexPrefix(p: Parser, x: char)
    requires p.state == BeginQuote && (x == 'x' || x == 'X')
    ensures Run(p, "0" + [x]) == p.(state := NumValue, base := 16, num := 0)
  {
    RunConcat(p, "0", [x]);
    Run1(p, '0');
    Run1(p.(state := BeginHex), x);
  }

  lemma RunHex(p: Parser, x: char, s: string, ds: seq<nat>)
    requires p.state == BeginQuote && (x == 'x' || x == 'X') && Spells(s, ds, true)
    ensures Run(p, "0" + [x] + s) == p.(state := NumValue, base := 16, num := U64(Value(ds, true)))
  {
    RunConcat(p, "0" + [x], s);
    RunHexPrefix(p, x);
    RunDigits(p.(state := NumValue, base := 16, num := 0), s, ds, [], true);
    assert [] + ds == ds;
  }

  /** Hexadecimal numbers, with any number of digits: the line sets the number they stand for, modulo 2^64,
      wherever it ends: at the end of the file, or with any other character and the rest of the line. */
  lemma HexadecimalLine(token: string, x: char, s: string, ds: seq<nat>, rest: string)
    requires IsToken(token) && (x == 'x' || x == 'X') && Spells(s, ds, true)
    ensures var line, n := token + "=" + ("0" + [x] + s), Value(ds, true) % 0x1_0000_0000_0000_0000;
      && Parse(line) == map[token := Number(n)]
      && (LineEnd(rest) && rest[0] !in "0123456789ABCDEFabcdef" ==> Reads(line + rest, token, Number(n)))
  {
    var line := token + "=" + ("0" + [x] + s);
    RunFrom(token, "0" + [x] + s);
    RunHex(AtValueOf(token), x, s, ds);
    if LineEnd(rest) && rest[0] !in "0123456789ABCDEFabcdef" { NoHexDigit(rest[0]); }
    NumberStored(line, Run(START, line), token, rest);
  }

  lemma Newline()
    ensures LineEnd("\n") && '\n' !in "0123456789ABCDEFabcdef"
  {
  }

  /** So every unsigned long can be written in hexadecimal, in either case of every letter. */
  lemma HexadecimalNumber(token: string, x: char, s: string, n: nat)
    requires IsToken(token) && (x == 'x' || x == 'X') && n < 0x1_0000_0000_0000_0000 && Spells(s, HexDigits(n), true)
    ensures Reads(token + "=" + ("0" + [x] + s) + "\n", token, Number(n))
  {
    ValueOfDigits(n);
    Newline();
    HexadecimalEnd(token, x, s, HexDigits(n), "\n", n);
  }

  lemma HexadecimalEnd(token: string, x: char, s: string, ds: seq<nat>, rest: string, n: nat)
    requires IsToken(token) && (x == 'x' || x == 'X') && Spells(s, ds, true)
    requires LineEnd(rest) && rest[0] !in "0123456789ABCDEFabcdef" && n == Value(ds, true) < 0x1_0000_0000_0000_0000
    ensures Reads(token + "=" + ("0" + [x] + s) + rest, token, Number(n))
  {
    HexadecimalLine(token, x, s, ds, rest);
    SmallNumber(n);
  }

  lemma SmallNumber(n: nat)
    requires n < 0x1_0000_0000_0000_0000
    ensures n % 0x1_0000_0000_0000_0000 == n
  {
  }

  lemma RunFromNonzero(p: Parser, s: string, ds: seq<nat>)
    requires p.state == BeginQuote && s != "" && Spells(s, ds, false) && ds[0] != 0
    ensures Run(p, s) == p.(state := NumValue, base := 10, num := U64(Value(ds, false)))
  {
    SpellsRest(s, ds, false);
    DigitIs(s[0], ds[0]);
    ValueStep([], ds[0], false);
    RunDigits(p.(state := NumValue, base := 10, num := ds[0]), s[1..], ds[1..], [] + [ds[0]], false);
    Behind([], ds);
    assert [] + ds == ds;
  }

  lemma RunFromZero(p: Parser, s: string, ds: seq<nat>)
    requires p.state == BeginQuote && |s| > 1 && Spells(s, ds, false) && ds[0] == 0
    ensures Run(p, s) == p.(state := NumValue, base := 10, num := U64(Value(ds, false)))
  {
    SpellsRest(s, ds, false);
    assert ds == [0] + ds[1..];
    FirstZero(p, s);
    SecondDigit(p.(state := BeginHex), s[1..], ds[1..], ds);
  }

  lemma FirstZero(p: Parser, s: string)
    requires p.state == BeginQuote && s != "" && Denotes(s[0], 0)
    ensures Run(p, s) == Run(p.(state := BeginHex), s[1..])
  {
    DigitIs(s[0], 0);
    assert Step(p, s[0]) == p.(state := BeginHex);
  }

  lemma SecondDigit(p: Parser, s: string, ds: seq<nat>, all: seq<nat>)
    requires p.state == BeginHex && s != "" && Spells(s, ds, false) && all == [0] + ds
    ensures Run(p, s) == p.(state := NumValue, base := 10, num := U64(Value(all, false)))
  {
    SpellsRest(s, ds, false);
    DigitIs(s[0], ds[0]);
    ValueStep([], 0, false);
    ValueStep([0], ds[0], false);
    assert [] + [0] == [0];
    RunDigits(p.(state := NumValue, base := 10, num := ds[0]), s[1..], ds[1..], [0] + [ds[0]], false);
    Behind([0], ds);
  }

  /** A single zero may still become the beginning of a hexadecimal number. */
  lemma RunDecimal(p: Parser, s: string, ds: seq<nat>)
    requires p.state == BeginQuote && p.num == 0 && s != "" && Spells(s, ds, false)
    ensures var q := Run(p, s);
      && q == p.(state := q.state, base := q.base, num := U64(Value(ds, false)))
      && ((q.state == NumValue && q.base == 10) || (q.state == BeginHex && s == "0"))
  {
    if ds[0] != 0 {
      RunFromNonzero(p, s, ds);
    } else if |s| > 1 {
      RunFromZero(p, s, ds);
    } else {
      SingleZero(p, s, ds);
    }
  }

  lemma SingleZero(p: Parser, s: string, ds: seq<nat>)
    requires p.state == BeginQuote && p.num == 0 && |s| == 1 && Spells(s, ds, false) && ds[0] == 0
    ensures s == "0" && Run(p, s) == p.(state := BeginHex, num := U64(Value(ds, false)))
  {
    DigitIs(s[0], 0);
    ValueStep([], 0, false);
    assert [] + [0] == ds;
    Run1(p, '0');
  }

  /** Decimal numbers, leading zeros included. */
  lemma DecimalLine(token: string, s: string, ds: seq<nat>, rest: string)
    requires IsToken(token) && s != "" && Spells(s, ds, false)
    ensures var line, n := token + "=" + s, Value(ds, false) % 0x1_0000_0000_0000_0000;
      && Parse(line) == map[token := Number(n)]
      && (LineEnd(rest) && rest[0] !in "0123456789" && (s == "0" ==> rest[0] !in "xX") ==> Reads(line + rest, token, Number(n)))
  {
    var line := token + "=" + s;
    RunFrom(token, s);
    RunDecimal(AtValueOf(token), s, ds);
    if LineEnd(rest) { NoDecimalDigit(rest[0]); }
    NumberStored(line, Run(START, line), token, rest);
  }

  lemma NoDecimalDigit(c: char)
    ensures c !in "0123456789" ==> !IsDigit(c, 10)
    ensures c !in "xX" ==> c != 'x' && c != 'X'
  {
    IsNumeral(c);
    assert "xX"[0] == 'x' && "xX"[1] == 'X';
  }

  /** The line the configuration is shipped with. */
  lemma BoardVariant()
    ensures Reads("UWB_BOARD_VARIANT_CONFIG=0x2A\n", "UWB_BOARD_VARIANT_CONFIG", Number(42))
  {
    var token := "UWB_BOARD_VARIANT_CONFIG";
    assert token + "=" + ("0" + ['x'] + "2A") + "\n" == "UWB_BOARD_VARIANT_CONFIG=0x2A\n";
    assert HexDigits(42) == [2, 10] by { assert HexDigits(2) == [2]; }
    HexadecimalNumber(token, 'x', "2A", 42);
  }

  // ----- Arrays of bytes

  /** A number of an array, with what stands between it and the next one. */
  datatype Item = Item(s: string, ds: seq<nat>, sep: string)

  /** The white space of C's isspace: space, tab, line feed, vertical tab, form feed, carriage return. */
  const SPACES := " \t\n\U{000B}\U{000C}\r"

  /** What ends a number inside an array. */
  predicate Delimits(c: char) { c in SPACES || c in ",:-" }

  /** What may follow a delimiter: anything but a digit, and what closes the array or begins a string or a
      comment. */
  predicate Filler(t: string) { forall i :: 0 <= i < |t| ==> t[i] !in "0123456789ABCDEFabcdef" && t[i] !in "}\"#" }

  predicate ProperItem(it: Item) {
    it.s != "" && Spells(it.s, it.ds, true) && it.sep != "" && Delimits(it.sep[0]) && Filler(it.sep[1..])
  }

  function ItemsText(items: seq<Item>): string {
    if items == [] then "" else (items[0].s + items[0].sep) + ItemsText(items[1..])
  }

  function LowByteOf(ds: seq<nat>): byte { Value(ds, true) % 0x100 }

  function ItemBytes(items: seq<Item>): seq<byte> {
    if items == [] then [] else [LowByteOf(items[0].ds)] + ItemBytes(items[1..])
  }

  lemma IsSpaceIff(c: char)
    ensures IsSpace(c) <==> c in SPACES
  {
  }

  lemma DelimitsIff(c: char)
    ensures IsArrayDelimiter(c) <==> Delimits(c) || c == '}'
  {
    IsSpaceIff(c);
  }

  lemma DelimitsArray(c: char)
    requires Delimits(c)
    ensures IsArrayDelimiter(c) && !IsDigit(c, 16) && c != '}' && c != '#'
  {
    DelimitsIff(c);
    IsSpaceIff(c);
  }

  lemma {:induction false} RunFiller(p: Parser, t: string)
    requires p.state == ArrSpace && Filler(t)
    ensures Run(p, t) == p
    decreases |t|
  {
    if t != "" {
      NoHexDigit(t[0]);
      NotClosing(t[0]);
      assert Filler(t[1..]);
      RunFiller(p, t[1..]);
    }
  }

  lemma NotClosing(c: char)
    requires c !in "}\"#"
    ensures c != '}' && c != '"' && c != '#'
  {
    assert "}\"#"[0] == '}' && "}\"#"[1] == '"' && "}\"#"[2] == '#';
  }

  /** A number inside an array. */
  lemma RunArrayNumber(p: Parser, s: string, ds: seq<nat>)
    requires p.state == ArrSpace && p.base == 16 && s != "" && Spells(s, ds, true)
    ensures Run(p, s) == p.(state := ArrNum, num := U64(Value(ds, true)))
  {
    SpellsRest(s, ds, true);
    DigitIs(s[0], ds[0]);
    ValueStep([], ds[0], true);
    RunDigits(p.(state := ArrNum, num := ds[0]), s[1..], ds[1..], [] + [ds[0]], true);
    Behind([], ds);
    assert [] + ds == ds;
  }

  /** Of which the low byte is taken. */
  lemma LowByte(v: nat)
    ensures U64(v) % 0x100 == v % 0x100
  {
    var q := v / 0x1_0000_0000_0000_0000;
    assert v == U64(v) + 0x100 * (0x100_0000_0000_0000 * q);
  }

  lemma StoreByte(p: Parser, v: nat, sep: string)
    requires p.state == ArrNum && p.num == U64(v) && sep != "" && Delimits(sep[0]) && Filler(sep[1..])
    ensures Run(p, sep) == p.(state := ArrSpace, bytes := p.bytes + [v % 0x100])
  {
    LowByte(v);
    DelimitsArray(sep[0]);
    RunFiller(p.(state := ArrSpace, bytes := p.bytes + [v % 0x100]), sep[1..]);
  }

  lemma RunItem(p: Parser, it: Item) returns (q: Parser)
    requires p.state == ArrSpace && p.base == 16 && ProperItem(it)
    ensures q == Run(p, it.s + it.sep) == p.(num := q.num, bytes := p.bytes + [LowByteOf(it.ds)])
  {
    RunConcat(p, it.s, it.sep);
    RunArrayNumber(p, it.s, it.ds);
    StoreByte(p.(state := ArrNum, num := U64(Value(it.ds, true))), Value(it.ds, true), it.sep);
    q := Run(p, it.s + it.sep);
  }

  lemma {:induction false} RunItems(p: Parser, items: seq<Item>)
    requires p.state == ArrSpace && p.base == 16 && forall i :: 0 <= i < |items| ==> ProperItem(items[i])
    ensures var q := Run(p, ItemsText(items)); q == p.(num := q.num, bytes := p.bytes + ItemBytes(items))
    decreases |items|
  {
    if items == [] {
      assert p.bytes + [] == p.bytes;
    } else {
      var q := RunItem(p, items[0]);
      RunConcat(p, items[0].s + items[0].sep, ItemsText(items[1..]));
      RunItems(q, items[1..]);
      BytesBehind(p.bytes, LowByteOf(items[0].ds), ItemBytes(items[1..]));
    }
  }

  lemma BytesBehind(a: seq<byte>, b: byte, c: seq<byte>)
    ensures a + [b] + c == a + ([b] + c)
  {
  }

  /** What the last number, which the closing brace ends, adds. */
  function LastByte(ds: seq<nat>): seq<byte> { if ds == [] then [] else [LowByteOf(ds)] }

  lemma RunClosing(p: Parser, s: string, ds: seq<nat>)
    requires p.state == ArrSpace && p.base == 16 && Spells(s, ds, true)
    ensures var q := Run(p, s + "}"); q.state == EndLine && q.m == TryEmplace(p.m, p.token, ByteArray(p.bytes + LastByte(ds)))
  {
    RunConcat(p, s, "}");
    Run1(Run(p, s), '}');
    if s == "" {
      assert ds == [] && p.bytes + [] == p.bytes;
    } else {
      RunArrayNumber(p, s, ds);
      LowByte(Value(ds, true));
    }
  }

  lemma OpenArray(p: Parser, gap: string, more: string)
    requires p.state == BeginQuote && Filler(gap)
    ensures Run(p, "{" + (gap + more)) == Run(p.(state := ArrSpace, base := 16), more)
  {
    RunConcat(p, "{", gap + more);
    Run1(p, '{');
    RunConcat(p.(state := ArrSpace, base := 16), gap, more);
    RunFiller(p.(state := ArrSpace, base := 16), gap);
  }

  lemma RunArray(p: Parser, items: seq<Item>, s: string, ds: seq<nat>)
    requires p.state == ArrSpace && p.base == 16 && p.bytes == [] && Spells(s, ds, true)
    requires forall i :: 0 <= i < |items| ==> ProperItem(items[i])
    ensures var q := Run(p, ItemsText(items) + (s + "}"));
      q.state == EndLine && q.m == TryEmplace(p.m, p.token, ByteArray(ItemBytes(items) + LastByte(ds)))
  {
    RunConcat(p, ItemsText(items), s + "}");
    RunItems(p, items);
    assert [] + ItemBytes(items) == ItemBytes(items);
    RunClosing(Run(p, ItemsText(items)), s, ds);
  }

  lemma ArrayStored(line: string, q: Parser, token: string, v: Param, rest: string)
    requires q == Run(START, line) && q.state == EndLine && q.m == map[token := v] && LineEnd(rest)
    ensures Parse(line) == map[token := v] && Reads(line + rest, token, v)
  {
    RunConcat(START, line, rest);
    RunLineEnd(q, q, rest);
  }

  /** Arrays of bytes, over several lines or not: numbers of any length in either case, each ended by white
      space, a comma, a colon or a minus, or the last one by the brace, give their low bytes. */
  lemma ByteArrayLine(token: string, gap: string, items: seq<Item>, s: string, ds: seq<nat>, rest: string)
    requires IsToken(token) && Filler(gap) && Spells(s, ds, true) && LineEnd(rest)
    requires forall i :: 0 <= i < |items| ==> ProperItem(items[i])
    ensures var line := token + "=" + ("{" + (gap + (ItemsText(items) + (s + "}"))));
      && Parse(line) == map[token := ByteArray(ItemBytes(items) + LastByte(ds))]
      && Reads(line + rest, token, ByteArray(ItemBytes(items) + LastByte(ds)))
  {
    var body := ItemsText(items) + (s + "}");
    RunFrom(token, "{" + (gap + body));
    OpenArray(AtValueOf(token), gap, body);
    RunArray(AtValueOf(token).(state := ArrSpace, base := 16), items, s, ds);
    var line := token + "=" + ("{" + (gap + body));
    ArrayStored(line, Run(START, line), token, ByteArray(ItemBytes(items) + LastByte(ds)), rest);
  }

  /** A character that neither continues nor ends a number. */
  predicate Breaks(c: char) { c !in "0123456789ABCDEFabcdef" && !Delimits(c) && c != '}' }

  lemma BreaksNumber(c: char)
    requires Breaks(c)
    ensures !IsDigit(c, 16) && !IsArrayDelimiter(c)
  {
    NoHexDigit(c);
    DelimitsIff(c);
  }

  lemma BreakOff(p: Parser, s: string, ds: seq<nat>, rest: string)
    requires p.state == ArrSpace && p.base == 16 && s != "" && Spells(s, ds, true) && LineEnd(rest) && Breaks(rest[0])
    ensures var q := Run(p, s + rest); q.state == BeginLine && q.m == p.m
  {
    RunConcat(p, s, rest);
    RunArrayNumber(p, s, ds);
    BreaksNumber(rest[0]);
    RunLineEnd(Run(p, s), Run(p, s).(state := EndLine), rest);
  }

  lemma RunBroken(p: Parser, items: seq<Item>, s: string, ds: seq<nat>, rest: string)
    requires p.state == ArrSpace && p.base == 16 && s != "" && Spells(s, ds, true) && LineEnd(rest) && Breaks(rest[0])
    requires forall i :: 0 <= i < |items| ==> ProperItem(items[i])
    ensures var q := Run(p, ItemsText(items) + (s + rest)); q.state == BeginLine && q.m == p.m
  {
    RunConcat(p, ItemsText(items), s + rest);
    RunItems(p, items);
    BreakOff(Run(p, ItemsText(items)), s, ds, rest);
  }

  /** And a number that anything else ends, such as the `x` of 0x, drops the setting with the rest of its
      line. */
  lemma BrokenArrayLine(token: string, gap: string, items: seq<Item>, s: string, ds: seq<nat>, rest: string)
    requires IsToken(token) && Filler(gap) && s != "" && Spells(s, ds, true) && LineEnd(rest) && Breaks(rest[0])
    requires forall i :: 0 <= i < |items| ==> ProperItem(items[i])
    ensures var line := token + "=" + ("{" + (gap + (ItemsText(items) + (s + rest))));
      Run(START, line).state == BeginLine && Parse(line) == map[]
  {
    var body := ItemsText(items) + (s + rest);
    RunFrom(token, "{" + (gap + body));
    OpenArray(AtValueOf(token), gap, body);
    RunBroken(AtValueOf(token).(state := ArrSpace, base := 16), items, s, ds, rest);
  }
}
