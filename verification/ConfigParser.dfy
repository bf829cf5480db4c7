/** CUwbNxpConfig::readConfig: the eleven-state machine that reads a configuration file
    (uwb/halimpl/utils/phNxpConfig.cc:136-190, 202-378). A file is a string of characters. */
module ConfigParser {
  import opened Bytes

  datatype Param = Text(s: string) | Number(n: nat) | ByteArray(b: seq<byte>) | TextArray(a: seq<string>)
  type Settings = map<string, Param>

  datatype State =
    | BeginLine | Token | StrValue | NumValue | ArrSpace | ArrStr | ArrStrSpace | ArrNum
    | BeginHex | BeginQuote | EndLine

  /** The parser's locals and the map it fills. */
  datatype Parser = Parser(state: State, token: string, text: string, num: nat, bytes: seq<byte>,
                           texts: seq<string>, base: nat, m: Settings)

  const START := Parser(BeginLine, "", "", 0, [], [], 0, map[])

  /** Arithmetic on a 64-bit `unsigned long`. */
  function U64(x: nat): (r: nat)
    ensures x < 0x1_0000_0000_0000_0000 ==> r == x
  {
    x % 0x1_0000_0000_0000_0000
  }

  predicate IsDigit(c: char, base: nat) {
    (base == 10 && '0' <= c <= '9') || (base == 16 && ('0' <= c <= '9' || 'A' <= c <= 'F' || 'a' <= c <= 'f'))
  }

  predicate IsPrintable(c: char) {
    'A' <= c <= 'Z' || 'a' <= c <= 'z' || '0' <= c <= '9' || c == '/' || c == '_' || c == '-' || c == '.' || c == ','
  }

  predicate IsSpace(c: char) { c == ' ' || '\t' <= c <= '\r' }

  predicate IsArrayDelimiter(c: char) { IsSpace(c) || c == ',' || c == ':' || c == '-' || c == '}' }

  function DigitValue(c: char, base: nat): nat {
    if '0' <= c <= '9' then c as int - '0' as int
    else if base == 16 && 'A' <= c <= 'F' then c as int - 'A' as int + 10
    else if base == 16 && 'a' <= c <= 'f' then c as int - 'a' as int + 10
    else 0
  }

  /** The first entry for a token wins. */
  function TryEmplace(m: Settings, token: string, v: Param): Settings {
    if token in m then m else m[token := v]
  }

  function Emplace(p: Parser, v: Param): Parser {
    p.(m := TryEmplace(p.m, p.token, v), state := EndLine)
  }

  /** The switch over the state. */
  function Act(p: Parser, c: char): Parser {
    match p.state
    case BeginLine =>
      if IsPrintable(c) then Parser(Token, [c], "", 0, [], [], p.base, p.m) else p.(state := EndLine)
    case Token =>
      if c == '=' then p.(state := BeginQuote)
      else if IsPrintable(c) then p.(token := p.token + [c])
      else p.(state := EndLine)
    case BeginQuote =>
      if c == '"' then p.(state := StrValue, base := 0)
      else if c == '0' then p.(state := BeginHex)
      else if IsDigit(c, 10) then p.(state := NumValue, base := 10, num := DigitValue(c, 10))
      else if c == '{' then p.(state := ArrSpace, base := 16)
      else p.(state := EndLine)
    case BeginHex =>
      if c == 'x' || c == 'X' then p.(state := NumValue, base := 16, num := 0)
      else if IsDigit(c, 10) then p.(state := NumValue, base := 10, num := DigitValue(c, 10))
      else Emplace(p, Number(p.num))
    case NumValue =>
      if IsDigit(c, p.base) then p.(num := U64(U64(p.num * p.base) + DigitValue(c, p.base)))
      else Emplace(p, Number(p.num))
    case ArrSpace =>
      if IsDigit(c, 16) then p.(num := DigitValue(c, p.base), state := ArrNum)
      else if c == '}' then Emplace(p, ByteArray(p.bytes)).(bytes := [])
      else if c == '"' then p.(state := ArrStr)
      else p
    case ArrStr =>
      if c == '"' then p.(texts := p.texts + [p.text], text := "", state := ArrStrSpace)
      else p.(text := p.text + [c])
    case ArrStrSpace =>
      if c == '}' then Emplace(p, TextArray(p.texts)).(texts := [])
      else if c == '"' then p.(state := ArrStr)
      else p
    case ArrNum =>
      if IsDigit(c, 16) then p.(num := U64(U64(p.num * 16) + DigitValue(c, p.base)))
      else if IsArrayDelimiter(c) then
        var q := p.(bytes := p.bytes + [p.num % 0x100], state := ArrSpace);
        if c == '}' then Emplace(q, ByteArray(q.bytes)).(bytes := []) else q
      else p.(state := EndLine)
    case StrValue =>
      if c == '"' then Emplace(p, Text(p.text)) else p.(text := p.text + [c])
    case EndLine => p
  }

  /** One character: the switch, then the checks for the end of the line and for a comment. */
  function Step(p: Parser, c: char): Parser {
    After(Act(p, c), c)
  }

  function After(q: Parser, c: char): Parser {
    if q.state == EndLine && (c == '\n' || c == '\r') then q.(state := BeginLine)
    else if c == '#' then q.(state := EndLine)
    else q
  }

  /** The end of the file goes through the switch too; only a number can still be completed by it. */
  function Finish(p: Parser): Settings {
    if p.state == BeginHex || p.state == NumValue then TryEmplace(p.m, p.token, Number(p.num)) else p.m
  }

  function Run(p: Parser, s: string): Parser
    decreases |s|
  {
    if s == "" then p else Run(Step(p, s[0]), s[1..])
  }

  function Parse(s: string): Settings { Finish(Run(START, s)) }

  /** A configuration file object. */
  class ConfigFile {
    var settings: Settings
    var valid: bool

    constructor ()
      ensures settings == map[] && !valid
    {
      settings, valid := map[], false;
    }

    /** Reads a file; None is a file that cannot be opened. Old settings are dropped either way. */
    method ReadConfig(file: Option<string>) returns (ok: bool)
      modifies this
      ensures settings == if file.Some? then Parse(file.value) else map[]
      ensures ok == valid && (valid <==> settings != map[])
    {
      valid, settings := false, map[];
      if file.None? { return false; }
      var p := START;
      for i := 0 to |file.value|
        invariant Run(p, file.value[i..]) == Run(START, file.value)
      {
        p := Step(p, file.value[i]);
      }
      settings := Finish(p);
      if |settings| > 0 { valid := true; }
      ok := valid;
    }
  }

  lemma {:induction false} RunConcat(p: Parser, a: string, b: string)
    ensures Run(p, a + b) == Run(Run(p, a), b)
    decreases |a|
  {
    if a == "" {
      assert a + b == b;
    } else {
      assert (a + b)[1..] == a[1..] + b;
      RunConcat(Step(p, a[0]), a[1..], b);
    }
  }

  // ----- Compositionality

  /** Parsing the same text with a map already filled. Registers are compared only where they can
      still be read: none at the ends of lines, `base` only inside a value. */
  predicate Follows(p: Parser, q: Parser, m0: Settings) {
    && p.state == q.state && q.m == p.m + m0
    && (p.state != BeginLine && p.state != EndLine ==>
          p.token == q.token && p.text == q.text && p.num == q.num && p.bytes == q.bytes && p.texts == q.texts)
    && (p.state !in {BeginLine, EndLine, Token, BeginQuote, BeginHex} ==> p.base == q.base)
  }

  lemma EmplaceFollows(m: Settings, m0: Settings, token: string, v: Param)
    ensures TryEmplace(m + m0, token, v) == TryEmplace(m, token, v) + m0
  {
  }

  lemma EmplacedFollows(p: Parser, q: Parser, m0: Settings, v: Param)
    requires q.m == p.m + m0 && p.token == q.token
    ensures Follows(Emplace(p, v), Emplace(q, v), m0)
  {
    EmplaceFollows(p.m, m0, p.token, v);
  }

  lemma ActFollowsArrNum(p: Parser, q: Parser, m0: Settings, c: char)
    requires Follows(p, q, m0) && p.state == ArrNum
    ensures Follows(Act(p, c), Act(q, c), m0)
  {
    EmplacedFollows(p, q, m0, ByteArray(p.bytes + [p.num % 0x100]));
  }

  lemma ActFollowsArray(p: Parser, q: Parser, m0: Settings, c: char)
    requires Follows(p, q, m0) && (p.state == ArrSpace || p.state == ArrStr || p.state == ArrStrSpace)
    ensures Follows(Act(p, c), Act(q, c), m0)
  {
    EmplacedFollows(p, q, m0, ByteArray(p.bytes));
    EmplacedFollows(p, q, m0, TextArray(p.texts));
  }

  lemma ActFollowsNumber(p: Parser, q: Parser, m0: Settings, c: char)
    requires Follows(p, q, m0) && (p.state == BeginHex || p.state == NumValue)
    ensures Follows(Act(p, c), Act(q, c), m0)
  {
    EmplacedFollows(p, q, m0, Number(p.num));
  }

  lemma ActFollows(p: Parser, q: Parser, m0: Settings, c: char)
    requires Follows(p, q, m0)
    ensures Follows(Act(p, c), Act(q, c), m0)
  {
    match p.state
    case BeginLine | EndLine | Token | BeginQuote =>
    case BeginHex | NumValue => ActFollowsNumber(p, q, m0, c);
    case StrValue => EmplacedFollows(p, q, m0, Text(p.text));
    case ArrSpace | ArrStr | ArrStrSpace => ActFollowsArray(p, q, m0, c);
    case ArrNum => ActFollowsArrNum(p, q, m0, c);
  }

  lemma StepFollows(p: Parser, q: Parser, m0: Settings, c: char)
    requires Follows(p, q, m0)
    ensures Follows(Step(p, c), Step(q, c), m0)
  {
    ActFollows(p, q, m0, c);
  }

  lemma {:induction false} RunFollows(p: Parser, q: Parser, m0: Settings, s: string)
    requires Follows(p, q, m0)
    ensures Follows(Run(p, s), Run(q, s), m0)
    decreases |s|
  {
    if s != "" {
      StepFollows(p, q, m0, s[0]);
      RunFollows(Step(p, s[0]), Step(q, s[0]), m0, s[1..]);
    }
  }

  /** Parsing is compositional at line starts: the text behind adds only tokens the front does not set. */
  lemma ParseConcat(a: string, b: string)
    requires Run(START, a).state == BeginLine
    ensures Parse(a + b) == Parse(b) + Parse(a)
  {
    var q := Run(START, a);
    RunConcat(START, a, b);
    assert map[] + q.m == q.m;
    RunFollows(START, q, q.m, b);
    var p, r := Run(START, b), Run(q, b);
    EmplaceFollows(p.m, q.m, p.token, Number(p.num));
  }

  /** A comment line, or a blank one. */
  predicate IsComment(line: string) {
    && line != "" && (line[|line| - 1] == '\n' || line[|line| - 1] == '\r')
    && (|line| > 1 ==> line[0] == '#')
    && forall i :: 0 < i < |line| - 1 ==> line[i] != '\n' && line[i] != '\r'
  }

  lemma {:induction false} SkipToLineEnd(p: Parser, line: string)
    requires p.state == EndLine && line != "" && (line[|line| - 1] == '\n' || line[|line| - 1] == '\r')
    requires forall i :: 0 <= i < |line| - 1 ==> line[i] != '\n' && line[i] != '\r'
    ensures Run(p, line) == p.(state := BeginLine)
    decreases |line|
  {
    if |line| == 1 {
      assert line[1..] == "";
    } else {
      SkipToLineEnd(p, line[1..]);
    }
  }

  lemma RunComment(p: Parser, line: string)
    requires p.state == BeginLine && IsComment(line)
    ensures Run(p, line) == p
  {
    if |line| == 1 {
      assert line[1..] == "";
    } else {
      SkipToLineEnd(p.(state := EndLine), line[1..]);
    }
  }

  /** Comment and blank lines never change the result. */
  lemma CommentsDoNotMatter(a: string, line: string, b: string)
    requires Run(START, a).state == BeginLine && IsComment(line)
    ensures Parse(a + line + b) == Parse(a + b)
  {
    RunConcat(START, a + line, b);
    RunConcat(START, a, line);
    RunConcat(START, a, b);
    RunComment(Run(START, a), line);
  }

  // ----- Round trip

  datatype Setting = Setting(token: string, value: Param)

  predicate PrintableToken(token: string) {
    token != "" && forall i :: 0 <= i < |token| ==> IsPrintable(token[i])
  }

  /** Quotes end a string and `#` ends the line even inside one. */
  predicate Quotable(s: string) {
    forall i :: 0 <= i < |s| ==> s[i] != '"' && s[i] != '#'
  }

  predicate Expressible(e: Setting) {
    PrintableToken(e.token) &&
    match e.value
    case Text(s) => Quotable(s)
    case Number(n) => n < 0x1_0000_0000_0000_0000
    case ByteArray(b) => true
    case TextArray(a) => a != [] && forall i :: 0 <= i < |a| ==> Quotable(a[i])
  }

  predicate AllExpressible(m: Settings) { forall k <- m :: Expressible(Setting(k, m[k])) }

  function DecDigit(d: nat): char
    requires d < 10
  {
    ('0' as int + d) as char
  }

  function HexDigit(d: nat): char
    requires d < 16
  {
    if d < 10 then ('0' as int + d) as char else ('A' as int + d - 10) as char
  }

  function PrintNumber(n: nat): string {
    if n < 10 then [DecDigit(n)] else PrintNumber(n / 10) + [DecDigit(n % 10)]
  }

  function PrintBytes(b: seq<byte>): string {
    if b == [] then "" else [HexDigit(b[0] / 16), HexDigit(b[0] % 16), ' '] + PrintBytes(b[1..])
  }

  function PrintTexts(a: seq<string>): string {
    if a == [] then "" else "\"" + a[0] + "\" " + PrintTexts(a[1..])
  }

  function PrintValue(v: Param): string {
    match v
    case Text(s) => "\"" + s + "\""
    case Number(n) => PrintNumber(n)
    case ByteArray(b) => "{" + PrintBytes(b) + "}"
    case TextArray(a) => "{" + PrintTexts(a) + "}"
  }

  function PrintLine(e: Setting): string { e.token + "=" + PrintValue(e.value) + "\n" }

  function Print(es: seq<Setting>): string {
    if es == [] then "" else PrintLine(es[0]) + Print(es[1..])
  }

  /** The map a list of settings stands for; the first one for a token wins. */
  function AsMap(es: seq<Setting>): Settings {
    if es == [] then map[] else AsMap(es[1..])[es[0].token := es[0].value]
  }

  lemma {:induction false} RunToken(p: Parser, s: string)
    requires p.state == Token && forall i :: 0 <= i < |s| ==> IsPrintable(s[i])
    ensures Run(p, s) == p.(token := p.token + s)
    decreases |s|
  {
    if s == "" {
      assert p.token + s == p.token;
    } else {
      RunToken(Step(p, s[0]), s[1..]);
      assert p.token + [s[0]] + s[1..] == p.token + s;
    }
  }

  lemma {:induction false} RunText(p: Parser, s: string)
    requires (p.state == StrValue || p.state == ArrStr) && Quotable(s)
    ensures Run(p, s) == p.(text := p.text + s)
    decreases |s|
  {
    if s == "" {
      assert p.text + s == p.text;
    } else {
      RunText(Step(p, s[0]), s[1..]);
      assert p.text + [s[0]] + s[1..] == p.text + s;
    }
  }

  lemma Run1(p: Parser, c: char)
    ensures Run(p, [c]) == Step(p, c)
  {
    assert [c][1..] == "";
  }

  lemma {:induction false} RunNumber(p: Parser, n: nat)
    requires p.state == BeginQuote && p.num == 0 && 0 < n < 0x1_0000_0000_0000_0000
    ensures Run(p, PrintNumber(n)) == p.(state := NumValue, base := 10, num := n)
    decreases n
  {
    if n < 10 {
      Run1(p, DecDigit(n));
    } else {
      RunNumber(p, n / 10);
      RunConcat(p, PrintNumber(n / 10), [DecDigit(n % 10)]);
      Run1(p.(state := NumValue, base := 10, num := n / 10), DecDigit(n % 10));
    }
  }

  lemma RunByte(p: Parser, b: byte)
    requires p.state == ArrSpace && p.base == 16
    ensures Run(p, [HexDigit(b / 16), HexDigit(b % 16), ' ']) == p.(num := b, bytes := p.bytes + [b])
  {
    var h, l := HexDigit(b / 16), HexDigit(b % 16);
    HexSteps(p, b);
    assert [h, l, ' '][1..] == [l, ' '] && [l, ' '][1..] == [' '];
    Run1(p.(num := b, state := ArrNum), ' ');
  }

  lemma HexSteps(p: Parser, b: byte)
    requires p.state == ArrSpace && p.base == 16
    ensures Step(Step(p, HexDigit(b / 16)), HexDigit(b % 16)) == p.(num := b, state := ArrNum)
    ensures Step(p.(num := b, state := ArrNum), ' ') == p.(num := b, bytes := p.bytes + [b])
  {
    var p1 := p.(num := b / 16, state := ArrNum);
    assert Step(p, HexDigit(b / 16)) == p1;
    assert Step(p1, HexDigit(b % 16)) == p1.(num := b);
  }

  lemma {:induction false} RunBytes(p: Parser, b: seq<byte>)
    requires p.state == ArrSpace && p.base == 16
    ensures var q := Run(p, PrintBytes(b)); q == p.(num := q.num, bytes := p.bytes + b)
    decreases |b|
  {
    if b == [] {
      assert p.bytes + b == p.bytes;
    } else {
      var front := [HexDigit(b[0] / 16), HexDigit(b[0] % 16), ' '];
      RunConcat(p, front, PrintBytes(b[1..]));
      RunByte(p, b[0]);
      RunBytes(p.(num := b[0], bytes := p.bytes + [b[0]]), b[1..]);
      assert p.bytes + [b[0]] + b[1..] == p.bytes + b;
    }
  }

  lemma RunOneText(p: Parser, s: string)
    requires (p.state == ArrSpace || p.state == ArrStrSpace) && p.text == "" && Quotable(s)
    ensures Run(p, "\"" + s + "\" ") == p.(state := ArrStrSpace, texts := p.texts + [s])
  {
    var p1 := p.(state := ArrStr);
    RunConcat(p, "\"" + s, "\" ");
    RunConcat(p, "\"", s);
    Run1(p, '"');
    RunText(p1, s);
    assert "" + s == s;
    CloseText(p1.(text := s));
  }

  lemma CloseText(p: Parser)
    requires p.state == ArrStr
    ensures Run(p, "\" ") == p.(state := ArrStrSpace, text := "", texts := p.texts + [p.text])
  {
    RunConcat(p, "\"", " ");
    assert "\"" + " " == "\" ";
    Run1(p, '"');
    EndOfText(p);
    var q := p.(state := ArrStrSpace, text := "", texts := p.texts + [p.text]);
    Run1(q, ' ');
    SpaceStays(q);
  }

  lemma EndOfText(p: Parser)
    requires p.state == ArrStr
    ensures Step(p, '"') == p.(state := ArrStrSpace, text := "", texts := p.texts + [p.text])
  {
  }

  lemma SpaceStays(p: Parser)
    requires p.state == ArrStrSpace
    ensures Step(p, ' ') == p
  {
  }

  lemma {:induction false} RunTexts(p: Parser, a: seq<string>)
    requires (p.state == ArrSpace || p.state == ArrStrSpace) && p.text == "" && a != []
    requires forall i :: 0 <= i < |a| ==> Quotable(a[i])
    ensures Run(p, PrintTexts(a)) == p.(state := ArrStrSpace, texts := p.texts + a)
    decreases |a|
  {
    var front := "\"" + a[0] + "\" ";
    RunConcat(p, front, PrintTexts(a[1..]));
    RunOneText(p, a[0]);
    var q := p.(state := ArrStrSpace, texts := p.texts + [a[0]]);
    if |a| > 1 {
      RunTexts(q, a[1..]);
      assert p.texts + [a[0]] + a[1..] == p.texts + a;
    } else {
      assert a == [a[0]] && PrintTexts(a[1..]) == "";
    }
  }

  /** A parser that has just read `=` of a line. */
  predicate AtValue(p: Parser) {
    p.state == BeginQuote && p.num == 0 && p.text == "" && p.bytes == [] && p.texts == []
  }

  /** Reading a printed value and the line end stores it and starts a new line. */
  lemma RunTextValue(p: Parser, s: string)
    requires AtValue(p) && Quotable(s)
    ensures Run(p, "\"" + s + "\"") == Emplace(p, Text(s)).(text := s, base := 0)
  {
    RunConcat(p, "\"" + s, "\"");
    RunConcat(p, "\"", s);
    Run1(p, '"');
    RunText(p.(state := StrValue, base := 0), s);
    assert "" + s == s;
    Run1(p.(state := StrValue, base := 0, text := s), '"');
  }

  lemma RunBytesValue(p: Parser, b: seq<byte>)
    requires AtValue(p)
    ensures var q := Run(p, "{" + PrintBytes(b) + "}"); q.state == EndLine && q.m == Emplace(p, ByteArray(b)).m
  {
    RunConcat(p, "{" + PrintBytes(b), "}");
    RunConcat(p, "{", PrintBytes(b));
    Run1(p, '{');
    RunBytes(p.(state := ArrSpace, base := 16), b);
    assert [] + b == b;
    Run1(Run(p, "{" + PrintBytes(b)), '}');
  }

  lemma RunTextsValue(p: Parser, a: seq<string>)
    requires AtValue(p) && a != [] && forall i :: 0 <= i < |a| ==> Quotable(a[i])
    ensures var q := Run(p, "{" + PrintTexts(a) + "}"); q.state == EndLine && q.m == Emplace(p, TextArray(a)).m
  {
    RunConcat(p, "{" + PrintTexts(a), "}");
    RunConcat(p, "{", PrintTexts(a));
    Run1(p, '{');
    RunTexts(p.(state := ArrSpace, base := 16), a);
    assert [] + a == a;
    Run1(Run(p, "{" + PrintTexts(a)), '}');
  }

  lemma RunNumberValue(p: Parser, n: nat)
    requires AtValue(p) && n < 0x1_0000_0000_0000_0000
    ensures var q := Run(p, PrintNumber(n));
      ((q.state == NumValue && q.base == 10) || q.state == BeginHex) && q.num == n && q.m == p.m && q.token == p.token
  {
    if n == 0 {
      Run1(p, '0');
    } else {
      RunNumber(p, n);
    }
  }

  lemma RunValue(p: Parser, v: Param)
    requires AtValue(p) && Expressible(Setting("x", v))
    ensures var q := Run(p, PrintValue(v) + "\n"); q.state == BeginLine && q.m == TryEmplace(p.m, p.token, v)
  {
    RunConcat(p, PrintValue(v), "\n");
    Run1(Run(p, PrintValue(v)), '\n');
    match v
    case Text(s) => RunTextValue(p, s);
    case Number(n) => RunNumberValue(p, n);
    case ByteArray(b) => RunBytesValue(p, b);
    case TextArray(a) => RunTextsValue(p, a);
  }

  lemma RunLine(p: Parser, e: Setting)
    requires p.state == BeginLine && Expressible(e)
    ensures var q := Run(p, PrintLine(e)); q.state == BeginLine && q.m == TryEmplace(p.m, e.token, e.value)
  {
    var t := e.token;
    var p1 := Parser(Token, [t[0]], "", 0, [], [], p.base, p.m);
    var rest := PrintValue(e.value) + "\n";
    assert PrintLine(e) == t + ("=" + rest);
    RunConcat(p, t, "=" + rest);
    assert Step(p, t[0]) == p1;
    RunToken(p1, t[1..]);
    assert [t[0]] + t[1..] == t;
    var p2 := p1.(token := t);
    RunConcat(p2, "=", rest);
    Run1(p2, '=');
    RunValue(p2.(state := BeginQuote), e.value);
  }

  lemma {:induction false} RunPrinted(p: Parser, es: seq<Setting>)
    requires p.state == BeginLine && forall i :: 0 <= i < |es| ==> Expressible(es[i])
    ensures var q := Run(p, Print(es)); q.state == BeginLine && q.m == AsMap(es) + p.m
    decreases |es|
  {
    if es != [] {
      RunConcat(p, PrintLine(es[0]), Print(es[1..]));
      RunLine(p, es[0]);
      RunPrinted(Run(p, PrintLine(es[0])), es[1..]);
      FirstWins(es, p.m);
    }
  }

  lemma FirstWins(es: seq<Setting>, m: Settings)
    requires es != []
    ensures AsMap(es[1..]) + TryEmplace(m, es[0].token, es[0].value) == AsMap(es) + m
  {
  }

  /** The round trip: reading printed settings gives back their map. */
  lemma PrintParse(es: seq<Setting>)
    requires forall i :: 0 <= i < |es| ==> Expressible(es[i])
    ensures Parse(Print(es)) == AsMap(es)
  {
    FinishPrinted(START, es);
  }

  lemma FinishPrinted(p: Parser, es: seq<Setting>)
    requires p.state == BeginLine && p.m == map[] && forall i :: 0 <= i < |es| ==> Expressible(es[i])
    ensures Finish(Run(p, Print(es))) == AsMap(es)
  {
    RunPrinted(p, es);
    assert AsMap(es) + map[] == AsMap(es);
  }

  /** Every map of expressible settings is the map of some list, so every such map can be written to a
      file that reads back as it. */
  lemma {:induction false} EveryMapRoundTrips(m: Settings) returns (es: seq<Setting>)
    requires AllExpressible(m)
    ensures Parse(Print(es)) == m
  {
    es := Listed(m);
    PrintParse(es);
  }

  lemma {:induction false} Listed(m: Settings) returns (es: seq<Setting>)
    requires forall k <- m :: Expressible(Setting(k, m[k]))
    ensures AsMap(es) == m && forall i :: 0 <= i < |es| ==> Expressible(es[i])
    decreases |m|
  {
    if m == map[] {
      es := [];
    } else {
      var k :| k in m;
      var rest := m - {k};
      assert m == rest[k := m[k]];
      var tail := Listed(rest);
      es := [Setting(k, m[k])] + tail;
      assert es[1..] == tail;
    }
  }

  // ----- Nothing else can be read

  predicate AllQuotable(a: seq<string>) { forall i :: 0 <= i < |a| ==> Quotable(a[i]) }

  /** What holds of the parser at every character: all it has stored, and all the registers it may
      still store from, could have been printed. */
  predicate Sound(p: Parser) {
    && AllExpressible(p.m)
    && (p.state != BeginLine && p.state != EndLine ==>
          PrintableToken(p.token) && Quotable(p.text) && AllQuotable(p.texts) && p.num < 0x1_0000_0000_0000_0000)
    && (p.state == ArrStrSpace ==> p.texts != [])
  }

  lemma EmplaceSound(p: Parser, v: Param)
    requires AllExpressible(p.m) && PrintableToken(p.token) && Expressible(Setting(p.token, v))
    ensures Sound(Emplace(p, v))
  {
  }

  lemma DigitSound(x: nat, c: char, base: nat)
    ensures U64(x + DigitValue(c, base)) < 0x1_0000_0000_0000_0000 && DigitValue(c, base) < 16
  {
  }

  lemma ActSoundScalar(p: Parser, c: char)
    requires Sound(p) && p.state in {BeginLine, EndLine, Token, BeginQuote, BeginHex, NumValue, StrValue}
    ensures AllExpressible(Act(p, c).m) && (c != '#' ==> Sound(Act(p, c)))
  {
    if p.state == BeginHex || p.state == NumValue {
      EmplaceSound(p, Number(p.num));
      DigitSound(U64(p.num * p.base), c, p.base);
    } else if p.state == StrValue {
      EmplaceSound(p, Text(p.text));
    }
  }

  lemma ActSoundBytes(p: Parser, c: char)
    requires Sound(p) && (p.state == ArrSpace || p.state == ArrNum)
    ensures AllExpressible(Act(p, c).m) && Sound(Act(p, c))
  {
    EmplaceSound(p, ByteArray(p.bytes));
    EmplaceSound(p, ByteArray(p.bytes + [p.num % 0x100]));
    DigitSound(U64(p.num * 16), c, p.base);
    DigitSound(0, c, p.base);
  }

  lemma ActSoundTexts(p: Parser, c: char)
    requires Sound(p) && (p.state == ArrStr || p.state == ArrStrSpace)
    ensures AllExpressible(Act(p, c).m) && (c != '#' ==> Sound(Act(p, c)))
  {
    if p.state == ArrStrSpace { EmplaceSound(p, TextArray(p.texts)); }
  }

  lemma StepSound(p: Parser, c: char)
    requires Sound(p)
    ensures Sound(Step(p, c))
  {
    if p.state == ArrSpace || p.state == ArrNum {
      ActSoundBytes(p, c);
    } else if p.state == ArrStr || p.state == ArrStrSpace {
      ActSoundTexts(p, c);
    } else {
      ActSoundScalar(p, c);
    }
  }

  lemma {:induction false} RunSound(p: Parser, s: string)
    requires Sound(p)
    ensures Sound(Run(p, s))
    decreases |s|
  {
    if s != "" {
      StepSound(p, s[0]);
      RunSound(Step(p, s[0]), s[1..]);
    }
  }

  /** Whatever the file, only expressible settings come out of it. */
  lemma ParseIsExpressible(file: string)
    ensures AllExpressible(Parse(file))
  {
    RunSound(START, file);
    var p := Run(START, file);
    if p.state == BeginHex || p.state == NumValue { EmplaceSound(p, Number(p.num)); }
  }

  /** The conditions of the round trip are exact: a map is what some file reads as if and only if all
      its settings are expressible. */
  lemma ReadableIffExpressible(m: Settings)
    ensures (exists file :: Parse(file) == m) <==> AllExpressible(m)
  {
    if AllExpressible(m) {
      var es := EveryMapRoundTrips(m);
    }
    forall file | Parse(file) == m ensures AllExpressible(m) { ParseIsExpressible(file); }
  }
}
