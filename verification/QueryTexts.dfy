/** What query texts mean: the grammar of `parse`, value forms, tag names and the header item, stated
    apart from the parser, and texts read back to their meaning. */
module QueryTexts {
  import opened Bytes
  import opened Options
  import opened Tlvs
  import opened QueryLanguage
  import ClientCodec
  import Protocol
  import EndToEnd
  import Clock

  // ---------------------------------------------------------------- the grammar

  /** A tag token and, if there are parentheses, the value tokens in them. */
  datatype RawItem = RawItem(tag: string, args: Option<seq<string>>)

  function RawTokens(item: RawItem): seq<string> {
    [item.tag] + (if item.args == None then [] else ["("] + item.args.value + [")"])
  }

  function AllRawTokens(items: seq<RawItem>): seq<string> {
    if items == [] then [] else RawTokens(items[0]) + AllRawTokens(items[1..])
  }

  /** Every value token has bytes; these are all of them in order. */
  function RawBytes(args: seq<string>): Option<seq<Byte>> {
    if args == [] then Some([])
    else
      var v, more := ValueBytes(args[0]), RawBytes(args[1..]);
      if v.Some? && more.Some? && args[0] != ")" then Some(v.value + more.value) else None
  }

  /** The records of an item, None if it is not one. */
  function RawRecords(item: RawItem): Option<seq<Tlv>> {
    var bytes := if item.args == None then Some([]) else RawBytes(item.args.value);
    if bytes == None || item.tag in ["{", "}", "(", ")"] then None else ItemRecords(item.tag, bytes.value)
  }

  function AllRawRecords(items: seq<RawItem>): Option<seq<Tlv>> {
    if items == [] then Some([])
    else
      var first, more := RawRecords(items[0]), AllRawRecords(items[1..]);
      if first.Some? && more.Some? then Some(first.value + more.value) else None
  }

  // ---------------------------------------------------------------- the parser accepts the grammar

  lemma {:induction false} ArgsComplete(args: seq<string>, done: seq<Byte>, rest: seq<string>)
    requires RawBytes(args).Some?
    ensures ParseArgs(args + [")"] + rest, done) == GoodArgs(done + RawBytes(args).value, rest)
  {
    var toks := args + [")"] + rest;
    hide ValueBytes;
    if args == [] {
      assert toks == [")"] + rest && done + [] == done;
    } else {
      var v := ValueBytes(args[0]).value;
      assert toks[0] == args[0] && toks[1..] == args[1..] + [")"] + rest;
      ArgsComplete(args[1..], done + v, rest);
      Assoc(done, v, RawBytes(args[1..]).value);
    }
  }

  lemma ItemArgsComplete(item: RawItem, after: seq<string>)
    requires RawRecords(item).Some? && (after == [] || after[0] != "(")
    ensures var toks := RawTokens(item) + after;
            var a := ItemArgs(toks[1..]);
            toks[0] == item.tag && a.GoodArgs? && a.rest == after && ItemRecords(item.tag, a.bytes) == RawRecords(item)
  {
    hide ItemRecords, ValueBytes, RawBytes;
    var toks := RawTokens(item) + after;
    if item.args == None {
      assert toks[1..] == after;
    } else {
      var args := item.args.value;
      assert toks[1..] == ["("] + (args + [")"] + after);
      assert toks[1..][1..] == args + [")"] + after;
      ArgsComplete(args, [], after);
      assert [] + RawBytes(args).value == RawBytes(args).value;
    }
  }

  lemma ItemComplete(item: RawItem, after: seq<string>, done: seq<Tlv>)
    requires RawRecords(item).Some? && (after == [] || after[0] != "(")
    ensures ParseItems(RawTokens(item) + after, done) == ParseItems(after, done + RawRecords(item).value)
  {
    hide ItemRecords, ItemArgs, RawTokens;
    TagIsFirst(item, after);
    ItemArgsComplete(item, after);
  }

  /** What stands after an item is never an opening parenthesis. */
  lemma NextIsNoArgs(items: seq<RawItem>, rest: seq<string>)
    requires AllRawRecords(items).Some?
    ensures var after := AllRawTokens(items) + ["}"] + rest; after != [] && after[0] != "("
  {
  }

  lemma {:induction false} ItemsComplete(items: seq<RawItem>, done: seq<Tlv>, rest: seq<string>)
    requires AllRawRecords(items).Some?
    ensures ParseItems(AllRawTokens(items) + ["}"] + rest, done) == Read(done + AllRawRecords(items).value, rest)
  {
    hide ParseItems, RawRecords, RawTokens;
    if items == [] {
      assert AllRawTokens(items) + ["}"] + rest == ["}"] + rest && done + [] == done;
      ItemsEnd(done, rest);
    } else {
      var after := AllRawTokens(items[1..]) + ["}"] + rest;
      NextIsNoArgs(items[1..], rest);
      ItemComplete(items[0], after, done);
      ItemsComplete(items[1..], done + RawRecords(items[0]).value, rest);
      Shuffle(RawTokens(items[0]), AllRawTokens(items[1..]), ["}"], rest);
      Assoc(done, RawRecords(items[0]).value, AllRawRecords(items[1..]).value);
    }
  }

  lemma Shuffle<T>(a: seq<T>, b: seq<T>, c: seq<T>, d: seq<T>)
    ensures a + b + c + d == a + (b + c + d)
  {
  }

  // ---------------------------------------------------------------- and nothing else

  lemma {:induction false} ArgsSound(toks: seq<string>, done: seq<Byte>) returns (args: seq<string>)
    requires ParseArgs(toks, done).GoodArgs?
    ensures var r := ParseArgs(toks, done);
            toks == args + [")"] + r.rest && RawBytes(args).Some? && r.bytes == done + RawBytes(args).value
    decreases |toks|
  {
    hide ValueBytes;
    if toks[0] == ")" {
      args := [];
      assert toks == [")"] + toks[1..] && done + [] == done;
    } else {
      var v := ValueBytes(toks[0]).value;
      args := ArgsSound(toks[1..], done + v);
      var tail, rest := args, ParseArgs(toks, done).rest;
      Assoc(done, v, RawBytes(tail).value);
      args := [toks[0]] + tail;
      assert args[1..] == tail;
      assert toks == [toks[0]] + toks[1..];
      assert [toks[0]] + (tail + [")"] + rest) == args + [")"] + rest;
    }
  }

  lemma ItemSound(toks: seq<string>, a: Args) returns (item: RawItem)
    requires toks != [] && toks[0] !in ["{", "}", "(", ")"]
    requires a == ItemArgs(toks[1..]) && a.GoodArgs?
    ensures toks == RawTokens(item) + a.rest
    ensures item.tag == toks[0] && RawRecords(item) == ItemRecords(toks[0], a.bytes)
  {
    hide ItemRecords, ValueBytes, RawBytes, ParseArgs;
    assert toks == [toks[0]] + toks[1..];
    if |toks| > 1 && toks[1] == "(" {
      var args := ArgsSound(toks[2..], []);
      assert toks[1..][1..] == toks[2..];
      item := RawItem(toks[0], Some(args));
      assert [] + RawBytes(args).value == RawBytes(args).value;
      assert toks == [toks[0]] + (["("] + toks[2..]);
      assert [toks[0]] + (["("] + (args + [")"] + a.rest)) == RawTokens(item) + a.rest;
    } else {
      item := RawItem(toks[0], None);
    }
  }

  lemma {:induction false} ItemsSound(toks: seq<string>, done: seq<Tlv>) returns (items: seq<RawItem>)
    requires ParseItems(toks, done).Read?
    ensures var r := ParseItems(toks, done);
            && toks == AllRawTokens(items) + ["}"] + r.rest
            && AllRawRecords(items).Some? && r.tlvs == done + AllRawRecords(items).value
    decreases |toks|
  {
    hide ItemRecords, RawRecords, RawTokens;
    if toks[0] == "}" {
      items := [];
      assert toks == ["}"] + toks[1..] && done + [] == done;
    } else {
      var a := ItemArgs(toks[1..]);
      var item := ItemSound(toks, a);
      var records := RawRecords(item).value;
      var more := ItemsSound(a.rest, done + records);
      items := [item] + more;
      assert items[1..] == more;
      Shuffle(RawTokens(item), AllRawTokens(more), ["}"], ParseItems(toks, done).rest);
      Assoc(done, records, AllRawRecords(more).value);
    }
  }

  /** The tokens are those of `item`, all its parentheses included, and others. */
  ghost predicate StartsWith(toks: seq<string>, item: RawItem, after: seq<string>) {
    toks == RawTokens(item) + after && (after == [] || after[0] != "(")
  }

  /** No item can be read off the front of these tokens. */
  ghost predicate NoItemAt(bad: seq<string>) {
    forall item, after | StartsWith(bad, item, after) :: RawRecords(item) == None
  }

  lemma StuckHere(toks: seq<string>)
    requires toks == [] || toks[0] in ["{", "(", ")"]
          || ItemArgs(toks[1..]) == BadArgs || ItemRecords(toks[0], ItemArgs(toks[1..]).bytes) == None
    ensures NoItemAt(toks)
  {
    hide ItemRecords, ItemArgs, RawRecords, RawTokens;
    forall item, after | StartsWith(toks, item, after) ensures RawRecords(item) == None {
      TagIsFirst(item, after);
      if RawRecords(item).Some? { ItemArgsComplete(item, after); }
    }
  }

  lemma TagIsFirst(item: RawItem, after: seq<string>)
    ensures RawTokens(item) + after != [] && (RawTokens(item) + after)[0] == item.tag
    ensures RawRecords(item).Some? ==> item.tag !in ["{", "}", "(", ")"]
  {
    hide ItemRecords;
    assert RawTokens(item)[0] == item.tag;
  }

  /** A syntax error comes after the last item that can be read, and leaves the records up to there. */
  lemma {:induction false} ErrorKeepsItems(toks: seq<string>, done: seq<Tlv>) returns (items: seq<RawItem>, bad: seq<string>)
    requires ParseItems(toks, done).SyntaxError?
    ensures toks == AllRawTokens(items) + bad && NoItemAt(bad) && (bad == [] || bad[0] != "}")
    ensures AllRawRecords(items).Some? && ParseItems(toks, done).tlvs == done + AllRawRecords(items).value
    decreases |toks|
  {
    hide ItemRecords, RawRecords, RawTokens, NoItemAt;
    if toks == [] || toks[0] in ["{", "(", ")"] || ItemArgs(toks[1..]) == BadArgs
       || ItemRecords(toks[0], ItemArgs(toks[1..]).bytes) == None {
      items, bad := [], toks;
      StuckHere(toks);
      assert done + [] == done;
    } else {
      var a := ItemArgs(toks[1..]);
      var item := ItemSound(toks, a);
      var records := RawRecords(item).value;
      var more;
      more, bad := ErrorKeepsItems(a.rest, done + records);
      items := [item] + more;
      assert items[1..] == more;
      Assoc(RawTokens(item), AllRawTokens(more), bad);
      Assoc(done, records, AllRawRecords(more).value);
    }
  }

  ghost predicate IsMessage(toks: seq<string>, items: seq<RawItem>, tlvs: seq<Tlv>, rest: seq<string>) {
    toks == ["{"] + (AllRawTokens(items) + ["}"] + rest) && AllRawRecords(items) == Some(tlvs)
  }

  /** `parse` reads a message exactly if the tokens begin with a brace, items, and a brace: no other
      sequence of tokens is accepted, and what is read is the records of the items. It reports the
      end of the input exactly if there are no tokens. */
  lemma ParsesExactlyTheGrammar(toks: seq<string>, tlvs: seq<Tlv>, rest: seq<string>)
    ensures ParseMessage(toks) == EndOfInput <==> toks == []
    ensures ParseMessage(toks) == Read(tlvs, rest) <==> exists items :: IsMessage(toks, items, tlvs, rest)
  {
    hide ParseItems, AllRawTokens, AllRawRecords;
    if ParseMessage(toks) == Read(tlvs, rest) {
      var items := ItemsSound(toks[1..], []);
      assert toks == ["{"] + toks[1..] && [] + AllRawRecords(items).value == AllRawRecords(items).value;
      assert IsMessage(toks, items, tlvs, rest);
    }
    forall items | IsMessage(toks, items, tlvs, rest) ensures ParseMessage(toks) == Read(tlvs, rest) {
      MessageComplete(items, rest);
    }
  }

  lemma MessageComplete(items: seq<RawItem>, rest: seq<string>)
    requires AllRawRecords(items).Some?
    ensures ParseMessage(["{"] + (AllRawTokens(items) + ["}"] + rest)) == Read(AllRawRecords(items).value, rest)
  {
    hide ParseItems, AllRawTokens, AllRawRecords;
    var inner := AllRawTokens(items) + ["}"] + rest;
    assert (["{"] + inner)[1..] == inner;
    ItemsComplete(items, [], rest);
    assert [] + AllRawRecords(items).value == AllRawRecords(items).value;
  }

  // ---------------------------------------------------------------- value forms

  /** The ways to write bytes: a hexadecimal byte, a decimal number in four or, with the suffix, in
      eight bytes, and a quoted text. */
  datatype Part =
    | Hex(b: Byte, bigX: bool, upper: bool)
    | Dec(n: nat, zeros: nat)
    | Long(n: nat, zeros: nat, suffix: char)
    | Quoted(text: string)

  function LowerDigit(d: int): char
    requires 0 <= d < 16
  {
    "0123456789abcdef"[d]
  }

  function UpperDigit(d: int): char
    requires 0 <= d < 16
  {
    "0123456789ABCDEF"[d]
  }

  function HexToken(b: Byte, bigX: bool, upper: bool): string {
    if upper then ['0', if bigX then 'X' else 'x', UpperDigit(b / 16), UpperDigit(b % 16)]
    else ['0', if bigX then 'X' else 'x', LowerDigit(b / 16), LowerDigit(b % 16)]
  }

  function Zeros(k: nat): string {
    if k == 0 then "" else Zeros(k - 1) + ['0']
  }

  /** A number in decimal, after some zeros. */
  function Decimal(n: nat, zeros: nat): string {
    if n < 10 then Zeros(zeros) + [LowerDigit(n)] else Decimal(n / 10, zeros) + [LowerDigit(n % 10)]
  }

  function PartToken(p: Part): string {
    match p
    case Hex(b, bigX, upper) => HexToken(b, bigX, upper)
    case Dec(n, zeros) => Decimal(n, zeros)
    case Long(n, zeros, suffix) => Decimal(n, zeros) + [suffix]
    case Quoted(text) => "\"" + text + "\""
  }

  /** Numbers of up to 64 bits, and single-byte characters without quotes and newlines. */
  ghost predicate ValidPart(p: Part) {
    match p
    case Hex(_, _, _) => true
    case Dec(n, _) => n < 0x1_0000_0000_0000_0000
    case Long(n, _, suffix) => n < 0x1_0000_0000_0000_0000 && (suffix == 'l' || suffix == 'L')
    case Quoted(text) => forall i | 0 <= i < |text| :: text[i] != '"' && text[i] != '\n' && text[i] as int < 256
  }

  /** What a part stands for. */
  ghost predicate Means(p: Part, bytes: seq<Byte>) {
    match p
    case Hex(b, _, _) => bytes == [b]
    case Dec(n, _) => |bytes| == 4 && FromLE(bytes) == n % 0x1_0000_0000
    case Long(n, _, _) => |bytes| == 8 && FromLE(bytes) == n
    case Quoted(text) => |bytes| == |text| && forall i | 0 <= i < |text| :: bytes[i] == text[i] as int
  }

  lemma LowerDigits(d: int)
    requires 0 <= d < 16
    ensures IsHexDigit(LowerDigit(d)) && HexValue(LowerDigit(d)) == d
    ensures d < 10 ==> IsDigit(LowerDigit(d)) && DigitValue(LowerDigit(d)) == d
  {
  }

  lemma UpperDigits(d: int)
    requires 0 <= d < 16
    ensures IsHexDigit(UpperDigit(d)) && HexValue(UpperDigit(d)) == d
  {
  }

  lemma HexMeans(b: Byte, bigX: bool, upper: bool)
    ensures var t := HexToken(b, bigX, upper); IsHexByte(t) && HexByte(t) == b && IsWord(t)
  {
    LowerDigits(b / 16);
    LowerDigits(b % 16);
    UpperDigits(b / 16);
    UpperDigits(b % 16);
    var t := HexToken(b, bigX, upper);
    assert |t| == 4 && IsAlnum(t[0]) && IsAlnum(t[1]) && IsAlnum(t[2]) && IsAlnum(t[3]);
  }

  ghost predicate AllDigits(s: string) {
    forall c | c in s :: IsDigit(c)
  }

  lemma DigitsAppend(s: string, c: char)
    requires AllDigits(s) && IsDigit(c)
    ensures AllDigits(s + [c]) && DecValue(s + [c]) == 10 * DecValue(s) + DigitValue(c)
  {
    var t := s + [c];
    assert t[..|t| - 1] == s;
  }

  lemma {:induction false} ZerosMean(k: nat)
    ensures AllDigits(Zeros(k)) && DecValue(Zeros(k)) == 0
  {
    if k > 0 {
      ZerosMean(k - 1);
      DigitsAppend(Zeros(k - 1), '0');
    }
  }

  lemma {:induction false} DecimalMeans(n: nat, zeros: nat)
    ensures Decimal(n, zeros) != "" && AllDigits(Decimal(n, zeros)) && DecValue(Decimal(n, zeros)) == n
  {
    hide AllDigits, DecValue, LowerDigit, DigitValue, IsDigit, Zeros;
    if n < 10 {
      LowerDigits(n);
      ZerosMean(zeros);
      DigitsAppend(Zeros(zeros), LowerDigit(n));
    } else {
      var tens, ones := n / 10, n % 10;
      LowerDigits(ones);
      DecimalMeans(tens, zeros);
      DigitsAppend(Decimal(tens, zeros), LowerDigit(ones));
      assert n == 10 * tens + ones;
    }
  }

  /** The low bytes of a number. */
  lemma {:induction false} LowBytes(n: nat, k: nat)
    ensures Pow256(k) > 0 && FromLE(LE(n, k)) == n % Pow256(k)
  {
    if k > 0 {
      LowBytes(n / 256, k - 1);
      assert LE(n, k)[1..] == LE(n / 256, k - 1);
      LowDigit(n, Pow256(k - 1));
    }
  }

  lemma LowDigit(n: nat, p: nat)
    requires p > 0
    ensures n % 256 + 256 * (n / 256 % p) == n % (256 * p)
  {
    var q := n / 256;
    var a, b := q / p, q % p;
    assert q == p * a + b;
    assert n == 256 * (p * a) + 256 * b + n % 256;
    assert 256 * (p * a) == (256 * p) * a;
    Clock.DivUnique(n, 256 * p, a);
  }

  /** A run of digits, with or without the suffix, is a number and no other kind of value. */
  lemma DigitsAreNumber(d: string, suffix: string)
    requires d != "" && AllDigits(d) && (suffix == "" || suffix == "l" || suffix == "L")
    ensures var t := d + suffix;
            && !IsHexByte(t) && t[0] != '"' && IsNumber(t) && Digits(t) == d
            && (IsDigit(t[|t| - 1]) <==> suffix == "") && IsWord(t) && t != ")"
  {
    var t := d + suffix;
    assert forall i | 0 <= i < |d| :: t[i] == d[i] && d[i] in d;
    if suffix == "" {
      assert t == d;
    } else {
      assert t[..|t| - 1] == d;
      assert t[|d|] == suffix[0];
    }
    assert |t| == 4 ==> t[1] != 'x' && t[1] != 'X';
  }

  lemma NumberMeans(n: nat, zeros: nat, suffix: string)
    requires n < 0x1_0000_0000_0000_0000 && (suffix == "" || suffix == "l" || suffix == "L")
    ensures ValueBytes(Decimal(n, zeros) + suffix) == Some(LE(n, if suffix == "" then 4 else 8))
  {
    DecimalMeans(n, zeros);
    DigitsAreNumber(Decimal(n, zeros), suffix);
  }

  /** A number that does not fit 64 bits is an error. */
  lemma TooBigIsRefused(n: nat, zeros: nat, suffix: string)
    requires n >= 0x1_0000_0000_0000_0000 && (suffix == "" || suffix == "l" || suffix == "L")
    ensures ValueBytes(Decimal(n, zeros) + suffix) == None
  {
    DecimalMeans(n, zeros);
    DigitsAreNumber(Decimal(n, zeros), suffix);
  }

  lemma QuotedMeans(text: string)
    requires ValidPart(Quoted(text))
    ensures ValueBytes(PartToken(Quoted(text))).Some? && IsQuoted(PartToken(Quoted(text)))
    ensures Means(Quoted(text), ValueBytes(PartToken(Quoted(text))).value)
  {
    var t := PartToken(Quoted(text));
    assert t[0] == '"' && t[|t| - 1] == '"' && t[1..|t| - 1] == text;
    assert forall i | 0 < i < |t| - 1 :: t[i] == text[i - 1];
  }

  /** Every part is one token, is accepted, and gives the bytes it stands for. */
  lemma PartMeans(p: Part)
    requires ValidPart(p)
    ensures ValueBytes(PartToken(p)).Some? && Means(p, ValueBytes(PartToken(p)).value)
    ensures IsToken(PartToken(p)) && PartToken(p) != ")"
  {
    match p
    case Hex(b, bigX, upper) => HexMeans(b, bigX, upper);
    case Dec(n, zeros) =>
      NumberMeans(n, zeros, "");
      DecimalMeans(n, zeros);
      DigitsAreNumber(Decimal(n, zeros), "");
      assert Decimal(n, zeros) + "" == Decimal(n, zeros);
      LowBytes(n, 4);
      Pow256Values();
    case Long(n, zeros, suffix) =>
      NumberMeans(n, zeros, [suffix]);
      DecimalMeans(n, zeros);
      DigitsAreNumber(Decimal(n, zeros), [suffix]);
      U64RoundTrip(n);
    case Quoted(text) => QuotedMeans(text);
  }

  /** Quotes that are not closed on their line are one token up to its end, and an error as a value. */
  lemma UnclosedQuote(text: string, rest: string)
    requires forall i | 0 <= i < |text| :: text[i] != '"' && text[i] != '\n'
    requires rest == "" || rest[0] == '\n'
    ensures Lex("\"" + text + rest) == ["\"" + text] + Lex(rest)
    ensures ValueBytes("\"" + text) == None
  {
    var t := "\"" + text;
    assert |text| > 0 ==> t[|t| - 1] == text[|text| - 1];
    UnclosedLength(text, rest);
    assert (t + rest)[..|t|] == t && (t + rest)[|t|..] == rest;
  }

  lemma UnclosedLength(text: string, rest: string)
    requires forall i | 0 <= i < |text| :: text[i] != '"' && text[i] != '\n'
    requires rest == "" || rest[0] == '\n'
    ensures var all := "\"" + text + rest; Skip(all) == all && TokenLength(all) == 1 + |text|
  {
    var all := "\"" + text + rest;
    assert all[1..] == text + rest;
    RunOf(text, rest, InString);
    assert rest != "" ==> all[1 + |text|] == rest[0];
  }

  /** A comment that no newline ends swallows the rest of the text. */
  lemma OpenComment(c: string)
    requires '\n' !in c
    ensures Lex("#" + c) == []
  {
    var t := "#" + c;
    assert t[1..] == c && c + "" == c;
    RunOf(c, "", InComment);
    assert t[1 + |c|..] == "";
  }

  // ---------------------------------------------------------------- tag names

  /** The names a tag can be written by: the fields of the header, and what can be asked for. */
  predicate Named(name: string, tag: Byte) {
    || (tag == 0x00 && (name == "m" || name == "magic"))
    || (tag == 0x01 && (name == "v" || name == "version"))
    || (tag == 0x02 && name == "t")
    || (tag == 0x03 && name == "f")
    || (tag == Protocol.UserDataQ && name == "u")
    || (tag == 0x90 && (name == "c" || name == "capabilities"))
    || (tag == Protocol.DeviceIdQ && name == "d")
    || (tag == Protocol.TimerRxQ && name == "rx")
    || (tag == Protocol.TimerTxQ && name == "tx")
    || (tag == Protocol.LastUpdatedQ && name == "l")
    || (tag == 0xA0 && (name == "e" || name == "temperatures"))
  }

  /** A tag by its byte or by its name. */
  datatype TagName = ByHex(b: Byte, bigX: bool, upper: bool) | ByName(b: Byte, name: string)

  function TagToken(t: TagName): string {
    match t
    case ByHex(b, bigX, upper) => HexToken(b, bigX, upper)
    case ByName(_, name) => name
  }

  predicate ValidTag(t: TagName) {
    t.ByName? ==> Named(t.name, t.b)
  }

  lemma NamedIsAlias(name: string, tag: Byte)
    requires Named(name, tag)
    ensures AliasTag(name) == Some(tag)
  {
  }

  lemma NamedIsWord(name: string, tag: Byte)
    requires Named(name, tag)
    ensures IsWord(name) && name[0] != '0' && name[0] != 'H'
  {
  }

  lemma TagMeans(t: TagName, args: seq<Byte>)
    requires ValidTag(t)
    ensures ItemRecords(TagToken(t), args) == Some([Tlv(t.b, args)])
    ensures IsWord(TagToken(t))
  {
    match t
    case ByHex(b, bigX, upper) =>
      HexMeans(b, bigX, upper);
      assert |TagToken(t)| == 4 && TagToken(t)[0] == '0';
    case ByName(b, name) => NamedIsAlias(name, b); NamedIsWord(name, b);
  }

  // ---------------------------------------------------------------- items and messages

  /** A record, or the header with its flags; without parentheses if `parts` is None. */
  datatype Item =
    | Record(tag: TagName, parts: Option<seq<Part>>)
    | HeaderItem(name: string, parts: Option<seq<Part>>)

  ghost predicate ValidItem(item: Item) {
    && (item.parts.Some? ==> forall p | p in item.parts.value :: ValidPart(p))
    && (item.Record? ==> ValidTag(item.tag))
    && (item.HeaderItem? ==> item.name == "H" || item.name == "Header")
  }

  function PartTokens(parts: seq<Part>): seq<string> {
    if parts == [] then [] else [PartToken(parts[0])] + PartTokens(parts[1..])
  }

  function Raw(item: Item): RawItem {
    RawItem(if item.Record? then TagToken(item.tag) else item.name,
            if item.parts == None then None else Some(PartTokens(item.parts.value)))
  }

  function RawItems(items: seq<Item>): seq<RawItem> {
    if items == [] then [] else [Raw(items[0])] + RawItems(items[1..])
  }

  /** The bytes are those the parts stand for, one after the other. */
  ghost predicate PartsMean(parts: seq<Part>, bytes: seq<Byte>) {
    if parts == [] then bytes == []
    else exists k: nat :: k <= |bytes| && Means(parts[0], bytes[..k]) && PartsMean(parts[1..], bytes[k..])
  }

  ghost predicate ArgsMean(parts: Option<seq<Part>>, bytes: seq<Byte>) {
    if parts == None then bytes == [] else PartsMean(parts.value, bytes)
  }

  /** The records of an item whose parts stand for `bytes`. A header has the flags given, or no flag. */
  ghost predicate RecordsOf(item: Item, bytes: seq<Byte>, records: seq<Tlv>) {
    if item.Record? then records == [Tlv(item.tag.b, bytes)]
    else if |bytes| == 0 then records == Protocol.Header(0)
    else if |bytes| == 1 then records == Protocol.Header(bytes[0])
    else records == Protocol.Header(0)[..3] + [Tlv(0x03, bytes)]
  }

  ghost predicate ItemMeans(item: Item, records: seq<Tlv>) {
    exists bytes :: ArgsMean(item.parts, bytes) && RecordsOf(item, bytes, records)
  }

  ghost predicate ItemsMean(items: seq<Item>, records: seq<Tlv>) {
    if items == [] then records == []
    else exists k: nat :: k <= |records| && ItemMeans(items[0], records[..k]) && ItemsMean(items[1..], records[k..])
  }

  lemma {:induction false} PartsParse(parts: seq<Part>)
    requires forall p | p in parts :: ValidPart(p)
    ensures RawBytes(PartTokens(parts)).Some? && PartsMean(parts, RawBytes(PartTokens(parts)).value)
    ensures AreTokens(PartTokens(parts))
  {
    hide ValueBytes, PartToken, ValidPart, Means, IsToken;
    if parts != [] {
      var p, more := parts[0], parts[1..];
      assert p in parts && forall q | q in more :: q in parts;
      PartMeans(p);
      PartsParse(more);
      var toks := PartTokens(parts);
      assert toks[0] == PartToken(p) && toks[1..] == PartTokens(more);
      var v, w := ValueBytes(PartToken(p)).value, RawBytes(PartTokens(more)).value;
      assert (v + w)[..|v|] == v && (v + w)[|v|..] == w;
    }
  }

  lemma HeaderMeans(name: string, args: seq<Byte>)
    requires name == "H" || name == "Header"
    ensures ItemRecords(name, args).Some?
    ensures var r := ItemRecords(name, args).value;
            if |args| == 0 then r == Protocol.Header(0)
            else if |args| == 1 then r == Protocol.Header(args[0])
            else r == Protocol.Header(0)[..3] + [Tlv(0x03, args)]
    ensures IsWord(name)
  {
    assert |args| == 1 ==> args == [args[0]];
  }

  lemma ItemParses(item: Item)
    requires ValidItem(item)
    ensures RawRecords(Raw(item)).Some? && ItemMeans(item, RawRecords(Raw(item)).value)
    ensures IsWord(Raw(item).tag)
  {
    hide ItemRecords, TagToken, Named, PartsMean, IsWord, PartTokens, RawBytes;
    var raw := Raw(item);
    var bytes: seq<Byte> := [];
    if item.parts.Some? {
      PartsParse(item.parts.value);
      bytes := RawBytes(PartTokens(item.parts.value)).value;
    }
    if item.Record? { TagMeans(item.tag, bytes); } else { HeaderMeans(item.name, bytes); }
    WordsAreNoSymbols(raw.tag);
    var records := ItemRecords(raw.tag, bytes).value;
    assert ArgsMean(item.parts, bytes) && RecordsOf(item, bytes, records);
    assert RawRecords(raw) == Some(records);
  }

  lemma WordsAreNoSymbols(t: string)
    requires IsWord(t)
    ensures t !in ["{", "}", "(", ")"]
  {
    assert t[0] != '{' && t[0] != '}' && t[0] != '(' && t[0] != ')';
  }

  lemma {:induction false} ItemsParse(items: seq<Item>)
    requires forall i | i in items :: ValidItem(i)
    ensures AllRawRecords(RawItems(items)).Some? && ItemsMean(items, AllRawRecords(RawItems(items)).value)
  {
    hide Raw, RawRecords, ItemMeans, ValidItem;
    if items != [] {
      var first, more := items[0], items[1..];
      assert first in items && forall i | i in more :: i in items;
      ItemParses(first);
      ItemsParse(more);
      var raw := RawItems(items);
      assert raw[0] == Raw(first) && raw[1..] == RawItems(more);
      var v, w := RawRecords(Raw(first)).value, AllRawRecords(RawItems(more)).value;
      assert (v + w)[..|v|] == v && (v + w)[|v|..] == w;
    }
  }

  // ---------------------------------------------------------------- texts

  function TextTokens(msgs: seq<seq<Item>>): seq<string> {
    if msgs == [] then []
    else ["{"] + (AllRawTokens(RawItems(msgs[0])) + ["}"] + TextTokens(msgs[1..]))
  }

  ghost predicate MessagesMean(msgs: seq<seq<Item>>, read: seq<seq<Tlv>>) {
    |read| == |msgs| && forall i | 0 <= i < |msgs| :: ItemsMean(msgs[i], read[i])
  }

  ghost predicate ValidMessages(msgs: seq<seq<Item>>) {
    forall m | m in msgs :: forall i | i in m :: ValidItem(i)
  }

  lemma {:induction false} MessagesParse(msgs: seq<seq<Item>>)
    requires ValidMessages(msgs)
    ensures ParseAll(TextTokens(msgs)).Some? && MessagesMean(msgs, ParseAll(TextTokens(msgs)).value)
  {
    hide ItemsMean, ParseMessage, RawItems, AllRawTokens, AllRawRecords, ValidItem;
    if msgs == [] {
      NothingParses();
    } else {
      var first, more := msgs[0], msgs[1..];
      assert first in msgs && forall m | m in more :: m in msgs;
      MessagesParse(more);
      ItemsParse(first);
      MessageComplete(RawItems(first), TextTokens(more));
      var read := ParseAll(TextTokens(msgs)).value;
      assert read == [read[0]] + ParseAll(TextTokens(more)).value;
    }
  }

  lemma NothingParses()
    ensures ParseAll([]) == Some([])
  {
  }

  lemma TokensAppend(a: seq<string>, b: seq<string>)
    requires AreTokens(a) && AreTokens(b)
    ensures AreTokens(a + b)
  {
  }

  lemma Symbols()
    ensures AreTokens(["{"]) && AreTokens(["}"]) && AreTokens(["("]) && AreTokens([")"])
  {
    SymbolIsToken('{');
    SymbolIsToken('}');
    SymbolIsToken('(');
    SymbolIsToken(')');
  }

  lemma SymbolIsToken(c: char)
    requires c == '{' || c == '}' || c == '(' || c == ')'
    ensures AreTokens([[c]])
  {
    var t := [c];
    assert t[0] == c && !IsWord(t);
    assert IsSymbol(t);
  }

  lemma ItemTokensAreTokens(item: Item)
    requires ValidItem(item)
    ensures AreTokens(RawTokens(Raw(item)))
  {
    hide IsToken, PartTokens;
    ItemParses(item);
    WordIsToken(Raw(item).tag);
    Symbols();
    if item.parts.Some? {
      PartsParse(item.parts.value);
      TokensAppend(["("], PartTokens(item.parts.value));
      TokensAppend(["("] + PartTokens(item.parts.value), [")"]);
      TokensAppend([Raw(item).tag], ["("] + PartTokens(item.parts.value) + [")"]);
    }
  }

  lemma WordIsToken(t: string)
    requires IsWord(t)
    ensures AreTokens([t])
  {
  }

  lemma {:induction false} ItemsAreTokens(items: seq<Item>)
    requires forall i | i in items :: ValidItem(i)
    ensures AreTokens(AllRawTokens(RawItems(items)))
  {
    hide AreTokens, ValidItem, Raw, RawTokens;
    if items == [] {
      NoTokens();
    } else {
      assert items[0] in items && forall i | i in items[1..] :: i in items;
      ItemTokensAreTokens(items[0]);
      ItemsAreTokens(items[1..]);
      assert RawItems(items)[1..] == RawItems(items[1..]);
      TokensAppend(RawTokens(Raw(items[0])), AllRawTokens(RawItems(items[1..])));
    }
  }

  lemma NoTokens()
    ensures AreTokens([])
  {
  }

  lemma {:induction false} TextTokensAreTokens(msgs: seq<seq<Item>>)
    requires ValidMessages(msgs)
    ensures AreTokens(TextTokens(msgs))
  {
    hide AreTokens, ValidItem;
    if msgs == [] {
      NoTokens();
    } else {
      assert msgs[0] in msgs && forall m | m in msgs[1..] :: m in msgs;
      ItemsAreTokens(msgs[0]);
      TextTokensAreTokens(msgs[1..]);
      Symbols();
      var items := AllRawTokens(RawItems(msgs[0]));
      TokensAppend(items, ["}"]);
      TokensAppend(items + ["}"], TextTokens(msgs[1..]));
      TokensAppend(["{"], items + ["}"] + TextTokens(msgs[1..]));
    }
  }

  /** Any list of messages, with values in any of their forms, tags by byte or name and the header
      item, separated in any way that keeps words apart, is read as what it stands for. */
  lemma TextMeans(msgs: seq<seq<Item>>, gaps: seq<seq<Piece>>)
    requires ValidMessages(msgs) && Spaced(TextTokens(msgs), gaps)
    ensures ParseAll(Lex(Text(TextTokens(msgs), gaps))).Some?
    ensures MessagesMean(msgs, ParseAll(Lex(Text(TextTokens(msgs), gaps))).value)
  {
    hide ValidMessages, MessagesMean, ParseAll, TextTokens, Text, Lex;
    TextTokensAreTokens(msgs);
    LexIgnoresFiller(TextTokens(msgs), gaps);
    MessagesParse(msgs);
  }

  /** `H` with one flags byte is the header. */
  lemma HeaderWithFlags(flags: Byte, records: seq<Tlv>)
    requires ItemMeans(HeaderItem("H", Some([Hex(flags, false, false)])), records)
    ensures records == Protocol.Header(flags)
  {
    var item := HeaderItem("H", Some([Hex(flags, false, false)]));
    var bytes :| ArgsMean(item.parts, bytes) && RecordsOf(item, bytes, records);
    OneHex(Hex(flags, false, false), bytes);
  }

  lemma OneHex(p: Part, bytes: seq<Byte>)
    requires p.Hex? && PartsMean([p], bytes)
    ensures bytes == [p.b]
  {
    var parts := [p];
    var k: nat :| k <= |bytes| && Means(parts[0], bytes[..k]) && PartsMean(parts[1..], bytes[k..]);
    assert bytes == bytes[..k] + bytes[k..];
  }

  /** From the text to the wire: a text of the header item and any items is read as one message, and
      its frame is the query with those flags and the records the items stand for. */
  lemma TextToQuery(md5: Md5, flags: Byte, items: seq<Item>, gaps: seq<seq<Piece>>) returns (records: seq<Tlv>)
    requires forall i | i in items :: ValidItem(i)
    requires Spaced(TextTokens([[HeaderItem("H", Some([Hex(flags, false, false)]))] + items]), gaps)
    ensures ItemsMean(items, records)
    ensures var text := Text(TextTokens([[HeaderItem("H", Some([Hex(flags, false, false)]))] + items]), gaps);
            && ParseAll(Lex(text)) == Some([Protocol.Header(flags) + records])
            && ClientCodec.Frame(md5, Protocol.Header(flags) + records) == EndToEnd.QueryOf(md5, flags, records)
  {
    hide Text, TextTokens, Lex, ParseAll, ItemMeans;
    var h := HeaderItem("H", Some([Hex(flags, false, false)]));
    var msg := [h] + items;
    assert ValidItem(h);
    assert ValidMessages([msg]);
    TextMeans([msg], gaps);
    var read := ParseAll(Lex(Text(TextTokens([msg]), gaps))).value;
    assert read == [read[0]] && ItemsMean([msg][0], read[0]);
    records := HeaderFirst(flags, items, read[0]);
  }

  lemma HeaderFirst(flags: Byte, items: seq<Item>, tlvs: seq<Tlv>) returns (records: seq<Tlv>)
    requires ItemsMean([HeaderItem("H", Some([Hex(flags, false, false)]))] + items, tlvs)
    ensures tlvs == Protocol.Header(flags) + records && ItemsMean(items, records)
  {
    hide ItemMeans;
    var msg := [HeaderItem("H", Some([Hex(flags, false, false)]))] + items;
    var k: nat :| k <= |tlvs| && ItemMeans(msg[0], tlvs[..k]) && ItemsMean(msg[1..], tlvs[k..]);
    HeaderWithFlags(flags, tlvs[..k]);
    records := tlvs[k..];
    assert msg[1..] == items;
    assert tlvs == tlvs[..k] + tlvs[k..];
  }
}
