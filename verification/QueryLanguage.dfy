/** The client's query language: `nextToken`, `parse` and `toHex` of tools/src/nhac.cpp. */
module QueryLanguage {
  import opened Bytes
  import opened Options
  import opened Tlvs
  import ClientCodec

  // ---------------------------------------------------------------- characters (C locale)

  /** White space and the comma. */
  predicate IsBlank(c: char) {
    c == ' ' || c == '\t' || c == '\n' || c == '\r' || c == 11 as char || c == 12 as char || c == ','
  }

  predicate IsDigit(c: char) {
    '0' <= c <= '9'
  }

  predicate IsAlnum(c: char) {
    IsDigit(c) || 'a' <= c <= 'z' || 'A' <= c <= 'Z'
  }

  predicate IsHexDigit(c: char) {
    IsDigit(c) || 'a' <= c <= 'f' || 'A' <= c <= 'F'
  }

  predicate InComment(c: char) {
    c != '\n'
  }

  predicate InString(c: char) {
    c != '"' && c != '\n'
  }

  function HexValue(c: char): (v: int)
    requires IsHexDigit(c)
    ensures 0 <= v < 16
  {
    if IsDigit(c) then c as int - '0' as int
    else if 'a' <= c <= 'f' then c as int - 'a' as int + 10
    else c as int - 'A' as int + 10
  }

  // ---------------------------------------------------------------- the tokens of a text

  /** Length of the longest prefix of `inside` characters. */
  function Run(s: string, inside: char -> bool): (n: nat)
    ensures n <= |s|
    ensures forall i | 0 <= i < n :: inside(s[i])
    ensures n < |s| ==> !inside(s[n])
  {
    if s == "" || !inside(s[0]) then 0 else 1 + Run(s[1..], inside)
  }

  /** Drops blanks, commas and comments; a comment without newline swallows the rest. */
  function Skip(s: string): (r: string)
    ensures |r| <= |s|
    ensures r != "" ==> !IsBlank(r[0]) && r[0] != '#'
  {
    if s == "" then ""
    else if IsBlank(s[0]) then Skip(s[1..])
    else if s[0] == '#' then Skip(s[1 + Run(s[1..], InComment)..])
    else s
  }

  /** Length of the token that starts the text. */
  function TokenLength(s: string): (n: nat)
    requires s != "" && !IsBlank(s[0]) && s[0] != '#'
    ensures 1 <= n <= |s|
  {
    if s[0] == '"' then
      var n := 1 + Run(s[1..], InString);
      if n < |s| && s[n] == '"' then n + 1 else n
    else if IsAlnum(s[0]) then 1 + Run(s[1..], IsAlnum)
    else 1
  }

  /** All tokens of a text, in order. */
  function Lex(s: string): seq<string>
    decreases |s|
  {
    var t := Skip(s);
    if t == "" then []
    else
      var n := TokenLength(t);
      [t[..n]] + Lex(t[n..])
  }

  // ---------------------------------------------------------------- nextToken, with its loops

  /** Advances `pos` over `inside` characters. */
  method Advance(text: string, pos: nat, inside: char -> bool) returns (next: nat)
    requires pos <= |text|
    ensures next == pos + Run(text[pos..], inside)
  {
    next := pos;
    while next < |text| && inside(text[next])
      invariant pos <= next <= |text|
      invariant pos + Run(text[pos..], inside) == next + Run(text[next..], inside)
    {
      assert text[next..][1..] == text[next + 1..];
      next := next + 1;
    }
  }

  lemma {:induction false} SkipBlanks(s: string)
    ensures Skip(s) == Skip(s[Run(s, IsBlank)..])
  {
    if s != "" && IsBlank(s[0]) {
      SkipBlanks(s[1..]);
      assert s[1..][Run(s[1..], IsBlank)..] == s[Run(s, IsBlank)..];
    }
  }

  lemma DropDrop(s: string, a: nat, b: nat)
    requires a + b <= |s|
    ensures s[a..][b..] == s[a + b..]
  {
  }

  lemma BlankStep(text: string, a: nat, b: nat)
    requires a <= b <= |text| && b == a + Run(text[a..], IsBlank)
    ensures Skip(text[b..]) == Skip(text[a..])
    ensures b < |text| ==> !IsBlank(text[b])
  {
    SkipBlanks(text[a..]);
    DropDrop(text, a, b - a);
  }

  lemma CommentStep(text: string, a: nat, b: nat)
    requires a < b <= |text| && text[a] == '#' && b == a + 1 + Run(text[a + 1..], InComment)
    ensures Skip(text[b..]) == Skip(text[a..])
  {
    DropDrop(text, a, 1);
    DropDrop(text, a, b - a);
  }

  lemma SkipStops(text: string, a: nat)
    requires a <= |text| && (a < |text| ==> !IsBlank(text[a]) && text[a] != '#')
    ensures Skip(text[a..]) == text[a..]
  {
  }

  /** The white-space and comment loop of `nextToken`. */
  method SkipFiller(text: string, pos: nat) returns (next: nat)
    requires pos <= |text|
    ensures next <= |text| && text[next..] == Skip(text[pos..])
  {
    next := pos;
    while true
      invariant pos <= next <= |text|
      invariant Skip(text[next..]) == Skip(text[pos..])
      decreases |text| - next
    {
      var start := Advance(text, next, IsBlank);
      BlankStep(text, next, start);
      next := start;
      if next == |text| || text[next] != '#' { break; }
      var newline := Advance(text, next + 1, InComment);
      CommentStep(text, next, newline);
      next := newline;
      if next == |text| { break; }
    }
    SkipStops(text, next);
  }

  method TokenEnd(text: string, pos: nat) returns (end: nat)
    requires pos < |text| && !IsBlank(text[pos]) && text[pos] != '#'
    ensures end == pos + TokenLength(text[pos..])
  {
    DropDrop(text, pos, 1);
    if text[pos] == '"' {
      end := Advance(text, pos + 1, InString);
      if end < |text| && text[end] == '"' { end := end + 1; }
    } else if IsAlnum(text[pos]) {
      end := Advance(text, pos + 1, IsAlnum);
    } else {
      end := pos + 1;
    }
  }

  /** The next token and the position after it; the empty token means end of input. */
  method NextToken(text: string, pos: nat) returns (token: string, next: nat)
    requires pos <= |text|
    ensures next <= |text|
    ensures var tokens := Lex(text[pos..]);
            if tokens == [] then token == "" && Lex(text[next..]) == []
            else token == tokens[0] != "" && Lex(text[next..]) == tokens[1..]
  {
    var start := SkipFiller(text, pos);
    if start == |text| {
      return "", start;
    }
    assert text[start..][0] == text[start];
    next := TokenEnd(text, start);
    FirstToken(text, pos, start, next);
    token := text[start..next];
  }

  lemma FirstToken(text: string, pos: nat, start: nat, next: nat)
    requires pos <= |text| && start < next <= |text|
    requires text[start..] == Skip(text[pos..]) && next == start + TokenLength(text[start..])
    ensures Lex(text[pos..]) == [text[start..next]] + Lex(text[next..])
  {
    hide Skip, TokenLength;
    DropDrop(text, start, next - start);
    assert text[start..][..next - start] == text[start..next];
  }

  // ---------------------------------------------------------------- values and tags

  predicate IsHexByte(t: string) {
    |t| == 4 && t[0] == '0' && (t[1] == 'x' || t[1] == 'X') && IsHexDigit(t[2]) && IsHexDigit(t[3])
  }

  function HexByte(t: string): Byte
    requires IsHexByte(t)
  {
    16 * HexValue(t[2]) + HexValue(t[3])
  }

  function HexDigit(d: int): (c: char)
    requires 0 <= d < 16
    ensures IsHexDigit(c) && HexValue(c) == d
  {
    if d < 10 then (d + '0' as int) as char else (d - 10 + 'a' as int) as char
  }

  function ToHex(x: Byte): (t: string)
    ensures |t| == 4
  {
    ['0', 'x', HexDigit(x / 16), HexDigit(x % 16)]
  }

  function DigitValue(c: char): nat
    requires IsDigit(c)
  {
    c as int - '0' as int
  }

  function DecValue(s: string): nat
    requires forall c | c in s :: IsDigit(c)
  {
    if s == "" then 0 else 10 * DecValue(s[..|s| - 1]) + DigitValue(s[|s| - 1])
  }

  predicate IsNumber(t: string) {
    t != "" && (IsDigit(t[|t| - 1]) || t[|t| - 1] == 'l' || t[|t| - 1] == 'L')
    && forall c | c in t[..|t| - 1] :: IsDigit(c)
  }

  function Digits(t: string): (d: string)
    requires IsNumber(t)
    ensures forall c | c in d :: IsDigit(c)
  {
    if IsDigit(t[|t| - 1]) then
      assert t == t[..|t| - 1] + [t[|t| - 1]];
      t
    else t[..|t| - 1]
  }

  function CharBytes(s: string): seq<Byte> {
    seq(|s|, i requires 0 <= i < |s| => s[i] as int % 256)
  }

  /** The bytes of one value token; None for a syntax error or a number out of range. */
  function ValueBytes(t: string): Option<seq<Byte>> {
    if IsHexByte(t) then Some([HexByte(t)])
    else if t != "" && t[0] == '"' then
      if |t| < 2 || t[|t| - 1] != '"' then None else Some(CharBytes(t[1..|t| - 1]))
    else if IsNumber(t) then
      if Digits(t) == "" || DecValue(Digits(t)) >= 0x1_0000_0000_0000_0000 then None
      else Some(LE(DecValue(Digits(t)), if IsDigit(t[|t| - 1]) then 4 else 8))
    else None
  }

  const Aliases: map<string, Byte> := map[
    "m" := 0x00, "magic" := 0x00, "v" := 0x01, "version" := 0x01,
    "t" := 0x02, "message_type" := 0x02, "f" := 0x03, "message_flags" := 0x03,
    "u" := 0x04, "user_data" := 0x04, "c" := 0x90, "capabilities" := 0x90,
    "d" := 0x91, "device_id" := 0x91, "rx" := 0x92, "monotonic_timer_rx" := 0x92,
    "tx" := 0x93, "monotonic_timer_tx" := 0x93, "l" := 0x94, "deviceid_last_updated" := 0x94,
    "e" := 0xA0, "temperatures" := 0xA0]

  function AliasTag(t: string): Option<Byte> {
    if t in Aliases then Some(Aliases[t]) else None
  }

  /** The records an item adds to the message. */
  function ItemRecords(tagId: string, args: seq<Byte>): Option<seq<Tlv>> {
    if tagId == "H" || tagId == "Header" then
      Some([Tlv(0x00, [0x4E, 0x48, 0x41, 0x31]), Tlv(0x01, [0, 0, 0, 1]), Tlv(0x02, [1]),
            Tlv(0x03, if args == [] then [0] else args)])
    else if IsHexByte(tagId) then Some([Tlv(HexByte(tagId), args)])
    else
      var tag := AliasTag(tagId);
      if tag == None then None else Some([Tlv(tag.value, args)])
  }

  // ---------------------------------------------------------------- the grammar over tokens

  /** A syntax error leaves the records read before it in the message. */
  datatype Parsed = EndOfInput | SyntaxError(tlvs: seq<Tlv>) | Read(tlvs: seq<Tlv>, rest: seq<string>)

  datatype Args = BadArgs | GoodArgs(bytes: seq<Byte>, rest: seq<string>)

  function ParseArgs(toks: seq<string>, args: seq<Byte>): (r: Args)
    ensures r.GoodArgs? ==> |r.rest| < |toks|
  {
    if toks == [] then BadArgs
    else if toks[0] == ")" then GoodArgs(args, toks[1..])
    else
      var v := ValueBytes(toks[0]);
      if v == None then BadArgs else ParseArgs(toks[1..], args + v.value)
  }

  /** The arguments after a tag, none if no parenthesis follows. */
  function ItemArgs(toks: seq<string>): (r: Args)
    ensures r.GoodArgs? ==> |r.rest| <= |toks|
  {
    if toks != [] && toks[0] == "(" then ParseArgs(toks[1..], []) else GoodArgs([], toks)
  }

  function ParseItems(toks: seq<string>, tlvs: seq<Tlv>): (r: Parsed)
    ensures r != EndOfInput
    ensures r.Read? ==> |r.rest| < |toks|
    decreases |toks|
  {
    if toks == [] then SyntaxError(tlvs)
    else if toks[0] == "}" then Read(tlvs, toks[1..])
    else if toks[0] == "{" || toks[0] == "(" || toks[0] == ")" then SyntaxError(tlvs)
    else
      var a := ItemArgs(toks[1..]);
      if a == BadArgs then SyntaxError(tlvs)
      else
        var records := ItemRecords(toks[0], a.bytes);
        if records == None then SyntaxError(tlvs) else ParseItems(a.rest, tlvs + records.value)
  }

  /** One call of `parse`. */
  function ParseMessage(toks: seq<string>): (r: Parsed)
    ensures r.Read? ==> |r.rest| < |toks|
  {
    if toks == [] then EndOfInput
    else if toks[0] != "{" then SyntaxError([])
    else ParseItems(toks[1..], [])
  }

  /** `parse` called until it reports the end of the input. */
  function ParseAll(toks: seq<string>): Option<seq<seq<Tlv>>>
    decreases |toks|
  {
    match ParseMessage(toks)
    case EndOfInput => Some([])
    case SyntaxError(_) => None
    case Read(tlvs, rest) =>
      var more := ParseAll(rest);
      if more == None then None else Some([tlvs] + more.value)
  }

  // ---------------------------------------------------------------- parse, with its loops

  /** The input stream with its read position. */
  class CharStream {
    const text: string
    var pos: nat

    ghost predicate Valid()
      reads this
    {
      pos <= |text|
    }

    /** Tokens still to come. */
    ghost function Rest(): seq<string>
      requires Valid()
      reads this
    {
      Lex(text[pos..])
    }

    /** The same with a token already taken out; the empty token stands for the end. */
    ghost function Pending(token: string): seq<string>
      requires Valid()
      reads this
    {
      if token == "" then [] else [token] + Rest()
    }

    constructor (text: string)
      ensures Valid() && Rest() == Lex(text) && this.text == text
    {
      this.text, pos := text, 0;
      new;
      assert text[0..] == text;
    }

    method Next() returns (token: string)
      requires Valid()
      modifies this
      ensures Valid() && Pending(token) == old(Rest())
      ensures token == "" ==> Rest() == []
    {
      token, pos := NextToken(text, pos);
    }

    /** The value loop, from after `(` to after `)`; None stands for a thrown error. */
    method ReadValues() returns (r: Option<seq<Byte>>)
      requires Valid()
      modifies this
      ensures Valid()
      ensures match ParseArgs(old(Rest()), [])
              case BadArgs => r == None
              case GoodArgs(bytes, rest) => r == Some(bytes) && Rest() == rest
    {
      var args: seq<Byte> := [];
      var token := Next();
      while token != "" && token != ")"
        invariant Valid()
        invariant ParseArgs(Pending(token), args) == ParseArgs(old(Rest()), [])
        decreases |Pending(token)|
      {
        ghost var toks := Pending(token);
        var v := ValueBytes(token);
        assert toks[1..] == Rest();
        if v == None { return None; }
        args := args + v.value;
        token := Next();
      }
      if token == "" { return None; }
      assert Pending(token)[1..] == Rest();
      return Some(args);
    }

    /** One item: tag and optional arguments; `next` is the token after it. */
    method ReadItem(tagId: string) returns (records: Option<seq<Tlv>>, next: string)
      requires Valid()
      modifies this
      ensures Valid() && (records.Some? && next == "" ==> Rest() == [])
      ensures var a := ItemArgs(old(Rest()));
              if a == BadArgs then records == None
              else records == ItemRecords(tagId, a.bytes) && Pending(next) == a.rest
    {
      var args: seq<Byte> := [];
      next := Next();
      if next == "(" {
        assert Pending(next)[1..] == Rest();
        var r := ReadValues();
        if r == None { return None, ""; }
        args := r.value;
        next := Next();
      }
      records := ItemRecords(tagId, args);
    }

    /** One call of `parse`: Some(true) fills `msg`, Some(false) reports the end of the input,
        None stands for a thrown syntax error. */
    method Parse(msg: ClientCodec.Message) returns (r: Option<bool>)
      requires Valid()
      modifies this, msg
      ensures Valid()
      ensures match ParseMessage(old(Rest()))
              case EndOfInput => r == Some(false) && msg.tlvs == []
              case SyntaxError(tlvs) => r == None && msg.tlvs == tlvs
              case Read(tlvs, rest) => r == Some(true) && msg.tlvs == tlvs && Rest() == rest
    {
      ghost var all := Rest();
      msg.Clear();
      var token := Next();
      if token == "" { return Some(false); }
      if token != "{" { return None; }
      assert all[1..] == Rest();
      token := Next();
      while token != "}"
        invariant Valid() && (token == "" ==> Rest() == [])
        invariant ParseItems(Pending(token), msg.tlvs) == ParseItems(all[1..], [])
        decreases |Pending(token)|
      {
        if token == "" { return None; }
        if token == "{" || token == "(" || token == ")" { return None; }
        ghost var toks := Pending(token);
        assert toks[1..] == Rest();
        var records, next := ReadItem(token);
        if records == None { return None; }
        msg.tlvs := msg.tlvs + records.value;
        token := next;
      }
      assert Pending(token)[1..] == Rest();
      return Some(true);
    }
  }

  /** `done` messages already read, then the rest. */
  function Prepend(done: seq<seq<Tlv>>, more: Option<seq<seq<Tlv>>>): Option<seq<seq<Tlv>>> {
    if more == None then None else Some(done + more.value)
  }

  /** The client's query loop: `parse` until it returns false. */
  method ReadAll(text: string) returns (r: Option<seq<seq<Tlv>>>)
    ensures r == ParseAll(Lex(text))
  {
    hide Lex, Prepend, ParseAll, ParseMessage;
    var input := new CharStream(text);
    var msg := new ClientCodec.Message();
    var done: seq<seq<Tlv>> := [];
    ghost var all := ParseAll(Lex(text));
    PrependNone(all);
    while true
      invariant fresh(input) && fresh(msg) && input.Valid()
      invariant all == Prepend(done, ParseAll(input.Rest()))
      decreases |input.Rest()|
    {
      ghost var toks := input.Rest();
      var ok := input.Parse(msg);
      PrependNext(done, toks);
      if ok == None { return None; }
      if ok == Some(false) { return Some(done); }
      done := done + [msg.tlvs];
    }
  }

  lemma PrependNone(all: Option<seq<seq<Tlv>>>)
    ensures Prepend([], all) == all
  {
    if all.Some? { assert [] + all.value == all.value; }
  }

  /** One more message read. */
  lemma PrependNext(done: seq<seq<Tlv>>, toks: seq<string>)
    ensures Prepend(done, ParseAll(toks))
         == match ParseMessage(toks)
            case EndOfInput => Some(done)
            case SyntaxError(_) => None
            case Read(tlvs, rest) => Prepend(done + [tlvs], ParseAll(rest))
  {
    match ParseMessage(toks)
    case EndOfInput => assert done + [] == done;
    case SyntaxError(_) =>
    case Read(tlvs, rest) =>
      if ParseAll(rest).Some? { Assoc(done, [tlvs], ParseAll(rest).value); }
  }

  // ---------------------------------------------------------------- texts from tokens

  /** What may stand between tokens: a blank or comma, or a comment with its newline. */
  datatype Piece = Blank(c: char) | Comment(text: string)

  predicate ValidPiece(p: Piece) {
    match p
    case Blank(c) => c in " ,\t\n\r" || c == 11 as char || c == 12 as char
    case Comment(t) => '\n' !in t
  }

  function PieceText(p: Piece): (s: string)
    ensures s != ""
  {
    match p
    case Blank(c) => [c]
    case Comment(t) => "#" + t + "\n"
  }

  function Filler(ps: seq<Piece>): string {
    if ps == [] then "" else PieceText(ps[0]) + Filler(ps[1..])
  }

  predicate IsWord(t: string) {
    t != "" && forall i | 0 <= i < |t| :: '0' <= t[i] <= '9' || 'a' <= t[i] <= 'z' || 'A' <= t[i] <= 'Z'
  }

  predicate IsQuoted(t: string) {
    |t| >= 2 && t[0] == '"' && t[|t| - 1] == '"' && forall i | 0 < i < |t| - 1 :: t[i] != '"' && t[i] != '\n'
  }

  predicate IsSymbol(t: string) {
    |t| == 1 && !IsWord(t) && t[0] !in " ,\t\n\r#\"" && t[0] != 11 as char && t[0] != 12 as char
  }

  predicate IsToken(t: string) {
    IsWord(t) || IsQuoted(t) || IsSymbol(t)
  }

  /** Tokens with filler before, between and after them. */
  function Text(toks: seq<string>, gaps: seq<seq<Piece>>): string
    requires |gaps| == |toks| + 1
  {
    if toks == [] then Filler(gaps[0])
    else Filler(gaps[0]) + (toks[0] + Text(toks[1..], gaps[1..]))
  }

  ghost predicate AreTokens(toks: seq<string>) {
    forall i | 0 <= i < |toks| :: IsToken(toks[i])
  }

  /** Fillers are well formed, and two words never touch. */
  ghost predicate Spaced(toks: seq<string>, gaps: seq<seq<Piece>>) {
    && |gaps| == |toks| + 1
    && (forall i | 0 <= i < |gaps| :: forall p | p in gaps[i] :: ValidPiece(p))
    && (forall i | 0 < i < |toks| :: IsWord(toks[i - 1]) && IsWord(toks[i]) ==> gaps[i] != [])
  }

  lemma {:induction false} RunOf(a: string, b: string, inside: char -> bool)
    requires forall i | 0 <= i < |a| :: inside(a[i])
    requires b == "" || !inside(b[0])
    ensures Run(a + b, inside) == |a|
  {
    if a == "" {
      assert a + b == b;
    } else {
      assert (a + b)[1..] == a[1..] + b;
      RunOf(a[1..], b, inside);
    }
  }

  lemma SkipPiece(p: Piece, s: string)
    requires ValidPiece(p)
    ensures Skip(PieceText(p) + s) == Skip(s)
  {
    match p
    case Blank(c) => assert ([c] + s)[1..] == s;
    case Comment(c) =>
      var newline := "\n" + s;
      assert PieceText(p) + s == "#" + (c + newline);
      SkipComment(c, newline);
      assert newline[1..] == s;
  }

  lemma SkipComment(c: string, after: string)
    requires '\n' !in c && after != "" && after[0] == '\n'
    ensures Skip("#" + (c + after)) == Skip(after)
  {
    var t := "#" + (c + after);
    RunOf(c, after, InComment);
    assert t[1..] == c + after;
    assert t[1 + |c|..] == after;
  }

  lemma {:induction false} SkipPieces(ps: seq<Piece>, s: string)
    requires forall p | p in ps :: ValidPiece(p)
    ensures Skip(Filler(ps) + s) == Skip(s)
  {
    hide Skip, PieceText;
    if ps == [] {
      assert "" + s == s;
    } else {
      SkipPieces(ps[1..], s);
      SkipPiece(ps[0], Filler(ps[1..]) + s);
      Assoc(PieceText(ps[0]), Filler(ps[1..]), s);
    }
  }

  lemma WordLength(t: string, s: string)
    requires IsWord(t) && (s != "" ==> !IsAlnum(s[0]))
    ensures TokenLength(t + s) == |t|
  {
    assert (t + s)[1..] == t[1..] + s;
    RunOf(t[1..], s, IsAlnum);
  }

  lemma QuotedLength(t: string, s: string)
    requires IsQuoted(t)
    ensures TokenLength(t + s) == |t|
  {
    var inner, all := t[1..|t| - 1], t + s;
    assert all[1..] == inner + ("\"" + s);
    RunOf(inner, "\"" + s, InString);
    assert all[|t| - 1] == '"';
  }

  lemma TokenLengthOf(t: string, s: string)
    requires IsToken(t) && (IsWord(t) && s != "" ==> !IsAlnum(s[0]))
    ensures Skip(t + s) == t + s
    ensures TokenLength(t + s) == |t|
  {
    assert (t + s)[0] == t[0];
    if IsWord(t) {
      WordLength(t, s);
    } else if IsQuoted(t) {
      QuotedLength(t, s);
    }
  }

  lemma LexStep(gap: seq<Piece>, t: string, s: string)
    requires forall p | p in gap :: ValidPiece(p)
    requires IsToken(t) && (IsWord(t) && s != "" ==> !IsAlnum(s[0]))
    ensures Lex(Filler(gap) + (t + s)) == [t] + Lex(s)
  {
    SkipPieces(gap, t + s);
    TokenLengthOf(t, s);
    assert (t + s)[..|t|] == t && (t + s)[|t|..] == s;
  }

  lemma FillerStart(ps: seq<Piece>, s: string)
    requires ps != [] && forall p | p in ps :: ValidPiece(p)
    ensures var f := Filler(ps) + s; f != "" && !IsAlnum(f[0])
  {
    assert ps[0] in ps;
  }

  /** Whatever separates them, the tokens of a text are the tokens it was made from: adding or
      dropping blanks, commas and comments between tokens changes nothing. */
  lemma {:induction false} LexIgnoresFiller(toks: seq<string>, gaps: seq<seq<Piece>>)
    requires AreTokens(toks) && Spaced(toks, gaps)
    ensures Lex(Text(toks, gaps)) == toks
  {
    if toks == [] {
      SkipPieces(gaps[0], "");
      assert Filler(gaps[0]) + "" == Filler(gaps[0]);
    } else {
      var more, moreGaps := toks[1..], gaps[1..];
      assert AreTokens(more) && Spaced(more, moreGaps) by {
        assert forall i | 0 <= i < |more| :: more[i] == toks[i + 1];
        assert forall i | 0 <= i < |moreGaps| :: moreGaps[i] == gaps[i + 1];
      }
      LexIgnoresFiller(more, moreGaps);
      var s := Text(more, moreGaps);
      assert IsWord(toks[0]) && s != "" ==> !IsAlnum(s[0]) by { AfterWord(toks[0], more, moreGaps); }
      LexStep(gaps[0], toks[0], s);
    }
  }

  lemma AfterWord(t: string, more: seq<string>, moreGaps: seq<seq<Piece>>)
    requires AreTokens(more) && Spaced(more, moreGaps)
    requires |more| > 0 && IsWord(t) && IsWord(more[0]) ==> moreGaps[0] != []
    ensures var s := Text(more, moreGaps); IsWord(t) && s != "" ==> !IsAlnum(s[0])
  {
    var s := Text(more, moreGaps);
    if moreGaps[0] != [] {
      FillerStart(moreGaps[0], if more == [] then "" else more[0] + Text(more[1..], moreGaps[1..]));
      if more == [] { assert Filler(moreGaps[0]) + "" == Filler(moreGaps[0]); }
    } else if more != [] {
      assert s == more[0] + Text(more[1..], moreGaps[1..]);
    }
  }

  // ---------------------------------------------------------------- rendering and reading back

  function HexTokens(v: seq<Byte>): seq<string> {
    if v == [] then [] else [ToHex(v[0])] + HexTokens(v[1..])
  }

  function ItemTokens(t: Tlv): seq<string> {
    [ToHex(t.tag), "("] + HexTokens(t.value) + [")"]
  }

  function MessageTokens(ts: seq<Tlv>): seq<string> {
    if ts == [] then ["}"] else ItemTokens(ts[0]) + MessageTokens(ts[1..])
  }

  /** `{ 0xTT(0xVV ...) ... }` for every message. */
  function AllTokens(msgs: seq<seq<Tlv>>): seq<string> {
    if msgs == [] then [] else ["{"] + MessageTokens(msgs[0]) + AllTokens(msgs[1..])
  }

  lemma HexRoundTrip(x: Byte)
    ensures IsHexByte(ToHex(x)) && HexByte(ToHex(x)) == x && IsWord(ToHex(x))
  {
  }

  lemma {:induction false} ArgsRoundTrip(v: seq<Byte>, args: seq<Byte>, rest: seq<string>)
    ensures ParseArgs(HexTokens(v) + [")"] + rest, args) == GoodArgs(args + v, rest)
  {
    var toks := HexTokens(v) + [")"] + rest;
    if v == [] {
      assert toks == [")"] + rest && args + v == args;
    } else {
      HexRoundTrip(v[0]);
      ArgsRoundTrip(v[1..], args + [v[0]], rest);
      assert toks[0] == ToHex(v[0]) && toks[1..] == HexTokens(v[1..]) + [")"] + rest;
      assert args + [v[0]] + v[1..] == args + v;
    }
  }

  lemma ItemRoundTrip(t: Tlv, after: seq<string>, done: seq<Tlv>)
    ensures ParseItems(ItemTokens(t) + after, done) == ParseItems(after, done + [t])
  {
    var toks := ItemTokens(t) + after;
    HexRoundTrip(t.tag);
    ItemShape(ToHex(t.tag), HexTokens(t.value), after);
    ArgsRoundTrip(t.value, [], after);
    assert [] + t.value == t.value;
    assert ItemRecords(ToHex(t.tag), t.value) == Some([t]);
  }

  lemma ItemsEnd(done: seq<Tlv>, rest: seq<string>)
    ensures ParseItems(["}"] + rest, done) == Read(done, rest)
  {
    assert (["}"] + rest)[1..] == rest;
  }

  lemma {:induction false} ItemsRoundTrip(ts: seq<Tlv>, done: seq<Tlv>, rest: seq<string>)
    ensures ParseItems(MessageTokens(ts) + rest, done) == Read(done + ts, rest)
  {
    hide ItemTokens, ParseItems;
    if ts == [] {
      ItemsEnd(done, rest);
      assert done + ts == done;
    } else {
      var after := MessageTokens(ts[1..]) + rest;
      Assoc(ItemTokens(ts[0]), MessageTokens(ts[1..]), rest);
      ItemRoundTrip(ts[0], after, done);
      ItemsRoundTrip(ts[1..], done + [ts[0]], rest);
      assert done + [ts[0]] + ts[1..] == done + ts;
    }
  }

  lemma ItemShape(tag: string, values: seq<string>, after: seq<string>)
    ensures var toks := [tag, "("] + values + [")"] + after;
            && toks[0] == tag
            && toks[1..][0] == "("
            && toks[1..][1..] == values + [")"] + after
  {
  }

  lemma {:induction false} MessagesRoundTrip(msgs: seq<seq<Tlv>>)
    ensures ParseAll(AllTokens(msgs)) == Some(msgs)
  {
    hide ParseItems, MessageTokens;
    if msgs != [] {
      var rest := AllTokens(msgs[1..]);
      var toks := AllTokens(msgs);
      assert toks[0] == "{" && toks[1..] == MessageTokens(msgs[0]) + rest;
      ItemsRoundTrip(msgs[0], [], rest);
      assert [] + msgs[0] == msgs[0];
      MessagesRoundTrip(msgs[1..]);
      assert [msgs[0]] + msgs[1..] == msgs;
    }
  }

  lemma {:induction false} HexTokensAreTokens(v: seq<Byte>)
    ensures AreTokens(HexTokens(v))
  {
    if v != [] {
      HexRoundTrip(v[0]);
      HexTokensAreTokens(v[1..]);
    }
  }

  lemma {:induction false} MessageTokensAreTokens(ts: seq<Tlv>)
    ensures AreTokens(MessageTokens(ts))
  {
    if ts != [] {
      HexRoundTrip(ts[0].tag);
      HexTokensAreTokens(ts[0].value);
      MessageTokensAreTokens(ts[1..]);
    }
  }

  lemma {:induction false} AllTokensAreTokens(msgs: seq<seq<Tlv>>)
    ensures AreTokens(AllTokens(msgs))
  {
    if msgs != [] {
      MessageTokensAreTokens(msgs[0]);
      AllTokensAreTokens(msgs[1..]);
    }
  }

  /** Any list of messages, rendered with any separation of its tokens, is read back exactly. */
  lemma QueryTextRoundTrip(msgs: seq<seq<Tlv>>, gaps: seq<seq<Piece>>)
    requires Spaced(AllTokens(msgs), gaps)
    ensures ParseAll(Lex(Text(AllTokens(msgs), gaps))) == Some(msgs)
  {
    AllTokensAreTokens(msgs);
    LexIgnoresFiller(AllTokens(msgs), gaps);
    MessagesRoundTrip(msgs);
  }

  // ---------------------------------------------------------------- aliases that cannot be written

  /** Every token is a word, a single character, or starts with a quote. */
  lemma {:induction false} TokenShapes(s: string, t: string)
    requires t in Lex(s)
    ensures IsWord(t) || |t| == 1 || (t != "" && t[0] == '"')
    decreases |s|
  {
    var rest := Skip(s);
    var n := TokenLength(rest);
    if t == rest[..n] {
      if IsAlnum(rest[0]) && rest[0] != '"' {
        var tail := rest[1..];
        assert forall i | 0 <= i < n - 1 :: IsAlnum(tail[i]) && t[i + 1] == tail[i];
        assert forall i | 0 < i < n :: t[i] == tail[i - 1];
      }
    } else {
      TokenShapes(rest[n..], t);
    }
  }

  /** A name with an underscore in it is never a token. */
  lemma UnderscoreIsNoToken(s: string, t: string, i: nat)
    requires 2 <= |t| && t[0] != '"' && i < |t| && t[i] == '_'
    ensures t !in Lex(s)
  {
    if t in Lex(s) { TokenShapes(s, t); }
  }

  /** Seven aliases are in the table, six of them in the usage text, but no text ever produces them. */
  lemma UnreachableAliases(s: string)
    ensures forall t | t in ["message_type", "message_flags", "user_data", "device_id", "monotonic_timer_rx",
                             "monotonic_timer_tx", "deviceid_last_updated"] :: t !in Lex(s)
  {
    UnderscoreIsNoToken(s, "message_type", 7);
    UnderscoreIsNoToken(s, "message_flags", 7);
    UnderscoreIsNoToken(s, "user_data", 4);
    UnderscoreIsNoToken(s, "device_id", 6);
    UnderscoreIsNoToken(s, "monotonic_timer_rx", 9);
    UnderscoreIsNoToken(s, "monotonic_timer_tx", 9);
    UnderscoreIsNoToken(s, "deviceid_last_updated", 8);
  }

  /** A name of letters, digits and underscores can be written exactly when it has no underscore or
      is one. */
  lemma NameReachableIff(name: string)
    requires name != "" && forall i | 0 <= i < |name| :: IsAlnum(name[i]) || name[i] == '_'
    ensures (exists s: string :: name in Lex(s)) <==> '_' !in name || name == "_"
  {
    if '_' !in name || name == "_" {
      LexStep([], name, "");
      assert name in Lex(Filler([]) + (name + ""));
    } else {
      var i :| 0 <= i < |name| && name[i] == '_';
      assert |name| == 1 ==> name == "_";
      forall s: string ensures name !in Lex(s) {
        UnderscoreIsNoToken(s, name, i);
      }
    }
  }
}
