/**
 Nested quoting: a value inside an OTTL literal, inside a YAML scalar, inside a text the
 collector expands `${...}` in; and the percent-encoding of a gRPC message. Strings here
 are Unicode, the bytes of a gRPC message excepted.
 */
module Quoting {
  import opened Wrappers
  import Text

  // ------------------------------------------------------------ JSON strings

  function LowerHex(n: int): char
    requires 0 <= n < 16
  {
    if n < 10 then (n + '0' as int) as char else (n - 10 + 'a' as int) as char
  }

  function UnicodeEscape(c: char): string
    requires c as int < 0x10000
  {
    var n := c as int;
    ['\\', 'u', LowerHex(n / 4096), LowerHex(n / 256 % 16), LowerHex(n / 16 % 16), LowerHex(n % 16)]
  }

  /** The escapes of `encoding/json` without HTML escaping. */
  function JsonChar(c: char): string {
    if c == '"' || c == '\\' then ['\\', c]
    else if c == '\U{08}' then "\\b"
    else if c == '\U{0C}' then "\\f"
    else if c == '\n' then "\\n"
    else if c == '\r' then "\\r"
    else if c == '\t' then "\\t"
    else if c < ' ' || c == '\U{2028}' || c == '\U{2029}' then UnicodeEscape(c)
    else [c]
  }

  function JsonBody(s: string): string {
    if s == [] then [] else JsonChar(s[0]) + JsonBody(s[1..])
  }

  function JsonString(s: string): string {
    ['"'] + JsonBody(s) + ['"']
  }

  function HexValue(c: char): Option<int> {
    if '0' <= c <= '9' then Some(c as int - '0' as int)
    else if 'a' <= c <= 'f' then Some(c as int - 'a' as int + 10)
    else if 'A' <= c <= 'F' then Some(c as int - 'A' as int + 10)
    else None
  }

  /** Four hexadecimal digits; a surrogate half is no character. */
  function HexChar(s: string): Option<char>
    requires |s| >= 4
  {
    var a, b, c, d := HexValue(s[0]), HexValue(s[1]), HexValue(s[2]), HexValue(s[3]);
    if a.None? || b.None? || c.None? || d.None? then None
    else
      var n := a.value * 4096 + b.value * 256 + c.value * 16 + d.value;
      if 0 <= n < 0xD800 || 0xE000 <= n < 0x10000 then Some(n as char) else None
  }

  function ShortEscape(c: char): Option<char> {
    if c == '"' || c == '\\' || c == '/' then Some(c)
    else if c == 'b' then Some('\U{08}')
    else if c == 'f' then Some('\U{0C}')
    else if c == 'n' then Some('\n')
    else if c == 'r' then Some('\r')
    else if c == 't' then Some('\t')
    else None
  }

  /** A string's characters up to its closing quote, and the text after it. */
  datatype Scanned = Scanned(text: string, rest: string)

  function Before(c: char, rest: Option<Scanned>): Option<Scanned> {
    match rest
    case None => None
    case Some(s) => Some(Scanned([c] + s.text, s.rest))
  }

  /** A JSON reader from just inside the opening quote. */
  function ScanJson(t: string): Option<Scanned>
    decreases |t|
  {
    if t == [] then None
    else if t[0] == '"' then Some(Scanned([], t[1..]))
    else if t[0] < ' ' then None
    else if t[0] != '\\' then Before(t[0], ScanJson(t[1..]))
    else if |t| >= 2 && ShortEscape(t[1]).Some? then Before(ShortEscape(t[1]).value, ScanJson(t[2..]))
    else if |t| >= 6 && t[1] == 'u' && HexChar(t[2..6]).Some? then Before(HexChar(t[2..6]).value, ScanJson(t[6..]))
    else None
  }

  lemma HexDigit(n: int)
    requires 0 <= n < 16
    ensures HexValue(LowerHex(n)) == Some(n)
  {
  }

  lemma Digits(n: int)
    requires 0 <= n < 0x10000
    ensures 0 <= n / 4096 < 16 && n == (n / 4096) * 4096 + (n / 256 % 16) * 256 + (n / 16 % 16) * 16 + n % 16
  {
    assert n / 256 == (n / 4096) * 16 + n / 256 % 16;
    assert n / 16 == (n / 256) * 16 + n / 16 % 16;
  }

  lemma HexCharOf(c: char, digits: string)
    requires c as int < 0xD800 || 0xE000 <= c as int < 0x10000
    requires digits == UnicodeEscape(c)[2..]
    ensures HexChar(digits) == Some(c)
  {
    var n := c as int;
    Digits(n);
    HexDigit(n / 4096);
    HexDigit(n / 256 % 16);
    HexDigit(n / 16 % 16);
    HexDigit(n % 16);
  }

  lemma ScanEscape(c: char, rest: string)
    requires c as int < 0xD800 || 0xE000 <= c as int < 0x10000
    ensures ScanJson(UnicodeEscape(c) + rest) == Before(c, ScanJson(rest))
  {
    var t := UnicodeEscape(c) + rest;
    assert t[0] == '\\' && t[1] == 'u' && t[2..6] == UnicodeEscape(c)[2..] && t[6..] == rest;
    HexCharOf(c, t[2..6]);
  }

  lemma ScanShort(c: char, encoded: string, rest: string)
    requires |encoded| == 2 && encoded[0] == '\\' && ShortEscape(encoded[1]) == Some(c)
    ensures ScanJson(encoded + rest) == Before(c, ScanJson(rest))
  {
    var t := encoded + rest;
    assert t[0] == '\\' && t[1] == encoded[1] && t[2..] == rest;
  }

  lemma ScanChar(c: char, rest: string)
    ensures ScanJson(JsonChar(c) + rest) == Before(c, ScanJson(rest))
  {
    var encoded := JsonChar(c);
    if |encoded| == 1 {
      assert (encoded + rest)[0] == c && (encoded + rest)[1..] == rest;
    } else if |encoded| == 2 {
      ScanShort(c, encoded, rest);
    } else {
      ScanEscape(c, rest);
    }
  }

  lemma BodySplits(s: string, rest: string)
    requires s != []
    ensures JsonBody(s) + ['"'] + rest == JsonChar(s[0]) + (JsonBody(s[1..]) + ['"'] + rest)
  {
  }

  lemma {:induction false} ScanBody(s: string, rest: string)
    ensures ScanJson(JsonBody(s) + ['"'] + rest) == Some(Scanned(s, rest))
  {
    if s == [] {
      var t := JsonBody(s) + ['"'] + rest;
      assert t[0] == '"' && t[1..] == rest;
    } else {
      ScanBody(s[1..], rest);
      ScanChar(s[0], JsonBody(s[1..]) + ['"'] + rest);
      BodySplits(s, rest);
      assert [s[0]] + s[1..] == s;
    }
  }

  // ---------------------------------------------------------------- dollars

  /** `strings.ReplaceAll(s, "$", "$$")`. */
  function DoubleDollars(s: string): string {
    if s == [] then [] else (if s[0] == '$' then ['$', '$'] else [s[0]]) + DoubleDollars(s[1..])
  }

  /** The collector's reading of `$$`; a `$` on its own would start a reference. */
  function HalveDollars(s: string): Option<string>
    decreases |s|
  {
    if s == [] then Some([])
    else if s[0] != '$' then
      match HalveDollars(s[1..]) case None => None case Some(t) => Some([s[0]] + t)
    else if |s| >= 2 && s[1] == '$' then
      match HalveDollars(s[2..]) case None => None case Some(t) => Some(['$'] + t)
    else None
  }

  lemma {:induction false} HalveDouble(s: string)
    ensures HalveDollars(DoubleDollars(s)) == Some(s)
  {
    if s != [] {
      HalveDouble(s[1..]);
      var t := DoubleDollars(s);
      assert [s[0]] + s[1..] == s;
      if s[0] == '$' {
        assert t[0] == '$' && t[1] == '$' && t[2..] == DoubleDollars(s[1..]);
      } else {
        assert t[0] == s[0] && t[1..] == DoubleDollars(s[1..]);
      }
    }
  }

  lemma {:induction false} DoubleAppend(a: string, b: string)
    ensures DoubleDollars(a + b) == DoubleDollars(a) + DoubleDollars(b)
  {
    if a == [] {
      assert a + b == b;
    } else {
      assert (a + b)[0] == a[0] && (a + b)[1..] == a[1..] + b;
      DoubleAppend(a[1..], b);
    }
  }

  lemma {:induction false} NoDollars(s: string)
    requires '$' !in s
    ensures DoubleDollars(s) == s
  {
    if s != [] {
      NoDollars(s[1..]);
    }
  }

  lemma DoubleJsonChar(c: char)
    ensures DoubleDollars(JsonChar(c)) == if c == '$' then ['$', '$'] else JsonChar(c)
  {
    if c == '$' {
      assert JsonChar(c) == ['$'] && ['$'][1..] == [];
      assert DoubleDollars(['$']) == ['$', '$'] + DoubleDollars([]);
    } else {
      NoDollars(JsonChar(c));
    }
  }

  lemma JsonBodyCons(c: char, s: string)
    ensures JsonBody([c] + s) == JsonChar(c) + JsonBody(s)
  {
    assert ([c] + s)[1..] == s;
  }

  lemma JsonDollar(s: string)
    ensures JsonBody(['$'] + s) == ['$'] + JsonBody(s)
  {
    JsonBodyCons('$', s);
  }

  lemma DoubleDollar(s: string)
    ensures DoubleDollars(['$'] + s) == ['$'] + (['$'] + DoubleDollars(s))
  {
    assert (['$'] + s)[1..] == s;
    assert ['$', '$'] + DoubleDollars(s) == ['$'] + (['$'] + DoubleDollars(s));
  }

  lemma DollarCons(body: string, rest: string)
    requires DoubleDollars(body) == JsonBody(rest)
    ensures DoubleDollars(['$'] + body) == JsonBody(['$'] + (['$'] + rest))
  {
    DoubleDollar(body);
    JsonDollar(['$'] + rest);
    JsonDollar(rest);
  }

  lemma PlainCons(c: char, encoded: string, body: string, rest: string)
    requires DoubleDollars(body) == JsonBody(rest) && DoubleDollars(encoded) == encoded && encoded == JsonChar(c)
    ensures DoubleDollars(encoded + body) == JsonBody([c] + rest)
  {
    DoubleAppend(encoded, body);
    JsonBodyCons(c, rest);
  }

  /** Doubling the dollars of the encoding encodes the doubled text. */
  lemma {:induction false} DoubleJson(s: string)
    ensures DoubleDollars(JsonBody(s)) == JsonBody(DoubleDollars(s))
  {
    if s != [] {
      DoubleJson(s[1..]);
      DoubleJsonChar(s[0]);
      if s[0] == '$' {
        DollarCons(JsonBody(s[1..]), DoubleDollars(s[1..]));
        assert ['$', '$'] + DoubleDollars(s[1..]) == ['$'] + (['$'] + DoubleDollars(s[1..]));
      } else {
        PlainCons(s[0], JsonChar(s[0]), JsonBody(s[1..]), DoubleDollars(s[1..]));
      }
    }
  }

  // ------------------------------------------------------------------ quote

  /** `quote` of a string. */
  function Quote(s: string): string {
    DoubleDollars(JsonString(s))
  }

  lemma QuoteForm(s: string)
    ensures Quote(s) == ['"'] + JsonBody(DoubleDollars(s)) + ['"']
  {
    DoubleAppend(['"'] + JsonBody(s), ['"']);
    DoubleAppend(['"'], JsonBody(s));
    NoDollars(['"']);
    DoubleJson(s);
  }

  /** The scalar at the start of a text, read as a JSON reader would, then with `$$` halved. */
  function ReadScalar(t: string): Option<Scanned> {
    if t == [] || t[0] != '"' then None
    else match ScanJson(t[1..])
         case None => None
         case Some(s) => (match HalveDollars(s.text) case None => None case Some(v) => Some(Scanned(v, s.rest)))
  }

  /** Quoting is lossless, leaves no lone dollar, and ends where the scalar ends, whatever follows it. */
  lemma QuoteLossless(s: string, rest: string)
    ensures ReadScalar(Quote(s) + rest) == Some(Scanned(s, rest))
  {
    QuoteForm(s);
    var t := Quote(s) + rest;
    assert t[0] == '"' && t[1..] == JsonBody(DoubleDollars(s)) + ['"'] + rest;
    ScanBody(DoubleDollars(s), rest);
    HalveDouble(s);
  }

  /** The items of a YAML flow sequence, from just after its bracket or a separator. */
  function ReadItems(t: string): Option<seq<string>>
    decreases |t|
  {
    match ReadScalar(t)
    case None => None
    case Some(item) =>
      if |item.rest| >= |t| then None
      else if item.rest == "]" then Some([item.text])
      else if |item.rest| >= 2 && item.rest[0] == ',' && item.rest[1] == ' ' then
        (match ReadItems(item.rest[2..]) case None => None case Some(items) => Some([item.text] + items))
      else None
  }

  function ReadList(t: string): Option<seq<string>> {
    if t == "[]" then Some([]) else if t == [] || t[0] != '[' then None else ReadItems(t[1..])
  }

  function Quoted(items: seq<string>): (quoted: seq<string>)
    ensures |quoted| == |items| && forall i :: 0 <= i < |items| ==> quoted[i] == Quote(items[i])
  {
    seq(|items|, i requires 0 <= i < |items| => Quote(items[i]))
  }

  function JoinComma(parts: seq<string>): string {
    if parts == [] then [] else if |parts| == 1 then parts[0] else parts[0] + ", " + JoinComma(parts[1..])
  }

  function ListText(items: seq<string>): string {
    "[" + JoinComma(Quoted(items)) + "]"
  }

  /** `quoteList`. */
  method QuoteList(items: seq<string>) returns (out: string)
    ensures out == ListText(items)
  {
    var quoted: seq<string> := [];
    for i := 0 to |items|
      invariant |quoted| == i
      invariant forall j :: 0 <= j < i ==> quoted[j] == Quote(items[j])
    {
      quoted := quoted + [Quote(items[i])];
    }
    assert quoted == Quoted(items);
    return "[" + JoinComma(quoted) + "]";
  }

  lemma ReadMore(t: string, item: string, rest: string, items: seq<string>)
    requires ReadScalar(t) == Some(Scanned(item, ", " + rest)) && |rest| + 2 < |t|
    requires ReadItems(rest) == Some(items)
    ensures ReadItems(t) == Some([item] + items)
  {
    var more := ", " + rest;
    assert more[0] == ',' && more[1] == ' ' && more[2..] == rest;
  }

  lemma JoinSplits(items: seq<string>)
    requires |items| > 1
    ensures JoinComma(Quoted(items)) + "]" == Quote(items[0]) + (", " + (JoinComma(Quoted(items[1..])) + "]"))
  {
    assert Quoted(items)[1..] == Quoted(items[1..]);
  }

  lemma QuoteStarts(s: string)
    ensures Quote(s) != [] && Quote(s)[0] == '"'
  {
    QuoteForm(s);
  }

  lemma {:induction false} ReadJoined(items: seq<string>)
    requires items != []
    ensures ReadItems(JoinComma(Quoted(items)) + "]") == Some(items)
  {
    QuoteStarts(items[0]);
    if |items| == 1 {
      QuoteLossless(items[0], "]");
      assert items == [items[0]];
    } else {
      var rest := JoinComma(Quoted(items[1..])) + "]";
      var t := Quote(items[0]) + (", " + rest);
      JoinSplits(items);
      QuoteLossless(items[0], ", " + rest);
      ReadJoined(items[1..]);
      ReadMore(t, items[0], rest, items[1..]);
      assert items == [items[0]] + items[1..];
    }
  }

  lemma {:induction false} JoinStarts(items: seq<string>)
    requires items != []
    ensures JoinComma(Quoted(items)) != [] && JoinComma(Quoted(items))[0] == '"'
  {
    QuoteStarts(items[0]);
  }

  /** A rendered list reads back as the same items. */
  lemma QuoteListLossless(items: seq<string>)
    ensures ReadList(ListText(items)) == Some(items)
  {
    if items == [] {
      assert ListText(items) == "[]";
    } else {
      ReadJoined(items);
      JoinStarts(items);
      var t := ListText(items);
      assert t[0] == '[' && t[1..] == JoinComma(Quoted(items)) + "]" && t[1] == '"';
    }
  }

  // ------------------------------------------------------------------- OTTL

  function OttlBody(s: string): string {
    if s == [] then [] else OttlBody(s[..|s| - 1]) + OttlChar(s[|s| - 1])
  }

  function OttlChar(c: char): string {
    if c == '"' || c == '\\' then ['\\', c] else [c]
  }

  /** `ottlString`. */
  method OttlString(s: string) returns (out: string)
    ensures out == ['"'] + OttlBody(s) + ['"']
  {
    out := ['"'];
    for i := 0 to |s|
      invariant out == ['"'] + OttlBody(s[..i])
    {
      assert s[..i + 1][..i] == s[..i];
      if s[i] == '"' || s[i] == '\\' {
        out := out + ['\\', s[i]];
      } else {
        out := out + [s[i]];
      }
    }
    assert s[..|s|] == s;
    out := out + ['"'];
  }

  /** An OTTL reader from just inside the opening quote; a line break has no place in a literal. */
  function ScanOttl(t: string): Option<Scanned>
    decreases |t|
  {
    if t == [] || t[0] == '\n' then None
    else if t[0] == '"' then Some(Scanned([], t[1..]))
    else if t[0] != '\\' then Before(t[0], ScanOttl(t[1..]))
    else if |t| >= 2 && (t[1] == '"' || t[1] == '\\') then Before(t[1], ScanOttl(t[2..]))
    else None
  }

  function AndThen(s: string, rest: Option<Scanned>): Option<Scanned> {
    match rest
    case None => None
    case Some(r) => Some(Scanned(s + r.text, r.rest))
  }

  lemma ScanOttlChar(c: char, t: string)
    ensures ScanOttl(OttlChar(c) + t) == if c == '\n' then None else Before(c, ScanOttl(t))
  {
    var u := OttlChar(c) + t;
    assert u[0] == OttlChar(c)[0] && u[|OttlChar(c)|..] == t;
    assert |OttlChar(c)| == 2 ==> u[1] == c;
  }

  lemma OttlSplits(front: string, c: char, t: string)
    ensures OttlBody(front + [c]) + t == OttlBody(front) + (OttlChar(c) + t)
  {
    assert (front + [c])[..|front|] == front;
  }

  lemma AndThenBefore(front: string, c: char, rest: Option<Scanned>)
    ensures AndThen(front, Before(c, rest)) == AndThen(front + [c], rest)
  {
    if rest.Some? {
      assert front + ([c] + rest.value.text) == front + [c] + rest.value.text;
    }
  }

  lemma {:induction false} ScanOttlBody(s: string, t: string)
    ensures '\n' !in s ==> ScanOttl(OttlBody(s) + t) == AndThen(s, ScanOttl(t))
    ensures '\n' in s ==> ScanOttl(OttlBody(s) + t) == None
    decreases |s|
  {
    if s == [] {
      assert OttlBody(s) + t == t;
      if ScanOttl(t).Some? {
        assert s + ScanOttl(t).value.text == ScanOttl(t).value.text;
      }
    } else {
      var front, c := s[..|s| - 1], s[|s| - 1];
      assert s == front + [c];
      ScanOttlBody(front, OttlChar(c) + t);
      ScanOttlChar(c, t);
      OttlSplits(front, c, t);
      AndThenBefore(front, c, ScanOttl(t));
    }
  }

  /**
   The literal reads back as the text and ends at its own closing quote, whatever follows,
   exactly when the text has no line break. The settings that become literals allow none.
   */
  lemma OttlLosslessIff(s: string, rest: string)
    ensures ScanOttl(OttlBody(s) + ['"'] + rest) == Some(Scanned(s, rest)) <==> '\n' !in s
  {
    var t := ['"'] + rest;
    assert OttlBody(s) + ['"'] + rest == OttlBody(s) + t;
    assert t[0] == '"' && t[1..] == rest;
    ScanOttlBody(s, t);
    assert s + [] == s;
  }

  lemma AfterQuote(before: string, literal: string, after: string)
    ensures (before + ['"'] + literal + after)[|before| + 1..] == literal + after
  {
  }

  /** A literal inside a quoted statement survives both layers. */
  lemma NestedLossless(before: string, s: string, after: string, rest: string)
    requires '\n' !in s
    ensures var statement := before + ['"'] + (OttlBody(s) + ['"']) + after;
            && ReadScalar(Quote(statement) + rest) == Some(Scanned(statement, rest))
            && ScanOttl(statement[|before| + 1..]) == Some(Scanned(s, after))
  {
    QuoteLossless(before + ['"'] + (OttlBody(s) + ['"']) + after, rest);
    AfterQuote(before, OttlBody(s) + ['"'], after);
    OttlLosslessIff(s, after);
  }

  // ------------------------------------------------------------------- gRPC

  function MessageByte(c: Text.Byte): Text.Bytes {
    if c < ' ' || c > '~' || c == '%' then Text.Percent(c) else [c]
  }

  function EncodedMessage(msg: Text.Bytes): Text.Bytes {
    if msg == [] then [] else MessageByte(msg[0]) + EncodedMessage(msg[1..])
  }

  lemma EncodedStep(msg: Text.Bytes, i: nat, out: Text.Bytes, written: Text.Bytes)
    requires i < |msg| && written == MessageByte(msg[i])
    ensures out + written + EncodedMessage(msg[i + 1..]) == out + EncodedMessage(msg[i..])
  {
    assert msg[i..][0] == msg[i] && msg[i..][1..] == msg[i + 1..];
    assert EncodedMessage(msg[i..]) == written + EncodedMessage(msg[i + 1..]);
  }

  /** `encodeGRPCMessage`. */
  method EncodeGRPCMessage(msg: Text.Bytes) returns (out: Text.Bytes)
    ensures out == EncodedMessage(msg)
  {
    out := [];
    for i := 0 to |msg|
      invariant out + EncodedMessage(msg[i..]) == EncodedMessage(msg)
    {
      var c := msg[i];
      var written: Text.Bytes := [c];
      if c < ' ' || c > '~' || c == '%' {
        written := Text.Percent(c);
      }
      EncodedStep(msg, i, out, written);
      out := out + written;
    }
    assert msg[|msg|..] == [];
  }

  lemma MessageByteDecodes(c: Text.Byte, rest: Text.Bytes)
    ensures Text.Unescape(MessageByte(c) + rest, Text.Path) == Text.Prepend(c, Text.Unescape(rest, Text.Path))
  {
    if |MessageByte(c)| == 1 {
      var t := MessageByte(c) + rest;
      assert t[0] == c && t[1..] == rest;
    } else {
      Text.UnescapePercent(c, rest, Text.Path);
    }
  }

  lemma MessageByteAlphabet(c: Text.Byte, d: char)
    requires d in MessageByte(c)
    ensures ' ' <= d <= '~'
  {
  }

  /** A gRPC message decodes to its input and is printable ASCII, whatever bytes it holds. */
  lemma {:induction false} GRPCMessageLossless(msg: Text.Bytes)
    ensures Text.Unescape(EncodedMessage(msg), Text.Path) == Some(msg)
    ensures forall c :: c in EncodedMessage(msg) ==> ' ' <= c <= '~'
  {
    if msg != [] {
      GRPCMessageLossless(msg[1..]);
      MessageByteDecodes(msg[0], EncodedMessage(msg[1..]));
      assert [msg[0]] + msg[1..] == msg;
      forall c | c in EncodedMessage(msg) ensures ' ' <= c <= '~' {
        if c in MessageByte(msg[0]) {
          MessageByteAlphabet(msg[0], c);
        }
      }
    }
  }

  /** Printable text without a percent sign is sent as it is. */
  lemma {:induction false} GRPCMessagePlain(msg: Text.Bytes)
    requires forall i :: 0 <= i < |msg| ==> ' ' <= msg[i] <= '~' && msg[i] != '%'
    ensures EncodedMessage(msg) == msg
  {
    if msg != [] {
      GRPCMessagePlain(msg[1..]);
      assert [msg[0]] + msg[1..] == msg;
    }
  }
}
