/**
 * JSON text (libfreenect/fakenect/parson.c): the text that the serializer produces for a value,
 * and the value that the parser reads from a text. The parser's pointer is the rest of the input;
 * at its end the code reads the terminator.
 */
module JsonText {
  import opened JsonUtf8
  import opened Options

  datatype Json =
    | Null
    | Bool(b: bool)
    | Number(n: int)
    | String(s: string)
    | Array(items: seq<Json>)
    | Object(members: seq<Member>)

  datatype Member = Member(name: string, value: Json)

  const MAX_NESTING := 2048

  predicate HasName(ms: seq<Member>, name: string) {
    exists i :: 0 <= i < |ms| && ms[i].name == name
  }

  /** `json_object_get_value`: the value of the first member of that name. */
  function Lookup(ms: seq<Member>, name: string): Option<Json> {
    if ms == [] then None else if ms[0].name == name then Some(ms[0].value) else Lookup(ms[1..], name)
  }

  // ---------------------------------------------------------------- serialization

  function Digits(n: nat): (r: string)
    ensures r != ""
  {
    if n < 10 then [Digit(n)] else Digits(n / 10) + [Digit(n % 10)]
  }

  function Digit(n: nat): char
    requires n < 10
  {
    (n + '0' as int) as char
  }

  /** What `%1.17g` prints for an integer below 10^17. */
  function PrintInt(n: int): string {
    if n < 0 then "-" + Digits(-n) else Digits(n)
  }

  function HexDigit(n: nat): char
    requires n < 16
  {
    if n < 10 then (n + '0' as int) as char else (n - 10 + 'a' as int) as char
  }

  /** What one character of a string becomes. */
  function EscapeChar(c: char): string {
    if c == '"' then "\\\""
    else if c == '\\' then "\\\\"
    else if c == '/' then "\\/"
    else if c == 8 as char then "\\b"
    else if c == 12 as char then "\\f"
    else if c == '\n' then "\\n"
    else if c == '\r' then "\\r"
    else if c == '\t' then "\\t"
    else if c as int < 0x20 then "\\u00" + [HexDigit(c as int / 16), HexDigit(c as int % 16)]
    else [c]
  }

  function Escaped(s: string): string {
    if s == "" then "" else EscapeChar(s[0]) + Escaped(s[1..])
  }

  function Quoted(s: string): string {
    "\"" + Escaped(s) + "\""
  }

  function Indent(level: nat, pretty: bool): string {
    if !pretty || level == 0 then "" else "    " + Indent(level - 1, pretty)
  }

  function NewLine(pretty: bool): string {
    if pretty then "\n" else ""
  }

  /** The text of a value, compact or pretty. */
  function Text(v: Json, level: nat, pretty: bool): string
    decreases v
  {
    match v
    case Null => "null"
    case Bool(b) => if b then "true" else "false"
    case Number(n) => PrintInt(n)
    case String(s) => Quoted(s)
    case Array(items) =>
      if items == [] then "[]" else "[" + NewLine(pretty) + ItemsText(items, level, pretty)
    case Object(members) =>
      if members == [] then "{}" else "{" + NewLine(pretty) + MembersText(members, level, pretty)
  }

  /** What is left to write of an array before its item `items[0]`. */
  function ItemsText(items: seq<Json>, level: nat, pretty: bool): string
    requires items != []
    decreases items
  {
    Indent(level + 1, pretty) + Text(items[0], level + 1, pretty) +
    if |items| > 1 then "," + NewLine(pretty) + ItemsText(items[1..], level, pretty)
    else NewLine(pretty) + Indent(level, pretty) + "]"
  }

  function Colon(pretty: bool): string {
    if pretty then ": " else ":"
  }

  function MembersText(ms: seq<Member>, level: nat, pretty: bool): string
    requires ms != []
    decreases ms
  {
    Indent(level + 1, pretty) + Quoted(ms[0].name) + Colon(pretty) + Text(ms[0].value, level + 1, pretty) +
    if |ms| > 1 then "," + NewLine(pretty) + MembersText(ms[1..], level, pretty)
    else NewLine(pretty) + Indent(level, pretty) + "}"
  }

  // ---------------------------------------------------------------- parsing

  /** What a parsing function returns: a value and the rest of the input, or failure (NULL).
      `Unmodelled` stands for numbers that are not integers of the model. */
  datatype Parsed = Ok(value: Json, rest: string) | Fail | Unmodelled

  /** `isspace` in the C locale. */
  predicate IsSpace(c: char) {
    c == ' ' || 9 <= c as int <= 13
  }

  function SkipSpace(s: string): (r: string)
    ensures |r| <= |s|
  {
    if s != "" && IsSpace(s[0]) then SkipSpace(s[1..]) else s
  }

  /** `skip_quotes`, after the opening quote: how many characters precede the closing one. */
  function SkipBody(s: string): (r: Option<nat>)
    ensures r.Some? ==> r.value < |s|
  {
    if s == "" || s[0] == NUL then None
    else if s[0] == '"' then Some(0)
    else if s[0] == '\\' then
      if Peek(s, 1) == NUL then None
      else match SkipBody(s[2..]) case None => None case Some(k) => Some(k + 2)
    else match SkipBody(s[1..]) case None => None case Some(k) => Some(k + 1)
  }

  function Unescape(c: char): Option<char> {
    if c == '"' || c == '\\' || c == '/' then Some(c)
    else if c == 'b' then Some(8 as char)
    else if c == 'f' then Some(12 as char)
    else if c == 'n' then Some('\n')
    else if c == 'r' then Some('\r')
    else if c == 't' then Some('\t')
    else None
  }

  function Prepend(p: string, r: Option<string>): Option<string> {
    if r.None? then None else Some(p + r.value)
  }

  /** `process_string`: `len` is what is left of the length. */
  function Process(s: string, len: int): Option<string>
    decreases |s|
  {
    if len <= 0 || s == "" || s[0] == NUL then Some("")
    else if s[0] == '\\' then
      var c := Peek(s, 1);
      if Unescape(c).Some? then Prepend([Unescape(c).value], Process(s[2..], len - 2))
      else if c == 'u' then
        var e := ParseUtf16(s[2..]);
        if e.None? then None
        else Prepend(Store(e.value.cp), Process(s[2 + e.value.used..], len - 2 - e.value.used))
      else None
    else if s[0] as int < 0x20 then None
    else Prepend([s[0]], Process(s[1..], len - 1))
  }

  /** The string that a C string function sees: up to the first terminator. */
  function CStr(s: string): string {
    if s == "" || s[0] == NUL then "" else [s[0]] + CStr(s[1..])
  }

  datatype Quote = Quote(text: string, rest: string)

  /** `get_quoted_string`, and what its users see of the result. */
  function QuotedString(s: string): (r: Option<Quote>)
    ensures r.Some? ==> |r.value.rest| < |s|
  {
    if Peek(s, 0) != '"' then None
    else match SkipBody(s[1..])
      case None => None
      case Some(k) =>
        match Process(s[1..], k)
        case None => None
        case Some(text) => Some(Quote(CStr(text), s[1..][k + 1..]))
  }

  predicate IsDigit(c: char) {
    '0' <= c <= '9'
  }

  /** How many digits a text starts with. */
  function CountDigits(s: string): (r: nat)
    ensures r <= |s|
  {
    if s != "" && IsDigit(s[0]) then 1 + CountDigits(s[1..]) else 0
  }

  function DigitsValue(s: string): int {
    if s == "" then 0 else DigitsValue(s[..|s| - 1]) * 10 + (s[|s| - 1] as int - '0' as int)
  }

  /** The integers of the model: those a double holds exactly and `%1.17g` prints as plain digits. */
  predicate IsNumber(n: int) {
    && -100000000000000000 < n < 100000000000000000
    && (-9007199254740992 <= n <= 9007199254740992
        || (n % 2 == 0 && -9007199254740992 <= n / 2 <= 9007199254740992)
        || (n % 4 == 0 && -9007199254740992 <= n / 4 <= 9007199254740992)
        || (n % 8 == 0 && -9007199254740992 <= n / 8 <= 9007199254740992)
        || (n % 16 == 0 && -9007199254740992 <= n / 16 <= 9007199254740992))
  }

  /** What may follow the digits and belong to the same number. */
  predicate Extends(digits: string, next: char) {
    next == '.' || next == 'e' || next == 'E' || (digits == "0" && (next == 'x' || next == 'X'))
  }

  /** `parse_number_value`: a sign without digits converts nothing and yields 0; "-0" is no integer. */
  function ParseNumber(s: string): (r: Parsed)
    requires s != "" && (s[0] == '-' || IsDigit(s[0]))
    ensures r.Ok? ==> |r.rest| <= |s|
  {
    var negative := s[0] == '-';
    var t := if negative then s[1..] else s;
    var k := CountDigits(t);
    if k == 0 then
      if Peek(t, 0) in ".iInN" then Unmodelled else Ok(Number(0), s)
    else if Extends(t[..k], Peek(t, k)) then Unmodelled
    else if k > 1 && t[0] == '0' then Fail
    else
      var n := if negative then -DigitsValue(t[..k]) else DigitsValue(t[..k]);
      if IsNumber(n) && !(negative && n == 0) then Ok(Number(n), t[k..]) else Unmodelled
  }

  predicate StartsWith(token: string, s: string) {
    |token| <= |s| && s[..|token|] == token
  }

  function ParseToken(token: string, value: Json, s: string): (r: Parsed)
    ensures r.Ok? ==> |r.rest| <= |s|
  {
    if StartsWith(token, s) then Ok(value, s[|token|..]) else Fail
  }

  /** `parse_value`. */
  function ParseValue(s: string, nesting: nat): (r: Parsed)
    ensures r.Ok? ==> |r.rest| <= |s|
    decreases |s|, 2
  {
    if nesting > MAX_NESTING then Fail
    else
      var t := SkipSpace(s);
      var c := Peek(t, 0);
      if c == '{' then ParseObject(t, nesting + 1)
      else if c == '[' then ParseArray(t, nesting + 1)
      else if c == '"' then
        match QuotedString(t)
        case None => Fail
        case Some(q) => Ok(String(q.text), q.rest)
      else if c == 't' then ParseToken("true", Bool(true), t)
      else if c == 'f' then ParseToken("false", Bool(false), t)
      else if c == '-' || IsDigit(c) then ParseNumber(t)
      else if c == 'n' then ParseToken("null", Null, t)
      else Fail
  }

  /** `parse_array_value`. */
  function ParseArray(s: string, nesting: nat): (r: Parsed)
    requires s != "" && s[0] == '['
    ensures r.Ok? ==> |r.rest| <= |s|
    decreases |s|, 1
  {
    var t := SkipSpace(s[1..]);
    if Peek(t, 0) == ']' then Ok(Array([]), t[1..]) else ParseItems(t, nesting, [])
  }

  /** The loop over the items; `acc` are those added so far. */
  function ParseItems(s: string, nesting: nat, acc: seq<Json>): (r: Parsed)
    ensures r.Ok? ==> |r.rest| <= |s|
    decreases |s|, 3
  {
    if Peek(s, 0) == NUL then CloseArray(s, acc)
    else match ParseValue(s, nesting)
      case Fail => Fail
      case Unmodelled => Unmodelled
      case Ok(v, rest) =>
        var t := SkipSpace(rest);
        if Peek(t, 0) == ',' then ParseItems(SkipSpace(t[1..]), nesting, acc + [v])
        else CloseArray(t, acc + [v])
  }

  /** The closing bracket; trimming an array without items fails. */
  function CloseArray(s: string, acc: seq<Json>): (r: Parsed)
    ensures r.Ok? ==> |r.rest| <= |s|
  {
    var t := SkipSpace(s);
    if Peek(t, 0) == ']' && acc != [] then Ok(Array(acc), t[1..]) else Fail
  }

  /** `parse_object_value`. */
  function ParseObject(s: string, nesting: nat): (r: Parsed)
    requires s != "" && s[0] == '{'
    ensures r.Ok? ==> |r.rest| <= |s|
    decreases |s|, 1
  {
    var t := SkipSpace(s[1..]);
    if Peek(t, 0) == '}' then Ok(Object([]), t[1..]) else ParseMembers(t, nesting, [])
  }

  function ParseMembers(s: string, nesting: nat, acc: seq<Member>): (r: Parsed)
    ensures r.Ok? ==> |r.rest| <= |s|
    decreases |s|, 3
  {
    if Peek(s, 0) == NUL then CloseObject(s, acc)
    else match QuotedString(s)
      case None => Fail
      case Some(q) =>
        var t := SkipSpace(q.rest);
        if Peek(t, 0) != ':' then Fail
        else match ParseValue(t[1..], nesting)
          case Fail => Fail
          case Unmodelled => Unmodelled
          case Ok(v, rest) =>
            if HasName(acc, q.text) then Fail
            else
              var u := SkipSpace(rest);
              if Peek(u, 0) == ',' then ParseMembers(SkipSpace(u[1..]), nesting, acc + [Member(q.text, v)])
              else CloseObject(u, acc + [Member(q.text, v)])
  }

  function CloseObject(s: string, acc: seq<Member>): (r: Parsed)
    ensures r.Ok? ==> |r.rest| <= |s|
  {
    var t := SkipSpace(s);
    if Peek(t, 0) == '}' && acc != [] then Ok(Object(acc), t[1..]) else Fail
  }

  const BOM: string := [0xEF as char, 0xBB as char, 0xBF as char]

  /** `json_parse_string`: the text after the value is ignored. */
  function ParseString(s: string): Parsed {
    ParseValue(if StartsWith(BOM, s) then s[3..] else s, 0)
  }
}
