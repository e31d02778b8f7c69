/**
 * Printing and parsing undo each other: for every value that the model's numbers and C strings can
 * hold, the parser reads the serialized text back, compact or pretty, and stops right after it.
 */
module JsonRoundTrip {
  import opened JsonUtf8
  import opened JsonText
  import opened Options

  // ---------------------------------------------------------------- values

  /** A string that a C string can hold. */
  ghost predicate NulFree(s: string) {
    forall i :: 0 <= i < |s| ==> s[i] != NUL
  }

  ghost predicate DistinctNames(ms: seq<Member>) {
    forall i, j :: 0 <= i < j < |ms| ==> ms[i].name != ms[j].name
  }

  /** With distinct names, each member is found under its own name. */
  lemma {:induction false} LookupOwn(ms: seq<Member>, i: nat)
    requires i < |ms| && DistinctNames(ms)
    ensures Lookup(ms, ms[i].name) == Some(ms[i].value)
  {
    if i > 0 {
      LookupOwn(ms[1..], i - 1);
    }
  }

  ghost predicate WellFormed(v: Json)
    decreases v
  {
    match v
    case Number(n) => IsNumber(n)
    case String(s) => NulFree(s)
    case Array(items) => forall i :: 0 <= i < |items| ==> WellFormed(items[i])
    case Object(ms) =>
      DistinctNames(ms) && forall i :: 0 <= i < |ms| ==> NulFree(ms[i].name) && WellFormed(ms[i].value)
    case _ => true
  }

  /** How many levels of nonempty containers are nested below the top. */
  function Height(v: Json): nat
    decreases v
  {
    match v
    case Array(items) => if items == [] then 0 else 1 + ItemsHeight(items)
    case Object(ms) => if ms == [] then 0 else 1 + MembersHeight(ms)
    case _ => 0
  }

  function Max(a: nat, b: nat): nat {
    if a < b then b else a
  }

  function ItemsHeight(items: seq<Json>): nat
    decreases items
  {
    if items == [] then 0 else Max(Height(items[0]), ItemsHeight(items[1..]))
  }

  function MembersHeight(ms: seq<Member>): nat
    decreases ms
  {
    if ms == [] then 0 else Max(Height(ms[0].value), MembersHeight(ms[1..]))
  }

  // ---------------------------------------------------------------- white space

  ghost predicate AllSpace(s: string) {
    forall i :: 0 <= i < |s| ==> IsSpace(s[i])
  }

  lemma {:induction false} SkipsSpace(w: string, t: string)
    requires AllSpace(w) && !IsSpace(Peek(t, 0))
    ensures SkipSpace(w + t) == t
  {
    if w != "" {
      assert (w + t)[1..] == w[1..] + t;
      SkipsSpace(w[1..], t);
    } else {
      assert w + t == t;
    }
  }

  lemma {:induction false} IndentIsSpace(level: nat, pretty: bool)
    ensures AllSpace(Indent(level, pretty))
  {
    if pretty && level > 0 {
      IndentIsSpace(level - 1, pretty);
    }
  }

  // ---------------------------------------------------------------- strings

  lemma Regroup(a: string, b: string, c: string, d: string)
    ensures a + b + c + d == a + (b + c + d)
    ensures b + c + d == b + (c + d)
  {
  }

  /** What reading the escape of `c` before `t` amounts to, for the quote search and the decoder. */
  ghost predicate ReadsChar(c: char, t: string) {
    var s := EscapeChar(c) + t;
    && (SkipBody(t).Some? ==> SkipBody(s) == Some(SkipBody(t).value + |EscapeChar(c)|))
    && forall n: nat :: Process(s, |EscapeChar(c)| + n) == Prepend([c], Process(t, n))
  }

  /** One escaped character is one step for the quote search, and that character for the decoder. */
  lemma EscapeCharStep(c: char, t: string)
    requires c != NUL
    ensures ReadsChar(c, t)
  {
    if |EscapeChar(c)| == 1 {
      OneCharStep(c, t);
    } else if |EscapeChar(c)| == 2 {
      TwoCharStep(c, t);
    } else {
      ControlStep(c, t);
    }
  }

  lemma OneCharStep(c: char, t: string)
    requires c as int >= 0x20 && c != '"' && c != '\\' && c != '/'
    ensures ReadsChar(c, t)
  {
    var s := [c] + t;
    assert s[1..] == t && s[0] == c;
  }

  lemma TwoCharStep(c: char, t: string)
    requires |EscapeChar(c)| == 2
    ensures ReadsChar(c, t)
  {
    var s := EscapeChar(c) + t;
    assert s[2..] == t && s[0] == '\\' && s[1] == EscapeChar(c)[1];
    assert Unescape(Peek(s, 1)) == Some(c);
  }

  lemma PlainStep(c: char, t: string)
    requires c != NUL && c != '"' && c != '\\' && SkipBody(t).Some?
    ensures SkipBody([c] + t) == Some(SkipBody(t).value + 1)
  {
    hide SkipBody;
    FirstOfText(c, t, [c] + t);
    SkipsPlain([c] + t);
  }

  lemma SkipsPlain(s: string)
    requires s != "" && s[0] != NUL && s[0] != '"' && s[0] != '\\' && SkipBody(s[1..]).Some?
    ensures SkipBody(s) == Some(SkipBody(s[1..]).value + 1)
  {
  }

  lemma FirstOfText(c: char, t: string, s: string)
    requires s == [c] + t
    ensures s != "" && s[0] == c && s[1..] == t
  {
  }

  /** The escapes \u0001 to \u001f. */
  lemma ControlStep(c: char, t: string)
    requires |EscapeChar(c)| == 6
    ensures ReadsChar(c, t)
  {
    var h, l := HexDigit(c as int / 16), HexDigit(c as int % 16);
    var tail := ['0'] + (['0'] + ([h] + ([l] + t)));
    ControlText(c, t, tail);
    HexDigits(c as int);
    DecodesControl(c, h, l, t);
    if SkipBody(t).Some? {
      SkipsFour(h, l, t);
    }
    ReadsEscape(c, EscapeChar(c) + t, tail, t);
  }

  lemma ControlText(c: char, t: string, tail: string)
    requires |EscapeChar(c)| == 6
    requires tail == ['0'] + (['0'] + ([HexDigit(c as int / 16)] + ([HexDigit(c as int % 16)] + t)))
    ensures c as int < 0x20 && EscapeChar(c) + t == "\\u" + tail && tail[4..] == t
  {
  }

  lemma ReadsEscape(c: char, s: string, tail: string, t: string)
    requires s == "\\u" + tail && |tail| >= 4 && tail[4..] == t
    requires ParseUtf16(tail) == Some(Escape(c as int, 4)) && Store(c as int) == [c]
    ensures SkipBody(tail).Some? ==> SkipBody(s) == Some(SkipBody(tail).value + 2)
    ensures forall n: nat :: Process(s, 6 + n) == Prepend([c], Process(t, n))
  {
    assert s[2..] == tail && s[2 + 4..] == t;
  }

  lemma SkipsFour(h: char, l: char, t: string)
    requires h as int > 0x20 && l as int > 0x20 && h != '"' && l != '"' && h != '\\' && l != '\\'
    requires SkipBody(t).Some?
    ensures SkipBody(['0'] + (['0'] + ([h] + ([l] + t)))) == Some(SkipBody(t).value + 4)
  {
    hide SkipBody;
    PlainStep(l, t);
    PlainStep(h, [l] + t);
    PlainStep('0', [h] + ([l] + t));
    PlainStep('0', ['0'] + ([h] + ([l] + t)));
  }

  lemma DecodesControl(c: char, h: char, l: char, t: string)
    requires c as int < 0x20
    requires HexChar(h) == c as int / 16 && HexChar(l) == c as int % 16
    ensures ParseUtf16(['0'] + (['0'] + ([h] + ([l] + t)))) == Some(Escape(c as int, 4))
    ensures Store(c as int) == [c]
  {
    var tail := ['0'] + (['0'] + ([h] + ([l] + t)));
    assert Peek(tail, 0) == '0' && Peek(tail, 1) == '0' && Peek(tail, 2) == h && Peek(tail, 3) == l;
    assert Hex4(tail) == Some(c as int);
  }

  lemma HexDigits(n: nat)
    requires n < 0x100
    ensures HexChar(HexDigit(n / 16)) == n / 16 && HexChar(HexDigit(n % 16)) == n % 16
  {
  }

  /** Up to the closing quote. */
  function UpToQuote(s: string, rest: string): string {
    Escaped(s) + "\"" + rest
  }

  lemma UpToQuoteStep(s: string, rest: string)
    requires s != ""
    ensures UpToQuote(s, rest) == EscapeChar(s[0]) + UpToQuote(s[1..], rest)
    ensures |Escaped(s)| == |EscapeChar(s[0])| + |Escaped(s[1..])|
  {
    assert Escaped(s) == EscapeChar(s[0]) + Escaped(s[1..]);
    Regroup(EscapeChar(s[0]), Escaped(s[1..]), "\"", rest);
  }

  lemma {:induction false} EscapedRoundTrip(s: string, rest: string)
    requires NulFree(s)
    ensures SkipBody(UpToQuote(s, rest)) == Some(|Escaped(s)|)
    ensures Process(UpToQuote(s, rest), |Escaped(s)|) == Some(s)
  {
    hide SkipBody, Process, EscapeChar;
    if s == "" {
      QuoteRoundTrip(rest);
    } else {
      var t := UpToQuote(s[1..], rest);
      EscapedRoundTrip(s[1..], rest);
      UpToQuoteStep(s, rest);
      ReadsEscaped(s[0], t, |Escaped(s[1..])|);
      assert [s[0]] + s[1..] == s;
    }
  }

  lemma QuoteRoundTrip(rest: string)
    ensures SkipBody(UpToQuote("", rest)) == Some(0)
    ensures Process(UpToQuote("", rest), 0) == Some("")
  {
  }

  lemma ReadsEscaped(c: char, t: string, n: nat)
    requires c != NUL && SkipBody(t) == Some(n)
    ensures SkipBody(EscapeChar(c) + t) == Some(|EscapeChar(c)| + n)
    ensures Process(EscapeChar(c) + t, |EscapeChar(c)| + n) == Prepend([c], Process(t, n))
  {
    EscapeCharStep(c, t);
  }

  lemma {:induction false} CStrOfNulFree(s: string)
    requires NulFree(s)
    ensures CStr(s) == s
  {
    if s != "" {
      CStrOfNulFree(s[1..]);
    }
  }

  lemma QuotedRoundTrip(s: string, rest: string)
    requires NulFree(s)
    ensures QuotedString(Quoted(s) + rest) == Some(Quote(s, rest))
  {
    var t := Quoted(s) + rest;
    assert t[1..] == UpToQuote(s, rest);
    EscapedRoundTrip(s, rest);
    CStrOfNulFree(s);
    assert t[1..][|Escaped(s)| + 1..] == rest;
  }

  // ---------------------------------------------------------------- numbers

  lemma {:induction false} DigitsAreDigits(n: nat)
    ensures forall i :: 0 <= i < |Digits(n)| ==> IsDigit(Digits(n)[i])
    ensures Digits(n)[0] == '0' ==> n == 0
    ensures n < 10 ==> |Digits(n)| == 1
    ensures DigitsValue(Digits(n)) == n
  {
    if n >= 10 {
      DigitsAreDigits(n / 10);
      var d := Digits(n);
      assert d[..|d| - 1] == Digits(n / 10);
    } else {
      assert Digits(n)[..0] == "";
    }
  }

  lemma {:induction false} CountsDigits(d: string, t: string)
    requires forall i :: 0 <= i < |d| ==> IsDigit(d[i])
    requires !IsDigit(Peek(t, 0))
    ensures CountDigits(d + t) == |d|
  {
    if d == "" {
      assert d + t == t;
    } else {
      assert (d + t)[1..] == d[1..] + t;
      CountsDigits(d[1..], t);
    }
  }

  /** After the digits of a number the text goes on with something that ends it. */
  ghost predicate Stops(v: Json, rest: string) {
    v.Number? ==>
      !IsDigit(Peek(rest, 0)) && !Extends(Digits(if v.n < 0 then -v.n else v.n), Peek(rest, 0))
  }

  /** Where a run of digits ends. */
  lemma DigitsEnd(d: string, rest: string)
    ensures var t := d + rest; t[..|d|] == d && t[|d|..] == rest && Peek(t, |d|) == Peek(rest, 0)
    ensures ("-" + d + rest)[1..] == d + rest
  {
  }

  lemma NumberRoundTrip(n: int, rest: string)
    requires IsNumber(n) && Stops(Number(n), rest)
    ensures var s := PrintInt(n) + rest;
      (s[0] == '-' || IsDigit(s[0])) && ParseNumber(s) == Ok(Number(n), rest)
  {
    var d := Digits(if n < 0 then -n else n);
    DigitsAreDigits(if n < 0 then -n else n);
    CountsDigits(d, rest);
    DigitsEnd(d, rest);
    assert d[0] == (d + rest)[0];
  }

  // ---------------------------------------------------------------- values

  /** A character that no value starts with. */
  predicate Separator(c: char) {
    c == NUL || IsSpace(c) || c == ',' || c == ']' || c == '}'
  }

  lemma TextStarts(v: Json, level: nat, pretty: bool)
    ensures Text(v, level, pretty) != "" && !Separator(Text(v, level, pretty)[0])
    ensures Text(v, level, pretty)[0] as int < 0x80
  {
    if v.Number? {
      DigitsAreDigits(if v.n < 0 then -v.n else v.n);
    }
  }

  /** What follows an item: a comma and the next items, or the end of the array. */
  function AfterItem(items: seq<Json>, level: nat, pretty: bool): string
    requires items != []
  {
    if |items| > 1 then "," + NewLine(pretty) + ItemsText(items[1..], level, pretty)
    else NewLine(pretty) + Indent(level, pretty) + "]"
  }

  function AfterMember(ms: seq<Member>, level: nat, pretty: bool): string
    requires ms != []
  {
    if |ms| > 1 then "," + NewLine(pretty) + MembersText(ms[1..], level, pretty)
    else NewLine(pretty) + Indent(level, pretty) + "}"
  }

  /** The text from a value on, and from a name on. */
  function FromItem(items: seq<Json>, level: nat, pretty: bool, rest: string): string
    requires items != []
  {
    Text(items[0], level + 1, pretty) + (AfterItem(items, level, pretty) + rest)
  }

  function FromName(ms: seq<Member>, level: nat, pretty: bool, rest: string): string
    requires ms != []
  {
    Quoted(ms[0].name) + (Colon(pretty) + FromValue(ms, level, pretty, rest))
  }

  function FromValue(ms: seq<Member>, level: nat, pretty: bool, rest: string): string
    requires ms != []
  {
    Text(ms[0].value, level + 1, pretty) + (AfterMember(ms, level, pretty) + rest)
  }

  lemma NewLineIsSpace(pretty: bool)
    ensures AllSpace(NewLine(pretty))
  {
  }

  /** The white space before a piece of text is skipped. */
  lemma SkipsTo(newLine: string, indent: string, first: string, after: string, rest: string)
    requires AllSpace(newLine) && AllSpace(indent)
    requires first != "" && !IsSpace(first[0])
    ensures SkipSpace(newLine + (indent + first + after) + rest) == first + (after + rest)
  {
    var t := first + (after + rest);
    SkipsSpace(newLine + indent, t);
    assert newLine + (indent + first + after) + rest == newLine + indent + t;
  }

  lemma ItemsSplit(items: seq<Json>, level: nat, pretty: bool)
    requires items != []
    ensures ItemsText(items, level, pretty)
         == Indent(level + 1, pretty) + Text(items[0], level + 1, pretty) + AfterItem(items, level, pretty)
  {
  }

  lemma SkipsToItem(items: seq<Json>, level: nat, pretty: bool, rest: string)
    requires items != []
    ensures SkipSpace(NewLine(pretty) + ItemsText(items, level, pretty) + rest) == FromItem(items, level, pretty, rest)
    ensures FromItem(items, level, pretty, rest) != "" && !Separator(FromItem(items, level, pretty, rest)[0])
  {
    ItemsSplit(items, level, pretty);
    TextStarts(items[0], level + 1, pretty);
    NewLineIsSpace(pretty);
    IndentIsSpace(level + 1, pretty);
    SkipsTo(NewLine(pretty), Indent(level + 1, pretty), Text(items[0], level + 1, pretty),
            AfterItem(items, level, pretty), rest);
  }

  lemma MembersSplit(ms: seq<Member>, level: nat, pretty: bool)
    requires ms != []
    ensures MembersText(ms, level, pretty)
         == Indent(level + 1, pretty) + Quoted(ms[0].name)
            + (Colon(pretty) + Text(ms[0].value, level + 1, pretty) + AfterMember(ms, level, pretty))
  {
    Regroup(Indent(level + 1, pretty) + Quoted(ms[0].name), Colon(pretty),
            Text(ms[0].value, level + 1, pretty), AfterMember(ms, level, pretty));
  }

  lemma SkipsToName(ms: seq<Member>, level: nat, pretty: bool, rest: string)
    requires ms != []
    ensures SkipSpace(NewLine(pretty) + MembersText(ms, level, pretty) + rest) == FromName(ms, level, pretty, rest)
    ensures FromName(ms, level, pretty, rest) != "" && FromName(ms, level, pretty, rest)[0] == '"'
  {
    MembersSplit(ms, level, pretty);
    NewLineIsSpace(pretty);
    IndentIsSpace(level + 1, pretty);
    var text, after := Text(ms[0].value, level + 1, pretty), AfterMember(ms, level, pretty);
    SkipsTo(NewLine(pretty), Indent(level + 1, pretty), Quoted(ms[0].name), Colon(pretty) + text + after, rest);
    Regroup("", Colon(pretty), text, after);
    Regroup("", Colon(pretty), text + after, rest);
    Regroup("", text, after, rest);
  }

  /** What the parser makes of a container's contents that need `height` more levels. */
  function Fits(nesting: nat, height: nat, v: Json, rest: string): Parsed {
    if nesting + height <= MAX_NESTING then Ok(v, rest) else Fail
  }

  /** A text that starts with no space is read from its first character on. */
  lemma NoSpaceFirst(s: string)
    requires s != "" && !IsSpace(s[0])
    ensures SkipSpace(s) == s
  {
  }

  lemma WordRoundTrip(v: Json, level: nat, pretty: bool, rest: string, nesting: nat)
    requires (v.Null? || v.Bool?) && nesting <= MAX_NESTING
    ensures ParseValue(Text(v, level, pretty) + rest, nesting) == Ok(v, rest)
  {
    var word := Text(v, level, pretty);
    NoSpaceFirst(word + rest);
    TokenRoundTrip(word, v, rest);
  }

  lemma LeafRoundTrip(v: Json, level: nat, pretty: bool, rest: string, nesting: nat)
    requires WellFormed(v) && Stops(v, rest) && !v.Array? && !v.Object? && nesting <= MAX_NESTING
    ensures ParseValue(Text(v, level, pretty) + rest, nesting) == Ok(v, rest)
  {
    match v
    case Number(n) => NumberLeaf(v, PrintInt(n) + rest, rest, nesting);
    case String(s) => StringLeaf(v, Quoted(s) + rest, rest, nesting);
    case _ => WordRoundTrip(v, level, pretty, rest, nesting);
  }

  lemma NumberLeaf(v: Json, s: string, rest: string, nesting: nat)
    requires v.Number? && WellFormed(v) && Stops(v, rest) && nesting <= MAX_NESTING && s == PrintInt(v.n) + rest
    ensures ParseValue(s, nesting) == Ok(v, rest)
  {
    hide Digits, ParseMembers, SkipBody, Process, ParseNumber;
    NumberRoundTrip(v.n, rest);
    NoSpaceFirst(s);
  }

  lemma StringLeaf(v: Json, s: string, rest: string, nesting: nat)
    requires v.String? && WellFormed(v) && nesting <= MAX_NESTING && s == Quoted(v.s) + rest
    ensures ParseValue(s, nesting) == Ok(v, rest)
  {
    QuotedRoundTrip(v.s, rest);
    NoSpaceFirst(s);
  }

  /**
   * The parser reads back what the serializer wrote and stops right after it, exactly when the
   * value is not nested too deeply; otherwise it fails.
   */
  lemma {:induction false} RoundTrip(v: Json, level: nat, pretty: bool, rest: string, nesting: nat)
    requires WellFormed(v) && Stops(v, rest)
    ensures ParseValue(Text(v, level, pretty) + rest, nesting) == Fits(nesting, Height(v), v, rest)
    decreases v, 1
  {
    if nesting <= MAX_NESTING {
      if v.Array? {
        ArrayRoundTrip(v, level, pretty, rest, nesting);
        NoSpaceFirst(Text(v, level, pretty) + rest);
      } else if v.Object? {
        ObjectRoundTrip(v, level, pretty, rest, nesting);
        NoSpaceFirst(Text(v, level, pretty) + rest);
      } else {
        LeafRoundTrip(v, level, pretty, rest, nesting);
      }
    }
  }

  lemma TokenRoundTrip(token: string, v: Json, rest: string)
    ensures ParseToken(token, v, token + rest) == Ok(v, rest)
  {
    assert (token + rest)[..|token|] == token && (token + rest)[|token|..] == rest;
  }

  /** What follows an opening bracket of nothing, and of something. */
  lemma AfterOpening(open: string, close: string, newLine: string, text: string, rest: string)
    requires |open| == 1 && |close| == 1 && !IsSpace(close[0])
    ensures SkipSpace((open + close + rest)[1..]) == close + rest && (close + rest)[1..] == rest
    ensures (open + newLine + text + rest)[1..] == newLine + text + rest
  {
    DropFirst(open, close + rest, open + close + rest);
    DropFirst(open, newLine + text + rest, open + newLine + text + rest);
    DropFirst(close, rest, close + rest);
    NoSpaceFirst(close + rest);
  }

  lemma DropFirst(a: string, b: string, s: string)
    requires |a| == 1 && s == a + b
    ensures s[1..] == b
  {
  }

  lemma {:induction false} ArrayRoundTrip(v: Json, level: nat, pretty: bool, rest: string, nesting: nat)
    requires v.Array? && WellFormed(v) && nesting <= MAX_NESTING
    ensures var s := Text(v, level, pretty) + rest;
      s != "" && s[0] == '[' && ParseArray(s, nesting + 1) == Fits(nesting, Height(v), v, rest)
    decreases v, 0
  {
    hide ItemsText, SkipSpace, ParseItems, ItemsHeight, FromItem;
    if v.items == [] {
      AfterOpening("[", "]", "", "", rest);
      assert "[" + "]" == "[]";
    } else {
      AfterOpening("[", "]", NewLine(pretty), ItemsText(v.items, level, pretty), rest);
      SkipsToItem(v.items, level, pretty, rest);
      ItemsRoundTrip(v.items, level, pretty, rest, nesting + 1, []);
      assert [] + v.items == v.items;
    }
  }

  lemma {:induction false} ItemsRoundTrip(items: seq<Json>, level: nat, pretty: bool, rest: string, nesting: nat,
                                          acc: seq<Json>)
    requires items != [] && forall i :: 0 <= i < |items| ==> WellFormed(items[i])
    ensures ParseItems(FromItem(items, level, pretty, rest), nesting, acc)
         == Fits(nesting, ItemsHeight(items), Array(acc + items), rest)
    decreases items
  {
    hide WellFormed, SkipSpace, MembersHeight, AfterItem, Text, ParseValue, CloseArray;
    var s := FromItem(items, level, pretty, rest);
    var after := AfterItem(items, level, pretty) + rest;
    TextStarts(items[0], level + 1, pretty);
    AfterItemStarts(items, level, pretty, rest);
    RoundTrip(items[0], level + 1, pretty, after, nesting);
    assert Peek(s, 0) != NUL;
    if |items| > 1 {
      NextItem(items, level, pretty, rest);
      ItemsRoundTrip(items[1..], level, pretty, rest, nesting, acc + [items[0]]);
      assert acc + [items[0]] + items[1..] == acc + items;
    } else {
      ArrayCloses(items, level, pretty, rest, acc + items);
      assert acc + [items[0]] == acc + items;
    }
  }

  lemma AfterItemStarts(items: seq<Json>, level: nat, pretty: bool, rest: string)
    requires items != []
    ensures Stops(items[0], AfterItem(items, level, pretty) + rest)
  {
    hide Indent, AllSpace, ItemsText;
    IndentIsSpace(level, pretty);
    var after := AfterItem(items, level, pretty) + rest;
    assert Separator(after[0]);
  }

  lemma NextItem(items: seq<Json>, level: nat, pretty: bool, rest: string)
    requires |items| > 1
    ensures var t := SkipSpace(AfterItem(items, level, pretty) + rest);
      t != "" && t[0] == ',' && SkipSpace(t[1..]) == FromItem(items[1..], level, pretty, rest)
  {
    AfterComma(NewLine(pretty), ItemsText(items[1..], level, pretty), rest);
    SkipsToItem(items[1..], level, pretty, rest);
  }

  lemma AfterComma(newLine: string, text: string, rest: string)
    ensures var t := "," + newLine + text + rest;
      SkipSpace(t) == t && t[0] == ',' && t[1..] == newLine + text + rest
  {
    var t := "," + newLine + text + rest;
    NoSpaceFirst(t);
  }

  lemma SkipsToClose(level: nat, pretty: bool, close: string, rest: string)
    requires close != "" && !IsSpace(close[0])
    ensures SkipSpace(NewLine(pretty) + Indent(level, pretty) + close + rest) == close + rest
    ensures SkipSpace(close + rest) == close + rest
  {
    var t := close + rest;
    NewLineIsSpace(pretty);
    IndentIsSpace(level, pretty);
    SkipsSpace(NewLine(pretty) + Indent(level, pretty), t);
    Regroup("", NewLine(pretty) + Indent(level, pretty), close, rest);
    NoSpaceFirst(t);
  }

  lemma ArrayCloses(items: seq<Json>, level: nat, pretty: bool, rest: string, all: seq<Json>)
    requires |items| == 1 && all != []
    ensures var t := SkipSpace(AfterItem(items, level, pretty) + rest);
      Peek(t, 0) == ']' && CloseArray(t, all) == Ok(Array(all), rest)
  {
    SkipsToClose(level, pretty, "]", rest);
    assert ("]" + rest)[1..] == rest;
  }

  lemma EmptyObjectRoundTrip(v: Json, level: nat, pretty: bool, rest: string, nesting: nat)
    requires v == Object([]) && nesting <= MAX_NESTING
    ensures Text(v, level, pretty) == "{" + "}"
    ensures ParseObject("{" + "}" + rest, nesting + 1) == Ok(v, rest) && Height(v) == 0
  {
    AfterOpening("{", "}", "", "", rest);
  }

  lemma {:induction false} ObjectRoundTrip(v: Json, level: nat, pretty: bool, rest: string, nesting: nat)
    requires v.Object? && WellFormed(v) && nesting <= MAX_NESTING
    ensures var s := Text(v, level, pretty) + rest;
      s != "" && s[0] == '{' && ParseObject(s, nesting + 1) == Fits(nesting, Height(v), v, rest)
    decreases v, 0
  {
    hide MembersText, SkipSpace, ParseMembers, MembersHeight, ItemsHeight, FromName;
    if v.members == [] {
      EmptyObjectRoundTrip(v, level, pretty, rest, nesting);
    } else {
      AfterOpening("{", "}", NewLine(pretty), MembersText(v.members, level, pretty), rest);
      SkipsToName(v.members, level, pretty, rest);
      MembersRoundTrip(v.members, level, pretty, rest, nesting + 1, []);
      assert [] + v.members == v.members;
    }
  }

  ghost predicate AllWellFormed(ms: seq<Member>)
    decreases ms, 1
  {
    forall i :: 0 <= i < |ms| ==> NulFree(ms[i].name) && WellFormed(ms[i].value)
  }

  lemma FirstAndRest(acc: seq<Member>, ms: seq<Member>)
    requires ms != [] && AllWellFormed(ms)
    ensures NulFree(ms[0].name) && WellFormed(ms[0].value) && AllWellFormed(ms[1..])
    ensures acc + [ms[0]] + ms[1..] == acc + ms
  {
  }

  lemma {:induction false} MembersRoundTrip(ms: seq<Member>, level: nat, pretty: bool, rest: string, nesting: nat,
                                            acc: seq<Member>)
    requires ms != [] && DistinctNames(acc + ms) && AllWellFormed(ms)
    ensures ParseMembers(FromName(ms, level, pretty, rest), nesting, acc)
         == Fits(nesting, MembersHeight(ms), Object(acc + ms), rest)
    decreases ms
  {
    hide ParseMembers, WellFormed, SkipSpace, MembersText, Indent, Digits, FromName, AfterMember, ParseValue, Height;
    FirstAndRest(acc, ms);
    var after := AfterMember(ms, level, pretty) + rest;
    AfterMemberStarts(ms, level, pretty, rest);
    RoundTrip(ms[0].value, level + 1, pretty, after, nesting);
    FirstMember(ms, level, pretty, rest, nesting, acc);
    NewName(acc, ms);
    RestOfMembers(ms, level, pretty, rest, nesting, acc);
    if |ms| > 1 {
      MembersRoundTrip(ms[1..], level, pretty, rest, nesting, acc + [ms[0]]);
    }
  }

  lemma RestOfMembers(ms: seq<Member>, level: nat, pretty: bool, rest: string, nesting: nat, acc: seq<Member>)
    requires ms != [] && !HasName(acc, ms[0].name)
    ensures AfterName(ms[0].name, Ok(ms[0].value, AfterMember(ms, level, pretty) + rest), nesting, acc)
         == if |ms| > 1 then ParseMembers(FromName(ms[1..], level, pretty, rest), nesting, acc + [ms[0]])
            else Ok(Object(acc + ms), rest)
  {
    if |ms| > 1 {
      NextMember(ms, level, pretty, rest);
    } else {
      ObjectCloses(ms, level, pretty, rest, acc + ms);
      assert acc + [ms[0]] == acc + ms;
    }
  }

  lemma NewName(acc: seq<Member>, ms: seq<Member>)
    requires ms != [] && DistinctNames(acc + ms)
    ensures !HasName(acc, ms[0].name)
  {
    assert (acc + ms)[|acc|] == ms[0];
    assert forall i :: 0 <= i < |acc| ==> (acc + ms)[i] == acc[i];
  }

  lemma AfterMemberStarts(ms: seq<Member>, level: nat, pretty: bool, rest: string)
    requires ms != []
    ensures Stops(ms[0].value, AfterMember(ms, level, pretty) + rest)
  {
    IndentIsSpace(level, pretty);
    var after := AfterMember(ms, level, pretty) + rest;
    assert Separator(after[0]);
  }

  lemma NextMember(ms: seq<Member>, level: nat, pretty: bool, rest: string)
    requires |ms| > 1
    ensures var t := SkipSpace(AfterMember(ms, level, pretty) + rest);
      t != "" && t[0] == ',' && SkipSpace(t[1..]) == FromName(ms[1..], level, pretty, rest)
  {
    AfterComma(NewLine(pretty), MembersText(ms[1..], level, pretty), rest);
    SkipsToName(ms[1..], level, pretty, rest);
  }

  lemma ObjectCloses(ms: seq<Member>, level: nat, pretty: bool, rest: string, all: seq<Member>)
    requires |ms| == 1 && all != []
    ensures var t := SkipSpace(AfterMember(ms, level, pretty) + rest);
      Peek(t, 0) == '}' && CloseObject(t, all) == Ok(Object(all), rest)
  {
    SkipsToClose(level, pretty, "}", rest);
    assert ("}" + rest)[1..] == rest;
  }

  /** One round of the member loop, once the name is read. */
  function AfterName(name: string, value: Parsed, nesting: nat, acc: seq<Member>): Parsed {
    if value.Ok? then
      if HasName(acc, name) then Fail
      else
        var u := SkipSpace(value.rest);
        if Peek(u, 0) == ',' then ParseMembers(SkipSpace(u[1..]), nesting, acc + [Member(name, value.value)])
        else CloseObject(u, acc + [Member(name, value.value)])
    else value
  }

  lemma MemberStep(s: string, q: Quote, nesting: nat, acc: seq<Member>)
    requires s != "" && s[0] == '"' && QuotedString(s) == Some(q)
    requires q.rest != "" && q.rest[0] == ':' && SkipSpace(q.rest) == q.rest
    ensures ParseMembers(s, nesting, acc) == AfterName(q.text, ParseValue(q.rest[1..], nesting), nesting, acc)
  {
  }

  lemma FirstMember(ms: seq<Member>, level: nat, pretty: bool, rest: string, nesting: nat, acc: seq<Member>)
    requires ms != [] && NulFree(ms[0].name)
    ensures ParseMembers(FromName(ms, level, pretty, rest), nesting, acc)
         == AfterName(ms[0].name, ParseValue(FromValue(ms, level, pretty, rest), nesting), nesting, acc)
  {
    hide ParseMembers, SkipSpace, ItemsText, MembersText, Escaped, Digits, NulFree, AfterName, ParseValue, Colon,
      QuotedString;
    MemberRoundTrip(ms, level, pretty, rest);
    TextStarts(ms[0].value, level + 1, pretty);
    SpaceBeforeValue(FromValue(ms, level, pretty, rest), pretty, nesting);
    MemberStep(FromName(ms, level, pretty, rest), Quote(ms[0].name, Colon(pretty) + FromValue(ms, level, pretty, rest)),
               nesting, acc);
  }

  /** The name is read back, and the colon follows. */
  lemma MemberRoundTrip(ms: seq<Member>, level: nat, pretty: bool, rest: string)
    requires ms != [] && NulFree(ms[0].name)
    ensures var s := FromName(ms, level, pretty, rest);
            var t := Colon(pretty) + FromValue(ms, level, pretty, rest);
      && s != "" && s[0] == '"' && QuotedString(s) == Some(Quote(ms[0].name, t))
      && t != "" && t[0] == ':' && SkipSpace(t) == t
      && t[1..] == Space(pretty) + FromValue(ms, level, pretty, rest)
  {
    AfterColon(FromValue(ms, level, pretty, rest), pretty);
    QuotedRoundTrip(ms[0].name, Colon(pretty) + FromValue(ms, level, pretty, rest));
  }

  function Space(pretty: bool): string {
    if pretty then " " else ""
  }

  lemma AfterColon(t: string, pretty: bool)
    ensures var s := Colon(pretty) + t;
      s != "" && s[0] == ':' && SkipSpace(s) == s && s[1..] == Space(pretty) + t
  {
    var s := Colon(pretty) + t;
    NoSpaceFirst(s);
  }

  /** The space after the colon does not change how the value is parsed. */
  lemma SpaceBeforeValue(s: string, pretty: bool, nesting: nat)
    requires s != "" && !IsSpace(s[0])
    ensures ParseValue(Space(pretty) + s, nesting) == ParseValue(s, nesting)
  {
    NoSpaceFirst(s);
    if pretty {
      SkipsSpace(" ", s);
    } else {
      assert "" + s == s;
    }
  }

  /** `json_parse_string` undoes both serializers. */
  lemma SerializedParses(v: Json, pretty: bool)
    requires WellFormed(v)
    ensures ParseString(Text(v, 0, pretty)) == Fits(0, Height(v), v, "")
  {
    TextStarts(v, 0, pretty);
    RoundTrip(v, 0, pretty, "", 0);
    assert Text(v, 0, pretty) + "" == Text(v, 0, pretty);
    assert BOM[0] as int == 0xEF;
  }

  // ---------------------------------------------------------------- the length of the text

  lemma NulFreeSum(s: string, t: string)
    ensures NulFree(s + t) <==> NulFree(s) && NulFree(t)
  {
    assert forall i :: 0 <= i < |s| ==> (s + t)[i] == s[i];
    assert forall i :: 0 <= i < |t| ==> (s + t)[|s| + i] == t[i];
  }

  lemma {:induction false} EscapedNulFree(s: string)
    requires NulFree(s)
    ensures NulFree(Escaped(s))
  {
    if s != "" {
      EscapedNulFree(s[1..]);
      NulFreeSum(EscapeChar(s[0]), Escaped(s[1..]));
    }
  }

  lemma QuotedNulFree(s: string)
    requires NulFree(s)
    ensures NulFree(Quoted(s))
  {
    EscapedNulFree(s);
  }

  /** The serialized text holds no terminator, so it is as long as `strlen` says. */
  lemma {:induction false} TextNulFree(v: Json, level: nat, pretty: bool)
    requires WellFormed(v)
    ensures NulFree(Text(v, level, pretty))
    decreases v, 1
  {
    match v
    case Null =>
    case Bool(_) =>
    case Number(n) => DigitsAreDigits(if n < 0 then -n else n);
    case String(s) => QuotedNulFree(s);
    case Array(items) =>
      if items != [] {
        ItemsNulFree(items, level, pretty);
        LayoutNulFree(level, pretty);
        NulFreeParts("[", NewLine(pretty), ItemsText(items, level, pretty));
      }
    case Object(ms) =>
      if ms != [] {
        MembersNulFree(ms, level, pretty);
        LayoutNulFree(level, pretty);
        NulFreeParts("{", NewLine(pretty), MembersText(ms, level, pretty));
      }
  }

  lemma NulFreeParts(a: string, b: string, c: string)
    requires NulFree(a) && NulFree(b) && NulFree(c)
    ensures NulFree(a + b + c)
  {
    NulFreeSum(a, b);
    NulFreeSum(a + b, c);
  }

  lemma LayoutNulFree(level: nat, pretty: bool)
    ensures NulFree(Indent(level, pretty)) && NulFree(NewLine(pretty)) && NulFree(Colon(pretty))
    ensures NulFree(",") && NulFree("]") && NulFree("}")
  {
    IndentIsSpace(level, pretty);
  }

  lemma {:induction false} ItemsNulFree(items: seq<Json>, level: nat, pretty: bool)
    requires items != [] && forall i :: 0 <= i < |items| ==> WellFormed(items[i])
    ensures NulFree(ItemsText(items, level, pretty))
    decreases items
  {
    TextNulFree(items[0], level + 1, pretty);
    if |items| > 1 {
      ItemsNulFree(items[1..], level, pretty);
    }
    AfterItemNulFree(items, level, pretty);
    ItemsSplit(items, level, pretty);
    LayoutNulFree(level + 1, pretty);
    NulFreeParts(Indent(level + 1, pretty), Text(items[0], level + 1, pretty), AfterItem(items, level, pretty));
  }

  lemma AfterItemNulFree(items: seq<Json>, level: nat, pretty: bool)
    requires items != [] && (|items| > 1 ==> NulFree(ItemsText(items[1..], level, pretty)))
    ensures NulFree(AfterItem(items, level, pretty))
  {
    LayoutNulFree(level, pretty);
    if |items| > 1 {
      NulFreeParts(",", NewLine(pretty), ItemsText(items[1..], level, pretty));
    } else {
      NulFreeParts(NewLine(pretty), Indent(level, pretty), "]");
    }
  }

  lemma {:induction false} MembersNulFree(ms: seq<Member>, level: nat, pretty: bool)
    requires ms != [] && AllWellFormed(ms)
    ensures NulFree(MembersText(ms, level, pretty))
    decreases ms
  {
    FirstAndRest([], ms);
    TextNulFree(ms[0].value, level + 1, pretty);
    if |ms| > 1 {
      MembersNulFree(ms[1..], level, pretty);
    }
    MemberNulFree(ms, level, pretty);
  }

  lemma MemberNulFree(ms: seq<Member>, level: nat, pretty: bool)
    requires ms != [] && (|ms| > 1 ==> NulFree(MembersText(ms[1..], level, pretty)))
    requires NulFree(ms[0].name) && NulFree(Text(ms[0].value, level + 1, pretty))
    ensures NulFree(MembersText(ms, level, pretty))
  {
    var text, after := Text(ms[0].value, level + 1, pretty), AfterMember(ms, level, pretty);
    AfterMemberNulFree(ms, level, pretty);
    QuotedNulFree(ms[0].name);
    LayoutNulFree(level + 1, pretty);
    MembersSplit(ms, level, pretty);
    NulFreeParts(Colon(pretty), text, after);
    NulFreeParts(Indent(level + 1, pretty), Quoted(ms[0].name), Colon(pretty) + text + after);
  }

  lemma AfterMemberNulFree(ms: seq<Member>, level: nat, pretty: bool)
    requires ms != [] && (|ms| > 1 ==> NulFree(MembersText(ms[1..], level, pretty)))
    ensures NulFree(AfterMember(ms, level, pretty))
  {
    LayoutNulFree(level, pretty);
    if |ms| > 1 {
      NulFreeParts(",", NewLine(pretty), MembersText(ms[1..], level, pretty));
    } else {
      NulFreeParts(NewLine(pretty), Indent(level, pretty), "}");
    }
  }

  lemma {:induction false} CStrEnds(s: string, t: string)
    requires NulFree(s)
    ensures CStr(s + [NUL] + t) == s
  {
    var r := s + [NUL] + t;
    if s != "" {
      assert r[1..] == s[1..] + [NUL] + t;
      CStrEnds(s[1..], t);
    }
  }

  // ---------------------------------------------------------------- every parsed value

  lemma {:induction false} CStrIsNulFree(s: string)
    ensures NulFree(CStr(s))
  {
    if s != "" {
      CStrIsNulFree(s[1..]);
    }
  }

  /** A value that the parser may return at a nesting. */
  ghost predicate Returnable(v: Json, nesting: nat) {
    WellFormed(v) && nesting + Height(v) <= MAX_NESTING
  }

  ghost predicate ItemsReturnable(items: seq<Json>, nesting: nat) {
    forall i :: 0 <= i < |items| ==> Returnable(items[i], nesting)
  }

  ghost predicate MembersReturnable(ms: seq<Member>, nesting: nat) {
    DistinctNames(ms) && forall i :: 0 <= i < |ms| ==> NulFree(ms[i].name) && Returnable(ms[i].value, nesting)
  }

  lemma {:induction false} ArrayReturnable(items: seq<Json>, nesting: nat)
    requires items != [] && ItemsReturnable(items, nesting)
    ensures WellFormed(Array(items)) && nesting + ItemsHeight(items) <= MAX_NESTING
  {
    assert Returnable(items[0], nesting);
    if |items| > 1 {
      ArrayReturnable(items[1..], nesting);
    }
  }

  lemma {:induction false} ObjectReturnable(ms: seq<Member>, nesting: nat)
    requires ms != [] && MembersReturnable(ms, nesting)
    ensures WellFormed(Object(ms)) && nesting + MembersHeight(ms) <= MAX_NESTING
  {
    assert Returnable(ms[0].value, nesting);
    if |ms| > 1 {
      ObjectReturnable(ms[1..], nesting);
    }
  }

  /** Whatever the parser accepts, the value it returns is one that can be printed and read again. */
  lemma {:induction false} ParsedIsReturnable(s: string, nesting: nat)
    ensures var r := ParseValue(s, nesting); r.Ok? ==> Returnable(r.value, nesting)
    decreases |s|, 2
  {
    var t := SkipSpace(s);
    if nesting <= MAX_NESTING && t != "" {
      if t[0] == '[' {
        ArrayIsReturnable(t, nesting);
      } else if t[0] == '{' {
        ObjectIsReturnable(t, nesting);
      } else if t[0] == '"' {
        QuotedIsNulFree(t);
      }
    }
  }

  lemma QuotedIsNulFree(s: string)
    ensures QuotedString(s).Some? ==> NulFree(QuotedString(s).value.text)
  {
    if QuotedString(s).Some? {
      CStrIsNulFree(Process(s[1..], SkipBody(s[1..]).value).value);
    }
  }

  lemma {:induction false} ArrayIsReturnable(s: string, nesting: nat)
    requires s != "" && s[0] == '[' && nesting <= MAX_NESTING
    ensures var r := ParseArray(s, nesting + 1); r.Ok? ==> Returnable(r.value, nesting)
    decreases |s|, 1
  {
    var t := SkipSpace(s[1..]);
    if Peek(t, 0) != ']' {
      ItemsAreReturnable(t, nesting + 1, []);
    }
  }

  lemma {:induction false} ItemsAreReturnable(s: string, nesting: nat, acc: seq<Json>)
    requires 0 < nesting && ItemsReturnable(acc, nesting)
    ensures var r := ParseItems(s, nesting, acc); r.Ok? ==> Returnable(r.value, nesting - 1)
    decreases |s|, 3
  {
    if Peek(s, 0) == NUL {
      ClosedArray(s, nesting, acc);
    } else {
      ParsedIsReturnable(s, nesting);
      var r := ParseValue(s, nesting);
      if r.Ok? {
        var t := SkipSpace(r.rest);
        if Peek(t, 0) == ',' {
          ItemsAreReturnable(SkipSpace(t[1..]), nesting, acc + [r.value]);
        } else {
          ClosedArray(t, nesting, acc + [r.value]);
        }
      }
    }
  }

  lemma ClosedArray(s: string, nesting: nat, items: seq<Json>)
    requires 0 < nesting && ItemsReturnable(items, nesting)
    ensures var r := CloseArray(s, items); r.Ok? ==> Returnable(r.value, nesting - 1)
  {
    if items != [] {
      ArrayReturnable(items, nesting);
    }
  }

  lemma {:induction false} ObjectIsReturnable(s: string, nesting: nat)
    requires s != "" && s[0] == '{' && nesting <= MAX_NESTING
    ensures var r := ParseObject(s, nesting + 1); r.Ok? ==> Returnable(r.value, nesting)
    decreases |s|, 1
  {
    var t := SkipSpace(s[1..]);
    if Peek(t, 0) != '}' {
      MembersAreReturnable(t, nesting + 1, []);
    }
  }

  lemma {:induction false} MembersAreReturnable(s: string, nesting: nat, acc: seq<Member>)
    requires 0 < nesting && MembersReturnable(acc, nesting)
    ensures var r := ParseMembers(s, nesting, acc); r.Ok? ==> Returnable(r.value, nesting - 1)
    decreases |s|, 3
  {
    if Peek(s, 0) == NUL {
      ClosedObject(s, nesting, acc);
    } else if QuotedString(s).Some? {
      var q := QuotedString(s).value;
      var t := SkipSpace(q.rest);
      QuotedIsNulFree(s);
      if Peek(t, 0) == ':' {
        ParsedIsReturnable(t[1..], nesting);
        var r := ParseValue(t[1..], nesting);
        if r.Ok? && !HasName(acc, q.text) {
          var u := SkipSpace(r.rest);
          AddsMember(acc, Member(q.text, r.value), nesting);
          if Peek(u, 0) == ',' {
            MembersAreReturnable(SkipSpace(u[1..]), nesting, acc + [Member(q.text, r.value)]);
          } else {
            ClosedObject(u, nesting, acc + [Member(q.text, r.value)]);
          }
        }
      }
    }
  }

  lemma AddsMember(acc: seq<Member>, m: Member, nesting: nat)
    requires MembersReturnable(acc, nesting) && NulFree(m.name) && Returnable(m.value, nesting)
    requires !HasName(acc, m.name)
    ensures MembersReturnable(acc + [m], nesting)
  {
  }

  lemma ClosedObject(s: string, nesting: nat, ms: seq<Member>)
    requires 0 < nesting && MembersReturnable(ms, nesting)
    ensures var r := CloseObject(s, ms); r.Ok? ==> Returnable(r.value, nesting - 1)
  {
    if ms != [] {
      ObjectReturnable(ms, nesting);
    }
  }

  /** Whatever text is accepted, printing its value and parsing that again gives the same value. */
  lemma ReparsesTheSame(s: string, pretty: bool)
    ensures var r := ParseString(s); r.Ok? ==> ParseString(Text(r.value, 0, pretty)) == Ok(r.value, "")
  {
    var t := if StartsWith(BOM, s) then s[3..] else s;
    ParsedIsReturnable(t, 0);
    if ParseString(s).Ok? {
      SerializedParses(ParseString(s).value, pretty);
    }
  }
}
