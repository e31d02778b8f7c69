/**
 * The parser of the JSON library (libfreenect/fakenect/parson.c) as it runs: recursive functions
 * that advance one shared pointer into the text. Each is proved to return what the functions of
 * `JsonText` say of the text at the pointer, and to leave the pointer right after it.
 */
module JsonParser {
  import opened JsonUtf8
  import opened JsonText
  import opened JsonRoundTrip
  import opened JsonStrings
  import opened Options

  /** A parsing function returns a value, a null pointer, or a number outside the model. */
  datatype Result = Value(v: Json) | NullPointer | Unmodelled

  /** The result and the text that is left are those of the specification. */
  ghost predicate Agrees(r: Result, rest: string, spec: Parsed) {
    match spec
    case Ok(v, t) => r == Value(v) && rest == t
    case Fail => r.NullPointer?
    case Unmodelled => r.Unmodelled?
  }

  /** What becomes of the digits and the character after them: `strtod` may go on, and `is_decimal` may refuse. */
  function IntegerResult(negative: bool, digits: string, n: int, next: char): Result {
    if digits == "" then
      if next == '.' || next == 'i' || next == 'I' || next == 'n' || next == 'N' then Result.Unmodelled
      else Value(Number(0))
    else if Extends(digits, next) then Result.Unmodelled
    else if |digits| > 1 && digits[0] == '0' then NullPointer
    else
      var number := if negative then -n else n;
      if !IsNumber(number) || (negative && n == 0) then Result.Unmodelled else Value(Number(number))
  }

  lemma NumberRead(s: string, t: string, k: nat, n: int)
    requires s != "" && (s[0] == '-' || IsDigit(s[0])) && t == (if s[0] == '-' then s[1..] else s)
    requires k == CountDigits(t) && n == DigitsValue(t[..k])
    ensures var r := IntegerResult(s[0] == '-', t[..k], n, Peek(t, k));
      Agrees(r, if k == 0 then s else t[k..], ParseNumber(s))
  {
  }

  /** What `skip_quotes` found after `n` characters extends to the whole. */
  ghost predicate SameClose(start: string, now: string, n: nat) {
    && (SkipBody(start).Some? <==> SkipBody(now).Some?)
    && (SkipBody(start).Some? ==> SkipBody(start).value == SkipBody(now).value + n)
  }

  /** What is left to do behind a member and white space. */
  function BehindMember(u: string, nesting: nat, all: seq<Member>): Parsed {
    if Peek(u, 0) == ',' then ParseMembers(SkipSpace(u[1..]), nesting, all) else CloseObject(u, all)
  }

  lemma {:induction false} CStrStops(s: string)
    ensures CStr(s + [NUL]) == CStr(s)
  {
    if s != "" {
      assert (s + [NUL])[1..] == s[1..] + [NUL];
      CStrStops(s[1..]);
    }
  }

  class Parser {
    const text: string
    var pos: nat

    constructor (text: string)
      ensures this.text == text && Valid() && Rest() == text
    {
      this.text := text;
      pos := 0;
    }

    ghost predicate Valid()
      reads this
    {
      pos <= |text|
    }

    ghost function Rest(): string
      requires Valid()
      reads this
    {
      text[pos..]
    }

    function Current(): (c: char)
      requires Valid()
      reads this
      ensures c == Peek(Rest(), 0)
    {
      Peek(text, pos)
    }

    method SkipChar()
      requires Valid() && pos < |text|
      modifies this
      ensures Valid() && pos == old(pos) + 1 && Rest() == old(Rest())[1..]
    {
      pos := pos + 1;
    }

    /** The macro SKIP_WHITESPACES. */
    method SkipWhitespaces()
      requires Valid()
      modifies this
      ensures Valid() && pos >= old(pos) && Rest() == SkipSpace(old(Rest()))
    {
      while IsSpace(Current())
        invariant Valid() && pos >= old(pos)
        invariant SkipSpace(Rest()) == SkipSpace(old(Rest()))
        decreases |text| - pos
      {
        SkipChar();
      }
    }

    /** `skip_quotes`. */
    method SkipQuotes() returns (ok: bool)
      requires Valid()
      modifies this
      ensures Valid() && pos >= old(pos)
      ensures ok <==> old(Current()) == '"' && SkipBody(old(Rest())[1..]).Some?
      ensures ok ==> pos == old(pos) + 2 + SkipBody(old(Rest())[1..]).value
    {
      if Current() != '"' {
        return false;
      }
      SkipChar();
      ghost var start := Rest();
      while Current() != '"'
        invariant Valid() && pos > old(pos)
        invariant SameClose(start, Rest(), pos - old(pos) - 1)
        decreases |text| - pos
      {
        if Current() == NUL {
          return false;
        } else if Current() == '\\' {
          SkipChar();
          if Current() == NUL {
            return false;
          }
        }
        SkipChar();
      }
      SkipChar();
      return true;
    }

    /** `get_quoted_string`. */
    method GetQuotedString() returns (r: array?<char>)
      requires Valid()
      modifies this
      ensures Valid() && pos >= old(pos)
      ensures r == null <==> QuotedString(old(Rest())).None?
      ensures r != null ==>
        pos > old(pos) && fresh(r) && QuotedString(old(Rest())) == Some(Quote(CStr(r[..]), Rest()))
    {
      var start := pos;
      var ok := SkipQuotes();
      if !ok {
        return null;
      }
      var len := pos - start - 2;
      assert text[start..][1..] == text[start + 1..];
      assert text[start + 1..][len + 1..] == text[pos..];
      r := ProcessString(text[start + 1..], len);
      if r != null {
        CStrStops(Process(text[start + 1..], len).value);
      }
    }

    method ParseToken(token: string, value: Json) returns (r: Result)
      requires Valid()
      modifies this
      ensures Valid() && pos >= old(pos)
      ensures Agrees(r, Rest(), JsonText.ParseToken(token, value, old(Rest())))
      ensures r == NullPointer ==> pos == old(pos)
    {
      if StartsWith(token, text[pos..]) {
        ghost var s := Rest();
        pos := pos + |token|;
        assert s[|token|..] == Rest();
        return Value(value);
      }
      return NullPointer;
    }

    /** `parse_boolean_value`: both words are tried in turn. */
    method ParseBooleanValue() returns (r: Result)
      requires Valid()
      modifies this
      ensures Valid() && pos >= old(pos)
      ensures old(Current()) == 't' ==> Agrees(r, Rest(), JsonText.ParseToken("true", Bool(true), old(Rest())))
      ensures old(Current()) == 'f' ==> Agrees(r, Rest(), JsonText.ParseToken("false", Bool(false), old(Rest())))
    {
      TokenStart("true", Rest());
      TokenStart("false", Rest());
      r := ParseToken("true", Bool(true));
      if r == NullPointer {
        r := ParseToken("false", Bool(false));
      }
    }

    /** `parse_number_value`, with what `strtod` and `is_decimal` do for the integers of the model. */
    method ParseNumberValue() returns (r: Result)
      requires Valid() && (Current() == '-' || IsDigit(Current()))
      modifies this
      ensures Valid() && pos >= old(pos)
      ensures Agrees(r, Rest(), ParseNumber(old(Rest())))
    {
      hide CountDigits;
      var negative := Current() == '-';
      var start := if negative then pos + 1 else pos;
      var end, n := ScanDigits(start);
      assert Rest()[start - pos..] == text[start..];
      assert text[start..][..end - start] == text[start..end] && text[start..][end - start..] == text[end..];
      NumberRead(Rest(), text[start..], end - start, n);
      r := IntegerResult(negative, text[start..end], n, Peek(text, end));
      if r.Value? && end > start {
        pos := end;
      }
    }

    /** The digits from `start` on: where they end, and their value. */
    method ScanDigits(start: nat) returns (end: nat, n: int)
      requires start <= |text|
      ensures end == start + CountDigits(text[start..]) <= |text| && n == DigitsValue(text[start..end])
    {
      end, n := start, 0;
      while end < |text| && IsDigit(text[end])
        invariant start <= end <= |text| && n == DigitsValue(text[start..end])
        invariant CountDigits(text[start..]) == end - start + CountDigits(text[end..])
      {
        assert text[end..][1..] == text[end + 1..];
        assert text[start..end + 1][..end - start] == text[start..end];
        n := n * 10 + (text[end] as int - '0' as int);
        end := end + 1;
      }
    }

    method ParseStringValue() returns (r: Result)
      requires Valid()
      modifies this
      ensures Valid() && pos >= old(pos)
      ensures var q := QuotedString(old(Rest()));
        Agrees(r, Rest(), if q.None? then Fail else Ok(String(q.value.text), q.value.rest))
    {
      var buf := GetQuotedString();
      if buf == null {
        return NullPointer;
      }
      return Value(String(CStr(buf[..])));
    }

    /** `parse_value`. */
    method ParseValue(nesting: nat) returns (r: Result)
      requires Valid()
      modifies this
      ensures Valid() && pos >= old(pos)
      ensures Agrees(r, Rest(), JsonText.ParseValue(old(Rest()), nesting))
      decreases |text| - pos, 2
    {
      if nesting > MAX_NESTING {
        return NullPointer;
      }
      SkipWhitespaces();
      var c := Current();
      if c == '{' {
        r := ParseObjectValue(nesting + 1);
      } else if c == '[' {
        r := ParseArrayValue(nesting + 1);
      } else if c == '"' {
        r := ParseStringValue();
      } else if c == 'f' || c == 't' {
        r := ParseBooleanValue();
      } else if c == '-' || IsDigit(c) {
        r := ParseNumberValue();
      } else if c == 'n' {
        r := ParseToken("null", Null);
      } else {
        r := NullPointer;
      }
    }

    /** `parse_array_value`; trimming an array without items fails. */
    method ParseArrayValue(nesting: nat) returns (r: Result)
      requires Valid() && Current() == '['
      modifies this
      ensures Valid() && pos >= old(pos)
      ensures Agrees(r, Rest(), ParseArray(old(Rest()), nesting))
      decreases |text| - pos, 1
    {
      hide SkipSpace;
      ghost var spec := ParseArray(Rest(), nesting);
      SkipChar();
      SkipWhitespaces();
      if Current() == ']' {
        SkipChar();
        return Value(Array([]));
      }
      var items: seq<Json> := [];
      while Current() != NUL
        invariant Valid() && pos > old(pos)
        invariant spec == ParseItems(Rest(), nesting, items)
        decreases |text| - pos
      {
        var item := ParseValue(nesting);
        if !item.Value? {
          return item;
        }
        items := items + [item.v];
        SkipWhitespaces();
        if Current() != ',' {
          break;
        }
        SkipChar();
        SkipWhitespaces();
      }
      SkipWhitespaces();
      if Current() != ']' || |items| == 0 {
        return NullPointer;
      }
      SkipChar();
      return Value(Array(items));
    }

    /** The name of a member and the colon after it. */
    method ParseName() returns (ok: bool, name: string)
      requires Valid()
      modifies this
      ensures Valid() && pos >= old(pos)
      ensures var q := QuotedString(old(Rest()));
        ok <==> q.Some? && Peek(SkipSpace(q.value.rest), 0) == ':'
      ensures ok ==> var q := QuotedString(old(Rest())).value;
        pos > old(pos) && name == q.text && Rest() == SkipSpace(q.rest)[1..]
    {
      name := "";
      var newKey := GetQuotedString();
      if newKey == null {
        return false, name;
      }
      name := CStr(newKey[..]);
      SkipWhitespaces();
      if Current() != ':' {
        return false, name;
      }
      SkipChar();
      return true, name;
    }

    /** A name, a colon and a value; `json_object_add` refuses a name that is already there. */
    method ParseMember(nesting: nat, members: seq<Member>, ghost spec: Parsed)
      returns (r: Result, all: seq<Member>)
      requires Valid() && Current() != NUL && spec == ParseMembers(Rest(), nesting, members)
      modifies this
      ensures Valid() && pos >= old(pos)
      ensures r.Value? ==> pos > old(pos) && all != [] && spec == BehindMember(SkipSpace(Rest()), nesting, all)
      ensures !r.Value? ==> Agrees(r, Rest(), spec)
      decreases |text| - pos, 1
    {
      all := members;
      var ok, name := ParseName();
      if !ok {
        return NullPointer, all;
      }
      r := ParseValue(nesting);
      if r.Value? {
        if HasName(members, name) {
          return NullPointer, all;
        }
        all := members + [Member(name, r.v)];
      }
    }

    /** `parse_object_value`. */
    method ParseObjectValue(nesting: nat) returns (r: Result)
      requires Valid() && Current() == '{'
      modifies this
      ensures Valid() && pos >= old(pos)
      ensures Agrees(r, Rest(), ParseObject(old(Rest()), nesting))
      decreases |text| - pos, 1
    {
      ghost var spec := ParseObject(Rest(), nesting);
      SkipChar();
      SkipWhitespaces();
      if Current() == '}' {
        SkipChar();
        return Value(Object([]));
      }
      var members: seq<Member> := [];
      while Current() != NUL
        invariant Valid() && pos > old(pos)
        invariant spec == ParseMembers(Rest(), nesting, members)
        decreases |text| - pos
      {
        r, members := ParseMember(nesting, members, spec);
        if !r.Value? {
          return;
        }
        SkipWhitespaces();
        if Current() != ',' {
          break;
        }
        SkipChar();
        SkipWhitespaces();
      }
      SkipWhitespaces();
      if Current() != '}' || |members| == 0 {
        return NullPointer;
      }
      SkipChar();
      return Value(Object(members));
    }
  }

  lemma TokenStart(token: string, s: string)
    requires token != ""
    ensures StartsWith(token, s) ==> Peek(s, 0) == token[0]
  {
    if StartsWith(token, s) {
      assert s[..|token|][0] == s[0];
    }
  }

  /** `json_parse_string`: a byte order mark is skipped, and what follows the value is ignored. */
  method JsonParseString(text: string) returns (r: Result)
    ensures match ParseString(text)
            case Ok(v, _) => r == Value(v)
            case Fail => r == NullPointer
            case Unmodelled => r == Result.Unmodelled
    ensures forall v, pretty ::
              WellFormed(v) && Height(v) <= MAX_NESTING && text == Text(v, 0, pretty) ==> r == Value(v)
  {
    var s := text;
    if StartsWith(BOM, text) {
      s := text[3..];
    }
    var parser := new Parser(s);
    r := parser.ParseValue(0);
    forall v, pretty | WellFormed(v) && Height(v) <= MAX_NESTING && text == Text(v, 0, pretty)
      ensures r == Value(v)
    {
      SerializedParses(v, pretty);
    }
  }
}
