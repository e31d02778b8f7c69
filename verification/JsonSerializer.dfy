/**
 * The serializer of the JSON library (libfreenect/fakenect/parson.c) as it runs: the same code
 * makes one pass without a buffer to count the characters and one pass that writes them, each piece
 * through `sprintf`, which also writes a terminator that the next piece overwrites.
 */
module JsonSerializer {
  import opened JsonUtf8
  import opened JsonText
  import opened JsonRoundTrip

  /**
   * What writing `text` at `off` does to a buffer: it ends up there, and nothing else has changed
   * except perhaps the one character after it, where terminators are put.
   */
  ghost predicate Wrote(before: seq<char>, after: seq<char>, off: nat, text: string) {
    && |after| == |before| && off + |text| < |before|
    && after[off..off + |text|] == text
    && (forall i :: 0 <= i < off ==> after[i] == before[i])
    && (forall i :: off + |text| < i < |before| ==> after[i] == before[i])
  }

  lemma WroteNothing(b: seq<char>, off: nat)
    requires off < |b|
    ensures Wrote(b, b, off, "")
  {
  }

  lemma WroteBoth(b0: seq<char>, b1: seq<char>, b2: seq<char>, off: nat, s: string, t: string)
    requires Wrote(b0, b1, off, s) && Wrote(b1, b2, off + |s|, t)
    ensures Wrote(b0, b2, off, s + t)
  {
    forall i | 0 <= i < |s + t|
      ensures b2[off..off + |s + t|][i] == (s + t)[i]
    {
      if i < |s| {
        assert b2[off + i] == b1[off + i] == b1[off..off + |s|][i];
      } else {
        assert b2[off + i] == b2[off + |s|..off + |s| + |t|][i - |s|];
      }
    }
  }

  /** `total` characters have been produced, namely `done`; if there is a buffer, they are in it. */
  ghost predicate Progress(buf: array?<char>, before: seq<char>, off: nat, total: nat, done: string)
    reads buf
  {
    total == |done| && (buf != null ==> Wrote(before, buf[..], off, done))
  }

  ghost predicate Terminated(buf: array?<char>, pos: nat)
    reads buf
  {
    buf != null ==> pos < buf.Length && buf[pos] == NUL
  }

  /** There is room for `n` characters and a terminator. */
  ghost predicate Room(buf: array?<char>, off: nat, n: nat) {
    buf != null ==> off + n < buf.Length
  }

  /** `sprintf(buf, "%s", s)`. */
  method Sprintf(buf: array<char>, off: nat, s: string) returns (written: nat)
    requires off + |s| < buf.Length
    modifies buf
    ensures written == |s|
    ensures Wrote(old(buf[..]), buf[..], off, s) && buf[off + |s|] == NUL
  {
    var i := 0;
    while i < |s|
      invariant 0 <= i <= |s|
      invariant forall k :: 0 <= k < i ==> buf[off + k] == s[k]
      invariant forall k :: 0 <= k < off || off + i <= k < buf.Length ==> buf[k] == old(buf[k])
    {
      buf[off + i] := s[i];
      i := i + 1;
    }
    buf[off + |s|] := NUL;
    assert buf[off..off + |s|] == s;
    return |s|;
  }

  /** `append_string`. */
  method AppendString(buf: array?<char>, off: nat, s: string) returns (written: nat)
    requires Room(buf, off, |s|)
    modifies buf
    ensures written == |s|
    ensures buf != null ==> Wrote(old(buf[..]), buf[..], off, s)
    ensures Terminated(buf, off + |s|)
  {
    if buf == null {
      return |s|;
    }
    written := Sprintf(buf, off, s);
  }

  /** The macro APPEND_STRING: append, advance, and count. */
  method Append(buf: array?<char>, off: nat, total: nat, s: string, ghost before: seq<char>, ghost done: string)
    returns (newTotal: nat)
    requires Progress(buf, before, off, total, done)
    requires Room(buf, off, |done| + |s|)
    modifies buf
    ensures Progress(buf, before, off, newTotal, done + s)
    ensures Terminated(buf, off + newTotal)
  {
    ghost var middle := if buf != null then buf[..] else [];
    var written := AppendString(buf, off + total, s);
    if buf != null {
      WroteBoth(before, middle, buf[..], off, done, s);
    }
    return total + written;
  }

  lemma NoIndent()
    ensures Indent(0, true) == ""
  {
  }

  /** `append_indent`, counted like the macro APPEND_INDENT. */
  method AppendIndent(buf: array?<char>, off: nat, total: nat, level: nat, ghost before: seq<char>, ghost done: string)
    returns (newTotal: nat)
    requires Progress(buf, before, off, total, done)
    requires Room(buf, off, |done| + |Indent(level, true)|)
    modifies buf
    ensures Progress(buf, before, off, newTotal, done + Indent(level, true))
    ensures Terminated(buf, off + total) ==> Terminated(buf, off + newTotal)
  {
    hide Indent;
    newTotal := total;
    NoIndent();
    assert done + "" == done;
    var i := 0;
    while i < level
      invariant 0 <= i <= level
      invariant Progress(buf, before, off, newTotal, done + Indent(i, true))
      invariant if i == 0 then newTotal == total else Terminated(buf, off + newTotal)
    {
      IndentGrows(i);
      IndentMonotone(i + 1, level);
      newTotal := Append(buf, off, newTotal, "    ", before, done + Indent(i, true));
      assert done + Indent(i, true) + "    " == done + Indent(i + 1, true);
      i := i + 1;
    }
  }

  lemma {:induction false} IndentGrows(level: nat)
    ensures Indent(level + 1, true) == Indent(level, true) + "    "
  {
    if level > 0 {
      IndentGrows(level - 1);
    }
  }

  lemma {:induction false} IndentMonotone(i: nat, level: nat)
    requires i <= level
    ensures |Indent(i, true)| <= |Indent(level, true)|
  {
    if i < level {
      IndentMonotone(i, level - 1);
    }
  }

  ghost function Chars(buf: array?<char>): seq<char>
    reads buf
  {
    if buf == null then [] else buf[..]
  }

  lemma {:induction false} EscapedParts(s: string, i: nat)
    requires i <= |s|
    ensures Escaped(s) == Escaped(s[..i]) + Escaped(s[i..])
  {
    if i == 0 {
      assert s[..0] == "" && s[0..] == s;
    } else {
      EscapedParts(s[1..], i - 1);
      assert s[1..][..i - 1] == s[..i][1..] && s[1..][i - 1..] == s[i..];
      Regroup("", EscapeChar(s[0]), Escaped(s[..i][1..]), Escaped(s[i..]));
    }
  }

  lemma EscapedSnoc(s: string, i: nat)
    requires i < |s|
    ensures Escaped(s[..i + 1]) == Escaped(s[..i]) + EscapeChar(s[i])
    ensures |Escaped(s[..i + 1])| <= |Escaped(s)|
  {
    EscapedParts(s, i + 1);
    EscapedParts(s[..i + 1], i);
    assert s[..i + 1][..i] == s[..i] && s[..i + 1][i..] == [s[i]];
    assert [s[i]][1..] == "" && EscapeChar(s[i]) + "" == EscapeChar(s[i]);
  }

  /** A character that is copied as it is, without a terminator. */
  method PutChar(buf: array?<char>, off: nat, total: nat, c: char, ghost before: seq<char>, ghost done: string)
    returns (newTotal: nat)
    requires Progress(buf, before, off, total, done)
    requires Room(buf, off, |done| + 1)
    modifies buf
    ensures Progress(buf, before, off, newTotal, done + [c])
  {
    if buf != null {
      ghost var middle := buf[..];
      buf[off + total] := c;
      assert buf[off + total..off + total + 1] == [c];
      WroteBoth(before, middle, buf[..], off, done, [c]);
    }
    return total + 1;
  }

  /** The opening quote and the first `i` characters. */
  ghost function QuotedPart(s: string, i: nat): string
    requires i <= |s|
  {
    "\"" + Escaped(s[..i])
  }

  lemma QuotedStep(s: string, i: nat)
    requires i < |s|
    ensures QuotedPart(s, i + 1) == QuotedPart(s, i) + EscapeChar(s[i])
    ensures |QuotedPart(s, i + 1)| < |Quoted(s)|
  {
    EscapedSnoc(s, i);
    Regroup("", "\"", Escaped(s[..i]), EscapeChar(s[i]));
  }

  /** One round of the switch: an escape is appended, any other character is put. */
  method SerializeChar(c: char, buf: array?<char>, off: nat, total: nat, ghost before: seq<char>, ghost done: string)
    returns (newTotal: nat)
    requires Progress(buf, before, off, total, done)
    requires Room(buf, off, |done| + |EscapeChar(c)|)
    modifies buf
    ensures Progress(buf, before, off, newTotal, done + EscapeChar(c))
  {
    if c == '"' || c == '\\' || c == '/' || c as int < 0x20 {
      newTotal := Append(buf, off, total, EscapeChar(c), before, done);
    } else {
      newTotal := PutChar(buf, off, total, c, before, done);
    }
  }

  /** `json_serialize_string`. */
  method SerializeString(s: string, buf: array?<char>, off: nat) returns (total: nat)
    requires NulFree(s) && Room(buf, off, |Quoted(s)|)
    modifies buf
    ensures Progress(buf, old(Chars(buf)), off, total, Quoted(s))
    ensures Terminated(buf, off + total)
  {
    hide Progress, EscapeChar;
    ghost var before := Chars(buf);
    if buf != null {
      WroteNothing(before, off);
    }
    total := Append(buf, off, 0, "\"", before, "");
    assert QuotedPart(s, 0) == "" + "\"";
    var i := 0;
    while i < |s|
      invariant 0 <= i <= |s|
      invariant Progress(buf, before, off, total, QuotedPart(s, i))
    {
      QuotedStep(s, i);
      total := SerializeChar(s[i], buf, off, total, before, QuotedPart(s, i));
      i := i + 1;
    }
    assert s[..|s|] == s;
    total := Append(buf, off, total, "\"", before, QuotedPart(s, |s|));
  }

  method MaybeNewLine(buf: array?<char>, off: nat, total: nat, pretty: bool,
                      ghost before: seq<char>, ghost done: string)
    returns (newTotal: nat)
    requires Progress(buf, before, off, total, done)
    requires Room(buf, off, |done| + |NewLine(pretty)|)
    modifies buf
    ensures Progress(buf, before, off, newTotal, done + NewLine(pretty))
  {
    newTotal := total;
    if pretty {
      newTotal := Append(buf, off, total, "\n", before, done);
    } else {
      assert done + "" == done;
    }
  }

  method MaybeIndent(buf: array?<char>, off: nat, total: nat, level: nat, pretty: bool,
                     ghost before: seq<char>, ghost done: string)
    returns (newTotal: nat)
    requires Progress(buf, before, off, total, done)
    requires Room(buf, off, |done| + |Indent(level, pretty)|)
    modifies buf
    ensures Progress(buf, before, off, newTotal, done + Indent(level, pretty))
  {
    newTotal := total;
    if pretty {
      newTotal := AppendIndent(buf, off, total, level, before, done);
    } else {
      assert done + "" == done;
    }
  }

  // ---------------------------------------------------------------- values

  /** The length of the buffer on the stack that numbers are printed into while counting. */
  const NUM_BUF_SIZE: nat := 1100

  lemma {:induction false} DigitsLength(n: nat, k: nat)
    requires n < Power10(k) && k > 0
    ensures |Digits(n)| <= k
    decreases k
  {
    if n >= 10 {
      DigitsLength(n / 10, k - 1);
    }
  }

  function Power10(k: nat): nat {
    if k == 0 then 1 else 10 * Power10(k - 1)
  }

  /** Every number of the model fits. */
  lemma NumberFits(n: int)
    requires IsNumber(n)
    ensures |PrintInt(n)| <= 18
  {
    assert Power10(4) == 10000;
    assert Power10(8) == 10000 * Power10(4);
    assert Power10(12) == 10000 * Power10(8);
    assert Power10(16) == 10000 * Power10(12);
    assert Power10(17) == 100000000000000000;
    DigitsLength(if n < 0 then -n else n, 17);
  }

  ghost predicate Buffers(buf: array?<char>, numBuf: array?<char>) {
    (buf == null <==> numBuf != null) && (numBuf != null ==> numBuf.Length == NUM_BUF_SIZE)
  }

  /** What one round of the loop over the items writes. */
  function ItemPiece(items: seq<Json>, i: nat, level: nat, pretty: bool): string
    requires i < |items|
  {
    Indent(level + 1, pretty) + Text(items[i], level + 1, pretty)
    + (if i < |items| - 1 then "," else "") + NewLine(pretty)
  }

  /** What is left to write before round `i`. */
  function ItemsLeft(items: seq<Json>, i: nat, level: nat, pretty: bool): string
    requires i <= |items|
  {
    if i < |items| then ItemsText(items[i..], level, pretty) else Indent(level, pretty) + "]"
  }

  lemma ItemRound(items: seq<Json>, i: nat, level: nat, pretty: bool)
    requires i < |items|
    ensures ItemsLeft(items, i, level, pretty) ==
            ItemPiece(items, i, level, pretty) + ItemsLeft(items, i + 1, level, pretty)
  {
    var indent, text := Indent(level + 1, pretty), Text(items[i], level + 1, pretty);
    assert items[i..][0] == items[i] && items[i..][1..] == items[i + 1..];
    if i < |items| - 1 {
      Regroup(indent + text, ",", NewLine(pretty), ItemsText(items[i + 1..], level, pretty));
      Regroup("", indent + text, ",", NewLine(pretty));
    } else {
      Regroup(indent + text, NewLine(pretty), Indent(level, pretty), "]");
      assert indent + text + "" == indent + text;
    }
  }

  function MemberPiece(ms: seq<Member>, i: nat, level: nat, pretty: bool): string
    requires i < |ms|
  {
    Indent(level + 1, pretty) + Quoted(ms[i].name) + Colon(pretty) + Text(ms[i].value, level + 1, pretty)
    + (if i < |ms| - 1 then "," else "") + NewLine(pretty)
  }

  function MembersLeft(ms: seq<Member>, i: nat, level: nat, pretty: bool): string
    requires i <= |ms|
  {
    if i < |ms| then MembersText(ms[i..], level, pretty) else Indent(level, pretty) + "}"
  }

  lemma MemberRound(ms: seq<Member>, i: nat, level: nat, pretty: bool)
    requires i < |ms|
    ensures MembersLeft(ms, i, level, pretty) ==
            MemberPiece(ms, i, level, pretty) + MembersLeft(ms, i + 1, level, pretty)
  {
    var m := ms[i];
    var before := Indent(level + 1, pretty) + Quoted(m.name) + Colon(pretty) + Text(m.value, level + 1, pretty);
    assert ms[i..][0] == m && ms[i..][1..] == ms[i + 1..];
    if i < |ms| - 1 {
      Regroup(before, ",", NewLine(pretty), MembersText(ms[i + 1..], level, pretty));
      Regroup("", before, ",", NewLine(pretty));
    } else {
      Regroup(before, NewLine(pretty), Indent(level, pretty), "}");
      assert before + "" == before;
    }
  }

  /** `json_serialize_to_buffer_r`: with and without a buffer it produces exactly the text. */
  method SerializeValue(v: Json, buf: array?<char>, off: nat, level: nat, pretty: bool, numBuf: array?<char>)
    returns (total: nat)
    requires WellFormed(v) && Buffers(buf, numBuf)
    requires Room(buf, off, |Text(v, level, pretty)|)
    modifies buf, numBuf
    ensures Progress(buf, old(Chars(buf)), off, total, Text(v, level, pretty))
    ensures Terminated(buf, off + total)
    decreases v, 4
  {
    match v
    case Null => total := SerializeWord("null", buf, off);
    case Bool(b) => total := SerializeWord(if b then "true" else "false", buf, off);
    case Number(n) => total := SerializeNumber(n, buf, off, numBuf);
    case String(s) => total := SerializeString(s, buf, off);
    case Array(_) => total := SerializeArray(v, buf, off, level, pretty, numBuf);
    case Object(_) => total := SerializeObject(v, buf, off, level, pretty, numBuf);
  }

  method SerializeWord(word: string, buf: array?<char>, off: nat) returns (total: nat)
    requires Room(buf, off, |word|)
    modifies buf
    ensures Progress(buf, old(Chars(buf)), off, total, word)
    ensures Terminated(buf, off + total)
  {
    if buf != null {
      WroteNothing(buf[..], off);
    }
    assert "" + word == word;
    total := Append(buf, off, 0, word, Chars(buf), "");
  }

  method SerializeNumber(n: int, buf: array?<char>, off: nat, numBuf: array?<char>) returns (total: nat)
    requires IsNumber(n) && Buffers(buf, numBuf)
    requires Room(buf, off, |PrintInt(n)|)
    modifies buf, numBuf
    ensures Progress(buf, old(Chars(buf)), off, total, PrintInt(n))
    ensures Terminated(buf, off + total)
  {
    NumberFits(n);
    if buf != null {
      total := Sprintf(buf, off, PrintInt(n));
    } else {
      total := Sprintf(numBuf, 0, PrintInt(n));
    }
  }

  /** A value inside a container, after what is already there. */
  method SerializeNested(v: Json, buf: array?<char>, off: nat, total: nat, level: nat, pretty: bool,
                         numBuf: array?<char>, ghost before: seq<char>, ghost done: string)
    returns (newTotal: nat)
    requires WellFormed(v) && Buffers(buf, numBuf)
    requires Progress(buf, before, off, total, done)
    requires Room(buf, off, |done| + |Text(v, level, pretty)|)
    modifies buf, numBuf
    ensures Progress(buf, before, off, newTotal, done + Text(v, level, pretty))
    decreases v, 5
  {
    ghost var middle := Chars(buf);
    var written := SerializeValue(v, buf, off + total, level, pretty, numBuf);
    if buf != null {
      WroteBoth(before, middle, buf[..], off, done, Text(v, level, pretty));
    }
    return total + written;
  }

  method SerializeItem(v: Json, i: nat, buf: array?<char>, off: nat, total: nat, level: nat, pretty: bool,
                       numBuf: array?<char>, ghost before: seq<char>, ghost done: string)
    returns (newTotal: nat)
    requires v.Array? && i < |v.items| && WellFormed(v.items[i]) && Buffers(buf, numBuf)
    requires Progress(buf, before, off, total, done)
    requires Room(buf, off, |done| + |ItemPiece(v.items, i, level, pretty)|)
    modifies buf, numBuf
    ensures Progress(buf, before, off, newTotal, done + ItemPiece(v.items, i, level, pretty))
    decreases v, 1
  {
    ghost var d1 := done + Indent(level + 1, pretty);
    ghost var d2 := d1 + Text(v.items[i], level + 1, pretty);
    ghost var comma := if i < |v.items| - 1 then "," else "";
    PieceParts(done, Indent(level + 1, pretty), Text(v.items[i], level + 1, pretty), comma, NewLine(pretty));
    newTotal := MaybeIndent(buf, off, total, level + 1, pretty, before, done);
    newTotal := SerializeNested(v.items[i], buf, off, newTotal, level + 1, pretty, numBuf, before, d1);
    if i < |v.items| - 1 {
      newTotal := Append(buf, off, newTotal, ",", before, d2);
    } else {
      assert d2 + "" == d2;
    }
    newTotal := MaybeNewLine(buf, off, newTotal, pretty, before, d2 + comma);
  }

  lemma PieceParts(done: string, a: string, b: string, c: string, d: string)
    ensures done + a + b + c + d == done + (a + b + c + d)
  {
  }

  /** The value is looked up by its name, as the code does. */
  method SerializeMember(v: Json, i: nat, buf: array?<char>, off: nat, total: nat, level: nat, pretty: bool,
                         numBuf: array?<char>, ghost before: seq<char>, ghost done: string)
    returns (newTotal: nat)
    requires v.Object? && i < |v.members| && WellFormed(v) && Buffers(buf, numBuf)
    requires Progress(buf, before, off, total, done)
    requires Room(buf, off, |done| + |MemberPiece(v.members, i, level, pretty)|)
    modifies buf, numBuf
    ensures Progress(buf, before, off, newTotal, done + MemberPiece(v.members, i, level, pretty))
    decreases v, 1
  {
    hide Lookup, Indent, Escaped, Digits, Buffers, Progress;
    var key := v.members[i].name;
    LookupOwn(v.members, i);
    var value := Lookup(v.members, key).value;
    ghost var d1 := done + Indent(level + 1, pretty);
    ghost var d2 := d1 + Quoted(key);
    ghost var d3 := d2 + Colon(pretty);
    ghost var d4 := d3 + Text(value, level + 1, pretty);
    ghost var comma := if i < |v.members| - 1 then "," else "";
    MemberParts(done, Indent(level + 1, pretty), Quoted(key), Colon(pretty), Text(value, level + 1, pretty),
                comma, NewLine(pretty));
    newTotal := MaybeIndent(buf, off, total, level + 1, pretty, before, done);
    newTotal := AppendQuoted(key, buf, off, newTotal, before, d1);
    newTotal := AppendColon(buf, off, newTotal, pretty, before, d2);
    newTotal := SerializeNested(value, buf, off, newTotal, level + 1, pretty, numBuf, before, d3);
    if i < |v.members| - 1 {
      newTotal := Append(buf, off, newTotal, ",", before, d4);
    } else {
      assert d4 + "" == d4;
    }
    newTotal := MaybeNewLine(buf, off, newTotal, pretty, before, d4 + comma);
  }

  method AppendQuoted(s: string, buf: array?<char>, off: nat, total: nat, ghost before: seq<char>, ghost done: string)
    returns (newTotal: nat)
    requires NulFree(s) && Progress(buf, before, off, total, done)
    requires Room(buf, off, |done| + |Quoted(s)|)
    modifies buf
    ensures Progress(buf, before, off, newTotal, done + Quoted(s))
  {
    ghost var middle := Chars(buf);
    var written := SerializeString(s, buf, off + total);
    if buf != null {
      WroteBoth(before, middle, buf[..], off, done, Quoted(s));
    }
    return total + written;
  }

  method AppendColon(buf: array?<char>, off: nat, total: nat, pretty: bool, ghost before: seq<char>, ghost done: string)
    returns (newTotal: nat)
    requires Progress(buf, before, off, total, done)
    requires Room(buf, off, |done| + |Colon(pretty)|)
    modifies buf
    ensures Progress(buf, before, off, newTotal, done + Colon(pretty))
  {
    newTotal := Append(buf, off, total, ":", before, done);
    if pretty {
      newTotal := Append(buf, off, newTotal, " ", before, done + ":");
      assert done + ":" + " " == done + ": ";
    }
  }

  lemma MemberParts(done: string, a: string, b: string, c: string, d: string, e: string, f: string)
    ensures done + a + b + c + d + e + f == done + (a + b + c + d + e + f)
  {
  }

  method OpenContainer(open: string, buf: array?<char>, off: nat, lines: bool) returns (total: nat)
    requires Room(buf, off, |open| + |NewLine(lines)|)
    modifies buf
    ensures Progress(buf, old(Chars(buf)), off, total, open + NewLine(lines))
  {
    total := SerializeWord(open, buf, off);
    total := MaybeNewLine(buf, off, total, lines, old(Chars(buf)), open);
  }

  method CloseContainer(close: string, buf: array?<char>, off: nat, total: nat, level: nat, lines: bool,
                        ghost before: seq<char>, ghost done: string)
    returns (newTotal: nat)
    requires Progress(buf, before, off, total, done)
    requires Room(buf, off, |done| + |Indent(level, lines) + close|)
    modifies buf
    ensures Progress(buf, before, off, newTotal, done + (Indent(level, lines) + close))
    ensures Terminated(buf, off + newTotal)
  {
    Regroup("", done, Indent(level, lines), close);
    newTotal := MaybeIndent(buf, off, total, level, lines, before, done);
    newTotal := Append(buf, off, newTotal, close, before, done + Indent(level, lines));
  }

  /** The loop over the items; `all` is all that has been produced then. */
  method SerializeItems(v: Json, buf: array?<char>, off: nat, total: nat, level: nat, pretty: bool,
                        numBuf: array?<char>, ghost before: seq<char>, ghost done: string)
    returns (newTotal: nat, ghost all: string)
    requires v.Array? && WellFormed(v) && Buffers(buf, numBuf)
    requires Progress(buf, before, off, total, done)
    requires Room(buf, off, |done| + |ItemsLeft(v.items, 0, level, pretty)|)
    modifies buf, numBuf
    ensures Progress(buf, before, off, newTotal, all)
    ensures all + (Indent(level, pretty) + "]") == done + ItemsLeft(v.items, 0, level, pretty)
    decreases v, 2
  {
    hide ItemsText, ItemPiece;
    newTotal, all := total, done;
    ghost var whole := done + ItemsLeft(v.items, 0, level, pretty);
    var i := 0;
    while i < |v.items|
      invariant 0 <= i <= |v.items|
      invariant Progress(buf, before, off, newTotal, all)
      invariant all + ItemsLeft(v.items, i, level, pretty) == whole
    {
      ItemRound(v.items, i, level, pretty);
      Regroup("", all, ItemPiece(v.items, i, level, pretty), ItemsLeft(v.items, i + 1, level, pretty));
      newTotal := SerializeItem(v, i, buf, off, newTotal, level, pretty, numBuf, before, all);
      all := all + ItemPiece(v.items, i, level, pretty);
      i := i + 1;
    }
  }

  lemma ArrayText(v: Json, level: nat, pretty: bool)
    requires v.Array?
    ensures v.items != [] ==> Text(v, level, pretty) == "[" + NewLine(pretty) + ItemsLeft(v.items, 0, level, pretty)
    ensures v.items == [] ==> Text(v, level, pretty) == "[" + NewLine(false) + (Indent(level, false) + "]")
  {
    if v.items != [] {
      assert v.items[0..] == v.items;
    } else {
      assert "[]" == "[" + "" + ("" + "]");
    }
  }

  method SerializeArray(v: Json, buf: array?<char>, off: nat, level: nat, pretty: bool, numBuf: array?<char>)
    returns (total: nat)
    requires v.Array? && WellFormed(v) && Buffers(buf, numBuf)
    requires Room(buf, off, |Text(v, level, pretty)|)
    modifies buf, numBuf
    ensures Progress(buf, old(Chars(buf)), off, total, Text(v, level, pretty))
    ensures Terminated(buf, off + total)
    decreases v, 3
  {
    ghost var before := Chars(buf);
    var lines := pretty && |v.items| > 0;
    ghost var all := "[" + NewLine(lines);
    ArrayText(v, level, pretty);
    total := OpenContainer("[", buf, off, lines);
    if |v.items| > 0 {
      total, all := SerializeItems(v, buf, off, total, level, pretty, numBuf, before, all);
    }
    total := CloseContainer("]", buf, off, total, level, lines, before, all);
  }

  /** The loop over the members; `all` is all that has been produced then. */
  method SerializeMembers(v: Json, buf: array?<char>, off: nat, total: nat, level: nat, pretty: bool,
                          numBuf: array?<char>, ghost before: seq<char>, ghost done: string)
    returns (newTotal: nat, ghost all: string)
    requires v.Object? && WellFormed(v) && Buffers(buf, numBuf)
    requires Progress(buf, before, off, total, done)
    requires Room(buf, off, |done| + |MembersLeft(v.members, 0, level, pretty)|)
    modifies buf, numBuf
    ensures Progress(buf, before, off, newTotal, all)
    ensures all + (Indent(level, pretty) + "}") == done + MembersLeft(v.members, 0, level, pretty)
    decreases v, 2
  {
    hide MembersText, Buffers;
    newTotal, all := total, done;
    ghost var whole := done + MembersLeft(v.members, 0, level, pretty);
    var i := 0;
    while i < |v.members|
      invariant 0 <= i <= |v.members|
      invariant Progress(buf, before, off, newTotal, all)
      invariant all + MembersLeft(v.members, i, level, pretty) == whole
    {
      MemberRound(v.members, i, level, pretty);
      Regroup("", all, MemberPiece(v.members, i, level, pretty), MembersLeft(v.members, i + 1, level, pretty));
      newTotal := SerializeMember(v, i, buf, off, newTotal, level, pretty, numBuf, before, all);
      all := all + MemberPiece(v.members, i, level, pretty);
      i := i + 1;
    }
  }

  lemma ObjectText(v: Json, level: nat, pretty: bool)
    requires v.Object?
    ensures v.members != [] ==>
              Text(v, level, pretty) == "{" + NewLine(pretty) + MembersLeft(v.members, 0, level, pretty)
    ensures v.members == [] ==> Text(v, level, pretty) == "{" + NewLine(false) + (Indent(level, false) + "}")
  {
    if v.members != [] {
      assert v.members[0..] == v.members;
    } else {
      assert "{}" == "{" + "" + ("" + "}");
    }
  }

  method SerializeObject(v: Json, buf: array?<char>, off: nat, level: nat, pretty: bool, numBuf: array?<char>)
    returns (total: nat)
    requires v.Object? && WellFormed(v) && Buffers(buf, numBuf)
    requires Room(buf, off, |Text(v, level, pretty)|)
    modifies buf, numBuf
    ensures Progress(buf, old(Chars(buf)), off, total, Text(v, level, pretty))
    ensures Terminated(buf, off + total)
    decreases v, 3
  {
    ghost var before := Chars(buf);
    var lines := pretty && |v.members| > 0;
    ghost var all := "{" + NewLine(lines);
    ObjectText(v, level, pretty);
    total := OpenContainer("{", buf, off, lines);
    if |v.members| > 0 {
      total, all := SerializeMembers(v, buf, off, total, level, pretty, numBuf, before, all);
    }
    total := CloseContainer("}", buf, off, total, level, lines, before, all);
  }

  // ---------------------------------------------------------------- the two passes together

  /** `json_serialization_size` and its pretty form: the length of the text and of its terminator. */
  method SerializationSize(v: Json, pretty: bool) returns (size: nat)
    requires WellFormed(v)
    ensures size == |Text(v, 0, pretty)| + 1
  {
    var numBuf := new char[NUM_BUF_SIZE];
    var res := SerializeValue(v, null, 0, 0, pretty, numBuf);
    return res + 1;
  }

  /** What a buffer holds after a successful serialization: the terminated text, then what it held before. */
  ghost predicate HoldsText(before: seq<char>, after: seq<char>, text: string) {
    && |text| < |before|
    && after == text + [NUL] + before[|text| + 1..]
  }

  lemma WroteWhole(before: seq<char>, after: seq<char>, text: string)
    requires Wrote(before, after, 0, text) && after[|text|] == NUL
    ensures HoldsText(before, after, text)
  {
    assert after[..|text|] == text by {
      assert after[0..0 + |text|] == after[..|text|];
    }
    assert after[|text| + 1..] == before[|text| + 1..];
    assert after == after[..|text|] + [after[|text|]] + after[|text| + 1..];
  }

  /** `json_serialize_to_buffer` and its pretty form; `size` is what the caller says of the buffer. */
  method SerializeToBuffer(v: Json, buf: array<char>, size: nat, pretty: bool) returns (ok: bool)
    requires WellFormed(v) && size <= buf.Length
    modifies buf
    ensures ok <==> |Text(v, 0, pretty)| < size
    ensures ok ==> HoldsText(old(buf[..]), buf[..], Text(v, 0, pretty))
    ensures !ok ==> buf[..] == old(buf[..])
  {
    ghost var before := buf[..];
    var needed := SerializationSize(v, pretty);
    if size < needed {
      return false;
    }
    var written := SerializeValue(v, buf, 0, 0, pretty, null);
    WroteWhole(before, buf[..], Text(v, 0, pretty));
    return true;
  }

  /** `json_serialize_to_string` and its pretty form: the text, in a buffer that it fills exactly,
      and from which the parser reads the value back. */
  method SerializeToString(v: Json, pretty: bool) returns (buf: array<char>)
    requires WellFormed(v)
    ensures fresh(buf)
    ensures buf[..] == Text(v, 0, pretty) + [NUL] && CStr(buf[..]) == Text(v, 0, pretty)
    ensures ParseString(CStr(buf[..])) == Fits(0, Height(v), v, "")
  {
    var size := SerializationSize(v, pretty);
    buf := new char[size];
    var ok := SerializeToBuffer(v, buf, size, pretty);
    TextNulFree(v, 0, pretty);
    CStrEnds(Text(v, 0, pretty), "");
    assert buf[..] == Text(v, 0, pretty) + [NUL] + "";
    SerializedParses(v, pretty);
  }
}
