/**
 * Quoted strings in the JSON library (libfreenect/fakenect/parson.c): `process_string` decodes the
 * characters between two quotes into a buffer of one more than their number. Escapes never reach
 * past the closing quote, and what they decode to is never longer than they are.
 */
module JsonStrings {
  import opened JsonUtf8
  import opened JsonText
  import opened Options

  /** The closing quote is `k` characters away. */
  ghost predicate Closes(s: string, k: int) {
    k >= 0 && SkipBody(s) == Some(k)
  }

  lemma AfterBackslash(s: string, k: int)
    requires Closes(s, k) && k > 0 && s[0] == '\\'
    ensures |s| >= 2 && Closes(s[2..], k - 2)
  {
  }

  lemma AfterPlain(s: string, k: int)
    requires Closes(s, k) && Peek(s, 0) != '\\' && Peek(s, 0) != '"'
    ensures s != "" && Closes(s[1..], k - 1)
  {
  }

  /** Four hexadecimal digits come before the closing quote. */
  lemma AfterHex4(s: string, k: int)
    requires Closes(s, k) && Hex4(s).Some?
    ensures |s| >= 4 && Closes(s[4..], k - 4)
  {
    AfterPlain(s, k);
    AfterPlain(s[1..], k - 1);
    AfterPlain(s[1..][1..], k - 2);
    AfterPlain(s[1..][1..][1..], k - 3);
    assert s[1..][1..][1..][1..] == s[4..];
  }

  /** A whole \u escape, or pair of escapes, comes before the closing quote. */
  lemma AfterEscape(s: string, k: int)
    requires Closes(s, k) && ParseUtf16(s).Some?
    ensures var used := ParseUtf16(s).value.used; used <= |s| && Closes(s[used..], k - used)
  {
    hide Hex4;
    AfterHex4(s, k);
    if ParseUtf16(s).value.used == 10 {
      AfterBackslash(s[4..], k - 4);
      assert s[4..][2..] == s[6..];
      AfterHex4(s[6..], k - 6);
      assert s[6..][4..] == s[10..];
    }
  }

  // ---------------------------------------------------------------- one escape

  function EscapeLength(s: string): nat {
    if Peek(s, 1) == 'u' && |s| > 1 && ParseUtf16(s[2..]).Some? then 2 + ParseUtf16(s[2..]).value.used else 2
  }

  function Escapee(s: string): string {
    if Unescape(Peek(s, 1)).Some? then [Unescape(Peek(s, 1)).value]
    else if Peek(s, 1) == 'u' && |s| > 1 && ParseUtf16(s[2..]).Some? then Store(ParseUtf16(s[2..]).value.cp)
    else ""
  }

  /** An accepted escape yields what it stands for, and decoding goes on after it. */
  lemma ProcessEscape(s: string, k: int)
    requires k > 0 && |s| > 1 && s[0] == '\\'
    ensures GoodEscape(s) ==> EscapeLength(s) <= |s|
    ensures var n := EscapeLength(s);
      Process(s, k) == if GoodEscape(s) then Prepend(Escapee(s), Process(s[n..], k - n)) else None
  {
  }

  predicate GoodEscape(s: string) {
    |s| > 1 && if s[1] == 'u' then ParseUtf16(s[2..]).Some? else Unescape(s[1]).Some?
  }

  ghost predicate AllAscii(s: string, n: nat) {
    n <= |s| && forall i :: 0 <= i < n ==> s[i] as int < 0x80
  }

  lemma EscapeIsAscii(s: string)
    requires ParseUtf16(s).Some?
    ensures forall i :: 0 <= i < ParseUtf16(s).value.used ==> s[i] as int < 0x80
  {
    hide Hex4;
    Hex4IsAscii(s);
    if ParseUtf16(s).value.used == 10 {
      Hex4IsAscii(s[6..]);
      assert forall i :: 6 <= i < 10 ==> s[i] == s[6..][i - 6];
    }
  }

  lemma Hex4IsAscii(s: string)
    requires Hex4(s).Some?
    ensures forall i :: 0 <= i < 4 ==> s[i] as int < 0x80
  {
    assert s[0] == Peek(s, 0) && s[1] == Peek(s, 1) && s[2] == Peek(s, 2) && s[3] == Peek(s, 3);
  }

  /** Escapes are ASCII, and end before the closing quote. */
  lemma EscapeSplits(s: string, k: int)
    requires Closes(s, k) && k > 0 && s[0] == '\\' && GoodEscape(s)
    ensures var n := EscapeLength(s);
      && 2 <= n <= k && Closes(s[n..], k - n) && s[..k][n..] == s[n..][..k - n]
      && AllAscii(s[..k], n)
  {
    AfterBackslash(s, k);
    if s[1] == 'u' {
      AfterEscape(s[2..], k - 2);
      EscapeIsAscii(s[2..]);
      var used := ParseUtf16(s[2..]).value.used;
      assert s[2..][used..] == s[2 + used..];
      assert forall i :: 2 <= i < 2 + used ==> s[i] == s[2..][i - 2];
    }
  }

  lemma EscapeeIsShort(s: string)
    requires GoodEscape(s)
    ensures 1 <= |Escapee(s)| < EscapeLength(s)
  {
  }

  // ---------------------------------------------------------------- valid UTF-8 stays valid

  /** Only characters of one byte are ASCII, and no byte of a longer one is. */
  lemma CharBytes(c: string)
    requires Utf8Char(c)
    ensures |c| == 1 <==> c[0] as int < 0x80
    ensures |c| > 1 ==> forall i :: 0 <= i < |c| ==> c[i] as int >= 0x80
  {
    assert forall i :: 0 <= i < |c| ==> Code(c, i) == c[i] as int;
  }

  lemma PeelChar(s: string) returns (n: nat)
    requires s != "" && Utf8Octets(s)
    ensures 1 <= n <= |s| && Utf8Char(s[..n]) && Utf8Octets(s[n..])
    ensures n == 1 <==> s[0] as int < 0x80
    ensures n > 1 ==> forall i :: 0 <= i < n ==> s[i] as int >= 0x80
  {
    n :| 1 <= n <= |s| && Utf8Char(s[..n]) && Utf8Octets(s[n..]);
    var c := s[..n];
    CharBytes(c);
    assert forall i :: 0 <= i < n ==> c[i] == s[i];
  }

  lemma PrependChar(c: string, p: string)
    requires Utf8Char(c) && Utf8Octets(p)
    ensures Utf8Octets(c + p)
  {
    assert (c + p)[..|c|] == c && (c + p)[|c|..] == p;
  }

  /** Dropping a run of ASCII characters. */
  lemma {:induction false} PeelAscii(s: string, n: nat)
    requires Utf8Octets(s) && AllAscii(s, n)
    ensures Utf8Octets(s[n..])
  {
    if n > 0 {
      var m := PeelChar(s);
      PeelAscii(s[1..], n - 1);
      assert s[1..][n - 1..] == s[n..];
    } else {
      assert s[0..] == s;
    }
  }

  /** The bytes of a longer character are copied one by one. */
  lemma {:induction false} CopiesBytes(s: string, k: int, n: nat)
    requires Closes(s, k) && n <= k && forall i :: 0 <= i < n ==> s[i] as int >= 0x80
    ensures Closes(s[n..], k - n) && Process(s, k) == Prepend(s[..n], Process(s[n..], k - n))
  {
    hide ParseUtf16, SkipBody, Unescape;
    if n > 0 {
      AfterPlain(s, k);
      CopiesBytes(s[1..], k - 1, n - 1);
      assert s[1..][n - 1..] == s[n..] && [s[0]] + s[1..][..n - 1] == s[..n];
      PrependTwice([s[0]], s[1..][..n - 1], Process(s[n..], k - n));
    } else {
      assert s[0..] == s;
      PrependNothing(s[..0], Process(s, k));
    }
  }

  lemma PrependTwice(a: string, b: string, r: Option<string>)
    ensures Prepend(a, Prepend(b, r)) == Prepend(a + b, r)
  {
    if r.Some? {
      assert a + (b + r.value) == a + b + r.value;
    }
  }

  lemma PrependNothing(a: string, r: Option<string>)
    requires a == ""
    ensures Prepend(a, r) == r
  {
    if r.Some? {
      assert a + r.value == r.value;
    }
  }

  lemma Slices(s: string, k: nat, n: nat)
    requires n <= k <= |s|
    ensures s[..k][n..] == s[n..][..k - n] && s[..k][..n] == s[..n]
  {
  }

  /** What the body of a quoted string between valid quotes decodes to, if its bytes are valid UTF-8, is valid too. */
  lemma {:induction false} ValidStaysValid(s: string, k: int)
    requires Closes(s, k) && Utf8Octets(s[..k])
    ensures Process(s, k).Some? ==> Utf8Octets(Process(s, k).value)
    decreases |s|
  {
    hide ParseUtf16, Utf8Char, Unescape;
    if k > 0 && Process(s, k).Some? {
      if s[0] == '\\' {
        EscapeStaysValid(s, k);
      } else {
        var n := PeelChar(s[..k]);
        Slices(s, k, n);
        if n == 1 {
          AfterPlain(s, k);
          ValidStaysValid(s[1..], k - 1);
          assert s[..1] == [s[0]];
          PrependChar(s[..1], Process(s[1..], k - 1).value);
        } else {
          assert forall i :: 0 <= i < n ==> s[..k][i] == s[i];
          CopiesBytes(s, k, n);
          ValidStaysValid(s[n..], k - n);
          PrependChar(s[..n], Process(s[n..], k - n).value);
        }
      }
    }
  }

  lemma {:induction false} EscapeStaysValid(s: string, k: int)
    requires Closes(s, k) && k > 0 && s[0] == '\\' && Utf8Octets(s[..k]) && Process(s, k).Some?
    ensures Utf8Octets(Process(s, k).value)
    decreases |s|, 0
  {
    hide ParseUtf16, Escapee, EscapeLength, Utf8Octets, Utf8Char, SkipBody, Process;
    AfterBackslash(s, k);
    ProcessEscape(s, k);
    var n := EscapeLength(s);
    EscapeSplits(s, k);
    PeelAscii(s[..k], n);
    ValidStaysValid(s[n..], k - n);
    EscapeeIsChar(s);
    PrependChar(Escapee(s), Process(s[n..], k - n).value);
  }

  lemma EscapeeIsChar(s: string)
    requires GoodEscape(s)
    ensures Utf8Char(Escapee(s))
  {
    hide Hex4, Store, Decode;
    if s[1] == 'u' {
      StoreIsUtf8(ParseUtf16(s[2..]).value.cp);
    }
  }

  // ---------------------------------------------------------------- the decoder as it runs

  /** `parse_utf16`, at the `u`: it stores the bytes and leaves both pointers on the last one used. */
  method ParseUtf16At(input: string, i: nat, output: array<char>, o: nat) returns (ok: bool, last: nat, lastOut: nat)
    requires i < |input|
    requires var e := ParseUtf16(input[i + 1..]); e.Some? ==> o + |Store(e.value.cp)| <= output.Length
    modifies output
    ensures ok <==> ParseUtf16(input[i + 1..]).Some?
    ensures ok ==> var e := ParseUtf16(input[i + 1..]).value;
      && last == i + e.used && lastOut + 1 == o + |Store(e.cp)|
      && Stored(old(output[..]), output[..], o, Store(e.cp))
  {
    last, lastOut := i, o;
    var s := input[i + 1..];
    var first := Hex4(s);
    if first.None? {
      return false, i, o;
    }
    var cp := first.value;
    if cp < 0x80 {
      output[o] := cp as char;
    } else if cp < 0x800 {
      output[o] := ((cp / 0x40) % 0x20 + 0xC0) as char;
      output[o + 1] := (cp % 0x40 + 0x80) as char;
      lastOut := o + 1;
    } else if cp < 0xD800 || cp > 0xDFFF {
      output[o] := ((cp / 0x1000) % 0x10 + 0xE0) as char;
      output[o + 1] := ((cp / 0x40) % 0x40 + 0x80) as char;
      output[o + 2] := (cp % 0x40 + 0x80) as char;
      lastOut := o + 2;
    } else if cp <= 0xDBFF {
      if Peek(s, 4) != '\\' || Peek(s, 5) != 'u' {
        return false, i, o;
      }
      var trail := Hex4(s[6..]);
      if trail.None? || trail.value < 0xDC00 || trail.value > 0xDFFF {
        return false, i, o;
      }
      cp := (cp - 0xD800) % 0x400 * 0x400 + (trail.value - 0xDC00) % 0x400 + 0x1_0000;
      assert ParseUtf16(s) == Some(Escape(cp, 10));
      output[o] := ((cp / 0x4_0000) % 8 + 0xF0) as char;
      output[o + 1] := ((cp / 0x1000) % 0x40 + 0x80) as char;
      output[o + 2] := ((cp / 0x40) % 0x40 + 0x80) as char;
      output[o + 3] := (cp % 0x40 + 0x80) as char;
      return true, i + 10, o + 3;
    } else {
      return false, i, o;
    }
    return true, i + 4, lastOut;
  }

  /** The characters `t` are in the buffer at `o`, and what was before them is still there. */
  ghost predicate Stored(before: seq<char>, after: seq<char>, o: nat, t: string) {
    && |after| == |before| && o + |t| <= |before|
    && forall i :: 0 <= i < o + |t| ==> after[i] == if i < o then before[i] else t[i - o]
  }

  lemma StoredPrefix(before: seq<char>, after: seq<char>, o: nat, t: string)
    requires Stored(before, after, o, t)
    ensures after[..o + |t|] == before[..o] + t
  {
  }

  /** The switch over the character after a backslash at `i`. */
  method DecodeEscape(input: string, i: nat, output: array<char>, o: nat) returns (ok: bool, last: nat, lastOut: nat)
    requires i + 1 < |input| && input[i] == '\\'
    requires GoodEscape(input[i..]) ==> o + |Escapee(input[i..])| <= output.Length
    modifies output
    ensures ok <==> GoodEscape(input[i..])
    ensures ok ==> last + 1 == i + EscapeLength(input[i..]) && lastOut + 1 == o + |Escapee(input[i..])|
    ensures ok ==> Stored(old(output[..]), output[..], o, Escapee(input[i..]))
  {
    var c := input[i + 1];
    assert input[i..][1] == c && input[i..][2..] == input[i + 1 + 1..];
    ok, last, lastOut := true, i + 1, o;
    if Unescape(c).Some? {
      output[o] := Unescape(c).value;
    } else if c == 'u' {
      ok, last, lastOut := ParseUtf16At(input, i + 1, output, o);
    } else {
      ok := false;
    }
  }

  /** One character or escape: both pointers move past what was read and written. */
  method DecodePiece(input: string, i: nat, output: array<char>, o: nat) returns (ok: bool, next: nat, nextOut: nat)
    requires i < |input| && (input[i] == '\\' ==> i + 1 < |input|)
    requires Decodable(input[i..]) ==> o + |Piece(input[i..])| <= output.Length
    modifies output
    ensures ok <==> Decodable(input[i..])
    ensures ok ==> Takes(input[i..], old(output[..]), o, output[..], next - i, nextOut - o)
  {
    ok, next, nextOut := true, i, o;
    if input[i] == '\\' {
      ok, next, nextOut := DecodeEscape(input, i, output, o);
    } else if input[i] as int < 0x20 {
      ok := false;
    } else {
      output[o] := input[i];
    }
    next, nextOut := next + 1, nextOut + 1;
  }

  /**
   * Decoding the whole body gives `whole`, and the first `o` characters of the output are what the
   * first `i` of the input stand for.
   */
  ghost predicate Decoding(input: string, len: nat, whole: Option<string>, i: nat, out: seq<char>, o: nat) {
    && o <= i <= len < |input| && |out| == len + 1
    && Closes(input[i..], len - i)
    && whole == Prepend(out[..o], Process(input[i..], len - i))
  }

  lemma DecodingStarts(input: string, len: nat, out: seq<char>)
    requires Closes(input, len) && |out| == len + 1
    ensures Decoding(input, len, Process(input, len), 0, out, 0)
  {
    assert input[0..] == input;
    PrependNothing(out[..0], Process(input, len));
  }

  lemma DecodingEnds(input: string, len: nat, whole: Option<string>, i: nat, out: seq<char>, o: nat)
    requires Decoding(input, len, whole, i, out, o) && (i >= len || Peek(input, i) == NUL)
    ensures o <= len && whole == Some(out[..o])
  {
    assert i == len;
    assert out[..o] + "" == out[..o];
  }

  /** Before a round: the closing quote is still ahead, and there is room for what the round writes. */
  lemma DecodingRound(input: string, len: nat, whole: Option<string>, i: nat, out: seq<char>, o: nat)
    requires Decoding(input, len, whole, i, out, o) && i < len
    ensures input[i] != NUL && (input[i] == '\\' ==> i + 1 < |input|)
    ensures Decodable(input[i..]) ==> o + |Piece(input[i..])| <= |out|
  {
    RoundEnds(input[i..], len - i);
  }

  lemma SuffixOfSuffix(s: string, i: nat, n: nat)
    requires i + n <= |s|
    ensures s[i..][n..] == s[i + n..]
  {
  }

  /** A round that fails shows that decoding fails. */
  lemma DecodingStops(input: string, len: nat, whole: Option<string>, i: nat, out: seq<char>, o: nat)
    requires Decoding(input, len, whole, i, out, o) && i < len && !Decodable(input[i..])
    ensures whole.None?
  {
    RoundEnds(input[i..], len - i);
  }

  /** One that succeeds moves on. */
  lemma DecodingAdvances(input: string, len: nat, whole: Option<string>, i: nat, before: seq<char>, o: nat,
                         after: seq<char>, next: nat, nextOut: nat)
    requires Decoding(input, len, whole, i, before, o) && i < len
    requires Decodable(input[i..]) && Takes(input[i..], before, o, after, next - i, nextOut - o)
    ensures next > i && Decoding(input, len, whole, next, after, nextOut)
  {
    hide EscapeLength, Escapee, SkipBody, Process, GoodEscape, ParseUtf16;
    RoundEnds(input[i..], len - i);
    StoredPrefix(before, after, o, Piece(input[i..]));
    SuffixOfSuffix(input, i, next - i);
    PrependTwice(before[..o], Piece(input[i..]), Process(input[next..], len - next));
  }

  /** The piece at the start of `t` has been read and stored. */
  ghost predicate Takes(t: string, before: seq<char>, o: nat, after: seq<char>, read: int, wrote: int) {
    read == PieceLength(t) && wrote == |Piece(t)| && Stored(before, after, o, Piece(t))
  }

  /** One round of the loop. */
  method DecodeRound(input: string, ghost len: nat, ghost whole: Option<string>, i: nat, output: array<char>, o: nat)
    returns (ok: bool, next: nat, nextOut: nat)
    requires Decoding(input, len, whole, i, output[..], o) && i < len
    modifies output
    ensures ok ==> next > i && Decoding(input, len, whole, next, output[..], nextOut)
    ensures !ok ==> whole.None?
  {
    ghost var before := output[..];
    DecodingRound(input, len, whole, i, before, o);
    ok, next, nextOut := DecodePiece(input, i, output, o);
    if ok {
      DecodingAdvances(input, len, whole, i, before, o, output[..], next, nextOut);
    } else {
      DecodingStops(input, len, whole, i, before, o);
    }
  }

  /** `process_string`: a buffer with the decoded characters and a terminator, or null. */
  method ProcessString(input: string, len: nat) returns (r: array?<char>)
    requires Closes(input, len)
    ensures r == null <==> Process(input, len).None?
    ensures r != null ==> fresh(r) && r[..] == Process(input, len).value + [NUL]
  {
    var output := new char[len + 1];
    var i: nat, o: nat := 0, 0;
    ghost var whole := Process(input, len);
    DecodingStarts(input, len, output[..]);
    while Peek(input, i) != NUL && i < len
      invariant fresh(output) && output.Length == len + 1
      invariant Decoding(input, len, whole, i, output[..], o)
      decreases len - i
    {
      var ok;
      ok, i, o := DecodeRound(input, len, whole, i, output, o);
      if !ok {
        return null;
      }
    }
    DecodingEnds(input, len, whole, i, output[..], o);
    output[o] := NUL;
    r := Resize(output, o + 1);
  }

  /** The copy into a buffer of the final size. */
  method Resize(output: array<char>, size: nat) returns (r: array<char>)
    requires size <= output.Length
    ensures fresh(r) && r[..] == output[..size]
  {
    r := new char[size];
    for i := 0 to size
      invariant forall j :: 0 <= j < i ==> r[j] == output[j]
    {
      r[i] := output[i];
    }
  }

  /** What one round decodes, and how much of the input that is. */
  function Piece(t: string): string {
    if Peek(t, 0) == '\\' then Escapee(t) else [Peek(t, 0)]
  }

  function PieceLength(t: string): nat {
    if Peek(t, 0) == '\\' then EscapeLength(t) else 1
  }

  predicate Decodable(t: string) {
    if Peek(t, 0) == '\\' then GoodEscape(t) else Peek(t, 0) as int >= 0x20
  }

  lemma RoundEnds(t: string, k: int)
    requires Closes(t, k) && k > 0
    ensures t[0] == '\\' ==> |t| > 1
    ensures Decodable(t) ==> |Piece(t)| <= PieceLength(t) <= k && PieceLength(t) > 0 && PieceLength(t) <= |t|
    ensures Decodable(t) ==> Closes(t[PieceLength(t)..], k - PieceLength(t))
    ensures var n := PieceLength(t);
      Process(t, k) == if Decodable(t) then Prepend(Piece(t), Process(t[n..], k - n)) else None
  {
    hide ParseUtf16, Hex4, HexChar;
    if t[0] == '\\' {
      AfterBackslash(t, k);
      ProcessEscape(t, k);
      if GoodEscape(t) {
        EscapeSplits(t, k);
        EscapeeIsShort(t);
      }
    } else {
      AfterPlain(t, k);
    }
  }

  /** The decoded string is never longer than what stands between the quotes. */
  lemma {:induction false} ProcessNeverOutgrows(s: string, k: int)
    requires Closes(s, k)
    ensures Process(s, k).Some? ==> |Process(s, k).value| <= k
    decreases |s|
  {
    hide Process, Closes, Decodable, Piece, PieceLength;
    if k == 0 {
      ProcessNothing(s);
    } else {
      ClosesAt(s, k);
      RoundEnds(s, k);
      if Decodable(s) {
        ProcessNeverOutgrows(s[PieceLength(s)..], k - PieceLength(s));
      }
    }
  }

  lemma ProcessNothing(s: string)
    ensures Process(s, 0) == Some("")
  {
  }

  lemma ClosesAt(s: string, k: int)
    requires Closes(s, k)
    ensures 0 <= k < |s|
  {
    hide SkipBody;
  }
}
