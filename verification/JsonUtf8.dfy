/**
 * UTF-8 and UTF-16 in the JSON library (libfreenect/fakenect/parson.c): the validator, and the
 * decoding of \u escapes. A C `char` is a `char` of the same code; past the end of a string the
 * code reads the terminator.
 */
module JsonUtf8 {
  import opened Options

  const NUL: char := 0 as char

  /** `s[i]` of a NUL-terminated string. */
  function Peek(s: string, i: nat): char {
    if i < |s| then s[i] else NUL
  }

  function Code(s: string, i: nat): int {
    Peek(s, i) as int
  }

  // ---------------------------------------------------------------- section 4 of RFC 3629

  predicate Tail(c: int) { 0x80 <= c <= 0xBF }

  /** UTF8-1 to UTF8-4 of the grammar. */
  predicate Utf8Char(s: string) {
    var a, b, c, d := Code(s, 0), Code(s, 1), Code(s, 2), Code(s, 3);
    if |s| == 1 then a <= 0x7F
    else if |s| == 2 then 0xC2 <= a <= 0xDF && Tail(b)
    else if |s| == 3 then
      && Tail(c)
      && ((a == 0xE0 && 0xA0 <= b <= 0xBF) || (0xE1 <= a <= 0xEC && Tail(b)) ||
          (a == 0xED && 0x80 <= b <= 0x9F) || (0xEE <= a <= 0xEF && Tail(b)))
    else if |s| == 4 then
      && Tail(c) && Tail(d)
      && ((a == 0xF0 && 0x90 <= b <= 0xBF) || (0xF1 <= a <= 0xF3 && Tail(b)) || (a == 0xF4 && 0x80 <= b <= 0x8F))
    else false
  }

  /** `UTF8-octets = *( UTF8-char )`. */
  ghost predicate Utf8Octets(s: string)
    decreases |s|
  {
    s == "" || exists n :: 1 <= n <= |s| && Utf8Char(s[..n]) && Utf8Octets(s[n..])
  }

  /** The number that a character of the grammar encodes (section 3). */
  function CodePoint(s: string): int
    requires Utf8Char(s)
  {
    if |s| == 1 then Code(s, 0)
    else if |s| == 2 then (Code(s, 0) - 0xC0) * 0x40 + (Code(s, 1) - 0x80)
    else if |s| == 3 then (Code(s, 0) - 0xE0) * 0x1000 + (Code(s, 1) - 0x80) * 0x40 + (Code(s, 2) - 0x80)
    else
      (Code(s, 0) - 0xF0) * 0x4_0000 + (Code(s, 1) - 0x80) * 0x1000 +
      (Code(s, 2) - 0x80) * 0x40 + (Code(s, 3) - 0x80)
  }

  predicate Encodes(s: string, cp: int) {
    Utf8Char(s) && CodePoint(s) == cp
  }

  predicate Scalar(cp: int) {
    0 <= cp <= 0x10_FFFF && !(0xD800 <= cp <= 0xDFFF)
  }

  // ---------------------------------------------------------------- the validator

  predicate IsCont(c: int) { 0x80 <= c < 0xC0 }

  /** `num_bytes_in_utf8_sequence`. */
  function NumBytes(c: int): nat {
    if c == 0xC0 || c == 0xC1 || c > 0xF4 || IsCont(c) then 0
    else if c < 0x80 then 1
    else if c < 0xE0 then 2
    else if c < 0xF0 then 3
    else if c < 0xF8 then 4
    else 0
  }

  /** The code point that the bytes would encode, or -1 if a continuation byte is missing. */
  function Assemble(s: string, len: nat): int {
    var a, b, c, d := Code(s, 0), Code(s, 1), Code(s, 2), Code(s, 3);
    if len == 1 then a
    else if len == 2 && IsCont(b) then (a % 0x20) * 0x40 + b % 0x40
    else if len == 3 && IsCont(b) && IsCont(c) then ((a % 0x10) * 0x40 + b % 0x40) * 0x40 + c % 0x40
    else if len == 4 && IsCont(b) && IsCont(c) && IsCont(d) then
      (((a % 8) * 0x40 + b % 0x40) * 0x40 + c % 0x40) * 0x40 + d % 0x40
    else -1
  }

  /** `verify_utf8_sequence`: the length of a valid sequence at the start of `s`, or 0. */
  function Verify(s: string): nat {
    var len := NumBytes(Code(s, 0));
    var cp := Assemble(s, len);
    if cp == -1 then 0
    else if (cp < 0x80 && len > 1) || (cp < 0x800 && len > 2) || (cp < 0x1_0000 && len > 3) then 0
    else if cp > 0x10_FFFF then 0
    else if 0xD800 <= cp <= 0xDFFF then 0
    else len
  }

  /** The sequence test finds exactly the characters of the grammar. */
  lemma VerifyIsGrammar(s: string, n: nat)
    requires s != ""
    ensures n > 0 && Verify(s) == n ==> n <= |s| && Utf8Char(s[..n])
    ensures 1 <= n <= |s| && Utf8Char(s[..n]) ==> Verify(s) == n
  {
    if n > 0 && Verify(s) == n {
      VerifiedIsChar(s, n);
    }
    if 1 <= n <= |s| && Utf8Char(s[..n]) {
      CharIsVerified(s, n);
    }
  }

  lemma VerifiedIsChar(s: string, n: nat)
    requires s != "" && n > 0 && Verify(s) == n
    ensures n <= |s| && Utf8Char(s[..n])
  {
    assert n <= |s|;
    assert forall i :: 0 <= i < n ==> s[..n][i] == s[i];
  }

  lemma CharIsVerified(s: string, n: nat)
    requires 1 <= n <= |s| && Utf8Char(s[..n])
    ensures Verify(s) == n
  {
    assert forall i :: 0 <= i < n ==> s[..n][i] == s[i];
    if n > 2 {
      LongIsVerified(s, s[..n]);
    }
  }

  lemma LongIsVerified(s: string, c: string)
    requires 2 < |c| <= |s| && Utf8Char(c) && forall i :: 0 <= i < |c| ==> Code(s, i) == Code(c, i)
    ensures Verify(s) == |c|
  {
    hide Peek;
    TailBits(Code(s, 1));
    TailBits(Code(s, 2));
    if |c| == 3 {
      assert Code(s, 0) % 0x10 == Code(s, 0) - 0xE0;
    } else {
      assert Code(s, 0) % 8 == Code(s, 0) - 0xF0;
      TailBits(Code(s, 3));
    }
  }

  /** What a continuation byte contributes. */
  lemma TailBits(c: int)
    ensures IsCont(c) <==> Tail(c)
    ensures Tail(c) ==> c % 0x40 == c - 0x80
  {
  }

  /** `is_valid_utf8` accepts exactly the byte strings of the grammar. */
  method IsValidUtf8(s: string) returns (valid: bool)
    ensures valid <==> Utf8Octets(s)
  {
    hide Verify, Utf8Octets;
    var pos := 0;
    assert s[0..] == s;
    while pos < |s|
      invariant 0 <= pos <= |s|
      invariant Utf8Octets(s) <==> Utf8Octets(s[pos..])
    {
      var t := s[pos..];
      var len := Verify(t);
      OctetsStep(t);
      if len == 0 {
        return false;
      }
      assert s[pos..][len..] == s[pos + len..];
      pos := pos + len;
    }
    NoOctets(s[pos..]);
    return true;
  }

  lemma NoOctets(s: string)
    requires s == ""
    ensures Utf8Octets(s)
  {
  }

  lemma OctetsStep(s: string)
    requires s != ""
    ensures Verify(s) <= |s|
    ensures Utf8Octets(s) <==> Verify(s) > 0 && Utf8Octets(s[Verify(s)..])
  {
    VerifyIsGrammar(s, Verify(s));
    if Utf8Octets(s) {
      var n :| 1 <= n <= |s| && Utf8Char(s[..n]) && Utf8Octets(s[n..]);
      VerifyIsGrammar(s, n);
    }
  }

  // ---------------------------------------------------------------- \u escapes

  /** `hex_char_to_int`. */
  function HexChar(c: char): int {
    if '0' <= c <= '9' then c as int - '0' as int
    else if 'a' <= c <= 'f' then c as int - 'a' as int + 10
    else if 'A' <= c <= 'F' then c as int - 'A' as int + 10
    else -1
  }

  /** `parse_utf16_hex`: four hexadecimal digits. */
  function Hex4(s: string): (r: Option<nat>)
    ensures r.Some? ==> r.value < 0x1_0000 && |s| >= 4
  {
    var a, b, c, d := HexChar(Peek(s, 0)), HexChar(Peek(s, 1)), HexChar(Peek(s, 2)), HexChar(Peek(s, 3));
    if a == -1 || b == -1 || c == -1 || d == -1 then None
    else Some(a * 0x1000 + b * 0x100 + c * 0x10 + d)
  }

  /** The bytes that `parse_utf16` stores for a code point. */
  function Store(cp: nat): string
    requires cp <= 0x10_FFFF
  {
    if cp < 0x80 then [cp as char]
    else if cp < 0x800 then [((cp / 0x40) % 0x20 + 0xC0) as char, (cp % 0x40 + 0x80) as char]
    else if cp < 0x1_0000 then
      [((cp / 0x1000) % 0x10 + 0xE0) as char, ((cp / 0x40) % 0x40 + 0x80) as char, (cp % 0x40 + 0x80) as char]
    else
      [((cp / 0x4_0000) % 8 + 0xF0) as char, ((cp / 0x1000) % 0x40 + 0x80) as char,
       ((cp / 0x40) % 0x40 + 0x80) as char, (cp % 0x40 + 0x80) as char]
  }

  /** What an accepted escape yields: its code point, and the characters of input after the `u` used. */
  datatype Escape = Escape(cp: nat, used: nat)

  /** The code unit of a second escape right after the first, if there is one. */
  function Second(s: string): (r: Option<nat>)
    ensures r.Some? ==> r.value < 0x1_0000 && |s| >= 10
  {
    if Peek(s, 4) != '\\' || Peek(s, 5) != 'u' then None else Hex4(s[6..])
  }

  /** What one or two code units decode to. */
  function Decode(first: Option<nat>, second: Option<nat>): (r: Option<Escape>)
    requires first.Some? ==> first.value < 0x1_0000
    ensures r.Some? ==> Scalar(r.value.cp)
    ensures r.Some? ==> r.value.used == (if r.value.cp < 0x1_0000 then 4 else 10)
    ensures r.Some? ==> first.Some? && (r.value.used == 10 ==> second.Some?)
  {
    if first.None? then None
    else
      var lead := first.value;
      if lead < 0xD800 || lead > 0xDFFF then Some(Escape(lead, 4))
      else if lead <= 0xDBFF then
        if second.None? || second.value < 0xDC00 || second.value > 0xDFFF then None
        else Some(Escape((lead - 0xD800) % 0x400 * 0x400 + (second.value - 0xDC00) % 0x400 + 0x1_0000, 10))
      else None
  }

  /** `parse_utf16`, on the input after the `u`. */
  function ParseUtf16(s: string): (r: Option<Escape>)
    ensures r.Some? ==> Scalar(r.value.cp) && 0 < r.value.used <= |s|
    ensures r.Some? ==> r.value.used == if r.value.cp < 0x1_0000 then 4 else 10
  {
    Decode(Hex4(s), Second(s))
  }

  /** The digits of a number in base 64. */
  lemma Base64(x: nat)
    ensures x == (x / 0x40) * 0x40 + x % 0x40
    ensures x == ((x / 0x1000) * 0x40 + (x / 0x40) % 0x40) * 0x40 + x % 0x40
    ensures x == (((x / 0x4_0000) * 0x40 + (x / 0x1000) % 0x40) * 0x40 + (x / 0x40) % 0x40) * 0x40 + x % 0x40
  {
    var y := x / 0x40;
    var z := y / 0x40;
    assert x / 0x1000 == z && x / 0x4_0000 == z / 0x40;
  }

  lemma StoreTwo(cp: nat)
    requires 0x80 <= cp < 0x800
    ensures Encodes(Store(cp), cp)
  {
    Base64(cp);
  }

  lemma StoreThree(cp: nat)
    requires 0x800 <= cp < 0x1_0000 && Scalar(cp)
    ensures Encodes(Store(cp), cp)
  {
    Base64(cp);
    assert cp / 0x1000 < 0x10 && (cp / 0x1000) % 0x10 == cp / 0x1000;
  }

  lemma StoreFour(cp: nat)
    requires 0x1_0000 <= cp <= 0x10_FFFF
    ensures Encodes(Store(cp), cp)
  {
    Base64(cp);
    assert cp / 0x4_0000 < 8 && (cp / 0x4_0000) % 8 == cp / 0x4_0000;
  }

  /** Every stored code point is a character of the grammar, with that code point. */
  lemma StoreIsUtf8(cp: nat)
    requires Scalar(cp)
    ensures Encodes(Store(cp), cp)
    ensures Verify(Store(cp)) == |Store(cp)|
  {
    if 0x80 <= cp < 0x800 {
      StoreTwo(cp);
    } else if 0x800 <= cp < 0x1_0000 {
      StoreThree(cp);
    } else if 0x1_0000 <= cp {
      StoreFour(cp);
    }
    VerifyIsGrammar(Store(cp), |Store(cp)|);
    assert Store(cp)[..|Store(cp)|] == Store(cp);
  }

  /** Section 2.2 of RFC 2781: a lead and a trail surrogate, and the number they stand for. */
  predicate SurrogatePair(lead: int, trail: int, cp: int) {
    && 0xD800 <= lead <= 0xDBFF && 0xDC00 <= trail <= 0xDFFF
    && cp == 0x1_0000 + (lead - 0xD800) * 0x400 + (trail - 0xDC00)
  }

  /**
   * Section 2.5 of RFC 4627: one escape that names a scalar value, or two that name a surrogate
   * pair. The arguments are the numbers after the first and the second \u.
   */
  predicate Denotes(first: Option<nat>, second: Option<nat>, cp: nat) {
    || (first == Some(cp) && Scalar(cp))
    || (first.Some? && second.Some? && SurrogatePair(first.value, second.value, cp))
  }

  /**
   * Escapes are accepted exactly when they denote something, with the code point they denote, and
   * what is stored for them is accepted by the validator and encodes that code point.
   */
  lemma EscapeMeaning(s: string, cp: nat)
    ensures (ParseUtf16(s).Some? && ParseUtf16(s).value.cp == cp) <==> Denotes(Hex4(s), Second(s), cp)
    ensures Denotes(Hex4(s), Second(s), cp) ==>
              Scalar(cp) && Encodes(Store(cp), cp) && Verify(Store(cp)) == |Store(cp)|
  {
    DecodeMeaning(Hex4(s), Second(s), cp);
    if Scalar(cp) {
      StoreIsUtf8(cp);
    }
  }

  lemma DecodeMeaning(first: Option<nat>, second: Option<nat>, cp: nat)
    requires first.Some? ==> first.value < 0x1_0000
    ensures var d := Decode(first, second);
      (d.Some? && d.value.cp == cp) <==> Denotes(first, second, cp)
  {
  }
}
