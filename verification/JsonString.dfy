/** JSON strings of deps/lua-cjson-2.1.0/lua_cjson.c: what `json_append_string` writes and what `json_next_string_token`
    reads, against a grammar of string units. */
module JsonString {
  import opened Bytes

  const SLASH: Byte := 47
  const LETTER_U: Byte := 117

  // ---- UTF-8, section 3 of RFC 3629 ----

  predicate Scalar(cp: int) {
    0 <= cp <= 0x10FFFF && !(0xD800 <= cp < 0xE000)
  }

  predicate Continuation(b: Byte) {
    0x80 <= b < 0xC0
  }

  /** The character that a byte sequence encodes, if it is a well-formed encoding of one. */
  function Utf8Scalar(s: seq<Byte>): (cp: int) {
    if |s| == 1 && s[0] < 0x80 then s[0]
    else if |s| == 2 && 0xC2 <= s[0] < 0xE0 && Continuation(s[1]) then Six(s[0] - 0xC0, s[1])
    else if |s| == 3 && 0xE0 <= s[0] < 0xF0 && Continuation(s[1]) && Continuation(s[2])
            && (s[0] == 0xE0 ==> s[1] >= 0xA0) && (s[0] == 0xED ==> s[1] < 0xA0)
      then Six(Six(s[0] - 0xE0, s[1]), s[2])
    else if |s| == 4 && 0xF0 <= s[0] < 0xF5 && Continuation(s[1]) && Continuation(s[2]) && Continuation(s[3])
            && (s[0] == 0xF0 ==> s[1] >= 0x90) && (s[0] == 0xF4 ==> s[1] < 0x90)
      then Six(Six(Six(s[0] - 0xF0, s[1]), s[2]), s[3])
    else -1
  }

  /** Six more bits, from a continuation byte. */
  function Six(high: int, b: Byte): (cp: int) {
    high * 64 + (b - 0x80)
  }

  /** `codepoint_to_utf8`, with every shift by six as a division; nothing for a code point past 21 bits. */
  function CodepointToUtf8(cp: nat): (s: seq<Byte>)
    ensures |s| <= 4
  {
    var q := cp / 64;
    if cp <= 0x7F then [cp]
    else if cp <= 0x7FF then [q + 0xC0, cp % 64 + 0x80]
    else if cp <= 0xFFFF then [q / 64 + 0xE0, q % 64 + 0x80, cp % 64 + 0x80]
    else if cp <= 0x1FFFFF then [q / 64 / 64 + 0xF0, q / 64 % 64 + 0x80, q % 64 + 0x80, cp % 64 + 0x80]
    else []
  }

  /** The encoding is well-formed for the code point exactly when the code point is a character. */
  lemma {:induction false} Utf8RoundTripIff(cp: nat)
    ensures Utf8Scalar(CodepointToUtf8(cp)) == cp <==> Scalar(cp)
  {
    var q, r := cp / 64, cp % 64;
    var q2, r2 := q / 64, q % 64;
    var q3, r3 := q2 / 64, q2 % 64;
    if cp <= 0x7FF {
    } else if cp <= 0xFFFF {
      Utf8Three(q2, r2, r, cp);
    } else if cp <= 0x1FFFFF {
      Utf8Four(q3, r3, r2, r, cp);
    }
  }

  lemma {:induction false} Utf8Three(a: nat, b: nat, c: nat, cp: nat)
    requires b < 64 && c < 64 && cp == (a * 64 + b) * 64 + c && 0x7FF < cp <= 0xFFFF
    ensures a < 16 && (Utf8Scalar([a + 0xE0, b + 0x80, c + 0x80]) == cp <==> Scalar(cp))
  {
  }

  lemma {:induction false} Utf8Four(a: nat, b: nat, c: nat, d: nat, cp: nat)
    requires b < 64 && c < 64 && d < 64 && cp == ((a * 64 + b) * 64 + c) * 64 + d && 0xFFFF < cp <= 0x1FFFFF
    ensures a < 8 && (Utf8Scalar([a + 0xF0, b + 0x80, c + 0x80, d + 0x80]) == cp <==> Scalar(cp))
  {
  }

  /** Examples of section 7 of RFC 3629. */
  lemma Utf8Examples()
    ensures CodepointToUtf8(0x0041) == [0x41] && CodepointToUtf8(0x0391) == [0xCE, 0x91]
    ensures CodepointToUtf8(0x2262) == [0xE2, 0x89, 0xA2] && CodepointToUtf8(0x233B4) == [0xF0, 0xA3, 0x8E, 0xB4]
  {
  }

  // ---- Hexadecimal ----

  predicate Hex4(h: seq<Byte>) {
    |h| == 4 && HexDigit(h[0]) >= 0 && HexDigit(h[1]) >= 0 && HexDigit(h[2]) >= 0 && HexDigit(h[3]) >= 0
  }

  function HexValue(h: seq<Byte>): (n: nat)
    requires Hex4(h)
    ensures n < 0x10000
  {
    ((HexDigit(h[0]) * 16 + HexDigit(h[1])) * 16 + HexDigit(h[2])) * 16 + HexDigit(h[3])
  }

  function HexSpelling(n: nat): (h: seq<Byte>)
    requires n < 0x10000
    ensures Hex4(h) && HexValue(h) == n
  {
    var q := n / 16;
    [HexChar(q / 16 / 16), HexChar(q / 16 % 16), HexChar(q % 16), HexChar(n % 16)]
  }

  /** `decode_hex4`: reads up to the first byte that is no digit, so never past the terminator. */
  method DecodeHex4(text: seq<Byte>, i: nat) returns (r: int)
    requires i <= |text|
    ensures if i + 4 <= |text| && Hex4(text[i..i + 4]) then r == HexValue(text[i..i + 4]) else r == -1
  {
    var digit := [];
    var k := 0;
    while k < 4
      invariant 0 <= k <= 4 && |digit| == k && i + k <= |text|
      invariant forall j :: 0 <= j < k ==> digit[j] == HexDigit(text[i + j]) >= 0
    {
      var d := HexDigit(CharAt(text, i + k));
      if d < 0 { return -1; }
      digit := digit + [d];
      k := k + 1;
    }
    r := digit[0] * 4096 + digit[1] * 256 + digit[2] * 16 + digit[3];
  }

  // ---- The grammar of string units ----

  datatype Unit = Plain(b: Byte) | Simple(c: Byte) | Code(h: seq<Byte>) | Pair(high: seq<Byte>, low: seq<Byte>)

  predicate HighSurrogate(n: nat) { 0xD800 <= n < 0xDC00 }
  predicate LowSurrogate(n: nat) { 0xDC00 <= n < 0xE000 }

  /** What a letter behind a backslash stands for in section 7 of RFC 8259, 8 being the backspace and 12 the form feed;
      0 for none. */
  function Letter(c: Byte): (b: Byte) {
    if c == '"' as int || c == '\\' as int || c == '/' as int then c
    else if c == 'b' as int then 8 else if c == 'f' as int then 12
    else if c == 'n' as int then '\n' as int else if c == 'r' as int then '\r' as int
    else if c == 't' as int then '\t' as int else 0
  }

  /** `escape2char`: the letter `u` stands for itself. */
  function Escape(c: Byte): (b: Byte) {
    if c == QUOTE || c == BACKSLASH || c == SLASH || c == LETTER_U then c
    else if c == 98 then 8 else if c == 116 then 9 else if c == 110 then 10 else if c == 102 then 12 else if c == 114 then 13
    else 0
  }

  predicate UnitOk(u: Unit) {
    match u
    case Plain(b) => b != 0 && b != '"' as int && b != '\\' as int
    case Simple(c) => Letter(c) != 0
    case Code(h) => Hex4(h) && !HighSurrogate(HexValue(h)) && !LowSurrogate(HexValue(h))
    case Pair(a, b) => Hex4(a) && Hex4(b) && HighSurrogate(HexValue(a)) && LowSurrogate(HexValue(b))
  }

  function Spell(u: Unit): (s: seq<Byte>) {
    match u
    case Plain(b) => [b]
    case Simple(c) => ['\\' as int, c]
    case Code(h) => ['\\' as int, 'u' as int] + h
    case Pair(a, b) => ['\\' as int, 'u' as int] + a + ['\\' as int, 'u' as int] + b
  }

  /** The character that an escape of hexadecimal code units stands for. */
  function Codepoint(u: Unit): (cp: nat)
    requires UnitOk(u) && (u.Code? || u.Pair?)
    ensures Scalar(cp)
  {
    if u.Code? then HexValue(u.h)
    else (HexValue(u.high) - 0xD800) * 0x400 + (HexValue(u.low) - 0xDC00) + 0x10000
  }

  function Value(u: Unit): (s: seq<Byte>)
    requires UnitOk(u)
  {
    match u
    case Plain(b) => [b]
    case Simple(c) => [Letter(c)]
    case _ => CodepointToUtf8(Codepoint(u))
  }

  predicate UnitsOk(us: seq<Unit>) {
    forall k :: 0 <= k < |us| ==> UnitOk(us[k])
  }

  function SpellAll(us: seq<Unit>): (s: seq<Byte>) {
    if us == [] then [] else Spell(us[0]) + SpellAll(us[1..])
  }

  function ValueAll(us: seq<Unit>): (s: seq<Byte>)
    requires UnitsOk(us)
  {
    if us == [] then [] else Value(us[0]) + ValueAll(us[1..])
  }

  /** Every character has an escape, and its value is the character's UTF-8 encoding. */
  lemma {:induction false} EveryScalarEscapes(cp: nat) returns (u: Unit)
    requires Scalar(cp)
    ensures UnitOk(u) && Utf8Scalar(Value(u)) == cp && (u.Code? || u.Pair?)
    ensures Spell(u) == [BACKSLASH, LETTER_U] + (if cp < 0x10000 then HexSpelling(cp)
              else HexSpelling(0xD800 + (cp - 0x10000) / 0x400) + [BACKSLASH, LETTER_U]
                   + HexSpelling(0xDC00 + (cp - 0x10000) % 0x400))
  {
    hide CodepointToUtf8, Utf8Scalar, Hex4, HexValue, HexSpelling;
    Utf8RoundTripIff(cp);
    if cp < 0x10000 {
      u := Code(HexSpelling(cp));
    } else {
      u := Pair(HexSpelling(0xD800 + (cp - 0x10000) / 0x400), HexSpelling(0xDC00 + (cp - 0x10000) % 0x400));
      assert Codepoint(u) == cp;
    }
  }

  /** Decoding never lengthens. */
  lemma UnitFits(u: Unit)
    requires UnitOk(u)
    ensures |Value(u)| <= |Spell(u)|
  {
    hide HexDigit, HexValue;
  }

  lemma {:induction false} ValueFits(us: seq<Unit>)
    requires UnitsOk(us)
    ensures |ValueAll(us)| <= |SpellAll(us)|
  {
    hide UnitOk, Spell, Value;
    if us != [] {
      ValueFits(us[1..]);
      UnitFits(us[0]);
    }
  }

  // ---- json_next_string_token ----

  datatype Error = UnexpectedEnd | InvalidUnicode | InvalidEscape

  datatype Token = String(value: seq<Byte>, end: nat) | Err(error: Error, at: nat)

  datatype Scanned = Done | Fail(error: Error) | Next(unit: Unit)

  /** The unit at a position. */
  function Scan(text: seq<Byte>, i: nat): (r: Scanned)
    requires i <= |text|
  {
    var ch := CharAt(text, i);
    if ch == QUOTE then Done
    else if ch == 0 then Fail(UnexpectedEnd)
    else if ch == BACKSLASH then
      var e := Escape(CharAt(text, i + 1));
      if e == LETTER_U then ScanCode(text, i)
      else if e == 0 then Fail(InvalidEscape)
      else Next(Simple(CharAt(text, i + 1)))
    else Next(Plain(ch))
  }

  function ScanCode(text: seq<Byte>, i: nat): (r: Scanned)
    requires i + 2 <= |text|
  {
    if !(i + 6 <= |text| && Hex4(text[i + 2..i + 6])) then Fail(InvalidUnicode)
    else
      var h := text[i + 2..i + 6];
      if UnitOk(Code(h)) then Next(Code(h))
      else if i + 12 <= |text| && text[i + 6] == BACKSLASH && text[i + 7] == LETTER_U
              && UnitOk(Pair(h, text[i + 8..i + 12])) then
        Next(Pair(h, text[i + 8..i + 12]))
      else Fail(InvalidUnicode)
  }

  lemma CodeThere(text: seq<Byte>, i: nat, h: seq<Byte>)
    requires i + 6 <= |text| && text[i] == BACKSLASH && text[i + 1] == LETTER_U && h == text[i + 2..i + 6]
    ensures text[i..i + 6] == Spell(Code(h)) && |Spell(Code(h))| == 6
  {
    assert text[i..i + 6] == [text[i], text[i + 1]] + text[i + 2..i + 6];
  }

  lemma PairThere(text: seq<Byte>, i: nat, high: seq<Byte>, low: seq<Byte>)
    requires i + 12 <= |text| && text[i] == BACKSLASH && text[i + 1] == LETTER_U && high == text[i + 2..i + 6]
    requires text[i + 6] == BACKSLASH && text[i + 7] == LETTER_U && low == text[i + 8..i + 12]
    ensures text[i..i + 12] == Spell(Pair(high, low)) && |Spell(Pair(high, low))| == 12
  {
    assert text[i..i + 12] ==
           [text[i], text[i + 1]] + text[i + 2..i + 6] + [text[i + 6], text[i + 7]] + text[i + 8..i + 12];
  }

  lemma ScanCodeSound(text: seq<Byte>, i: nat)
    requires i + 2 <= |text| && text[i] == BACKSLASH && text[i + 1] == LETTER_U && ScanCode(text, i).Next?
    ensures
      var u := ScanCode(text, i).unit;
      UnitOk(u) && i + |Spell(u)| <= |text| && text[i..i + |Spell(u)|] == Spell(u) && |Spell(u)| > 0
  {
    hide UnitOk, Hex4, Spell;
    var h := text[i + 2..i + 6];
    if UnitOk(Code(h)) {
      CodeThere(text, i, h);
    } else {
      PairThere(text, i, h, text[i + 8..i + 12]);
    }
  }

  lemma {:induction false} ScanSound(text: seq<Byte>, i: nat)
    requires i <= |text| && Scan(text, i).Next?
    ensures
      var u := Scan(text, i).unit;
      UnitOk(u) && i + |Spell(u)| <= |text| && text[i..i + |Spell(u)|] == Spell(u) && |Spell(u)| > 0
  {
    hide HexValue, HexDigit, HexChar, ScanCode, Hex4;
    if text[i] == BACKSLASH && Escape(CharAt(text, i + 1)) == LETTER_U { ScanCodeSound(text, i); }
  }

  lemma {:induction false} ScanDone(text: seq<Byte>, i: nat)
    requires i <= |text|
    ensures Scan(text, i).Done? <==> i < |text| && text[i] == QUOTE
  {
  }

  lemma {:induction false} ScanComplete(text: seq<Byte>, i: nat, u: Unit)
    requires UnitOk(u) && i + |Spell(u)| <= |text| && text[i..i + |Spell(u)|] == Spell(u)
    ensures Scan(text, i) == Next(u)
  {
    hide HexValue, HexDigit, HexChar;
    var s, t := Spell(u), text[i..i + |Spell(u)|];
    assert forall k :: 0 <= k < |s| ==> t[k] == text[i + k];
    assert text[i] == t[0] && (|s| > 1 ==> text[i + 1] == t[1]);
    if u.Code? {
      assert text[i + 2..i + 6] == t[2..6] == u.h;
    } else if u.Pair? {
      assert t[6] == BACKSLASH && t[7] == LETTER_U;
      assert text[i + 2..i + 6] == t[2..6] == u.high && text[i + 8..i + 12] == t[8..12] == u.low;
    }
  }

  /** Everything up to the closing quote, behind the opening one. */
  function Body(text: seq<Byte>, i: nat): (t: Token)
    requires i <= |text|
    decreases |text| - i
  {
    match Scan(text, i)
    case Done => String([], i + 1)
    case Fail(e) => Err(e, i)
    case Next(u) =>
      ScanSound(text, i);
      var t := Body(text, i + |Spell(u)|);
      if t.String? then t.(value := Value(u) + t.value) else t
  }

  /** `text[i..end]` is a quoted string of units. */
  ghost predicate Quoted(text: seq<Byte>, i: nat, end: nat, us: seq<Unit>) {
    && i + 2 <= end <= |text| && UnitsOk(us) && text[i] == QUOTE && text[end - 1] == QUOTE
    && text[i + 1..end - 1] == SpellAll(us)
  }

  lemma {:induction false} BodySound(text: seq<Byte>, i: nat) returns (us: seq<Unit>)
    requires i <= |text| && Body(text, i).String?
    ensures
      var t := Body(text, i);
      && i < t.end <= |text| && UnitsOk(us) && text[t.end - 1] == QUOTE
      && text[i..t.end - 1] == SpellAll(us) && t.value == ValueAll(us)
    decreases |text| - i
  {
    hide Scan, ScanCode, UnitOk, Spell, Value;
    if Scan(text, i).Done? {
      ScanDone(text, i);
      us := [];
    } else {
      var u := Scan(text, i).unit;
      ScanSound(text, i);
      var n, end := |Spell(u)|, Body(text, i).end;
      var rest := BodySound(text, i + n);
      us := [u] + rest;
      assert us[1..] == rest;
      assert text[i..end - 1] == text[i..i + n] + text[i + n..end - 1];
    }
  }

  lemma {:induction false} BodyComplete(text: seq<Byte>, i: nat, end: nat, us: seq<Unit>)
    requires i < end <= |text| && UnitsOk(us) && text[end - 1] == QUOTE && text[i..end - 1] == SpellAll(us)
    ensures Body(text, i) == String(ValueAll(us), end)
    decreases |us|
  {
    hide Scan, ScanCode, UnitOk, Spell, Value;
    if us == [] {
      assert |text[i..end - 1]| == 0;
      ScanDone(text, i);
    } else {
      hide SpellAll;
      FirstUnit(text, i, end - 1, us);
      ScanComplete(text, i, us[0]);
      BodyComplete(text, i + |Spell(us[0])|, end, us[1..]);
    }
  }

  lemma FirstUnit(text: seq<Byte>, i: nat, end: nat, us: seq<Unit>)
    requires i <= end <= |text| && us != [] && text[i..end] == SpellAll(us)
    ensures
      var n := |Spell(us[0])|;
      i + n <= end && text[i..i + n] == Spell(us[0]) && text[i + n..end] == SpellAll(us[1..])
  {
    hide Spell;
    var s, n := text[i..end], |Spell(us[0])|;
    assert s[..n] == Spell(us[0]) && s[n..] == SpellAll(us[1..]);
    assert text[i..i + n] == s[..n] && text[i + n..end] == s[n..];
  }

  /** What `json_next_string_token` makes of the text from a quote on. */
  function StringToken(text: seq<Byte>, i: nat): (t: Token)
    requires i < |text|
  {
    Body(text, i + 1)
  }

  /** What is read up to position `i + |SpellAll(us)|` when units stand there. */
  lemma {:induction false} BodyAfter(text: seq<Byte>, i: nat, us: seq<Unit>)
    requires UnitsOk(us) && Has(text, i, SpellAll(us))
    ensures i + |SpellAll(us)| <= |text|
    ensures Body(text, i) == Prepend(ValueAll(us), Body(text, i + |SpellAll(us)|))
    decreases |us|
  {
    hide Scan, ScanCode, UnitOk, Spell, Value, Has;
    HasWithin(text, i, SpellAll(us));
    if us == [] {
      PrependNothing(Body(text, i));
    } else {
      var n := |Spell(us[0])|;
      HasSplit(text, i, Spell(us[0]), SpellAll(us[1..]));
      UnitHere(text, i, us[0]);
      ScanSound(text, i);
      BodyAfter(text, i + n, us[1..]);
      var t := Body(text, i + |SpellAll(us)|);
      if t.String? { AppendAssoc(Value(us[0]), ValueAll(us[1..]), t.value); }
    }
  }

  lemma UnitHere(text: seq<Byte>, i: nat, u: Unit)
    requires UnitOk(u) && Has(text, i, Spell(u))
    ensures i <= |text| && Scan(text, i) == Next(u)
  {
    hide UnitOk, Spell, Scan;
    ScanComplete(text, i, u);
  }

  /** What is wrong at a position: the text ends, a backslash is followed by no escape letter, or `\u` starts neither a
      character nor a surrogate pair. */
  ghost predicate WrongAt(text: seq<Byte>, at: nat, e: Error) {
    at <= |text| &&
    match e
    case UnexpectedEnd => CharAt(text, at) == 0
    case InvalidEscape =>
      && CharAt(text, at) == '\\' as int
      && Letter(CharAt(text, at + 1)) == 0 && CharAt(text, at + 1) != 'u' as int
    case InvalidUnicode =>
      && Has(text, at, ['\\' as int, 'u' as int])
      && forall u :: UnitOk(u) && (u.Code? || u.Pair?) ==> !Has(text, at, Spell(u))
  }

  lemma WrongScan(text: seq<Byte>, at: nat, e: Error)
    requires at <= |text|
    ensures WrongAt(text, at, e) <==> Scan(text, at) == Fail(e)
  {
    hide UnitOk, Hex4, Spell, HexValue;
    if e.InvalidUnicode? {
      WrongUnicode(text, at);
    } else if at < |text| && text[at] == BACKSLASH {
      EscapeIsLetter(CharAt(text, at + 1));
    }
  }

  lemma EscapeIsLetter(c: Byte)
    ensures Escape(c) == if c == 'u' as int then c else Letter(c)
  {
  }

  lemma WrongUnicode(text: seq<Byte>, at: nat)
    requires at <= |text|
    ensures WrongAt(text, at, InvalidUnicode) <==> Scan(text, at) == Fail(InvalidUnicode)
  {
    hide UnitOk, Hex4, HexValue, ScanCode, Spell, Has;
    if Has(text, at, ['\\' as int, 'u' as int]) {
      UnicodeStarts(text, at);
      if ScanCode(text, at).Next? {
        ScanCodeSound(text, at);
        var u := ScanCode(text, at).unit;
        assert (u.Code? || u.Pair?) && Has(text, at, Spell(u)) by { CodeOrPair(text, at); HasThere(text, at, Spell(u)); }
      } else {
        forall u | UnitOk(u) && (u.Code? || u.Pair?) ensures !Has(text, at, Spell(u)) {
          if Has(text, at, Spell(u)) { UnitHere(text, at, u); }
        }
      }
    } else {
      NoUnicode(text, at);
    }
  }

  lemma HasThere(s: seq<Byte>, at: nat, t: seq<Byte>)
    requires at + |t| <= |s| && s[at..at + |t|] == t
    ensures Has(s, at, t)
  {
  }

  lemma UnicodeStarts(text: seq<Byte>, at: nat)
    requires Has(text, at, ['\\' as int, 'u' as int])
    ensures at + 2 <= |text| && text[at] == BACKSLASH && text[at + 1] == LETTER_U && Scan(text, at) == ScanCode(text, at)
    ensures !ScanCode(text, at).Next? ==> ScanCode(text, at) == Fail(InvalidUnicode)
  {
    hide Hex4;
    assert text[at..at + 2][0] == text[at] && text[at..at + 2][1] == text[at + 1];
  }

  lemma CodeOrPair(text: seq<Byte>, at: nat)
    requires at + 2 <= |text| && ScanCode(text, at).Next?
    ensures ScanCode(text, at).unit.Code? || ScanCode(text, at).unit.Pair?
  {
    hide Hex4, UnitOk;
  }

  lemma NoUnicode(text: seq<Byte>, at: nat)
    requires at <= |text| && !Has(text, at, ['\\' as int, 'u' as int])
    ensures Scan(text, at) != Fail(InvalidUnicode)
  {
    hide ScanCode;
    if at < |text| { EscapeIsLetter(CharAt(text, at + 1)); }
  }

  /** The units in front of an error. */
  lemma {:induction false} ErrorSound(text: seq<Byte>, i: nat) returns (us: seq<Unit>)
    requires i <= |text| && Body(text, i).Err?
    ensures
      var t := Body(text, i);
      UnitsOk(us) && Has(text, i, SpellAll(us)) && t.at == i + |SpellAll(us)| && WrongAt(text, t.at, t.error)
    decreases |text| - i
  {
    hide Scan, ScanCode, UnitOk, Spell, Value, WrongAt;
    us := [];
    if Scan(text, i).Fail? {
      WrongScan(text, i, Scan(text, i).error);
    } else {
      ScanSound(text, i);
      var u := Scan(text, i).unit;
      var rest := ErrorSound(text, i + |Spell(u)|);
      us := [u] + rest;
      assert us[1..] == rest;
      HasSplit(text, i, Spell(u), SpellAll(rest));
    }
  }

  /** A token is refused exactly at the first position where no unit stands and the string does not end, with the error
      that says why. */
  lemma {:induction false} RejectsIff(text: seq<Byte>, i: nat, e: Error, at: nat)
    requires i < |text| && text[i] == QUOTE
    ensures StringToken(text, i) == Err(e, at) <==>
            && WrongAt(text, at, e)
            && exists us :: UnitsOk(us) && Has(text, i + 1, SpellAll(us)) && at == i + 1 + |SpellAll(us)|
  {
    hide Body, Scan, SpellAll, ValueAll, UnitOk, WrongAt, Has;
    if StringToken(text, i) == Err(e, at) {
      var us := ErrorSound(text, i + 1);
    }
    if WrongAt(text, at, e) {
      forall us | UnitsOk(us) && Has(text, i + 1, SpellAll(us)) && at == i + 1 + |SpellAll(us)|
        ensures StringToken(text, i) == Err(e, at)
      {
        BodyAfter(text, i + 1, us);
        WrongScan(text, at, e);
        BodyStops(text, at);
      }
    }
  }

  /** A token is accepted exactly when the text is a quoted string of units, with their value. */
  lemma {:induction false} AcceptsIff(text: seq<Byte>, i: nat, value: seq<Byte>, end: nat)
    requires i < |text| && text[i] == QUOTE
    ensures StringToken(text, i) == String(value, end) <==> exists us :: Quoted(text, i, end, us) && ValueAll(us) == value
  {
    hide Body, SpellAll, ValueAll, UnitOk;
    if StringToken(text, i) == String(value, end) {
      var us := BodySound(text, i + 1);
      assert Quoted(text, i, end, us);
    }
    forall us | Quoted(text, i, end, us) && ValueAll(us) == value ensures StringToken(text, i) == String(value, end) {
      BodyComplete(text, i + 1, end, us);
    }
  }

  /** `strbuf_init`: a byte more than asked for, or the default. */
  function StrbufSize(len: nat): (n: nat)
    ensures n > len
  {
    if len == 0 then 1023 else len + 1
  }

  /** `strbuf_append_mem_unsafe` and `strbuf_append_char_unsafe`: the caller answers for the room. */
  function AppendUnsafe(buf: seq<Byte>, bytes: seq<Byte>, size: nat): (r: seq<Byte>)
    requires |buf| + |bytes| <= size
  {
    buf + bytes
  }

  lemma {:induction false} SurrogateBits(n: nat)
    requires n < 0x10000
    ensures n / 0x800 == 0x1B <==> HighSurrogate(n) || LowSurrogate(n)
    ensures n / 0x800 == 0x1B ==> (n / 0x400 % 2 == 1 <==> LowSurrogate(n))
    ensures n / 0x400 == 0x37 <==> LowSurrogate(n)
    ensures HighSurrogate(n) ==> n % 0x400 == n - 0xD800
    ensures LowSurrogate(n) ==> n % 0x400 == n - 0xDC00
  {
  }

  /** `json_append_unicode_escape`, with the masks as divisions. */
  method AppendUnicodeEscape(text: seq<Byte>, i: nat, tmp: seq<Byte>, size: nat)
    returns (ok: bool, tmp': seq<Byte>, i': nat)
    requires i + 2 <= |text| && |tmp| + (|text| - i) <= size
    ensures ok <==> ScanCode(text, i).Next?
    ensures ok ==>
              var u := ScanCode(text, i).unit;
              UnitOk(u) && tmp' == tmp + Value(u) && i' == i + |Spell(u)|
  {
    hide Hex4, HexValue, CodepointToUtf8;
    ok, tmp', i' := false, tmp, i;
    var codepoint := DecodeHex4(text, i + 2);
    if codepoint < 0 { return; }
    SurrogateBits(codepoint);
    var escapeLen := 6;
    if codepoint / 0x800 == 0x1B {
      if codepoint / 0x400 % 2 == 1 { return; }
      if CharAt(text, i + escapeLen) != BACKSLASH || CharAt(text, i + escapeLen + 1) != LETTER_U { return; }
      var low := DecodeHex4(text, i + 2 + escapeLen);
      if low < 0 { return; }
      SurrogateBits(low);
      if low / 0x400 != 0x37 { return; }
      codepoint := codepoint % 0x400 * 0x400 + low % 0x400 + 0x10000;
      escapeLen := 12;
    }
    var utf8 := CodepointToUtf8(codepoint);
    Utf8Length(codepoint);
    if |utf8| == 0 { return; }
    tmp' := AppendUnsafe(tmp, utf8, size);
    i' := i + escapeLen;
    ok := true;
  }

  lemma {:induction false} Utf8Length(cp: nat)
    ensures cp <= 0x1FFFFF <==> |CodepointToUtf8(cp)| > 0
    ensures cp <= 0xFFFF ==> |CodepointToUtf8(cp)| <= 3
  {
  }

  /** A token with something before its value. */
  function Prepend(value: seq<Byte>, t: Token): (r: Token) {
    if t.String? then t.(value := value + t.value) else t
  }

  lemma {:induction false} PrependStep(text: seq<Byte>, i: nat, tmp: seq<Byte>)
    requires i <= |text| && Scan(text, i).Next?
    ensures
      var u := Scan(text, i).unit;
      && UnitOk(u) && 0 < |Spell(u)| <= |text| - i && |Value(u)| <= |Spell(u)|
      && Prepend(tmp, Body(text, i)) == Prepend(tmp + Value(u), Body(text, i + |Spell(u)|))
  {
    hide Scan, UnitOk, Spell, Value;
    ScanSound(text, i);
    var u := Scan(text, i).unit;
    UnitFits(u);
    var t := Body(text, i + |Spell(u)|);
    if t.String? { AppendAssoc(tmp, Value(u), t.value); }
  }

  /** `json_next_string_token` on a text whose temporary buffer was sized by its length: the unchecked appends fit. */
  method NextStringToken(text: seq<Byte>, start: nat) returns (t: Token)
    requires start < |text| && text[start] == QUOTE
    ensures t == StringToken(text, start)
  {
    hide Body, ScanCode, Value, UnitOk, Spell;
    var size := StrbufSize(|text|);
    var i, tmp := start + 1, [];
    PrependNothing(Body(text, i));
    while CharAt(text, i) != QUOTE
      invariant start < i <= |text| && |tmp| < i && StringToken(text, start) == Prepend(tmp, Body(text, i))
      decreases |text| - i
    {
      BodyStops(text, i);
      var ch := CharAt(text, i);
      if ch == 0 { return Err(UnexpectedEnd, i); }
      if Scan(text, i).Next? { PrependStep(text, i, tmp); }
      if ch == BACKSLASH {
        ch := Escape(CharAt(text, i + 1));
        if ch == LETTER_U {
          var ok, tmp', i' := AppendUnicodeEscape(text, i, tmp, size);
          if !ok { return Err(InvalidUnicode, i); }
          tmp, i := tmp', i';
          continue;
        }
        if ch == 0 { return Err(InvalidEscape, i); }
        SimpleValue(CharAt(text, i + 1));
        i := i + 1;
      } else {
        PlainValue(ch);
      }
      tmp := AppendUnsafe(tmp, [ch], size);
      i := i + 1;
    }
    BodyStops(text, i);
    assert tmp + [] == tmp;
    t := String(tmp, i + 1);
  }

  lemma {:induction false} PrependNothing(t: Token)
    ensures Prepend([], t) == t
  {
    if t.String? { assert [] + t.value == t.value; }
  }

  lemma {:induction false} SimpleValue(c: Byte)
    ensures Spell(Simple(c)) == [BACKSLASH, c] && (UnitOk(Simple(c)) ==> Value(Simple(c)) == [Escape(c)])
    ensures Escape(c) != LETTER_U && Escape(c) != 0 ==> UnitOk(Simple(c))
  {
  }

  lemma {:induction false} PlainValue(b: Byte)
    ensures Spell(Plain(b)) == [b] && (UnitOk(Plain(b)) ==> Value(Plain(b)) == [b])
  {
  }

  lemma {:induction false} BodyStops(text: seq<Byte>, i: nat)
    requires i <= |text|
    ensures Scan(text, i).Done? ==> Body(text, i) == String([], i + 1)
    ensures Scan(text, i).Fail? ==> Body(text, i) == Err(Scan(text, i).error, i)
    ensures i + 2 <= |text| && !ScanCode(text, i).Next? ==> ScanCode(text, i) == Fail(InvalidUnicode)
  {
  }

  /** The value of an accepted string is at least two bytes shorter than the text it is read from. */
  lemma {:induction false} DecodedFits(text: seq<Byte>, i: nat)
    requires i < |text| && StringToken(text, i).String?
    ensures |StringToken(text, i).value| + 2 <= StringToken(text, i).end - i <= |text| - i
  {
    var us := BodySound(text, i + 1);
    ValueFits(us);
  }

  // ---- json_append_string ----

  /** The entry of `char2escape`, or the byte itself where there is none. */
  function EscapeOf(b: Byte): (s: seq<Byte>)
    ensures 0 < |s| <= 6
  {
    if b == 8 then [BACKSLASH, 98] else if b == 9 then [BACKSLASH, 116] else if b == 10 then [BACKSLASH, 110]
    else if b == 12 then [BACKSLASH, 102] else if b == 13 then [BACKSLASH, 114]
    else if b < 32 || b == 127 then [BACKSLASH, LETTER_U, 48, 48, HexChar(b / 16), HexChar(b % 16)]
    else if b == QUOTE || b == SLASH || b == BACKSLASH then [BACKSLASH, b]
    else [b]
  }

  function EscapeAll(s: seq<Byte>): (r: seq<Byte>) {
    if s == [] then [] else EscapeOf(s[0]) + EscapeAll(s[1..])
  }

  /** The JSON text of a byte string. */
  function Encode(s: seq<Byte>): (r: seq<Byte>) {
    [QUOTE] + EscapeAll(s) + [QUOTE]
  }

  lemma {:induction false} EscapeAllSnoc(s: seq<Byte>, b: Byte)
    ensures EscapeAll(s + [b]) == EscapeAll(s) + EscapeOf(b)
  {
    if s == [] {
      assert [b][1..] == [] && EscapeAll([b]) == EscapeOf(b) + EscapeAll([]);
    } else {
      assert (s + [b])[1..] == s[1..] + [b];
      EscapeAllSnoc(s[1..], b);
    }
  }

  /** `json_append_string`: the room set aside suffices for the appends that do not check for it. */
  method AppendString(json: seq<Byte>, str: seq<Byte>) returns (json': seq<Byte>)
    ensures json' == json + Encode(str)
    ensures |json'| <= |json| + 6 * |str| + 2
  {
    hide EscapeOf;
    var size := |json| + 6 * |str| + 2;
    json' := AppendUnsafe(json, [QUOTE], size);
    var i := 0;
    while i < |str|
      invariant 0 <= i <= |str| && json' == json + [QUOTE] + EscapeAll(str[..i]) && |json'| <= |json| + 1 + 6 * i
    {
      assert str[..i + 1] == str[..i] + [str[i]];
      EscapeAllSnoc(str[..i], str[i]);
      json' := AppendUnsafe(json', EscapeOf(str[i]), size);
      i := i + 1;
    }
    json' := AppendUnsafe(json', [QUOTE], size);
    assert str[..i] == str && json' == json + ([QUOTE] + EscapeAll(str) + [QUOTE]);
  }

  /** The unit that `EscapeOf` spells. */
  function UnitFor(b: Byte): (u: Unit) {
    var s := EscapeOf(b);
    if |s| == 6 then Code(s[2..]) else if |s| == 2 then Simple(s[1]) else Plain(b)
  }

  lemma {:induction false} UnitForOk(b: Byte)
    ensures UnitOk(UnitFor(b)) && Spell(UnitFor(b)) == EscapeOf(b) && Value(UnitFor(b)) == [b]
    ensures UnitFor(b).Simple? <==>
            || b == '"' as int || b == '\\' as int || b == '/' as int
            || b == '\n' as int || b == '\r' as int || b == '\t' as int || b == 8 || b == 12
    ensures UnitFor(b).Code? <==> (b < ' ' as int || b == 127) && !UnitFor(b).Simple?
  {
  }

  lemma {:induction false} EscapeAllUnits(s: seq<Byte>) returns (us: seq<Unit>)
    ensures UnitsOk(us) && SpellAll(us) == EscapeAll(s) && ValueAll(us) == s
  {
    hide UnitFor, EscapeOf, UnitOk, Spell, Value;
    if s == [] {
      us := [];
    } else {
      var rest := EscapeAllUnits(s[1..]);
      UnitForOk(s[0]);
      us := [UnitFor(s[0])] + rest;
      assert us[1..] == rest && s == [s[0]] + s[1..];
    }
  }

  /** Every byte string, zero bytes included, is read back from wherever its JSON text stands. */
  lemma {:induction false} JsonRoundTrip(before: seq<Byte>, s: seq<Byte>, after: seq<Byte>)
    ensures StringToken(before + Encode(s) + after, |before|) == String(s, |before| + |Encode(s)|)
  {
    hide Body;
    var us := EscapeAllUnits(s);
    var text, i, end := before + Encode(s) + after, |before|, |before| + |Encode(s)|;
    assert text[i + 1..end - 1] == EscapeAll(s) && text[end - 1] == QUOTE;
    BodyComplete(text, i + 1, end, us);
  }
}
