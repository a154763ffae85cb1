/** Quoting, splitting and joining of strings in src/util/sds.c. */
module Sds {
  import opened Bytes

  const SPACE: Byte := 32
  const APOSTROPHE: Byte := 39
  const LETTER_X: Byte := 120

  /** `isspace` and `isprint` in the C locale. */
  predicate IsSpace(b: Byte) { b == ' ' as int || '\t' as int <= b <= '\r' as int }
  predicate IsPrint(b: Byte) { ' ' as int <= b <= '~' as int }

  // ---- sdscatrepr ----

  /** What a letter stands for behind a backslash in double quotes. */
  function Unescape(c: Byte): (b: Byte) {
    if c == 110 then 10 else if c == 114 then 13 else if c == 116 then 9 else if c == 98 then 8 else if c == 97 then 7 else c
  }

  function ReprOf(b: Byte): (s: seq<Byte>) {
    if b == BACKSLASH || b == QUOTE then [BACKSLASH, b]
    else if b == 10 then [BACKSLASH, 110] else if b == 13 then [BACKSLASH, 114] else if b == 9 then [BACKSLASH, 116]
    else if b == 7 then [BACKSLASH, 97] else if b == 8 then [BACKSLASH, 98]
    else if IsPrint(b) then [b]
    else [BACKSLASH, LETTER_X, HexChar(b / 16), HexChar(b % 16)]
  }

  function ReprAll(s: seq<Byte>): (r: seq<Byte>) {
    if s == [] then [] else ReprOf(s[0]) + ReprAll(s[1..])
  }

  /** A byte string in double quotes. */
  function Repr(s: seq<Byte>): (r: seq<Byte>) {
    [QUOTE] + ReprAll(s) + [QUOTE]
  }

  lemma {:induction false} ReprAllSnoc(s: seq<Byte>, b: Byte)
    ensures ReprAll(s + [b]) == ReprAll(s) + ReprOf(b)
  {
    hide ReprOf;
    if s == [] {
      assert [b][1..] == [] && ReprAll([b]) == ReprOf(b) + ReprAll([]);
    } else {
      assert (s + [b])[1..] == s[1..] + [b];
      ReprAllSnoc(s[1..], b);
    }
  }

  /** `sdscatrepr` */
  method CatRepr(s: seq<Byte>, p: seq<Byte>) returns (s': seq<Byte>)
    ensures s' == s + Repr(p)
  {
    hide ReprOf;
    s' := s + [QUOTE];
    var i := 0;
    while i < |p|
      invariant 0 <= i <= |p| && s' == s + [QUOTE] + ReprAll(p[..i])
    {
      assert p[..i + 1] == p[..i] + [p[i]];
      ReprAllSnoc(p[..i], p[i]);
      s' := s' + ReprOf(p[i]);
      i := i + 1;
    }
    s' := s' + [QUOTE];
    assert p[..i] == p && s' == s + ([QUOTE] + ReprAll(p) + [QUOTE]);
  }

  // ---- sdssplitargs ----

  datatype Mode = Bare | Double | Single

  /** An argument and the position behind it. */
  datatype Arg = Arg(text: seq<Byte>, end: nat)

  predicate Ends(b: Byte) { b == 0 || IsSpace(b) }

  /** The argument that continues at `i`, with `cur` read so far; nothing when its quotes are not closed properly. */
  function ArgAt(line: seq<Byte>, i: nat, mode: Mode, cur: seq<Byte>): (r: Option<Arg>)
    requires i <= |line|
    ensures r.Some? ==> i <= r.value.end <= |line|
    ensures r.Some? && CharAt(line, i) != 0 ==> i < r.value.end
    decreases |line| - i
  {
    var c := CharAt(line, i);
    if c == 0 then (if mode.Bare? then Some(Arg(cur, i)) else None)
    else
      var n := CharAt(line, i + 1);
      match mode
      case Double =>
        if c == BACKSLASH && n == LETTER_X && HexDigit(CharAt(line, i + 2)) >= 0 && HexDigit(CharAt(line, i + 3)) >= 0 then
          ArgAt(line, i + 4, mode, cur + [HexDigit(line[i + 2]) * 16 + HexDigit(line[i + 3])])
        else if c == BACKSLASH && n != 0 then ArgAt(line, i + 2, mode, cur + [Unescape(n)])
        else if c == QUOTE then (if Ends(n) then Some(Arg(cur, i + 1)) else None)
        else ArgAt(line, i + 1, mode, cur + [c])
      case Single =>
        if c == BACKSLASH && n == APOSTROPHE then ArgAt(line, i + 2, mode, cur + [APOSTROPHE])
        else if c == APOSTROPHE then (if Ends(n) then Some(Arg(cur, i + 1)) else None)
        else ArgAt(line, i + 1, mode, cur + [c])
      case Bare =>
        if c == SPACE || c == 9 || c == 10 || c == 13 then Some(Arg(cur, i + 1))
        else if c == QUOTE then ArgAt(line, i + 1, Double, cur)
        else if c == APOSTROPHE then ArgAt(line, i + 1, Single, cur)
        else ArgAt(line, i + 1, mode, cur + [c])
  }

  function SkipBlanks(line: seq<Byte>, i: nat): (r: nat)
    requires i <= |line|
    ensures i <= r <= |line| && !IsSpace(CharAt(line, r))
    decreases |line| - i
  {
    if IsSpace(CharAt(line, i)) then SkipBlanks(line, i + 1) else i
  }

  /** The arguments from position `i` on. */
  function Args(line: seq<Byte>, i: nat): (r: Option<seq<seq<Byte>>>)
    requires i <= |line|
    decreases |line| - i
  {
    var j := SkipBlanks(line, i);
    if CharAt(line, j) == 0 then Some([])
    else
      match ArgAt(line, j, Bare, [])
      case None => None
      case Some(a) =>
        match Args(line, a.end)
        case None => None
        case Some(rest) => Some([a.text] + rest)
  }

  function ModeOf(inq: bool, insq: bool): (m: Mode) {
    if inq then Double else if insq then Single else Bare
  }

  /** The inner loop of `sdssplitargs`: one argument. */
  method GetArg(line: seq<Byte>, start: nat) returns (r: Option<Arg>)
    requires start <= |line|
    ensures r == ArgAt(line, start, Bare, []) && exists w :: WordResult(line, start, w, r)
  {
    hide WordResult, BrokenAt, WordAt, Text;
    ghost var w := WordThere(line, start);
    ResultOfWord(line, start, w);
    var p, current: seq<Byte> := start, [];
    var inq, insq, done := false, false, false;
    while !done
      invariant start <= p <= |line| && !(inq && insq)
      invariant ArgAt(line, start, Bare, []) ==
                  if done then Some(Arg(current, p)) else ArgAt(line, p, ModeOf(inq, insq), current)
      decreases |line| - p, !done
    {
      var c := CharAt(line, p);
      if inq {
        if c == BACKSLASH && CharAt(line, p + 1) == LETTER_X
           && HexDigit(CharAt(line, p + 2)) >= 0 && HexDigit(CharAt(line, p + 3)) >= 0 {
          current := current + [HexDigit(CharAt(line, p + 2)) * 16 + HexDigit(CharAt(line, p + 3))];
          p := p + 3;
        } else if c == BACKSLASH && CharAt(line, p + 1) != 0 {
          p := p + 1;
          current := current + [Unescape(CharAt(line, p))];
        } else if c == QUOTE {
          if !Ends(CharAt(line, p + 1)) { return None; }
          done := true;
        } else if c == 0 {
          return None;
        } else {
          current := current + [c];
        }
      } else if insq {
        if c == BACKSLASH && CharAt(line, p + 1) == APOSTROPHE {
          p := p + 1;
          current := current + [APOSTROPHE];
        } else if c == APOSTROPHE {
          if !Ends(CharAt(line, p + 1)) { return None; }
          done := true;
        } else if c == 0 {
          return None;
        } else {
          current := current + [c];
        }
      } else {
        if c == SPACE || c == 10 || c == 13 || c == 9 || c == 0 {
          done := true;
        } else if c == QUOTE {
          inq := true;
        } else if c == APOSTROPHE {
          insq := true;
        } else {
          current := current + [c];
        }
      }
      if CharAt(line, p) != 0 { p := p + 1; }
    }
    r := Some(Arg(current, p));
  }

  /** Arguments already read, in front of the rest. */
  function After(vector: seq<seq<Byte>>, rest: Option<seq<seq<Byte>>>): (r: Option<seq<seq<Byte>>>) {
    if rest.Some? then Some(vector + rest.value) else None
  }

  /** `sdssplitargs` */
  method SplitArgs(line: seq<Byte>) returns (r: Option<seq<seq<Byte>>>)
    ensures r == Args(line, 0) && exists p :: ParseAt(line, 0, p) && Outcome(p) == r
  {
    hide ArgAt, Args, SkipBlanks, ParseAt, Outcome, WordResult;
    ghost var parse := ParseOf(line, 0);
    ArgsOfParse(line, 0, parse);
    var p, vector: seq<seq<Byte>> := 0, [];
    AfterNone(Args(line, 0));
    while true
      invariant 0 <= p <= |line| && Args(line, 0) == After(vector, Args(line, p))
      decreases |line| - p
    {
      while CharAt(line, p) != 0 && IsSpace(CharAt(line, p))
        invariant 0 <= p <= |line| && Args(line, 0) == After(vector, Args(line, p))
        decreases |line| - p
      {
        BlankSkipped(line, p);
        p := p + 1;
      }
      ArgsHere(line, p);
      if CharAt(line, p) == 0 {
        assert vector + [] == vector;
        return Some(vector);
      }
      var a := GetArg(line, p);
      if a.None? { return None; }
      AfterTwice(vector, a.value.text, Args(line, a.value.end));
      vector, p := vector + [a.value.text], a.value.end;
    }
  }

  lemma AfterNone(rest: Option<seq<seq<Byte>>>)
    ensures After([], rest) == rest
  {
    if rest.Some? { assert [] + rest.value == rest.value; }
  }

  lemma AfterTwice(vector: seq<seq<Byte>>, x: seq<Byte>, rest: Option<seq<seq<Byte>>>)
    ensures After(vector, After([x], rest)) == After(vector + [x], rest)
  {
    if rest.Some? { AppendAssoc(vector, [x], rest.value); }
  }

  /** The arguments from a position that is not blank. */
  lemma ArgsHere(line: seq<Byte>, i: nat)
    requires i <= |line| && !(CharAt(line, i) != 0 && IsSpace(CharAt(line, i)))
    ensures CharAt(line, i) == 0 ==> Args(line, i) == Some([])
    ensures CharAt(line, i) != 0 ==>
              var a := ArgAt(line, i, Bare, []);
              if a.None? then Args(line, i) == None
              else i < a.value.end <= |line| && Args(line, i) == After([a.value.text], Args(line, a.value.end))
  {
    hide ArgAt;
  }

  // ---- What a line says ----

  /** One unit of an argument as it is written. */
  datatype Unit = Plain(b: Byte) | Hex(high: Byte, low: Byte) | Escaped(c: Byte)

  function Spelling(u: Unit): (s: seq<Byte>)
    ensures |s| > 0
  {
    match u
    case Plain(b) => [b]
    case Hex(h, l) => ['\\' as int, 'x' as int, h, l]
    case Escaped(c) => ['\\' as int, c]
  }

  /** The byte a unit stands for; 7 and 8 are the bell and the backspace. */
  function Meaning(u: Unit): (b: Byte) {
    match u
    case Plain(b) => b
    case Hex(h, l) => if IsHexDigit(h) && IsHexDigit(l) then HexDigit(h) * 16 + HexDigit(l) else 0
    case Escaped(c) =>
      if c == 'n' as int then '\n' as int else if c == 'r' as int then '\r' as int else if c == 't' as int then '\t' as int
      else if c == 'b' as int then 8 else if c == 'a' as int then 7 else c
  }

  /** The byte at a position, zero behind the end. */
  function Peek(line: seq<Byte>, i: nat): (b: Byte) {
    if i < |line| then line[i] else 0
  }

  predicate StopsWord(b: Byte) {
    b == 0 || b == ' ' as int || b == '\n' as int || b == '\r' as int || b == '\t' as int
  }

  predicate IsQuote(b: Byte) {
    b == '"' as int || b == '\'' as int
  }

  function QuoteChar(mode: Mode): (b: Byte)
    requires !mode.Bare?
  {
    if mode.Double? then '"' as int else '\'' as int
  }

  /** Unit `u` stands at position `i`; `\x` with two digits is never taken for an escaped x. */
  ghost predicate UnitAt(line: seq<Byte>, i: nat, mode: Mode, u: Unit) {
    && Has(line, i, Spelling(u))
    && match mode
       case Bare => u.Plain? && !StopsWord(u.b) && !IsQuote(u.b)
       case Double =>
         (match u
          case Plain(b) => b != 0 && b != '"' as int && (b == '\\' as int ==> Peek(line, i + 1) == 0)
          case Hex(h, l) => IsHexDigit(h) && IsHexDigit(l)
          case Escaped(c) =>
            c != 0 && !(c == 'x' as int && IsHexDigit(Peek(line, i + 2)) && IsHexDigit(Peek(line, i + 3))))
       case Single =>
         (match u
          case Plain(b) => b != 0 && b != '\'' as int && !(b == '\\' as int && Peek(line, i + 1) == '\'' as int)
          case Hex(_, _) => false
          case Escaped(c) => c == '\'' as int)
  }

  function SpellLen(us: seq<Unit>): (n: nat) {
    if us == [] then 0 else |Spelling(us[0])| + SpellLen(us[1..])
  }

  function Meanings(us: seq<Unit>): (s: seq<Byte>) {
    seq(|us|, i requires 0 <= i < |us| => Meaning(us[i]))
  }

  ghost predicate UnitsAt(line: seq<Byte>, i: nat, mode: Mode, us: seq<Unit>)
    decreases |us|
  {
    us == [] || (UnitAt(line, i, mode, us[0]) && UnitsAt(line, i + |Spelling(us[0])|, mode, us[1..]))
  }

  /** An argument: bare bytes, and behind them possibly one quoted part. */
  datatype Word = Word(bare: seq<Unit>, quote: Mode, units: seq<Unit>)

  function Text(w: Word): (s: seq<Byte>) {
    Meanings(w.bare) + Meanings(w.units)
  }

  /** Where the bare bytes of a word at `i` end, and where its last unit does. */
  function BareEnd(i: nat, w: Word): (j: nat) {
    i + SpellLen(w.bare)
  }

  function UnitsEnd(i: nat, w: Word): (k: nat) {
    if w.quote.Bare? then BareEnd(i, w) else BareEnd(i, w) + 1 + SpellLen(w.units)
  }

  /** The units of word `w` stand at `i`, behind its opening quote those of the quoted part. */
  ghost predicate WordUnits(line: seq<Byte>, i: nat, w: Word) {
    && UnitsAt(line, i, Bare, w.bare)
    && if w.quote.Bare? then w.units == []
       else Peek(line, BareEnd(i, w)) == QuoteChar(w.quote) && UnitsAt(line, BareEnd(i, w) + 1, w.quote, w.units)
  }

  /** A whole word stands at `i` and ends at `end`. */
  ghost predicate WordAt(line: seq<Byte>, i: nat, w: Word, end: nat) {
    var k := UnitsEnd(i, w);
    && WordUnits(line, i, w)
    && if w.quote.Bare? then StopsWord(Peek(line, k)) && end == k
       else Peek(line, k) == QuoteChar(w.quote) && Ends(Peek(line, k + 1)) && end == k + 1
  }

  /** A word begins at `i` whose quotes are not closed, or not followed by a blank or the end. */
  ghost predicate BrokenAt(line: seq<Byte>, i: nat, w: Word) {
    var k := UnitsEnd(i, w);
    && !w.quote.Bare? && WordUnits(line, i, w)
    && (Peek(line, k) == 0 || (Peek(line, k) == QuoteChar(w.quote) && !Ends(Peek(line, k + 1))))
  }

  ghost predicate BlanksAt(line: seq<Byte>, i: nat, n: nat) {
    i + n <= |line| && forall k :: i <= k < i + n ==> IsSpace(line[k])
  }

  datatype Item = Item(gap: nat, word: Word, end: nat)

  /** A line: blanks and words, then blanks and the end, or a broken word. */
  datatype Parse = Parse(items: seq<Item>, gap: nat, broken: Option<Word>)

  ghost predicate ParseAt(line: seq<Byte>, i: nat, p: Parse)
    decreases |p.items|
  {
    var gap := if p.items == [] then p.gap else p.items[0].gap;
    && BlanksAt(line, i, gap) && !IsSpace(Peek(line, i + gap))
    && (Peek(line, i + gap) == 0 <==> p.items == [] && p.broken.None?)
    && if p.items == [] then p.broken.Some? ==> BrokenAt(line, i + gap, p.broken.value)
       else
         && WordAt(line, i + gap, p.items[0].word, p.items[0].end)
         && ParseAt(line, p.items[0].end, p.(items := p.items[1..]))
  }

  function Texts(items: seq<Item>): (r: seq<seq<Byte>>) {
    seq(|items|, i requires 0 <= i < |items| => Text(items[i].word))
  }

  /** What splitting a line means: its words, or nothing if there is a broken one. */
  function Outcome(p: Parse): (r: Option<seq<seq<Byte>>>) {
    if p.broken.Some? then None else Some(Texts(p.items))
  }

  /** How `sdscatrepr` writes a byte: as it is if it is printable, by a letter if it has one, and otherwise by two
      lower-case hexadecimal digits; always printable, and standing for the byte. */
  lemma ReprOfByte(b: Byte) returns (u: Unit)
    ensures ReprOf(b) == Spelling(u) && Meaning(u) == b && forall i :: 0 <= i < |ReprOf(b)| ==> IsPrint(ReprOf(b)[i])
    ensures u.Plain? <==> IsPrint(b) && b != '"' as int && b != '\\' as int
    ensures u.Escaped? <==>
            || b == '"' as int || b == '\\' as int || b == '\n' as int || b == '\r' as int || b == '\t' as int
            || b == 7 || b == 8
    ensures u.Hex? ==> !('A' as int <= u.high <= 'F' as int) && !('A' as int <= u.low <= 'F' as int)
  {
    if b == BACKSLASH || b == QUOTE || b == 10 || b == 13 || b == 9 || b == 7 || b == 8 {
      u := Escaped(ReprOf(b)[1]);
    } else if IsPrint(b) {
      u := Plain(b);
    } else {
      u := Hex(HexChar(b / 16), HexChar(b % 16));
    }
  }

  /** One quoted byte is read as that byte. */
  lemma {:induction false} ReprStep(line: seq<Byte>, i: nat, b: Byte, cur: seq<Byte>)
    requires i + |ReprOf(b)| <= |line| && line[i..i + |ReprOf(b)|] == ReprOf(b)
    ensures ArgAt(line, i, Double, cur) == ArgAt(line, i + |ReprOf(b)|, Double, cur + [b])
  {
    var s, t := ReprOf(b), line[i..i + |ReprOf(b)|];
    assert forall k :: 0 <= k < |s| ==> t[k] == line[i + k];
    assert line[i] == t[0] && (|s| > 1 ==> line[i + 1] == t[1]) && (|s| == 4 ==> line[i + 2] == t[2] && line[i + 3] == t[3]);
  }

  lemma {:induction false} ReprAllRead(line: seq<Byte>, i: nat, s: seq<Byte>, cur: seq<Byte>)
    requires i + |ReprAll(s)| <= |line| && line[i..i + |ReprAll(s)|] == ReprAll(s)
    ensures ArgAt(line, i, Double, cur) == ArgAt(line, i + |ReprAll(s)|, Double, cur + s)
    decreases |s|
  {
    hide ArgAt, ReprOf;
    if s == [] {
      assert cur + s == cur;
    } else {
      var n, t := |ReprOf(s[0])|, line[i..i + |ReprAll(s)|];
      assert t[..n] == ReprOf(s[0]) && t[n..] == ReprAll(s[1..]);
      assert line[i..i + n] == t[..n] && line[i + n..i + n + |ReprAll(s[1..])|] == t[n..];
      ReprStep(line, i, s[0], cur);
      ReprAllRead(line, i + n, s[1..], cur + [s[0]]);
      assert cur + [s[0]] + s[1..] == cur + s;
    }
  }

  // ---- sdssplitargs reads what a line says ----

  lemma HasAt(line: seq<Byte>, i: nat, s: seq<Byte>, k: nat)
    requires Has(line, i, s) && k < |s|
    ensures i + |s| <= |line| && line[i + k] == s[k]
  {
    assert line[i..i + |s|][k] == s[k];
  }

  lemma SpellingAt(line: seq<Byte>, i: nat, u: Unit)
    requires Has(line, i, Spelling(u))
    ensures i + |Spelling(u)| <= |line| && line[i] == Spelling(u)[0]
    ensures !u.Plain? ==> line[i + 1] == Spelling(u)[1]
    ensures u.Hex? ==> line[i + 2] == u.high && line[i + 3] == u.low
  {
    HasAt(line, i, Spelling(u), 0);
    if !u.Plain? { HasAt(line, i, Spelling(u), 1); }
    if u.Hex? {
      HasAt(line, i, Spelling(u), 2);
      HasAt(line, i, Spelling(u), 3);
    }
  }

  /** A unit is read as the byte it stands for. */
  lemma {:induction false} UnitRead(line: seq<Byte>, i: nat, mode: Mode, u: Unit, cur: seq<Byte>)
    requires UnitAt(line, i, mode, u)
    ensures i + |Spelling(u)| <= |line|
    ensures ArgAt(line, i, mode, cur) == ArgAt(line, i + |Spelling(u)|, mode, cur + [Meaning(u)])
  {
    hide Has, HexDigit;
    SpellingAt(line, i, u);
  }

  lemma {:induction false} UnitsRead(line: seq<Byte>, i: nat, mode: Mode, us: seq<Unit>, cur: seq<Byte>)
    requires i <= |line| && UnitsAt(line, i, mode, us)
    ensures i + SpellLen(us) <= |line|
    ensures ArgAt(line, i, mode, cur) == ArgAt(line, i + SpellLen(us), mode, cur + Meanings(us))
    decreases |us|
  {
    hide ArgAt, UnitAt, Meaning, Spelling;
    if us == [] {
      assert cur + Meanings(us) == cur;
    } else {
      UnitRead(line, i, mode, us[0], cur);
      UnitsRead(line, i + |Spelling(us[0])|, mode, us[1..], cur + [Meaning(us[0])]);
      assert cur + [Meaning(us[0])] + Meanings(us[1..]) == cur + Meanings(us);
    }
  }

  /** Unless the part ends here, some unit stands here. */
  lemma UnitThere(line: seq<Byte>, i: nat, mode: Mode) returns (u: Unit)
    requires i < |line| && line[i] != 0
    requires if mode.Bare? then !StopsWord(line[i]) && !IsQuote(line[i]) else line[i] != QuoteChar(mode)
    ensures UnitAt(line, i, mode, u)
  {
    hide HexDigit;
    u := Plain(line[i]);
    var c := Peek(line, i + 1);
    if line[i] == '\\' as int {
      if mode.Double? && c == 'x' as int && IsHexDigit(Peek(line, i + 2)) && IsHexDigit(Peek(line, i + 3)) {
        u := Hex(line[i + 2], line[i + 3]);
      } else if (mode.Double? && c != 0) || (mode.Single? && c == '\'' as int) {
        u := Escaped(c);
      }
    }
    assert line[i..i + |Spelling(u)|] == Spelling(u);
  }

  /** All units up to the end of the part. */
  lemma {:induction false} UnitsThere(line: seq<Byte>, i: nat, mode: Mode) returns (us: seq<Unit>)
    requires i <= |line|
    ensures UnitsAt(line, i, mode, us)
    ensures
      var c := Peek(line, i + SpellLen(us));
      c == 0 || (if mode.Bare? then StopsWord(c) || IsQuote(c) else c == QuoteChar(mode))
    decreases |line| - i
  {
    hide UnitAt, Spelling;
    us := [];
    var c := Peek(line, i);
    if !(c == 0 || (if mode.Bare? then StopsWord(c) || IsQuote(c) else c == QuoteChar(mode))) {
      var u := UnitThere(line, i, mode);
      UnitRead(line, i, mode, u, []);
      var rest := UnitsThere(line, i + |Spelling(u)|, mode);
      us := [u] + rest;
      assert us[1..] == rest;
    }
  }

  /** At every position stands a word or a broken one. */
  lemma WordThere(line: seq<Byte>, i: nat) returns (w: Word)
    requires i <= |line|
    ensures BrokenAt(line, i, w) || WordAt(line, i, w, WordEnd(i, w))
  {
    hide UnitsAt, SpellLen, ArgAt, Meanings;
    var bare := UnitsThere(line, i, Bare);
    UnitsRead(line, i, Bare, bare, []);
    var j := i + SpellLen(bare);
    if IsQuote(Peek(line, j)) {
      var quote := if Peek(line, j) == '"' as int then Double else Single;
      var units := UnitsThere(line, j + 1, quote);
      w := Word(bare, quote, units);
      QuotedWord(line, i, w);
    } else {
      w := Word(bare, Bare, []);
    }
  }

  lemma QuotedWord(line: seq<Byte>, i: nat, w: Word)
    requires !w.quote.Bare? && WordUnits(line, i, w)
    requires Peek(line, UnitsEnd(i, w)) == 0 || Peek(line, UnitsEnd(i, w)) == QuoteChar(w.quote)
    ensures BrokenAt(line, i, w) || WordAt(line, i, w, WordEnd(i, w))
  {
    hide UnitsAt, SpellLen;
  }

  function WordEnd(i: nat, w: Word): (end: nat) {
    if w.quote.Bare? then UnitsEnd(i, w) else UnitsEnd(i, w) + 1
  }

  /** Behind a bare word the blank that ends it is taken too. */
  function ArgEnd(line: seq<Byte>, end: nat, w: Word): (e: nat) {
    if w.quote.Bare? && Peek(line, end) != 0 then end + 1 else end
  }

  lemma {:induction false} UnitsOfWordRead(line: seq<Byte>, i: nat, w: Word)
    requires i <= |line| && WordUnits(line, i, w)
    ensures UnitsEnd(i, w) <= |line| && ArgAt(line, i, Bare, []) == ArgAt(line, UnitsEnd(i, w), w.quote, Text(w))
  {
    hide ArgAt, UnitsAt, Meanings;
    UnitsRead(line, i, Bare, w.bare, []);
    var j := BareEnd(i, w);
    assert [] + Meanings(w.bare) == Meanings(w.bare);
    if w.quote.Bare? {
      assert Text(w) == Meanings(w.bare) by { NoMeanings(w.bare); }
    } else {
      OpensQuote(line, j, w.quote, Meanings(w.bare));
      UnitsRead(line, j + 1, w.quote, w.units, Meanings(w.bare));
    }
  }

  lemma NoMeanings(us: seq<Unit>)
    ensures Meanings(us) + Meanings([]) == Meanings(us)
  {
  }

  lemma OpensQuote(line: seq<Byte>, i: nat, quote: Mode, cur: seq<Byte>)
    requires i <= |line| && !quote.Bare? && Peek(line, i) == QuoteChar(quote)
    ensures i < |line| && ArgAt(line, i, Bare, cur) == ArgAt(line, i + 1, quote, cur)
  {
  }

  /** A word is read as its text; a broken one is refused. */
  lemma {:induction false} WordRead(line: seq<Byte>, i: nat, w: Word, end: nat)
    requires i <= |line| && WordAt(line, i, w, end)
    ensures end <= |line| && ArgEnd(line, end, w) <= |line|
    ensures ArgAt(line, i, Bare, []) == Some(Arg(Text(w), ArgEnd(line, end, w)))
  {
    hide UnitsAt, Text, SpellLen;
    UnitsOfWordRead(line, i, w);
  }

  lemma {:induction false} BrokenRead(line: seq<Byte>, i: nat, w: Word)
    requires i <= |line| && BrokenAt(line, i, w)
    ensures ArgAt(line, i, Bare, []) == None
  {
    hide UnitsAt, Text, SpellLen;
    UnitsOfWordRead(line, i, w);
  }

  /** What reading one argument at `i` must return, `w` being the word there. */
  ghost predicate WordResult(line: seq<Byte>, i: nat, w: Word, r: Option<Arg>) {
    if BrokenAt(line, i, w) then r == None
    else
      var end := WordEnd(i, w);
      WordAt(line, i, w, end) && r == Some(Arg(Text(w), ArgEnd(line, end, w)))
  }

  lemma ResultOfWord(line: seq<Byte>, i: nat, w: Word)
    requires i <= |line| && (BrokenAt(line, i, w) || WordAt(line, i, w, WordEnd(i, w)))
    ensures WordResult(line, i, w, ArgAt(line, i, Bare, []))
  {
    hide BrokenAt, WordAt, ArgAt, Text;
    if BrokenAt(line, i, w) { BrokenRead(line, i, w); } else { WordRead(line, i, w, WordEnd(i, w)); }
  }

  lemma {:induction false} SkipsBlanks(line: seq<Byte>, i: nat, n: nat)
    requires BlanksAt(line, i, n) && !IsSpace(Peek(line, i + n))
    ensures SkipBlanks(line, i) == i + n
    decreases n
  {
    if n > 0 { SkipsBlanks(line, i + 1, n - 1); }
  }

  /** One blank more or less in front of an argument does not matter. */
  lemma BlankSkipped(line: seq<Byte>, i: nat)
    requires i < |line| && IsSpace(line[i])
    ensures Args(line, i) == Args(line, i + 1)
  {
    hide ArgAt;
  }

  lemma {:induction false} ArgRead(line: seq<Byte>, i: nat, gap: nat, w: Word, end: nat)
    requires BlanksAt(line, i, gap) && !IsSpace(Peek(line, i + gap)) && Peek(line, i + gap) != 0
    requires WordAt(line, i + gap, w, end)
    ensures end <= |line| && Args(line, i) == After([Text(w)], Args(line, end))
  {
    hide ArgAt, WordAt, SkipBlanks, Text;
    SkipsBlanks(line, i, gap);
    WordRead(line, i + gap, w, end);
    if ArgEnd(line, end, w) == end + 1 {
      assert IsSpace(line[end]) by { StopIsBlank(line, i + gap, w, end); }
      BlankSkipped(line, end);
    }
  }

  lemma StopIsBlank(line: seq<Byte>, i: nat, w: Word, end: nat)
    requires WordAt(line, i, w, end) && ArgEnd(line, end, w) == end + 1
    ensures end < |line| && IsSpace(line[end])
  {
  }

  /** The result is what the line says, however it is read. */
  lemma {:induction false} ArgsOfParse(line: seq<Byte>, i: nat, p: Parse)
    requires i <= |line| && ParseAt(line, i, p)
    ensures Args(line, i) == Outcome(p)
    decreases |p.items|
  {
    hide ArgAt, WordAt, BrokenAt, SkipBlanks, Text;
    if p.items == [] {
      SkipsBlanks(line, i, p.gap);
      if p.broken.Some? { BrokenRead(line, i + p.gap, p.broken.value); }
    } else {
      var it, p' := p.items[0], p.(items := p.items[1..]);
      ArgRead(line, i, it.gap, it.word, it.end);
      ArgsOfParse(line, it.end, p');
      assert Texts(p.items) == [Text(it.word)] + Texts(p'.items);
    }
  }

  /** Every line says something. */
  lemma {:induction false} ParseOf(line: seq<Byte>, i: nat) returns (p: Parse)
    requires i <= |line|
    ensures ParseAt(line, i, p)
    decreases |line| - i
  {
    hide BrokenAt, WordAt, Text;
    var gap := SkipBlanks(line, i) - i;
    SkippedAre(line, i);
    if Peek(line, i + gap) == 0 {
      p := Parse([], gap, None);
    } else {
      var w := WordThere(line, i + gap);
      if BrokenAt(line, i + gap, w) {
        p := Parse([], gap, Some(w));
      } else {
        WordRead(line, i + gap, w, WordEnd(i + gap, w));
        WordAdvances(line, i + gap, w);
        var rest := ParseOf(line, WordEnd(i + gap, w));
        var it := Item(gap, w, WordEnd(i + gap, w));
        p := rest.(items := [it] + rest.items);
        assert p.(items := p.items[1..]) == rest;
      }
    }
  }

  lemma WordAdvances(line: seq<Byte>, i: nat, w: Word)
    requires i < |line| && line[i] != 0 && !IsSpace(line[i]) && WordAt(line, i, w, WordEnd(i, w))
    ensures WordEnd(i, w) > i
  {
  }

  lemma {:induction false} SkippedAre(line: seq<Byte>, i: nat)
    requires i <= |line|
    ensures BlanksAt(line, i, SkipBlanks(line, i) - i) && !IsSpace(Peek(line, SkipBlanks(line, i)))
    decreases |line| - i
  {
    if IsSpace(CharAt(line, i)) { SkippedAre(line, i + 1); }
  }

  /** The arguments are exactly what the line says: a list of them if the line is blanks and words with these texts, and
      nothing if it is blanks and words up to one whose quotes are not closed, or not followed by a blank or the end. */
  lemma ArgsIff(line: seq<Byte>, r: Option<seq<seq<Byte>>>)
    ensures Args(line, 0) == r <==> exists p :: ParseAt(line, 0, p) && Outcome(p) == r
  {
    hide Args, ParseAt, Outcome;
    var p := ParseOf(line, 0);
    forall p | ParseAt(line, 0, p) ensures Args(line, 0) == Outcome(p) { ArgsOfParse(line, 0, p); }
  }

  lemma {:induction false} SliceOf(line: seq<Byte>, i: nat, len: nat, a: nat, b: nat)
    requires i + len <= |line| && a <= b <= len
    ensures line[i..i + len][a..b] == line[i + a..i + b]
  {
    var t := line[i..i + len];
    assert forall k :: a <= k < b ==> t[k] == line[i + k];
  }

  lemma {:induction false} QuoteOpens(line: seq<Byte>, i: nat)
    requires i < |line| && line[i] == QUOTE
    ensures ArgAt(line, i, Bare, []) == ArgAt(line, i + 1, Double, [])
  {
  }

  lemma {:induction false} QuoteCloses(line: seq<Byte>, i: nat, cur: seq<Byte>)
    requires i < |line| && line[i] == QUOTE && Ends(CharAt(line, i + 1))
    ensures ArgAt(line, i, Double, cur) == Some(Arg(cur, i + 1))
  {
  }

  /** A quoted string followed by a blank or the end is one argument, whatever its bytes. */
  lemma {:induction false} ReprRead(line: seq<Byte>, i: nat, s: seq<Byte>)
    requires i + |Repr(s)| <= |line| && line[i..i + |Repr(s)|] == Repr(s) && Ends(CharAt(line, i + |Repr(s)|))
    ensures ArgAt(line, i, Bare, []) == Some(Arg(s, i + |Repr(s)|)) && line[i] == QUOTE
  {
    hide ArgAt, ReprAll;
    var t, n := line[i..i + |Repr(s)|], |ReprAll(s)|;
    assert t[0] == line[i] && t[n + 1] == line[i + n + 1];
    assert Repr(s)[1..n + 1] == ReprAll(s);
    SliceOf(line, i, |Repr(s)|, 1, n + 1);
    QuoteOpens(line, i);
    ReprAllRead(line, i + 1, s, []);
    assert [] + s == s;
    QuoteCloses(line, i + 1 + n, s);
  }

  /** Quoted strings with a gap behind each. */
  function Line(xs: seq<seq<Byte>>, gaps: seq<seq<Byte>>): (r: seq<Byte>)
    requires |gaps| == |xs|
  {
    if xs == [] then [] else Repr(xs[0]) + gaps[0] + Line(xs[1..], gaps[1..])
  }

  predicate Blank(s: seq<Byte>) {
    forall i :: 0 <= i < |s| ==> IsSpace(s[i])
  }

  /** Gaps are blank, and only the last may be empty. */
  predicate GapsOk(gaps: seq<seq<Byte>>) {
    forall k :: 0 <= k < |gaps| ==> Blank(gaps[k]) && (k + 1 < |gaps| ==> gaps[k] != [])
  }

  lemma {:induction false} SkipOver(line: seq<Byte>, i: nat, gap: seq<Byte>)
    requires Blank(gap) && i + |gap| <= |line| && line[i..i + |gap|] == gap && !IsSpace(CharAt(line, i + |gap|))
    ensures SkipBlanks(line, i) == i + |gap|
    decreases |gap|
  {
    if gap != [] {
      assert line[i] == gap[0] && line[i + 1..i + |gap|] == gap[1..];
      SkipOver(line, i + 1, gap[1..]);
    }
  }

  /** One argument of a line. */
  lemma {:induction false} FirstArg(line: seq<Byte>, from: nat, lead: seq<Byte>, x: seq<Byte>)
    requires Blank(lead) && from + |lead| + |Repr(x)| <= |line| && line[from..from + |lead|] == lead
    requires
      var i := from + |lead|;
      line[i..i + |Repr(x)|] == Repr(x) && Ends(CharAt(line, i + |Repr(x)|))
    ensures Args(line, from) == After([x], Args(line, from + |lead| + |Repr(x)|))
  {
    hide ArgAt, ReprAll, SkipBlanks;
    var i := from + |lead|;
    ReprRead(line, i, x);
    assert CharAt(line, i) == QUOTE;
    SkipOver(line, from, lead);
    assert SkipBlanks(line, from) == i;
  }

  /** Where the parts of a line stand. */
  lemma {:induction false} LineParts(before: seq<Byte>, lead: seq<Byte>, q: seq<Byte>, gap: seq<Byte>, rest: seq<Byte>)
    requires Blank(gap) && (gap == [] ==> rest == [])
    ensures
      var line, i := before + lead + (q + gap + rest), |before| + |lead|;
      && line[|before|..i] == lead && line[i..i + |q|] == q
      && line == before + lead + q + gap + rest && Ends(CharAt(line, i + |q|))
  {
    var line, i := before + lead + (q + gap + rest), |before| + |lead|;
    if gap != [] { assert line[i + |q|] == gap[0]; }
  }

  lemma {:induction false} OnlyBlanks(before: seq<Byte>, lead: seq<Byte>)
    requires Blank(lead)
    ensures Args(before + lead, |before|) == Some([])
  {
    hide ArgAt;
    assert (before + lead)[|before|..|before| + |lead|] == lead;
    SkipOver(before + lead, |before|, lead);
  }

  lemma {:induction false} GapsTail(gaps: seq<seq<Byte>>)
    requires GapsOk(gaps) && gaps != []
    ensures Blank(gaps[0]) && GapsOk(gaps[1..]) && (|gaps| > 1 ==> gaps[0] != [])
  {
    hide Blank;
    var t := gaps[1..];
    assert forall k :: 0 <= k < |t| ==> t[k] == gaps[k + 1];
  }

  /** Any list of byte strings comes back from its quoted forms, whatever blanks stand between them. */
  lemma {:induction false} ArgsRoundTrip(before: seq<Byte>, lead: seq<Byte>, xs: seq<seq<Byte>>, gaps: seq<seq<Byte>>)
    requires |gaps| == |xs| && Blank(lead) && GapsOk(gaps)
    ensures Args(before + lead + Line(xs, gaps), |before|) == Some(xs)
    decreases |xs|
  {
    hide Args, Repr, Blank, GapsOk, Line;
    if xs == [] {
      OnlyBlanks(before, lead);
      assert before + lead + Line([], []) == before + lead by { NoLine(); }
    } else {
      GapsTail(gaps);
      OneArgument(before, lead, xs, gaps);
      ArgsRoundTrip(before + lead + Repr(xs[0]), gaps[0], xs[1..], gaps[1..]);
      assert [xs[0]] + xs[1..] == xs;
    }
  }

  lemma NoLine()
    ensures Line([], []) == []
  {
  }

  /** The first argument of a line of quoted strings, and what is left of the line. */
  lemma {:induction false} OneArgument(before: seq<Byte>, lead: seq<Byte>, xs: seq<seq<Byte>>, gaps: seq<seq<Byte>>)
    requires |gaps| == |xs| > 0 && Blank(lead) && GapsOk(gaps)
    ensures
      var line := before + lead + Line(xs, gaps);
      var before' := before + lead + Repr(xs[0]);
      && line == before' + gaps[0] + Line(xs[1..], gaps[1..])
      && Args(line, |before|) == After([xs[0]], Args(line, |before'|))
  {
    hide Args, Repr, Blank, CharAt, Ends, GapsOk;
    var q, rest := Repr(xs[0]), Line(xs[1..], gaps[1..]);
    GapsTail(gaps);
    assert |xs| == 1 ==> rest == [];
    LineParts(before, lead, q, gaps[0], rest);
    FirstArg(before + lead + Line(xs, gaps), |before|, lead, xs[0]);
  }

  /** A single quoted string is read back as the one argument. */
  lemma {:induction false} ReprRoundTrip(x: seq<Byte>)
    ensures Args(Repr(x), 0) == Some([x])
  {
    hide Args, Repr;
    ArgsRoundTrip([], [], [x], [[]]);
    assert Line([], []) == [] && Line([x], [[]]) == Repr(x) + [] + Line([x][1..], [[]][1..]);
    assert [] + [] + Line([x], [[]]) == Repr(x);
  }

  // ---- sdssplitlen and sdsjoinsds ----

  /** The separator stands at position `i`. */
  predicate OccursAt(s: seq<Byte>, sep: seq<Byte>, i: nat) {
    i + |sep| <= |s| && s[i..i + |sep|] == sep
  }

  ghost predicate Contains(s: seq<Byte>, sep: seq<Byte>) {
    exists i: nat :: OccursAt(s, sep, i)
  }

  /** The first separator in `token + sep` is the one at its end. */
  ghost predicate CutFirst(token: seq<Byte>, sep: seq<Byte>) {
    forall i :: 0 <= i < |token| ==> !OccursAt(token + sep, sep, i)
  }

  function JoinWith(tokens: seq<seq<Byte>>, sep: seq<Byte>): (r: seq<Byte>) {
    if tokens == [] then [] else if |tokens| == 1 then tokens[0] else tokens[0] + sep + JoinWith(tokens[1..], sep)
  }

  /** What splitting means: the tokens joined give the string, and every cut is at the first separator there is. */
  ghost predicate IsSplit(tokens: seq<seq<Byte>>, s: seq<Byte>, sep: seq<Byte>) {
    && tokens != [] && JoinWith(tokens, sep) == s
    && (forall k :: 0 <= k < |tokens| - 1 ==> CutFirst(tokens[k], sep))
    && !Contains(tokens[|tokens| - 1], sep)
  }

  /** The tokens so far, each followed by the separator. */
  ghost function Cut(tokens: seq<seq<Byte>>, sep: seq<Byte>): (r: seq<Byte>) {
    if tokens == [] then [] else tokens[0] + sep + Cut(tokens[1..], sep)
  }

  lemma {:induction false} CutSnoc(tokens: seq<seq<Byte>>, t: seq<Byte>, sep: seq<Byte>)
    ensures Cut(tokens + [t], sep) == Cut(tokens, sep) + t + sep
  {
    if tokens == [] {
      assert [t][1..] == [] && Cut([t], sep) == t + sep + Cut([], sep);
    } else {
      assert (tokens + [t])[1..] == tokens[1..] + [t];
      CutSnoc(tokens[1..], t, sep);
    }
  }

  lemma {:induction false} JoinIsCut(tokens: seq<seq<Byte>>, t: seq<Byte>, sep: seq<Byte>)
    ensures JoinWith(tokens + [t], sep) == Cut(tokens, sep) + t
  {
    if tokens != [] {
      assert (tokens + [t])[1..] == tokens[1..] + [t];
      JoinIsCut(tokens[1..], t, sep);
    }
  }

  /** Nothing found between two positions. */
  ghost predicate NoneIn(s: seq<Byte>, sep: seq<Byte>, from: nat, to: nat) {
    forall i :: from <= i < to ==> !OccursAt(s, sep, i)
  }

  lemma OccursInside(s: seq<Byte>, sep: seq<Byte>, start: nat, end: nat, i: nat)
    requires start <= end <= |s|
    ensures OccursAt(s[start..end], sep, i) ==> OccursAt(s, sep, start + i)
  {
    if start + i + |sep| <= end { SliceOf(s, start, end - start, i, i + |sep|); }
  }

  lemma {:induction false} CutHere(s: seq<Byte>, sep: seq<Byte>, start: nat, j: nat)
    requires start <= j && OccursAt(s, sep, j) && NoneIn(s, sep, start, j)
    ensures CutFirst(s[start..j], sep) && s[..start] + s[start..j] + sep == s[..j + |sep|]
  {
    var t := s[start..j];
    assert s[start..j + |sep|] == t + sep;
    hide OccursAt;
    forall i | 0 <= i < |t| ensures !OccursAt(t + sep, sep, i) {
      assert !OccursAt(s, sep, start + i);
      OccursInside(s, sep, start, j + |sep|, i);
    }
  }

  lemma {:induction false} LastHasNone(s: seq<Byte>, sep: seq<Byte>, start: nat, j: nat)
    requires start <= |s| && j + |sep| > |s| && NoneIn(s, sep, start, j)
    ensures !Contains(s[start..], sep)
  {
    assert s[start..|s|] == s[start..];
    forall i: nat | start + i + |sep| <= |s| ensures !OccursAt(s[start..], sep, i) {
      assert !OccursAt(s, sep, start + i);
      OccursInside(s, sep, start, |s|, i);
    }
  }

  /** `sdssplitlen`: no tokens for an empty string and none at all for an empty separator. The token array always has
      room for the next token. */
  method SplitLen(s: seq<Byte>, sep: seq<Byte>) returns (r: Option<seq<seq<Byte>>>)
    ensures r.None? <==> sep == []
    ensures r.Some? ==> if s == [] then r.value == [] else IsSplit(r.value, s, sep)
  {
    hide OccursAt, CutFirst, Contains;
    if |sep| < 1 { return None; }
    if |s| == 0 { return Some([]); }
    var tokens: seq<seq<Byte>>, slots, start, j := [], 5, 0, 0;
    while j < |s| - (|sep| - 1)
      invariant 0 <= start <= j && start <= |s| && |tokens| < slots
      invariant Cut(tokens, sep) == s[..start] && NoneIn(s, sep, start, j)
      invariant forall k :: 0 <= k < |tokens| ==> CutFirst(tokens[k], sep)
    {
      if slots < |tokens| + 2 { slots := slots * 2; }
      if s[j..j + |sep|] == sep {
        assert OccursAt(s, sep, j) by { OccursHere(s, sep, j); }
        CutHere(s, sep, start, j);
        CutSnoc(tokens, s[start..j], sep);
        assert |tokens| < slots;
        tokens := tokens + [s[start..j]];
        start := j + |sep|;
        j := j + |sep| - 1;
      } else {
        OccursHere(s, sep, j);
      }
      j := j + 1;
    }
    LastHasNone(s, sep, start, j);
    JoinIsCut(tokens, s[start..], sep);
    assert s[..start] + s[start..] == s;
    r := Some(tokens + [s[start..]]);
  }

  lemma {:induction false} OccursHere(s: seq<Byte>, sep: seq<Byte>, j: nat)
    requires j + |sep| <= |s|
    ensures OccursAt(s, sep, j) <==> s[j..j + |sep|] == sep
  {
  }

  /** `sdsjoinsds` */
  method JoinSds(argv: seq<seq<Byte>>, sep: seq<Byte>) returns (join: seq<Byte>)
    ensures join == JoinWith(argv, sep)
  {
    join := [];
    var j := 0;
    while j < |argv|
      invariant 0 <= j <= |argv| && join == (if j < |argv| then Cut(argv[..j], sep) else JoinWith(argv, sep))
    {
      assert argv[..j + 1] == argv[..j] + [argv[j]];
      CutSnoc(argv[..j], argv[j], sep);
      JoinIsCut(argv[..j], argv[j], sep);
      join := join + argv[j];
      if j != |argv| - 1 { join := join + sep; } else { assert argv[..j + 1] == argv; }
      j := j + 1;
    }
  }

  /** Splitting and joining gives back every string, and no token contains the separator. */
  lemma {:induction false} SplitJoin(tokens: seq<seq<Byte>>, s: seq<Byte>, sep: seq<Byte>)
    requires sep != [] && (if s == [] then tokens == [] else IsSplit(tokens, s, sep))
    ensures JoinWith(tokens, sep) == s
    ensures forall k :: 0 <= k < |tokens| ==> !Contains(tokens[k], sep)
  {
    forall k | 0 <= k < |tokens| ensures !Contains(tokens[k], sep) {
      if k < |tokens| - 1 { NoneInCut(tokens[k], sep); }
    }
  }

  lemma {:induction false} NoneInCut(t: seq<Byte>, sep: seq<Byte>)
    requires sep != [] && CutFirst(t, sep)
    ensures !Contains(t, sep)
  {
    forall i: nat | i + |sep| <= |t| ensures !OccursAt(t, sep, i) {
      assert (t + sep)[i..i + |sep|] == t[i..i + |sep|];
      assert !OccursAt(t + sep, sep, i);
    }
  }

  /** A string has only one split. */
  lemma {:induction false} SplitUnique(a: seq<seq<Byte>>, b: seq<seq<Byte>>, s: seq<Byte>, sep: seq<Byte>)
    requires sep != [] && IsSplit(a, s, sep) && IsSplit(b, s, sep)
    ensures a == b
    decreases |a|
  {
    if |a| == 1 && |b| == 1 {
    } else if |a| == 1 {
      HeadOccurs(b, s, sep);
    } else if |b| == 1 {
      HeadOccurs(a, s, sep);
    } else {
      SameHead(a, b, s, sep);
      var s' := s[|a[0]| + |sep|..];
      TailSplit(a, s, sep);
      TailSplit(b, s, sep);
      SplitUnique(a[1..], b[1..], s', sep);
      assert a == [a[0]] + a[1..] && b == [b[0]] + b[1..];
    }
  }

  /** The first cut of a split with more than one token, in the string. */
  lemma {:induction false} HeadOccurs(a: seq<seq<Byte>>, s: seq<Byte>, sep: seq<Byte>)
    requires IsSplit(a, s, sep) && |a| > 1
    ensures OccursAt(s, sep, |a[0]|) && s[..|a[0]|] == a[0] && NoneIn(s, sep, 0, |a[0]|) && Contains(s, sep)
  {
    var t, rest := a[0], JoinWith(a[1..], sep);
    assert s == t + sep + rest && OccursAt(s, sep, |t|);
    forall i | 0 <= i < |t| ensures !OccursAt(s, sep, i) {
      assert CutFirst(t, sep) && !OccursAt(t + sep, sep, i);
      assert s[..|t| + |sep|] == t + sep;
      assert s[i..i + |sep|] == (t + sep)[i..i + |sep|];
    }
  }

  lemma {:induction false} SameHead(a: seq<seq<Byte>>, b: seq<seq<Byte>>, s: seq<Byte>, sep: seq<Byte>)
    requires IsSplit(a, s, sep) && IsSplit(b, s, sep) && |a| > 1 && |b| > 1
    ensures a[0] == b[0]
  {
    HeadOccurs(a, s, sep);
    HeadOccurs(b, s, sep);
    assert |a[0]| == |b[0]|;
  }

  lemma {:induction false} TailSplit(a: seq<seq<Byte>>, s: seq<Byte>, sep: seq<Byte>)
    requires IsSplit(a, s, sep) && |a| > 1
    ensures |a[0]| + |sep| <= |s| && IsSplit(a[1..], s[|a[0]| + |sep|..], sep)
  {
    var t := a[1..];
    assert s == a[0] + sep + JoinWith(t, sep) && s[|a[0]| + |sep|..] == JoinWith(t, sep);
    assert forall k :: 0 <= k < |t| ==> t[k] == a[k + 1];
  }
}
