/** jam_check_crc: one pass over a program that computes the CRC of everything in front of
    the CRC statement and compares it with the four digits written there. */
module JamCrcScan {
  import opened Options
  import opened JamCrc

  type char8 = bv8
  type Text = seq<char8>

  const NEWLINE: char8 := 0x0a
  const RETURN: char8 := 0x0d
  const QUOTE: char8 := 0x22
  const COMMENT: char8 := 0x27
  const SEMICOLON: char8 := 0x3b
  const LETTER_C: char8 := 0x43
  const LETTER_R: char8 := 0x52

  predicate IsSpace(ch: char8) {
    0x09 <= ch <= 0x0d || ch == 0x20
  }

  predicate IsNameChar(ch: char8) {
    0x41 <= ch <= 0x5a || 0x61 <= ch <= 0x7a || 0x30 <= ch <= 0x39 || ch == 0x5f
  }

  predicate IsHexChar(ch: char8) {
    0x41 <= ch <= 0x46 || 0x61 <= ch <= 0x66 || 0x30 <= ch <= 0x39
  }

  function HexValue(ch: char8): bv16
    requires IsHexChar(ch)
  {
    if ch <= 0x39 then (ch - 0x30) as bv16
    else if ch <= 0x46 then (ch - 0x41) as bv16 + 10
    else (ch - 0x61) as bv16 + 10
  }

  /** The number four hexadecimal digits stand for. */
  function HexNumber(a: char8, b: char8, c: char8, d: char8): bv16
    requires IsHexChar(a) && IsHexChar(b) && IsHexChar(c) && IsHexChar(d)
  {
    (HexValue(a) << 12) | (HexValue(b) << 8) | (HexValue(c) << 4) | HexValue(d)
  }

  datatype Status = Success | SyntaxError | UnexpectedEnd | CrcError

  /** The status, the CRC written in the program when one was found, and the CRC computed. */
  datatype Verdict = Verdict(status: Status, expected: Option<bv16>, actual: bv16)

  // ---------------------------------------------------------------------------
  // The scanner as a function
  // ---------------------------------------------------------------------------

  /** The last four characters and the registers after each of them, newest first, and what
      kind of text the next character stands in. */
  datatype Scan = Scan(crc: bv16, backup: seq<bv16>, queue: Text,
    comment: bool, quoted: bool, inStatement: bool, inInstruction: bool)
  {
    predicate Valid() {
      |backup| == 4 && |queue| == 4
    }
  }

  function Start(): (s: Scan)
    ensures s.Valid()
  {
    Scan(FIRST, [0, 0, 0, 0], [0, 0, 0, 0], false, false, false, false)
  }

  /** The register is updated and a comment or a quoted string may begin. */
  function Enter(s: Scan, ch: char8): (r: Scan)
    ensures s.Valid() ==> r.Valid()
  {
    s.(crc := Update(s.crc, ch),
       comment := s.comment || (!s.quoted && ch == COMMENT),
       quoted := s.quoted || (!s.comment && ch == QUOTE))
  }

  /** White space, the letters CRC and now white space again, while an instruction is being
      read. */
  predicate AtCrc(s: Scan, ch: char8)
    requires s.Valid()
  {
    && !s.comment && !s.quoted && s.inStatement && s.inInstruction
    && IsSpace(s.queue[3]) && s.queue[2] == LETTER_C && s.queue[1] == LETTER_R && s.queue[0] == LETTER_C
    && IsSpace(ch)
  }

  /** The bookkeeping behind one character; `begins` says that the character begins a string. */
  function Leave(s: Scan, ch: char8, begins: bool): (r: Scan)
    requires s.Valid()
    ensures r.Valid()
  {
    var plain := !s.comment && !s.quoted;
    var started := plain && !s.inStatement && IsNameChar(ch);
    var inStatement := s.inStatement || started;
    var inInstruction := s.inInstruction || started;
    Scan(s.crc, [s.crc] + s.backup[..3], [ch] + s.queue[..3],
      s.comment && ch != NEWLINE,
      s.quoted && (ch != QUOTE || begins),
      inStatement && !(plain && ch == SEMICOLON),
      inInstruction && !(plain && inStatement && !IsNameChar(ch)))
  }

  function SkipSpace(t: Text): (r: Text)
    ensures |r| <= |t| && (r != [] ==> !IsSpace(r[0]))
  {
    if t != [] && IsSpace(t[0]) then SkipSpace(t[1..]) else t
  }

  /** The rest of the CRC statement: white space, four digits, white space and a semicolon. */
  function ReadStatement(t: Text, crc: bv16): Verdict {
    var u := SkipSpace(t);
    if u == [] then Verdict(UnexpectedEnd, None, !crc)
    else if |u| < 4 || !IsHexChar(u[0]) || !IsHexChar(u[1]) || !IsHexChar(u[2]) || !IsHexChar(u[3]) then
      Verdict(SyntaxError, None, !crc)
    else
      var expected := HexNumber(u[0], u[1], u[2], u[3]);
      var v := SkipSpace(u[4..]);
      if v == [] then Verdict(UnexpectedEnd, None, !crc)
      else if v[0] != SEMICOLON then Verdict(SyntaxError, None, !crc)
      else Verdict(if expected == !crc then Success else CrcError, Some(expected), !crc)
  }

  function Check(t: Text, s: Scan): Verdict
    requires s.Valid()
    decreases |t|
  {
    if t == [] then Verdict(UnexpectedEnd, None, !s.crc)
    else if t[0] == RETURN then Check(t[1..], s)
    else
      var entered := Enter(s, t[0]);
      if AtCrc(entered, t[0]) then ReadStatement(t[1..], s.backup[3])
      else Check(t[1..], Leave(entered, t[0], !s.quoted))
  }

  // ---------------------------------------------------------------------------
  // The scanner as written
  // ---------------------------------------------------------------------------

  class Stream {
    const text: Text
    var position: nat

    ghost predicate Valid()
      reads this
    {
      position <= |text|
    }

    /** What is still to be read. */
    ghost function Ahead(): Text
      reads this
      requires Valid()
    {
      text[position..]
    }

    constructor (text: Text)
      ensures Valid() && this.text == text && Ahead() == text
    {
      this.text, position := text, 0;
    }

    /** jam_getc, None at the end */
    method Getc() returns (ch: Option<char8>)
      requires Valid()
      modifies this
      ensures Valid()
      ensures ch == None <==> old(Ahead()) == []
      ensures ch == None ==> Ahead() == []
      ensures ch.Some? ==> ch.value == old(Ahead())[0] && Ahead() == old(Ahead())[1..]
    {
      if position < |text| {
        ch := Some(text[position]);
        position := position + 1;
      } else {
        ch := None;
      }
    }

    /** do { ch = jam_getc(); } while white space */
    method GetNonSpace() returns (ch: Option<char8>)
      requires Valid()
      modifies this
      ensures Valid()
      ensures ch == None <==> SkipSpace(old(Ahead())) == []
      ensures ch.Some? ==> ch.value == SkipSpace(old(Ahead()))[0] && Ahead() == SkipSpace(old(Ahead()))[1..]
    {
      ghost var before := Ahead();
      ch := Getc();
      while ch.Some? && IsSpace(ch.value)
        invariant Valid()
        invariant ch == None ==> SkipSpace(before) == []
        invariant ch.Some? ==> SkipSpace(before) == SkipSpace([ch.value] + Ahead())
        decreases |text| - position, ch.Some?
      {
        assert ([ch.value] + Ahead())[1..] == Ahead();
        ghost var was := Ahead();
        ch := Getc();
        assert ch.Some? ==> was == [ch.value] + Ahead();
      }
    }

    /** The rest of a CRC statement. */
    method FinishStatement(register: bv16) returns (v: Verdict)
      requires Valid()
      modifies this
      ensures Valid() && v == ReadStatement(old(Ahead()), register)
    {
      hide IsHexChar, HexNumber, SkipSpace;
      v := Verdict(SyntaxError, None, !register);
      var ch := GetNonSpace();
      if ch.Some? && IsHexChar(ch.value) {
        var second := Getc();
        var third := Getc();
        var fourth := Getc();
        if second.Some? && third.Some? && fourth.Some?
          && IsHexChar(second.value) && IsHexChar(third.value) && IsHexChar(fourth.value)
        {
          var expected := HexNumber(ch.value, second.value, third.value, fourth.value);
          ch := GetNonSpace();
          if ch.Some? && ch.value == SEMICOLON {
            v := Verdict(if expected == !register then Success else CrcError, Some(expected), !register);
          }
        }
      }
      if ch == None {
        v := v.(status := UnexpectedEnd);
      }
    }
  }

  /** The first half of the loop's body. */
  method EnterChar(s: Scan, ch: char8, position: int, lastQuote: int) returns (r: Scan, leftQuote: int)
    requires s.Valid() && lastQuote < position
    ensures r == Enter(s, ch) && r.Valid()
    ensures r.quoted ==> (leftQuote < position <==> s.quoted)
    ensures leftQuote <= position
  {
    hide Update, IsSpace, IsNameChar;
    leftQuote := lastQuote;
    var crc := CrcUpdate(s.crc, ch);
    r := s.(crc := crc);
    if !r.comment && !r.quoted {
      if ch == COMMENT {
        r := r.(comment := true);
      } else if ch == QUOTE {
        r := r.(quoted := true);
        leftQuote := position;
      }
    }
  }

  /** The second half. */
  method LeaveChar(s: Scan, ch: char8, position: int, leftQuote: int) returns (r: Scan)
    requires s.Valid() && ch != RETURN
    ensures r == Leave(s, ch, position <= leftQuote)
  {
    hide IsSpace, IsNameChar;
    var comment, quoted, inStatement, inInstruction := s.comment, s.quoted, s.inStatement, s.inInstruction;
    if !comment && !quoted && !inStatement && IsNameChar(ch) {
      inStatement, inInstruction := true, true;
    }
    if !comment && !quoted && inStatement && inInstruction && !IsNameChar(ch) {
      inInstruction := false;
    }
    if !comment && !quoted && inStatement && ch == SEMICOLON {
      inStatement := false;
    }
    if comment && (ch == NEWLINE || ch == RETURN) {
      comment := false;
    } else if quoted && ch == QUOTE && position > leftQuote {
      quoted := false;
    }
    r := Scan(s.crc, [s.crc] + s.backup[..3], [ch] + s.queue[..3], comment, quoted, inStatement, inInstruction);
  }

  lemma OnlyStringsBegin(s: Scan, ch: char8, a: bool, b: bool)
    requires s.Valid() && (s.quoted ==> a == b)
    ensures Leave(s, ch, a) == Leave(s, ch, b)
  {
  }

  lemma CheckStep(t: Text, s: Scan)
    requires s.Valid()
    ensures t == [] ==> Check(t, s) == Verdict(UnexpectedEnd, None, !s.crc)
    ensures t != [] && t[0] == RETURN ==> Check(t, s) == Check(t[1..], s)
    ensures t != [] && t[0] != RETURN ==>
      var entered := Enter(s, t[0]);
      Check(t, s) == if AtCrc(entered, t[0]) then ReadStatement(t[1..], s.backup[3])
        else Check(t[1..], Leave(entered, t[0], !s.quoted))
  {
    hide AtCrc, Leave, ReadStatement;
  }

  /** jam_check_crc */
  method CheckCrc(text: Text) returns (v: Verdict)
    ensures v == Check(text, Start())
  {
    hide Enter, Leave, AtCrc, ReadStatement, Check;
    var stream := new Stream(text);
    var s := Start();
    var position, leftQuote := 0, -1;
    while true
      invariant stream.Valid() && leftQuote < position && s.Valid()
      invariant Check(text, Start()) == Check(stream.Ahead(), s)
      decreases |stream.Ahead()|
    {
      CheckStep(stream.Ahead(), s);
      var c := stream.Getc();
      if c == None {
        return Verdict(UnexpectedEnd, None, !s.crc);
      }
      var ch := c.value;
      if ch != RETURN {
        var entered;
        entered, leftQuote := EnterChar(s, ch, position, leftQuote);
        if AtCrc(entered, ch) {
          v := stream.FinishStatement(s.backup[3]);
          return;
        }
        OnlyStringsBegin(entered, ch, !s.quoted, position <= leftQuote);
        s := LeaveChar(entered, ch, position, leftQuote);
      }
      position := position + 1;
    }
  }

  // ---------------------------------------------------------------------------
  // Line ends do not matter
  // ---------------------------------------------------------------------------

  /** `dos` is `unix` with carriage returns put in front of some of its newlines. */
  predicate DosOf(unix: Text, dos: Text)
    decreases |dos|
  {
    if dos == [] || unix == [] then dos == unix
    else
      || (dos[0] == unix[0] && DosOf(unix[1..], dos[1..]))
      || (dos[0] == RETURN && unix[0] == NEWLINE && DosOf(unix, dos[1..]))
  }

  lemma {:induction false} SkipSpaceKeepsDos(unix: Text, dos: Text)
    requires DosOf(unix, dos)
    ensures DosOf(SkipSpace(unix), SkipSpace(dos))
    ensures SkipSpace(unix) != [] ==> SkipSpace(dos) != [] && SkipSpace(dos)[0] == SkipSpace(unix)[0]
    decreases |dos|
  {
    if dos != [] && IsSpace(dos[0]) {
      if dos[0] == unix[0] {
        SkipSpaceKeepsDos(unix[1..], dos[1..]);
      } else {
        SkipSpaceKeepsDos(unix, dos[1..]);
      }
    }
  }

  /** One character that is no newline. */
  lemma SameHead(unix: Text, dos: Text)
    requires DosOf(unix, dos)
    ensures (unix == []) == (dos == [])
    ensures unix != [] && unix[0] != NEWLINE ==> dos[0] == unix[0] && DosOf(unix[1..], dos[1..])
    ensures unix != [] && unix[0] == NEWLINE ==> dos[0] == NEWLINE || dos[0] == RETURN
  {
  }

  /** Digits are the same digits, and anything else is something else. */
  lemma {:induction false} SameDigits(unix: Text, dos: Text, n: nat)
    requires DosOf(unix, dos)
    ensures Digits(unix, n) == Digits(dos, n)
    ensures Digits(unix, n) ==>
      && |unix| >= n && |dos| >= n && DosOf(unix[n..], dos[n..])
      && forall i :: 0 <= i < n ==> unix[i] == dos[i]
    decreases n
  {
    SameHead(unix, dos);
    NewlineIsNoDigit();
    hide DosOf, IsHexChar;
    if n == 0 {
      assert unix[0..] == unix && dos[0..] == dos;
    } else if unix != [] && IsHexChar(unix[0]) {
      var u, d := unix[1..], dos[1..];
      SameDigits(u, d, n - 1);
      if Digits(u, n - 1) {
        assert u[n - 1..] == unix[n..] && d[n - 1..] == dos[n..];
        forall i | 0 <= i < n ensures unix[i] == dos[i] {
          assert i > 0 ==> unix[i] == u[i - 1] && dos[i] == d[i - 1];
        }
      }
    }
  }

  lemma NewlineIsNoDigit()
    ensures !IsHexChar(NEWLINE) && !IsHexChar(RETURN)
  {
  }

  predicate Digits(t: Text, n: nat) {
    n == 0 || (t != [] && IsHexChar(t[0]) && Digits(t[1..], n - 1))
  }

  lemma FourDigits(t: Text)
    ensures Digits(t, 4) == (|t| >= 4 && IsHexChar(t[0]) && IsHexChar(t[1]) && IsHexChar(t[2]) && IsHexChar(t[3]))
  {
    hide IsHexChar;
    if |t| >= 1 {
      assert Digits(t, 4) == (IsHexChar(t[0]) && Digits(t[1..], 3));
      if |t| >= 2 {
        assert Digits(t[1..], 3) == (IsHexChar(t[1]) && Digits(t[2..], 2));
        if |t| >= 3 {
          assert Digits(t[2..], 2) == (IsHexChar(t[2]) && Digits(t[3..], 1));
          assert |t| >= 4 ==> Digits(t[3..], 1) == (IsHexChar(t[3]) && Digits(t[4..], 0));
        }
      }
    }
  }

  lemma StatementKeepsDos(unix: Text, dos: Text, crc: bv16)
    requires DosOf(unix, dos)
    ensures ReadStatement(unix, crc) == ReadStatement(dos, crc)
  {
    hide SkipSpace, DosOf, Digits, IsHexChar, HexNumber;
    SkipSpaceKeepsDos(unix, dos);
    var u, d := SkipSpace(unix), SkipSpace(dos);
    SameHead(u, d);
    FourDigits(u);
    FourDigits(d);
    SameDigits(u, d, 4);
    if Digits(u, 4) {
      SkipSpaceKeepsDos(u[4..], d[4..]);
      SameHead(SkipSpace(u[4..]), SkipSpace(d[4..]));
    }
  }

  /** Converting a program to DOS line ends, wholly or in places, changes neither the status
      nor the CRC found in it nor the CRC computed. */
  lemma {:induction false} DosLineEndsDoNotMatter(unix: Text, dos: Text, s: Scan)
    requires s.Valid() && DosOf(unix, dos)
    ensures Check(unix, s) == Check(dos, s)
    decreases |dos|
  {
    hide Enter, Leave, AtCrc, ReadStatement, Check;
    CheckStep(unix, s);
    CheckStep(dos, s);
    if dos != [] {
      if dos[0] == RETURN && unix[0] == NEWLINE {
        DosLineEndsDoNotMatter(unix, dos[1..], s);
      } else {
        StatementKeepsDos(unix[1..], dos[1..], s.backup[3]);
        if unix[0] == RETURN {
          DosLineEndsDoNotMatter(unix[1..], dos[1..], s);
        } else {
          DosLineEndsDoNotMatter(unix[1..], dos[1..], Leave(Enter(s, unix[0]), unix[0], !s.quoted));
        }
      }
    }
  }

  // ---------------------------------------------------------------------------
  // What a CRC statement protects
  // ---------------------------------------------------------------------------

  function WithoutReturns(t: Text): Text {
    if t == [] then [] else (if t[0] == RETURN then [] else [t[0]]) + WithoutReturns(t[1..])
  }

  /** The scanner behind a text without a CRC statement, None when there is one in it. */
  function Over(t: Text, s: Scan): (r: Option<Scan>)
    requires s.Valid()
    ensures r.Some? ==> r.value.Valid()
    decreases |t|
  {
    if t == [] then Some(s)
    else if t[0] == RETURN then Over(t[1..], s)
    else
      var entered := Enter(s, t[0]);
      if AtCrc(entered, t[0]) then None else Over(t[1..], Leave(entered, t[0], !s.quoted))
  }

  lemma {:induction false} CheckBehind(t: Text, rest: Text, s: Scan)
    requires s.Valid() && Over(t, s).Some?
    ensures Check(t + rest, s) == Check(rest, Over(t, s).value)
    ensures Over(t, s).value.crc == Feed(s.crc, WithoutReturns(t))
    ensures Over(t, s).value == s || Over(t, s).value.backup[0] == Over(t, s).value.crc
    decreases |t|
  {
    hide AtCrc, Update, Check;
    if t == [] {
      assert t + rest == rest;
    } else {
      CheckStep(t + rest, s);
      assert (t + rest)[1..] == t[1..] + rest;
      if t[0] == RETURN {
        CheckBehind(t[1..], rest, s);
        assert [] + WithoutReturns(t[1..]) == WithoutReturns(t[1..]);
      } else {
        var next := Leave(Enter(s, t[0]), t[0], !s.quoted);
        CheckBehind(t[1..], rest, next);
        assert next.backup[0] == next.crc == Update(s.crc, t[0]);
        assert WithoutReturns(t)[1..] == WithoutReturns(t[1..]);
      }
    }
  }

  /** A CRC statement is seen as one here: behind white space, outside comments and strings,
      and not in the middle of another statement. */
  predicate Receptive(s: Scan)
    requires s.Valid()
  {
    !s.comment && !s.quoted && (s.inStatement ==> s.inInstruction) && IsSpace(s.queue[0])
  }

  /** There is no CRC statement in this text, and one behind it is seen. */
  predicate MayBeSigned(t: Text) {
    match Over(t, Start())
    case None => false
    case Some(s) => Receptive(s)
  }

  const WORD: Text := [LETTER_C, LETTER_R, LETTER_C]

  function Statement(digits: Text): Text {
    WORD + [0x20] + digits + [SEMICOLON]
  }

  predicate FourHex(digits: Text) {
    |digits| == 4 && IsHexChar(digits[0]) && IsHexChar(digits[1]) && IsHexChar(digits[2]) && IsHexChar(digits[3])
  }

  function Written(digits: Text): bv16
    requires FourHex(digits)
  {
    HexNumber(digits[0], digits[1], digits[2], digits[3])
  }

  function Complement(c: bv16): bv16 {
    !c
  }

  function CrcOf(t: Text): bv16 {
    Complement(Feed(FIRST, WithoutReturns(t)))
  }

  lemma OverStep(t: Text, s: Scan)
    requires s.Valid()
    ensures t == [] ==> Over(t, s) == Some(s)
    ensures t != [] && t[0] == RETURN ==> Over(t, s) == Over(t[1..], s)
    ensures t != [] && t[0] != RETURN ==>
      var entered := Enter(s, t[0]);
      Over(t, s) == if AtCrc(entered, t[0]) then None else Over(t[1..], Leave(entered, t[0], !s.quoted))
  {
    hide AtCrc, Leave;
  }

  lemma {:induction false} OverJoins(t: Text, u: Text, s: Scan)
    requires s.Valid() && Over(t, s).Some?
    ensures Over(t + u, s) == Over(u, Over(t, s).value)
    decreases |t|
  {
    hide Enter, Leave, AtCrc;
    if t == [] {
      assert t + u == u;
    } else {
      OverStep(t + u, s);
      assert (t + u)[1..] == t[1..] + u;
      OverJoins(t[1..], u, if t[0] == RETURN then s else Leave(Enter(s, t[0]), t[0], !s.quoted));
    }
  }

  /** A letter of the word CRC. */
  lemma LetterStep(s: Scan, ch: char8)
    requires s.Valid() && (ch == LETTER_C || ch == LETTER_R)
    ensures !AtCrc(Enter(s, ch), ch)
    ensures var r := Leave(Enter(s, ch), ch, !s.quoted);
      && r.comment == s.comment && r.quoted == s.quoted
      && (!s.comment && !s.quoted ==> r.inStatement && (r.inInstruction <==> (s.inStatement ==> s.inInstruction)))
      && r.queue == [ch] + s.queue[..3] && r.backup[1..] == s.backup[..3]
  {
    hide Update;
  }

  /** Behind the word CRC, white space makes it a CRC statement exactly in a receptive place. */
  lemma WordIsOver(s: Scan) returns (r: Scan)
    requires s.Valid()
    ensures r.Valid() && Over(WORD, s) == Some(r)
    ensures AtCrc(Enter(r, 0x20), 0x20) <==> Receptive(s)
    ensures r.backup[3] == s.backup[0]
  {
    hide Over, Enter, Leave, AtCrc, Receptive, IsSpace;
    var s1 := Leave(Enter(s, LETTER_C), LETTER_C, !s.quoted);
    var s2 := Leave(Enter(s1, LETTER_R), LETTER_R, !s1.quoted);
    r := Leave(Enter(s2, LETTER_C), LETTER_C, !s2.quoted);
    LetterStep(s, LETTER_C);
    LetterStep(s1, LETTER_R);
    LetterStep(s2, LETTER_C);
    OverStep(WORD, s);
    OverStep([LETTER_R, LETTER_C], s1);
    OverStep([LETTER_C], s2);
    OverStep([], r);
    assert WORD[1..] == [LETTER_R, LETTER_C] && [LETTER_R, LETTER_C][1..] == [LETTER_C] && [LETTER_C][1..] == [];
    assert s1.backup[1] == s.backup[0] && s2.backup[2] == s1.backup[1] && r.backup[3] == s2.backup[2];
    assert r.queue == [LETTER_C, LETTER_R, LETTER_C, s.queue[0]];
    SpaceStep(s, r);
  }

  lemma SpaceStep(s: Scan, r: Scan)
    requires s.Valid() && r.Valid() && r.queue == [LETTER_C, LETTER_R, LETTER_C, s.queue[0]]
    requires r.comment == s.comment && r.quoted == s.quoted
    requires !s.comment && !s.quoted ==> r.inStatement && (r.inInstruction <==> (s.inStatement ==> s.inInstruction))
    ensures AtCrc(Enter(r, 0x20), 0x20) <==> Receptive(s)
  {
    hide Update;
  }

  lemma ReturnIsSpace()
    ensures IsSpace(RETURN)
  {
  }

  /** Without white space there is no CRC statement. */
  lemma {:induction false} SolidIsOver(t: Text, s: Scan)
    requires s.Valid() && forall i :: 0 <= i < |t| ==> !IsSpace(t[i])
    ensures Over(t, s).Some?
    decreases |t|
  {
    hide Enter, Leave, IsSpace;
    OverStep(t, s);
    if t != [] {
      ReturnIsSpace();
      SolidIsOver(t[1..], Leave(Enter(s, t[0]), t[0], !s.quoted));
    }
  }

  lemma HexIsNoSpace(ch: char8)
    requires IsHexChar(ch)
    ensures !IsSpace(ch)
  {
  }

  lemma ReadsDigits(digits: Text, rest: Text, crc: bv16)
    requires FourHex(digits)
    ensures ReadStatement(digits + [SEMICOLON] + rest, crc)
      == Verdict(if Written(digits) == !crc then Success else CrcError, Some(Written(digits)), !crc)
  {
    var t := digits + [SEMICOLON] + rest;
    HexIsNoSpace(digits[0]);
    hide HexNumber, IsHexChar;
    assert SkipSpace(t) == t;
    assert t[4..] == [SEMICOLON] + rest;
    assert SkipSpace(t[4..]) == t[4..];
  }

  /** A statement with these four digits behind a text without a CRC statement: in a receptive
      place the program is accepted exactly when the digits are the CRC of the text, and
      anywhere else the statement is passed over. */
  lemma StatementIsFound(t: Text, digits: Text, rest: Text)
    requires Over(t, Start()).Some? && FourHex(digits)
    ensures var s := Over(t, Start()).value;
      var v := Check(t + (Statement(digits) + rest), Start());
      if Receptive(s) then
        v == Verdict(if Written(digits) == CrcOf(t) then Success else CrcError, Some(Written(digits)), CrcOf(t))
      else
        Over(Statement(digits), s).Some? && v == Check(rest, Over(Statement(digits), s).value)
  {
    hide Update, Check, ReadStatement, Written, Feed, WithoutReturns, Over, FourHex, AtCrc, Enter, Leave;
    var s := Over(t, Start()).value;
    var tail := digits + [SEMICOLON];
    CheckBehind(t, Statement(digits) + rest, Start());
    var r := WordIsOver(s);
    if Receptive(s) {
      assert s != Start();
      assert Statement(digits) + rest == WORD + ([0x20] + (tail + rest));
      CheckBehind(WORD, [0x20] + (tail + rest), s);
      CheckStep([0x20] + (tail + rest), r);
      assert ([0x20] + (tail + rest))[1..] == tail + rest;
      ReadsDigits(digits, rest, s.crc);
    } else {
      StatementIsPassed(s, digits);
      CheckBehind(Statement(digits), rest, s);
    }
  }

  lemma StatementIsPassed(s: Scan, digits: Text)
    requires s.Valid() && !Receptive(s) && FourHex(digits)
    ensures Over(Statement(digits), s).Some?
  {
    hide Over, AtCrc, Enter, Leave, Receptive, IsSpace;
    var r := WordIsOver(s);
    var tail := digits + [SEMICOLON];
    OverJoins(WORD, [0x20] + tail, s);
    assert Statement(digits) == WORD + ([0x20] + tail);
    OverStep([0x20] + tail, r);
    assert ([0x20] + tail)[1..] == tail;
    TailIsSolid(digits);
    SolidIsOver(tail, Leave(Enter(r, 0x20), 0x20, !r.quoted));
  }

  lemma TailIsSolid(digits: Text)
    requires FourHex(digits)
    ensures forall i :: 0 <= i < 5 ==> !IsSpace((digits + [SEMICOLON])[i])
  {
    HexIsNoSpace(digits[0]);
    HexIsNoSpace(digits[1]);
    HexIsNoSpace(digits[2]);
    HexIsNoSpace(digits[3]);
    hide IsHexChar;
    assert !IsSpace(SEMICOLON);
  }

  function HexDigit(v: bv16): (ch: char8)
    requires v < 16
    ensures IsHexChar(ch) && HexValue(ch) == v
  {
    if v < 10 then 0x30 + v as char8 else 0x41 + (v - 10) as char8
  }

  /** The digits a writer puts into the statement. */
  function HexOf(crc: bv16): Text {
    [HexDigit(crc >> 12), HexDigit((crc >> 8) & 15), HexDigit((crc >> 4) & 15), HexDigit(crc & 15)]
  }

  lemma HexOfIsRead(crc: bv16)
    ensures FourHex(HexOf(crc)) && Written(HexOf(crc)) == crc
  {
    hide HexDigit, HexValue, IsHexChar;
    Nibbles(crc);
  }

  lemma Nibbles(crc: bv16)
    ensures ((crc >> 12) << 12) | (((crc >> 8) & 15) << 8) | (((crc >> 4) & 15) << 4) | (crc & 15) == crc
  {
  }

  /** With its own CRC behind it, a text that may be signed is accepted. */
  lemma SignedIsAccepted(t: Text, rest: Text)
    requires MayBeSigned(t)
    ensures Check(t + (Statement(HexOf(CrcOf(t))) + rest), Start()) == Verdict(Success, Some(CrcOf(t)), CrcOf(t))
  {
    hide Check, Receptive, HexOf, Written, CrcOf, Statement, Over;
    HexOfIsRead(CrcOf(t));
    StatementIsFound(t, HexOf(CrcOf(t)), rest);
  }

  /** The word CRC between white space. */
  predicate WordAt(w: Text, i: nat) {
    && i + 5 <= |w|
    && IsSpace(w[i]) && w[i + 1] == LETTER_C && w[i + 2] == LETTER_R && w[i + 3] == LETTER_C && IsSpace(w[i + 4])
  }

  ghost predicate NoWord(w: Text) {
    forall i: nat :: !WordAt(w, i)
  }

  /** The characters before `t`, of which the scanner remembers the last four. */
  ghost predicate Remembers(s: Scan, past: Text) {
    && s.Valid() && |past| >= 4
    && s.queue[0] == past[|past| - 1] && s.queue[1] == past[|past| - 2]
    && s.queue[2] == past[|past| - 3] && s.queue[3] == past[|past| - 4]
  }

  lemma {:induction false} NoWordIsOver(past: Text, t: Text, s: Scan)
    requires s.Valid() && Remembers(s, past) && NoWord(past + WithoutReturns(t))
    ensures Over(t, s).Some?
    decreases |t|
  {
    hide Enter, Leave, AtCrc, NoWord, Remembers;
    OverStep(t, s);
    if t != [] {
      var w := past + WithoutReturns(t);
      if t[0] == RETURN {
        assert w == past + WithoutReturns(t[1..]);
        NoWordIsOver(past, t[1..], s);
      } else {
        assert w == past + [t[0]] + WithoutReturns(t[1..]);
        NoWordHere(past, t[0], WithoutReturns(t[1..]), s);
        NoWordIsOver(past + [t[0]], t[1..], Leave(Enter(s, t[0]), t[0], !s.quoted));
      }
    }
  }

  lemma NoWordHere(past: Text, ch: char8, ahead: Text, s: Scan)
    requires s.Valid() && Remembers(s, past) && NoWord(past + [ch] + ahead)
    ensures !AtCrc(Enter(s, ch), ch)
    ensures Remembers(Leave(Enter(s, ch), ch, !s.quoted), past + [ch])
  {
    hide IsSpace, Update;
    var w := past + [ch] + ahead;
    var n := |past|;
    assert !WordAt(w, n - 4);
    assert w[n] == ch && w[n - 1] == past[n - 1] && w[n - 2] == past[n - 2] && w[n - 3] == past[n - 3]
      && w[n - 4] == past[n - 4];
  }

  lemma QueueIsKept(s: Scan, ch: char8)
    requires s.Valid()
    ensures Leave(Enter(s, ch), ch, !s.quoted).queue == [ch] + s.queue[..3]
    ensures Enter(s, ch).queue == s.queue
  {
  }

  /** The text behind the first word CRC that is seen as a statement, and the register from in
      front of it. */
  function Arisen(t: Text, s: Scan): (Text, bv16)
    requires s.Valid() && Over(t, s) == None
    decreases |t|
  {
    if t[0] == RETURN then Arisen(t[1..], s)
    else
      var entered := Enter(s, t[0]);
      if AtCrc(entered, t[0]) then (t[1..], s.backup[3]) else Arisen(t[1..], Leave(entered, t[0], !s.quoted))
  }

  lemma {:induction false} CheckArisen(t: Text, rest: Text, s: Scan)
    requires s.Valid() && Over(t, s) == None
    ensures Check(t + rest, s) == ReadStatement(Arisen(t, s).0 + rest, Arisen(t, s).1)
    decreases |t|
  {
    hide Enter, Leave, AtCrc, Check, ReadStatement;
    OverStep(t, s);
    CheckStep(t + rest, s);
    assert (t + rest)[1..] == t[1..] + rest;
    if t[0] == RETURN {
      CheckArisen(t[1..], rest, s);
    } else if !AtCrc(Enter(s, t[0]), t[0]) {
      CheckArisen(t[1..], rest, Leave(Enter(s, t[0]), t[0], !s.quoted));
    }
  }

  /** What has to hold of a text put in front of a CRC statement that was right for `crc`: a
      CRC statement in the text is right; or there is none, the one behind it is still seen,
      and the CRC is the same; or that one is passed over, and a right one follows it. */
  predicate Survives(text: Text, crc: bv16, digits: Text, rest: Text) {
    match Over(text, Start())
    case None =>
      var (behind, register) := Arisen(text, Start());
      ReadStatement(behind + (Statement(digits) + rest), register).status == Success
    case Some(s) =>
      if Receptive(s) then CrcOf(text) == crc
      else
        match Over(Statement(digits), s)
        case None => false
        case Some(r) => Check(rest, r).status == Success
  }

  /** A program that was accepted with its CRC statement, and whose text before the statement
      is then damaged in any way, is accepted again exactly when the damaged text survives. */
  lemma DamagedIsAcceptedIff(t: Text, damaged: Text, digits: Text, rest: Text)
    requires MayBeSigned(t) && FourHex(digits)
    requires Check(t + (Statement(digits) + rest), Start()).status == Success
    ensures Check(damaged + (Statement(digits) + rest), Start()).status == Success
      <==> Survives(damaged, CrcOf(t), digits, rest)
  {
    hide Check, Receptive, Written, FourHex, CrcOf, Statement, Over, ReadStatement, Arisen;
    StatementIsFound(t, digits, rest);
    if Over(damaged, Start()).Some? {
      StatementIsFound(damaged, digits, rest);
    } else {
      CheckArisen(damaged, Statement(digits) + rest, Start());
    }
  }

  /** So damage that changes the CRC is refused when no CRC statement arose from it and none
      follows. */
  lemma DamageIsDetected(t: Text, damaged: Text, digits: Text, rest: Text)
    requires MayBeSigned(t) && FourHex(digits)
    requires Check(t + (Statement(digits) + rest), Start()).status == Success
    requires CrcOf(damaged) != CrcOf(t) && Over(damaged, Start()).Some? && NoWord(WithoutReturns(rest))
    ensures Check(damaged + (Statement(digits) + rest), Start()).status
      == if Receptive(Over(damaged, Start()).value) then CrcError else UnexpectedEnd
  {
    hide Check, Receptive, Written, FourHex, CrcOf, Statement, Over, NoWord;
    StatementIsFound(t, digits, rest);
    StatementIsFound(damaged, digits, rest);
    var s := Over(damaged, Start()).value;
    if !Receptive(s) {
      PassesOver(s, digits, rest);
    }
  }

  lemma PassesOver(s: Scan, digits: Text, rest: Text)
    requires s.Valid() && FourHex(digits) && Over(Statement(digits), s).Some? && NoWord(WithoutReturns(rest))
    ensures Check(rest, Over(Statement(digits), s).value).status == UnexpectedEnd
  {
    hide Check, Over, Enter, Leave, IsSpace, IsHexChar, AtCrc;
    var r := Over(Statement(digits), s).value;
    var past := digits + [SEMICOLON];
    TailIsRemembered(s, digits);
    TailIsSolid(digits);
    var w := past + WithoutReturns(rest);
    forall i: nat ensures !WordAt(w, i) {
      if i < 5 {
        assert w[i] == past[i];
      } else {
        assert WordAt(w, i) == WordAt(WithoutReturns(rest), i - 5);
      }
    }
    NoWordIsOver(past, rest, r);
    CheckBehind(rest, [], r);
    assert rest + [] == rest;
    CheckStep([], Over(rest, r).value);
  }

  lemma {:induction false} QueueOver(past: Text, t: Text, s: Scan)
    requires Remembers(s, past) && Over(t, s).Some?
    ensures Remembers(Over(t, s).value, past + WithoutReturns(t))
    decreases |t|
  {
    hide Enter, Leave, AtCrc;
    OverStep(t, s);
    if t == [] {
      assert past + WithoutReturns(t) == past;
    } else if t[0] == RETURN {
      assert past + WithoutReturns(t) == past + WithoutReturns(t[1..]);
      QueueOver(past, t[1..], s);
    } else {
      assert past + WithoutReturns(t) == (past + [t[0]]) + WithoutReturns(t[1..]);
      QueueIsKept(s, t[0]);
      QueueOver(past + [t[0]], t[1..], Leave(Enter(s, t[0]), t[0], !s.quoted));
    }
  }

  lemma {:induction false} NoReturns(t: Text)
    requires forall i :: 0 <= i < |t| ==> t[i] != RETURN
    ensures WithoutReturns(t) == t
  {
    if t != [] {
      NoReturns(t[1..]);
    }
  }

  lemma TailIsRemembered(s: Scan, digits: Text)
    requires s.Valid() && FourHex(digits) && Over(Statement(digits), s).Some?
    ensures Remembers(Over(Statement(digits), s).value, digits + [SEMICOLON])
  {
    hide Over, IsSpace, IsHexChar;
    var past := [s.queue[3], s.queue[2], s.queue[1], s.queue[0]];
    var t := Statement(digits);
    TailIsSolid(digits);
    ReturnIsSpace();
    forall i | 0 <= i < |t| ensures t[i] != RETURN {
      assert i >= 4 ==> t[i] == (digits + [SEMICOLON])[i - 4];
    }
    NoReturns(t);
    QueueOver(past, t, s);
  }

  lemma SameCrcIff(t: Text, u: Text)
    ensures CrcOf(t) == CrcOf(u) <==> Feed(FIRST, WithoutReturns(t)) == Feed(FIRST, WithoutReturns(u))
  {
    hide Feed, WithoutReturns, Complement;
    ComplementIsInjective(Feed(FIRST, WithoutReturns(t)), Feed(FIRST, WithoutReturns(u)));
  }

  lemma ComplementIsInjective(x: bv16, y: bv16)
    ensures Complement(x) == Complement(y) ==> x == y
  {
  }

  // ---------------------------------------------------------------------------
  // Comments, strings and digits
  // ---------------------------------------------------------------------------

  /** The scanner was outside comments and strings before and is so again, with the statement
      it was in, if any, as far as it was. */
  predicate SameStatement(s: Scan, r: Scan) {
    && !s.comment && !s.quoted && !r.comment && !r.quoted
    && r.inStatement == s.inStatement && r.inInstruction == s.inInstruction
  }

  /** Inside a comment or a string, but not both. */
  predicate Enclosed(s: Scan, quoted: bool) {
    s.comment == !quoted && s.quoted == quoted
  }

  lemma EnclosedStep(s: Scan, ch: char8, quoted: bool)
    requires s.Valid() && Enclosed(s, quoted) && ch != (if quoted then QUOTE else NEWLINE)
    ensures !AtCrc(Enter(s, ch), ch)
    ensures var r := Leave(Enter(s, ch), ch, !s.quoted);
      Enclosed(r, quoted) && r.inStatement == s.inStatement && r.inInstruction == s.inInstruction
  {
    hide Update;
  }

  lemma {:induction false} EnclosedOver(t: Text, s: Scan, quoted: bool)
    requires s.Valid() && Enclosed(s, quoted) && (if quoted then QUOTE else NEWLINE) !in t
    ensures Over(t, s).Some?
    ensures var r := Over(t, s).value;
      Enclosed(r, quoted) && r.inStatement == s.inStatement && r.inInstruction == s.inInstruction
    decreases |t|
  {
    hide Enter, Leave, AtCrc, Enclosed;
    OverStep(t, s);
    if t != [] {
      if t[0] == RETURN {
        EnclosedOver(t[1..], s, quoted);
      } else {
        EnclosedStep(s, t[0], quoted);
        EnclosedOver(t[1..], Leave(Enter(s, t[0]), t[0], !s.quoted), quoted);
      }
    }
  }

  /** The mark that opens a comment or a string, and the character that closes it. */
  lemma OpenAndClose(s: Scan, quoted: bool)
    requires s.Valid()
    ensures var mark := if quoted then QUOTE else COMMENT;
      var end := if quoted then QUOTE else NEWLINE;
      && (!s.comment && !s.quoted ==>
            && !AtCrc(Enter(s, mark), mark)
            && var r := Leave(Enter(s, mark), mark, !s.quoted);
               Enclosed(r, quoted) && r.inStatement == s.inStatement && r.inInstruction == s.inInstruction)
      && (Enclosed(s, quoted) ==>
            && !AtCrc(Enter(s, end), end)
            && var r := Leave(Enter(s, end), end, !s.quoted);
               && !r.comment && !r.quoted && r.queue[0] == end
               && r.inStatement == s.inStatement && r.inInstruction == s.inInstruction)
  {
    hide Update;
  }

  /** From any place outside comments and strings: a comment reaches from its apostrophe to the
      end of the line, a string from quotation mark to quotation mark. Whatever they hold, the
      word CRC included, the scanner passes over them and goes on where it was. */
  lemma EnclosedIsOver(s: Scan, text: Text, quoted: bool)
    requires s.Valid() && !s.comment && !s.quoted
    requires (if quoted then QUOTE else NEWLINE) !in text
    ensures var whole := if quoted then [0x22] + text + [0x22] else [0x27] + text + [0x0a];
      && Over(whole, s).Some? && SameStatement(s, Over(whole, s).value)
      && Over(whole, s).value.queue[0] == whole[|whole| - 1]
  {
    hide Enter, Leave, AtCrc, Over, Enclosed;
    var mark := if quoted then QUOTE else COMMENT;
    var end := if quoted then QUOTE else NEWLINE;
    OpenAndClose(s, quoted);
    var s1 := Leave(Enter(s, mark), mark, !s.quoted);
    EnclosedOver(text, s1, quoted);
    var s2 := Over(text, s1).value;
    OpenAndClose(s2, quoted);
    var s3 := Leave(Enter(s2, end), end, !s2.quoted);
    OverStep([mark] + (text + [end]), s);
    OverJoins(text, [end], s1);
    OverStep([end], s2);
    OverStep([], s3);
    assert ([mark] + (text + [end]))[1..] == text + [end] && [end][1..] == [];
    assert [mark] + text + [end] == [mark] + (text + [end]);
  }

  /** So a comment on the line in front of a CRC statement does no harm: the program is
      accepted with the CRC of everything before, comment included. */
  lemma CommentedIsAccepted(t: Text, comment: Text, rest: Text)
    requires Over(t, Start()).Some? && NEWLINE !in comment
    requires var s := Over(t, Start()).value; !s.comment && !s.quoted && !s.inStatement
    ensures var whole := t + ([0x27] + comment + [0x0a]);
      Check(whole + (Statement(HexOf(CrcOf(whole))) + rest), Start()).status == Success
  {
    hide Check, HexOf, CrcOf, Over, Statement;
    var line := [0x27] + comment + [0x0a];
    EnclosedIsOver(Over(t, Start()).value, comment, false);
    OverJoins(t, line, Start());
    SignedIsAccepted(t + line, rest);
  }

  lemma NameStep(s: Scan, ch: char8)
    requires s.Valid() && !s.comment && !s.quoted && (s.inStatement ==> s.inInstruction) && IsNameChar(ch)
    ensures ch != RETURN && !AtCrc(Enter(s, ch), ch)
    ensures var r := Leave(Enter(s, ch), ch, !s.quoted);
      !r.comment && !r.quoted && r.inStatement && r.inInstruction
  {
    hide Update;
  }

  /** The name of an instruction, which says what statement it is. */
  lemma {:induction false} NameOver(name: Text, s: Scan)
    requires s.Valid() && !s.comment && !s.quoted && (s.inStatement ==> s.inInstruction)
    requires forall i :: 0 <= i < |name| ==> IsNameChar(name[i])
    ensures WithoutReturns(name) == name && Over(name, s).Some?
    ensures var r := Over(name, s).value;
      !r.comment && !r.quoted && (name == [] || r.inStatement) && (r.inStatement ==> r.inInstruction)
    decreases |name|
  {
    hide Enter, Leave, AtCrc, IsNameChar;
    OverStep(name, s);
    if name != [] {
      NameStep(s, name[0]);
      NameOver(name[1..], Leave(Enter(s, name[0]), name[0], !s.quoted));
    }
  }

  lemma NameIsNoWord(past: Text, name: Text)
    requires |past| >= 4 && name != [] && name != WORD && !IsNameChar(past[|past| - 1])
    requires forall i :: 0 <= i < |name| ==> IsNameChar(name[i])
    ensures var w := past + name;
      var n := |w|;
      !(IsSpace(w[n - 4]) && w[n - 3] == LETTER_C && w[n - 2] == LETTER_R && w[n - 1] == LETTER_C)
  {
    var w := past + name;
    var n := |w|;
    if |name| >= 4 {
      assert w[n - 4] == name[|name| - 4];
    } else if |name| == 3 {
      assert w[n - 3..] == name;
    } else {
      assert w[n - |name| - 1] == past[|past| - 1];
    }
  }

  /** Behind the name: its first other character ends it. */
  lemma NameEnds(s: Scan, ch: char8)
    requires s.Valid() && !s.comment && !s.quoted && s.inStatement && s.inInstruction
    requires !(IsSpace(s.queue[3]) && s.queue[2] == LETTER_C && s.queue[1] == LETTER_R && s.queue[0] == LETTER_C)
    requires !IsNameChar(ch) && ch != SEMICOLON && ch != COMMENT && ch != QUOTE
    ensures !AtCrc(Enter(s, ch), ch)
    ensures ch != RETURN ==> Operands(Leave(Enter(s, ch), ch, !s.quoted))
  {
    hide Update;
  }

  /** In a statement, behind the name of its instruction. */
  predicate Operands(s: Scan) {
    !s.comment && !s.quoted && s.inStatement && !s.inInstruction
  }

  lemma OperandStep(s: Scan, ch: char8)
    requires s.Valid() && Operands(s) && ch != COMMENT && ch != QUOTE
    ensures !AtCrc(Enter(s, ch), ch)
    ensures var r := Leave(Enter(s, ch), ch, !s.quoted);
      if ch == SEMICOLON then !r.comment && !r.quoted && !r.inStatement && r.queue[0] == SEMICOLON
      else Operands(r)
  {
    hide Update;
  }

  lemma {:induction false} OperandsOver(t: Text, s: Scan)
    requires s.Valid() && Operands(s) && SEMICOLON !in t && COMMENT !in t && QUOTE !in t
    ensures Over(t, s).Some? && Operands(Over(t, s).value)
    decreases |t|
  {
    hide Enter, Leave, AtCrc, Operands;
    OverStep(t, s);
    if t != [] {
      if t[0] == RETURN {
        OperandsOver(t[1..], s);
      } else {
        OperandStep(s, t[0]);
        OperandsOver(t[1..], Leave(Enter(s, t[0]), t[0], !s.quoted));
      }
    }
  }

  /** A statement other than CRC is passed over as a whole, whatever words stand behind the name
      of its instruction, and the scanner is between statements again. */
  lemma StatementIsOver(s: Scan, name: Text, space: char8, operands: Text)
    requires s.Valid() && !s.comment && !s.quoted && !s.inStatement && !IsNameChar(s.queue[0])
    requires name != [] && name != WORD && forall i :: 0 <= i < |name| ==> IsNameChar(name[i])
    requires space == 0x20 || space == 0x0a || space == 0x09
    requires SEMICOLON !in operands && COMMENT !in operands && QUOTE !in operands
    ensures var whole := name + [space] + operands + [0x3b];
      && Over(whole, s).Some?
      && var r := Over(whole, s).value;
         !r.comment && !r.quoted && !r.inStatement && r.queue[0] == 0x3b
  {
    hide Enter, Leave, AtCrc, Over, Operands, WithoutReturns;
    var past := [s.queue[3], s.queue[2], s.queue[1], s.queue[0]];
    NameOver(name, s);
    QueueOver(past, name, s);
    NameIsNoWord(past, name);
    hide IsNameChar;
    var s1 := Over(name, s).value;
    NameEnds(s1, space) by {
      assert !IsNameChar(0x20) && !IsNameChar(0x0a) && !IsNameChar(0x09);
    }
    var s2 := Leave(Enter(s1, space), space, !s1.quoted);
    OperandsOver(operands, s2);
    var s3 := Over(operands, s2).value;
    OperandStep(s3, SEMICOLON);
    var s4 := Leave(Enter(s3, SEMICOLON), SEMICOLON, !s3.quoted);
    var end: Text := [SEMICOLON];
    OverStep(end, s3);
    OverStep([], s4);
    OverJoins(operands, end, s2);
    OverStep([space] + (operands + end), s1);
    OverJoins(name, [space] + (operands + end), s);
    assert end[1..] == [] && ([space] + (operands + end))[1..] == operands + end;
    assert name + [space] + operands + end == name + ([space] + (operands + end));
  }

  /** A digit in lower case. */
  function LowerDigit(v: bv16): (ch: char8)
    requires v < 16
    ensures IsHexChar(ch) && HexValue(ch) == v
  {
    if v < 10 then 0x30 + v as char8 else 0x61 + (v - 10) as char8
  }

  function LowerHexOf(crc: bv16): Text {
    [LowerDigit(crc >> 12), LowerDigit((crc >> 8) & 15), LowerDigit((crc >> 4) & 15), LowerDigit(crc & 15)]
  }

  /** The CRC may be written in lower case as well. */
  lemma SignedInLowerCase(t: Text, rest: Text)
    requires MayBeSigned(t)
    ensures Check(t + (Statement(LowerHexOf(CrcOf(t))) + rest), Start()) == Verdict(Success, Some(CrcOf(t)), CrcOf(t))
  {
    hide Check, Receptive, LowerHexOf, Written, CrcOf, Statement, Over;
    LowerHexIsRead(CrcOf(t));
    StatementIsFound(t, LowerHexOf(CrcOf(t)), rest);
  }

  lemma LowerHexIsRead(crc: bv16)
    ensures FourHex(LowerHexOf(crc)) && Written(LowerHexOf(crc)) == crc
  {
    hide LowerDigit, HexValue, IsHexChar;
    Nibbles(crc);
  }

  // ---------------------------------------------------------------------------
  // Damage within 16 bits
  // ---------------------------------------------------------------------------

  /** Bits of two messages agree outside the window from lo up to hi. */
  ghost predicate Agree(m: Text, m': Text, lo: nat, hi: nat)
    requires |m| == |m'|
  {
    forall i: nat :: i < 8 * |m| && !(lo <= i < hi) ==> MessageBits(m)[i] == MessageBits(m')[i]
  }

  /** The carriage returns stand in the same places. */
  predicate SameReturns(t: Text, damaged: Text) {
    |t| == |damaged| && forall i :: 0 <= i < |t| ==> (t[i] == RETURN <==> damaged[i] == RETURN)
  }

  function Less(a: nat, b: nat): nat {
    if a >= b then a - b else 0
  }

  lemma AgreeTail(m: Text, m': Text, lo: nat, hi: nat)
    requires |m| == |m'| > 0 && Agree(m, m', lo, hi)
    ensures Agree(m[1..], m'[1..], Less(lo, 8), Less(hi, 8))
    ensures Agree([m[0]], [m'[0]], lo, hi)
    ensures lo >= 8 ==> m[0] == m'[0]
  {
    hide ByteBits;
    OneByte(m[0]);
    OneByte(m'[0]);
    forall i: nat | i < 8 ensures MessageBits(m)[i] == ByteBits(m[0], 8)[i] && MessageBits(m')[i] == ByteBits(m'[0], 8)[i] {
    }
    forall i: nat | i < 8 * |m[1..]| && !(Less(lo, 8) <= i < Less(hi, 8))
      ensures MessageBits(m[1..])[i] == MessageBits(m'[1..])[i]
    {
      assert MessageBits(m)[i + 8] == MessageBits(m')[i + 8];
    }
    if lo >= 8 {
      BitsDetermineByte(m[0], m'[0]);
    }
  }

  lemma OneByte(x: char8)
    ensures MessageBits([x]) == ByteBits(x, 8)
  {
    hide ByteBits;
    assert [x][1..] == [];
  }

  lemma AgreeCons(x: char8, y: char8, m: Text, m': Text, lo: nat, hi: nat)
    requires |m| == |m'| && lo <= hi && Agree([x], [y], lo, hi) && Agree(m, m', Less(lo, 8), Less(hi, 8))
    ensures Agree([x] + m, [y] + m', lo, hi)
  {
    hide ByteBits;
    OneByte(x);
    OneByte(y);
    assert ([x] + m)[1..] == m && ([y] + m')[1..] == m';
    var a, b := MessageBits([x] + m), MessageBits([y] + m');
    forall i: nat | i < 8 * (|m| + 1) && !(lo <= i < hi) ensures a[i] == b[i] {
      if i < 8 {
        assert a[i] == MessageBits([x])[i] && b[i] == MessageBits([y])[i];
      } else {
        assert a[i] == MessageBits(m)[i - 8] && b[i] == MessageBits(m')[i - 8];
      }
    }
  }

  /** Taking the carriage returns out makes no window wider. */
  lemma {:induction false} AgreeWithoutReturns(t: Text, damaged: Text, lo: nat, hi: nat) returns (at: nat)
    requires SameReturns(t, damaged) && lo <= hi && Agree(t, damaged, lo, hi)
    ensures at <= lo && |WithoutReturns(t)| == |WithoutReturns(damaged)|
    ensures Agree(WithoutReturns(t), WithoutReturns(damaged), at, at + hi - lo)
    ensures t != damaged ==> WithoutReturns(t) != WithoutReturns(damaged)
    decreases |t|
  {
    hide Agree, WithoutReturns, SameReturns;
    HeadWithoutReturns(t);
    HeadWithoutReturns(damaged);
    ReturnsOfTail(t, damaged);
    if t == [] {
      at := lo;
      NothingDiffers(at, at + hi - lo);
    } else {
      AgreeTail(t, damaged, lo, hi);
      var u, d := WithoutReturns(t[1..]), WithoutReturns(damaged[1..]);
      assert t == [t[0]] + t[1..] && damaged == [damaged[0]] + damaged[1..];
      at := AgreeWithoutReturns(t[1..], damaged[1..], Less(lo, 8), Less(hi, 8));
      if t[0] == RETURN {
        Widen(u, d, at, at + Less(hi, 8) - Less(lo, 8), at + hi - lo);
      } else {
        at := if lo >= 8 then at + 8 else lo;
        SameAgrees(t[0], at, at + hi - lo);
        AgreeCons(t[0], damaged[0], u, d, at, at + hi - lo);
        assert ([t[0]] + u)[1..] == u && ([damaged[0]] + d)[1..] == d;
      }
    }
  }

  lemma HeadWithoutReturns(t: Text)
    ensures WithoutReturns(t) ==
      if t == [] then []
      else if t[0] == RETURN then WithoutReturns(t[1..])
      else [t[0]] + WithoutReturns(t[1..])
  {
  }

  lemma ReturnsOfTail(t: Text, damaged: Text)
    requires SameReturns(t, damaged)
    ensures |t| == |damaged|
    ensures t != [] ==> (t[0] == RETURN <==> damaged[0] == RETURN) && SameReturns(t[1..], damaged[1..])
  {
  }

  lemma NothingDiffers(lo: nat, hi: nat)
    ensures Agree([], [], lo, hi)
  {
  }

  lemma Widen(m: Text, m': Text, lo: nat, hi: nat, hi': nat)
    requires |m| == |m'| && Agree(m, m', lo, hi) && hi <= hi'
    ensures Agree(m, m', lo, hi')
  {
    hide MessageBits;
  }

  lemma SameAgrees(x: char8, lo: nat, hi: nat)
    ensures Agree([x], [x], lo, hi)
  {
  }

  /** Damage within 16 neighbouring bits that makes and removes no carriage return changes the
      CRC. */
  lemma BurstChangesCrc(t: Text, damaged: Text, at: nat)
    requires SameReturns(t, damaged) && t != damaged && Agree(t, damaged, at, at + 16)
    ensures CrcOf(damaged) != CrcOf(t)
  {
    hide SameReturns, MessageBits, Feed, WithoutReturns;
    var at' := AgreeWithoutReturns(t, damaged, at, at + 16);
    BurstDetected(WithoutReturns(t), WithoutReturns(damaged), at');
    SameCrcIff(t, damaged);
  }

  /** And is refused, when no CRC statement arose from it and none follows. */
  lemma BurstIsDetected(t: Text, damaged: Text, digits: Text, rest: Text, at: nat)
    requires MayBeSigned(t) && FourHex(digits)
    requires Check(t + (Statement(digits) + rest), Start()).status == Success
    requires SameReturns(t, damaged) && t != damaged && Agree(t, damaged, at, at + 16)
    requires Over(damaged, Start()).Some? && NoWord(WithoutReturns(rest))
    ensures Check(damaged + (Statement(digits) + rest), Start()).status
      == if Receptive(Over(damaged, Start()).value) then CrcError else UnexpectedEnd
  {
    hide Check, Receptive, FourHex, CrcOf, Statement, Over, NoWord, SameReturns, Agree, MayBeSigned;
    BurstChangesCrc(t, damaged, at);
    DamageIsDetected(t, damaged, digits, rest);
  }

  lemma {:induction false} JoinedWithoutReturns(a: Text, b: Text)
    ensures WithoutReturns(a + b) == WithoutReturns(a) + WithoutReturns(b)
  {
    hide WithoutReturns;
    HeadWithoutReturns(a);
    if a == [] {
      assert a + b == b;
    } else {
      HeadWithoutReturns(a + b);
      assert (a + b)[1..] == a[1..] + b;
      JoinedWithoutReturns(a[1..], b);
    }
  }

  predicate Leaves(c: bv16, ch: char8) {
    Update(c, ch) == c
  }

  /** A character that becomes a carriage return drops out of the CRC. That goes unnoticed
      exactly when it had left the register as it was. */
  lemma LostInReturnIff(a: Text, ch: char8, b: Text)
    requires ch != RETURN
    ensures CrcOf(a + [RETURN] + b) == CrcOf(a + [ch] + b) <==> Leaves(Feed(FIRST, WithoutReturns(a)), ch)
  {
    hide Feed, Update, WithoutReturns, CrcOf;
    var u, v := WithoutReturns(a), WithoutReturns(b);
    var c := Feed(FIRST, u);
    LettersOf(a, ch, b);
    FeedJoin(FIRST, u, v);
    FeedJoin(FIRST, u + [ch], v);
    FeedJoin(FIRST, u, [ch]);
    FeedOne(c, ch);
    FeedTellsApart(c, Update(c, ch), v);
    SameCrcIff(a + [RETURN] + b, a + [ch] + b);
  }

  lemma FeedTellsApart(c: bv16, c': bv16, m: Text)
    ensures Feed(c, m) == Feed(c', m) ==> c == c'
  {
    hide Feed, FeedBits, MessageBits;
    MessageIsItsBits(c, m);
    MessageIsItsBits(c', m);
    if Feed(c, m) == Feed(c', m) {
      FeedIsInjective(c, c', MessageBits(m));
    }
  }

  lemma FeedOne(c: bv16, ch: char8)
    ensures Feed(c, [ch]) == Update(c, ch)
  {
    hide Update;
    assert [ch][1..] == [];
  }

  lemma LettersOf(a: Text, ch: char8, b: Text)
    requires ch != RETURN
    ensures WithoutReturns(a + [RETURN] + b) == WithoutReturns(a) + WithoutReturns(b)
    ensures WithoutReturns(a + [ch] + b) == WithoutReturns(a) + [ch] + WithoutReturns(b)
  {
    OneLetter(ch);
    hide WithoutReturns;
    JoinedWithoutReturns(a + [RETURN], b);
    JoinedWithoutReturns(a, [RETURN]);
    JoinedWithoutReturns(a + [ch], b);
    JoinedWithoutReturns(a, [ch]);
    assert WithoutReturns(a) + [] == WithoutReturns(a);
  }

  lemma OneLetter(ch: char8)
    ensures WithoutReturns([RETURN]) == []
    ensures ch != RETURN ==> WithoutReturns([ch]) == [ch]
  {
    assert [RETURN][1..] == [] && [ch][1..] == [];
  }

  // ---------------------------------------------------------------------------
  // Damage that is not noticed
  // ---------------------------------------------------------------------------

  lemma PlainStep(s: Scan, ch: char8)
    requires s.Valid() && !s.comment && !s.quoted
    requires ch != COMMENT && ch != QUOTE && (IsSpace(ch) ==> s.queue[0] != LETTER_C)
    ensures !AtCrc(Enter(s, ch), ch)
    ensures var r := Leave(Enter(s, ch), ch, !s.quoted);
      && !r.comment && !r.quoted && r.queue[0] == ch
      && (ch == SEMICOLON || (ch == NEWLINE && !s.inStatement) ==> !r.inStatement)
  {
    hide Update;
  }

  lemma {:induction false} PlainOver(t: Text, s: Scan)
    requires s.Valid() && !s.comment && !s.quoted
    requires forall i :: 0 <= i < |t| ==> t[i] != COMMENT && t[i] != QUOTE && t[i] != RETURN
    requires t != [] && IsSpace(t[0]) ==> s.queue[0] != LETTER_C
    requires forall i :: 1 <= i < |t| && IsSpace(t[i]) ==> t[i - 1] != LETTER_C
    ensures Over(t, s).Some?
    ensures var r := Over(t, s).value;
      !r.comment && !r.quoted && r.queue[0] == if t == [] then s.queue[0] else t[|t| - 1]
    decreases |t|
  {
    hide Enter, Leave, AtCrc, IsSpace;
    OverStep(t, s);
    if t != [] {
      PlainStep(s, t[0]);
      PlainOver(t[1..], Leave(Enter(s, t[0]), t[0], !s.quoted));
    }
  }

  /** A text that reads CRD where a CRC statement would read CRC. */
  function Misspelt(digits: Text): Text {
    [NEWLINE, LETTER_C, LETTER_R, 0x44, 0x20] + digits + [SEMICOLON, NEWLINE]
  }

  lemma MisspeltMayBeSigned(digits: Text)
    requires FourHex(digits)
    ensures MayBeSigned(Misspelt(digits))
  {
    hide Over, IsHexChar;
    var head := [NEWLINE, LETTER_C, LETTER_R, 0x44, 0x20] + digits;
    TailIsSolid(digits);
    HexIsNoMark(digits);
    forall i | 5 <= i < |head| ensures !IsSpace(head[i]) {
      assert head[i] == (digits + [SEMICOLON])[i - 5];
    }
    PlainOver(head, Start());
    EndOfStatement(head);
    assert Misspelt(digits) == head + [SEMICOLON, NEWLINE];
  }

  /** Behind a statement and its line end there is place for a CRC statement. */
  lemma EndOfStatement(head: Text)
    requires Over(head, Start()).Some?
    requires var s := Over(head, Start()).value; !s.comment && !s.quoted
    ensures MayBeSigned(head + [SEMICOLON, NEWLINE])
  {
    hide Over, Enter, Leave, AtCrc;
    var s := Over(head, Start()).value;
    PlainStep(s, SEMICOLON);
    var s1 := Leave(Enter(s, SEMICOLON), SEMICOLON, !s.quoted);
    PlainStep(s1, NEWLINE);
    var s2 := Leave(Enter(s1, NEWLINE), NEWLINE, !s1.quoted);
    OverStep([SEMICOLON, NEWLINE], s);
    OverStep([NEWLINE], s1);
    OverStep([], s2);
    OverJoins(head, [SEMICOLON, NEWLINE], Start());
    assert [SEMICOLON, NEWLINE][1..] == [NEWLINE] && [NEWLINE][1..] == [];
  }

  lemma HexIsNoMark(digits: Text)
    requires FourHex(digits)
    ensures forall i :: 0 <= i < 4 ==> digits[i] != COMMENT && digits[i] != QUOTE && digits[i] != RETURN
  {
    HexIsNoSpace(digits[0]);
    HexIsNoSpace(digits[1]);
    HexIsNoSpace(digits[2]);
    HexIsNoSpace(digits[3]);
    assert !IsHexChar(COMMENT) && !IsHexChar(QUOTE) && !IsHexChar(RETURN);
    hide IsHexChar;
  }

  /** The condition that no statement arises cannot be dropped: one letter of a signed program
      is changed, and it is accepted still, by a statement that was none before. */
  lemma DamageCanMakeAStatement(rest: Text) returns (t: Text, damaged: Text, digits: Text)
    ensures MayBeSigned(t) && FourHex(digits)
    ensures |damaged| == |t| > 3 && damaged[3] != t[3] && forall i :: 0 <= i < |t| && i != 3 ==> damaged[i] == t[i]
    ensures Check(t + (Statement(digits) + rest), Start()).status == Success
    ensures Check(damaged + (Statement(digits) + rest), Start()).status == Success
  {
    hide Check, HexOf, CrcOf, IsHexChar, Written;
    var own := HexOf(CrcOf([NEWLINE]));
    HexOfIsRead(CrcOf([NEWLINE]));
    t := Misspelt(own);
    damaged := [NEWLINE] + (Statement(own) + [NEWLINE]);
    MisspeltMayBeSigned(own);
    digits := HexOf(CrcOf(t));
    HexOfIsRead(CrcOf(t));
    SignedIsAccepted(t, rest);
    NewlineMayBeSigned();
    SignedIsAccepted([NEWLINE], [NEWLINE] + (Statement(digits) + rest));
    assert damaged + (Statement(digits) + rest)
      == [NEWLINE] + (Statement(own) + ([NEWLINE] + (Statement(digits) + rest)));
  }

  lemma NewlineMayBeSigned()
    ensures MayBeSigned([NEWLINE])
  {
    hide Enter, Leave, AtCrc;
    PlainStep(Start(), NEWLINE);
    OverStep([NEWLINE], Start());
    OverStep([], Leave(Enter(Start(), NEWLINE), NEWLINE, true));
  }

  const LETTER_M: char8 := 0x4d

  /** RHU, on a line of its own. */
  const LINE: Text := [NEWLINE, LETTER_R, 0x48, 0x55]

  lemma FeedNewline()
    ensures Update(0xffff, 0xa) == 0xa0dd
  {
    assert ShiftByte(0xffff, 0xa, 8) == ShiftByte(0x7dfb, 0x2, 6);
    assert ShiftByte(0x7dfb, 0x2, 6) == ShiftByte(0x5d7a, 0x0, 4);
    assert ShiftByte(0x5d7a, 0x0, 4) == ShiftByte(0x9356, 0x0, 2);
  }

  lemma FeedR()
    ensures Update(0xa0dd, 0x52) == 0x7c5f
  {
    assert ShiftByte(0xa0dd, 0x52, 8) == ShiftByte(0xee3b, 0x14, 6);
    assert ShiftByte(0xee3b, 0x14, 6) == ShiftByte(0xfd82, 0x5, 4);
    assert ShiftByte(0xfd82, 0x5, 4) == ShiftByte(0xf96c, 0x1, 2);
  }

  lemma FeedH()
    ensures Update(0x7c5f, 0x48) == 0x6442
  {
    assert ShiftByte(0x7c5f, 0x48, 8) == ShiftByte(0xd91b, 0x12, 6);
    assert ShiftByte(0xd91b, 0x12, 6) == ShiftByte(0x7442, 0x4, 4);
    assert ShiftByte(0x7442, 0x4, 4) == ShiftByte(0x9918, 0x1, 2);
  }

  lemma FeedU()
    ensures Update(0x6442, 0x55) == 0x645a
  {
    assert ShiftByte(0x6442, 0x55, 8) == ShiftByte(0xdf1c, 0x15, 6);
    assert ShiftByte(0xdf1c, 0x15, 6) == ShiftByte(0x75c3, 0x5, 4);
    assert ShiftByte(0x75c3, 0x5, 4) == ShiftByte(0x9978, 0x1, 2);
  }

  lemma FeedM()
    ensures Update(0x645a, 0x4d) == 0x645a
  {
    assert ShiftByte(0x645a, 0x4d, 8) == ShiftByte(0xdf1a, 0x13, 6);
    assert ShiftByte(0xdf1a, 0x13, 6) == ShiftByte(0x75c2, 0x4, 4);
    assert ShiftByte(0x75c2, 0x4, 4) == ShiftByte(0x9978, 0x1, 2);
  }

  /** Behind it the register is one that an M leaves as it is. */
  lemma LineIsFed()
    ensures Feed(FIRST, LINE) == 0x645a && Update(0x645a, LETTER_M) == 0x645a
  {
    FeedNewline();
    FeedR();
    FeedH();
    FeedU();
    FeedM();
    hide Update;
    assert LINE[1..] == [LETTER_R, 0x48, 0x55] && [LETTER_R, 0x48, 0x55][1..] == [0x48, 0x55];
    FeedOne(0x6442, 0x55);
    assert [0x48, 0x55][1..] == [0x55];
    assert Feed(0x7c5f, [0x48, 0x55]) == 0x645a;
    assert Feed(0xa0dd, [LETTER_R, 0x48, 0x55]) == 0x645a;
  }

  /** Nor can the one about carriage returns: one bit of a signed program is changed, which
      turns an M into one, and it is accepted still, by the same statement. */
  lemma DamageCanHideInReturn(rest: Text) returns (t: Text, damaged: Text, digits: Text)
    ensures MayBeSigned(t) && MayBeSigned(damaged) && FourHex(digits)
    ensures |damaged| == |t| > 4 && t[4] == LETTER_M && damaged[4] == RETURN == LETTER_M ^ 0x40
    ensures forall i :: 0 <= i < |t| && i != 4 ==> damaged[i] == t[i]
    ensures Check(t + (Statement(digits) + rest), Start()).status == Success
    ensures Check(damaged + (Statement(digits) + rest), Start()).status == Success
  {
    hide Check, HexOf, CrcOf, Written, Statement, Over, MayBeSigned, Feed, Update, FourHex, WithoutReturns;
    var end := [SEMICOLON, NEWLINE];
    t, damaged := LINE + [LETTER_M] + end, LINE + [RETURN] + end;
    digits := HexOf(CrcOf(t));
    HexOfIsRead(CrcOf(t));
    LineMayBeSigned();
    NoReturns(LINE);
    LineIsFed();
    LostInReturnIff(LINE, LETTER_M, end);
    SignedIsAccepted(t, rest);
    SignedIsAccepted(damaged, rest);
  }

  lemma LineMayBeSigned()
    ensures MayBeSigned(LINE + [LETTER_M] + [SEMICOLON, NEWLINE])
    ensures MayBeSigned(LINE + [RETURN] + [SEMICOLON, NEWLINE])
  {
    hide Over, MayBeSigned;
    PlainOver(LINE, Start());
    PlainOver(LINE + [LETTER_M], Start());
    var s := Over(LINE, Start()).value;
    OverJoins(LINE, [RETURN], Start());
    OverStep([RETURN], s);
    OverStep([], s);
    assert [RETURN][1..] == [];
    EndOfStatement(LINE + [LETTER_M]);
    EndOfStatement(LINE + [RETURN]);
  }
}
