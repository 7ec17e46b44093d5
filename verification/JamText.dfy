/** The characters of a Jam program: white space, comments, and the 64 characters that
    carry six bits each. */
module JamText {
  import opened Bits
  import opened Options

  const NUL: byte := 0
  const NEWLINE: byte := 10
  const RETURN: byte := 13
  const COMMENT: byte := 39
  const SEMICOLON: byte := 59
  const EOF: int := -1

  /** jam_isspace */
  predicate IsSpace(ch: byte) {
    0x09 <= ch <= 0x0d || ch == 0x20
  }

  /** jam_6bit_char, None for its -1. */
  function SixBit(ch: byte): (r: Option<nat>)
    ensures r.Some? ==> r.value < 64
  {
    if '0' as int <= ch <= '9' as int then Some(ch - '0' as int)
    else if 'A' as int <= ch <= 'Z' as int then Some(ch + 10 - 'A' as int)
    else if 'a' as int <= ch <= 'z' as int then Some(ch + 36 - 'a' as int)
    else if ch == '_' as int then Some(62)
    else if ch == '@' as int then Some(63)
    else None
  }

  /** The character a writer uses for a six-bit value. */
  function SixBitChar(v: nat): (ch: byte)
    requires v < 64
    ensures forall c: byte :: SixBit(c) == Some(v) <==> c == ch
  {
    if v < 10 then '0' as int + v
    else if v < 36 then 'A' as int + (v - 10)
    else if v < 62 then 'a' as int + (v - 36)
    else if v == 62 then '_' as int
    else '@' as int
  }

  /** The 64 characters in the order of their values. */
  function Alphabet(v: nat): char
    requires v < 64
  {
    if v < 16 then "0123456789ABCDEF"[v]
    else if v < 32 then "GHIJKLMNOPQRSTUV"[v - 16]
    else if v < 48 then "WXYZabcdefghijkl"[v - 32]
    else "mnopqrstuvwxyz_@"[v - 48]
  }

  /** The value of a character is its place in the alphabet. */
  lemma SixBitIsPlace(v: nat)
    requires v < 64
    ensures SixBitChar(v) == Alphabet(v) as int && SixBit(SixBitChar(v)) == Some(v)
  {
  }

  /** The text without its white space. */
  function Squeezed(text: seq<byte>): (r: seq<byte>)
    ensures |r| <= |text|
  {
    if text == [] then []
    else
      var before, last := Squeezed(text[..|text| - 1]), text[|text| - 1];
      if IsSpace(last) then before else before + [last]
  }

  /** The part of a text before the first `stop`. */
  function Until(text: seq<byte>, stop: byte): (r: seq<byte>)
    ensures |r| <= |text| && r == text[..|r|]
    ensures stop !in r && (|r| < |text| ==> text[|r|] == stop)
  {
    if text == [] || text[0] == stop then [] else [text[0]] + Until(text[1..], stop)
  }

  lemma {:induction false} UntilIs(text: seq<byte>, stop: byte, n: nat)
    requires n <= |text| && stop !in text[..n] && (n < |text| ==> text[n] == stop)
    ensures Until(text, stop) == text[..n]
  {
    if n != 0 {
      assert text[0] == text[..n][0];
      assert forall ch :: ch in text[1..][..n - 1] ==> ch in text[..n];
      UntilIs(text[1..], stop, n - 1);
    }
  }

  /** A NUL-terminated text at the start of a buffer. */
  ghost predicate Holds(buffer: array<byte>, text: seq<byte>)
    reads buffer
  {
    && |text| < buffer.Length && buffer[|text|] == NUL
    && (forall k :: 0 <= k < |text| ==> text[k] != NUL)
    && buffer[..|text|] == text
  }

  /** Removes the white space of a text in its own buffer. */
  method Squeeze(buffer: array<byte>, ghost text: seq<byte>)
    requires Holds(buffer, text)
    modifies buffer
    ensures Holds(buffer, Squeezed(text))
  {
    var index, index2 := 0, 0;
    assert text[..0] == [];
    while buffer[index] != NUL
      invariant 0 <= index2 <= index <= |text|
      invariant forall k :: index <= k < |text| ==> buffer[k] == text[k]
      invariant buffer[|text|] == NUL
      invariant buffer[..index2] == Squeezed(text[..index])
      invariant forall k :: 0 <= k < index2 ==> buffer[k] != NUL
      decreases |text| - index
    {
      ghost var before := buffer[..index2];
      assert text[..index + 1][..index] == text[..index];
      var ch := buffer[index];
      assert ch == text[index];
      if !IsSpace(ch) {
        buffer[index2] := ch;
        index2 := index2 + 1;
        assert buffer[..index2] == before + [ch];
      }
      index := index + 1;
    }
    assert text[..index] == text;
    buffer[index2] := NUL;
  }

  // ---------------------------------------------------------------------------
  // The input stream
  // ---------------------------------------------------------------------------

  /** The next character that is neither white space nor inside a comment, EOF when there is
      none, and the position behind it. */
  function NextReal(input: seq<byte>, p: nat, comment: bool): (r: (int, nat))
    ensures r.0 == EOF || 0 <= r.0 < 0x100
    ensures r.0 != EOF ==> p < r.1 <= |input|
    decreases |input| - p
  {
    if p >= |input| then (EOF, p)
    else
      var ch := input[p];
      var inside := comment || ch == COMMENT;
      if !inside && !IsSpace(ch) then (ch, p + 1)
      else NextReal(input, p + 1, inside && ch != NEWLINE && ch != RETURN)
  }

  /** All the characters NextReal delivers. */
  function RealText(input: seq<byte>, p: nat): seq<byte>
    decreases |input| - p
  {
    var (ch, next) := NextReal(input, p, false);
    if ch == EOF then [] else [ch] + RealText(input, next)
  }

  class CharStream {
    const input: seq<byte>
    var position: nat

    constructor (input: seq<byte>)
      ensures this.input == input && position == 0
    {
      this.input, position := input, 0;
    }

    /** jam_getc */
    method Getc() returns (ch: int)
      modifies this
      ensures if old(position) < |input| then ch == input[old(position)] && position == old(position) + 1
        else ch == EOF && position == old(position)
    {
      if position < |input| {
        ch := input[position];
        position := position + 1;
      } else {
        ch := EOF;
      }
    }

    /** jam_get_real_char */
    method GetRealChar() returns (ch: int)
      modifies this
      ensures (ch, position) == NextReal(input, old(position), false)
    {
      var comment, found, ended := false, false, false;
      ch := 0;
      while !ended && !found
        invariant !ended && !found ==> NextReal(input, old(position), false) == NextReal(input, position, comment)
        invariant ended || found ==> (ch, position) == NextReal(input, old(position), false)
        decreases !ended && !found, |input| - position
      {
        ch := Getc();
        if !comment && ch == COMMENT {
          comment := true;
        }
        if !comment {
          if ch == EOF || !IsSpace(ch) {
            found := true;
          }
        }
        if ch == EOF {
          ended := true;
        }
        if comment && (ch == NEWLINE || ch == RETURN) {
          comment := false;
        }
      }
    }
  }

  /** A comment reaches from its apostrophe to the end of the line, and is not delivered. */
  lemma CommentIsSkipped(input: seq<byte>, p: nat, end: nat)
    requires p < end < |input| && input[p] == '\'' as int && (input[end] == 0x0a || input[end] == 0x0d)
    requires forall i :: p < i < end ==> input[i] != 0x0a && input[i] != 0x0d
    ensures RealText(input, p) == RealText(input, end + 1)
  {
    InsideComment(input, p + 1, end);
    assert NextReal(input, p, false) == NextReal(input, p + 1, true);
  }

  lemma {:induction false} InsideComment(input: seq<byte>, p: nat, end: nat)
    requires p <= end < |input| && (input[end] == 0x0a || input[end] == 0x0d)
    requires forall i :: p <= i < end ==> input[i] != 0x0a && input[i] != 0x0d
    ensures NextReal(input, p, true) == NextReal(input, end + 1, false)
    decreases end - p
  {
    if p < end {
      InsideComment(input, p + 1, end);
    }
  }

  /** Without comments the stream delivers the text without its white space. */
  lemma {:induction false} RealIsSqueezed(input: seq<byte>, p: nat)
    requires p <= |input| && COMMENT !in input
    ensures RealText(input, p) == Squeezed(input[p..])
    decreases |input| - p
  {
    if p < |input| {
      var rest := input[p + 1..];
      RealIsSqueezed(input, p + 1);
      assert input[p..] == [input[p]] + rest;
      SqueezedHead(input[p], rest);
      if IsSpace(input[p]) {
        SkipSpace(input, p);
      }
    }
  }

  lemma SkipSpace(input: seq<byte>, p: nat)
    requires p < |input| && IsSpace(input[p]) && COMMENT !in input
    ensures RealText(input, p) == RealText(input, p + 1)
  {
    assert NextReal(input, p, false) == NextReal(input, p + 1, false);
  }

  lemma {:induction false} SqueezedHead(ch: byte, rest: seq<byte>)
    ensures Squeezed([ch] + rest) == (if IsSpace(ch) then [] else [ch]) + Squeezed(rest)
    decreases |rest|
  {
    if rest != [] {
      var init := rest[..|rest| - 1];
      SqueezedHead(ch, init);
      assert ([ch] + rest)[..|rest|] == [ch] + init;
    } else {
      assert [ch] + rest == [ch];
      assert [ch][..0] == [];
      assert Squeezed([]) == [];
    }
  }
}
