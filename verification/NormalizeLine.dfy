/**
 Escape sequences in message texts: `normalize_line` rewrites a NUL-terminated
 wide-character line in place, and refines a left-to-right decoder on values.
 */
module NormalizeLine {
  import opened Wrappers
  import opened Sequences

  type WChar = nat

  /** How iconv converts a single byte; None if it does not give one character. */
  type Conversion = nat -> Option<WChar>

  /** One step of the decoder: the characters used up, what they stand for, and
      whether they are an invalid escape sequence. */
  datatype Token = Token(used: nat, text: Option<WChar>, invalid: bool)

  /** The decoded text, what is left from the closing quote on, and the number of
      invalid escape sequences. */
  datatype Decoded = Decoded(text: seq<WChar>, rest: seq<WChar>, invalid: nat)

  predicate IsOctal(c: WChar)
  {
    '0' as int <= c <= '7' as int
  }

  /** The control character that a letter stands for behind the escape character. */
  function Control(c: WChar): Option<WChar>
  {
    if c == 'n' as int then Some(10)
    else if c == 't' as int then Some(9)
    else if c == 'v' as int then Some(11)
    else if c == 'b' as int then Some(8)
    else if c == 'r' as int then Some(13)
    else if c == 'f' as int then Some(12)
    else None
  }

  /** The number of further digits that an octal escape takes, and its value. */
  function Octal(number: nat, s: seq<WChar>): (r: (nat, nat))
    ensures r.0 <= |s|
    ensures number <= 255 ==> r.1 <= 255
    decreases |s|
  {
    if number <= 31 && s != [] && IsOctal(s[0]) then
      var (n, v) := Octal(number * 8 + (s[0] - '0' as int), s[1..]);
      (n + 1, v)
    else (0, number)
  }

  /** What stands at the front of `s`. */
  function FirstToken(s: seq<WChar>, quote: WChar, escape: WChar, iconv: Conversion): (t: Token)
    requires s != []
    ensures 1 <= t.used <= |s|
  {
    if s[0] != escape then Token(1, Some(s[0]), false)
    else if |s| == 1 then Token(1, None, false)
    else
      var c := s[1];
      if quote != 0 && c == quote then Token(2, Some(c), false)
      else if Control(c).Some? then Token(2, Control(c), false)
      else if IsOctal(c) then
        var (n, v) := Octal(c - '0' as int, s[2..]);
        Token(2 + n, iconv(v), iconv(v) == None)
      else if c == escape then Token(2, Some(escape), false)
      else Token(1, None, false)
  }

  function Emit(c: Option<WChar>): (s: seq<WChar>)
    ensures |s| <= 1
  {
    match c
    case Some(w) => [w]
    case None => []
  }

  /** Decode up to the first unescaped quote character. */
  function Decode(s: seq<WChar>, quote: WChar, escape: WChar, iconv: Conversion): (d: Decoded)
    ensures |d.text| + |d.rest| <= |s|
    ensures d.rest == [] || d.rest[0] == quote
  {
    if s == [] || s[0] == quote then Decoded([], s, 0)
    else
      var t := FirstToken(s, quote, escape, iconv);
      var d := Decode(s[t.used..], quote, escape, iconv);
      Decoded(Emit(t.text) + d.text, d.rest, d.invalid + if t.invalid then 1 else 0)
  }

  predicate IsQuoted(s: seq<WChar>, quote: WChar)
  {
    quote != 0 && s != [] && s[0] == quote
  }

  /** The whole line: an opening quote character is dropped. */
  function Normalized(s: seq<WChar>, quote: WChar, escape: WChar, iconv: Conversion): Decoded
  {
    Decode(if IsQuoted(s, quote) then s[1..] else s, quote, escape, iconv)
  }

  // ----- The in-place algorithm -----

  /** What is still to be read from position `rp` on is `s`, with its terminator. */
  ghost predicate Holds(buf: seq<WChar>, rp: nat, s: seq<WChar>)
  {
    && rp + |s| < |buf| && buf[rp + |s|] == 0
    && forall i :: 0 <= i < |s| ==> buf[rp + i] == s[i] != 0
  }

  /** The first character still to be read. */
  function Front(s: seq<WChar>): WChar
  {
    if s == [] then 0 else s[0]
  }

  lemma HoldsSuffix(buf: seq<WChar>, rp: nat, s: seq<WChar>, k: nat)
    requires Holds(buf, rp, s) && k <= |s|
    ensures Holds(buf, rp + k, s[k..]) && buf[rp + k] == Front(s[k..])
  {
  }

  /** Writing behind the read cursor does not disturb what is still to be read. */
  lemma HoldsAfterWrite(buf: seq<WChar>, rp: nat, s: seq<WChar>, wp: nat, c: WChar)
    requires Holds(buf, rp, s) && wp < rp
    ensures Holds(buf[wp := c], rp, s) && buf[wp := c][rp] == Front(s)
  {
  }

  lemma OctalStep(number: nat, s: seq<WChar>)
    ensures if number <= 31 && s != [] && IsOctal(s[0]) then
              var r, r' := Octal(number, s), Octal(number * 8 + (s[0] - '0' as int), s[1..]);
              r.0 == r'.0 + 1 && r.1 == r'.1
            else Octal(number, s) == (0, number)
  {
  }

  /** The digits of an octal escape; its value never exceeds 255. */
  method ReadOctal(line: array<WChar>, start: nat, ghost s: seq<WChar>) returns (number: nat, rp: nat)
    requires Holds(line[..], start, s) && s != [] && IsOctal(s[0])
    ensures number <= 255
    ensures var r := Octal(s[0] - '0' as int, s[1..]); number == r.1 && rp == start + 1 + r.0
  {
    hide Octal;
    HoldsSuffix(line[..], start, s, 1);
    number := line[start] - '0' as int;
    rp := start + 1;
    ghost var left := s[1..];
    while number <= 255 / 8 && '0' as int <= line[rp] <= '7' as int
      invariant Holds(line[..], rp, left) && line[rp] == Front(left)
      invariant number <= 255
      invariant var r, r' := Octal(s[0] - '0' as int, s[1..]), Octal(number, left);
                r'.1 == r.1 && rp + r'.0 == start + 1 + r.0
      decreases |left|
    {
      HoldsSuffix(line[..], rp, left, 1);
      OctalStep(number, left);
      number := number * 8;
      number := number + (line[rp] - '0' as int);
      rp := rp + 1;
      left := left[1..];
    }
    OctalStep(number, left);
  }

  /** Read what stands at `start`, which is neither the end nor a quote character. */
  method ReadToken(line: array<WChar>, start: nat, quote: WChar, escape: WChar, iconv: Conversion, ghost s: seq<WChar>)
    returns (rp: nat, text: Option<WChar>, invalid: bool)
    requires Holds(line[..], start, s) && s != []
    ensures rp > start && FirstToken(s, quote, escape, iconv) == Token(rp - start, text, invalid)
  {
    hide Octal;
    HoldsSuffix(line[..], start, s, 0);
    HoldsSuffix(line[..], start, s, 1);
    rp, text, invalid := start + 1, None, false;
    if line[start] != escape {
      text := Some(line[start]);
    } else if quote != 0 && line[rp] == quote {
      text, rp := Some(line[rp]), rp + 1;
    } else if line[rp] == 'n' as int {
      text, rp := Some('\n' as int), rp + 1;
    } else if line[rp] == 't' as int {
      text, rp := Some('\t' as int), rp + 1;
    } else if line[rp] == 'v' as int {
      text, rp := Some(11), rp + 1;
    } else if line[rp] == 'b' as int {
      text, rp := Some(8), rp + 1;
    } else if line[rp] == 'r' as int {
      text, rp := Some('\r' as int), rp + 1;
    } else if line[rp] == 'f' as int {
      text, rp := Some(12), rp + 1;
    } else if IsOctal(line[rp]) {
      var number;
      number, rp := ReadOctal(line, rp, s[1..]);
      assert s[1..][1..] == s[2..];
      text := iconv(number);
      invalid := text == None;
    } else if line[rp] == escape {
      text, rp := Some(escape), rp + 1;
    }
  }

  /** One turn of the loop: read a token and write what it stands for. */
  method Advance(line: array<WChar>, rp: nat, wp: nat, quote: WChar, escape: WChar, iconv: Conversion,
                 ghost s: seq<WChar>)
    returns (rp': nat, wp': nat, invalid: bool)
    requires wp <= rp && Holds(line[..], rp, s) && s != []
    modifies line
    ensures var t := FirstToken(s, quote, escape, iconv);
            && rp' == rp + t.used && invalid == t.invalid
            && Holds(line[..], rp', s[t.used..]) && line[rp'] == Front(s[t.used..])
            && wp' == wp + |Emit(t.text)| <= rp' && line[..wp'] == old(line[..wp]) + Emit(t.text)
    ensures forall i :: rp + |s| < i < line.Length ==> line[i] == old(line[i])
  {
    hide FirstToken;
    ghost var t := FirstToken(s, quote, escape, iconv);
    var c;
    rp', c, invalid := ReadToken(line, rp, quote, escape, iconv, s);
    HoldsSuffix(line[..], rp, s, rp' - rp);
    wp' := wp;
    if c.Some? {
      HoldsAfterWrite(line[..], rp', s[t.used..], wp, c.value);
      ghost var was := line[..];
      line[wp] := c.value;
      assert line[..] == was[wp := c.value];
      wp' := wp + 1;
    }
  }

  /** Decode `line`, which holds `s`, in place. The text is what the decoder on
      values gives, is no longer than the line, and nothing behind it is touched. */
  method Normalize(line: array<WChar>, quote: WChar, escape: WChar, iconv: Conversion, ghost s: seq<WChar>)
    returns (unterminated: bool, invalid: nat)
    requires Holds(line[..], 0, s)
    modifies line
    ensures var d := Normalized(s, quote, escape, iconv);
            && |d.text| <= |s|
            && line[..|d.text|] == d.text && line[|d.text|] == 0
            && unterminated == (IsQuoted(s, quote) && d.rest == [])
            && invalid == d.invalid
    ensures forall i :: |s| < i < line.Length ==> line[i] == old(line[i])
  {
    hide Decode, FirstToken, Octal;
    ghost var all := Normalized(s, quote, escape, iconv);
    var rp, wp := 0, 0;
    var isQuoted := false;
    invalid := 0;
    HoldsSuffix(line[..], 0, s, 0);
    if quote != 0 && line[rp] == quote {
      HoldsSuffix(line[..], 0, s, 1);
      isQuoted := true;
      rp := rp + 1;
    }
    ghost var left, text := s[rp..], [];
    while line[rp] != 0 && line[rp] != quote
      invariant 0 <= wp <= rp && rp + |left| == |s| && Holds(line[..], rp, left) && line[rp] == Front(left)
      invariant line[..wp] == text
      invariant var d := Decode(left, quote, escape, iconv);
                text + d.text == all.text && d.rest == all.rest && invalid + d.invalid == all.invalid
      invariant forall i :: |s| < i < line.Length ==> line[i] == old(line[i])
      decreases |left|
    {
      DecodeStep(left, quote, escape, iconv);
      ghost var t := FirstToken(left, quote, escape, iconv);
      var bad;
      rp, wp, bad := Advance(line, rp, wp, quote, escape, iconv, left);
      left := left[t.used..];
      Regroup(text, Emit(t.text), Decode(left, quote, escape, iconv).text);
      text := text + Emit(t.text);
      if bad {
        invalid := invalid + 1;
      }
    }
    DecodeStep(left, quote, escape, iconv);
    unterminated := isQuoted && line[rp] != quote;
    line[wp] := 0;
  }

  lemma DecodeStep(s: seq<WChar>, quote: WChar, escape: WChar, iconv: Conversion)
    ensures var d := Decode(s, quote, escape, iconv);
            if s == [] || s[0] == quote then d == Decoded([], s, 0)
            else
              var t := FirstToken(s, quote, escape, iconv);
              var e := Decode(s[t.used..], quote, escape, iconv);
              d == Decoded(Emit(t.text) + e.text, e.rest, e.invalid + if t.invalid then 1 else 0)
  {
  }

  // ----- What the escapes are for -----

  /** Escape the two special characters. */
  function Escaped(text: seq<WChar>, quote: WChar, escape: WChar): seq<WChar>
  {
    if text == [] then [] else EscapedChar(text[0], quote, escape) + Escaped(text[1..], quote, escape)
  }

  function EscapedChar(c: WChar, quote: WChar, escape: WChar): seq<WChar>
  {
    if c == quote || c == escape then [escape, c] else [c]
  }

  /** Every text can be written: quoted and escaped, the line decodes to the text and is
      properly terminated. */
  lemma EscapedRoundTrip(text: seq<WChar>, quote: WChar, escape: WChar, iconv: Conversion)
    requires quote != 0 && escape != quote && Control(escape) == None && !IsOctal(escape)
    ensures var s := [quote] + Escaped(text, quote, escape) + [quote];
            IsQuoted(s, quote) && Normalized(s, quote, escape, iconv) == Decoded(text, [quote], 0)
  {
    hide Decode;
    var s := [quote] + Escaped(text, quote, escape) + [quote];
    assert s[1..] == Escaped(text, quote, escape) + [quote];
    DecodeEscaped(text, quote, escape, iconv);
  }

  lemma {:induction false} DecodeEscaped(text: seq<WChar>, quote: WChar, escape: WChar, iconv: Conversion)
    requires quote != 0 && escape != quote && Control(escape) == None && !IsOctal(escape)
    ensures Decode(Escaped(text, quote, escape) + [quote], quote, escape, iconv) == Decoded(text, [quote], 0)
  {
    hide Decode, FirstToken, Control;
    var s := Escaped(text, quote, escape) + [quote];
    DecodeStep(s, quote, escape, iconv);
    if text != [] {
      var rest := Escaped(text[1..], quote, escape) + [quote];
      DecodeEscaped(text[1..], quote, escape, iconv);
      FirstEscaped(text[0], rest, quote, escape, iconv);
      assert s == EscapedChar(text[0], quote, escape) + rest;
      assert s[|EscapedChar(text[0], quote, escape)|..] == rest && [text[0]] + text[1..] == text;
    }
  }

  lemma FirstEscaped(c: WChar, rest: seq<WChar>, quote: WChar, escape: WChar, iconv: Conversion)
    requires quote != 0 && escape != quote && Control(escape) == None && !IsOctal(escape)
    ensures var e := EscapedChar(c, quote, escape);
            FirstToken(e + rest, quote, escape, iconv) == Token(|e|, Some(c), false) && e[0] != quote
  {
  }
}
