/**
 What each escape sequence in a message text stands for.
 */
module EscapeLaws {
  import opened Wrappers
  import opened NormalizeLine

  /** Characters that stand for `text` at the front of a line. */
  ghost predicate StandsFor(front: seq<WChar>, text: seq<WChar>, rest: seq<WChar>, quote: WChar, escape: WChar,
                            iconv: Conversion)
  {
    var d := Decode(rest, quote, escape, iconv);
    Decode(front + rest, quote, escape, iconv) == Decoded(text + d.text, d.rest, d.invalid)
  }

  /** No letter of a control character and no octal digit. */
  predicate Plain(c: WChar)
  {
    && c != 'n' as int && c != 't' as int && c != 'v' as int && c != 'b' as int && c != 'r' as int && c != 'f' as int
    && !('0' as int <= c <= '7' as int)
  }

  /** An ordinary character stands for itself; the escape character makes the quote character
      and itself ordinary. */
  lemma OrdinaryCharacter(c: WChar, rest: seq<WChar>, quote: WChar, escape: WChar, iconv: Conversion)
    requires escape != quote
    ensures c != quote && c != escape ==> StandsFor([c], [c], rest, quote, escape, iconv)
    ensures quote != 0 ==> StandsFor([escape, quote], [quote], rest, quote, escape, iconv)
    ensures Plain(escape) ==> StandsFor([escape, escape], [escape], rest, quote, escape, iconv)
  {
    hide Decode;
    DecodeStep([c] + rest, quote, escape, iconv);
    DecodeStep([escape, quote] + rest, quote, escape, iconv);
    DecodeStep([escape, escape] + rest, quote, escape, iconv);
    assert ([c] + rest)[1..] == rest && ([escape, quote] + rest)[2..] == rest && ([escape, escape] + rest)[2..] == rest;
  }

  /** A quote character that is not escaped ends the text. */
  lemma QuoteEndsText(rest: seq<WChar>, quote: WChar, escape: WChar, iconv: Conversion)
    ensures Decode([quote] + rest, quote, escape, iconv) == Decoded([], [quote] + rest, 0)
    ensures Decode([], quote, escape, iconv) == Decoded([], [], 0)
  {
  }

  /** Only a quote character at the very beginning is dropped. */
  lemma OpeningQuote(s: seq<WChar>, quote: WChar, escape: WChar, iconv: Conversion)
    ensures quote != 0 ==> Normalized([quote] + s, quote, escape, iconv) == Decode(s, quote, escape, iconv)
    ensures quote == 0 || s == [] || s[0] != quote ==>
              Normalized(s, quote, escape, iconv) == Decode(s, quote, escape, iconv)
  {
    hide Decode;
    assert ([quote] + s)[1..] == s;
  }

  /** The six control characters of C. */
  lemma ControlCharacter(letter: char, code: WChar, rest: seq<WChar>, quote: WChar, escape: WChar, iconv: Conversion)
    requires escape != quote && letter as int != quote
    requires || (letter == 'n' && code == 10) || (letter == 't' && code == 9) || (letter == 'v' && code == 11)
             || (letter == 'b' && code == 8) || (letter == 'r' && code == 13) || (letter == 'f' && code == 12)
    ensures StandsFor([escape, letter as int], [code], rest, quote, escape, iconv)
  {
    hide Decode;
    DecodeStep([escape, letter as int] + rest, quote, escape, iconv);
    assert ([escape, letter as int] + rest)[2..] == rest;
  }

  /** Behind any other character, and at the end of the line, the escape character is dropped. */
  lemma UnknownEscape(c: WChar, rest: seq<WChar>, quote: WChar, escape: WChar, iconv: Conversion)
    requires escape != quote && c != quote && c != escape && Plain(c)
    ensures Decode([escape, c] + rest, quote, escape, iconv) == Decode([c] + rest, quote, escape, iconv)
    ensures Decode([escape], quote, escape, iconv) == Decoded([], [], 0)
  {
    hide Decode;
    DecodeStep([escape, c] + rest, quote, escape, iconv);
    DecodeStep([escape], quote, escape, iconv);
    DecodeStep([], quote, escape, iconv);
    assert ([escape, c] + rest)[1..] == [c] + rest;
    var e: seq<WChar> := [escape];
    assert e[1..] == [];
  }

  /** The value of octal digits. */
  function Base8(digits: seq<nat>): nat
  {
    if digits == [] then 0 else 8 * Base8(digits[..|digits| - 1]) + digits[|digits| - 1]
  }

  function Digits(digits: seq<nat>): (r: seq<WChar>)
    ensures |r| == |digits| && forall i :: 0 <= i < |r| ==> r[i] == '0' as int + digits[i]
  {
    seq(|digits|, i requires 0 <= i < |digits| => '0' as int + digits[i])
  }

  /** These are all the digits of an octal escape: it takes digits until the value is above 31 or
      there are no more. */
  ghost predicate OctalNumber(digits: seq<nat>, rest: seq<WChar>)
  {
    && digits != [] && (forall i :: 0 <= i < |digits| ==> digits[i] <= 7)
    && (forall k :: 1 <= k < |digits| ==> Base8(digits[..k]) <= 31)
    && (Base8(digits) > 31 || rest == [] || !('0' as int <= rest[0] <= '7' as int))
  }

  lemma {:induction false} OctalTakes(digits: seq<nat>, rest: seq<WChar>, k: nat)
    requires OctalNumber(digits, rest) && 1 <= k <= |digits|
    ensures Octal(Base8(digits[..k]), Digits(digits)[k..] + rest) == (|digits| - k, Base8(digits))
    decreases |digits| - k
  {
    hide Base8;
    var s := Digits(digits)[k..] + rest;
    if k == |digits| {
      assert digits[..k] == digits && s == rest;
    } else {
      Base8Step(digits, k);
      OctalTakes(digits, rest, k + 1);
      assert s[1..] == Digits(digits)[k + 1..] + rest && s[0] == '0' as int + digits[k];
    }
  }

  lemma Base8Step(digits: seq<nat>, k: nat)
    requires k < |digits|
    ensures Base8(digits[..k + 1]) == 8 * Base8(digits[..k]) + digits[k] && Base8(digits[..0]) == 0
  {
    assert digits[..k + 1][..k] == digits[..k];
  }

  /** An octal escape stands for the character that iconv makes of its value; if iconv makes
      none, it is an invalid sequence and stands for nothing. */
  lemma OctalCharacter(digits: seq<nat>, rest: seq<WChar>, quote: WChar, escape: WChar, iconv: Conversion)
    requires OctalNumber(digits, rest) && escape != quote && !('0' as int <= quote <= '7' as int)
    ensures var c, d := iconv(Base8(digits)), Decode(rest, quote, escape, iconv);
            Decode([escape] + Digits(digits) + rest, quote, escape, iconv) ==
            if c.Some? then Decoded([c.value] + d.text, d.rest, d.invalid) else Decoded(d.text, d.rest, d.invalid + 1)
  {
    hide Decode;
    var s := [escape] + Digits(digits) + rest;
    DecodeStep(s, quote, escape, iconv);
    OctalToken(digits, rest, quote, escape, iconv);
    hide FirstToken, Base8;
    assert s[1 + |digits|..] == rest;
  }

  lemma OctalToken(digits: seq<nat>, rest: seq<WChar>, quote: WChar, escape: WChar, iconv: Conversion)
    requires OctalNumber(digits, rest) && escape != quote && !('0' as int <= quote <= '7' as int)
    ensures var c := iconv(Base8(digits));
            FirstToken([escape] + Digits(digits) + rest, quote, escape, iconv) == Token(1 + |digits|, c, c == None)
  {
    hide Base8, Octal, FirstToken, OctalNumber, Digits;
    var s := [escape] + Digits(digits) + rest;
    assert digits != [] && digits[0] <= 7 by { FirstDigit(digits, rest); }
    OctalTakes(digits, rest, 1);
    Base8Step(digits, 0);
    assert s[2..] == Digits(digits)[1..] + rest && s[0] == escape && s[1] == '0' as int + digits[0];
    TokenOfDigit(s, quote, escape, iconv);
    var first: nat := s[1] - '0' as int;
    assert first == Base8(digits[..1]);
    assert Octal(first, s[2..]) == (|digits| - 1, Base8(digits));
  }

  lemma FirstDigit(digits: seq<nat>, rest: seq<WChar>)
    requires OctalNumber(digits, rest)
    ensures digits != [] && digits[0] <= 7
  {
  }

  lemma TokenOfDigit(s: seq<WChar>, quote: WChar, escape: WChar, iconv: Conversion)
    requires |s| >= 2 && s[0] == escape && '0' as int <= s[1] <= '7' as int && s[1] != quote
    ensures var (n, v) := Octal(s[1] - '0' as int, s[2..]);
            FirstToken(s, quote, escape, iconv) == Token(2 + n, iconv(v), iconv(v) == None)
  {
    hide Octal;
  }

  lemma OctalValues(a: nat, b: nat, c: nat)
    ensures Base8([a, b, c]) == 64 * a + 8 * b + c && Base8([a, b]) == 8 * a + b && Base8([a]) == a
  {
    var three, two, one: seq<nat> := [a, b, c], [a, b], [a];
    assert three[..3] == three && three[..2] == two && three[..1] == one;
    Base8Step(three, 0);
    Base8Step(three, 1);
    Base8Step(three, 2);
  }

  /** Three digits, the first from 1 to 3; two digits, the first at least 4; and, before anything
      but a digit, one, two or three. */
  lemma OctalLengths(a: nat, b: nat, c: nat, rest: seq<WChar>)
    requires a <= 7 && b <= 7 && c <= 7
    ensures 1 <= a <= 3 ==> OctalNumber([a, b, c], rest)
    ensures a >= 4 ==> OctalNumber([a, b], rest)
    ensures rest == [] || !('0' as int <= rest[0] <= '7' as int) ==>
              OctalNumber([a], rest) && OctalNumber([a, b], rest) && (a <= 3 ==> OctalNumber([a, b, c], rest))
  {
    hide Base8;
    OctalValues(a, b, c);
    var three, two: seq<nat> := [a, b, c], [a, b];
    assert three[..1] == two[..1] == [a] && three[..2] == [a, b];
  }
}
