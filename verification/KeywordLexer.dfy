/** The lexer test that decides whether a matched keyword really ends where it ends. */
module KeywordLexer {
  import opened Basics

  /** Whether a code point may continue an identifier; the character tables are not part of this model. */
  type IdentPart = int -> bool

  predicate IsHexDigit(c: CodeUnit) {
    '0' as int <= c <= '9' as int || 'a' as int <= c <= 'f' as int || 'A' as int <= c <= 'F' as int
  }

  function HexValue(c: CodeUnit): (v: int)
    requires IsHexDigit(c)
    ensures 0 <= v < 16
  {
    if c < 'A' as int then c - '0' as int
    else if c < 'a' as int then c - 'A' as int + 10
    else c - 'a' as int + 10
  }

  const MaxCodePoint := 0x10FFFF

  /** The loop over the digits of a \u{...} escape, with the code point read so far. */
  function BracedEscape(isIdentPart: IdentPart, code: Text, at: nat, codePoint: int): bool
    requires at <= |code|
    decreases |code| - at
  {
    if at < |code| && IsHexDigit(code[at]) then
      var next := codePoint * 16 + HexValue(code[at]);
      next <= MaxCodePoint && BracedEscape(isIdentPart, code, at + 1, next)
    else
      isIdentPart(codePoint) && at < |code| && code[at] == '}' as int
  }

  /** isIdentPartIncludingEscape(code + at, codeEnd): only the first unit is read without a bounds check. */
  function IsIdentPartIncludingEscape(isIdentPart: IdentPart, code: Text, at: nat): (r: bool)
    requires at < |code|
    ensures isIdentPart(code[at]) ==> r
  {
    if isIdentPart(code[at]) then true
    else if !(code[at] == '\\' as int && |code| - at >= 5 && code[at + 1] == 'u' as int) then false
    else if code[at + 2] == '{' as int then BracedEscape(isIdentPart, code, at + 3, 0)
    else if |code| - at < 6 then false
    else
      && IsHexDigit(code[at + 2]) && IsHexDigit(code[at + 3]) && IsHexDigit(code[at + 4]) && IsHexDigit(code[at + 5])
      && isIdentPart(((HexValue(code[at + 2]) * 16 + HexValue(code[at + 3])) * 16
                       + HexValue(code[at + 4])) * 16 + HexValue(code[at + 5]))
  }

  // ----- The loop -----

  /** isIdentPartIncludingEscape as written, with the loop over the digits of a braced escape. */
  method TestIdentPartIncludingEscape(isIdentPart: IdentPart, code: Text, at: nat) returns (r: bool)
    requires at < |code|
    ensures r == IsIdentPartIncludingEscape(isIdentPart, code, at)
  {
    if isIdentPart(code[at]) {
      return true;
    }
    if !(code[at] == '\\' as int && |code| - at >= 5 && code[at + 1] == 'u' as int) {
      return false;
    }
    if code[at + 2] == '{' as int {
      var codePoint, pointer := 0, at + 3;
      while pointer < |code| && IsHexDigit(code[pointer])
        invariant at + 3 <= pointer <= |code|
        invariant BracedEscape(isIdentPart, code, pointer, codePoint) == BracedEscape(isIdentPart, code, at + 3, 0)
      {
        codePoint := codePoint * 16 + HexValue(code[pointer]);
        if codePoint > MaxCodePoint {
          return false;
        }
        pointer := pointer + 1;
      }
      return isIdentPart(codePoint) && pointer < |code| && code[pointer] == '}' as int;
    }
    if |code| - at < 6 {
      return false;
    }
    var character1, character2, character3, character4 := code[at + 2], code[at + 3], code[at + 4], code[at + 5];
    return
      && IsHexDigit(character1) && IsHexDigit(character2) && IsHexDigit(character3) && IsHexDigit(character4)
      && isIdentPart(((HexValue(character1) * 16 + HexValue(character2)) * 16 + HexValue(character3)) * 16
                     + HexValue(character4));
  }

  // ----- What it decides -----

  predicate AllHex(s: Text) { forall i :: 0 <= i < |s| ==> IsHexDigit(s[i]) }

  /** The number that `s` spells in base 16 after the digits of `start`. */
  function HexNumber(start: nat, s: Text): (n: nat)
    requires AllHex(s)
    ensures n >= start
    decreases |s|
  {
    if s == [] then start else HexNumber(start * 16 + HexValue(s[0]), s[1..])
  }

  /** `code` has, from `at` to before `end`, hexadecimal digits that spell `codePoint`, and a closing brace after them. */
  ghost predicate BracedNumber(code: Text, at: nat, end: nat, start: nat, codePoint: nat) {
    && at <= end < |code| && AllHex(code[at..end]) && code[end] == '}' as int
    && HexNumber(start, code[at..end]) == codePoint <= MaxCodePoint
  }

  ghost predicate Braced(code: Text, at: nat, codePoint: nat) {
    exists end: nat :: BracedNumber(code, at, end, 0, codePoint)
  }

  lemma BracedStart(code: Text, at: nat, end: nat, start: nat, codePoint: nat)
    requires BracedNumber(code, at, end, start, codePoint)
    ensures IsHexDigit(code[at]) || (end == at && codePoint == start)
  {
    if at < end {
      assert code[at..end][0] == code[at];
    } else {
      assert code[at..end] == [];
    }
  }

  lemma {:induction false} BracedEscapeMeans(isIdentPart: IdentPart, code: Text, at: nat, start: nat)
    requires at <= |code| && start <= MaxCodePoint
    ensures BracedEscape(isIdentPart, code, at, start)
       <==> exists end: nat, codePoint: nat :: BracedNumber(code, at, end, start, codePoint) && isIdentPart(codePoint)
    decreases |code| - at
  {
    if at < |code| && IsHexDigit(code[at]) {
      var next := start * 16 + HexValue(code[at]);
      forall end: nat, codePoint: nat
        ensures BracedNumber(code, at, end, start, codePoint) ==> next <= MaxCodePoint
        ensures BracedNumber(code, at, end, start, codePoint) <==> BracedNumber(code, at + 1, end, next, codePoint)
      {
        if at < end < |code| {
          assert code[at..end] == [code[at]] + code[at + 1..end];
        }
      }
      if next <= MaxCodePoint {
        BracedEscapeMeans(isIdentPart, code, at + 1, next);
        if BracedEscape(isIdentPart, code, at + 1, next) {
          var end: nat, codePoint: nat :| BracedNumber(code, at + 1, end, next, codePoint) && isIdentPart(codePoint);
          assert BracedNumber(code, at, end, start, codePoint);
        }
      }
    } else if BracedEscape(isIdentPart, code, at, start) {
      assert code[at..at] == [];
      assert BracedNumber(code, at, at, start, start);
    } else {
      forall end: nat, codePoint: nat | BracedNumber(code, at, end, start, codePoint)
        ensures !isIdentPart(codePoint)
      {
        BracedStart(code, at, end, start, codePoint);
      }
    }
  }

  /** `code` has at `at` a Unicode escape of `codePoint`, with four digits or with braces. */
  ghost predicate IsEscape(code: Text, at: nat, codePoint: nat) {
    && at + 5 <= |code| && code[at] == '\\' as int && code[at + 1] == 'u' as int
    && (|| (at + 6 <= |code| && AllHex(code[at + 2..at + 6]) && HexNumber(0, code[at + 2..at + 6]) == codePoint)
        || (code[at + 2] == '{' as int && Braced(code, at + 3, codePoint)))
  }

  lemma FourDigits(s: Text)
    requires |s| == 4 && AllHex(s)
    ensures HexNumber(0, s) == ((HexValue(s[0]) * 16 + HexValue(s[1])) * 16 + HexValue(s[2])) * 16 + HexValue(s[3])
  {
    var n2 := HexValue(s[0]) * 16 + HexValue(s[1]);
    assert s[1..][1..] == s[2..] && s[2..][1..] == s[3..] && s[3..][1..] == [];
    assert HexNumber(0, s) == HexNumber(n2, s[2..]);
    var n3 := n2 * 16 + HexValue(s[2]);
    assert HexNumber(n2, s[2..]) == HexNumber(n3, s[3..]);
    assert HexNumber(n3, s[3..]) == HexNumber(n3 * 16 + HexValue(s[3]), []);
  }

  /** The test holds exactly where an identifier part stands, as itself or as an escape of five units or more. */
  lemma {:induction false} IdentPartOrEscape(isIdentPart: IdentPart, code: Text, at: nat)
    requires at < |code|
    ensures IsIdentPartIncludingEscape(isIdentPart, code, at)
       <==> isIdentPart(code[at]) || exists codePoint: nat :: IsEscape(code, at, codePoint) && isIdentPart(codePoint)
  {
    if at + 5 <= |code| {
      BracedEscapeMeans(isIdentPart, code, at + 3, 0);
      if at + 6 <= |code| && AllHex(code[at + 2..at + 6]) {
        FourDigits(code[at + 2..at + 6]);
      }
    }
  }

  // ----- Written escapes -----

  const UpperDigits := "0123456789ABCDEF"
  const LowerDigits := "0123456789abcdef"

  /** The digit of value `d`, in either letter case. */
  function HexDigit(d: nat, upper: bool): (c: CodeUnit)
    requires d < 16
  {
    (if upper then UpperDigits[d] else LowerDigits[d]) as int
  }

  /** Each character of the two strings is a digit and has its position as its value. */
  lemma {:induction false} DigitValue(d: nat, upper: bool)
    requires d < 16
    ensures IsHexDigit(HexDigit(d, upper)) && HexValue(HexDigit(d, upper)) == d
  {
  }

  /** There are no other digits. */
  lemma {:induction false} DigitsAreThese(c: CodeUnit)
    ensures IsHexDigit(c) <==> exists d: nat, upper: bool :: d < 16 && c == HexDigit(d, upper)
  {
    hide HexDigit;
    if IsHexDigit(c) {
      DigitIs(c);
    }
    forall d: nat, upper: bool | d < 16 ensures IsHexDigit(HexDigit(d, upper)) { DigitValue(d, upper); }
  }

  lemma DigitIs(c: CodeUnit)
    requires IsHexDigit(c)
    ensures c == HexDigit(HexValue(c), c < 'a' as int)
  {
  }

  function Power16(k: nat): (p: nat) { if k == 0 then 1 else 16 * Power16(k - 1) }

  /** The usual writing of `n` in base 16 with as many digits as `cases`, which chooses their letter cases. */
  function HexText(n: nat, cases: seq<bool>): (s: Text)
    ensures |s| == |cases|
    decreases |cases|
  {
    if cases == [] then [] else HexText(n / 16, cases[..|cases| - 1]) + [HexDigit(n % 16, cases[|cases| - 1])]
  }

  lemma {:induction false} HexNumberSnoc(start: nat, s: Text, c: CodeUnit)
    requires AllHex(s) && IsHexDigit(c)
    ensures AllHex(s + [c]) && HexNumber(start, s + [c]) == HexNumber(start, s) * 16 + HexValue(c)
    decreases |s|
  {
    hide IsHexDigit, HexValue;
    if s == [] {
      assert s + [c] == [c] && [c][1..] == [];
    } else {
      assert (s + [c])[1..] == s[1..] + [c];
      HexNumberSnoc(start * 16 + HexValue(s[0]), s[1..], c);
    }
  }

  /** Reading undoes writing, whatever the letter cases and however many zeros lead. */
  lemma {:induction false} HexRoundTrip(n: nat, cases: seq<bool>)
    requires n < Power16(|cases|)
    ensures AllHex(HexText(n, cases)) && HexNumber(0, HexText(n, cases)) == n
    decreases |cases|
  {
    hide IsHexDigit, HexValue, HexDigit;
    if cases != [] {
      var init, c := cases[..|cases| - 1], HexDigit(n % 16, cases[|cases| - 1]);
      HexRoundTrip(n / 16, init);
      DigitValue(n % 16, cases[|cases| - 1]);
      HexNumberSnoc(0, HexText(n / 16, init), c);
    }
  }

  /** A four-digit escape is read as the code point it spells. */
  lemma {:induction false} FourDigitEscape(isIdentPart: IdentPart, before: Text, n: nat, cases: seq<bool>, after: Text)
    requires |cases| == 4 && n <= 0xFFFF
    ensures IsIdentPartIncludingEscape(isIdentPart, before + ['\\' as int, 'u' as int] + HexText(n, cases) + after, |before|)
       <==> isIdentPart('\\' as int) || isIdentPart(n)
  {
    hide HexText, BracedEscape;
    var digits := HexText(n, cases);
    var code, at := before + ['\\' as int, 'u' as int] + digits + after, |before|;
    assert n < Power16(4);
    HexRoundTrip(n, cases);
    FourDigits(digits);
    assert code[at] == '\\' as int && code[at + 1] == 'u' as int;
    assert code[at + 2] == digits[0] && code[at + 3] == digits[1] && code[at + 4] == digits[2] && code[at + 5] == digits[3];
    assert IsHexDigit(digits[0]);
  }

  /** So is an escape in braces, of any number of digits, up to the last code point. */
  lemma {:induction false} BracedEscapeIsRead(isIdentPart: IdentPart, before: Text, n: nat, cases: seq<bool>, after: Text)
    requires cases != [] && n < Power16(|cases|)
    ensures IsIdentPartIncludingEscape(isIdentPart,
              before + ['\\' as int, 'u' as int, '{' as int] + HexText(n, cases) + ['}' as int] + after, |before|)
       <==> isIdentPart('\\' as int) || (n <= 0x10FFFF && isIdentPart(n))
  {
    hide HexText, BracedEscape, HexNumber;
    var digits := HexText(n, cases);
    var code, at := before + ['\\' as int, 'u' as int, '{' as int] + digits + ['}' as int] + after, |before|;
    HexRoundTrip(n, cases);
    var start, end := at + 3, at + 3 + |digits|;
    assert code[at] == '\\' as int && code[at + 1] == 'u' as int && code[at + 2] == '{' as int && |code| >= at + 5;
    assert code[start..end] == digits && code[end] == '}' as int;
    BracedEscapeMeans(isIdentPart, code, start, 0);
    forall e: nat, m: nat | BracedNumber(code, start, e, 0, m) ensures e == end && m == n { BraceEnds(code, start, end, e, m); }
    if n <= MaxCodePoint { assert BracedNumber(code, start, end, 0, n); }
  }

  /** Digits end at the first closing brace. */
  lemma BraceEnds(code: Text, at: nat, end: nat, e: nat, m: nat)
    requires at <= end < |code| && AllHex(code[at..end]) && code[end] == '}' as int && BracedNumber(code, at, e, 0, m)
    ensures e == end && m == HexNumber(0, code[at..end])
  {
    forall i | at <= i < end ensures IsHexDigit(code[i]) { assert code[i] == code[at..end][i - at]; }
    forall i | at <= i < e ensures IsHexDigit(code[i]) { assert code[i] == code[at..e][i - at]; }
  }

  /** Braces without digits spell the code point 0, and are looked at only if something follows them. */
  lemma {:induction false} EmptyBraces(isIdentPart: IdentPart, more: Text)
    requires !isIdentPart('\\' as int)
    ensures IsIdentPartIncludingEscape(isIdentPart, ['\\' as int, 'u' as int, '{' as int, '}' as int] + more, 0)
       <==> isIdentPart(0) && more != []
  {
  }
}
