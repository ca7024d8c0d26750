/**
 * `escape_internal_name` and `unescape_internal_name` (src/spconnect/schema.py:21, 44-67).
 * Text is a sequence of code points, as in Python.
 */
module Names {
  /** A Unicode code point; those up to 0xFFFF need four hex digits. */
  type CodePoint = c: int | 0 <= c <= 0x10FFFF

  const UNDERSCORE: CodePoint := 0x5f
  const LETTER_X: CodePoint := 0x78

  /** `char.isascii() and char.isalnum()`. */
  predicate IsPlain(c: CodePoint) {
    0x30 <= c <= 0x39 || 0x41 <= c <= 0x5a || 0x61 <= c <= 0x7a
  }

  // ---- hexadecimal ----

  /** A lower-case hex digit. */
  function Digit(n: int): CodePoint
    requires 0 <= n < 16
  {
    if n < 10 then 0x30 + n else 0x57 + n
  }

  predicate IsHex(c: CodePoint) {
    0x30 <= c <= 0x39 || 0x41 <= c <= 0x46 || 0x61 <= c <= 0x66
  }

  function DigitValue(c: CodePoint): (v: int)
    requires IsHex(c)
    ensures 0 <= v < 16
  {
    if c <= 0x39 then c - 0x30 else if c <= 0x46 then c - 0x37 else c - 0x57
  }

  /** `f"{n:04x}"`: four digits, or as many as it takes. */
  function Hex(n: nat): seq<CodePoint> {
    if n <= 0xFFFF then [Digit(n / 0x10 / 0x10 / 0x10), Digit(n / 0x10 / 0x10 % 0x10),
                         Digit(n / 0x10 % 0x10), Digit(n % 0x10)]
    else HexDigits(n)
  }

  function HexDigits(n: nat): seq<CodePoint> {
    if n < 0x10 then [Digit(n)] else HexDigits(n / 0x10) + [Digit(n % 0x10)]
  }

  /** `int(text, 16)` of four hex digits. */
  function FourHexValue(a: CodePoint, b: CodePoint, c: CodePoint, d: CodePoint): (v: CodePoint)
    requires IsHex(a) && IsHex(b) && IsHex(c) && IsHex(d)
    ensures v <= 0xFFFF
  {
    DigitValue(a) * 0x1000 + DigitValue(b) * 0x100 + DigitValue(c) * 0x10 + DigitValue(d)
  }

  // ---- escaping and unescaping ----

  function EscapeOne(c: CodePoint): seq<CodePoint> {
    if IsPlain(c) then [c] else [UNDERSCORE, LETTER_X] + Hex(c) + [UNDERSCORE]
  }

  function Escape(name: seq<CodePoint>): seq<CodePoint> {
    if name == [] then [] else EscapeOne(name[0]) + Escape(name[1..])
  }

  /** The regular expression `_x([0-9A-Fa-f]{4})_` matches at the front. */
  predicate Matches(s: seq<CodePoint>) {
    && |s| >= 7 && s[0] == UNDERSCORE && s[1] == LETTER_X && s[6] == UNDERSCORE
    && IsHex(s[2]) && IsHex(s[3]) && IsHex(s[4]) && IsHex(s[5])
  }

  /** `re.sub`: leftmost matches, from left to right, none overlapping. */
  function Unescape(s: seq<CodePoint>): seq<CodePoint> {
    if s == [] then []
    else if Matches(s) then [FourHexValue(s[2], s[3], s[4], s[5])] + Unescape(s[7..])
    else [s[0]] + Unescape(s[1..])
  }

  lemma AppendAssociates(a: seq<CodePoint>, b: seq<CodePoint>, c: seq<CodePoint>)
    ensures a + (b + c) == a + b + c
  {
  }

  /** The loop of `escape_internal_name`. */
  method EscapeName(name: seq<CodePoint>) returns (out: seq<CodePoint>)
    ensures out == Escape(name)
  {
    out := [];
    for i := 0 to |name|
      invariant out + Escape(name[i..]) == Escape(name)
    {
      ghost var before := out;
      assert name[i..][1..] == name[i + 1..] && name[i..][0] == name[i];
      if IsPlain(name[i]) {
        out := out + [name[i]];
      } else {
        out := out + ([UNDERSCORE, LETTER_X] + Hex(name[i]) + [UNDERSCORE]);
      }
      AppendAssociates(before, EscapeOne(name[i]), Escape(name[i + 1..]));
    }
    assert name[|name|..] == [] && out + [] == out;
  }

  // ---- round trip ----

  lemma DigitRoundTrip(n: int)
    requires 0 <= n < 16
    ensures IsHex(Digit(n)) && DigitValue(Digit(n)) == n && Digit(n) != UNDERSCORE
  {
  }

  lemma FourDigits(c: CodePoint)
    requires c <= 0xFFFF
    ensures var h := Hex(c);
      && |h| == 4 && IsHex(h[0]) && IsHex(h[1]) && IsHex(h[2]) && IsHex(h[3])
      && FourHexValue(h[0], h[1], h[2], h[3]) == c
  {
    var q1 := c / 0x10;
    var q2 := q1 / 0x10;
    DigitRoundTrip(q2 / 0x10);
    DigitRoundTrip(q2 % 0x10);
    DigitRoundTrip(q1 % 0x10);
    DigitRoundTrip(c % 0x10);
    assert c == q1 * 0x10 + c % 0x10 && q1 == q2 * 0x10 + q1 % 0x10 && q2 == q2 / 0x10 * 0x10 + q2 % 0x10;
  }

  /** Code points that fit four hex digits. */
  predicate Small(s: seq<CodePoint>) {
    forall i :: 0 <= i < |s| ==> s[i] <= 0xFFFF
  }

  /** One escaped character in front does not disturb the matching of what follows it. */
  lemma {:induction false} UnescapeOne(c: CodePoint, rest: seq<CodePoint>)
    requires c <= 0xFFFF
    ensures Unescape(EscapeOne(c) + rest) == [c] + Unescape(rest)
  {
    var s := EscapeOne(c) + rest;
    if IsPlain(c) {
      assert s[1..] == rest;
    } else {
      FourDigits(c);
      var h := Hex(c);
      assert s == [UNDERSCORE, LETTER_X, h[0], h[1], h[2], h[3], UNDERSCORE] + rest;
      assert s[7..] == rest;
    }
  }

  lemma {:induction false} RoundTrip(name: seq<CodePoint>)
    requires Small(name)
    ensures Unescape(Escape(name)) == name
  {
    if name != [] {
      UnescapeOne(name[0], Escape(name[1..]));
      RoundTrip(name[1..]);
    }
  }

  predicate AllHex(s: seq<CodePoint>) {
    forall i :: 0 <= i < |s| ==> IsHex(s[i])
  }

  lemma {:induction false} DigitsAreHex(n: nat)
    ensures AllHex(HexDigits(n))
    ensures n > 0xFFFF ==> |HexDigits(n)| >= 5
    ensures n > 0xFFF ==> |HexDigits(n)| >= 4
    ensures n > 0xFF ==> |HexDigits(n)| >= 3
    ensures n > 0xF ==> |HexDigits(n)| >= 2
    ensures |HexDigits(n)| >= 1
  {
    if n >= 0x10 {
      DigitsAreHex(n / 0x10);
    }
  }

  lemma HexIsHex(c: CodePoint)
    ensures AllHex(Hex(c)) && UNDERSCORE !in Hex(c)
    ensures |Hex(c)| == 4 <==> c <= 0xFFFF
  {
    DigitsAreHex(c);
  }

  lemma {:induction false} EscapeIsSmall(name: seq<CodePoint>)
    ensures Small(Escape(name))
  {
    if name != [] {
      HexIsHex(name[0]);
      EscapeIsSmall(name[1..]);
    }
  }

  lemma {:induction false} UnescapeStaysSmall(s: seq<CodePoint>)
    requires Small(s)
    ensures Small(Unescape(s))
  {
    if s != [] {
      if Matches(s) {
        UnescapeStaysSmall(s[7..]);
      } else {
        UnescapeStaysSmall(s[1..]);
      }
    }
  }

  /** Unescaping undoes escaping exactly for names of code points up to 0xFFFF, even where the
      name itself contains text that looks like an escape. */
  lemma {:induction false} RoundTripExactly(name: seq<CodePoint>)
    ensures Unescape(Escape(name)) == name <==> Small(name)
  {
    if Small(name) {
      RoundTrip(name);
    } else {
      EscapeIsSmall(name);
      UnescapeStaysSmall(Escape(name));
    }
  }

  // ---- injectivity ----

  lemma {:induction false} DigitsInjective(m: nat, n: nat)
    requires HexDigits(m) == HexDigits(n)
    ensures m == n
  {
    DigitsAreHex(m);
    DigitsAreHex(n);
    if m < 0x10 || n < 0x10 {
      assert m < 0x10 && n < 0x10;
      DigitRoundTrip(m);
      DigitRoundTrip(n);
      assert HexDigits(m)[0] == HexDigits(n)[0];
    } else {
      var a, b := HexDigits(m / 0x10), HexDigits(n / 0x10);
      assert a == HexDigits(m)[..|a|] && b == HexDigits(n)[..|b|] && |a| == |b|;
      assert Digit(m % 0x10) == HexDigits(m)[|a|] == HexDigits(n)[|b|] == Digit(n % 0x10);
      DigitRoundTrip(m % 0x10);
      DigitRoundTrip(n % 0x10);
      DigitsInjective(m / 0x10, n / 0x10);
    }
  }

  lemma HexInjective(c: CodePoint, d: CodePoint)
    requires Hex(c) == Hex(d)
    ensures c == d
  {
    HexIsHex(c);
    HexIsHex(d);
    if c <= 0xFFFF {
      FourDigits(c);
      FourDigits(d);
    } else {
      DigitsInjective(c, d);
    }
  }

  function First(s: seq<CodePoint>, mark: CodePoint): nat {
    if s == [] || s[0] == mark then 0 else 1 + First(s[1..], mark)
  }

  lemma {:induction false} FirstIsBehind(a: seq<CodePoint>, mark: CodePoint, x: seq<CodePoint>)
    requires mark !in a
    ensures First(a + [mark] + x, mark) == |a|
  {
    if a != [] {
      assert (a + [mark] + x)[1..] == a[1..] + [mark] + x;
      FirstIsBehind(a[1..], mark, x);
    }
  }

  /** Text up to a mark it does not contain is determined by the whole. */
  lemma SplitAtMark(a: seq<CodePoint>, b: seq<CodePoint>, x: seq<CodePoint>, y: seq<CodePoint>, mark: CodePoint)
    requires mark !in a && mark !in b && a + [mark] + x == b + [mark] + y
    ensures a == b && x == y
  {
    var s := a + [mark] + x;
    FirstIsBehind(a, mark, x);
    FirstIsBehind(b, mark, y);
    assert a == s[..|a|] && b == s[..|b|];
    assert x == s[|a| + 1..] && y == s[|b| + 1..];
  }

  lemma PlainHead(c: CodePoint, x: seq<CodePoint>)
    ensures (EscapeOne(c) + x)[0] == if IsPlain(c) then c else UNDERSCORE
    ensures IsPlain(c) ==> (EscapeOne(c) + x)[1..] == x
    ensures !IsPlain(c) ==> (EscapeOne(c) + x)[2..] == Hex(c) + [UNDERSCORE] + x
  {
  }

  lemma HeadsEqual(c: CodePoint, d: CodePoint, x: seq<CodePoint>, y: seq<CodePoint>)
    requires EscapeOne(c) + x == EscapeOne(d) + y
    ensures c == d && x == y
  {
    PlainHead(c, x);
    PlainHead(d, y);
    if !IsPlain(c) {
      HexIsHex(c);
      HexIsHex(d);
      SplitAtMark(Hex(c), Hex(d), x, y, UNDERSCORE);
      HexInjective(c, d);
    }
  }

  lemma {:induction false} EscapeLength(name: seq<CodePoint>)
    ensures |Escape(name)| >= |name|
  {
    if name != [] {
      EscapeLength(name[1..]);
    }
  }

  /** No two names share an internal name, whatever code points they are made of. */
  lemma {:induction false} EscapeInjective(m: seq<CodePoint>, n: seq<CodePoint>)
    requires Escape(m) == Escape(n)
    ensures m == n
  {
    EscapeLength(m);
    EscapeLength(n);
    if m != [] && n != [] {
      HeadsEqual(m[0], n[0], Escape(m[1..]), Escape(n[1..]));
      EscapeInjective(m[1..], n[1..]);
    }
  }

  // ---- the escaped form ----

  predicate IsAsciiAlphanumeric(c: CodePoint) {
    '0' as int <= c <= '9' as int || 'A' as int <= c <= 'Z' as int || 'a' as int <= c <= 'z' as int
  }

  /** The digits of a number in lower-case hexadecimal, with as many zeros in front. */
  ghost predicate Spells(s: seq<CodePoint>, n: nat) {
    if s == [] then n == 0 else
      var d, front := s[|s| - 1], s[..|s| - 1];
      && ('0' as int <= d <= '9' as int || 'a' as int <= d <= 'f' as int)
      && n % 16 == (if d <= '9' as int then d - '0' as int else d - 'a' as int + 10)
      && Spells(front, n / 16)
  }

  /** ASCII letters and digits stay; any other character is `_x`, its code in lower-case hexadecimal, four
      digits at least, and `_`. */
  lemma {:induction false} EscapedForm(c: CodePoint)
    ensures if IsAsciiAlphanumeric(c) then EscapeOne(c) == [c]
            else
              && EscapeOne(c) == ['_' as int, 'x' as int] + Hex(c) + ['_' as int]
              && |Hex(c)| >= 4 && (|Hex(c)| > 4 ==> c > 0xFFFF) && Spells(Hex(c), c)
  {
    if c <= 0xFFFF {
      FourSpell(c);
    } else {
      DigitsSpell(c);
      DigitsAreHex(c);
    }
  }

  lemma DigitIsLowerCase(n: int)
    requires 0 <= n < 16
    ensures Digit(n) == if n < 10 then '0' as int + n else 'a' as int + n - 10
  {
  }

  lemma {:induction false} DigitsSpell(n: nat)
    ensures Spells(HexDigits(n), n)
  {
    DigitIsLowerCase(n % 0x10);
    var s := HexDigits(n);
    if n >= 0x10 {
      DigitsSpell(n / 0x10);
      assert s[..|s| - 1] == HexDigits(n / 0x10);
    } else {
      assert s[..0] == [];
    }
  }

  lemma {:induction false} FourSpell(n: nat)
    requires n <= 0xFFFF
    ensures Spells(Hex(n), n)
  {
    var h, a := Hex(n), n / 0x10;
    var b := a / 0x10;
    DigitIsLowerCase(b / 0x10);
    DigitIsLowerCase(b % 0x10);
    DigitIsLowerCase(a % 0x10);
    DigitIsLowerCase(n % 0x10);
    assert h[..3][..2][..1][..0] == [] && b / 0x10 / 0x10 == 0 && b / 0x10 % 0x10 == b / 0x10;
    assert Spells(h[..3][..2][..1], b / 0x10);
    assert Spells(h[..3][..2], b);
    assert Spells(h[..3], a);
  }

  /** One hexadecimal digit, in either case. */
  predicate IsDigitOf(c: CodePoint, n: int) {
    || (0 <= n < 10 && c == '0' as int + n)
    || (10 <= n < 16 && (c == 'a' as int + n - 10 || c == 'A' as int + n - 10))
  }

  /** Any `_x` with four hexadecimal digits and `_` behind it is read as that character, upper-case digits
      too. */
  lemma {:induction false} EscapeIsRead(a: int, b: int, c: int, d: int, digits: seq<CodePoint>, rest: seq<CodePoint>)
    requires |digits| == 4 && IsDigitOf(digits[0], a) && IsDigitOf(digits[1], b) && IsDigitOf(digits[2], c)
    requires IsDigitOf(digits[3], d)
    ensures Unescape(['_' as int, 'x' as int] + digits + ['_' as int] + rest) ==
            [((a * 16 + b) * 16 + c) * 16 + d] + Unescape(rest)
  {
    var s := ['_' as int, 'x' as int] + digits + ['_' as int] + rest;
    DigitIsRead(digits[0], a);
    DigitIsRead(digits[1], b);
    DigitIsRead(digits[2], c);
    DigitIsRead(digits[3], d);
    assert s[2] == digits[0] && s[3] == digits[1] && s[4] == digits[2] && s[5] == digits[3] && s[7..] == rest;
    assert FourHexValue(digits[0], digits[1], digits[2], digits[3]) == ((a * 16 + b) * 16 + c) * 16 + d;
  }

  lemma DigitIsRead(c: CodePoint, n: int)
    requires IsDigitOf(c, n)
    ensures IsHex(c) && DigitValue(c) == n && 0 <= n < 16
  {
  }
}
