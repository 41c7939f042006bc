/** The PHP string built-ins that `IdGenerator::generate` relies on:
    integer-to-string conversion, the conversion of a numeric string back to
    an integer (the `+ 1` on the fetched maximum), `str_pad` with
    `STR_PAD_LEFT`, and `rtrim` with a character mask. */
module PhpStrings {

  predicate IsDigit(c: char) {
    '0' <= c <= '9'
  }

  predicate AllDigits(s: string) {
    forall i :: 0 <= i < |s| ==> IsDigit(s[i])
  }

  function DigitOf(c: char): (d: nat)
    requires IsDigit(c)
    ensures d < 10
  {
    c as int - '0' as int
  }

  function DigitChar(d: nat): (c: char)
    requires d < 10
    ensures IsDigit(c) && DigitOf(c) == d
  {
    ('0' as int + d) as char
  }

  function Pow10(k: nat): (r: nat)
    ensures r >= 1
  {
    if k == 0 then 1 else 10 * Pow10(k - 1)
  }

  /** The number a string of decimal digits denotes (leading zeros allowed). */
  function Value(s: string): (v: nat)
    requires AllDigits(s)
    ensures v < Pow10(|s|)
  {
    if s == [] then 0 else Value(s[..|s| - 1]) * 10 + DigitOf(s[|s| - 1])
  }

  /** PHP's conversion of a non-negative integer to a string: its decimal
      digits, without leading zeros. */
  function Decimal(n: nat): (s: string)
    ensures 1 <= |s| && AllDigits(s) && Value(s) == n
    ensures |s| == 1 || Pow10(|s| - 1) <= n
    ensures n > 0 ==> s[0] != '0'
  {
    if n < 10 then [DigitChar(n)]
    else
      var hi := Decimal(n / 10);
      var s := hi + [DigitChar(n % 10)];
      assert s[..|s| - 1] == hi;
      s
  }

  /** PHP's conversion of any integer to a string. */
  function IntToText(n: int): (s: string)
    ensures n >= 0 ==> AllDigits(s) && Value(s) == n
    ensures n < 0 ==> |s| >= 2 && s[0] == '-' && AllDigits(s[1..]) && Value(s[1..]) == -n
  {
    if n < 0 then "-" + Decimal(-n) else Decimal(n)
  }

  /** The longest run of digits at the start of `s`. */
  function LeadingDigits(s: string): (d: string)
    ensures d <= s && AllDigits(d)
    ensures |d| == |s| || !IsDigit(s[|d|])
  {
    if s != [] && IsDigit(s[0]) then [s[0]] + LeadingDigits(s[1..]) else []
  }

  /** The white space PHP allows before a numeric string: space, tab,
      newline, carriage return, vertical tab and form feed. */
  predicate IsSpace(c: char) {
    c == ' ' || c == '\t' || c == '\n' || c == '\r' || c == 11 as char || c == 12 as char
  }

  /** `s` without its leading white space. */
  function SkipSpace(s: string): string {
    if s != [] && IsSpace(s[0]) then SkipSpace(s[1..]) else s
  }

  /** SkipSpace drops white space, and only white space, from the front. */
  lemma {:induction false} SkipSpaceDrops(s: string)
    ensures var r := SkipSpace(s);
            && |r| <= |s| && (forall i :: 0 <= i < |r| ==> r[i] == s[|s| - |r| + i])
            && (r == [] || !IsSpace(r[0]))
            && (forall i :: 0 <= i < |s| - |r| ==> IsSpace(s[i]))
  {
    if s != [] && IsSpace(s[0]) {
      var t := s[1..];
      SkipSpaceDrops(t);
      var r := SkipSpace(t);
      assert SkipSpace(s) == r;
      forall i | 0 <= i < |r| ensures r[i] == s[|s| - |r| + i] {
        assert r[i] == t[|t| - |r| + i];
      }
      forall i | 0 <= i < |s| - |r| ensures IsSpace(s[i]) {
        if i > 0 {
          assert s[i] == t[i - 1];
        }
      }
    }
  }

  /** After its leading white space, `s` starts with a minus sign. */
  predicate NegativeSign(s: string) {
    var t := SkipSpace(s);
    t != [] && t[0] == '-'
  }

  /** The integer PHP takes from a string in integer arithmetic (`$s + 1`):
      leading white space, an optional sign, then the value of the digits
      that follow, 0 when there are none. */
  function ToNumber(s: string): (n: int)
    ensures AllDigits(s) ==> n == Value(s)
    ensures n < 0 ==> NegativeSign(s)
  {
    var t := SkipSpace(s);
    if t != [] && t[0] == '-' then -(Value(LeadingDigits(t[1..])) as int)
    else if t != [] && t[0] == '+' then Value(LeadingDigits(t[1..]))
    else
      assert AllDigits(s) ==> t == s && LeadingDigits(t) == t;
      Value(LeadingDigits(t))
  }

  lemma AllLeadingDigits(s: string)
    requires AllDigits(s)
    ensures LeadingDigits(s) == s
  {
  }

  /** A minus sign before digits negates their value. */
  lemma ToNumberMinus(d: string)
    requires AllDigits(d)
    ensures ToNumber("-" + d) == -(Value(d) as int)
  {
    var s := "-" + d;
    assert SkipSpace(s) == s;
    assert s[1..] == d;
    AllLeadingDigits(d);
  }

  /** Leading white space is skipped. */
  lemma ToNumberSpace(c: char, s: string)
    requires IsSpace(c)
    ensures ToNumber([c] + s) == ToNumber(s)
  {
    assert ([c] + s)[1..] == s;
  }

  /** Reading back the text of an integer gives the integer. */
  lemma ToNumberIntToText(n: int)
    ensures ToNumber(IntToText(n)) == n
  {
    if n < 0 {
      ToNumberMinus(Decimal(-n));
    }
  }

  lemma ValueOf0001()
    ensures AllDigits("0001") && Value("0001") == 1
  {
    assert "0001"[..3] == "000" && "000"[..2] == "00" && "00"[..1] == "0";
  }

  /** PHP reads a sign: `"-0001" + 1` is 0. */
  lemma ToNumberSigned()
    ensures ToNumber("-0001") == -1
  {
    ValueOf0001();
    ToNumberMinus("0001");
    assert "-" + "0001" == "-0001";
  }

  /** PHP skips leading white space: `" 12" + 1` is 13. */
  lemma ToNumberSpaced()
    ensures ToNumber(" 12") == 12
  {
    ValueOf12();
    ToNumberSpace(' ', "12");
    assert [' '] + "12" == " 12";
  }

  lemma ValueOf12()
    ensures AllDigits("12") && Value("12") == 12
  {
    assert "12"[..1] == "1";
  }

  /** The number of bytes of a character in UTF-8. */
  function Utf8Width(c: char): (n: nat)
    ensures 1 <= n <= 4
    ensures n == 1 <==> c < 128 as char
  {
    if c < 128 as char then 1
    else if c < 0x800 as char then 2
    else if c < 0x1_0000 as char then 3
    else 4
  }

  /** Every character is a single byte. */
  predicate IsAscii(s: string) {
    forall i :: 0 <= i < |s| ==> s[i] < 128 as char
  }

  /** PHP `strlen`: the number of bytes of the string's UTF-8 encoding. */
  function StrLen(s: string): (n: nat)
    ensures n >= |s|
  {
    if s == [] then 0 else StrLen(s[..|s| - 1]) + Utf8Width(s[|s| - 1])
  }

  /** `strlen` counts characters exactly when every character is one byte. */
  lemma {:induction false} StrLenAscii(s: string)
    ensures StrLen(s) == |s| <==> IsAscii(s)
  {
    if s != [] {
      var init := s[..|s| - 1];
      StrLenAscii(init);
      if IsAscii(s) {
        assert IsAscii(init) by {
          forall i | 0 <= i < |init| ensures init[i] < 128 as char {
            assert init[i] == s[i];
          }
        }
      } else if IsAscii(init) {
        assert s[|s| - 1] >= 128 as char by {
          forall i | 0 <= i < |s| - 1 ensures s[i] < 128 as char {
            assert s[i] == init[i];
          }
        }
      }
    }
  }

  /** `strlen` of a concatenation. */
  lemma {:induction false} StrLenConcat(a: string, b: string)
    ensures StrLen(a + b) == StrLen(a) + StrLen(b)
  {
    if b == [] {
      assert a + b == a;
    } else {
      var b' := b[..|b| - 1];
      assert (a + b)[..|a + b| - 1] == a + b';
      StrLenConcat(a, b');
    }
  }

  /** Digit strings, and the text of an integer, are single-byte. */
  lemma DigitsAscii(s: string)
    requires AllDigits(s)
    ensures StrLen(s) == |s|
  {
    StrLenAscii(s);
  }

  lemma IntToTextAscii(n: int)
    ensures StrLen(IntToText(n)) == |IntToText(n)|
  {
    var s := IntToText(n);
    assert IsAscii(s) by {
      forall i | 0 <= i < |s| ensures s[i] < 128 as char {
        if n < 0 && i > 0 { assert s[i] == s[1..][i - 1]; }
      }
    }
    StrLenAscii(s);
  }

  function Repeat(c: char, n: nat): (r: string)
    ensures |r| == n && forall i :: 0 <= i < n ==> r[i] == c
  {
    if n == 0 then [] else [c] + Repeat(c, n - 1)
  }

  function Max(a: int, b: int): int {
    if a < b then b else a
  }

  /** PHP `str_pad($s, $width, $pad, STR_PAD_LEFT)` with a one-character pad:
      the input is never truncated, and is padded on the left up to `width`. */
  function StrPadLeft(s: string, width: int, pad: char): (r: string)
    ensures |r| == Max(width, |s|)
    ensures forall i :: 0 <= i < |s| ==> r[|r| - |s| + i] == s[i]
    ensures forall i :: 0 <= i < |r| - |s| ==> r[i] == pad
  {
    if width <= |s| then s else Repeat(pad, width - |s|) + s
  }

  /** The padding is a run of pad characters in front of the input. */
  lemma PadLeftSplit(s: string, width: int, pad: char)
    ensures StrPadLeft(s, width, pad) == Repeat(pad, Max(width - |s|, 0)) + s
  {
    if width <= |s| {
      assert Repeat(pad, 0) == [];
    }
  }

  /** PHP `rtrim($s, $mask)`: strips every trailing character that belongs
      to the mask (a set of characters, not a suffix). */
  function RTrim(s: string, mask: set<char>): (r: string)
    ensures r <= s
    ensures r == [] || r[|r| - 1] !in mask
    ensures forall i :: |r| <= i < |s| ==> s[i] in mask
  {
    if s != [] && s[|s| - 1] in mask then RTrim(s[..|s| - 1], mask) else s
  }

  /** The three facts of RTrim's contract determine its result. */
  lemma RTrimUnique(s: string, mask: set<char>, r: string)
    requires r <= s
    requires r == [] || r[|r| - 1] !in mask
    requires forall i :: |r| <= i < |s| ==> s[i] in mask
    ensures r == RTrim(s, mask)
  {
    var t := RTrim(s, mask);
    assert t != [] ==> s[|t| - 1] == t[|t| - 1];
    assert r != [] ==> s[|r| - 1] == r[|r| - 1];
    assert |r| == |t|;
  }

  /** Trimming a concatenation: the left part is touched only when the right
      part is trimmed away entirely. */
  lemma RTrimAppend(x: string, y: string, mask: set<char>)
    ensures RTrim(x + y, mask) == if RTrim(y, mask) == [] then RTrim(x, mask) else x + RTrim(y, mask)
  {
    var ty := RTrim(y, mask);
    if ty == [] {
      var tx := RTrim(x, mask);
      assert tx <= x + y;
      forall i | |tx| <= i < |x + y| ensures (x + y)[i] in mask {
        if i >= |x| { assert (x + y)[i] == y[i - |x|]; }
      }
      RTrimUnique(x + y, mask, tx);
    } else {
      var r := x + ty;
      assert r <= x + y;
      assert r[|r| - 1] == ty[|ty| - 1];
      forall i | |r| <= i < |x + y| ensures (x + y)[i] in mask {
        assert (x + y)[i] == y[i - |x|];
      }
      RTrimUnique(x + y, mask, r);
    }
  }

  lemma {:induction false} Pow10Monotone(a: nat, b: nat)
    requires a <= b
    ensures Pow10(a) <= Pow10(b)
  {
    if a < b {
      Pow10Monotone(a, b - 1);
    }
  }

  /** A number below 10^w has at most w decimal digits. */
  lemma DecimalFits(n: nat, w: nat)
    requires w >= 1 && n < Pow10(w)
    ensures |Decimal(n)| <= w
  {
    var k := |Decimal(n)|;
    if k > w {
      Pow10Monotone(w, k - 1);
    }
  }

  /** The value of a concatenation of digit strings, digit by digit. */
  lemma {:induction false} ValueConcat(a: string, b: string)
    requires AllDigits(a) && AllDigits(b)
    ensures AllDigits(a + b)
    ensures Value(a + b) == Value(a) * Pow10(|b|) + Value(b)
  {
    assert AllDigits(a + b) by {
      forall i | 0 <= i < |a + b| ensures IsDigit((a + b)[i]) {
        if i >= |a| { assert (a + b)[i] == b[i - |a|]; }
      }
    }
    if b == [] {
      assert a + b == a;
    } else {
      var b' := b[..|b| - 1];
      var d := DigitOf(b[|b| - 1]);
      assert (a + b)[..|a + b| - 1] == a + b';
      assert AllDigits(b');
      ValueConcat(a, b');
      assert Value(a + b) == Value(a + b') * 10 + d;
      assert Value(b) == Value(b') * 10 + d;
      assert Pow10(|b|) == 10 * Pow10(|b'|);
      ShiftDigit(Value(a), Pow10(|b'|), Value(b'), d);
    }
  }

  lemma ShiftDigit(x: nat, p: nat, y: nat, d: nat)
    ensures (x * p + y) * 10 + d == x * (10 * p) + (y * 10 + d)
  {
  }

  lemma {:induction false} ZerosValue(n: nat)
    ensures AllDigits(Repeat('0', n)) && Value(Repeat('0', n)) == 0
  {
    if n > 0 {
      var z := Repeat('0', n);
      assert z[..n - 1] == Repeat('0', n - 1);
      ZerosValue(n - 1);
    }
  }

  /** Left-padding a digit string with zeros keeps its value. */
  lemma ZeroPadValue(s: string, width: int)
    requires AllDigits(s)
    ensures AllDigits(StrPadLeft(s, width, '0'))
    ensures Value(StrPadLeft(s, width, '0')) == Value(s)
  {
    if width > |s| {
      ZerosValue(width - |s|);
      ValueConcat(Repeat('0', width - |s|), s);
    }
  }
}
