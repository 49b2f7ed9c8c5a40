/** Decimal and hexadecimal text, and the few string operations the services
    use on it.  Characters are ASCII: digits, letters and white space outside
    that range are not part of this model. */
module Text {

  predicate IsDigit(c: char) {
    '0' <= c <= '9'
  }

  /** `str.isdigit`: at least one character, all of them digits. */
  predicate AllDigits(s: string) {
    s != "" && forall i :: 0 <= i < |s| ==> IsDigit(s[i])
  }

  function DigitOf(d: nat): (c: char)
    requires d < 10
    ensures IsDigit(c)
  {
    '0' + d as char
  }

  /** `int(s)` of a digit string. */
  function Value(s: string): nat
    requires forall i :: 0 <= i < |s| ==> IsDigit(s[i])
  {
    if |s| == 0 then 0
    else
      var last := s[|s| - 1];
      assert IsDigit(last);
      Value(s[..|s| - 1]) * 10 + (last - '0') as nat
  }

  /** `str(n)`. */
  function Decimal(n: nat): (s: string)
    ensures AllDigits(s)
  {
    if n < 10 then [DigitOf(n)] else Decimal(n / 10) + [DigitOf(n % 10)]
  }

  function Zeros(k: nat): (s: string)
    ensures |s| == k && forall i :: 0 <= i < k ==> s[i] == '0'
  {
    seq(k, _ => '0')
  }

  /** The format `{n:0width d}`: zeros on the left, never truncated. */
  function Padded(n: nat, width: nat): (s: string)
    ensures AllDigits(s)
  {
    var s := Decimal(n);
    if |s| < width then Zeros(width - |s|) + s else s
  }

  lemma {:induction false} ValueOfDecimal(n: nat)
    ensures Value(Decimal(n)) == n
  {
    if n >= 10 {
      ValueOfDecimal(n / 10);
      var s := Decimal(n);
      assert s[..|s| - 1] == Decimal(n / 10);
    }
  }

  lemma {:induction false} ValueOfZeros(k: nat, s: string)
    requires AllDigits(s)
    ensures Value(Zeros(k) + s) == Value(s)
    decreases |s|
  {
    var t := Zeros(k) + s;
    assert t[..|t| - 1] == Zeros(k) + s[..|s| - 1];
    if |s| == 1 {
      assert Zeros(k) + s[..0] == Zeros(k);
      OnlyZeros(k);
    } else {
      ValueOfZeros(k, s[..|s| - 1]);
    }
  }

  lemma {:induction false} OnlyZeros(k: nat)
    ensures Value(Zeros(k)) == 0
  {
    if k > 0 {
      assert Zeros(k)[..k - 1] == Zeros(k - 1);
      OnlyZeros(k - 1);
    }
  }

  /** Padding is invisible to the parser, so a padded number reads back. */
  lemma {:induction false} ValueOfPadded(n: nat, width: nat)
    ensures Value(Padded(n, width)) == n
  {
    ValueOfDecimal(n);
    var s := Decimal(n);
    if |s| < width {
      ValueOfZeros(width - |s|, s);
    }
  }

  /** 10 to the power k. */
  function Pow10(k: nat): (p: nat)
    ensures p >= 1
  {
    if k == 0 then 1 else 10 * Pow10(k - 1)
  }

  /** A number prints in at most k digits exactly when it is below 10^k. */
  lemma {:induction false} DecimalLength(n: nat, k: nat)
    requires k >= 1
    ensures |Decimal(n)| <= k <==> n < Pow10(k)
  {
    if k == 1 {
      assert Pow10(1) == 10 * Pow10(0) == 10;
    } else if n < 10 {
      assert Pow10(k) == 10 * Pow10(k - 1) >= 10;
    } else {
      DecimalLength(n / 10, k - 1);
      assert Pow10(k) == 10 * Pow10(k - 1);
    }
  }

  /** Reading a number up to the first non-digit is unambiguous. */
  lemma {:induction false} NumberThenStop(m: nat, n: nat, x: string, y: string)
    requires Decimal(m) + x == Decimal(n) + y
    requires x != "" ==> !IsDigit(x[0])
    requires y != "" ==> !IsDigit(y[0])
    ensures m == n && x == y
  {
    var s, t := Decimal(m), Decimal(n);
    var w := s + x;
    assert forall i :: 0 <= i < |s| ==> IsDigit(w[i]);
    assert forall i :: 0 <= i < |t| ==> w[i] == t[i];
    assert |s| < |w| ==> w[|s|] == x[0];
    assert |t| < |w| ==> w[|t|] == y[0];
    assert s == (s + x)[..|s|] == (t + y)[..|t|] == t;
    assert x == (s + x)[|s|..] == (t + y)[|t|..] == y;
    ValueOfDecimal(m);
    ValueOfDecimal(n);
  }

  /** Reading a number back from the last non-digit is unambiguous. */
  lemma {:induction false} StopThenNumber(x: string, y: string, c: char, m: nat, n: nat)
    requires !IsDigit(c)
    requires x + [c] + Decimal(m) == y + [c] + Decimal(n)
    ensures x == y && m == n
  {
    var s, t := Decimal(m), Decimal(n);
    var left, right := x + [c] + s, y + [c] + t;
    assert forall i :: |x| < i < |left| ==> left[i] == s[i - |x| - 1];
    assert forall i :: |y| < i < |left| ==> left[i] == t[i - |y| - 1];
    assert left[|x|] == c && right[|y|] == c;
    assert x == left[..|x|] == right[..|y|] == y;
    assert s == left[|x| + 1..] == right[|y| + 1..] == t;
    ValueOfDecimal(m);
    ValueOfDecimal(n);
  }

  predicate IsSpace(c: char) {
    c == ' ' || c == '\t' || c == '\n' || c == '\r'
  }

  /** `str.strip`. */
  function Strip(s: string): (r: string)
    ensures r == "" || (!IsSpace(r[0]) && !IsSpace(r[|r| - 1]))
    ensures r == "" <==> forall i :: 0 <= i < |s| ==> IsSpace(s[i])
  {
    if s == "" then ""
    else if IsSpace(s[0]) then
      var r := Strip(s[1..]);
      assert forall i :: 0 < i < |s| ==> s[i] == s[1..][i - 1];
      r
    else if IsSpace(s[|s| - 1]) then Strip(s[..|s| - 1])
    else s
  }

  /** `str.lower`. */
  function Lower(s: string): (r: string)
    ensures |r| == |s|
  {
    if s == "" then ""
    else
      var c := s[0];
      [if 'A' <= c <= 'Z' then c + 32 as char else c] + Lower(s[1..])
  }

  /** What is between white space and white space is what is left. */
  lemma {:induction false} StripOf(x: string, core: string, y: string)
    requires forall i :: 0 <= i < |x| ==> IsSpace(x[i])
    requires forall i :: 0 <= i < |y| ==> IsSpace(y[i])
    requires core != "" ==> !IsSpace(core[0]) && !IsSpace(core[|core| - 1])
    ensures Strip(x + core + y) == core
    decreases |x| + |y|
  {
    var s := x + core + y;
    if x != "" {
      assert s[1..] == x[1..] + core + y;
      StripOf(x[1..], core, y);
    } else if core == "" {
      assert s == y;
    } else if y != "" {
      assert s[0] == core[0] && s[|s| - 1] == y[|y| - 1];
      assert s[..|s| - 1] == x + core + y[..|y| - 1];
      StripOf(x, core, y[..|y| - 1]);
    } else {
      assert s == core;
    }
  }

  lemma {:induction false} StripTwice(s: string)
    ensures Strip(Strip(s)) == Strip(s)
  {
    StripOf("", Strip(s), "");
    assert "" + Strip(s) + "" == Strip(s);
  }

  /** The same letter, or one an upper-case and the other its lower-case form. */
  predicate SameLetter(c: char, d: char) {
    c == d || ('A' <= c <= 'Z' && d == c + ('a' - 'A')) || ('A' <= d <= 'Z' && c == d + ('a' - 'A'))
  }

  /** Texts that agree letter by letter up to case. */
  predicate SameLetters(a: string, b: string) {
    |a| == |b| && forall i :: 0 <= i < |a| ==> SameLetter(a[i], b[i])
  }

  lemma {:induction false} SameLettersCons(a: string, b: string)
    requires a != "" && b != ""
    ensures SameLetters(a, b) <==> SameLetter(a[0], b[0]) && SameLetters(a[1..], b[1..])
  {
    if SameLetters(a[1..], b[1..]) && SameLetter(a[0], b[0]) {
      forall i | 0 <= i < |a|
        ensures SameLetter(a[i], b[i])
      {
        assert i > 0 ==> a[i] == a[1..][i - 1] && b[i] == b[1..][i - 1];
      }
    }
  }

  /** They are the texts with one lower-case form. */
  lemma {:induction false} LowerIff(a: string, b: string)
    ensures Lower(a) == Lower(b) <==> SameLetters(a, b)
  {
    if a != "" && b != "" {
      LowerIff(a[1..], b[1..]);
      SameLettersCons(a, b);
      assert Lower(a)[1..] == Lower(a[1..]) && Lower(b)[1..] == Lower(b[1..]);
      assert Lower(a)[0] == Lower(b)[0] <==> SameLetter(a[0], b[0]);
    }
  }

  // ---------------------------------------------------------------------
  // Hexadecimal
  // ---------------------------------------------------------------------

  function HexDigit(d: nat): char
    requires d < 16
  {
    "0123456789abcdef"[d]
  }

  /** The last `width` hexadecimal digits of a number. */
  function Hex(n: nat, width: nat): (s: string)
    ensures |s| == width
  {
    if width == 0 then "" else Hex(n / 16, width - 1) + [HexDigit(n % 16)]
  }

  function Pow16(k: nat): (p: nat)
    ensures p >= 1
  {
    if k == 0 then 1 else 16 * Pow16(k - 1)
  }

  /** What a hexadecimal digit counts. */
  function HexDigitValue(c: char): (d: nat) {
    if IsDigit(c) then (c - '0') as nat else if 'a' <= c <= 'f' then (c - 'a') as nat + 10 else 0
  }

  /** `int(s, 16)` of such a text. */
  function HexValue(s: string): nat {
    if s == "" then 0 else HexValue(s[..|s| - 1]) * 16 + HexDigitValue(s[|s| - 1])
  }

  /** A number with enough digits reads back. */
  lemma {:induction false} ValueOfHex(n: nat, width: nat)
    requires n < Pow16(width)
    ensures HexValue(Hex(n, width)) == n
  {
    if width > 0 {
      var s := Hex(n, width);
      ValueOfHex(n / 16, width - 1);
      assert s[..width - 1] == Hex(n / 16, width - 1);
      assert s[width - 1] == HexDigit(n % 16);
      ValueOfHexDigit(n % 16);
    }
  }

  /** The other way round: any text of such digits is what its number prints as. */
  lemma {:induction false} HexOfValue(s: string)
    requires forall i :: 0 <= i < |s| ==> IsDigit(s[i]) || 'a' <= s[i] <= 'f'
    ensures HexValue(s) < Pow16(|s|) && Hex(HexValue(s), |s|) == s
  {
    if s != "" {
      var front, last := s[..|s| - 1], s[|s| - 1];
      HexOfValue(front);
      var d := HexDigitValue(last);
      assert HexValue(s) / 16 == HexValue(front) && HexValue(s) % 16 == d;
      assert HexDigit(d) == last by {
        DigitOfHex(last);
      }
      assert s == front + [last];
    }
  }

  lemma {:induction false} DigitOfHex(c: char)
    requires IsDigit(c) || 'a' <= c <= 'f'
    ensures HexDigitValue(c) < 16 && HexDigit(HexDigitValue(c)) == c
  {
  }

  lemma {:induction false} ValueOfHexDigit(d: nat)
    requires d < 16
    ensures HexDigitValue(HexDigit(d)) == d
  {
  }

  /** Digits and the first six letters, none of them upper-case. */
  lemma {:induction false} HexIsLower(n: nat, width: nat)
    ensures forall i :: 0 <= i < width ==> '0' <= Hex(n, width)[i] <= 'f' && !('A' <= Hex(n, width)[i] <= 'Z')
  {
    if width > 0 {
      HexIsLower(n / 16, width - 1);
      assert '0' <= HexDigit(n % 16) <= 'f' && !('A' <= HexDigit(n % 16) <= 'Z');
    }
  }

  lemma {:induction false} HexUnique(a: nat, b: nat, width: nat)
    requires a < Pow16(width) && b < Pow16(width) && Hex(a, width) == Hex(b, width)
    ensures a == b
  {
    ValueOfHex(a, width);
    ValueOfHex(b, width);
  }

  /** Lower-case text is left alone. */
  lemma {:induction false} LowerStays(s: string)
    requires forall i :: 0 <= i < |s| ==> !('A' <= s[i] <= 'Z')
    ensures Lower(s) == s
  {
    if s != "" {
      assert forall i :: 0 <= i < |s| - 1 ==> s[1..][i] == s[i + 1];
      LowerStays(s[1..]);
    }
  }
}
