/** The text forms of tos/lib/printf/generic_printf.h as functions on strings: what a conversion
    writes, what a width and precision field means, and the laws between the two. */
module NumberText {
  const LONG: nat := 0x1_0000_0000
  /** Characters that fit the buffer of the printer, its terminator apart. */
  const ROOM: nat := 39

  // ---- Numerals ----

  /** The bases in use: corr places the letters of base 16 in lower (0x60) or upper (0x40) case. */
  predicate Radix(div: nat, corr: nat) {
    ((div == 8 || div == 10) && corr == 0) || (div == 16 && (corr == 0x60 || corr == 0x40))
  }

  function DigitChar(d: nat, corr: nat): char
    requires d < 16 && corr <= 0x60
  {
    if d <= 9 then '0' + d as char else (d + corr - 9) as char
  }

  /** The shortest numeral for n. */
  function Numeral(n: nat, div: nat, corr: nat): (s: string)
    requires Radix(div, corr)
    ensures |s| > 0 && forall c :: c in s ==> c != '\0' && c != '\n'
  {
    if n < div then [DigitChar(n, corr)] else Numeral(n / div, div, corr) + [DigitChar(n % div, corr)]
  }

  function DigitValue(c: char): nat {
    if '0' <= c <= '9' then c as nat - '0' as nat
    else if 'a' <= c <= 'f' then c as nat - 'a' as nat + 10
    else if 'A' <= c <= 'F' then c as nat - 'A' as nat + 10
    else 0
  }

  /** The number a string of digits stands for. */
  function Value(s: string, div: nat): nat {
    if s == [] then 0 else Value(s[..|s| - 1], div) * div + DigitValue(s[|s| - 1])
  }

  function Power(b: nat, e: nat): nat {
    if e == 0 then 1 else b * Power(b, e - 1)
  }

  lemma DigitRoundTrip(d: nat, div: nat, corr: nat)
    requires Radix(div, corr) && d < div
    ensures DigitValue(DigitChar(d, corr)) == d
    ensures DigitChar(d, corr) == (if corr == 0x40 then "0123456789ABCDEF" else "0123456789abcdef")[d]
  {
  }

  lemma {:induction false} NumeralReads(n: nat, div: nat, corr: nat)
    requires Radix(div, corr)
    ensures Value(Numeral(n, div, corr), div) == n
  {
    var s := Numeral(n, div, corr);
    if n < div {
      DigitRoundTrip(n, div, corr);
      assert s[..0] == [];
    } else {
      DigitRoundTrip(n % div, div, corr);
      NumeralReads(n / div, div, corr);
      assert s[..|s| - 1] == Numeral(n / div, div, corr);
    }
  }

  /** No numeral is longer than it has to be. */
  lemma {:induction false} NumeralLength(n: nat, div: nat, corr: nat)
    requires Radix(div, corr)
    ensures var k := |Numeral(n, div, corr)|; n < Power(div, k) && (k > 1 ==> Power(div, k - 1) <= n)
  {
    if n >= div {
      NumeralLength(n / div, div, corr);
      var k := |Numeral(n / div, div, corr)|;
      Scaled(n, div, Power(div, k));
      if k > 1 {
        Scaled(n, div, Power(div, k - 1));
      }
    }
  }

  lemma TimesMonotone(a: int, b: int, d: nat)
    requires a <= b
    ensures a * d <= b * d
  {
    assert (b - a) * d >= 0;
  }

  /** Comparing with the quotient and with the number. */
  lemma Scaled(n: nat, div: nat, p: nat)
    requires div > 0
    ensures n / div < p ==> n < div * p
    ensures p <= n / div ==> div * p <= n
  {
    var q, r := n / div, n % div;
    assert n == q * div + r;
    if q < p {
      TimesMonotone(q + 1, p, div);
    } else {
      TimesMonotone(p, q, div);
    }
  }

  function Zeros(n: int): (s: string)
    ensures |s| == (if n > 0 then n else 0)
  {
    if n <= 0 then [] else Zeros(n - 1) + ['0']
  }

  lemma {:induction false} LeadingZeros(n: int, s: string, div: nat)
    ensures Value(Zeros(n) + s, div) == Value(s, div)
    decreases |s|, n
  {
    var t := Zeros(n) + s;
    if s != [] {
      assert t[..|t| - 1] == Zeros(n) + s[..|s| - 1];
      LeadingZeros(n, s[..|s| - 1], div);
    } else if n > 0 {
      assert t == Zeros(n) && t[..|t| - 1] == Zeros(n - 1) + [];
      LeadingZeros(n - 1, [], div);
    }
  }

  // ---- What a conversion writes ----

  predicate Negative(value: int, signed: bool) {
    signed && value < 0
  }

  /** The number whose digits are written: an unsigned conversion shows the 32-bit pattern. */
  function Magnitude(value: int, signed: bool): nat {
    if Negative(value, signed) then -value else value % LONG
  }

  /** A minus sign for a negative number, zeros up to the precision, and the numeral. */
  function Body(value: int, signed: bool, precision: int, div: nat, corr: nat): string
    requires Radix(div, corr)
  {
    var digits := Numeral(Magnitude(value, signed), div, corr);
    (if Negative(value, signed) then "-" else "") + Zeros(precision - |digits|) + digits
  }

  /** The spaces before the body. With a precision above the digit count the code leaves the minus
      sign out of its account. */
  function Indent(value: int, signed: bool, width: int, precision: int, div: nat, corr: nat): nat
    requires Radix(div, corr)
  {
    var digits := |Numeral(Magnitude(value, signed), div, corr)|;
    var taken := if precision > digits then precision else digits + (if Negative(value, signed) then 1 else 0);
    if width > taken then width - taken else 0
  }

  function Spaces(n: nat): (s: string)
    ensures |s| == n
  {
    if n == 0 then [] else Spaces(n - 1) + [' ']
  }

  function Printed(value: int, signed: bool, width: int, precision: int, div: nat, corr: nat): string
    requires Radix(div, corr)
  {
    Spaces(Indent(value, signed, width, precision, div, corr)) + Body(value, signed, precision, div, corr)
  }

  function Max(a: int, b: int): int {
    if a > b then a else b
  }

  /** The body reads back as the argument: signed as it is, unsigned modulo 2^32. */
  lemma BodyReads(value: int, signed: bool, precision: int, div: nat, corr: nat)
    requires Radix(div, corr)
    ensures var s := Body(value, signed, precision, div, corr);
            if Negative(value, signed) then s[0] == '-' && 0 - Value(s[1..], div) == value
            else Value(s, div) == value % LONG
  {
    var digits := Numeral(Magnitude(value, signed), div, corr);
    var s := Body(value, signed, precision, div, corr);
    LeadingZeros(precision - |digits|, digits, div);
    NumeralReads(Magnitude(value, signed), div, corr);
    if Negative(value, signed) {
      assert s[1..] == Zeros(precision - |digits|) + digits;
    } else {
      assert s == Zeros(precision - |digits|) + digits;
    }
  }

  /** The body has as many digits as the number needs or the precision asks for; the whole has the
      width asked for or that of the body, unless the number is negative and width > precision >
      digits. In that one case it is a column too wide. */
  lemma PrintedWidth(value: int, signed: bool, width: int, precision: int, div: nat, corr: nat)
    requires Radix(div, corr)
    ensures var digits := |Numeral(Magnitude(value, signed), div, corr)|;
            var body := |Body(value, signed, precision, div, corr)|;
            var all := |Printed(value, signed, width, precision, div, corr)|;
            && body == Max(digits, precision) + (if Negative(value, signed) then 1 else 0)
            && (all == Max(width, body) <==> !(Negative(value, signed) && width > precision > digits))
            && (Negative(value, signed) && width > precision > digits ==> all == width + 1)
  {
  }

  /** A width of 5 and a precision of 3 print -5 as two spaces and "-005", six characters. */
  lemma PrintedTooWide()
    ensures |Printed(-5, true, 5, 3, 10, 0)| == 6
  {
    PrintedWidth(-5, true, 5, 3, 10, 0);
    NumeralLength(5, 10, 0);
  }

  // ---- What a width and precision field means ----

  predicate IsDigit(c: char) {
    '0' <= c <= '9'
  }

  /** The length of the longest run of digits at the front. */
  function DigitRun(s: string): (n: nat)
    ensures n <= |s| && (forall k :: 0 <= k < n ==> IsDigit(s[k])) && (n < |s| ==> !IsDigit(s[n]))
  {
    if s == [] || !IsDigit(s[0]) then 0 else 1 + DigitRun(s[1..])
  }

  /** The two globals, the value returned, and the text echoed. */
  datatype Parsed = Parsed(left: int, right: int, returned: int, echoed: string)

  function Parse(s: string, flag: bool): Parsed {
    if s == [] && flag then Parsed(0, 3, 0, []) else
    var i := DigitRun(s);
    var left := Value(s[..i], 10);
    if i == |s| then Parsed(left, 0, left, []) else
    if s[i] != '.' then Parsed(left, 0, -1, s[i..]) else
    var t := s[i + 1..];
    var j := DigitRun(t);
    var right := Value(t[..j], 10);
    if j == |t| then Parsed(left, right, 0, []) else Parsed(left, right, -1, t[j..])
  }

  /** Digits with at most one dot among them. */
  predicate WellFormed(s: string) {
    && (forall k :: 0 <= k < |s| ==> IsDigit(s[k]) || s[k] == '.')
    && (forall j, k :: 0 <= j < k < |s| ==> !(s[j] == '.' && s[k] == '.'))
  }

  /** A field is refused exactly when it is not well formed; what is echoed is its end from the first
      character that does not belong. */
  lemma ParseRefuses(s: string, flag: bool)
    ensures var p := Parse(s, flag);
            && (p.returned == -1 <==> !WellFormed(s))
            && (p.returned == -1 <==> p.echoed != [])
            && EndsAt(s, p.echoed)
  {
    var i := DigitRun(s);
    if i == |s| {
      NoneBad(s);
    } else if s[i] == '.' {
      AfterDot(s, i);
    } else {
      BadAt(s, i, 0);
    }
  }

  lemma AfterDot(s: string, i: nat)
    requires i < |s| && s[i] == '.' && forall k :: 0 <= k < i ==> IsDigit(s[k])
    ensures var t := s[i + 1..];
            var end := t[DigitRun(t)..];
            EndsAt(s, end) && (end == [] <==> WellFormed(s))
  {
    var t := s[i + 1..];
    var j := i + 1 + DigitRun(t);
    forall k | i < k < j
      ensures IsDigit(s[k])
    {
      assert s[k] == t[k - i - 1];
    }
    assert WellFormed(s[..j]);
    assert t[DigitRun(t)..] == s[j..];
    if j < |s| {
      BadAt(s, j, i);
    } else {
      NoneBad(s);
    }
  }

  /** s before its last part is well formed, and with one character more it is not. */
  ghost predicate EndsAt(s: string, end: string) {
    && |end| <= |s|
    && var k := |s| - |end|;
       end == s[k..] && WellFormed(s[..k]) && (k < |s| ==> !WellFormed(s[..k + 1]))
  }

  lemma NoneBad(s: string)
    requires WellFormed(s[..|s|])
    ensures WellFormed(s) && EndsAt(s, [])
  {
    assert s[..|s|] == s;
  }

  lemma BadAt(s: string, k: nat, j: nat)
    requires k < |s| && WellFormed(s[..k]) && !IsDigit(s[k])
    requires s[k] == '.' ==> j < k && s[j] == '.'
    ensures !WellFormed(s) && EndsAt(s, s[k..])
  {
    assert |s| - |s[k..]| == k;
    var u := s[..k + 1];
    assert u[k] == s[k];
    if s[k] == '.' {
      assert u[j] == '.';
    }
  }

  lemma {:induction false} NumeralIsDigits(n: nat)
    ensures forall c :: c in Numeral(n, 10, 0) ==> IsDigit(c)
  {
    if n >= 10 {
      NumeralIsDigits(n / 10);
    }
  }

  lemma {:induction false} RunEnds(s: string, n: nat)
    requires n <= |s| && (forall k :: 0 <= k < n ==> IsDigit(s[k])) && (n < |s| ==> !IsDigit(s[n]))
    ensures DigitRun(s) == n
  {
    if n > 0 {
      RunEnds(s[1..], n - 1);
    }
  }

  /** Parsing a printed width, or a printed width and precision, gives the numbers back. */
  lemma ParsePrinted(width: nat, precision: nat, flag: bool)
    ensures Parse(Numeral(width, 10, 0), flag) == Parsed(width, 0, width, [])
    ensures Parse(Numeral(width, 10, 0) + "." + Numeral(precision, 10, 0), flag) == Parsed(width, precision, 0, [])
  {
    var w, p := Numeral(width, 10, 0), Numeral(precision, 10, 0);
    NumeralIsDigits(width);
    NumeralIsDigits(precision);
    NumeralReads(width, 10, 0);
    NumeralReads(precision, 10, 0);
    RunEnds(w, |w|);
    assert w[..|w|] == w && p[..|p|] == p;
    var s := w + "." + p;
    RunEnds(s, |w|);
    RunEnds(p, |p|);
    assert s[..|w|] == w && s[|w| + 1..] == p && s[|w|] == '.';
  }

  /** What a field that is not refused asks for: the number before the dot and the one after it, or the
      number and nothing. */
  lemma ParseReads(s: string, flag: bool)
    requires WellFormed(s)
    ensures var p := Parse(s, flag);
            && (s == [] && flag ==> p == Parsed(0, 3, 0, []))
            && (s != [] || !flag ==>
                  && ('.' !in s ==> p == Parsed(Value(s, 10), 0, Value(s, 10), []))
                  && forall i :: 0 <= i < |s| && s[i] == '.' ==>
                       p == Parsed(Value(s[..i], 10), Value(s[i + 1..], 10), 0, []))
  {
    if '.' !in s {
      RunEnds(s, |s|);
      assert s[..|s|] == s;
    }
    forall i | 0 <= i < |s| && s[i] == '.'
      ensures Parse(s, flag) == Parsed(Value(s[..i], 10), Value(s[i + 1..], 10), 0, [])
    {
      var t := s[i + 1..];
      RunEnds(s, i);
      RunEnds(t, |t|);
      assert t[..|t|] == t;
    }
  }

  lemma ScaledUp(v: nat, div: nat)
    requires div >= 1
    ensures v <= v * div
  {
    assert v * (div - 1) >= 0;
  }

  /** No prefix of a field stands for more than the field, so where the final value fits the type no
      intermediate one overflows it. */
  lemma {:induction false} PrefixBelow(s: string, k: nat, div: nat)
    requires k <= |s| && div >= 1
    ensures Value(s[..k], div) <= Value(s, div)
    decreases |s|
  {
    if k == |s| {
      assert s[..k] == s;
    } else {
      var t := s[..|s| - 1];
      PrefixBelow(t, k, div);
      assert t[..k] == s[..k];
      ScaledUp(Value(t, div), div);
    }
  }

  // ---- A whole integer conversion ----

  /** The integer conversions: u, d, i, x, p, X and o. */
  predicate IsInteger(conv: char) {
    conv in "udixXop"
  }

  function Div(conv: char): nat {
    if conv == 'o' then 8 else if conv == 'x' || conv == 'X' || conv == 'p' then 16 else 10
  }

  function Corr(conv: char): nat {
    if conv == 'X' then 0x40 else if conv == 'x' || conv == 'p' then 0x60 else 0
  }

  predicate Signed(conv: char) {
    conv == 'd' || conv == 'i'
  }

  /** What reaches the line for each character of s: a line feed is preceded by a return. */
  function Sent(s: string): string {
    if s == [] then [] else Sent(s[..|s| - 1]) + (if s[|s| - 1] == '\n' then "\r\n" else [s[|s| - 1]])
  }

  function Formatted(field: string, conv: char, value: int): string
    requires IsInteger(conv)
  {
    var p := Parse(field, false);
    if p.returned != -1 then Printed(value, Signed(conv), p.left, p.right, Div(conv), Corr(conv))
    else Sent(p.echoed) + [conv]
  }

  /** What a text in the asked width is to be: spaces, then digits that read as the value, with the
      sign in front of a negative one. The sign can cost a column, see PrintedWidth. */
  ghost predicate ReadsAs(s: string, value: int, neg: bool, width: int, precision: int, digits: nat, div: nat) {
    var body := Max(digits, precision) + (if neg then 1 else 0);
    && 0 < body <= |s| && |s| == Max(width, body) + (if neg && width > precision > digits then 1 else 0)
    && (forall k :: 0 <= k < |s| - body ==> s[k] == ' ')
    && BodyIs(s[|s| - body..], value, neg, div)
  }

  ghost predicate BodyIs(b: string, value: int, neg: bool, div: nat) {
    if neg then b != [] && b[0] == '-' && 0 - Value(b[1..], div) == value else Value(b, div) == value % 0x1_0000_0000
  }

  ghost predicate Reads(s: string, value: int, signed: bool, width: int, precision: int, div: nat, corr: nat)
    requires Radix(div, corr)
  {
    ReadsAs(s, value, Negative(value, signed), width, precision, |Numeral(Magnitude(value, signed), div, corr)|, div)
  }

  lemma PrintedReads(value: int, signed: bool, width: int, precision: int, div: nat, corr: nat)
    requires Radix(div, corr)
    ensures Reads(Printed(value, signed, width, precision, div, corr), value, signed, width, precision, div, corr)
  {
    PrintedWidth(value, signed, width, precision, div, corr);
    BodyReads(value, signed, precision, div, corr);
    var n, b := Indent(value, signed, width, precision, div, corr), Body(value, signed, precision, div, corr);
    var neg, digits := Negative(value, signed), |Numeral(Magnitude(value, signed), div, corr)|;
    AllSpaces(n);
    WidthSum(n, |b|, neg, width, precision, digits);
    IndentedReads(Spaces(n), b, value, neg, width, precision, digits, div);
  }

  lemma WidthSum(n: nat, b: nat, neg: bool, width: int, precision: int, digits: nat)
    requires b == Max(digits, precision) + (if neg then 1 else 0)
    requires n == (var taken := if precision > digits then precision else digits + (if neg then 1 else 0);
                   if width > taken then width - taken else 0)
    ensures n + b == Max(width, b) + (if neg && width > precision > digits then 1 else 0)
  {
  }

  /** The same about an indent a and a body b. */
  lemma IndentedReads(a: string, b: string, value: int, neg: bool, width: int, precision: int, digits: nat, div: nat)
    requires b != [] && |b| == Max(digits, precision) + (if neg then 1 else 0)
    requires |a| + |b| == Max(width, |b|) + (if neg && width > precision > digits then 1 else 0)
    requires (forall k :: 0 <= k < |a| ==> a[k] == ' ') && BodyIs(b, value, neg, div)
    ensures ReadsAs(a + b, value, neg, width, precision, digits, div)
  {
    Halves(a, b);
  }

  lemma Halves(a: string, b: string)
    ensures (a + b)[|a + b| - |b|..] == b && forall k :: 0 <= k < |a| ==> (a + b)[k] == a[k]
  {
  }

  /** The field is empty, a printed width, or a printed width and precision. */
  ghost predicate Asks(field: string, width: nat, precision: nat) {
    || (field == "" && width == 0 && precision == 0)
    || (field == Numeral(width, 10, 0) && precision == 0)
    || field == Numeral(width, 10, 0) + "." + Numeral(precision, 10, 0)
  }

  /** A digit of the base, letters in the case asked for. */
  predicate DigitOf(c: char, base: nat, upper: bool) {
    || ('0' <= c <= '9' && c as int - '0' as int < base)
    || (base == 16 && if upper then 'A' <= c <= 'F' else 'a' <= c <= 'f')
  }

  /** m takes k digits in the base. */
  ghost predicate Takes(m: nat, base: nat, k: nat) {
    k >= 1 && m < Power(base, k) && (k > 1 ==> Power(base, k - 1) <= m)
  }

  /** s is the value in the base, in the given number of digits or as many as the precision asks for:
      the number takes so many, and after the spaces and the sign come only digits of the base. */
  ghost predicate Writes(s: string, value: int, neg: bool, width: int, precision: int, base: nat, upper: bool,
                         digits: nat)
  {
    && Takes(if neg && value < 0 then -value else value % 0x1_0000_0000, base, digits)
    && ReadsAs(s, value, neg, width, precision, digits, base)
    && forall k :: |s| - Max(digits, precision) <= k < |s| ==> DigitOf(s[k], base, upper)
  }

  ghost predicate AllDigits(s: string, base: nat, upper: bool) {
    forall c :: c in s ==> DigitOf(c, base, upper)
  }

  lemma {:induction false} NumeralDigits(n: nat, div: nat, corr: nat)
    requires Radix(div, corr)
    ensures AllDigits(Numeral(n, div, corr), div, corr == 0x40)
  {
    if n >= div {
      NumeralDigits(n / div, div, corr);
    }
  }

  lemma {:induction false} ZeroDigits(n: int, div: nat, corr: nat)
    requires Radix(div, corr)
    ensures AllDigits(Zeros(n), div, corr == 0x40)
  {
    if n > 0 {
      ZeroDigits(n - 1, div, corr);
    }
  }

  lemma TailDigits(before: string, z: string, base: nat, upper: bool)
    requires AllDigits(z, base, upper)
    ensures var s := before + z; forall k :: |s| - |z| <= k < |s| ==> DigitOf(s[k], base, upper)
  {
    var s := before + z;
    forall k | |s| - |z| <= k < |s|
      ensures DigitOf(s[k], base, upper)
    {
      assert s[k] == z[k - |before|];
    }
  }

  lemma JoinDigits(z: string, d: string, base: nat, upper: bool)
    requires AllDigits(z, base, upper) && AllDigits(d, base, upper)
    ensures AllDigits(z + d, base, upper)
  {
  }

  lemma PrintedParts(spaces: string, sign: string, zeros: string, d: string)
    ensures spaces + (sign + zeros + d) == (spaces + sign) + (zeros + d)
  {
  }

  /** The end of the text, after the sign, is digits of the base. */
  lemma EndDigits(value: int, signed: bool, width: int, precision: int, div: nat, corr: nat)
    requires Radix(div, corr)
    ensures var s, digits := Printed(value, signed, width, precision, div, corr),
                             |Numeral(Magnitude(value, signed), div, corr)|;
            forall k :: |s| - Max(digits, precision) <= k < |s| ==> k >= 0 && DigitOf(s[k], div, corr == 0x40)
  {
    var d := Numeral(Magnitude(value, signed), div, corr);
    var zeros := Zeros(precision - |d|);
    var spaces := Spaces(Indent(value, signed, width, precision, div, corr));
    var sign := if Negative(value, signed) then "-" else "";
    NumeralDigits(Magnitude(value, signed), div, corr);
    ZeroDigits(precision - |d|, div, corr);
    JoinDigits(zeros, d, div, corr == 0x40);
    TailDigits(spaces + sign, zeros + d, div, corr == 0x40);
    PrintedParts(spaces, sign, zeros, d);
    assert |zeros + d| == Max(|d|, precision);
    assert Printed(value, signed, width, precision, div, corr) == (spaces + sign) + (zeros + d);
  }

  lemma PrintedWrites(value: int, signed: bool, width: int, precision: int, div: nat, corr: nat) returns (digits: nat)
    requires Radix(div, corr)
    ensures Writes(Printed(value, signed, width, precision, div, corr), value, Negative(value, signed),
                   width, precision, div, corr == 0x40, digits)
  {
    digits := |Numeral(Magnitude(value, signed), div, corr)|;
    PrintedReads(value, signed, width, precision, div, corr);
    NumeralLength(Magnitude(value, signed), div, corr);
    EndDigits(value, signed, width, precision, div, corr);
  }

  /** What was asked for in printed numbers is what comes out, for every integer conversion: o in base 8,
      u, d and i in base 10, x and p in base 16 with small letters and X with capital ones, and only d and i
      with a sign. */
  lemma FormattedReads(field: string, width: nat, precision: nat, conv: char, value: int) returns (digits: nat)
    requires IsInteger(conv) && Asks(field, width, precision)
    ensures var s := Formatted(field, conv, value);
            && (conv == 'o' ==> Writes(s, value, false, width, precision, 8, false, digits))
            && (conv == 'u' ==> Writes(s, value, false, width, precision, 10, false, digits))
            && (conv == 'd' || conv == 'i' ==> Writes(s, value, value < 0, width, precision, 10, false, digits))
            && (conv == 'x' || conv == 'p' ==> Writes(s, value, false, width, precision, 16, false, digits))
            && (conv == 'X' ==> Writes(s, value, false, width, precision, 16, true, digits))
  {
    AskedIsParsed(field, width, precision);
    FormattedIs(field, conv, value, width, precision);
    digits := PrintedWrites(value, Signed(conv), width, precision, Div(conv), Corr(conv));
  }

  lemma AskedIsParsed(field: string, width: nat, precision: nat)
    requires Asks(field, width, precision)
    ensures var p := Parse(field, false); p.left == width && p.right == precision && p.returned != -1
  {
    ParsePrinted(width, precision, false);
  }

  lemma FormattedIs(field: string, conv: char, value: int, width: nat, precision: nat)
    requires IsInteger(conv)
    requires var p := Parse(field, false); p.left == width && p.right == precision && p.returned != -1
    ensures Formatted(field, conv, value) == Printed(value, Signed(conv), width, precision, Div(conv), Corr(conv))
  {
  }

  /** A field that asks for nothing is answered with its end from the first character that does not
      belong, and the letter. */
  lemma FormattedRefuses(field: string, conv: char, value: int) returns (rest: string)
    requires IsInteger(conv) && !WellFormed(field)
    ensures rest != [] && EndsAt(field, rest) && Formatted(field, conv, value) == Sent(rest) + [conv]
  {
    ParseRefuses(field, false);
    rest := Parse(field, false).echoed;
  }

  /** Characters are sent one by one, a line feed with a return before it. */
  lemma {:induction false} SentParts(s: string, t: string, c: char)
    ensures Sent(s + t) == Sent(s) + Sent(t)
    ensures Sent([c]) == if c == '\n' then "\r\n" else [c]
    decreases |t|
  {
    assert [c][..0] == [];
    if t == [] {
      assert s + t == s;
    } else {
      var u := t[..|t| - 1];
      SentParts(s, u, c);
      assert (s + t)[..|s + t| - 1] == s + u;
    }
  }

  lemma AllSpaces(n: nat)
    ensures forall k :: 0 <= k < n ==> Spaces(n)[k] == ' '
  {
  }
}
