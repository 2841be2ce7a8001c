/** The integer printer of tos/lib/printf/generic_printf.h: its two globals, its 40-character buffer
    and the text it sends, proved against NumberText. */
module GenericPrintf {
  import opened NumberText
  import opened Sequences

  lemma ReverseNext(s: string, c: char)
    ensures Reverse(s + [c]) == [c] + Reverse(s)
  {
    ReverseConcat(s, [c]);
    ReverseOne(c);
  }

  lemma Joined(a: string, b: string, c: string)
    ensures a + b + c == a + (b + c)
  {
  }

  /** The zero-terminated string in a buffer. */
  ghost predicate Holds(buffer: array<char>, text: string)
    reads buffer
  {
    |text| < buffer.Length && buffer[..|text|] == text && buffer[|text|] == '\0' && '\0' !in text
  }

  lemma TextIn(buffer: array<char>, text: string)
    requires Holds(buffer, text)
    ensures forall k :: 0 <= k < |text| ==> buffer[k] == text[k] && buffer[k] != '\0'
  {
    forall k | 0 <= k < |text|
      ensures buffer[k] == text[k] && buffer[k] != '\0'
    {
      assert buffer[k] == buffer[..|text|][k];
      assert text[k] in text;
    }
  }

  method StrLen(buffer: array<char>, ghost text: string) returns (len: nat)
    requires Holds(buffer, text)
    ensures len == |text|
  {
    TextIn(buffer, text);
    len := 0;
    while buffer[len] != '\0'
      invariant len <= |text|
      decreases |text| - len
    {
      len := len + 1;
    }
  }

  /** strrev: swaps inwards from both ends, in place. */
  method StrRev(buffer: array<char>, ghost text: string)
    requires Holds(buffer, text)
    modifies buffer
    ensures Holds(buffer, Reverse(text))
  {
    var len := StrLen(buffer, text);
    var i: int, j: int := 0, len - 1;
    TextIn(buffer, text);
    while i < j
      invariant 0 <= i && j == len - 1 - i && i <= j + 2
      invariant buffer[len] == '\0'
      invariant forall k :: 0 <= k < i ==> buffer[k] == text[len - 1 - k]
      invariant forall k :: i <= k <= j ==> buffer[k] == text[k]
      invariant forall k :: j < k < len ==> buffer[k] == text[len - 1 - k]
    {
      buffer[i], buffer[j] := buffer[j], buffer[i];
      i := i + 1;
      j := j - 1;
    }
    ReverseMirrors(text);
    assert buffer[..len] == Reverse(text);
    assert forall k :: 0 <= k < len ==> text[k] in text;
  }

  /** The digits the digit loop still has to write when temp is left. */
  ghost function Left(temp: nat, div: nat, corr: nat): string
    requires Radix(div, corr)
  {
    if temp > 0 then Numeral(temp, div, corr) else []
  }

  lemma LeftNext(temp: nat, div: nat, corr: nat)
    requires Radix(div, corr) && temp > 0
    ensures Left(temp, div, corr) == Left(temp / div, div, corr) + [DigitChar(temp % div, corr)]
  {
    if temp < div {
      assert temp / div == 0 && temp % div == temp;
    }
  }

  /** One round of the digit loop: the lowest digit c moves from what is left to the buffer. */
  lemma DigitStep(left: string, high: string, c: char, done: string, goal: string)
    requires left == high + [c] && left + Reverse(done) == goal
    ensures |done| < |goal| && high + Reverse(done + [c]) == goal
  {
    ReverseNext(done, c);
    Joined(high, [c], Reverse(done));
  }

  lemma Doubled(q: nat, div: nat)
    requires div > 1
    ensures 2 * q <= q * div
  {
    assert q * (div - 2) >= 0;
  }

  lemma Smaller(temp: nat, div: nat)
    requires temp > 0 && div > 1
    ensures temp / div < temp
  {
    var q, r := temp / div, temp % div;
    assert temp == q * div + r;
    Doubled(q, div);
  }

  /** s1[cntr++] = c */
  method Append(buffer: array<char>, cntr: nat, c: char) returns (next: nat)
    requires cntr < buffer.Length
    modifies buffer
    ensures next == cntr + 1 && buffer[..next] == old(buffer[..cntr]) + [c]
  {
    buffer[cntr] := c;
    next := cntr + 1;
  }

  /** The numeral of n, lowest digit first, into the front of the buffer. */
  method WriteDigits(buffer: array<char>, n: nat, div: nat, corr: nat, ghost goal: string) returns (cntr: nat)
    requires Radix(div, corr) && goal == Numeral(n, div, corr) && |goal| <= buffer.Length
    modifies buffer
    ensures cntr == |goal| && Reverse(buffer[..cntr]) == goal
  {
    var temp: nat := n;
    cntr := 0;
    ghost var left := goal;
    if temp == 0 {
      cntr := Append(buffer, cntr, '0');
      left := [];
      ReverseOne('0');
    }
    while temp > 0
      invariant cntr <= buffer.Length && left + Reverse(buffer[..cntr]) == goal
      invariant left == Left(temp, div, corr)
      decreases temp
    {
      var i1, high := temp % div, temp / div;
      LeftNext(temp, div, corr);
      DigitStep(left, Left(high, div, corr), DigitChar(i1, corr), buffer[..cntr], goal);
      Smaller(temp, div);
      temp, left := high, Left(high, div, corr);
      cntr := Append(buffer, cntr, DigitChar(i1, corr));
    }
  }

  /** Zeros after the digits, up to the precision. */
  method WriteZeros(buffer: array<char>, start: nat, precision: int) returns (cntr: nat)
    requires start <= buffer.Length && Max(start, precision) <= buffer.Length
    modifies buffer
    ensures cntr == start + |Zeros(precision - start)| && cntr <= buffer.Length
    ensures buffer[..cntr] == old(buffer[..start]) + Zeros(precision - start)
  {
    ghost var done := buffer[..start];
    cntr := start;
    while precision - cntr > 0
      invariant start <= cntr <= Max(start, precision)
      invariant buffer[..cntr] == done + Zeros(cntr - start)
    {
      Joined(done, Zeros(cntr - start), ['0']);
      cntr := Append(buffer, cntr, '0');
    }
  }

  /** Zeros up to the precision, the minus sign and the terminator, after the digits. */
  method FinishBody(buffer: array<char>, start: nat, precision: int, neg: bool,
                    ghost digits: string, ghost body: string)
    returns (ghost text: string)
    requires start <= buffer.Length && Reverse(buffer[..start]) == digits
    requires body == (if neg then "-" else "") + Zeros(precision - |digits|) + digits && |body| < buffer.Length
    requires '\0' !in body
    modifies buffer
    ensures Holds(buffer, text) && Reverse(text) == body
  {
    ghost var low := buffer[..start];
    ghost var zeros := Zeros(precision - start);
    var cntr := WriteZeros(buffer, start, precision);
    ReverseConcat(low, zeros);
    ReverseZeros(precision - start);
    text := buffer[..cntr];
    if neg {
      ReverseNext(text, '-');
      cntr := Append(buffer, cntr, '-');
      text := buffer[..cntr];
    }
    buffer[cntr] := '\0';
    assert buffer[..cntr] == text;
    NoTerminator(text, body);
  }

  class Printer {
    var leftVal: int
    var rightVal: int
    /** Everything handed to lowlevel_putc. */
    var output: string

    constructor ()
      ensures output == []
    {
      leftVal, rightVal, output := 0, 0, [];
    }

    /** _putchar: a line feed goes out as return and line feed. */
    method PutChar(c: char)
      modifies this`output
      ensures output == old(output) + Sent([c])
    {
      assert [c][..0] == [];
      if c == '\n' {
        output := output + ['\r'];
      }
      output := output + [c];
    }

    method Puts(buffer: array<char>, ghost text: string)
      requires Holds(buffer, text)
      modifies this`output
      ensures output == old(output) + Sent(text)
    {
      var k := 0;
      TextIn(buffer, text);
      while buffer[k] != '\0'
        invariant k <= |text| && output == old(output) + Sent(text[..k])
        decreases |text| - k
      {
        PutChar(buffer[k]);
        SentNext(text, k);
        k := k + 1;
      }
      assert text[..k] == text;
    }

    method PutSpace()
      modifies this`output
      ensures output == old(output) + [' ']
    {
      PutChar(' ');
      SentPlain([' ']);
    }

    /** The spaces before the body; cntr and neg are as the digit loop leaves them. */
    method PutSpaces(cntr: nat, neg: bool, counter: int) returns (total: int)
      modifies this`output, this`leftVal
      ensures var taken := if rightVal > cntr then rightVal else cntr + (if neg then 1 else 0);
              var n := if old(leftVal) > taken then old(leftVal) - taken else 0;
              && output == old(output) + Spaces(n) && leftVal == old(leftVal) - n && total == counter + n
    {
      total := counter;
      var taken := if rightVal > cntr then rightVal else cntr + (if neg then 1 else 0);
      ghost var n := 0;
      while leftVal - taken > 0
        invariant leftVal == old(leftVal) - n && total == counter + n && output == old(output) + Spaces(n)
        invariant n > 0 ==> leftVal >= taken
        decreases leftVal - taken
      {
        PutSpace();
        leftVal := leftVal - 1;
        total := total + 1;
        n := n + 1;
      }
    }

    /** print_hex_oct after the sign is taken off: n spaces, then the body. */
    method Emit(temp: nat, neg: bool, div: nat, corr: nat, counter: int,
        ghost digits: string, ghost body: string, ghost n: nat)
      returns (total: int)
      requires Radix(div, corr) && digits == Numeral(temp, div, corr)
      requires body == (if neg then "-" else "") + Zeros(rightVal - |digits|) + digits && |body| <= ROOM
      requires '\0' !in body && '\n' !in body
      requires var taken := if rightVal > |digits| then rightVal else |digits| + (if neg then 1 else 0);
               n == if leftVal > taken then leftVal - taken else 0
      modifies this`output, this`leftVal
      ensures output == old(output) + Spaces(n) + body && leftVal == old(leftVal) - n
      ensures total == counter + n + |body|
    {
      var s1 := new char[ROOM + 1];
      var cntr := WriteDigits(s1, temp, div, corr, digits);
      total := PutSpaces(cntr, neg, counter);
      ghost var indented := output;
      assert indented == old(output) + Spaces(n);
      ghost var text := FinishBody(s1, cntr, rightVal, neg, digits, body);
      StrRev(s1, text);
      SentPlain(body);
      Puts(s1, body);
      assert output == indented + body;
      var len := StrLen(s1, body);
      total := total + len;
    }

    /** print_hex_oct: a 32-bit long with the width and precision in the globals. The caller has to
        keep the body within the buffer. */
    method PrintHexOct(value: int, div: nat, corr: nat, signed: bool, counter: int) returns (total: int)
      requires -0x8000_0000 <= value < 0x8000_0000 && Radix(div, corr)
      requires |Body(value, signed, rightVal, div, corr)| <= ROOM
      modifies this`output, this`leftVal
      ensures output == old(output) + Printed(value, signed, old(leftVal), rightVal, div, corr)
      ensures leftVal == old(leftVal) - Indent(value, signed, old(leftVal), rightVal, div, corr)
      ensures total == counter + |Printed(value, signed, old(leftVal), rightVal, div, corr)|
    {
      var temp: nat := value % LONG;
      var neg := false;
      if signed && value < 0 {
        temp := -value;
        neg := true;
      }
      ghost var body := Body(value, signed, rightVal, div, corr);
      ghost var n := Indent(value, signed, leftVal, rightVal, div, corr);
      BodyPlain(value, signed, rightVal, div, corr);
      Joined(output, Spaces(n), body);
      total := Emit(temp, neg, div, corr, counter, Numeral(temp, div, corr), body, n);
    }

    /** Echoes the rest of a field that is not well formed. */
    method Echo(field: string, start: nat, counter: int) returns (total: int)
      requires start <= |field|
      modifies this`output
      ensures output == old(output) + Sent(field[start..]) && total == counter + |field| - start
    {
      total := counter;
      var k := start;
      while k < |field|
        invariant start <= k <= |field| && total == counter + k - start
        invariant output == old(output) + Sent(field[start..][..k - start])
      {
        PutChar(field[k]);
        SentNext(field[start..], k - start);
        total := total + 1;
        k := k + 1;
      }
      assert field[start..][..|field| - start] == field[start..];
    }

    /** The first loop of format_val, up to a dot, the end or a character that is not a digit. */
    method FormatWidth(field: string) returns (i: nat)
      requires leftVal == 0
      modifies this`leftVal
      ensures i == DigitRun(field) && leftVal == Value(field[..i], 10)
    {
      i := 0;
      while i < |field| && field[i] != '.' && !(field[i] < '0' || field[i] > '9')
        invariant i <= |field| && leftVal == Value(field[..i], 10)
        invariant forall k :: 0 <= k < i ==> IsDigit(field[k])
      {
        ValueNext(field, i, 10);
        leftVal := leftVal * 10 + field[i] as int - '0' as int;
        i := i + 1;
      }
      RunEnds(field, i);
    }

    /** format_val: width and precision into the globals. */
    method FormatVal(field: string, counter: int, flag: bool) returns (returned: int, total: int)
      modifies this
      ensures var p := Parse(field, flag);
              && leftVal == p.left && rightVal == p.right && returned == p.returned
              && output == (if p.echoed == [] then old(output) else old(output) + Sent(p.echoed))
              && total == counter + |p.echoed|
    {
      leftVal, rightVal, total := 0, 0, counter;
      if field == [] && flag {
        rightVal := 3;
        return 0, total;
      }
      var i := FormatWidth(field);
      if i < |field| && field[i] != '.' {
        total := Echo(field, i, counter);
        return -1, total;
      }
      if i == |field| {
        return leftVal, total;
      }
      returned, total := FormatPrecision(field, i + 1, counter);
      assert old(output) + [] == old(output);
    }

    /** The second loop of format_val, after the dot. */
    method FormatPrecision(field: string, start: nat, counter: int) returns (returned: int, total: int)
      requires start <= |field| && rightVal == 0
      modifies this`rightVal, this`output
      ensures var t := field[start..]; var j := DigitRun(t);
              && rightVal == Value(t[..j], 10) && returned == (if j == |t| then 0 else -1)
              && output == old(output) + Sent(t[j..]) && total == counter + |t| - j
    {
      total := counter;
      ghost var t := field[start..];
      var i := start;
      while i < |field|
        invariant start <= i <= |field| && rightVal == Value(t[..i - start], 10)
        invariant output == old(output) && forall k :: 0 <= k < i - start ==> IsDigit(t[k])
      {
        if field[i] < '0' || field[i] > '9' {
          RunEnds(t, i - start);
          total := Echo(field, i, counter);
          assert field[i..] == t[i - start..];
          return -1, total;
        }
        ValueNext(t, i - start, 10);
        rightVal := rightVal * 10 + field[i] as int - '0' as int;
        i := i + 1;
      }
      RunEnds(t, i - start);
      return 0, total;
    }

    /** The base, case and sign that each letter selects. An unsigned argument arrives as a long of
        the same bit pattern. */
    method PrintAs(conv: char, value: int, counter: int) returns (total: int)
      requires IsInteger(conv) && (if Signed(conv) then -0x8000_0000 <= value < 0x8000_0000 else 0 <= value < LONG)
      requires |Body(value, Signed(conv), rightVal, Div(conv), Corr(conv))| <= ROOM
      modifies this`output, this`leftVal
      ensures var text := Printed(value, Signed(conv), old(leftVal), rightVal, Div(conv), Corr(conv));
              output == old(output) + text && total == counter + |text|
    {
      var long := if value < 0x8000_0000 then value else value - LONG;
      SamePattern(long, value, Signed(conv), leftVal, rightVal, Div(conv), Corr(conv));
      var div, corr, signed := 8, 0, false;
      if conv == 'd' || conv == 'i' {
        div, signed := 10, true;
      } else if conv == 'u' {
        div := 10;
      } else if conv == 'x' || conv == 'p' {
        div, corr := 16, 0x60;
      } else if conv == 'X' {
        div, corr := 16, 0x40;
      }
      assert div == Div(conv) && corr == Corr(conv) && signed == Signed(conv);
      total := PrintHexOct(long, div, corr, signed, counter);
    }

    /** One integer conversion of _printf: the field between % and the letter, the letter, and the
        argument. */
    method Convert(field: string, conv: char, value: int, counter: int) returns (total: int)
      requires IsInteger(conv) && (if Signed(conv) then -0x8000_0000 <= value < 0x8000_0000 else 0 <= value < LONG)
      requires |Body(value, Signed(conv), Parse(field, false).right, Div(conv), Corr(conv))| <= ROOM
      modifies this
      ensures output == old(output) + Formatted(field, conv, value)
      ensures Parse(field, false).returned != -1 ==> total == counter + |Formatted(field, conv, value)|
      ensures Parse(field, false).returned == -1 ==> total == counter + |Parse(field, false).echoed| + 1
    {
      ghost var p := Parse(field, false);
      ParseRefuses(field, false);
      var returned;
      returned, total := FormatVal(field, counter, false);
      if returned != -1 {
        total := PrintAs(conv, value, total);
      } else {
        Joined(old(output), Sent(p.echoed), [conv]);
        IntegerPlain(conv);
        PutChar(conv);
        total := total + 1;
      }
    }
  }

  lemma IntegerPlain(conv: char)
    requires IsInteger(conv)
    ensures Sent([conv]) == [conv]
  {
    SentPlain([conv]);
  }

  lemma SentNext(s: string, k: nat)
    requires k < |s|
    ensures Sent(s[..k + 1]) == Sent(s[..k]) + Sent([s[k]])
  {
    assert s[..k + 1][..k] == s[..k];
    assert [s[k]][..0] == [];
  }

  lemma {:induction false} SentPlain(s: string)
    requires '\n' !in s
    ensures Sent(s) == s
  {
    if s != [] {
      SentPlain(s[..|s| - 1]);
      assert s == s[..|s| - 1] + [s[|s| - 1]];
    }
  }

  lemma ValueNext(s: string, k: nat, div: nat)
    requires k < |s|
    ensures Value(s[..k + 1], div) == Value(s[..k], div) * div + DigitValue(s[k])
  {
    assert s[..k + 1][..k] == s[..k];
  }

  lemma {:induction false} ZerosOnly(n: int)
    ensures forall k :: 0 <= k < |Zeros(n)| ==> Zeros(n)[k] == '0'
    decreases n
  {
    if n > 0 {
      ZerosOnly(n - 1);
    }
  }

  lemma ReverseZeros(n: int)
    ensures Reverse(Zeros(n)) == Zeros(n)
  {
    ReverseMirrors(Zeros(n));
    ZerosOnly(n);
  }

  lemma BodyPlain(value: int, signed: bool, precision: int, div: nat, corr: nat)
    requires Radix(div, corr)
    ensures var s := Body(value, signed, precision, div, corr); '\0' !in s && '\n' !in s
  {
    ZerosOnly(precision - |Numeral(Magnitude(value, signed), div, corr)|);
  }

  lemma NoTerminator(text: string, body: string)
    requires Reverse(text) == body && '\0' !in body
    ensures '\0' !in text
  {
    ReverseMirrors(text);
    forall k | 0 <= k < |text|
      ensures text[k] != '\0'
    {
      assert text[k] == body[|text| - 1 - k];
    }
  }

  /** A long and an unsigned argument with the same 32-bit pattern print alike. */
  lemma SamePattern(long: int, value: int, signed: bool, width: int, precision: int, div: nat, corr: nat)
    requires Radix(div, corr) && long == (if value < 0x8000_0000 then value else value - LONG)
    requires signed ==> value < 0x8000_0000
    ensures Printed(long, signed, width, precision, div, corr) == Printed(value, signed, width, precision, div, corr)
    ensures Body(long, signed, precision, div, corr) == Body(value, signed, precision, div, corr)
  {
    SameMagnitude(long, value, signed);
  }

  lemma SameMagnitude(long: int, value: int, signed: bool)
    requires long == (if value < 0x8000_0000 then value else value - LONG)
    requires signed ==> value < 0x8000_0000
    ensures Negative(long, signed) == Negative(value, signed) && Magnitude(long, signed) == Magnitude(value, signed)
  {
  }
}
