/** Integer output of vcbprintf (lib/vcbprintf.c:228-339): digits, prefix,
    precision and padding, and what a reader makes of the result. */
module Numerals {
  import opened Words

  const TWO64: nat := 0x1_0000_0000_0000_0000
  /** `(size_t) -1`, "no precision given". */
  const NO_PRECISION: nat := 0xFFFF_FFFF_FFFF_FFFF

  /** Flags, width and precision of a directive. */
  datatype Spec = Spec(hash: bool, minus: bool, plus: bool, space: bool, zero: bool, width: nat, precision: nat)

  function Repeat(c: char, n: nat): (s: string)
    ensures |s| == n && forall d <- s :: d == c
  {
    seq(n, _ => c)
  }

  // ------------------------------------------------------------------ digits

  function DigitChar(d: nat, upper: bool): char
    requires d < 16
  {
    (if upper then "0123456789ABCDEF" else "0123456789abcdef")[d]
  }

  function DigitValue(c: char): nat {
    if '0' <= c <= '9' then c as int - '0' as int
    else if 'a' <= c <= 'f' then c as int - 'a' as int + 10
    else if 'A' <= c <= 'F' then c as int - 'A' as int + 10
    else 0
  }

  lemma DigitRoundTrip(d: nat, upper: bool)
    requires d < 16
    ensures DigitValue(DigitChar(d, upper)) == d
    ensures DigitChar(d, upper) !in " +-xX" && (DigitChar(d, upper) == '0' <==> d == 0)
  {
    var lower, capital := "0123456789abcdef", "0123456789ABCDEF";
    assert d == 0 || d == 1 || d == 2 || d == 3 || d == 4 || d == 5 || d == 6 || d == 7
        || d == 8 || d == 9 || d == 10 || d == 11 || d == 12 || d == 13 || d == 14 || d == 15;
  }

  predicate Base(b: nat) { b == 8 || b == 10 || b == 16 }

  function Digits(value: nat, base: nat, upper: bool): (s: string)
    requires Base(base)
    ensures |s| >= 1
  {
    if value < base then [DigitChar(value, upper)]
    else Digits(value / base, base, upper) + [DigitChar(value % base, upper)]
  }

  /** The number a digit string denotes. */
  function Eval(s: string, base: nat): nat {
    if s == [] then 0 else Eval(s[..|s| - 1], base) * base + DigitValue(s[|s| - 1])
  }

  function Power(b: nat, n: nat): nat { if n == 0 then 1 else b * Power(b, n - 1) }

  /** Digits evaluate to the value, and there is none too many. */
  lemma {:induction false} DigitsExact(value: nat, base: nat, upper: bool)
    requires Base(base)
    ensures Eval(Digits(value, base, upper), base) == value
    ensures value < Power(base, |Digits(value, base, upper)|)
    ensures |Digits(value, base, upper)| > 1 ==> Power(base, |Digits(value, base, upper)| - 1) <= value
    decreases value
  {
    hide DigitChar, DigitValue, Power;
    var s := Digits(value, base, upper);
    if value < base {
      DigitRoundTrip(value, upper);
      assert s[..0] == [];
      PowerStep(base, 1);
      PowerStep(base, 0);
    } else {
      DigitsExact(value / base, base, upper);
      DigitRoundTrip(value % base, upper);
      assert s[..|s| - 1] == Digits(value / base, base, upper);
      PowerStep(base, |s|);
      PowerStep(base, |s| - 1);
      Quotient(value, base, Power(base, |s| - 1), if |s| > 2 then Power(base, |s| - 2) else 1);
      PowerStep(base, 1);
      PowerStep(base, 0);
    }
  }

  lemma PowerStep(b: nat, n: nat)
    ensures Power(b, n) == if n == 0 then 1 else b * Power(b, n - 1)
  {
  }

  lemma Quotient(value: nat, base: nat, p: nat, q: nat)
    requires Base(base) && q <= value / base < p
    ensures value / base * base + value % base == value && value < base * p && base * q <= value
  {
  }

  lemma {:induction false} DigitsClean(value: nat, base: nat, upper: bool)
    requires Base(base)
    ensures forall c <- Digits(value, base, upper) :: c !in " +-xX"
    decreases value
  {
    if value < base { DigitRoundTrip(value, upper); }
    else { DigitsClean(value / base, base, upper); DigitRoundTrip(value % base, upper); }
  }

  lemma {:induction false} PowerMonotone(b: nat, m: nat, n: nat)
    requires m <= n && b > 0
    ensures 0 < Power(b, m) <= Power(b, n)
    decreases n
  {
    if m < n { PowerMonotone(b, m, n - 1); } else if n > 0 { PowerMonotone(b, n - 1, n - 1); }
  }

  /** No digit string of the same base that denotes the value is shorter. */
  lemma Minimal(value: nat, base: nat, upper: bool, n: nat)
    requires Base(base) && value < Power(base, n) && n > 0
    ensures |Digits(value, base, upper)| <= n
  {
    DigitsExact(value, base, upper);
    var k := |Digits(value, base, upper)|;
    if k > n { PowerMonotone(base, n, k - 1); }
  }

  const BUFFER: nat := 21
  const PREFIX_BUFFER: nat := 3

  /** Digits and terminator stay inside `buf`: always in base 10 and 16, and in
      base 8 exactly below 2^60. */
  predicate DigitsFit(value: u64, base: nat) { base != 8 || value < 0x1000_0000_0000_0000 }

  lemma FitsBuffer(value: u64, base: nat, upper: bool)
    requires Base(base)
    ensures |Digits(value, base, upper)| + 1 <= BUFFER <==> DigitsFit(value, base)
  {
    hide Digits, Power;
    Powers();
    if base == 8 && value >= 0x1000_0000_0000_0000 {
      DigitsExact(value, base, upper);
      var k := |Digits(value, base, upper)|;
      if k <= 20 { PowerMonotone(8, k, 20); }
    } else if base == 16 {
      Minimal(value, 16, upper, 16);
    } else {
      Minimal(value, base, upper, 20);
    }
  }

  /** One such number, 2^60: its terminator would be the 22nd character. */
  lemma BufferExample()
    ensures |Digits(0x1000_0000_0000_0000, 8, false)| == 21
  {
    hide Digits, Power;
    FitsBuffer(0x1000_0000_0000_0000, 8, false);
    Powers();
    PowerStep(8, 21);
    Minimal(0x1000_0000_0000_0000, 8, false, 21);
  }

  lemma Powers()
    ensures Power(8, 20) == 0x1000_0000_0000_0000 && Power(16, 16) == TWO64 && Power(10, 20) > TWO64
  {
    assert Power(8, 4) == 4096 && Power(8, 8) == 0x100_0000 && Power(8, 12) == 0x10_0000_0000 && Power(8, 16) == 0x1_0000_0000_0000;
    assert Power(16, 4) == 0x1_0000 && Power(16, 8) == 0x1_0000_0000 && Power(16, 12) == 0x1_0000_0000_0000;
    assert Power(10, 4) == 10000 && Power(10, 8) == 100000000 && Power(10, 12) == 1000000000000 && Power(10, 16) == 10000000000000000;
  }

  lemma DigitsStep(value: nat, base: nat, upper: bool)
    requires Base(base)
    ensures value < base ==> Digits(value, base, upper) == [DigitChar(value % base, upper)]
    ensures value >= base ==>
      Digits(value, base, upper) == Digits(value / base, base, upper) + [DigitChar(value % base, upper)] && |Digits(value, base, upper)| > 1
  {
    hide DigitChar;
  }

  /** The digits are counted before any is written. */
  method CountDigits(value: u64, base: nat, ghost upper: bool) returns (length: nat)
    requires Base(base)
    ensures length == |Digits(value, base, upper)|
  {
    hide Digits, DigitChar;
    var copy: nat := value;
    length := 1;
    while base <= copy
      invariant 1 <= length && |Digits(value, base, upper)| == length - 1 + |Digits(copy, base, upper)|
    {
      DigitsStep(copy, base, upper);
      copy := copy / base;
      length := length + 1;
    }
    DigitsStep(copy, base, upper);
  }

  /** The digits are filled in from the right; false is a write behind the buffer. */
  method Fill(buf: array<char>, length: nat, value: u64, base: nat, upper: bool) returns (ok: bool)
    requires Base(base) && length == |Digits(value, base, upper)|
    modifies buf
    ensures ok <==> length <= buf.Length
    ensures ok ==> buf[..length] == Digits(value, base, upper)
  {
    hide Digits, DigitChar;
    var rest: nat := value;
    var i := length;
    while i > 0
      invariant 0 <= i <= length
      invariant i > 0 ==> i == |Digits(rest, base, upper)|
      invariant i < length ==> length <= buf.Length
      invariant length <= buf.Length ==>
        Digits(value, base, upper) == (if i > 0 then Digits(rest, base, upper) else []) + buf[i..length]
    {
      DigitsStep(rest, base, upper);
      i := i - 1;
      if i >= buf.Length { return false; }
      ghost var tail := buf[i + 1..length];
      buf[i] := DigitChar(rest % base, upper);
      assert buf[i..length] == [DigitChar(rest % base, upper)] + tail;
      rest := rest / base;
    }
    assert buf[0..length] == buf[..length];
    return true;
  }

  /** Digits and terminator in a buffer of 21 characters; None is a write behind its end. */
  method Convert(value: u64, base: nat, upper: bool) returns (s: Option<string>)
    requires Base(base)
    ensures s == if DigitsFit(value, base) then Some(Digits(value, base, upper)) else None
  {
    hide Digits, DigitsFit;
    var length := CountDigits(value, base, upper);
    FitsBuffer(value, base, upper);
    var buf := new char[BUFFER];
    var ok := Fill(buf, length, value, base, upper);
    if !ok || length >= buf.Length { return None; }
    ghost var digits := buf[..length];
    buf[length] := '\0';
    assert buf[..length] == digits;
    s := Some(buf[..length]);
  }

  // ------------------------------------------------------------------ layout

  function Sign(spec: Spec, negative: bool): string {
    if negative then "-" else if spec.plus then "+" else if spec.space then " " else ""
  }

  function BaseMark(spec: Spec, specifier: char): string {
    if spec.hash && (specifier == 'x' || specifier == 'X') then ['0', specifier]
    else if spec.hash && specifier == 'o' then "0" else ""
  }

  /** The sign, and with '#' the base. */
  function Prefix(spec: Spec, negative: bool, specifier: char): string {
    Sign(spec, negative) + BaseMark(spec, specifier)
  }

  /** Prefix and terminator stay inside `prefix` except for a sign together with
      '#' in hexadecimal. */
  predicate PrefixFits(spec: Spec, negative: bool, specifier: char) {
    !((negative || spec.plus || spec.space) && spec.hash && (specifier == 'x' || specifier == 'X'))
  }

  lemma FitsPrefix(spec: Spec, negative: bool, specifier: char)
    ensures |Prefix(spec, negative, specifier)| + 1 <= PREFIX_BUFFER <==> PrefixFits(spec, negative, specifier)
  {
  }

  /** One such prefix. */
  lemma PrefixExample()
    ensures Prefix(Spec(true, false, true, false, false, 0, NO_PRECISION), false, 'x') == "+0x"
  {
  }

  /** The prefix, character by character into a buffer of three, and terminated;
      None is a write behind its end. */
  method BuildPrefix(spec: Spec, negative: bool, specifier: char) returns (p: Option<string>)
    ensures p == if PrefixFits(spec, negative, specifier) then Some(Prefix(spec, negative, specifier)) else None
  {
    var prefix := new char[PREFIX_BUFFER];
    var length := 0;
    if negative {
      prefix[0], length := '-', 1;
    } else if spec.plus {
      prefix[0], length := '+', 1;
    } else if spec.space {
      prefix[0], length := ' ', 1;
    }
    assert prefix[..length] == Sign(spec, negative);
    if spec.hash && (specifier == 'x' || specifier == 'X') {
      prefix[length], prefix[length + 1] := '0', specifier;
      length := length + 2;
    } else if spec.hash && specifier == 'o' {
      prefix[length] := '0';
      length := length + 1;
    }
    assert prefix[..length] == Prefix(spec, negative, specifier);
    if length >= prefix.Length { return None; }
    prefix[length] := '\0';
    p := Some(prefix[..length]);
  }

  function Printed(spec: Spec, digits: string): nat {
    if spec.precision != NO_PRECISION && spec.precision > |digits| then spec.precision else |digits|
  }

  /** The padding, computed in size_t. */
  function Pad(spec: Spec, prefix: string, digits: string): nat {
    var total := (Printed(spec, digits) + |prefix|) % TWO64;
    if total > spec.width then 0 else spec.width - total
  }

  function Layout(spec: Spec, prefix: string, digits: string): string {
    var pad := Pad(spec, prefix, digits);
    (if !spec.zero then Repeat(' ', pad) else [])
    + prefix
    + (if spec.zero && !spec.minus then Repeat('0', pad) else [])
    + Repeat('0', Printed(spec, digits) - |digits|)
    + digits
    + (if spec.minus then Repeat(' ', pad) else [])
  }

  /** The calls of the callback, in order. */
  method Emit(spec: Spec, prefix: string, digits: string) returns (out: string)
    ensures out == Layout(spec, prefix, digits)
  {
    hide Repeat, Pad, Printed;
    var printed, pad := Widths(spec, prefix, digits);
    out := [];
    if !spec.zero { out := PutRepeated(out, ' ', pad); }
    out := out + prefix;
    if spec.zero && !spec.minus { out := PutRepeated(out, '0', pad); }
    out := EmitNumber(out, digits, printed);
    if spec.minus { out := PutRepeated(out, ' ', pad); }
  }

  method Widths(spec: Spec, prefix: string, digits: string) returns (printed: nat, pad: nat)
    ensures printed == Printed(spec, digits) >= |digits| && pad == Pad(spec, prefix, digits)
  {
    printed := if spec.precision != NO_PRECISION && spec.precision > |digits| then spec.precision else |digits|;
    var total := (printed + |prefix|) % TWO64;
    pad := if total > spec.width then 0 else spec.width - total;
  }

  method EmitNumber(before: string, digits: string, printed: nat) returns (out: string)
    requires printed >= |digits|
    ensures out == before + Repeat('0', printed - |digits|) + digits
  {
    out := before;
    if printed > |digits| { out := PutRepeated(out, '0', printed - |digits|); }
    out := out + digits;
  }

  method PutRepeated(out: string, c: char, n: nat) returns (r: string)
    ensures r == out + Repeat(c, n)
  {
    r := out;
    for i := 0 to n
      invariant r == out + Repeat(c, i)
    {
      r := r + [c];
    }
  }

  function Max(x: nat, y: nat): nat { if x < y then y else x }

  /** The digits, filled up with zeros to the precision. */
  lemma PrintedIsLarger(spec: Spec, digits: string)
    ensures Printed(spec, digits) == if spec.precision == NO_PRECISION then |digits| else Max(|digits|, spec.precision)
  {
  }

  /** The width law, and exactly when '-' breaks it: space padding is then put
      on both sides. */
  lemma WidthLaw(spec: Spec, prefix: string, digits: string)
    requires |prefix| + Max(|digits|, if spec.precision == NO_PRECISION then 0 else spec.precision) < TWO64
    ensures var contents := |prefix| + Max(|digits|, if spec.precision == NO_PRECISION then 0 else spec.precision);
      && (|Layout(spec, prefix, digits)| == Max(spec.width, contents) <==> !(spec.minus && !spec.zero && spec.width > contents))
      && |Layout(spec, prefix, digits)| >= spec.width
  {
    hide Printed, Repeat;
    PrintedIsLarger(spec, digits);
  }

  /** One such output: 5 in a field of three, left-justified, takes five characters. */
  lemma WidthExample()
    ensures Layout(Spec(false, true, false, false, false, 3, NO_PRECISION), "", "5") == "  5  "
  {
  }

  /** The output is as long as the digits alone exactly when nothing is added. */
  lemma LayoutLength(spec: Spec, prefix: string, digits: string)
    requires |digits| < TWO64
    ensures |Layout(spec, prefix, digits)| >= |digits|
    ensures |Layout(spec, prefix, digits)| == |digits| <==>
      prefix == "" && (spec.precision == NO_PRECISION || spec.precision <= |digits|) && spec.width <= |digits|
  {
  }

  lemma WideEnough(spec: Spec, prefix: string, digits: string)
    ensures |Layout(spec, prefix, digits)| >= spec.width
  {
  }

  // ------------------------------------------------------------------ reading back

  function SkipSpaces(s: string): string { if s != [] && s[0] == ' ' then SkipSpaces(s[1..]) else s }
  function DropSpaces(s: string): string { if s != [] && s[|s| - 1] == ' ' then DropSpaces(s[..|s| - 1]) else s }

  /** A reader: spaces around the number, a sign, 0x in base 16, digits. */
  function ReadInteger(s: string, base: nat): int {
    var t := DropSpaces(SkipSpaces(s));
    if t != [] && t[0] == '-' then 0 - ReadMagnitude(t[1..], base)
    else if t != [] && t[0] == '+' then ReadMagnitude(t[1..], base)
    else ReadMagnitude(t, base)
  }

  function ReadMagnitude(t: string, base: nat): nat {
    if base == 16 && |t| > 1 && t[0] == '0' && t[1] in "xX" then Eval(t[2..], base) else Eval(t, base)
  }

  lemma {:induction false} SkipRepeated(n: nat, s: string)
    ensures SkipSpaces(Repeat(' ', n) + s) == SkipSpaces(s)
    decreases n
  {
    if n > 0 {
      assert (Repeat(' ', n) + s)[1..] == Repeat(' ', n - 1) + s;
      SkipRepeated(n - 1, s);
    } else {
      assert Repeat(' ', 0) + s == s;
    }
  }

  lemma {:induction false} DropRepeated(s: string, n: nat)
    ensures DropSpaces(s + Repeat(' ', n)) == DropSpaces(s)
    decreases n
  {
    if n > 0 {
      assert (s + Repeat(' ', n))[..|s| + n - 1] == s + Repeat(' ', n - 1);
      DropRepeated(s, n - 1);
    } else {
      assert s + Repeat(' ', 0) == s;
    }
  }

  lemma {:induction false} LeadingZeros(n: nat, s: string, base: nat)
    ensures Eval(Repeat('0', n) + s, base) == Eval(s, base)
    decreases |s|, n
  {
    if s != [] {
      var t := Repeat('0', n) + s;
      assert t[..|t| - 1] == Repeat('0', n) + s[..|s| - 1];
      LeadingZeros(n, s[..|s| - 1], base);
    } else if n > 0 {
      var t := Repeat('0', n) + s;
      assert t == Repeat('0', n) && t[..n - 1] == Repeat('0', n - 1) + s;
      LeadingZeros(n - 1, s, base);
    } else {
      assert Repeat('0', 0) + s == s;
    }
  }

  /** What is printed denotes the argument, with every combination of flags that
      the two buffers hold. */
  lemma ReadsBack(spec: Spec, negative: bool, specifier: char, value: u64, base: nat, upper: bool)
    requires DigitsFit(value, base) && PrefixFits(spec, negative, specifier)
    requires Base(base) && (base == 16 <==> specifier in "xX") && (base == 8 <==> specifier == 'o')
    ensures ReadInteger(Layout(spec, Prefix(spec, negative, specifier), Digits(value, base, upper)), base)
         == if negative then 0 - value else value
  {
    hide Digits, Eval, Layout, Prefix, Repeat, DropSpaces, SkipSpaces, Left, Right, Zeros;
    var digits, prefix := Digits(value, base, upper), Prefix(spec, negative, specifier);
    var left, zeros, right := Left(spec, prefix, digits), Zeros(spec, prefix, digits), Right(spec, prefix, digits);
    var body := Repeat('0', zeros) + digits;
    LayoutShape(spec, prefix, digits);
    SkipRepeated(left, prefix + body + Repeat(' ', right));
    DigitsClean(value, base, upper);
    Clean(zeros, digits);
    LeadingZeros(zeros, digits, base);
    DigitsExact(value, base, upper);
    ReadBody(spec, negative, specifier, body, right, base);
  }

  function Left(spec: Spec, prefix: string, digits: string): nat { if spec.zero then 0 else Pad(spec, prefix, digits) }
  function Right(spec: Spec, prefix: string, digits: string): nat { if spec.minus then Pad(spec, prefix, digits) else 0 }
  function Zeros(spec: Spec, prefix: string, digits: string): nat {
    (if spec.zero && !spec.minus then Pad(spec, prefix, digits) else 0) + Printed(spec, digits) - |digits|
  }

  /** Blanks, prefix, zeros, digits, blanks. */
  lemma LayoutShape(spec: Spec, prefix: string, digits: string)
    ensures Layout(spec, prefix, digits) == Repeat(' ', Left(spec, prefix, digits))
      + (prefix + (Repeat('0', Zeros(spec, prefix, digits)) + digits) + Repeat(' ', Right(spec, prefix, digits)))
  {
    hide Pad;
    var pad, more := Pad(spec, prefix, digits), Printed(spec, digits) - |digits|;
    assert Repeat('0', pad + more) == Repeat('0', pad) + Repeat('0', more);
  }

  lemma ReadBody(spec: Spec, negative: bool, specifier: char, body: string, right: nat, base: nat)
    requires body != [] && (forall c <- body :: c !in " +-xX")
    requires (base == 16 <==> specifier in "xX") && (base == 8 <==> specifier == 'o')
    ensures ReadInteger(Prefix(spec, negative, specifier) + body + Repeat(' ', right), base)
         == if negative then 0 - Eval(body, base) else Eval(body, base)
  {
    hide Eval, ReadMagnitude, ReadInteger, Repeat;
    var sign, marked := Sign(spec, negative), BaseMark(spec, specifier) + body;
    ReadMarked(spec, specifier, body, base);
    assert body[0] in body && body[|body| - 1] in body;
    assert marked[|marked| - 1] == body[|body| - 1];
    assert Prefix(spec, negative, specifier) + body + Repeat(' ', right) == sign + marked + Repeat(' ', right);
    ReadSigned(sign, marked, right, base);
  }

  lemma ReadSigned(sign: string, marked: string, right: nat, base: nat)
    requires sign in {"", " ", "+", "-"} && marked != [] && marked[0] !in " +-" && marked[|marked| - 1] != ' '
    ensures ReadInteger(sign + marked + Repeat(' ', right), base)
         == if sign == "-" then 0 - ReadMagnitude(marked, base) else ReadMagnitude(marked, base)
  {
    hide ReadMagnitude, SkipSpaces, DropSpaces, Repeat;
    Stripped(sign, marked, right);
    var t := if sign == " " then marked else sign + marked;
    if sign == "" || sign == " " {
      assert t == marked;
    } else {
      assert t[0] == sign[0] && t[1..] == marked;
    }
  }

  lemma ReadMarked(spec: Spec, specifier: char, body: string, base: nat)
    requires body != [] && (forall c <- body :: c !in " +-xX")
    requires (base == 16 <==> specifier in "xX") && (base == 8 <==> specifier == 'o')
    ensures ReadMagnitude(BaseMark(spec, specifier) + body, base) == Eval(body, base)
  {
    hide Eval, Repeat;
    var t := BaseMark(spec, specifier) + body;
    if spec.hash && base == 16 {
      assert t[2..] == body;
    } else if spec.hash && base == 8 {
      OneZero(body, base);
    } else {
      assert t == body;
      assert |body| > 1 ==> body[1] in body;
    }
  }

  lemma OneZero(body: string, base: nat)
    ensures Eval("0" + body, base) == Eval(body, base)
  {
    assert "0" == Repeat('0', 1);
    LeadingZeros(1, body, base);
  }

  lemma Clean(zeros: nat, digits: string)
    requires digits != [] && forall c <- digits :: c !in " +-xX"
    ensures var body := Repeat('0', zeros) + digits; body != [] && forall c <- body :: c !in " +-xX"
  {
  }

  /** Blanks around a number disappear, a blank in place of the sign too. */
  lemma Stripped(sign: string, marked: string, right: nat)
    requires sign in {"", " ", "+", "-"} && marked != [] && marked[0] != ' ' && marked[|marked| - 1] != ' '
    ensures DropSpaces(SkipSpaces(sign + marked + Repeat(' ', right))) == (if sign == " " then marked else sign + marked)
  {
    var t := if sign == " " then marked else sign + marked;
    var s := sign + marked + Repeat(' ', right);
    if sign == " " { assert s[1..] == t + Repeat(' ', right); } else { assert s == t + Repeat(' ', right); }
    assert t[|t| - 1] == marked[|marked| - 1];
    DropRepeated(t, right);
  }

  // ------------------------------------------------------------------ what the flags show

  /** Digits above nine are capital letters in one alphabet and small ones in the other. */
  lemma {:induction false} DigitsAlphabet(value: nat, base: nat, upper: bool)
    requires Base(base)
    ensures forall c <- Digits(value, base, upper) :: '0' <= c <= '9' || (if upper then 'A' <= c <= 'F' else 'a' <= c <= 'f')
    decreases value
  {
    hide DigitChar;
    DigitsStep(value, base, upper);
    if value >= base { DigitsAlphabet(value / base, base, upper); }
    DigitAlphabet(value % base, upper);
  }

  lemma DigitAlphabet(d: nat, upper: bool)
    requires d < 16
    ensures var c := DigitChar(d, upper); '0' <= c <= '9' || (if upper then 'A' <= c <= 'F' else 'a' <= c <= 'f')
  {
    assert d == 0 || d == 1 || d == 2 || d == 3 || d == 4 || d == 5 || d == 6 || d == 7
        || d == 8 || d == 9 || d == 10 || d == 11 || d == 12 || d == 13 || d == 14 || d == 15;
  }

  /** What a reader sees of the flags. A negative number shows '-', any other one
      '+' with the flag '+', and no sign without it; with the flag ' ' alone it
      starts with a blank. With '#' the base follows the sign. With '0' and not
      '-' the only blank is the one that stands for the sign. */
  lemma FlagsShown(spec: Spec, negative: bool, specifier: char, value: nat, base: nat, upper: bool)
    requires Base(base) && (base == 16 <==> specifier in "xX") && (base == 8 <==> specifier == 'o')
    ensures var text := Layout(spec, Prefix(spec, negative, specifier), Digits(value, base, upper));
      var shown := SkipSpaces(text);
      && shown != []
      && (shown[0] == '-' <==> negative) && (shown[0] == '+' <==> !negative && spec.plus)
      && (!negative && !spec.plus && spec.space ==> text[0] == ' ')
      && (spec.hash && base == 8 ==> '0' in shown && shown[if shown[0] in "+-" then 1 else 0] == '0')
      && (spec.hash && base == 16 ==> |shown| >= 3 && shown[if shown[0] in "+-" then 1 else 0..][..2] == ['0', specifier])
      && (spec.zero && !spec.minus ==>
            ' ' !in shown && text == (if !negative && !spec.plus && spec.space then " " else "") + shown)
  {
    hide Digits, Layout, Prefix, Repeat, DropSpaces, SkipSpaces, Left, Right, Zeros;
    var digits, prefix := Digits(value, base, upper), Prefix(spec, negative, specifier);
    var left, zeros, right := Left(spec, prefix, digits), Zeros(spec, prefix, digits), Right(spec, prefix, digits);
    var body := Repeat('0', zeros) + digits;
    LayoutShape(spec, prefix, digits);
    SkipRepeated(left, prefix + body + Repeat(' ', right));
    DigitsClean(value, base, upper);
    Clean(zeros, digits);
    Margins(spec, prefix, digits);
    ShownBody(spec, negative, specifier, body, left, right, base);
  }

  lemma Margins(spec: Spec, prefix: string, digits: string)
    ensures spec.zero ==> Left(spec, prefix, digits) == 0
    ensures !spec.minus ==> Right(spec, prefix, digits) == 0
  {
  }

  lemma ShownBody(spec: Spec, negative: bool, specifier: char, body: string, left: nat, right: nat, base: nat)
    requires body != [] && (forall c <- body :: c !in " +-xX")
    requires (base == 16 <==> specifier in "xX") && (base == 8 <==> specifier == 'o')
    ensures var text := Repeat(' ', left) + (Prefix(spec, negative, specifier) + body + Repeat(' ', right));
      var shown := SkipSpaces(Prefix(spec, negative, specifier) + body + Repeat(' ', right));
      && shown != []
      && (shown[0] == '-' <==> negative) && (shown[0] == '+' <==> !negative && spec.plus)
      && (!negative && !spec.plus && spec.space ==> text[0] == ' ')
      && (spec.hash && base == 8 ==> '0' in shown && shown[if shown[0] in "+-" then 1 else 0] == '0')
      && (spec.hash && base == 16 ==> |shown| >= 3 && shown[if shown[0] in "+-" then 1 else 0..][..2] == ['0', specifier])
      && (left == 0 && right == 0 ==> ' ' !in shown && text == (if !negative && !spec.plus && spec.space then " " else "") + shown)
  {
    hide Repeat, SkipSpaces;
    var sign, mark := Sign(spec, negative), BaseMark(spec, specifier);
    var rest := mark + body + Repeat(' ', right);
    assert Prefix(spec, negative, specifier) + body + Repeat(' ', right) == sign + rest;
    assert body[0] in body && rest[0] == (if mark == "" then body[0] else '0');
    SkipSign(sign, rest);
    var shown := if sign == " " then rest else sign + rest;
    assert sign != "" && sign != " " ==> shown[0] == sign[0] && shown[1..] == rest;
    if spec.hash && base == 16 { assert rest[..2] == mark; }
    NoRepeat(' ');
    if left > 0 { assert Repeat(' ', left)[0] in Repeat(' ', left); }
    assert Repeat(' ', left) + (sign + rest) == (if left == 0 then sign + rest else Repeat(' ', left) + (sign + rest));
  }

  lemma NoRepeat(c: char)
    ensures Repeat(c, 0) == []
  {
  }

  lemma SkipSign(sign: string, rest: string)
    requires sign in {"", " ", "+", "-"} && rest != [] && rest[0] != ' '
    ensures SkipSpaces(sign + rest) == if sign == " " then rest else sign + rest
  {
    if sign == " " { assert (sign + rest)[1..] == rest; } else if sign == "" { assert sign + rest == rest; }
  }
}
