/** vcbprintf (lib/vcbprintf.c), with a callback that takes whatever it is given,
    as both callbacks of the repository do: the format loop with its rewinding
    gotos refines a directive-by-directive reading of the format. */
module Printf {
  import opened Words
  import opened Numerals

  /** A NUL-terminated format, without its NUL. */
  type Format = f: string | '\0' !in f witness ""

  /** The variable arguments: 64-bit slots, and the strings that pointers name. */
  datatype Args = Args(slot: nat -> u64, text: u64 -> string)

  function Char(f: Format, i: nat): char { if i < |f| then f[i] else '\0' }

  predicate IsDigit(c: char) { '0' <= c <= '9' }
  predicate IsFlag(c: char) { c == '#' || c == '-' || c == '+' || c == ' ' || c == '0' }
  predicate IsLetter(c: char) { 'A' <= c <= 'Z' || 'a' <= c <= 'z' || c == '%' }

  // ------------------------------------------------------------------ the pieces of a directive

  function FlagEnd(f: Format, i: nat): (j: nat)
    requires i <= |f|
    ensures i <= j <= |f|
    decreases |f| - i
  {
    if IsFlag(Char(f, i)) then FlagEnd(f, i + 1) else i
  }

  function DigitEnd(f: Format, i: nat): (j: nat)
    requires i <= |f|
    ensures i <= j <= |f|
    decreases |f| - i
  {
    if IsDigit(Char(f, i)) then DigitEnd(f, i + 1) else i
  }

  /** The decimal number at f[i..j], in size_t. */
  function Decimal(f: Format, i: nat, j: nat): nat
    requires i <= j <= |f| && forall k | i <= k < j :: IsDigit(f[k])
    decreases j - i
  {
    if i == j then 0 else (Decimal(f, i, j - 1) * 10 + (f[j - 1] as int - '0' as int)) % TWO64
  }

  datatype Length = Char2 | Short | Default | Long | LongLong | LongDouble | IntMax | Size | PtrDiff

  const MODIFIERS: seq<(string, Length)> := [
    ("hh", Char2), ("h", Short), ("", Default), ("l", Long), ("ll", LongLong),
    ("L", LongDouble), ("j", IntMax), ("z", Size), ("t", PtrDiff)]

  /** The modifier at f[i..], the longest one that fits. */
  function Modifier(f: Format, i: nat): (Length, nat)
    requires i <= |f|
  {
    var c, d := Char(f, i), Char(f, i + 1);
    if c == 'h' then (if d == 'h' then (Char2, 2) else (Short, 1))
    else if c == 'l' then (if d == 'l' then (LongLong, 2) else (Long, 1))
    else if c == 'L' then (LongDouble, 1)
    else if c == 'j' then (IntMax, 1)
    else if c == 'z' then (Size, 1)
    else if c == 't' then (PtrDiff, 1)
    else (Default, 0)
  }

  /** A parsed directive: `at` is the index of its conversion character and
      `taken` counts the arguments a '*' used. */
  datatype Directive = Directive(spec: Spec, length: Length, at: nat, taken: nat)

  /** `(size_t) va_arg(args, int)` */
  function IntAsSize(slot: u64): nat {
    var low := slot % 0x1_0000_0000;
    if low < 0x8000_0000 then low else low + (TWO64 - 0x1_0000_0000)
  }

  lemma {:induction false} DigitsRun(f: Format, i: nat, k: nat)
    requires i <= |f| && i <= k < DigitEnd(f, i)
    ensures IsDigit(f[k])
    decreases |f| - i
  {
    if i < k { DigitsRun(f, i + 1, k); }
  }

  lemma AllDigits(f: Format, i: nat)
    requires i <= |f|
    ensures forall k | i <= k < DigitEnd(f, i) :: IsDigit(f[k])
  {
    forall k | i <= k < DigitEnd(f, i) ensures IsDigit(f[k]) { DigitsRun(f, i, k); }
  }

  function Number(f: Format, i: nat): nat
    requires i <= |f|
  {
    AllDigits(f, i);
    Decimal(f, i, DigitEnd(f, i))
  }

  /** Reads the directive whose '%' is at i. */
  function Parse(f: Format, i: nat, a: Args, next: nat): (d: Directive)
    requires i < |f| && f[i] == '%'
    ensures i < d.at <= |f|
  {
    var p := FlagEnd(f, i + 1);
    var flags := f[i + 1..p];
    var q := DigitEnd(f, p);
    var star := Char(f, q) == '*';
    var width := if star then IntAsSize(a.slot(next)) else Number(f, p);
    var q := if star then q + 1 else q;
    var dot := Char(f, q) == '.';
    var r := if dot then DigitEnd(f, q + 1) else q;
    var precision := if dot then Number(f, q + 1) else NO_PRECISION;
    var (length, n) := Modifier(f, r);
    Directive(Spec('#' in flags, '-' in flags, '+' in flags, ' ' in flags, '0' in flags, width, precision),
              length, r + n, if star then 1 else 0)
  }

  // ------------------------------------------------------------------ the conversions

  /** int and unsigned int for hh, h and none; long has 32 bits on the build's
      target; the rest have 64. */
  predicate Wide(length: Length) { length in {LongLong, IntMax, Size, PtrDiff} }

  function Unsigned(slot: u64, length: Length): u64 { if Wide(length) then slot else slot % 0x1_0000_0000 }

  function Signed(slot: u64, length: Length): int {
    if Wide(length) then (if slot < 0x8000_0000_0000_0000 then slot else slot as int - TWO64)
    else var low := slot % 0x1_0000_0000; if low < 0x8000_0000 then low else low as int - 0x1_0000_0000
  }

  predicate IsIntegerConversion(c: char) { c in "diopuxX" }

  function BaseOf(specifier: char): nat {
    if specifier == 'X' || specifier == 'x' then 16 else if specifier == 'o' then 8 else 10
  }

  /** The specifier the rest of the code works with. */
  function Specifier(c: char): char { if c == 'p' then 'x' else c }

  /** The argument an integer conversion reads. */
  function Argument(c: char, length: Length, slot: u64): int {
    if c == 'p' then slot else if c == 'd' || c == 'i' then Signed(slot, length) else Unsigned(slot, length)
  }

  function Absolute(v: int): nat { if v < 0 then 0 - v else v }

  /** The digits of the argument. */
  function ArgumentDigits(c: char, length: Length, slot: u64): string
    requires IsIntegerConversion(c)
  {
    Digits(Absolute(Argument(c, length, slot)), BaseOf(Specifier(c)), c == 'X')
  }

  /** One integer conversion: prefix, digits and padding. */
  function Integer(spec: Spec, c: char, length: Length, slot: u64): string
    requires IsIntegerConversion(c)
  {
    Layout(spec, Prefix(spec, Argument(c, length, slot) < 0, Specifier(c)), ArgumentDigits(c, length, slot))
  }

  /** Digits, prefix and their terminators stay inside the two buffers: no octal
      number from 2^60 on, and no '+' or ' ' together with '#' in hexadecimal. */
  predicate IntegerFits(spec: Spec, c: char, length: Length, slot: u64) {
    && (c == 'o' ==> Unsigned(slot, length) < 0x1000_0000_0000_0000)
    && !(c in "pxX" && spec.hash && (spec.plus || spec.space))
  }

  lemma FitsBoth(spec: Spec, c: char, length: Length, slot: u64)
    requires IsIntegerConversion(c)
    ensures var v := Argument(c, length, slot);
      && -0x8000_0000_0000_0000 <= v < TWO64
      && (IntegerFits(spec, c, length, slot) <==>
            PrefixFits(spec, v < 0, Specifier(c)) && DigitsFit(Absolute(v), BaseOf(Specifier(c))))
  {
    Magnitude(slot, length);
  }

  datatype Conversion = Bad | Overrun | Good(text: string, taken: nat, counted: nat)

  /** What one directive prints, how many arguments it takes after a '*', and how
      many characters it adds to the return value. */
  function Apply(f: Format, d: Directive, a: Args, next: nat): Conversion
    requires d.at <= |f|
  {
    var c := Char(f, d.at);
    if c == '%' then Good("%", 0, 0)
    else if c == 's' then
      var s := a.text(a.slot(next));
      var s := if d.spec.precision < |s| then s[..d.spec.precision] else s;
      Good(s, 1, |s|)
    else if c == 'c' then Good([(a.slot(next) % 256) as char], 1, 1)
    else if IsIntegerConversion(c) && (c == 'p' || d.length != LongDouble) then
      if IntegerFits(d.spec, c, d.length, a.slot(next))
      then Good(Integer(d.spec, c, d.length, a.slot(next)), 1, |ArgumentDigits(c, d.length, a.slot(next))|)
      else Overrun
    else Bad
  }

  /** What that means for the caller. Unknown are exactly the letters outside the
      list and 'L' on an integer. A string comes out as its longest prefix within
      the precision, a character as its low byte, an integer as something that
      reads back as the argument, unless it overruns a buffer. */
  lemma ConversionMeaning(f: Format, d: Directive, a: Args, next: nat)
    requires d.at <= |f|
    ensures var c, r, slot := Char(f, d.at), Apply(f, d, a, next), a.slot(next);
      && (r.Bad? <==> c !in "%scdiopuxX" || (c in "diouxX" && d.length == LongDouble))
      && (r.Overrun? <==> !r.Bad? && c in "diopuxX" && !IntegerFits(d.spec, c, d.length, slot))
      && (r.Good? && c in "diopuxX" ==>
            && ReadInteger(r.text, BaseOf(Specifier(c))) == Argument(c, d.length, slot)
            && r.counted == |ArgumentDigits(c, d.length, slot)| && |r.text| >= d.spec.width)
      && (c == 's' ==> r.Good? && r.text <= a.text(slot) && r.counted == |r.text| == Min(|a.text(slot)|, d.spec.precision))
      && (c == 'c' ==> r == Good([(slot % 256) as char], 1, 1))
      && (c == '%' ==> r == Good("%", 0, 0))
  {
    hide Integer, ReadInteger, ArgumentDigits, IntegerFits;
    var c := Char(f, d.at);
    if IsIntegerConversion(c) && (c == 'p' || d.length != LongDouble) && IntegerFits(d.spec, c, d.length, a.slot(next)) {
      IntegerReadsBack(d.spec, c, d.length, a.slot(next));
    }
  }

  // ------------------------------------------------------------------ the meaning of a format

  /** Verbatim, with each pair %% printed as one %. */
  function Unescape(f: Format, i: nat): string
    requires i <= |f|
    decreases |f| - i
  {
    if i == |f| then []
    else if f[i] == '%' && Char(f, i + 1) == '%' then "%" + Unescape(f, i + 2)
    else [f[i]] + Unescape(f, i + 1)
  }

  /** What a format puts out, and how much of it the return value counts. */
  datatype Output = Spoilt | Printed(text: string, counted: nat) {
    function After(text: string, counted: nat): Output {
      match this
      case Spoilt => Spoilt
      case Printed(t, n) => Output.Printed(text + t, counted + n)
    }
  }

  function Verbatim(f: Format, i: nat): Output
    requires i <= |f|
  {
    Printed(Unescape(f, i), |Unescape(f, i)|)
  }

  /** Directive by directive; from the first unknown one on, the rest is
      unescaped. A directive that overruns a buffer spoils everything. */
  function Render(f: Format, i: nat, a: Args, next: nat): Output
    requires i <= |f|
    decreases |f| - i
  {
    if i == |f| then Printed([], 0)
    else if f[i] != '%' then Render(f, i + 1, a, next).After([f[i]], 1)
    else if Char(f, i + 1) == '%' then Render(f, i + 2, a, next).After("%", 1)
    else
      var d := Parse(f, i, a, next);
      match Apply(f, d, a, next + d.taken)
      case Bad => Verbatim(f, i)
      case Overrun => Spoilt
      case Good(text, taken, counted) => Render(f, d.at + 1, a, next + d.taken + taken).After(text, counted)
  }

  predicate Plain(f: Format, i: nat, j: nat)
    requires i <= j <= |f|
  {
    forall k | i <= k < j :: f[k] != '%'
  }

  /** A block without '%' goes out as it is, in either mode. */
  lemma {:induction false} PlainBlock(f: Format, i: nat, j: nat, a: Args, next: nat)
    requires i <= j <= |f| && Plain(f, i, j)
    ensures Render(f, i, a, next) == Render(f, j, a, next).After(f[i..j], j - i)
    ensures Unescape(f, i) == f[i..j] + Unescape(f, j)
    decreases j - i
  {
    hide Render, Unescape;
    if i < j {
      PlainChar(f, i, a, next);
      PlainBlock(f, i + 1, j, a, next);
      assert f[i..j] == [f[i]] + f[i + 1..j];
      Associate(Render(f, j, a, next), [f[i]], 1, f[i + 1..j], j - i - 1);
    } else {
      assert f[i..j] == [];
      AfterNothing(Render(f, j, a, next));
    }
  }

  lemma Associate(o: Output, a: string, m: nat, b: string, n: nat)
    ensures o.After(b, n).After(a, m) == o.After(a + b, m + n)
  {
    if o.Printed? { assert a + (b + o.text) == (a + b) + o.text; }
  }

  lemma AfterNothing(o: Output)
    ensures o.After([], 0) == o
  {
    if o.Printed? { assert [] + o.text == o.text; }
  }

  lemma PlainChar(f: Format, i: nat, a: Args, next: nat)
    requires i < |f| && f[i] != '%'
    ensures Render(f, i, a, next) == Render(f, i + 1, a, next).After([f[i]], 1)
    ensures Unescape(f, i) == [f[i]] + Unescape(f, i + 1)
  {
  }

  /** One '%' printed as such, then a block: the escaped pair in either mode,
      and any other '%' once a conversion was unknown. */
  lemma PercentBlock(f: Format, i: nat, j: nat, a: Args, next: nat)
    requires i < j <= |f| && f[i] == '%' && Plain(f, i + 1, j)
    ensures Char(f, i + 1) != '%' ==> Unescape(f, i) == f[i..j] + Unescape(f, j)
    ensures i > 0 && f[i - 1] == '%' ==>
      Render(f, i - 1, a, next) == Render(f, j, a, next).After(f[i..j], j - i) && Unescape(f, i - 1) == f[i..j] + Unescape(f, j)
  {
    hide Render, Unescape;
    PlainBlock(f, i + 1, j, a, next);
    assert f[i..j] == "%" + f[i + 1..j];
    Associate(Render(f, j, a, next), "%", 1, f[i + 1..j], j - i - 1);
    if Char(f, i + 1) != '%' { LonePercent(f, i); }
    if i > 0 && f[i - 1] == '%' { EscapedPair(f, i - 1, a, next); }
  }

  lemma LonePercent(f: Format, i: nat)
    requires i < |f| && f[i] == '%' && Char(f, i + 1) != '%'
    ensures Unescape(f, i) == "%" + Unescape(f, i + 1)
  {
  }

  lemma EscapedPair(f: Format, i: nat, a: Args, next: nat)
    requires i + 1 < |f| && f[i] == '%' && f[i + 1] == '%'
    ensures Render(f, i, a, next) == Render(f, i + 2, a, next).After("%", 1) && Unescape(f, i) == "%" + Unescape(f, i + 2)
  {
  }

  // ------------------------------------------------------------------ the code

  /** From one character to the next '%' or the end. */
  method BlockEnd(f: Format, i: nat) returns (j: nat)
    requires i < |f|
    ensures i < j <= |f| && Plain(f, i + 1, j) && (j == |f| || f[j] == '%')
  {
    j := i + 1;
    while j < |f| && f[j] != '%'
      invariant i < j <= |f| && Plain(f, i + 1, j)
    {
      j := j + 1;
    }
  }

  method ReadFlags(f: Format, i: nat) returns (j: nat, hash: bool, minus: bool, plus: bool, space: bool, zero: bool)
    requires i <= |f|
    ensures j == FlagEnd(f, i)
    ensures hash == ('#' in f[i..j]) && minus == ('-' in f[i..j]) && plus == ('+' in f[i..j])
    ensures space == (' ' in f[i..j]) && zero == ('0' in f[i..j])
  {
    j, hash, minus, plus, space, zero := i, false, false, false, false, false;
    while j < |f|
      invariant i <= j <= |f| && FlagEnd(f, i) == FlagEnd(f, j)
      invariant hash == ('#' in f[i..j]) && minus == ('-' in f[i..j]) && plus == ('+' in f[i..j])
      invariant space == (' ' in f[i..j]) && zero == ('0' in f[i..j])
    {
      assert f[i..j + 1] == f[i..j] + [f[j]];
      match f[j] {
        case '#' => hash := true;
        case '-' => minus := true;
        case '+' => plus := true;
        case ' ' => space := true;
        case '0' => zero := true;
        case _ => return;
      }
      j := j + 1;
    }
  }

  method ReadNumber(f: Format, i: nat) returns (j: nat, value: nat)
    requires i <= |f|
    ensures j == DigitEnd(f, i) && value == Number(f, i)
  {
    j, value := i, 0;
    AllDigits(f, i);
    while IsDigit(Char(f, j))
      invariant i <= j <= |f| && DigitEnd(f, i) == DigitEnd(f, j)
      invariant value == Decimal(f, i, j)
      decreases |f| - j
    {
      value := (value * 10 + (f[j] as int - '0' as int)) % TWO64;
      j := j + 1;
    }
  }

  predicate StartsWith(f: Format, i: nat, name: string) {
    forall k | 0 <= k < |name| :: Char(f, i + k) == name[k]
  }

  /** The loop over the table keeps the longest match seen so far. */
  method ReadModifier(f: Format, i: nat) returns (length: Length, n: nat)
    requires i <= |f|
    ensures (length, n) == Modifier(f, i)
  {
    length, n := Default, 0;
    var k := 0;
    while k < |MODIFIERS|
      invariant 0 <= k <= |MODIFIERS|
      invariant (length, n) == Best(f, i, k)
    {
      var (name, l) := MODIFIERS[k];
      if |name| >= n && StartsWith(f, i, name) {
        length, n := l, |name|;
      }
      k := k + 1;
    }
    BestIsModifier(f, i);
  }

  function Best(f: Format, i: nat, k: nat): (Length, nat)
    requires k <= |MODIFIERS|
  {
    if k == 0 then (Default, 0)
    else
      var best := Best(f, i, k - 1);
      var (name, l) := MODIFIERS[k - 1];
      if |name| >= best.1 && StartsWith(f, i, name) then (l, |name|) else best
  }

  lemma Match0(f: Format, i: nat)
    ensures StartsWith(f, i, "")
  {
  }

  lemma Match1(f: Format, i: nat, x: char)
    ensures StartsWith(f, i, [x]) <==> Char(f, i) == x
  {
    assert StartsWith(f, i, [x]) ==> Char(f, i + 0) == [x][0];
  }

  lemma Match2(f: Format, i: nat, x: char, y: char)
    ensures StartsWith(f, i, [x, y]) <==> Char(f, i) == x && Char(f, i + 1) == y
  {
    assert StartsWith(f, i, [x, y]) ==> Char(f, i + 0) == [x, y][0] && Char(f, i + 1) == [x, y][1];
  }

  lemma BestIsModifier(f: Format, i: nat)
    requires i <= |f|
    ensures Best(f, i, |MODIFIERS|) == Modifier(f, i)
  {
    var c, d := Char(f, i), Char(f, i + 1);
    Match2(f, i, 'h', 'h');
    Match2(f, i, 'l', 'l');
    Match1(f, i, 'h');
    Match1(f, i, 'l');
    Match1(f, i, 'L');
    Match1(f, i, 'j');
    Match1(f, i, 'z');
    Match1(f, i, 't');
    hide StartsWith;
    assert StartsWith(f, i, "") by { Match0(f, i); }
    assert Best(f, i, 1) == (if c == 'h' && d == 'h' then (Char2, 2) else (Default, 0));
    assert Best(f, i, 2) == (if c == 'h' && d == 'h' then (Char2, 2) else if c == 'h' then (Short, 1) else (Default, 0));
    assert Best(f, i, 3) == Best(f, i, 2);
    assert Best(f, i, 4) == (if c == 'l' then (Long, 1) else Best(f, i, 2));
    assert Best(f, i, 5) == (if c == 'l' && d == 'l' then (LongLong, 2) else Best(f, i, 4));
    assert Best(f, i, 6) == (if c == 'L' then (LongDouble, 1) else Best(f, i, 5));
    assert Best(f, i, 7) == (if c == 'j' then (IntMax, 1) else Best(f, i, 6));
    assert Best(f, i, 8) == (if c == 'z' then (Size, 1) else Best(f, i, 7));
  }

  /** Lines 60-152: from the flags to the length modifier. */
  method ParseDirective(f: Format, i: nat, a: Args, next: nat) returns (d: Directive)
    requires i < |f| && f[i] == '%'
    ensures d == Parse(f, i, a, next)
  {
    hide Number, Modifier, FlagEnd, DigitEnd, IntAsSize;
    var p, hash, minus, plus, space, zero := ReadFlags(f, i + 1);
    var q, width := ReadNumber(f, p);
    var taken := 0;
    if Char(f, q) == '*' {
      width := IntAsSize(a.slot(next));
      taken := 1;
      q := q + 1;
    }
    var precision := NO_PRECISION;
    if Char(f, q) == '.' {
      q, precision := ReadNumber(f, q + 1);
    }
    var length, n := ReadModifier(f, q);
    d := Directive(Spec(hash, minus, plus, space, zero, width, precision), length, q + n, taken);
  }

  /** Lines 199-249: the argument as sign and magnitude. */
  method LoadArgument(c: char, length: Length, slot: u64) returns (negative: bool, value: u64)
    requires IsIntegerConversion(c)
    ensures var v := Argument(c, length, slot); negative == (v < 0) && value == Absolute(v)
  {
    negative, value := false, slot;
    if c == 'i' || c == 'd' {
      var signed := Signed(slot, length);
      negative := signed < 0;
      Magnitude(slot, length);
      value := if negative then (TWO64 - signed % TWO64) % TWO64 else signed % TWO64;
    } else if c != 'p' {
      value := Unsigned(slot, length);
    }
  }

  /** Lines 190-344; None is a write behind one of the two buffers. */
  method PrintInteger(spec: Spec, c: char, length: Length, slot: u64) returns (text: Option<string>, digitCount: nat)
    requires IsIntegerConversion(c)
    ensures text == if IntegerFits(spec, c, length, slot) then Some(Integer(spec, c, length, slot)) else None
    ensures text.Some? ==> digitCount == |ArgumentDigits(c, length, slot)|
  {
    hide Layout, Digits, Prefix, IntegerFits, PrefixFits, DigitsFit, Argument, IsIntegerConversion;
    var specifier := if c == 'p' then 'x' else c;
    FitsBoth(spec, c, length, slot);
    assert Base(BaseOf(specifier));
    var negative, value := LoadArgument(c, length, slot);
    var prefix := BuildPrefix(spec, negative, specifier);
    if prefix.None? { return None, 0; }
    var digits := Convert(value, BaseOf(specifier), specifier == 'X');
    if digits.None? { return None, 0; }
    var out := Emit(spec, prefix.value, digits.value);
    return Some(out), |digits.value|;
  }

  /** `-(uintmax_t) signed_value` is the magnitude, for the most negative value too. */
  lemma Magnitude(slot: u64, length: Length)
    ensures var v := Signed(slot, length);
      && -0x8000_0000_0000_0000 <= v < 0x8000_0000_0000_0000
      && (if v < 0 then (TWO64 - v % TWO64) % TWO64 == 0 - v else v % TWO64 == v)
  {
  }

  /** Lines 154-348. */
  method ApplyDirective(f: Format, d: Directive, a: Args, next: nat) returns (r: Conversion)
    requires d.at <= |f|
    ensures r == Apply(f, d, a, next)
  {
    hide Integer, IntegerFits, ArgumentDigits;
    var c := Char(f, d.at);
    if c == '%' {
      r := Good("%", 0, 0);
    } else if c == 's' {
      var s := a.text(a.slot(next));
      var len := if d.spec.precision < |s| then d.spec.precision else |s|;
      r := Good(s[..len], 1, len);
    } else if c == 'c' {
      r := Good([(a.slot(next) % 256) as char], 1, 1);
    } else if IsIntegerConversion(c) {
      if c != 'p' && d.length == LongDouble { return Bad; }
      var text, digitCount := PrintInteger(d.spec, c, d.length, a.slot(next));
      if text.None? { return Overrun; }
      r := Good(text.value, 1, digitCount);
    } else {
      r := Bad;
    }
  }

  /** What is still to come from i, in normal and in bad-conversion mode. */
  function Rest(f: Format, i: nat, a: Args, next: nat, bad: bool): Output
    requires i <= |f|
  {
    if bad then Verbatim(f, i) else Render(f, i, a, next)
  }

  const INT_MAX: nat := 0x7FFF_FFFF

  /** vcbprintf: terminates on every format, prints its meaning and returns what
      that counts. */
  method Vcbprintf(f: Format, a: Args) returns (out: Option<string>, ret: int)
    ensures match Render(f, 0, a, 0)
      case Spoilt => out == None
      case Printed(text, counted) => out == Some(text) && ret == (if counted % TWO64 > 0x7FFF_FFFF then -1 else counted % TWO64)
  {
    hide Render, Verbatim, Unescape, Parse, Apply, Plain;
    var pos, next, bad := 0, 0, false;
    var text, written := "", 0;
    ghost var counted := 0;
    AfterNothing(Render(f, 0, a, 0));
    while pos < |f|
      invariant 0 <= pos <= |f| && 0 <= next && 0 <= counted
      invariant Rest(f, pos, a, next, bad).After(text, counted) == Render(f, 0, a, 0)
      invariant written == counted % TWO64
      decreases |f| - pos
    {
      var start := pos;
      if f[pos] == '%' {
        pos := pos + 1;
        if Char(f, pos) != '%' {
          if !bad {
            var d := ParseDirective(f, start, a, next);
            var r := ApplyDirective(f, d, a, next + d.taken);
            DirectiveMeaning(f, start, a, next);
            if r.Overrun? { return None, 0; }
            if r.Good? {
              Associate(Render(f, d.at + 1, a, next + d.taken + r.taken), text, counted, r.text, r.counted);
              SizeAdd(counted, r.counted);
              text := text + r.text;
              written := (written + r.counted) % TWO64;
              counted := counted + r.counted;
              pos, next := d.at + 1, next + d.taken + r.taken;
              continue;
            }
            bad := true;
          }
          pos := start;
        }
      }
      var block := BlockEnd(f, pos);
      BlockMeaning(f, start, pos, block, a, next, bad);
      Associate(Rest(f, block, a, next, bad), text, counted, f[pos..block], block - pos);
      SizeAdd(counted, block - pos);
      text := text + f[pos..block];
      written := (written + (block - pos)) % TWO64;
      counted := counted + (block - pos);
      pos := block;
    }
    EndMeaning(f, a, next);
    assert text + [] == text;
    return Some(text), if written > INT_MAX then -1 else written;
  }

  lemma SizeAdd(x: nat, y: nat)
    ensures (x % TWO64 + y) % TWO64 == (x + y) % TWO64
  {
    var q, r := x / TWO64, x % TWO64;
    assert x + y == TWO64 * (q + (r + y) / TWO64) + (r + y) % TWO64;
    DivUnique(x + y, TWO64, q + (r + y) / TWO64, (r + y) % TWO64);
  }

  lemma EndMeaning(f: Format, a: Args, next: nat)
    ensures Render(f, |f|, a, next) == Printed([], 0) && Verbatim(f, |f|) == Printed([], 0)
  {
  }

  lemma DirectiveMeaning(f: Format, i: nat, a: Args, next: nat)
    requires i < |f| && f[i] == '%' && Char(f, i + 1) != '%'
    ensures var d := Parse(f, i, a, next);
      match Apply(f, d, a, next + d.taken)
      case Bad => Render(f, i, a, next) == Verbatim(f, i)
      case Overrun => Render(f, i, a, next) == Spoilt
      case Good(text, taken, counted) =>
        d.at < |f| && Render(f, i, a, next) == Render(f, d.at + 1, a, next + d.taken + taken).After(text, counted)
  {
    hide Parse, Integer, IntegerFits, ArgumentDigits, Verbatim;
  }

  /** The three ways to the shared print: plain text, the second half of an
      escaped pair, and a lone '%' after an unknown conversion. */
  lemma BlockMeaning(f: Format, start: nat, pos: nat, block: nat, a: Args, next: nat, bad: bool)
    requires start <= pos < block <= |f| && Plain(f, pos + 1, block)
    requires
      || (pos == start && f[pos] != '%')
      || (pos == start + 1 && f[start] == '%' && f[pos] == '%')
      || (pos == start && f[pos] == '%' && Char(f, pos + 1) != '%' && bad)
    ensures Rest(f, start, a, next, bad) == Rest(f, block, a, next, bad).After(f[pos..block], block - pos)
  {
    hide Render, Unescape;
    if f[pos] == '%' { PercentBlock(f, pos, block, a, next); } else { PlainBlock(f, pos, block, a, next); }
  }

  /** What an integer conversion prints reads back as its argument, whenever it
      stays inside its buffers. */
  lemma IntegerReadsBack(spec: Spec, c: char, length: Length, slot: u64)
    requires IsIntegerConversion(c) && IntegerFits(spec, c, length, slot)
    ensures ReadInteger(Integer(spec, c, length, slot), BaseOf(Specifier(c))) == Argument(c, length, slot)
    ensures |Integer(spec, c, length, slot)| >= spec.width
  {
    hide ReadInteger, Layout, Digits, Prefix, IntegerFits, PrefixFits, DigitsFit;
    var v := Argument(c, length, slot);
    FitsBoth(spec, c, length, slot);
    ReadsBack(spec, v < 0, Specifier(c), Absolute(v), BaseOf(Specifier(c)), c == 'X');
    WideEnough(spec, Prefix(spec, v < 0, Specifier(c)), ArgumentDigits(c, length, slot));
  }

  // ------------------------------------------------------------------ the return value

  /** Nothing is printed but the digits. */
  predicate Bare(spec: Spec, c: char, length: Length, slot: u64)
    requires IsIntegerConversion(c)
  {
    var n := |ArgumentDigits(c, length, slot)|;
    && Prefix(spec, Argument(c, length, slot) < 0, Specifier(c)) == ""
    && (spec.precision == NO_PRECISION || spec.precision <= n) && spec.width <= n
  }

  lemma IntegerCounted(spec: Spec, c: char, length: Length, slot: u64)
    requires IsIntegerConversion(c) && IntegerFits(spec, c, length, slot)
    ensures |ArgumentDigits(c, length, slot)| <= |Integer(spec, c, length, slot)|
    ensures |ArgumentDigits(c, length, slot)| == |Integer(spec, c, length, slot)| <==> Bare(spec, c, length, slot)
  {
    hide Digits, Argument, Prefix, Layout, IntegerFits, DigitsFit, PrefixFits;
    FitsBoth(spec, c, length, slot);
    FitsBuffer(Absolute(Argument(c, length, slot)), BaseOf(Specifier(c)), c == 'X');
    LayoutLength(spec, Prefix(spec, Argument(c, length, slot) < 0, Specifier(c)), ArgumentDigits(c, length, slot));
  }

  /** Every directive is counted in full: no conversion is '%', and every integer
      comes out bare. */
  predicate AllCounted(f: Format, i: nat, a: Args, next: nat)
    requires i <= |f|
    decreases |f| - i
  {
    if i == |f| then true
    else if f[i] != '%' then AllCounted(f, i + 1, a, next)
    else if Char(f, i + 1) == '%' then AllCounted(f, i + 2, a, next)
    else
      var d := Parse(f, i, a, next);
      var c := Char(f, d.at);
      match Apply(f, d, a, next + d.taken)
      case Good(_, taken, _) =>
        && c != '%' && (IsIntegerConversion(c) ==> Bare(d.spec, c, d.length, a.slot(next + d.taken)))
        && AllCounted(f, d.at + 1, a, next + d.taken + taken)
      case _ => true
  }

  lemma ApplyCounted(f: Format, d: Directive, a: Args, next: nat)
    requires d.at <= |f| && Apply(f, d, a, next).Good?
    ensures var r, c := Apply(f, d, a, next), Char(f, d.at);
      && r.counted <= |r.text|
      && (r.counted == |r.text| <==> c != '%' && (IsIntegerConversion(c) ==> Bare(d.spec, c, d.length, a.slot(next))))
  {
    hide Integer, ArgumentDigits, IntegerFits, Bare;
    var c := Char(f, d.at);
    if IsIntegerConversion(c) { IntegerCounted(d.spec, c, d.length, a.slot(next)); }
  }

  /** The count never exceeds what was printed, and equals it exactly when every
      directive is counted in full. */
  lemma {:induction false} CountedExact(f: Format, i: nat, a: Args, next: nat)
    requires i <= |f| && Render(f, i, a, next).Printed?
    ensures var r := Render(f, i, a, next); r.counted <= |r.text| && (r.counted == |r.text| <==> AllCounted(f, i, a, next))
    decreases |f| - i
  {
    hide Parse, Apply, Bare, Unescape;
    if i < |f| {
      if f[i] != '%' {
        CountedExact(f, i + 1, a, next);
      } else if Char(f, i + 1) == '%' {
        CountedExact(f, i + 2, a, next);
      } else {
        DirectiveMeaning(f, i, a, next);
        var d := Parse(f, i, a, next);
        var r := Apply(f, d, a, next + d.taken);
        if r.Good? {
          ApplyCounted(f, d, a, next + d.taken);
          CountedExact(f, d.at + 1, a, next + d.taken + r.taken);
        }
      }
    }
  }

  /** One such call: %+d of 5 puts out two characters and returns 1. */
  lemma CountExample(a: Args)
    requires a.slot(0) == 5
    ensures Render("%+d", 0, a, 0) == Printed("+5", 1)
  {
    hide Parse, Apply;
    ParseExample(a);
    ApplyExample(a);
    DirectiveMeaning("%+d", 0, a, 0);
    EndMeaning("%+d", a, 1);
    assert "+5" + [] == "+5";
  }

  const EXAMPLE := Directive(Spec(false, false, true, false, false, 0, NO_PRECISION), Default, 2, 0)

  lemma ParseExample(a: Args)
    ensures Parse("%+d", 0, a, 0) == EXAMPLE
  {
    hide IntAsSize;
    var f: Format := "%+d";
    assert FlagEnd(f, 2) == 2 && FlagEnd(f, 1) == 2 && DigitEnd(f, 2) == 2;
    assert f[1..2] == "+";
    assert Modifier(f, 2) == (Default, 0);
  }

  lemma ApplyExample(a: Args)
    requires a.slot(0) == 5
    ensures Apply("%+d", EXAMPLE, a, 0) == Good("+5", 1, 1)
  {
    hide Digits, Layout;
    FiveDigits();
    assert Argument('d', Default, 5) == 5;
    assert Prefix(EXAMPLE.spec, false, 'd') == "+";
  }

  lemma FiveDigits()
    ensures Digits(5, 10, false) == "5"
    ensures Layout(Spec(false, false, true, false, false, 0, NO_PRECISION), "+", "5") == "+5"
  {
  }

  // ------------------------------------------------------------------ what arguments denote

  /** What an integer conversion reads of its slot, by the characters of its length
      modifier: 64 bits for p and after ll, j, z or t, 32 bits after hh, h, l or
      none. The argument is congruent to the slot, unsigned for o, u, x, X and p,
      and in two's complement for d and i. */
  predicate Denotes(name: string, c: char, slot: u64, v: int) {
    var m := if c == 'p' || name == "ll" || name == "j" || name == "z" || name == "t" then 0x1_0000_0000_0000_0000 else 0x1_0000_0000;
    && (v - slot) % m == 0
    && if c == 'd' || c == 'i' then -(m / 2) <= v < m / 2 else 0 <= v < m
  }

  lemma ArgumentDenotes(name: string, length: Length, c: char, slot: u64)
    requires Names(name, length) && IsIntegerConversion(c) && (c == 'p' || name != "L")
    ensures Denotes(name, c, slot, Argument(c, length, slot))
  {
    assert MODIFIERS == [("hh", Char2), ("h", Short), ("", Default), ("l", Long), ("ll", LongLong),
                         ("L", LongDouble), ("j", IntMax), ("z", Size), ("t", PtrDiff)];
    Multiple(slot / 0x1_0000_0000);
    Multiple(slot / 0x1_0000_0000 + 1);
    assert slot - slot % 0x1_0000_0000 == 0x1_0000_0000 * (slot / 0x1_0000_0000);
  }

  lemma Multiple(k: int)
    ensures (-0x1_0000_0000 * k) % 0x1_0000_0000 == 0
  {
    DivUnique(-0x1_0000_0000 * k, 0x1_0000_0000, -k, 0);
  }

  /** A width from an argument is its int, sign-extended to size_t. */
  lemma StarDenotes(slot: u64)
    ensures IntAsSize(slot) % 0x1_0000_0000 == slot % 0x1_0000_0000
    ensures IntAsSize(slot) < 0x8000_0000 || 0xFFFF_FFFF_8000_0000 <= IntAsSize(slot) < TWO64
  {
    var low := slot % 0x1_0000_0000;
    DivUnique(low + 0xFFFF_FFFF_0000_0000, 0x1_0000_0000, 0xFFFF_FFFF, low);
    DivUnique(low, 0x1_0000_0000, 0, low);
  }

  // ------------------------------------------------------------------ writing and reading directives

  predicate IsConversion(c: char) { c in "%scdiopuxX" }
  predicate Names(name: string, length: Length) { (name, length) in MODIFIERS }

  /** s stands at f[i..]. */
  predicate Stands(f: Format, i: nat, s: string) { i + |s| <= |f| && f[i..i + |s|] == s }

  lemma StandsSplit(f: Format, i: nat, s: string, t: string)
    requires Stands(f, i, s + t)
    ensures Stands(f, i, s) && Stands(f, i + |s|, t)
  {
    var u := f[i..i + |s + t|];
    assert u[..|s|] == s && u[|s|..] == t;
    assert f[i..i + |s|] == u[..|s|] && f[i + |s|..i + |s| + |t|] == u[|s|..];
  }

  lemma StandsFirst(f: Format, i: nat, s: string)
    requires Stands(f, i, s) && s != []
    ensures Char(f, i) == s[0] && (|s| > 1 ==> Char(f, i + 1) == s[1])
  {
    var u := f[i..i + |s|];
    assert u[0] == f[i] && (|s| > 1 ==> u[1] == f[i + 1]);
  }

  predicate AllFlags(s: string) { forall c <- s :: c in "#-+ 0" }
  predicate AllNumeric(s: string) { forall c <- s :: '0' <= c <= '9' }

  lemma {:induction false} FlagsEnd(f: Format, i: nat, s: string)
    requires Stands(f, i, s) && AllFlags(s) && !IsFlag(Char(f, i + |s|))
    ensures FlagEnd(f, i) == i + |s|
    decreases |s|
  {
    if s != [] {
      assert s == s[..1] + s[1..];
      StandsSplit(f, i, s[..1], s[1..]);
      StandsFirst(f, i, s);
      assert s[0] in s && forall c <- s[1..] :: c in s;
      FlagsEnd(f, i + 1, s[1..]);
    }
  }

  lemma {:induction false} DigitsEnd(f: Format, i: nat, s: string)
    requires Stands(f, i, s) && AllNumeric(s) && !IsDigit(Char(f, i + |s|))
    ensures DigitEnd(f, i) == i + |s|
    decreases |s|
  {
    if s != [] {
      assert s == s[..1] + s[1..];
      StandsSplit(f, i, s[..1], s[1..]);
      StandsFirst(f, i, s);
      assert s[0] in s && forall c <- s[1..] :: c in s;
      DigitsEnd(f, i + 1, s[1..]);
    }
  }

  /** The number read in size_t is what the digits denote, modulo 2^64. */
  lemma {:induction false} DecimalDenotes(f: Format, i: nat, j: nat)
    requires i <= j <= |f| && forall k | i <= k < j :: IsDigit(f[k])
    ensures Decimal(f, i, j) == Wrap(Eval(f[i..j], 10))
    decreases j
  {
    hide Eval, DigitValue, IsDigit, Wrap, Decimal;
    if i < j {
      DecimalDenotes(f, i, j - 1);
      DecimalStep(f, i, j - 1, f[j - 1]);
      assert f[i..j] == f[i..j - 1] + [f[j - 1]];
      EvalStep(f[i..j - 1], f[j - 1]);
      TimesTen(Eval(f[i..j - 1], 10), DigitValue(f[j - 1]));
    } else {
      assert f[i..j] == [];
      DecimalNone(f, i);
    }
  }

  lemma DecimalNone(f: Format, i: nat)
    requires i <= |f|
    ensures Decimal(f, i, i) == Wrap(Eval([], 10))
  {
  }

  /** size_t arithmetic. */
  function Wrap(x: nat): nat { x % TWO64 }

  lemma DecimalStep(f: Format, i: nat, j: nat, c: char)
    requires i <= j < |f| && Char(f, j) == c && IsDigit(c) && forall k | i <= k < j :: IsDigit(f[k])
    ensures (forall k | i <= k < j + 1 :: IsDigit(f[k])) && Decimal(f, i, j + 1) == Wrap(Decimal(f, i, j) * 10 + DigitValue(c))
  {
  }

  lemma EvalStep(init: string, c: char)
    ensures Eval(init + [c], 10) == Eval(init, 10) * 10 + DigitValue(c)
  {
    hide DigitValue;
    assert (init + [c])[..|init|] == init;
  }

  lemma NumericStand(f: Format, i: nat, s: string)
    requires Stands(f, i, s) && AllNumeric(s)
    ensures i + |s| <= |f| && forall k | i <= k < i + |s| :: IsDigit(f[k])
  {
    forall k | i <= k < i + |s| ensures IsDigit(f[k]) { assert f[i..i + |s|][k - i] == f[k] && s[k - i] in s; }
  }

  lemma TimesTen(x: nat, d: nat)
    ensures Wrap(Wrap(x) * 10 + d) == Wrap(x * 10 + d)
  {
    var q, r := x / TWO64, x % TWO64;
    assert x * 10 + d == TWO64 * (10 * q + (r * 10 + d) / TWO64) + (r * 10 + d) % TWO64;
    DivUnique(x * 10 + d, TWO64, 10 * q + (r * 10 + d) / TWO64, (r * 10 + d) % TWO64);
  }

  lemma NumberDenotes(f: Format, i: nat, s: string)
    requires Stands(f, i, s) && AllNumeric(s) && !IsDigit(Char(f, i + |s|))
    ensures DigitEnd(f, i) == i + |s| && Number(f, i) == Wrap(Eval(s, 10))
  {
    hide Eval, Decimal, DigitEnd, Wrap, IsDigit, AllNumeric;
    DigitsEnd(f, i, s);
    NumericStand(f, i, s);
    DecimalDenotes(f, i, i + |s|);
  }

  /** A modifier in front of a conversion character is read as the table says. */
  lemma ModifierReads(f: Format, r: nat, name: string, length: Length, c: char)
    requires Names(name, length) && IsConversion(c) && Stands(f, r, name + [c])
    ensures Modifier(f, r) == (length, |name|)
  {
    StandsFirst(f, r, name + [c]);
    assert MODIFIERS == [("hh", Char2), ("h", Short), ("", Default), ("l", Long), ("ll", LongLong),
                         ("L", LongDouble), ("j", IntMax), ("z", Size), ("t", PtrDiff)];
  }

  /** A directive as the programmer writes it. */
  function Written(flags: string, width: string, star: bool, precision: Option<string>, name: string, c: char): string {
    "%" + (flags + (width + ((if star then "*" else "") + ((if precision.Some? then "." + precision.value else "") + (name + [c])))))
  }

  /** Where the width, what follows it, the precision and the modifier start. */
  datatype Parts = Parts(width: nat, star: nat, dot: nat, modifier: nat)

  function PartsOf(i: nat, flags: string, width: string, star: bool, precision: Option<string>): Parts {
    var p := i + 1 + |flags|;
    var q := p + |width|;
    var q' := q + if star then 1 else 0;
    Parts(p, q, q', q' + if precision.Some? then 1 + |precision.value| else 0)
  }

  lemma ModifierStarts(name: string, length: Length, c: char)
    requires Names(name, length) && IsConversion(c)
    ensures IsLetter((name + [c])[0])
  {
    assert MODIFIERS == [("hh", Char2), ("h", Short), ("", Default), ("l", Long), ("ll", LongLong),
                         ("L", LongDouble), ("j", IntMax), ("z", Size), ("t", PtrDiff)];
    if name == "" {
      assert (name + [c])[0] == c;
    } else {
      assert (name + [c])[0] == name[0];
    }
  }

  /** From the precision on. */
  lemma TailParts(f: Format, q: nat, precision: Option<string>, last: string)
    requires Stands(f, q, (if precision.Some? then "." + precision.value else "") + last) && last != [] && IsLetter(last[0])
    ensures var r := q + if precision.Some? then 1 + |precision.value| else 0;
      && Stands(f, r, last) && !IsDigit(Char(f, r))
      && (if precision.Some? then Char(f, q) == '.' && Stands(f, q + 1, precision.value) else Char(f, q) == last[0])
  {
    hide Stands;
    if precision.Some? {
      StandsSplit(f, q, "." + precision.value, last);
      StandsFirst(f, q, "." + precision.value);
      StandsSplit(f, q, ".", precision.value);
      StandsFirst(f, q + 1 + |precision.value|, last);
    } else {
      assert "" + last == last;
      StandsFirst(f, q, last);
    }
  }

  /** From the '*' on. */
  lemma StarParts(f: Format, q: nat, star: bool, dotted: string)
    requires Stands(f, q, (if star then "*" else "") + dotted) && dotted != [] && dotted[0] != '*'
    ensures Stands(f, q + if star then 1 else 0, dotted)
    ensures if star then Char(f, q) == '*' else Char(f, q) == dotted[0]
  {
    hide Stands;
    StandsSplit(f, q, if star then "*" else "", dotted);
    if star { StandsFirst(f, q, "*"); } else { StandsFirst(f, q, dotted); }
  }

  /** From the flags on. */
  lemma HeadParts(f: Format, i: nat, flags: string, width: string, starred: string)
    requires Stands(f, i, "%" + (flags + (width + starred))) && starred != [] && !IsFlag(starred[0])
    requires AllNumeric(width) && (width != [] ==> width[0] != '0')
    ensures Char(f, i) == '%' && Stands(f, i + 1, flags)
    ensures var p := i + 1 + |flags|; !IsFlag(Char(f, p)) && Stands(f, p, width) && Stands(f, p + |width|, starred)
  {
    hide Stands, AllNumeric, Char, IsFlag;
    WidthStarts(width, starred);
    StandsSplit(f, i, "%", flags + (width + starred));
    StandsFirst(f, i, "%");
    StandsSplit(f, i + 1, flags, width + starred);
    var p := i + 1 + |flags|;
    StandsFirst(f, p, width + starred);
    StandsSplit(f, p, width, starred);
  }

  lemma WidthStarts(width: string, starred: string)
    requires AllNumeric(width) && (width != [] ==> width[0] != '0') && starred != [] && !IsFlag(starred[0])
    ensures !IsFlag((width + starred)[0])
  {
    if width != [] { assert width[0] in width; }
  }

  /** Every part of a written directive stands where it should. */
  lemma WrittenParts(f: Format, i: nat, flags: string, width: string, star: bool, precision: Option<string>, name: string, length: Length, c: char)
    requires AllNumeric(width) && (width != [] ==> width[0] != '0')
    requires Names(name, length) && IsConversion(c)
    requires Stands(f, i, Written(flags, width, star, precision, name, c))
    ensures var at := PartsOf(i, flags, width, star, precision);
      && Char(f, i) == '%' && Stands(f, i + 1, flags) && !IsFlag(Char(f, at.width))
      && Stands(f, at.width, width) && !IsDigit(Char(f, at.star)) && (Char(f, at.star) == '*' <==> star)
      && (Char(f, at.dot) == '.' <==> precision.Some?) && (precision.Some? ==> Stands(f, at.dot + 1, precision.value))
      && !IsDigit(Char(f, at.modifier)) && Stands(f, at.modifier, name + [c])
  {
    hide Stands, AllNumeric, IsConversion, Names;
    var last := name + [c];
    var dotted := (if precision.Some? then "." + precision.value else "") + last;
    var starred := (if star then "*" else "") + dotted;
    ModifierStarts(name, length, c);
    assert dotted[0] == if precision.Some? then '.' else last[0];
    assert starred[0] == if star then '*' else dotted[0];
    HeadParts(f, i, flags, width, starred);
    var at := PartsOf(i, flags, width, star, precision);
    StarParts(f, at.star, star, dotted);
    TailParts(f, at.dot, precision, last);
  }

  /** Reading part by part. */
  lemma ParsesAs(f: Format, i: nat, a: Args, next: nat, at: Parts, flags: string, width: nat, star: bool, precision: Option<nat>,
                 length: Length, n: nat)
    requires i < at.width <= at.star <= at.dot <= at.modifier <= |f| && f[i] == '%'
    requires FlagEnd(f, i + 1) == at.width && f[i + 1..at.width] == flags
    requires DigitEnd(f, at.width) == at.star && Number(f, at.width) == width
    requires (Char(f, at.star) == '*' <==> star) && at.dot == at.star + if star then 1 else 0
    requires Char(f, at.dot) == '.' <==> precision.Some?
    requires if precision.Some? then at.dot < |f| && DigitEnd(f, at.dot + 1) == at.modifier && Number(f, at.dot + 1) == precision.value
             else at.modifier == at.dot
    requires Modifier(f, at.modifier) == (length, n)
    ensures Parse(f, i, a, next) == Directive(
      Spec('#' in flags, '-' in flags, '+' in flags, ' ' in flags, '0' in flags,
           if star then IntAsSize(a.slot(next)) else width, if precision.Some? then precision.value else NO_PRECISION),
      length, at.modifier + n, if star then 1 else 0)
  {
    hide FlagEnd, Number, DigitEnd, Modifier, IntAsSize, Char;
  }

  /** Writing a directive and reading it back gives its flags, width, precision and
      modifier, and its conversion character is found where it stands. */
  lemma DirectiveReads(f: Format, i: nat, flags: string, width: string, star: bool, precision: Option<string>, name: string, length: Length,
                       c: char, a: Args, next: nat)
    requires AllFlags(flags) && AllNumeric(width) && (width != [] ==> width[0] != '0') && (precision.Some? ==> AllNumeric(precision.value))
    requires Names(name, length) && IsConversion(c)
    requires Stands(f, i, Written(flags, width, star, precision, name, c))
    ensures i < |f| && f[i] == '%'
    ensures var d := Parse(f, i, a, next);
      && d.spec == Spec('#' in flags, '-' in flags, '+' in flags, ' ' in flags, '0' in flags,
                        if star then IntAsSize(a.slot(next)) else Wrap(Eval(width, 10)),
                        if precision.Some? then Wrap(Eval(precision.value, 10)) else NO_PRECISION)
      && d.length == length && d.taken == (if star then 1 else 0)
      && d.at == PartsOf(i, flags, width, star, precision).modifier + |name| && Char(f, d.at) == c
  {
    hide FlagEnd, Number, DigitEnd, Modifier, IntAsSize, Eval, Stands, Char, AllNumeric, AllFlags, IsDigit, IsFlag, Written,
      IsConversion, Names, Wrap;
    WrittenParts(f, i, flags, width, star, precision, name, length, c);
    var at := PartsOf(i, flags, width, star, precision);
    FlagsEnd(f, i + 1, flags);
    FlagSlice(f, i + 1, flags);
    NumberDenotes(f, at.width, width);
    if precision.Some? { NumberDenotes(f, at.dot + 1, precision.value); }
    ModifierReads(f, at.modifier, name, length, c);
    StandsSplit(f, at.modifier, name, [c]);
    StandsFirst(f, at.modifier + |name|, [c]);
    InFormat(f, i);
    InRange(f, at.width, width);
    InRange(f, at.modifier, name + [c]);
    hide Parse;
    ParsesAs(f, i, a, next, at, flags, Wrap(Eval(width, 10)), star,
             if precision.Some? then Some(Wrap(Eval(precision.value, 10))) else None, length, |name|);
  }

  lemma InRange(f: Format, i: nat, s: string)
    requires Stands(f, i, s)
    ensures i + |s| <= |f|
  {
  }

  lemma InFormat(f: Format, i: nat)
    requires Char(f, i) == '%'
    ensures i < |f| && f[i] == '%'
  {
  }

  lemma FlagSlice(f: Format, i: nat, flags: string)
    requires Stands(f, i, flags)
    ensures i + |flags| <= |f| && f[i..i + |flags|] == flags
  {
  }

  /** From the format to the reader: an integer directive with any flags, width,
      precision and modifier prints, unless it overruns a buffer, what reads back
      as the number its argument denotes; 'L' is unknown, except that p ignores it. */
  lemma DirectiveDenotes(f: Format, i: nat, flags: string, width: string, star: bool, precision: Option<string>, name: string, length: Length,
                         c: char, a: Args, next: nat)
    requires AllFlags(flags) && AllNumeric(width) && (width != [] ==> width[0] != '0') && (precision.Some? ==> AllNumeric(precision.value))
    requires Names(name, length) && IsIntegerConversion(c)
    requires Stands(f, i, Written(flags, width, star, precision, name, c))
    ensures i < |f| && f[i] == '%'
    ensures var slot := a.slot(next + if star then 1 else 0);
      var d := Parse(f, i, a, next);
      match Apply(f, d, a, next + d.taken)
      case Bad => name == "L" && c != 'p'
      case Overrun =>
        || (c == 'o' && slot >= 0x1000_0000_0000_0000)
        || ((c == 'x' || c == 'X' || c == 'p') && '#' in flags && ('+' in flags || ' ' in flags))
      case Good(text, taken, _) =>
        && taken == 1 && (name == "L" ==> c == 'p')
        && Denotes(name, c, slot,
                   ReadInteger(text, if c == 'x' || c == 'X' || c == 'p' then 16 else if c == 'o' then 8 else 10))
  {
    hide Parse, Stands, Written, AllNumeric, AllFlags, ReadInteger, Argument, Denotes, Integer, Eval, Wrap, IntAsSize, PartsOf;
    Conversions(c);
    DirectiveReads(f, i, flags, width, star, precision, name, length, c, a, next);
    var d := Parse(f, i, a, next);
    LongDoubleName(name, length);
    ConversionMeaning(f, d, a, next + d.taken);
    if c == 'p' || name != "L" { ArgumentDenotes(name, length, c, a.slot(next + d.taken)); }
  }

  lemma Conversions(c: char)
    requires IsIntegerConversion(c)
    ensures IsConversion(c) && c != '%' && c != 's' && c != 'c'
    ensures BaseOf(Specifier(c)) == if c == 'x' || c == 'X' || c == 'p' then 16 else if c == 'o' then 8 else 10
  {
  }

  lemma LongDoubleName(name: string, length: Length)
    requires Names(name, length)
    ensures length == LongDouble <==> name == "L"
  {
    assert MODIFIERS == [("hh", Char2), ("h", Short), ("", Default), ("l", Long), ("ll", LongLong),
                         ("L", LongDouble), ("j", IntMax), ("z", Size), ("t", PtrDiff)];
  }

  // ------------------------------------------------------------------ escaping

  function Escape(s: string): string {
    if s == [] then [] else (if s[0] == '%' then "%%" else [s[0]]) + Escape(s[1..])
  }

  /** Text whose percent signs are doubled is printed, and counted, as it was, in
      either mode. */
  lemma {:induction false} EscapePrints(f: Format, i: nat, s: string, a: Args, next: nat)
    requires i <= |f| && f[i..] == Escape(s)
    ensures Render(f, i, a, next) == Printed(s, |s|) && Unescape(f, i) == s
    decreases |s|
  {
    if s != [] {
      var first := if s[0] == '%' then "%%" else [s[0]];
      var g := f[i..];
      assert g == first + Escape(s[1..]) && g[0] == f[i] && (|first| == 2 ==> g[1] == f[i + 1]);
      assert f[i + |first|..] == g[|first|..] == Escape(s[1..]);
      EscapePrints(f, i + |first|, s[1..], a, next);
      assert [s[0]] + s[1..] == s;
    }
  }
}
