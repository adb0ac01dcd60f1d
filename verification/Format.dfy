/** What a format string and its arguments print: the directives `_vsnprintf` understands, and the
    unbounded output it would produce. */
module Format {
  import opened Bits
  import opened Wrappers
  import opened Digits
  import opened Ntoa

  /** A variadic argument: the 64-bit slot of a number, or the characters of a string up to its NUL. */
  datatype Arg = Num(bits: Word) | Str(text: string)

  const NO_FLAGS := Flags(false, false, false, false, false, false, false, false, false, false, false)

  function At(f: string, i: nat): char { if i < |f| then f[i] else '\0' }
  predicate IsDigit(c: char) { '0' <= c <= '9' }

  function Wrapped(bits: nat, size: nat): int
    requires size > 0
  {
    var x := bits % size;
    if x >= size / 2 then x - size else x
  }

  function Int32(bits: nat): int { Wrapped(bits, TWO32) }

  // ---- the parts of a directive ----

  predicate IsFlag(c: char) { c in ['0', '-', '+', ' ', '#'] }

  function SetFlag(fl: Flags, c: char): Flags
  {
    fl.(zeropad := fl.zeropad || c == '0', left := fl.left || c == '-', plus := fl.plus || c == '+',
        space := fl.space || c == ' ', hash := fl.hash || c == '#')
  }

  function ParseFlags(f: string, i: nat, fl: Flags): (Flags, nat)
    decreases |f| - i
  {
    if i < |f| && IsFlag(f[i]) then ParseFlags(f, i + 1, SetFlag(fl, f[i])) else (fl, i)
  }

  /** `_atoi` from position i on, with what it has read so far. */
  function Atoi(f: string, i: nat, acc: nat): (nat, nat)
    decreases |f| - i
  {
    if i < |f| && IsDigit(f[i]) then Atoi(f, i + 1, (acc * 10 + DigitValue(f[i])) % TWO32) else (acc, i)
  }

  function NumArg(args: seq<Arg>, k: nat): Option<Word>
  {
    if k < |args| && args[k].Num? then Some(args[k].bits) else None
  }

  /** A directive up to its conversion character, which is at position `at`; k arguments are used. */
  datatype Directive = Directive(fl: Flags, width: nat, prec: nat, at: nat, k: nat)

  function ParseWidth(f: string, d: Directive, args: seq<Arg>): Option<Directive>
  {
    if IsDigit(At(f, d.at)) then
      var (w, j) := Atoi(f, d.at, 0);
      Some(d.(width := w, at := j))
    else if At(f, d.at) == '*' then
      match NumArg(args, d.k)
      case None => None
      case Some(bits) =>
        var w := Int32(bits);
        if w == -0x8000_0000 then None  // its negation overflows
        else if w < 0 then Some(d.(fl := d.fl.(left := true), width := -w, at := d.at + 1, k := d.k + 1))
        else Some(d.(width := w, at := d.at + 1, k := d.k + 1))
    else Some(d)
  }

  function ParsePrecision(f: string, d: Directive, args: seq<Arg>): Option<Directive>
  {
    if At(f, d.at) != '.' then Some(d) else
    var e := d.(fl := d.fl.(precision := true), at := d.at + 1);
    if IsDigit(At(f, e.at)) then
      var (p, j) := Atoi(f, e.at, 0);
      Some(e.(prec := p, at := j))
    else if At(f, e.at) == '*' then
      match NumArg(args, e.k)
      case None => None
      case Some(bits) => Some(e.(prec := if Int32(bits) > 0 then Int32(bits) else 0, at := e.at + 1, k := e.k + 1))
    else Some(e)
  }

  /** The length modifier that starts with the characters a and b, and how long it is. */
  function LengthFlags(a: char, b: char, fl: Flags): Flags
  {
    fl.(asLong := fl.asLong || a == 'l' || a == 't' || a == 'j' || a == 'z',
        asLongLong := fl.asLongLong || (a == 'l' && b == 'l'),
        asShort := fl.asShort || a == 'h',
        asChar := fl.asChar || (a == 'h' && b == 'h'))
  }

  function LengthSize(a: char, b: char): nat
  {
    if a == 'l' || a == 'h' then (if b == a then 2 else 1)
    else if a == 't' || a == 'j' || a == 'z' then 1
    else 0
  }

  function ParseLength(f: string, d: Directive): Directive
  {
    var a, b := At(f, d.at), At(f, d.at + 1);
    d.(fl := LengthFlags(a, b, d.fl), at := d.at + LengthSize(a, b))
  }

  /** The directive whose first character after `%` is at i. */
  function ParseDirective(f: string, i: nat, args: seq<Arg>, k: nat): Option<Directive>
  {
    var (fl, j) := ParseFlags(f, i, NO_FLAGS);
    match ParseWidth(f, Directive(fl, 0, 0, j, k), args)
    case None => None
    case Some(d) =>
      match ParsePrecision(f, d, args)
      case None => None
      case Some(e) => Some(ParseLength(f, e))
  }

  // ---- conversions ----

  predicate IsIntegerConversion(c: char) { c in ['d', 'i', 'u', 'x', 'X', 'o', 'b'] }
  predicate IsSigned(c: char) { c == 'd' || c == 'i' }

  function BaseOf(c: char): Base
  {
    if c == 'x' || c == 'X' then 16 else if c == 'o' then 8 else if c == 'b' then 2 else 10
  }

  function IntegerFlags(c: char, fl: Flags): Flags
  {
    fl.(hash := fl.hash && BaseOf(c) != 10, upper := c == 'X', plus := fl.plus && IsSigned(c),
        space := fl.space && IsSigned(c), zeropad := fl.zeropad && !fl.precision)
  }

  function SignedArg(fl: Flags, bits: Word): int
  {
    if fl.asLongLong || fl.asLong then Wrapped(bits, TWO64)
    else if fl.asChar then Wrapped(bits, 0x100)
    else if fl.asShort then Wrapped(bits, 0x1_0000)
    else Int32(bits)
  }

  function UnsignedArg(fl: Flags, bits: Word): Word
  {
    if fl.asLongLong || fl.asLong then bits
    else if fl.asChar then bits % 0x100
    else if fl.asShort then bits % 0x1_0000
    else bits % TWO32
  }

  /** The magnitude of the least value of its type cannot be computed by negating it. */
  predicate NegationOverflows(fl: Flags, v: int)
  {
    if fl.asLongLong || fl.asLong then v == -0x8000_0000_0000_0000 else v == -0x8000_0000
  }

  function Magnitude(v: int): nat { if v > 0 then v else -v }

  function IntegerOut(c: char, d: Directive, bits: Word): Option<string>
  {
    var fl := IntegerFlags(c, d.fl);
    if IsSigned(c) then
      var v := SignedArg(fl, bits);
      if NegationOverflows(fl, v) then None
      else Some(Ntoa.Ntoa(Magnitude(v), v < 0, BaseOf(c), d.prec, d.width, fl))
    else Some(Ntoa.Ntoa(UnsignedArg(fl, bits), false, BaseOf(c), d.prec, d.width, fl))
  }

  function Padded(shown: string, len: nat, d: Directive): string
  {
    if d.fl.left then shown + Spaces(Less(len, d.width)) else Spaces(Less(len, d.width)) + shown
  }

  /** `_strnlen_s` with its `unsigned int` result. */
  function StringLength(text: string, d: Directive): nat
  {
    var l := (if d.prec != 0 then Min(|text|, d.prec) else Min(|text|, TWO64 - 1)) % TWO32;
    if d.fl.precision then Min(l, d.prec) else l
  }

  function Shown(text: string, d: Directive): string
  {
    if d.fl.precision then text[..Min(|text|, d.prec)] else text
  }

  function PointerFlags(fl: Flags): Flags { fl.(zeropad := true, upper := true) }

  /** What the conversion character prints, and how many arguments are used after it. None stands
      for a directive without its argument, for an undefined negation, and for a format that ends
      inside a directive. */
  function Convert(f: string, d: Directive, args: seq<Arg>): Option<(string, nat)>
  {
    var c := At(f, d.at);
    if d.at >= |f| then None
    else if IsIntegerConversion(c) then
      match NumArg(args, d.k)
      case None => None
      case Some(bits) =>
        (match IntegerOut(c, d, bits) case None => None case Some(s) => Some((s, d.k + 1)))
    else if c == 'c' then
      match NumArg(args, d.k)
      case None => None
      case Some(bits) => Some((Padded([(bits % 0x100) as char], 1, d), d.k + 1))
    else if c == 's' then
      if d.k < |args| && args[d.k].Str? && '\0' !in args[d.k].text
      then Some((Padded(Shown(args[d.k].text, d), StringLength(args[d.k].text, d), d), d.k + 1)) else None
    else if c == 'p' then
      match NumArg(args, d.k)
      case None => None
      case Some(bits) => Some((Ntoa.Ntoa(bits, false, 16, d.prec, 16, PointerFlags(d.fl)), d.k + 1))
    else Some(([c], d.k))
  }

  /** The unbounded output from position i on. */
  function Render(f: string, i: nat, args: seq<Arg>, k: nat): Option<string>
    decreases |f| - i
  {
    if i >= |f| then Some([])
    else if f[i] != '%' then
      match Render(f, i + 1, args, k)
      case None => None
      case Some(rest) => Some([f[i]] + rest)
    else
      match ParseDirective(f, i + 1, args, k)
      case None => None
      case Some(d) =>
        match Convert(f, d, args)
        case None => None
        case Some(p) =>
          DirectiveAdvances(f, i + 1, args, k);
          match Render(f, d.at + 1, args, p.1)
          case None => None
          case Some(rest) => Some(p.0 + rest)
  }

  lemma FlagsAdvance(f: string, i: nat, fl: Flags)
    ensures ParseFlags(f, i, fl).1 >= i
    decreases |f| - i
  {
  }

  lemma AtoiAdvances(f: string, i: nat, acc: nat)
    ensures Atoi(f, i, acc).1 >= i
    decreases |f| - i
  {
  }

  lemma DirectiveAdvances(f: string, i: nat, args: seq<Arg>, k: nat)
    ensures ParseDirective(f, i, args, k).Some? ==> ParseDirective(f, i, args, k).value.at >= i
  {
    FlagsAdvance(f, i, NO_FLAGS);
    var (fl, j) := ParseFlags(f, i, NO_FLAGS);
    AtoiAdvances(f, j, 0);
    var w := ParseWidth(f, Directive(fl, 0, 0, j, k), args);
    if w.Some? {
      AtoiAdvances(f, w.value.at + 1, 0);
    }
  }

  // ---- reading numbers ----

  lemma {:induction false} AtoiFrom(f: string, s: nat, i: nat)
    requires s <= i <= |f| && forall n :: s <= n < i ==> IsDigit(f[n])
    ensures var (v, j) := Atoi(f, i, Value(f[s..i], 10) % TWO32);
            && i <= j <= |f| && v == Value(f[s..j], 10) % TWO32
            && (forall n :: s <= n < j ==> IsDigit(f[n])) && !IsDigit(At(f, j))
    decreases |f| - i
  {
    if i < |f| && IsDigit(f[i]) {
      var x := Value(f[s..i], 10);
      assert f[s..i + 1][..i - s] == f[s..i];
      assert Value(f[s..i + 1], 10) == x * 10 + DigitValue(f[i]);
      WrapStep(x, DigitValue(f[i]));
      AtoiFrom(f, s, i + 1);
    }
  }

  lemma WrapStep(x: nat, d: nat)
    ensures (x % TWO32 * 10 + d) % TWO32 == (x * 10 + d) % TWO32
  {
    var q, r := x / TWO32, x % TWO32;
    var y := r * 10 + d;
    DivMod(x * 10 + d, TWO32, q * 10 + y / TWO32, y % TWO32);
  }

  lemma {:induction false} DecimalDigits(value: nat)
    ensures forall i :: 0 <= i < |Text(value, 10, false)| ==> IsDigit(Text(value, 10, false)[i])
  {
    hide Quot, Rem;
    Division(value, 10);
    if value >= 10 {
      DecimalDigits(Quot(value, 10));
    }
  }

  /** The digits at the start of s are those of t. */
  lemma DigitsStop(s: string, t: string, rest: string, j: nat)
    requires s == t + rest && j <= |s| && (rest == "" || !IsDigit(rest[0]))
    requires forall i :: 0 <= i < |t| ==> IsDigit(t[i])
    requires forall n :: 0 <= n < j ==> IsDigit(s[n])
    requires !IsDigit(At(s, j))
    ensures j == |t| && s[0..j] == t
  {
    assert forall n :: 0 <= n < |t| ==> s[n] == t[n];
    assert rest != "" ==> s[|t|] == rest[0];
    assert s[0..j] == t;
  }

  /** `_atoi` inverts decimal formatting, up to the width of an `unsigned int`. */
  lemma AtoiInvertsText(value: nat, rest: string)
    requires rest == "" || !IsDigit(rest[0])
    ensures var s := Text(value, 10, false) + rest;
            Atoi(s, 0, 0) == (value % TWO32, |Text(value, 10, false)|)
  {
    hide Text, Atoi, IsDigit;
    var t := Text(value, 10, false);
    var s := t + rest;
    DecimalDigits(value);
    TextReadsBack(value, 10, false);
    assert Value(s[0..0], 10) == 0;
    hide Value;
    AtoiFrom(s, 0, 0);
    var (v, j) := Atoi(s, 0, 0);
    DigitsStop(s, t, rest, j);
  }
}
