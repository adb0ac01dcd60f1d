/** What sections 7.21.6.1 and 7.21.6.5 of ISO/IEC 9899:2018 ask of the directives of a format, read
    without the formatter's own parser, and exactly when the formatter puts that out. */
module Standard {
  import opened Bits
  import opened Wrappers
  import opened Digits
  import opened Ntoa
  import opened Format

  // ---- characters and numbers, without the formatter's functions ----

  const LOWER: string := "0123456789abcdef"
  const UPPER: string := "0123456789ABCDEF"

  predicate FlagChar(c: char) { c in "-+ #0" }
  predicate Decimal(c: char) { '0' <= c <= '9' }

  function Repeat(c: char, n: nat): (s: string)
    ensures |s| == n
  {
    seq(n, _ => c)
  }

  /** The numeral of v in some base, with these digits. */
  function Numeral(v: nat, base: nat, letters: string): (s: string)
    requires 2 <= base <= |letters|
    ensures |s| > 0
  {
    if v < base then [letters[v]] else
    Division(v, base);
    Numeral(Quot(v, base), base, letters) + [letters[Rem(v, base)]]
  }

  function DecimalValue(s: string): nat
    requires forall c :: c in s ==> Decimal(c)
  {
    if s == "" then 0 else
    assert Decimal(s[|s| - 1]) && forall c :: c in s[..|s| - 1] ==> c in s;
    DecimalValue(s[..|s| - 1]) * 10 + (s[|s| - 1] as int - '0' as int)
  }

  /** The value of these bits in a signed type with that many values. */
  function TwosComplement(bits: nat, size: nat): int
    requires size > 0
  {
    if 2 * (bits % size) >= size then bits % size - size else bits % size
  }

  // ---- the standard's reading of a directive ----

  function FlagsEnd(f: string, i: nat): (j: nat)
    ensures i <= j && (i <= |f| ==> j <= |f|)
    decreases |f| - i
  {
    if i < |f| && FlagChar(f[i]) then FlagsEnd(f, i + 1) else i
  }

  function DigitsEnd(f: string, i: nat): (j: nat)
    ensures i <= j && (i <= |f| ==> j <= |f|) && forall n :: i <= n < j ==> n < |f| && Decimal(f[n])
    decreases |f| - i
  {
    if i < |f| && Decimal(f[i]) then DigitsEnd(f, i + 1) else i
  }

  function NumberAt(f: string, i: nat): nat
    requires i <= |f|
  {
    DecimalValue(f[i..DigitsEnd(f, i)])
  }

  /** A directive up to its conversion character at `at`, after which k arguments are used. A `.` was
      written if it is dotted; a precision that is then missing was a negative argument. */
  datatype Reading = Reading(flags: string, left: bool, width: nat, dotted: bool, precision: Option<nat>,
                             length: string, at: nat, k: nat)

  /** A negative width argument is a `-` flag and a width. */
  function WidthReading(f: string, r: Reading, args: seq<Arg>): Option<Reading>
    requires r.at <= |f|
  {
    if At(f, r.at) == '*' then
      match NumArg(args, r.k)
      case None => None
      case Some(bits) =>
        var w := TwosComplement(bits, 0x1_0000_0000);
        Some(r.(left := r.left || w < 0, width := if w < 0 then -w else w, at := r.at + 1, k := r.k + 1))
    else
      var j := DigitsEnd(f, r.at);
      Some(r.(width := NumberAt(f, r.at), at := j))
  }

  /** A negative precision argument is taken as if the precision were omitted; a `.` alone is 0. */
  function PrecisionReading(f: string, r: Reading, args: seq<Arg>): Option<Reading>
    requires r.at <= |f|
  {
    if At(f, r.at) != '.' then Some(r)
    else if At(f, r.at + 1) == '*' then
      match NumArg(args, r.k)
      case None => None
      case Some(bits) =>
        var p := TwosComplement(bits, 0x1_0000_0000);
        Some(r.(dotted := true, precision := if p < 0 then None else Some(p), at := r.at + 2, k := r.k + 1))
    else
      var j := DigitsEnd(f, r.at + 1);
      Some(r.(dotted := true, precision := Some(NumberAt(f, r.at + 1)), at := j))
  }

  const LENGTHS: seq<string> := ["", "h", "hh", "l", "ll", "t", "j", "z"]

  /** The longest length modifier at this place. */
  function LengthReading(f: string, i: nat): string
  {
    if i + 2 <= |f| && f[i..i + 2] in ["hh", "ll"] then f[i..i + 2]
    else if i + 1 <= |f| && f[i..i + 1] in ["h", "l", "t", "j", "z"] then f[i..i + 1]
    else ""
  }

  /** The directive whose first character after `%` is at i. */
  function ReadingOf(f: string, i: nat, args: seq<Arg>, k: nat): Option<Reading>
    requires i <= |f|
  {
    var j := FlagsEnd(f, i);
    match WidthReading(f, Reading(f[i..j], '-' in f[i..j], 0, false, None, "", j, k), args)
    case None => None
    case Some(r) =>
      if r.at > |f| then None else
      match PrecisionReading(f, r, args)
      case None => None
      case Some(q) =>
        var len := LengthReading(f, q.at);
        Some(q.(length := len, at := q.at + |len|))
  }

  // ---- the fields it asks for ----

  predicate StandardInteger(c: char) { c in "diuxXo" }
  predicate SignedConversion(c: char) { c in "di" }
  function RadixOf(c: char): nat { if c == 'o' then 8 else if c in "xX" then 16 else 10 }
  function LettersOf(c: char): string { if c == 'X' then UPPER else LOWER }

  function Modulus(length: string): nat
  {
    if length == "hh" then 0x100 else if length == "h" then 0x1_0000
    else if length == "" then 0x1_0000_0000 else 0x1_0000_0000_0000_0000
  }

  /** The argument's value in the type the conversion and the length modifier name. */
  function ValueOf(r: Reading, c: char, bits: Word): int
  {
    if SignedConversion(c) then TwosComplement(bits, Modulus(r.length)) else bits % Modulus(r.length)
  }

  function Or0(p: Option<nat>): nat { match p case None => 0 case Some(n) => n }
  function Absolute(v: int): nat { if v < 0 then -v else v }
  function Lacking(have: nat, want: nat): nat { if have < want then want - have else 0 }

  /** The numeral; for 0 with a precision nothing but the zeros the precision asks for. */
  function DigitsAsked(r: Reading, c: char, v: int): string
  {
    if r.precision.Some? && v == 0 then "" else Numeral(Absolute(v), RadixOf(c), LettersOf(c))
  }

  function SignAsked(r: Reading, c: char, v: int): string
  {
    if v < 0 then "-" else if !SignedConversion(c) then ""
    else if '+' in r.flags then "+" else if ' ' in r.flags then " " else ""
  }

  /** The `0` flag is in force: a precision switches it off. */
  predicate ZeroFilled(r: Reading) { '0' in r.flags && r.precision == None }

  /** A sign, the digits with zeros up to the precision, and padding to the width: spaces on the right
      with `-`, zeros after the sign with `0`, else spaces on the left. */
  function IntegerField(r: Reading, c: char, bits: Word): string
  {
    var v := ValueOf(r, c, bits);
    var digits, sign := DigitsAsked(r, c, v), SignAsked(r, c, v);
    var body := Repeat('0', Lacking(|digits|, Or0(r.precision))) + digits;
    var pad := Lacking(|sign| + |body|, r.width);
    if r.left then sign + body + Repeat(' ', pad)
    else if ZeroFilled(r) then sign + Repeat('0', pad) + body
    else Repeat(' ', pad) + sign + body
  }

  /** A string up to its precision, padded to the width. */
  function StringField(r: Reading, text: string): string
  {
    var shown := if r.precision.Some? && r.precision.value < |text| then text[..r.precision.value] else text;
    var pad := Repeat(' ', Lacking(|shown|, r.width));
    if r.left then shown + pad else pad + shown
  }

  // ---- the formatter's functions, compared ----

  lemma SameCharacters(c: char)
    ensures FlagChar(c) == IsFlag(c) && Decimal(c) == IsDigit(c)
  {
  }

  lemma SameRepeat(n: nat)
    ensures Repeat(' ', n) == Spaces(n) && Repeat('0', n) == Zeros(n)
  {
  }

  lemma SameDigit(d: nat, upper: bool)
    requires d < 16
    ensures DigitChar(d, upper) == (if upper then UPPER else LOWER)[d]
  {
  }

  lemma {:induction false} SameNumeral(v: nat, base: Base, upper: bool)
    ensures Text(v, base, upper) == Numeral(v, base, if upper then UPPER else LOWER)
  {
    hide DigitChar;
    var letters := if upper then UPPER else LOWER;
    if v < base {
      SameDigit(v, upper);
    } else {
      Division(v, base);
      SameNumeral(Quot(v, base), base, upper);
      SameDigit(Rem(v, base), upper);
    }
  }

  lemma {:induction false} SameDecimal(s: string)
    requires forall c :: c in s ==> Decimal(c)
    ensures DecimalValue(s) == Value(s, 10)
  {
    if s != "" {
      assert s[|s| - 1] in s && forall c :: c in s[..|s| - 1] ==> c in s;
      SameDecimal(s[..|s| - 1]);
    }
  }

  lemma SameWrapped(bits: nat, size: nat)
    requires size > 0 && size % 2 == 0
    ensures TwosComplement(bits, size) == Wrapped(bits, size)
  {
    hide Wrapped;
    var x := bits % size;
    assert size == 2 * (size / 2);
    WrappedIs(bits, size);
  }

  lemma WrappedIs(bits: nat, size: nat)
    requires size > 0
    ensures Wrapped(bits, size) == if bits % size >= size / 2 then bits % size - size else bits % size
  {
  }

  /** The flags for a field, as the formatter's functions take them. */
  function FlagsInForce(r: Reading, c: char): Flags
  {
    NO_FLAGS.(left := r.left, zeropad := ZeroFilled(r), upper := c == 'X',
              plus := '+' in r.flags && SignedConversion(c),
              space := ' ' in r.flags && SignedConversion(c), precision := r.precision.Some?)
  }

  lemma SameParts(r: Reading, c: char, v: int)
    requires StandardInteger(c) && (v < 0 ==> SignedConversion(c))
    ensures RadixOf(c) == BaseOf(c) && Absolute(v) == Magnitude(v)
    ensures DigitsAsked(r, c, v) == DigitsOf(Magnitude(v), BaseOf(c), FlagsInForce(r, c))
    ensures SignAsked(r, c, v) == Sign(v < 0, FlagsInForce(r, c))
  {
    SameNumeral(Magnitude(v), BaseOf(c), c == 'X');
  }

  /** The standard's field is the one the formatter is compared with. */
  lemma SameFieldAsked(r: Reading, c: char, bits: Word)
    requires StandardInteger(c)
    ensures var v := ValueOf(r, c, bits);
            IntegerField(r, c, bits)
            == Field(Magnitude(v), v < 0, BaseOf(c), Or0(r.precision), r.width, FlagsInForce(r, c))
  {
    hide DigitsAsked, DigitsOf, SignAsked, Sign, TwosComplement, Repeat, Spaces, Zeros;
    var v := ValueOf(r, c, bits);
    SameParts(r, c, v);
    var digits := DigitsAsked(r, c, v);
    SameRepeat(Lacking(|digits|, Or0(r.precision)));
    var body := Repeat('0', Lacking(|digits|, Or0(r.precision))) + digits;
    SameRepeat(Lacking(|SignAsked(r, c, v)| + |body|, r.width));
  }

  // ---- what the parser makes of it ----

  function Flagged(s: string, fl: Flags): Flags
  {
    if s == "" then fl else Flagged(s[1..], SetFlag(fl, s[0]))
  }

  /** Each flag is set just when its character is there, in any order and however often. */
  lemma {:induction false} FlagsAre(s: string, fl: Flags)
    ensures Flagged(s, fl) == fl.(zeropad := fl.zeropad || '0' in s, left := fl.left || '-' in s,
                                  plus := fl.plus || '+' in s, space := fl.space || ' ' in s,
                                  hash := fl.hash || '#' in s)
  {
    if s != "" {
      assert s == [s[0]] + s[1..];
      assert forall c :: c in s <==> c == s[0] || c in s[1..];
      FlagsAre(s[1..], SetFlag(fl, s[0]));
    }
  }

  lemma {:induction false} FlagsRead(f: string, i: nat, fl: Flags)
    requires i <= |f|
    ensures var j := FlagsEnd(f, i); ParseFlags(f, i, fl) == (Flagged(f[i..j], fl), j) && !IsFlag(At(f, j))
    decreases |f| - i
  {
    hide SetFlag, IsFlag, FlagChar;
    var j := FlagsEnd(f, i);
    if i < |f| {
      SameCharacters(f[i]);
    }
    if i < |f| && FlagChar(f[i]) {
      assert f[i] == f[i..j][0] && f[i..j][1..] == f[i + 1..j];
      FlagsRead(f, i + 1, SetFlag(fl, f[i]));
    } else {
      NulIsNoFlag();
    }
  }

  lemma NulIsNoFlag()
    ensures !IsFlag('\0') && !IsDigit('\0')
  {
  }

  lemma {:induction false} DigitsEndIs(f: string, i: nat, j: nat)
    requires i <= j <= |f| && (forall n :: i <= n < j ==> IsDigit(f[n])) && !IsDigit(At(f, j))
    ensures DigitsEnd(f, i) == j
    decreases j - i
  {
    if i < j {
      DigitsEndIs(f, i + 1, j);
    }
  }

  /** `_atoi` reads the digits there are, modulo 2^32. */
  lemma NumberRead(f: string, i: nat)
    requires i <= |f|
    ensures Atoi(f, i, 0) == (NumberAt(f, i) % TWO32, DigitsEnd(f, i))
  {
    assert f[i..i] == [];
    AtoiFrom(f, i, i);
    DigitsEndIs(f, i, Atoi(f, i, 0).1);
    SameDecimal(f[i..DigitsEnd(f, i)]);
  }

  lemma NoNumber(f: string, i: nat)
    requires i <= |f| && !IsDigit(At(f, i))
    ensures DigitsEnd(f, i) == i && NumberAt(f, i) == 0
  {
  }

  function WithLength(fl: Flags, len: string): Flags
  {
    fl.(asShort := len == "h" || len == "hh", asChar := len == "hh",
        asLong := len in ["l", "ll", "t", "j", "z"], asLongLong := len == "ll")
  }

  /** The flags, width and precision of a directive as the parser keeps them. */
  function Kept(r: Reading): Directive
  {
    var fl := NO_FLAGS.(zeropad := '0' in r.flags, left := r.left, plus := '+' in r.flags, space := ' ' in r.flags,
                        hash := '#' in r.flags, precision := r.dotted);
    Directive(WithLength(fl, r.length), r.width % TWO32, Or0(r.precision) % TWO32, r.at, r.k)
  }

  /** The width at this place is an argument whose magnitude cannot be computed. */
  predicate LeastWidth(f: string, at: nat, args: seq<Arg>, k: nat)
  {
    At(f, at) == '*' && NumArg(args, k).Some? && TwosComplement(NumArg(args, k).value, 0x1_0000_0000) == -0x8000_0000
  }

  lemma WidthParsed(f: string, r: Reading, args: seq<Arg>)
    requires r.at <= |f| && r.width == 0 && r.length == ""
    requires WidthReading(f, r, args).Some?
    ensures var q := WidthReading(f, r, args).value;
            && ParseWidth(f, Kept(r), args) == (if LeastWidth(f, r.at, args, r.k) then None else Some(Kept(q)))
            && q.at <= |f|
            && q == r.(left := q.left, width := q.width, at := q.at, k := q.k)
  {
    hide Atoi, NumberAt, Wrapped, TwosComplement;
    Int32Range(args, r.k);
    if IsDigit(At(f, r.at)) {
      NumberRead(f, r.at);
    } else if At(f, r.at) != '*' {
      NoNumber(f, r.at);
    }
  }

  lemma Int32Range(args: seq<Arg>, k: nat)
    ensures NumArg(args, k).Some? ==>
              var n := Int32(NumArg(args, k).value);
              -0x8000_0000 <= n < 0x8000_0000 && TwosComplement(NumArg(args, k).value, 0x1_0000_0000) == n
  {
    if NumArg(args, k).Some? {
      SameWrapped(NumArg(args, k).value, TWO32);
    }
  }

  lemma PrecisionParsed(f: string, r: Reading, args: seq<Arg>)
    requires r.at <= |f| && !r.dotted && r.precision == None && r.length == ""
    requires PrecisionReading(f, r, args).Some?
    ensures var q := PrecisionReading(f, r, args).value;
            && ParsePrecision(f, Kept(r), args) == Some(Kept(q)) && q.at <= |f|
            && q == r.(dotted := q.dotted, precision := q.precision, at := q.at, k := q.k)
  {
    hide Atoi, NumberAt, Wrapped, TwosComplement;
    Int32Range(args, r.k);
    if At(f, r.at) == '.' {
      if IsDigit(At(f, r.at + 1)) {
        NumberRead(f, r.at + 1);
      } else if At(f, r.at + 1) != '*' {
        NoNumber(f, r.at + 1);
      }
    }
  }

  lemma LengthParsed(f: string, r: Reading)
    requires r.at <= |f| && r.length == ""
    ensures var len := LengthReading(f, r.at);
            ParseLength(f, Kept(r)) == Kept(r.(length := len, at := r.at + |len|))
  {
    hide LengthFlags, LengthReading, LengthSize, At;
    var i := r.at;
    LengthChars(f, i);
    LengthOver(At(f, i), At(f, i + 1), Kept(r).fl, LengthReading(f, i));
  }

  /** A length modifier touches its own flags only. */
  lemma LengthOver(a: char, b: char, fl: Flags, len: string)
    requires LengthFlags(a, b, NO_FLAGS) == WithLength(NO_FLAGS, len)
    requires !fl.asShort && !fl.asChar && !fl.asLong && !fl.asLongLong
    ensures LengthFlags(a, b, fl) == WithLength(fl, len)
  {
  }

  lemma LengthChars(f: string, i: nat)
    requires i <= |f|
    ensures var len := LengthReading(f, i);
            var fl := LengthFlags(At(f, i), At(f, i + 1), NO_FLAGS);
            |len| == LengthSize(At(f, i), At(f, i + 1)) && fl == WithLength(NO_FLAGS, len)
  {
    if i < |f| {
      assert f[i..i + 1] == [f[i]];
    }
    if i + 2 <= |f| {
      assert f[i..i + 2] == [f[i], f[i + 1]];
    }
  }

  /** The parser agrees with the standard's reading, modulo 2^32, but for the sign of a precision
      argument: it only remembers that a precision was written. It is undefined for a width argument
      that cannot be negated. */
  lemma ParserReads(f: string, i: nat, args: seq<Arg>, k: nat)
    requires i <= |f| && ReadingOf(f, i, args, k).Some?
    ensures ParseDirective(f, i, args, k)
            == if LeastWidth(f, FlagsEnd(f, i), args, k) then None else Some(Kept(ReadingOf(f, i, args, k).value))
  {
    hide ParseFlags, ParseWidth, ParsePrecision, ParseLength, WidthReading, PrecisionReading, LengthReading, Kept,
         LeastWidth;
    FlagsRead(f, i, NO_FLAGS);
    var j := FlagsEnd(f, i);
    FlagsAre(f[i..j], NO_FLAGS);
    var r := Reading(f[i..j], '-' in f[i..j], 0, false, None, "", j, k);
    KeptStart(r);
    WidthParsed(f, r, args);
    var q := WidthReading(f, r, args).value;
    PrecisionParsed(f, q, args);
    LengthParsed(f, PrecisionReading(f, q, args).value);
  }

  lemma KeptStart(r: Reading)
    requires r.left == ('-' in r.flags) && r.width == 0 && !r.dotted && r.precision == None && r.length == ""
    ensures Kept(r) == Directive(NO_FLAGS.(zeropad := '0' in r.flags, left := '-' in r.flags, plus := '+' in r.flags,
                                           space := ' ' in r.flags, hash := '#' in r.flags), 0, 0, r.at, r.k)
  {
  }

  // ---- integer fields ----

  /** A precision was written as `*`, and its argument is negative. */
  predicate NegativePrecision(r: Reading) { r.dotted && r.precision == None }

  /** A negative precision argument leaves the code with a precision of 0 and without the `0` flag:
      that shows unless the value is not 0 and no zeros were to be filled in. */
  predicate NegativeFits(r: Reading, value: nat, digits: nat, sign: string)
  {
    value != 0 && (r.left || '0' !in r.flags || r.width <= |sign| + digits)
  }

  /** What fits the code's buffer of 32 characters: `-` drops the zeros of a precision, and zeros that
      fill the buffer leave no room for a sign. */
  predicate BufferFits(r: Reading, digits: nat, sign: string)
  {
    var p := Or0(r.precision);
    if r.left then p <= digits
    else if ZeroFilled(r) then r.width <= 32
    else p < 32 || (p == 32 && (sign == "" || (sign == " " && r.width > 32)))
  }

  /** Exactly when the code meets the standard. Numbers in a format wrap at 2^32. */
  predicate Meets(r: Reading, c: char, bits: Word)
  {
    var v := ValueOf(r, c, bits);
    var digits, sign := |DigitsAsked(r, c, v)|, SignAsked(r, c, v);
    && r.width < 0x1_0000_0000 && Or0(r.precision) < 0x1_0000_0000
    && (if NegativePrecision(r) then NegativeFits(r, Absolute(v), digits, sign) else BufferFits(r, digits, sign))
  }

  /** Two sets of flags that ask for the same field. */
  predicate SameField(x: Flags, y: Flags)
  {
    && x.left == y.left && x.zeropad == y.zeropad && x.plus == y.plus && x.space == y.space
    && x.upper == y.upper && x.precision == y.precision
  }

  lemma SameFields(value: nat, negative: bool, base: Base, prec: nat, width: nat, x: Flags, y: Flags)
    requires SameField(x, y)
    ensures Field(value, negative, base, prec, width, x) == Field(value, negative, base, prec, width, y)
    ensures DigitsOf(value, base, x) == DigitsOf(value, base, y) && Sign(negative, x) == Sign(negative, y)
    ensures forall digits: nat, sign: string ::
              Fits(digits, sign, prec, width, x) == Fits(digits, sign, prec, width, y)
  {
    hide Text, Zeros, Spaces;
  }

  lemma FieldIsLong(value: nat, negative: bool, base: Base, prec: nat, width: nat, fl: Flags)
    ensures |Field(value, negative, base, prec, width, fl)| >= width
    ensures |Field(value, negative, base, prec, width, fl)| >= prec
  {
    hide DigitsOf, Sign;
  }

  lemma NtoaIsShort(value: nat, negative: bool, base: Base, prec: nat, width: nat, fl: Flags)
    requires width < TWO32
    ensures |Ntoa.Ntoa(value, negative, base, prec, width, fl)| < TWO32
  {
    hide Ntoa.Ntoa, FormatBuf, DigitBuf;
    FieldLength(value, negative, base, prec, width, fl);
  }

  lemma TextOfZero(base: Base, upper: bool)
    ensures Text(0, base, upper) == ['0']
  {
  }

  lemma NoZeros(digits: string)
    ensures Zeros(Less(|digits|, 0)) + digits == digits
  {
  }

  /** Without digits no 0 is printed, with the digit 0 one is. */
  lemma ZeroShows(x: Flags, y: Flags, sign: string, width: nat)
    requires '0' !in sign && x.left == y.left && !x.zeropad
    ensures Laid(sign, [], width, x) != Laid(sign, ['0'], width, y)
  {
    assert '0' !in Laid(sign, [], width, x);
    var pad := Less(|sign| + 1, width);
    var out := Laid(sign, ['0'], width, y);
    assert out[if y.left then |sign| else |sign| + pad] == '0';
  }

  /** Zeros after the sign differ from spaces before it. */
  lemma ZerosShow(sign: string, digits: string, pad: nat)
    requires |sign| <= 1 && '0' !in sign
    ensures Spaces(pad) + sign + digits == sign + Zeros(pad) + digits <==> pad == 0
  {
    var x, y := Spaces(pad) + sign + digits, sign + Zeros(pad) + digits;
    if pad == 0 {
      assert x == y;
    } else {
      assert x[|sign|] == if |sign| < pad then ' ' else sign[0];
      assert y[|sign|] == '0';
    }
  }

  /** How a field lays out its sign and its digits. */
  function Laid(sign: string, body: string, width: nat, fl: Flags): string
  {
    var pad := Less(|sign| + |body|, width);
    if fl.left then sign + body + Spaces(pad)
    else if fl.zeropad then sign + Zeros(pad) + body
    else Spaces(pad) + sign + body
  }

  lemma FieldIsLaid(value: nat, negative: bool, base: Base, width: nat, fl: Flags)
    ensures Field(value, negative, base, 0, width, fl) == Laid(Sign(negative, fl), DigitsOf(value, base, fl), width, fl)
  {
    hide Zeros, Spaces, DigitsOf, Sign;
    NoZeros(DigitsOf(value, base, fl));
  }

  lemma NegativeLaid(r: Reading, x: Flags, y: Flags, sign: string, digits: string)
    requires x.left == y.left == r.left && !x.zeropad && y.zeropad == ('0' in r.flags)
    requires |sign| <= 1 && '0' !in sign
    ensures Laid(sign, digits, r.width, x) == Laid(sign, digits, r.width, y)
            <==> r.left || '0' !in r.flags || r.width <= |sign| + |digits|
  {
    hide Zeros, Spaces;
    ZerosShow(sign, digits, Less(|sign| + |digits|, r.width));
  }

  /** A field with a precision of 0 and no zeros filled in, and the field without a precision. */
  lemma NegativeField(r: Reading, value: Word, negative: bool, base: Base, x: Flags, y: Flags)
    requires x.left == y.left == r.left && x.plus == y.plus && x.space == y.space && x.upper == y.upper
    requires x.precision && !x.zeropad && !y.precision && y.zeropad == ('0' in r.flags)
    ensures Field(value, negative, base, 0, r.width, x) == Field(value, negative, base, 0, r.width, y)
            <==> NegativeFits(r, value, |DigitsOf(value, base, y)|, Sign(negative, y))
  {
    hide Laid, Text, Field;
    var sign := Sign(negative, y);
    FieldIsLaid(value, negative, base, r.width, x);
    FieldIsLaid(value, negative, base, r.width, y);
    if value == 0 {
      TextOfZero(base, y.upper);
      ZeroShows(x, y, sign, r.width);
    } else {
      NegativeLaid(r, x, y, sign, Text(value, base, y.upper));
    }
  }

  /** The integer the formatter is asked to print. */
  ghost predicate AsksInteger(f: string, i: nat, args: seq<Arg>, k: nat, r: Reading, bits: Word)
  {
    && i <= |f| && ReadingOf(f, i, args, k) == Some(r) && !LeastWidth(f, FlagsEnd(f, i), args, k)
    && r.at < |f| && StandardInteger(f[r.at]) && r.k < |args| && args[r.k] == Num(bits)
    && !('#' in r.flags && f[r.at] in "xXo")
  }

  /** The least value of a signed type, whose magnitude the code cannot compute. */
  predicate LeastValue(r: Reading, c: char, bits: Word)
  {
    var v := ValueOf(r, c, bits);
    SignedConversion(c) && ((r.length == "" && v == -0x8000_0000)
                            || (r.length !in ["", "h", "hh"] && v == -0x8000_0000_0000_0000))
  }

  lemma ValuesAgree(r: Reading, c: char, bits: Word)
    requires StandardInteger(c) && r.length in LENGTHS
    ensures var fl := IntegerFlags(c, Kept(r).fl);
            SignedConversion(c) == IsSigned(c)
            && ValueOf(r, c, bits) == if IsSigned(c) then SignedArg(fl, bits) else UnsignedArg(fl, bits)
  {
    hide Wrapped, TwosComplement;
    SameWrapped(bits, Modulus(r.length));
    DivMod(bits, TWO64, 0, bits);
  }

  lemma MagnitudeIsWord(r: Reading, c: char, bits: Word)
    ensures Magnitude(ValueOf(r, c, bits)) < TWO64
  {
  }

  lemma LengthIsOne(f: string, i: nat, args: seq<Arg>, k: nat)
    requires i <= |f| && ReadingOf(f, i, args, k).Some?
    ensures ReadingOf(f, i, args, k).value.length in LENGTHS
  {
    hide WidthReading, PrecisionReading;
  }

  lemma LeastAgrees(r: Reading, c: char, bits: Word)
    requires StandardInteger(c) && r.length in LENGTHS
    ensures var fl := IntegerFlags(c, Kept(r).fl);
            SignedConversion(c) ==> (NegationOverflows(fl, ValueOf(r, c, bits)) <==> LeastValue(r, c, bits))
  {
    hide TwosComplement;
    SmallIsBounded(bits, Modulus(r.length));
  }

  lemma SmallIsBounded(bits: nat, size: nat)
    requires size > 0
    ensures 0 <= TwosComplement(bits, size) + size && TwosComplement(bits, size) < size
  {
  }

  /** What the code puts out for an integer directive. */
  lemma IntegerPrinted(f: string, i: nat, args: seq<Arg>, k: nat, r: Reading, bits: Word)
    requires AsksInteger(f, i, args, k, r, bits)
    ensures var c := f[r.at];
            var v := ValueOf(r, c, bits);
            var d := Kept(r);
            && ParseDirective(f, i, args, k) == Some(d)
            && Convert(f, d, args)
               == if LeastValue(r, c, bits) then None
                  else Some((Ntoa.Ntoa(Magnitude(v), v < 0, BaseOf(c), d.prec, d.width, IntegerFlags(c, d.fl)),
                             r.k + 1))
  {
    hide ParseDirective, ReadingOf, Ntoa.Ntoa, ValueOf, SignedArg, UnsignedArg, IntegerFlags, LeastWidth, LeastValue,
         NegationOverflows;
    var c := f[r.at];
    ParserReads(f, i, args, k);
    LengthIsOne(f, i, args, k);
    ValuesAgree(r, c, bits);
    LeastAgrees(r, c, bits);
    UnsignedIsPositive(r, c, bits);
  }

  lemma UnsignedIsPositive(r: Reading, c: char, bits: Word)
    ensures ValueOf(r, c, bits) < 0 ==> SignedConversion(c)
    ensures LeastValue(r, c, bits) ==> SignedConversion(c)
    ensures !SignedConversion(c) ==> Magnitude(ValueOf(r, c, bits)) == ValueOf(r, c, bits)
  {
  }

  lemma FlagsAgree(r: Reading, c: char)
    requires StandardInteger(c) && !('#' in r.flags && c in "xXo") && (r.precision.Some? ==> r.dotted)
    ensures var x := IntegerFlags(c, Kept(r).fl);
            var y := FlagsInForce(r, c);
            && !x.hash && (x.precision ==> !x.zeropad) && x.precision == r.dotted
            && x.left == y.left == r.left && x.plus == y.plus && x.space == y.space && x.upper == y.upper
            && y.zeropad == ZeroFilled(r)
            && (NegativePrecision(r) ==> !y.precision && y.zeropad == ('0' in r.flags))
            && (!NegativePrecision(r) ==> SameField(x, y))
  {
  }

  lemma DottedIf(f: string, i: nat, args: seq<Arg>, k: nat)
    requires i <= |f| && ReadingOf(f, i, args, k).Some?
    ensures ReadingOf(f, i, args, k).value.precision.Some? ==> ReadingOf(f, i, args, k).value.dotted
  {
    hide LengthReading;
  }

  /** Field by field: the code's output for a reading, compared with the standard's. */
  lemma FieldMeets(r: Reading, c: char, bits: Word)
    requires StandardInteger(c) && !('#' in r.flags && c in "xXo") && (r.precision.Some? ==> r.dotted)
    ensures var v := ValueOf(r, c, bits);
            var d := Kept(r);
            Ntoa.Ntoa(Magnitude(v), v < 0, BaseOf(c), d.prec, d.width, IntegerFlags(c, d.fl))
            == IntegerField(r, c, bits)
            <==> Meets(r, c, bits)
  {
    hide TwosComplement, Ntoa.Ntoa, Field, Fits, BufferFits, NegativeFits, DigitsOf, DigitsAsked, Sign, SignAsked,
         IntegerFlags, FlagsInForce, IntegerField;
    var v := ValueOf(r, c, bits);
    var value, base := Magnitude(v), BaseOf(c);
    var d := Kept(r);
    var x, y := IntegerFlags(c, d.fl), FlagsInForce(r, c);
    MagnitudeIsWord(r, c, bits);
    FlagsAgree(r, c);
    SameFieldAsked(r, c, bits);
    SameParts(r, c, v);
    SameFits(r, |DigitsOf(value, base, y)|, Sign(v < 0, y), y);
    if r.width < TWO32 && Or0(r.precision) < TWO32 {
      FieldExactly(value, v < 0, base, d.prec, d.width, x);
      if NegativePrecision(r) {
        NegativeField(r, value, v < 0, base, x, y);
        FitsZero(|DigitsOf(value, base, x)|, Sign(v < 0, x), r.width, x);
      } else {
        SameFields(value, v < 0, base, d.prec, d.width, x, y);
      }
    } else {
      NtoaIsShort(value, v < 0, base, d.prec, d.width, x);
      FieldIsLong(value, v < 0, base, Or0(r.precision), r.width, y);
    }
  }

  lemma SameFits(r: Reading, digits: nat, sign: string, fl: Flags)
    requires fl.left == r.left && fl.zeropad == ZeroFilled(r)
    ensures BufferFits(r, digits, sign) == Fits(digits, sign, Or0(r.precision), r.width, fl)
  {
  }

  lemma FitsZero(digits: nat, sign: string, width: nat, fl: Flags)
    requires !fl.zeropad
    ensures Fits(digits, sign, 0, width, fl)
  {
  }

  /** For every integer directive of the standard and every argument list: the directive is undefined
      just for the least value, uses one argument, and puts out the field the standard asks for just
      when it meets these conditions. Only an effective `#` is left out. */
  lemma IntegerFieldExactly(f: string, i: nat, args: seq<Arg>, k: nat, r: Reading, bits: Word)
    requires AsksInteger(f, i, args, k, r, bits)
    ensures var c := f[r.at];
            var out := Convert(f, Kept(r), args);
            && ParseDirective(f, i, args, k) == Some(Kept(r))
            && (out == None <==> LeastValue(r, c, bits))
            && (out.Some? ==>
                  out.value.1 == r.k + 1 && (out.value.0 == IntegerField(r, c, bits) <==> Meets(r, c, bits)))
  {
    hide ParseDirective, Convert, Ntoa.Ntoa, IntegerField, Meets, Kept, LeastWidth, LeastValue;
    IntegerPrinted(f, i, args, k, r, bits);
    DottedIf(f, i, args, k);
    FieldMeets(r, f[r.at], bits);
  }

  // ---- string fields ----

  predicate AllSpaces(text: string) { forall c :: c in text ==> c == ' ' }

  /** Exactly when a string is put out as the standard asks. With a negative precision argument, which
      omits the precision, the code prints no character of it; numbers in a format wrap at 2^32; and
      without a precision so does the length that is padded. */
  predicate StringMeets(r: Reading, text: string)
  {
    var l, w := |text|, r.width;
    if NegativePrecision(r) then AllSpaces(text) && l <= w < TWO32
    else if !r.dotted then Less(l % TWO32, w % TWO32) == Less(l, w)
    else
      var p := Or0(r.precision) % TWO32;
      && w < TWO32
      && (Or0(r.precision) < TWO32 || l <= p || (l <= w && AllSpaces(if r.left then text[p..] else text)))
  }

  lemma StringFieldExactly(f: string, i: nat, args: seq<Arg>, k: nat, r: Reading, text: string)
    requires i <= |f| && ReadingOf(f, i, args, k) == Some(r) && !LeastWidth(f, FlagsEnd(f, i), args, k)
    requires r.at < |f| && f[r.at] == 's'
    requires r.k < |args| && args[r.k] == Str(text) && '\0' !in text && |text| < TWO64
    ensures var out := Convert(f, Kept(r), args);
            && ParseDirective(f, i, args, k) == Some(Kept(r))
            && out.Some? && out.value.1 == r.k + 1 && (out.value.0 == StringField(r, text) <==> StringMeets(r, text))
  {
    hide ParseDirective, ReadingOf, Padded, Shown, StringLength, StringField, StringMeets, LeastWidth;
    ParserReads(f, i, args, k);
    DottedIf(f, i, args, k);
    StringPadded(r, text);
  }

  /** Text and padding, on the side the flags ask for. */
  function Placed(text: string, pad: nat, left: bool): string
  {
    if left then text + Spaces(pad) else Spaces(pad) + text
  }

  lemma StringPadded(r: Reading, text: string)
    requires |text| < TWO64 && (r.precision.Some? ==> r.dotted)
    ensures var d := Kept(r);
            Padded(Shown(text, d), StringLength(text, d), d) == StringField(r, text) <==> StringMeets(r, text)
  {
    hide Spaces, AllSpaces;
    var d := Kept(r);
    KeptFlags(r);
    SameString(r, text);
    hide Kept;
    var l, p := |text|, d.prec;
    if NegativePrecision(r) {
      assert text[..0] == [];
      SpacesOnly(text, d.width, r.width, r.left);
    } else if !r.dotted {
      assert StringLength(text, d) == l % TWO32;
      PadsDiffer(text, Less(l % TWO32, d.width), Less(l, r.width), r.left);
    } else {
      assert StringLength(text, d) == |Shown(text, d)|;
      DottedString(text, p, Or0(r.precision), d.width, r.width, r.left);
    }
  }

  lemma SameString(r: Reading, text: string)
    ensures var shown := if r.precision.Some? then text[..Min(|text|, r.precision.value)] else text;
            StringField(r, text) == Placed(shown, Less(|shown|, r.width), r.left)
  {
    var shown := if r.precision.Some? then text[..Min(|text|, r.precision.value)] else text;
    assert text[..|text|] == text;
    SameRepeat(Less(|shown|, r.width));
  }

  lemma KeptFlags(r: Reading)
    ensures Kept(r).fl.left == r.left && Kept(r).fl.precision == r.dotted
    ensures Kept(r).width == r.width % TWO32 && Kept(r).prec == Or0(r.precision) % TWO32
  {
  }

  lemma PadsDiffer(text: string, n: nat, m: nat, left: bool)
    ensures Placed(text, n, left) == Placed(text, m, left) <==> n == m
  {
    if n != m {
      assert |Placed(text, n, left)| != |Placed(text, m, left)|;
    }
  }

  lemma SpacesOnly(text: string, v: nat, w: nat, left: bool)
    requires v == w % TWO32
    ensures Placed("", v, left) == Placed(text, Less(|text|, w), left) <==> AllSpaces(text) && |text| <= w < TWO32
  {
    var out := Placed(text, Less(|text|, w), left);
    assert Placed("", v, left) == Spaces(v);
    if AllSpaces(text) && |text| <= w < TWO32 {
      assert forall k :: 0 <= k < |text| ==> text[k] in text;
      assert out == Spaces(w);
    } else if |text| <= w < TWO32 {
      var c :| c in text && c != ' ';
      assert c in out;
    } else {
      assert |out| != v;
    }
  }

  /** A string with a precision: p and v are the precision n and the width w modulo 2^32. */
  lemma DottedString(text: string, p: nat, n: nat, v: nat, w: nat, left: bool)
    requires p == n % TWO32 && v == w % TWO32
    ensures var x, y := text[..Min(|text|, p)], text[..Min(|text|, n)];
            Placed(x, Less(|x|, v), left) == Placed(y, Less(|y|, w), left)
            <==> w < TWO32 && (n < TWO32 || |text| <= p
                               || (|text| <= w && AllSpaces(if left then text[p..] else text)))
  {
    var l := |text|;
    var x, y := text[..Min(l, p)], text[..Min(l, n)];
    var a, b := Placed(x, Less(|x|, v), left), Placed(y, Less(|y|, w), left);
    assert |a| < TWO32;
    if w >= TWO32 {
      assert |b| >= TWO32;
    } else if n < TWO32 || l <= p {
      assert x == y;
    } else if l > w {
      assert |b| != |a|;
    } else {
      assert y == text;
      if left {
        LeftPart(text, p, w);
      } else {
        RightPart(text, p, w);
      }
    }
  }

  lemma LeftPart(text: string, p: nat, w: nat)
    requires p <= |text| <= w
    ensures Placed(text[..p], w - p, true) == Placed(text, w - |text|, true) <==> AllSpaces(text[p..])
  {
    var a, b := Placed(text[..p], w - p, true), Placed(text, w - |text|, true);
    assert forall k :: 0 <= k < |text| - p ==> text[p..][k] == b[p + k] && a[p + k] == ' ';
    assert forall k :: 0 <= k < |text[p..]| ==> text[p..][k] in text[p..];
    if AllSpaces(text[p..]) {
      assert a == b;
    }
  }

  lemma RightPart(text: string, p: nat, w: nat)
    requires p < |text| <= w
    ensures Placed(text[..p], w - p, false) == Placed(text, w - |text|, false) <==> AllSpaces(text)
  {
    var a, b := Placed(text[..p], w - p, false), Placed(text, w - |text|, false);
    assert forall k :: 0 <= k < |text| ==> text[k] == b[w - |text| + k] && text[k] in text;
    if AllSpaces(text) {
      assert a == b;
    } else if a == b {
      forall k | 0 <= k < |text| ensures text[k] == ' '
      {
        Shifted(text, p, w, k);
      }
    }
  }

  /** A text that is itself shifted over spaces is all spaces. */
  lemma {:induction false} Shifted(text: string, p: nat, w: nat, k: nat)
    requires p < |text| <= w && k < |text|
    requires Placed(text[..p], w - p, false) == Placed(text, w - |text|, false)
    ensures text[k] == ' '
  {
    var a, b := Placed(text[..p], w - p, false), Placed(text, w - |text|, false);
    var d := |text| - p;
    assert text[k] == b[w - |text| + k] == a[w - |text| + k];
    if k >= d {
      assert a[w - |text| + k] == text[k - d];
      Shifted(text, p, w, k - d);
    }
  }

  // ---- characters, pointers and copied characters ----

  /** The low byte of the argument, once, padded to the width. */
  function CharField(r: Reading, bits: Word): string
  {
    var ch := [(bits % 0x100) as char];
    var pad := Repeat(' ', Lacking(1, r.width));
    if r.left then ch + pad else pad + ch
  }

  /** `%c` uses one argument; its width wraps at 2^32. */
  lemma CharFieldExactly(f: string, args: seq<Arg>, r: Reading, bits: Word)
    requires r.at < |f| && f[r.at] == 'c' && r.k < |args| && args[r.k] == Num(bits)
    ensures var out := Convert(f, Kept(r), args);
            out.Some? && out.value.1 == r.k + 1 && (out.value.0 == CharField(r, bits) <==> r.width < 0x1_0000_0000)
  {
    hide Kept;
    KeptFlags(r);
    KeptAt(r);
    var ch := [(bits % 0x100) as char];
    hide Spaces, Repeat;
    SameRepeat(Lacking(1, r.width));
    assert Padded(ch, 1, Kept(r)) == Placed(ch, Less(1, r.width % TWO32), r.left);
    assert CharField(r, bits) == Placed(ch, Less(1, r.width), r.left);
    PadsDiffer(ch, Less(1, r.width % TWO32), Less(1, r.width), r.left);
  }

  /** 16 upper-case hexadecimal digits. */
  function PointerField(bits: Word): string
  {
    var h := Numeral(bits, 16, UPPER);
    Repeat('0', Lacking(|h|, 16)) + h
  }

  lemma PointerLength(bits: Word)
    ensures |Numeral(bits, 16, UPPER)| <= 16 && |PointerField(bits)| == 16
  {
    SameNumeral(bits, 16, true);
    assert Power(16, 16) == TWO64 by {
      assert Power(16, 2) == 0x100;
      PowerSum(16, 2, 2);
      PowerSum(16, 4, 4);
      PowerSum(16, 8, 8);
    }
    TextLength(bits, 16, true, 16);
  }

  /** A plain `%p` puts out these digits and uses one argument, whatever the width. */
  lemma PointerPrints(f: string, args: seq<Arg>, r: Reading, bits: Word)
    requires r.at < |f| && f[r.at] == 'p' && r.k < |args| && args[r.k] == Num(bits)
    requires r.flags == "" && !r.left && !r.dotted && r.precision == None
    ensures Convert(f, Kept(r), args) == Some((PointerField(bits), r.k + 1))
  {
    hide Ntoa.Ntoa, Field, Text, Numeral, Repeat, Zeros;
    var d := Kept(r);
    var fl := PointerFlags(d.fl);
    FieldExactly(bits, false, 16, 0, 16, fl);
    FieldIsLaid(bits, false, 16, 16, fl);
    SameNumeral(bits, 16, true);
    PointerLength(bits);
    SameRepeat(Lacking(|Numeral(bits, 16, UPPER)|, 16));
    var zeros := Repeat('0', Lacking(|Numeral(bits, 16, UPPER)|, 16));
    assert [] + zeros == zeros;
  }

  /** Any other conversion character, `%` among them, is put out once and uses no argument. */
  lemma OthersAreCopied(f: string, args: seq<Arg>, r: Reading)
    requires r.at < |f| && f[r.at] !in "diuxXobcsp"
    ensures Convert(f, Kept(r), args) == Some(([f[r.at]], r.k))
  {
    hide Kept;
    KeptAt(r);
  }

  // ---- whole formats ----

  /** What a directive asks for, and the arguments used after it; None where the standard, or for `%p`
      the implementation, defines nothing here. */
  function Asked(f: string, r: Reading, args: seq<Arg>): Option<(string, nat)>
    requires r.at < |f|
  {
    var c := f[r.at];
    var num := if r.k < |args| && args[r.k].Num? then Some(args[r.k].bits) else None;
    if c == '%' then Some(("%", r.k))
    else if c == 's' then
      if r.k < |args| && args[r.k].Str? then Some((StringField(r, args[r.k].text), r.k + 1)) else None
    else if num == None then None
    else if StandardInteger(c) && !('#' in r.flags && c in "xXo") then Some((IntegerField(r, c, num.value), r.k + 1))
    else if c == 'c' then Some((CharField(r, num.value), r.k + 1))
    else if c == 'p' && r.flags == "" && !r.left && !r.dotted && r.precision == None
    then Some((PointerField(num.value), r.k + 1))
    else None
  }

  /** The directive is defined in the code, and the code meets the standard on it. */
  predicate AskedMet(f: string, r: Reading, args: seq<Arg>)
    requires r.at < |f|
  {
    var c := f[r.at];
    if c == 's' then
      r.k < |args| && args[r.k].Str? && '\0' !in args[r.k].text && |args[r.k].text| < TWO64
      && StringMeets(r, args[r.k].text)
    else if StandardInteger(c) then
      r.k < |args| && args[r.k].Num? && Meets(r, c, args[r.k].bits) && !LeastValue(r, c, args[r.k].bits)
    else c == 'c' ==> r.width < 0x1_0000_0000
  }

  /** The output section 7.21.6.1 asks for. */
  function StandardOutput(f: string, i: nat, args: seq<Arg>, k: nat): Option<string>
    decreases |f| - i
  {
    if i >= |f| then Some("")
    else if f[i] != '%' then
      match StandardOutput(f, i + 1, args, k) case None => None case Some(rest) => Some([f[i]] + rest)
    else
      match ReadingOf(f, i + 1, args, k)
      case None => None
      case Some(r) =>
        if !(i < r.at < |f|) then None else
        match Asked(f, r, args)
        case None => None
        case Some(p) =>
          match StandardOutput(f, r.at + 1, args, p.1) case None => None case Some(rest) => Some(p.0 + rest)
  }

  /** The code meets the standard on every directive of the format. */
  ghost predicate AllMet(f: string, i: nat, args: seq<Arg>, k: nat)
    decreases |f| - i
  {
    if i >= |f| then true
    else if f[i] != '%' then AllMet(f, i + 1, args, k)
    else
      match ReadingOf(f, i + 1, args, k)
      case None => false
      case Some(r) =>
        && !LeastWidth(f, FlagsEnd(f, i + 1), args, k) && i < r.at < |f| && AskedMet(f, r, args)
        && Asked(f, r, args).Some? && AllMet(f, r.at + 1, args, Asked(f, r, args).value.1)
  }

  lemma AskedIsPrinted(f: string, i: nat, args: seq<Arg>, k: nat, r: Reading)
    requires i < |f| && f[i] == '%' && ReadingOf(f, i + 1, args, k) == Some(r)
    requires !LeastWidth(f, FlagsEnd(f, i + 1), args, k) && i < r.at < |f| && AskedMet(f, r, args)
    requires Asked(f, r, args).Some?
    ensures ParseDirective(f, i + 1, args, k) == Some(Kept(r))
    ensures Convert(f, Kept(r), args) == Asked(f, r, args)
  {
    hide ParseDirective, ReadingOf, LeastWidth, Convert, Kept, IntegerField, StringField, CharField, PointerField,
         Meets,
         StringMeets, LeastValue;
    ParserReads(f, i + 1, args, k);
    var c := f[r.at];
    if c == '%' {
      OthersAreCopied(f, args, r);
    } else if c == 's' {
      StringFieldExactly(f, i + 1, args, k, r, args[r.k].text);
    } else if StandardInteger(c) {
      IntegerFieldExactly(f, i + 1, args, k, r, args[r.k].bits);
    } else if c == 'c' {
      CharFieldExactly(f, args, r, args[r.k].bits);
    } else {
      PointerPrints(f, args, r, args[r.k].bits);
    }
  }

  /** A whole format: where the code meets the standard on each directive, what it renders is what the
      standard asks for. */
  lemma {:induction false} FormatMeets(f: string, i: nat, args: seq<Arg>, k: nat)
    requires AllMet(f, i, args, k)
    ensures StandardOutput(f, i, args, k).Some? && Render(f, i, args, k) == StandardOutput(f, i, args, k)
    decreases |f| - i
  {
    hide ReadingOf, ParseDirective, Convert, Asked, AskedMet, LeastWidth, Kept;
    if i < |f| {
      if f[i] != '%' {
        FormatMeets(f, i + 1, args, k);
      } else {
        var r := ReadingOf(f, i + 1, args, k).value;
        AskedIsPrinted(f, i, args, k, r);
        assert Kept(r).at == r.at by { KeptAt(r); }
        FormatMeets(f, r.at + 1, args, Asked(f, r, args).value.1);
      }
    }
  }

  // ---- reading fields back ----

  function DigitIn(c: char): nat
  {
    if '0' <= c <= '9' then c as int - '0' as int
    else if 'a' <= c <= 'f' then c as int - 'a' as int + 10
    else if 'A' <= c <= 'F' then c as int - 'A' as int + 10
    else 0
  }

  function Evaluate(s: string, base: nat): nat
  {
    if s == "" then 0 else Evaluate(s[..|s| - 1], base) * base + DigitIn(s[|s| - 1])
  }

  lemma LetterIsDigit(d: nat, upper: bool)
    requires d < 16
    ensures DigitIn((if upper then UPPER else LOWER)[d]) == d
    ensures (if upper then UPPER else LOWER)[d] !in " +-"
  {
  }

  lemma {:induction false} NumeralEvaluates(v: nat, base: Base, upper: bool)
    ensures var s := Numeral(v, base, if upper then UPPER else LOWER);
            Evaluate(s, base) == v && forall c :: c in s ==> c !in " +-"
  {
    hide DigitIn, Rem, Quot;
    var s := Numeral(v, base, if upper then UPPER else LOWER);
    Division(v, base);
    if v < base {
      LetterIsDigit(v, upper);
      assert s[..0] == "";
    } else {
      NumeralEvaluates(Quot(v, base), base, upper);
      LetterIsDigit(Rem(v, base), upper);
      assert s[..|s| - 1] == Numeral(Quot(v, base), base, if upper then UPPER else LOWER);
    }
  }

  lemma {:induction false} ZerosEvaluate(n: nat, s: string, base: nat)
    ensures Evaluate(Repeat('0', n) + s, base) == Evaluate(s, base)
  {
    var t := Repeat('0', n) + s;
    if s != "" {
      ZerosEvaluate(n, s[..|s| - 1], base);
      assert t[..|t| - 1] == Repeat('0', n) + s[..|s| - 1];
    } else if n > 0 {
      ZerosEvaluate(n - 1, "", base);
      assert t[..n - 1] == Repeat('0', n - 1) + "";
    }
  }

  function TrimLeft(s: string): string { if s != "" && s[0] == ' ' then TrimLeft(s[1..]) else s }
  function TrimRight(s: string): string
  {
    if s != "" && s[|s| - 1] == ' ' then TrimRight(s[..|s| - 1]) else s
  }

  /** The integer in a field: after spaces, a sign, digits, and spaces. */
  function ReadInteger(field: string, base: nat): int
  {
    var s := TrimRight(TrimLeft(field));
    if s == "" then 0
    else if s[0] == '-' then -(Evaluate(s[1..], base) as int)
    else if s[0] == '+' then Evaluate(s[1..], base)
    else Evaluate(s, base)
  }

  lemma {:induction false} LeftSpaces(n: nat, s: string)
    ensures TrimLeft(Repeat(' ', n) + s) == TrimLeft(s)
  {
    if n == 0 {
      assert Repeat(' ', 0) + s == s;
    } else {
      LeftSpaces(n - 1, s);
      assert (Repeat(' ', n) + s)[1..] == Repeat(' ', n - 1) + s;
    }
  }

  lemma {:induction false} RightSpaces(s: string, n: nat)
    ensures TrimRight(s + Repeat(' ', n)) == TrimRight(s)
  {
    if n == 0 {
      assert s + Repeat(' ', 0) == s;
    } else {
      RightSpaces(s, n - 1);
      var t := s + Repeat(' ', n);
      assert t[..|t| - 1] == s + Repeat(' ', n - 1);
    }
  }

  lemma NothingTrimmed(s: string)
    requires s == "" || (s[0] != ' ' && s[|s| - 1] != ' ')
    ensures TrimLeft(s) == s && TrimRight(s) == s
  {
  }

  /** Spaces around a text without spaces are trimmed away. */
  lemma Trimmed(a: nat, s: string, b: nat)
    requires ' ' !in s
    ensures TrimRight(TrimLeft(Repeat(' ', a) + s + Repeat(' ', b))) == s
  {
    assert s == "" || (s[0] in s && s[|s| - 1] in s);
    LeftSpaces(a, s + Repeat(' ', b));
    assert Repeat(' ', a) + s + Repeat(' ', b) == Repeat(' ', a) + (s + Repeat(' ', b));
    NothingTrimmed(s);
    if s == "" {
      assert "" + Repeat(' ', b) == Repeat(' ', b) + "";
      LeftSpaces(b, "");
    } else {
      RightSpaces(s, b);
    }
  }

  lemma SignedText(sign: string, zeros: nat, digits: string, base: nat, v: int)
    requires sign in ["", "-", "+"] && (v < 0 <==> sign == "-")
    requires Evaluate(digits, base) == Absolute(v) && forall c :: c in digits ==> c !in " +-"
    ensures var s := sign + (Repeat('0', zeros) + digits);
            && ' ' !in s
            && (if s == "" then 0
                else if s[0] == '-' then -(Evaluate(s[1..], base) as int)
                else if s[0] == '+' then Evaluate(s[1..], base)
                else Evaluate(s, base)) == v
  {
    var body := Repeat('0', zeros) + digits;
    var s := sign + body;
    ZerosEvaluate(zeros, digits, base);
    assert forall c :: c in body ==> c !in " +-";
    if sign == "" {
      assert s == body && (s != "" ==> s[0] in body);
    } else {
      assert s[1..] == body;
    }
  }

  /** The number in the standard's field, read in the base of its conversion character, is the value of
      the argument. */
  lemma IntegerReadsBack(r: Reading, c: char, bits: Word)
    requires StandardInteger(c)
    ensures ReadInteger(IntegerField(r, c, bits), if c == 'o' then 8 else if c == 'x' || c == 'X' then 16 else 10)
            == ValueOf(r, c, bits)
  {
    hide Numeral, Evaluate, TwosComplement, Repeat, ValueOf, TrimLeft, TrimRight;
    var base: Base := if c == 'o' then 8 else if c == 'x' || c == 'X' then 16 else 10;
    var v := ValueOf(r, c, bits);
    UnsignedIsPositive(r, c, bits);
    var digits, sign := DigitsAsked(r, c, v), SignAsked(r, c, v);
    NumeralEvaluates(Absolute(v), base, c == 'X');
    assert Evaluate(digits, base) == Absolute(v) by { NothingEvaluates(base); }
    var p := Lacking(|digits|, Or0(r.precision));
    var body := Repeat('0', p) + digits;
    var pad := Lacking(|sign| + |body|, r.width);
    if sign == " " {
      SpaceSign(r.left, ZeroFilled(r), pad, p, digits, base, v);
    } else {
      PlainSign(r.left, ZeroFilled(r), sign, pad, p, digits, base, v);
    }
  }

  lemma NothingEvaluates(base: nat)
    ensures Evaluate("", base) == 0
  {
  }

  lemma JoinZeros(n: nat, m: nat, digits: string)
    ensures Repeat('0', n) + (Repeat('0', m) + digits) == Repeat('0', n + m) + digits
  {
  }

  lemma Blank()
    ensures Repeat(' ', 0) == "" && Repeat(' ', 1) == " "
  {
  }

  lemma JoinSpaces(n: nat)
    ensures Repeat(' ', n) + " " == Repeat(' ', n + 1) && " " == Repeat(' ', 1)
  {
  }

  lemma SignedCore(sign: string, before: nat, zeros: nat, digits: string, after: nat, base: nat, v: int, field: string)
    requires sign in ["", "-", "+"] && (v < 0 <==> sign == "-")
    requires Evaluate(digits, base) == Absolute(v) && forall c :: c in digits ==> c !in " +-"
    requires field == Repeat(' ', before) + (sign + (Repeat('0', zeros) + digits)) + Repeat(' ', after)
    ensures ReadInteger(field, base) == v
  {
    hide Evaluate, TrimLeft, TrimRight, Repeat;
    SignedText(sign, zeros, digits, base, v);
    Trimmed(before, sign + (Repeat('0', zeros) + digits), after);
  }

  lemma CatBlanks(a: string, b: string, c: string)
    ensures "" + (a + b) + c == a + b + c
    ensures "" + (a + (b + c)) + "" == a + b + c
    ensures a + (b + c) + "" == a + b + c
  {
  }

  lemma PlainSign(left: bool, zero: bool, sign: string, pad: nat, p: nat, digits: string, base: nat, v: int)
    requires sign in ["", "-", "+"] && (v < 0 <==> sign == "-")
    requires Evaluate(digits, base) == Absolute(v) && forall c :: c in digits ==> c !in " +-"
    ensures var body := Repeat('0', p) + digits;
            ReadInteger(if left then sign + body + Repeat(' ', pad)
                        else if zero then sign + Repeat('0', pad) + body
                        else Repeat(' ', pad) + sign + body, base) == v
  {
    hide Evaluate, ReadInteger, Repeat;
    var body := Repeat('0', p) + digits;
    Blank();
    if left {
      CatBlanks(sign, body, Repeat(' ', pad));
      SignedCore(sign, 0, p, digits, pad, base, v, sign + body + Repeat(' ', pad));
    } else if zero {
      JoinZeros(pad, p, digits);
      CatBlanks(sign, Repeat('0', pad), body);
      SignedCore(sign, 0, pad + p, digits, 0, base, v, sign + Repeat('0', pad) + body);
    } else {
      CatBlanks(Repeat(' ', pad), sign, body);
      SignedCore(sign, pad, p, digits, 0, base, v, Repeat(' ', pad) + sign + body);
    }
  }

  lemma SpaceSign(left: bool, zero: bool, pad: nat, p: nat, digits: string, base: nat, v: int)
    requires v >= 0 && Evaluate(digits, base) == Absolute(v) && forall c :: c in digits ==> c !in " +-"
    ensures var body := Repeat('0', p) + digits;
            ReadInteger(if left then " " + body + Repeat(' ', pad)
                        else if zero then " " + Repeat('0', pad) + body
                        else Repeat(' ', pad) + " " + body, base) == v
  {
    hide Evaluate, TrimLeft, TrimRight, Repeat;
    var body := Repeat('0', p) + digits;
    var zeros := if !left && zero then pad + p else p;
    var core := Repeat('0', zeros) + digits;
    SignedText("", zeros, digits, base, v);
    assert "" + core == core;
    Blank();
    if left {
      Trimmed(1, core, pad);
    } else if zero {
      JoinZeros(pad, p, digits);
      Trimmed(1, core, 0);
      assert " " + core + "" == " " + Repeat('0', pad) + body;
    } else {
      JoinSpaces(pad);
      Trimmed(pad + 1, core, 0);
      assert Repeat(' ', pad + 1) + core + "" == Repeat(' ', pad) + " " + body;
    }
  }

  /** Where the code meets the standard, the argument's value can be read back from what it puts out. */
  lemma PrintedReadsBack(f: string, i: nat, args: seq<Arg>, k: nat, r: Reading, bits: Word)
    requires AsksInteger(f, i, args, k, r, bits) && Meets(r, f[r.at], bits) && !LeastValue(r, f[r.at], bits)
    ensures var c := f[r.at];
            var out := Convert(f, Kept(r), args);
            out.Some? && ReadInteger(out.value.0, if c == 'o' then 8 else if c == 'x' || c == 'X' then 16 else 10)
                         == ValueOf(r, c, bits)
  {
    hide Convert, Kept, Meets, LeastValue, ReadInteger, IntegerField, ValueOf, ReadingOf, LeastWidth;
    IntegerFieldExactly(f, i, args, k, r, bits);
    IntegerReadsBack(r, f[r.at], bits);
  }

  /** A plain `%p` prints 16 characters, digits or `A` to `F`, that read back as the value. */
  lemma PointerReadsBack(bits: Word)
    ensures var out := Render("%p", 0, [Num(bits)], 0);
            && out.Some? && |out.value| == 16 && Evaluate(out.value, 16) == bits
            && forall c :: c in out.value ==> '0' <= c <= '9' || 'A' <= c <= 'F'
  {
    hide Convert, Evaluate, Numeral, ParseDirective, Kept, LeastWidth;
    var f, args := "%p", [Num(bits)];
    ReadPlain(f, args, 'p');
    var r := Reading("", false, 0, false, None, "", 1, 0);
    ParserReads(f, 1, args, 0);
    NotStar(f, args);
    PointerPrints(f, args, r, bits);
    assert Kept(r).at == 1 by { KeptAt(r); }
    assert Render(f, 2, args, 1) == Some("");
    assert PointerField(bits) + "" == PointerField(bits);
    PointerLength(bits);
    NumeralEvaluates(bits, 16, true);
    var h := Numeral(bits, 16, UPPER);
    ZerosEvaluate(Lacking(|h|, 16), h, 16);
    UpperLetters(bits);
  }

  lemma NotStar(f: string, args: seq<Arg>)
    requires |f| == 2 && FlagsEnd(f, 1) == 1 && f[1] != '*'
    ensures !LeastWidth(f, FlagsEnd(f, 1), args, 0)
  {
  }

  lemma {:induction false} UpperLetters(v: nat)
    ensures forall c :: c in Numeral(v, 16, UPPER) ==> '0' <= c <= '9' || 'A' <= c <= 'F'
  {
    hide Quot, Rem;
    Division(v, 16);
    if v >= 16 {
      UpperLetters(Quot(v, 16));
    }
  }

  /** A format that is a plain directive. */
  lemma ReadPlain(f: string, args: seq<Arg>, c: char)
    requires f == ['%', c] && c in "diuxXobcsp%"
    ensures FlagsEnd(f, 1) == 1 && ReadingOf(f, 1, args, 0) == Some(Reading("", false, 0, false, None, "", 1, 0))
  {
    assert f[1..1] == "";
    assert DigitsEnd(f, 1) == 1 && NumberAt(f, 1) == 0;
    assert f[1..2] == [c];
    assert [c] !in ["h", "l", "t", "j", "z"] by { assert [c][0] == c; }
  }

  // ---- `#` and `%b` ----

  /** The digits of a number, with the mark of `#` before them. */
  function Marked(v: nat, base: Base, upper: bool): string
    requires base == 8 || base == 16
  {
    var s := Numeral(v, base, if upper then UPPER else LOWER);
    if v == 0 then s else if base == 8 then "0" + s else if upper then "0X" + s else "0x" + s
  }

  /** Without a width and a precision `#` puts its mark before the digits. */
  lemma HashMarks(v: Word, base: Base, fl: Flags)
    requires (base == 8 || base == 16) && fl == NO_FLAGS.(hash := true, upper := fl.upper)
    ensures Ntoa.Ntoa(v, false, base, 0, 0, fl) == Marked(v, base, fl.upper)
  {
    hide Text, Numeral, Reversed, DigitBuf;
    SameNumeral(v, base, fl.upper);
    var t := Text(v, base, fl.upper);
    ShortBuffer(v, base, fl);
    assert DigitsOf(v, base, fl) == t;
    NoPrecision(t);
    var mark: string := if v == 0 then "" else if base == 8 then ['0'] else [if fl.upper then 'X' else 'x', '0'];
    assert FormatBuf(Reversed(t), false, base, 0, 0, if v == 0 then fl.(hash := false) else fl) == Reversed(t) + mark
      by { MarkedBuffer(t, v, base, fl); }
    ReversedCat(Reversed(t), mark);
    ReversedTwice(t);
    ReversedMark(mark);
    OutRevCases(Reversed(t) + mark, 0, fl);
    assert Spaces(0) + Reversed(Reversed(t) + mark) == Reversed(Reversed(t) + mark);
  }

  lemma MarkedBuffer(t: string, v: nat, base: Base, fl: Flags)
    requires (base == 8 || base == 16) && fl == NO_FLAGS.(hash := true, upper := fl.upper) && 0 < |t| <= 22
    ensures var mark: string := if v == 0 then "" else if base == 8 then ['0']
                                else [if fl.upper then 'X' else 'x', '0'];
            FormatBuf(Reversed(t), false, base, 0, 0, if v == 0 then fl.(hash := false) else fl) == Reversed(t) + mark
  {
    NoPrecision(t);
    var b := Reversed(t);
    assert b + ['x'] + ['0'] == b + ['x', '0'] && b + ['X'] + ['0'] == b + ['X', '0'] && b + [] == b;
  }

  lemma ReversedMark(mark: string)
    ensures mark == "" ==> Reversed(mark) == ""
    ensures mark == ['0'] ==> Reversed(mark) == "0"
    ensures mark == ['x', '0'] ==> Reversed(mark) == "0x"
    ensures mark == ['X', '0'] ==> Reversed(mark) == "0X"
  {
  }

  /** Binary numbers of up to 32 bits. */
  lemma BinaryDigits(v: nat)
    requires v < 0x1_0000_0000
    ensures Ntoa.Ntoa(v, false, 2, 0, 0, NO_FLAGS) == Numeral(v, 2, LOWER)
  {
    hide Text, Numeral, Reversed, DigitLoop;
    SameNumeral(v, 2, false);
    var t := Text(v, 2, false);
    assert Power(2, 32) == TWO32 by {
      assert Power(2, 4) == 16;
      PowerSum(2, 4, 4);
      PowerSum(2, 8, 8);
      PowerSum(2, 16, 16);
    }
    TextLength(v, 2, false, 32);
    DigitLoopIsText(v, 2, false, BUFFER_SIZE);
    assert t[0..] == t;
    var b := Reversed(t);
    assert b + Zeros(0) == b && b + [] == b;
    ReversedTwice(t);
    OutRevCases(b, 0, NO_FLAGS);
    assert Spaces(0) + Reversed(b) == Reversed(b);
  }

  /** `%#x`, `%#X`, `%#o` and `%b` as whole formats. */
  lemma MarkedAndBinary(bits: Word)
    ensures var v, args := bits % 0x1_0000_0000, [Num(bits)];
            && Render("%#x", 0, args, 0) == Some(Marked(v, 16, false))
            && Render("%#X", 0, args, 0) == Some(Marked(v, 16, true))
            && Render("%#o", 0, args, 0) == Some(Marked(v, 8, false))
            && Render("%b", 0, args, 0) == Some(Numeral(v, 2, LOWER))
  {
    hide Marked, Ntoa.Ntoa, Numeral, Render, ParseDirective;
    var v := bits % 0x1_0000_0000;
    HashFormat("%#x", bits);
    HashFormat("%#X", bits);
    HashFormat("%#o", bits);
    HashMarks(v, 16, NO_FLAGS.(hash := true));
    HashMarks(v, 16, NO_FLAGS.(hash := true, upper := true));
    HashMarks(v, 8, NO_FLAGS.(hash := true));
    BinaryFormat(bits);
    BinaryDigits(v);
  }

  lemma HashFormat(f: string, bits: Word)
    requires f in ["%#x", "%#X", "%#o"]
    ensures Render(f, 0, [Num(bits)], 0)
            == Some(Ntoa.Ntoa(bits % 0x1_0000_0000, false, BaseOf(f[2]), 0, 0,
                              NO_FLAGS.(hash := true, upper := f[2] == 'X')))
  {
    hide Ntoa.Ntoa, Atoi, Render;
    var args, fl := [Num(bits)], NO_FLAGS.(hash := true);
    assert ParseFlags(f, 1, NO_FLAGS) == (fl, 2);
    var d := Directive(fl, 0, 0, 2, 0);
    assert ParseDirective(f, 1, args, 0) == Some(d);
    hide ParseDirective, ParseFlags;
    assert IntegerFlags(f[2], fl) == fl.(upper := f[2] == 'X');
    OneRender(f, args, d);
  }

  lemma BinaryFormat(bits: Word)
    ensures Render("%b", 0, [Num(bits)], 0)
            == Some(Ntoa.Ntoa(bits % 0x1_0000_0000, false, 2, 0, 0, NO_FLAGS))
  {
    hide Ntoa.Ntoa, Atoi, Render;
    var f, args := "%b", [Num(bits)];
    assert ParseFlags(f, 1, NO_FLAGS) == (NO_FLAGS, 1);
    var d := Directive(NO_FLAGS, 0, 0, 1, 0);
    assert ParseDirective(f, 1, args, 0) == Some(d);
    hide ParseDirective, ParseFlags;
    assert IntegerFlags(f[1], NO_FLAGS) == NO_FLAGS;
    OneRender(f, args, d);
  }

  /** A format that is one directive renders what it converts to. */
  lemma OneRender(f: string, args: seq<Arg>, d: Directive)
    requires f != "" && f[0] == '%' && ParseDirective(f, 1, args, 0) == Some(d) && d.at == |f| - 1
    requires Convert(f, d, args).Some?
    ensures Render(f, 0, args, 0) == Some(Convert(f, d, args).value.0)
  {
    hide ParseDirective, Convert;
    var p := Convert(f, d, args).value;
    assert Render(f, |f|, args, p.1) == Some("");
    assert p.0 + "" == p.0;
  }

  // ---- two calls in which it does not ----

  /** A format that is one integer directive. */
  lemma OneDirective(f: string, args: seq<Arg>, r: Reading, bits: Word)
    requires f != "" && f[0] == '%' && AsksInteger(f, 1, args, 0, r, bits) && r.at == |f| - 1
    requires !LeastValue(r, f[r.at], bits)
    ensures var v := ValueOf(r, f[r.at], bits);
            var d := Kept(r);
            Render(f, 0, args, 0) == Some(Ntoa.Ntoa(Magnitude(v), v < 0, BaseOf(f[r.at]), d.prec, d.width,
                                                    IntegerFlags(f[r.at], d.fl)))
  {
    hide ParseDirective, Convert, Ntoa.Ntoa, ReadingOf, Kept, ValueOf, IntegerFlags, LeastWidth, LeastValue;
    IntegerPrinted(f, 1, args, 0, r, bits);
    var d := Kept(r);
    assert d.at == r.at by { KeptAt(r); }
    var out := Convert(f, d, args).value.0;
    assert Render(f, d.at + 1, args, r.k + 1) == Some("");
    assert out + "" == out;
  }

  lemma KeptAt(r: Reading)
    ensures Kept(r).at == r.at && Kept(r).k == r.k
  {
  }

  /** -1 as the argument of a `*` precision. */
  lemma MinusOne()
    ensures Int32(TWO32 - 1) == -1
  {
  }

  lemma ReadDotStar(args: seq<Arg>)
    requires |args| == 2 && args[0] == Num(TWO32 - 1)
    ensures ReadingOf("%.*d", 1, args, 0) == Some(Reading("", false, 0, true, None, "", 3, 1))
  {
    var f := "%.*d";
    MinusOne();
    assert f[1..1] == "";
    assert WidthReading(f, Reading("", false, 0, false, None, "", 1, 0), args)
           == Some(Reading("", false, 0, false, None, "", 1, 0));
    assert PrecisionReading(f, Reading("", false, 0, false, None, "", 1, 0), args)
           == Some(Reading("", false, 0, true, None, "", 3, 1));
    assert f[3..4] == ['d'];
  }

  /** `%.*d` with -1 and 0 prints nothing, where the standard asks for 0. */
  lemma NegativePrecisionOfZero()
    ensures var f, args := "%.*d", [Num(TWO32 - 1), Num(0)];
            && Render(f, 0, args, 0) == Some("")
            && ReadingOf(f, 1, args, 0).Some? && IntegerField(ReadingOf(f, 1, args, 0).value, 'd', 0) == "0"
  {
    hide Ntoa.Ntoa, ReadingOf, Text;
    var f, args := "%.*d", [Num(TWO32 - 1), Num(0)];
    ReadDotStar(args);
    var r := Reading("", false, 0, true, None, "", 3, 1);
    MinusOne();
    var d := Kept(r);
    assert ParseFlags(f, 1, NO_FLAGS) == (NO_FLAGS, 1);
    assert ParseDirective(f, 1, args, 0) == Some(d);
    OneDirective(f, args, r, 0);
    TextOfZero(10, false);
    FieldExactly(0, false, 10, 0, 0, IntegerFlags('d', d.fl));
  }

  lemma ReadZeroFive(args: seq<Arg>)
    requires |args| == 2 && args[0] == Num(TWO32 - 1)
    ensures ReadingOf("%05.*d", 1, args, 0) == Some(Reading("0", false, 5, true, None, "", 5, 1))
  {
    var f := "%05.*d";
    MinusOne();
    assert FlagsEnd(f, 1) == 2 && f[1..2] == ['0'];
    var r := Reading("0", false, 0, false, None, "", 2, 0);
    assert DigitsEnd(f, 2) == 3 && f[2..3] == ['5'];
    assert DecimalValue(['5']) == 5 by { assert ['5'][..0] == []; }
    assert WidthReading(f, r, args) == Some(r.(width := 5, at := 3));
    assert PrecisionReading(f, r.(width := 5, at := 3), args) == Some(r.(width := 5, dotted := true, at := 5, k := 1));
    assert f[5..6] == ['d'];
  }

  lemma TextOf42()
    ensures Text(42, 10, false) == "42"
  {
    assert Text(4, 10, false) == ['4'];
    assert Quot(42, 10) == 4 && Rem(42, 10) == 2;
  }

  lemma ParseZeroFive(args: seq<Arg>)
    requires |args| == 2 && args[0] == Num(TWO32 - 1)
    ensures ParseDirective("%05.*d", 1, args, 0).Some? && !LeastWidth("%05.*d", FlagsEnd("%05.*d", 1), args, 0)
  {
    MinusOne();
    hide Int32;
    var f := "%05.*d";
    assert ParseFlags(f, 1, NO_FLAGS) == (NO_FLAGS.(zeropad := true), 2);
    assert Atoi(f, 2, 0) == (5, 3);
  }

  /** The two fields of 42 in a width of 5. */
  lemma FieldsOf42(x: Flags, y: Flags)
    requires !x.left && !y.left && !x.zeropad && y.zeropad && !x.upper && !y.upper
    requires !x.plus && !y.plus && !x.space && !y.space
    ensures Field(42, false, 10, 0, 5, x) == "   42" && Field(42, false, 10, 0, 5, y) == "00042"
  {
    hide Field, Text;
    TextOf42();
    FieldIsLaid(42, false, 10, 5, x);
    FieldIsLaid(42, false, 10, 5, y);
    assert Spaces(3) == "   " && Zeros(3) == "000";
    assert Laid([], "42", 5, x) == "   42" && Laid([], "42", 5, y) == "00042";
  }

  /** `%05.*d` with -1 and 42 fills with spaces, where the standard asks for zeros. */
  lemma NegativePrecisionOfZeros()
    ensures var f, args := "%05.*d", [Num(TWO32 - 1), Num(42)];
            && Render(f, 0, args, 0) == Some("   42")
            && ReadingOf(f, 1, args, 0).Some? && IntegerField(ReadingOf(f, 1, args, 0).value, 'd', 42) == "00042"
  {
    hide Ntoa.Ntoa, ReadingOf, ParseDirective, Text, Field, Render, IntegerField, LeastWidth;
    var f, args := "%05.*d", [Num(TWO32 - 1), Num(42)];
    ReadZeroFive(args);
    ParseZeroFive(args);
    var r := Reading("0", false, 5, true, None, "", 5, 1);
    ParserReads(f, 1, args, 0);
    var d := Kept(r);
    var x, y := IntegerFlags('d', d.fl), FlagsInForce(r, 'd');
    FieldsOf42(x, y);
    SameFieldAsked(r, 'd', 42);
    assert ValueOf(r, 'd', 42) == 42;
    OneDirective(f, args, r, 42);
    FieldExactly(42, false, 10, 0, 5, x);
  }

  // ---- directives read back ----

  /** How a width or a precision is written: not at all, as a `.` alone, as a number, or as `*`. */
  datatype Amount = Absent | Bare | Written(n: nat) | Star

  function AmountText(a: Amount): string
  {
    match a case Written(n) => Numeral(n, 10, LOWER) case Star => "*" case _ => ""
  }

  function PrecisionText(p: Amount): string { if p.Absent? then "" else "." + AmountText(p) }

  /** A `*` has its argument. */
  predicate Supplied(a: Amount, args: seq<Arg>, k: nat) { a.Star? ==> NumArg(args, k).Some? }

  function Amounting(a: Amount, args: seq<Arg>, k: nat): int
    requires Supplied(a, args, k)
  {
    match a case Written(n) => n case Star => TwosComplement(NumArg(args, k).value, 0x1_0000_0000) case _ => 0
  }

  function Used(a: Amount): nat { if a.Star? then 1 else 0 }

  /** A character that can follow the rest of a directive. */
  predicate EndsDirective(c: char)
  {
    !FlagChar(c) && !Decimal(c) && c !in ['.', '*', 'l', 'h', 't', 'j', 'z', '\0']
  }

  lemma {:induction false} FlagsEndIs(f: string, i: nat, j: nat)
    requires i <= j <= |f| && (forall c :: c in f[i..j] ==> FlagChar(c)) && !FlagChar(At(f, j))
    ensures FlagsEnd(f, i) == j
    decreases j - i
  {
    hide FlagChar;
    if i < j {
      assert f[i] == f[i..j][0] && f[i..j][1..] == f[i + 1..j];
      FlagsEndIs(f, i + 1, j);
    }
  }

  /** Neither a number nor a flag starts here. */
  predicate StartsNothing(c: char) { !Decimal(c) && c != '*' && !FlagChar(c) }

  lemma LengthReadsBack(f: string, i: nat, len: string)
    requires len in LENGTHS && i + |len| < |f| && f[i..i + |len|] == len && EndsDirective(f[i + |len|])
    ensures LengthReading(f, i) == len
    ensures StartsNothing(At(f, i)) && At(f, i) != '.'
  {
    LengthChars(f, i);
    assert |len| > 0 ==> f[i] == len[0];
    assert |len| > 1 ==> f[i + 1] == len[1];
    assert i + 1 <= |f| ==> f[i..i + 1] == [f[i]];
    assert i + 2 <= |f| ==> f[i..i + 2] == [f[i], f[i + 1]];
  }

  lemma AmountReadsBack(f: string, i: nat, j: nat, a: Amount)
    requires i <= j <= |f| && f[i..j] == AmountText(a) && StartsNothing(At(f, j))
    ensures At(f, i) == '*' <==> a.Star?
    ensures a.Star? ==> j == i + 1
    ensures !a.Star? ==> DigitsEnd(f, i) == j && NumberAt(f, i) == (if a.Written? then a.n else 0)
    ensures a.Written? && a.n > 0 ==> !FlagChar(At(f, i))
    ensures !a.Written? ==> !FlagChar(At(f, i))
  {
    hide Numeral, Text, Value;
    match a
    case Written(n) =>
      SameNumeral(n, 10, false);
      DecimalDigits(n);
      TextReadsBack(n, 10, false);
      TextIsMinimal(n, 10, false);
      forall m | i <= m < j ensures Decimal(f[m])
      {
        assert f[m] == f[i..j][m - i];
      }
      DigitsEndIs(f, i, j);
      SameDecimal(f[i..j]);
      assert f[i] == f[i..j][0];
    case Star => assert f[i] == f[i..j][0];
    case _ =>
      assert i == j;
      NoNumber(f, i);
  }

  lemma PrecisionReadsBack(f: string, i: nat, j: nat, p: Amount, r: Reading, args: seq<Arg>)
    requires i <= j <= |f| && f[i..j] == PrecisionText(p) && StartsNothing(At(f, j)) && At(f, j) != '.'
    requires r.at == i && !r.dotted && r.precision == None && Supplied(p, args, r.k)
    ensures var n := Amounting(p, args, r.k);
            PrecisionReading(f, r, args)
            == Some(r.(dotted := !p.Absent?, precision := if p.Absent? || n < 0 then None else Some(n), at := j,
                       k := r.k + Used(p)))
    ensures StartsNothing(At(f, i))
  {
    hide TwosComplement, NumberAt, Numeral;
    if p.Absent? {
      assert i == j;
    } else {
      assert f[i] == f[i..j][0] && f[i + 1..j] == f[i..j][1..] == AmountText(p);
      AmountReadsBack(f, i + 1, j, p);
    }
  }

  lemma WidthReadsBack(f: string, i: nat, j: nat, w: Amount, r: Reading, args: seq<Arg>)
    requires i <= j <= |f| && f[i..j] == AmountText(w) && StartsNothing(At(f, j)) && w != Written(0)
    requires r.at == i && r.width == 0 && Supplied(w, args, r.k)
    ensures var n := Amounting(w, args, r.k);
            WidthReading(f, r, args)
            == Some(r.(left := r.left || n < 0, width := if n < 0 then -n else n, at := j, k := r.k + Used(w)))
    ensures !FlagChar(At(f, i))
  {
    hide TwosComplement, NumberAt, Numeral;
    AmountReadsBack(f, i, j, w);
  }

  lemma Slices(f: string, pre: string, a: string, b: string, c: string, d: string, post: string)
    requires f == pre + a + b + c + d + post && post != ""
    ensures var i1 := |pre| + |a|; var i2 := i1 + |b|; var i3 := i2 + |c|;
            && i3 + |d| < |f| && f[i3 + |d|] == post[0]
            && f[|pre|..i1] == a && f[i1..i2] == b && f[i2..i3] == c && f[i3..i3 + |d|] == d
  {
  }

  /** What is read back of a width and a precision. */
  function AsWritten(fs: string, w: Amount, p: Amount, len: string, at: nat, args: seq<Arg>, k: nat): Reading
    requires Supplied(w, args, k) && Supplied(p, args, k + Used(w))
  {
    var n, m := Amounting(w, args, k), Amounting(p, args, k + Used(w));
    Reading(fs, '-' in fs || n < 0, if n < 0 then -n else n, !p.Absent?,
            if p.Absent? || m < 0 then None else Some(m), len, at, k + Used(w) + Used(p))
  }

  lemma PartsReadBack(f: string, i: nat, i1: nat, i2: nat, i3: nat, w: Amount, p: Amount, len: string,
                      args: seq<Arg>, k: nat)
    requires i <= i1 <= i2 <= i3 <= |f| && i3 + |len| < |f| && len in LENGTHS && w != Written(0)
    requires (forall c :: c in f[i..i1] ==> FlagChar(c)) && f[i1..i2] == AmountText(w) && f[i2..i3] == PrecisionText(p)
    requires f[i3..i3 + |len|] == len && EndsDirective(f[i3 + |len|])
    requires Supplied(w, args, k) && Supplied(p, args, k + Used(w))
    ensures ReadingOf(f, i, args, k) == Some(AsWritten(f[i..i1], w, p, len, i3 + |len|, args, k))
  {
    hide FlagsEnd, WidthReading, PrecisionReading, LengthReading, AmountText, PrecisionText, Amounting, Supplied,
         FlagChar, Decimal, StartsNothing, EndsDirective, ReadingOf;
    LengthReadsBack(f, i3, len);
    var n, m := Amounting(w, args, k), Amounting(p, args, k + Used(w));
    var fs := f[i..i1];
    var r := Reading(fs, '-' in fs, 0, false, None, "", i1, k);
    var q := r.(left := r.left || n < 0, width := if n < 0 then -n else n, at := i2, k := k + Used(w));
    var u := q.(dotted := !p.Absent?, precision := if p.Absent? || m < 0 then None else Some(m), at := i3,
                k := q.k + Used(p));
    PrecisionReadsBack(f, i2, i3, p, q, args);
    WidthReadsBack(f, i1, i2, w, r, args);
    FlagsEndIs(f, i, i1);
    ReadingIs(f, i, args, k, r, q, u, len);
  }

  /** Reading inverts writing: flags in any order, a width, a precision and a length modifier, written
      out in any of the forms there are before a conversion character, are read back as the standard
      means them, and the parser keeps them modulo 2^32, unless it has to negate the least width. */
  lemma DirectiveReadsBack(f: string, pre: string, fs: string, w: Amount, p: Amount, len: string, post: string,
                           args: seq<Arg>, k: nat)
    requires (forall c :: c in fs ==> FlagChar(c)) && w != Written(0) && len in LENGTHS
    requires Supplied(w, args, k) && Supplied(p, args, k + Used(w))
    requires post != "" && EndsDirective(post[0])
    requires f == pre + fs + AmountText(w) + PrecisionText(p) + len + post
    ensures var r := AsWritten(fs, w, p, len, |f| - |post|, args, k);
            && ReadingOf(f, |pre|, args, k) == Some(r)
            && ParseDirective(f, |pre|, args, k)
               == if w.Star? && Amounting(w, args, k) == -0x8000_0000 then None else Some(Kept(r))
  {
    hide AmountText, PrecisionText, Supplied, FlagChar, EndsDirective, ReadingOf, AsWritten, ParseDirective, Kept,
         Amounting, LeastWidth;
    var i1 := |pre| + |fs|;
    var i2 := i1 + |AmountText(w)|;
    var i3 := i2 + |PrecisionText(p)|;
    Slices(f, pre, fs, AmountText(w), PrecisionText(p), len, post);
    PartsReadBack(f, |pre|, i1, i2, i3, w, p, len, args, k);
    ParserReads(f, |pre|, args, k);
    LeastWidthWritten(f, |pre|, i1, i2, i3, w, p, len, args, k);
  }

  lemma LeastWidthWritten(f: string, i: nat, i1: nat, i2: nat, i3: nat, w: Amount, p: Amount, len: string,
                          args: seq<Arg>, k: nat)
    requires i <= i1 <= i2 <= i3 <= |f| && i3 + |len| < |f| && len in LENGTHS && w != Written(0)
    requires (forall c :: c in f[i..i1] ==> FlagChar(c)) && f[i1..i2] == AmountText(w) && f[i2..i3] == PrecisionText(p)
    requires f[i3..i3 + |len|] == len && EndsDirective(f[i3 + |len|])
    requires Supplied(w, args, k) && Supplied(p, args, k + Used(w))
    ensures LeastWidth(f, FlagsEnd(f, i), args, k) <==> w.Star? && Amounting(w, args, k) == -0x8000_0000
  {
    hide FlagsEnd, LengthReading, AmountText, PrecisionText, FlagChar, Decimal, StartsNothing, EndsDirective,
         TwosComplement;
    LengthReadsBack(f, i3, len);
    var r := Reading("", false, 0, false, None, "", i2, k + Used(w));
    PrecisionReadsBack(f, i2, i3, p, r, args);
    WidthReadsBack(f, i1, i2, w, r.(at := i1, k := k), args);
    AmountReadsBack(f, i1, i2, w);
    FlagsEndIs(f, i, i1);
  }

  /** The four parts of a reading, put together. */
  lemma ReadingIs(f: string, i: nat, args: seq<Arg>, k: nat, r: Reading, q: Reading, u: Reading, len: string)
    requires i <= |f| && FlagsEnd(f, i) <= |f|
    requires r == Reading(f[i..FlagsEnd(f, i)], '-' in f[i..FlagsEnd(f, i)], 0, false, None, "", FlagsEnd(f, i), k)
    requires WidthReading(f, r, args) == Some(q) && q.at <= |f| && PrecisionReading(f, q, args) == Some(u)
    requires LengthReading(f, u.at) == len
    ensures ReadingOf(f, i, args, k) == Some(u.(length := len, at := u.at + |len|))
  {
  }
}
