/** Integer fields: what `_ntoa_long` and `_ntoa_format` put out, and when that is the field that
    section 7.21.6.1 of ISO/IEC 9899:2018 asks for. */
module Ntoa {
  import opened Bits
  import opened Digits

  const BUFFER_SIZE: nat := 32

  /** The `FLAGS_` bits. */
  datatype Flags = Flags(zeropad: bool, left: bool, plus: bool, space: bool, hash: bool, upper: bool,
                         asChar: bool, asShort: bool, asLong: bool, asLongLong: bool, precision: bool)

  function Less(a: nat, b: nat): nat { if a < b then b - a else 0 }
  function Min(a: nat, b: nat): nat { if a < b then a else b }

  // ---- the code, over the contents of the digit buffer ----

  /** `while (len < target && len < 32) buf[len++] = '0'` */
  function PadTo(buf: seq<char>, target: nat): seq<char>
  {
    buf + Zeros(Less(|buf|, Min(target, BUFFER_SIZE)))
  }

  function PadWidth(negative: bool, width: nat, fl: Flags): nat
  {
    if !fl.left && width > 0 && fl.zeropad && (negative || fl.plus || fl.space) then width - 1 else width
  }

  function PadBuf(buf: seq<char>, negative: bool, prec: nat, width: nat, fl: Flags): seq<char>
  {
    if fl.left then buf else
    var b := PadTo(buf, prec);
    if fl.zeropad then PadTo(b, PadWidth(negative, width, fl)) else b
  }

  /** `#` takes back digits where padding was expected to be. */
  function HashDrop(buf: seq<char>, base: nat, prec: nat, width: nat, fl: Flags): seq<char>
  {
    var n := |buf|;
    if !fl.precision && n > 0 && (n == prec || n == width)
    then (if n - 1 > 0 && base == 16 then buf[..n - 2] else buf[..n - 1]) else buf
  }

  function HashMark(buf: seq<char>, base: nat, fl: Flags): seq<char>
  {
    if base == 16 && |buf| < BUFFER_SIZE then buf + [if fl.upper then 'X' else 'x']
    else if base == 2 && |buf| < BUFFER_SIZE then buf + ['b'] else buf
  }

  function HashBuf(buf: seq<char>, base: nat, prec: nat, width: nat, fl: Flags): seq<char>
  {
    if !fl.hash then buf else
    var b := HashMark(HashDrop(buf, base, prec, width, fl), base, fl);
    if |b| < BUFFER_SIZE then b + ['0'] else b
  }

  function Sign(negative: bool, fl: Flags): seq<char>
  {
    if negative then ['-'] else if fl.plus then ['+'] else if fl.space then [' '] else []
  }

  function SignBuf(buf: seq<char>, negative: bool, fl: Flags): seq<char>
  {
    if |buf| < BUFFER_SIZE then buf + Sign(negative, fl) else buf
  }

  function FormatBuf(buf: seq<char>, negative: bool, base: nat, prec: nat, width: nat, fl: Flags): seq<char>
  {
    var padded := PadBuf(buf, negative, prec, width, fl);
    SignBuf(HashBuf(padded, base, prec, PadWidth(negative, width, fl), fl), negative, fl)
  }

  function OutRev(buf: seq<char>, width: nat, fl: Flags): seq<char>
  {
    (if !fl.left && !fl.zeropad then Spaces(Less(|buf|, width)) else [])
    + Reversed(buf)
    + (if fl.left then Spaces(Less(|buf|, width)) else [])
  }

  function NtoaFormat(buf: seq<char>, negative: bool, base: nat, prec: nat, width: nat, fl: Flags): seq<char>
  {
    OutRev(FormatBuf(buf, negative, base, prec, width, fl), PadWidth(negative, width, fl), fl)
  }

  function DigitBuf(value: nat, base: Base, fl: Flags): seq<char>
  {
    if !fl.precision || value != 0 then DigitLoop(value, base, fl.upper, BUFFER_SIZE) else []
  }

  function Ntoa(value: nat, negative: bool, base: Base, prec: nat, width: nat, fl: Flags): seq<char>
  {
    NtoaFormat(DigitBuf(value, base, fl), negative, base, prec, width,
               if value == 0 then fl.(hash := false) else fl)
  }

  // ---- buffer safety and field length, for every flag ----

  lemma DigitBufFits(value: nat, base: Base, fl: Flags)
    ensures |DigitBuf(value, base, fl)| <= BUFFER_SIZE
  {
    if !fl.precision || value != 0 {
      DigitLoopIsText(value, base, fl.upper, BUFFER_SIZE);
    }
  }

  lemma FormatBufFits(buf: seq<char>, negative: bool, base: nat, prec: nat, width: nat, fl: Flags)
    requires |buf| <= BUFFER_SIZE
    ensures |FormatBuf(buf, negative, base, prec, width, fl)| <= BUFFER_SIZE
  {
  }

  /** The field is as wide as asked, or as its characters need; with zero padding and without `-`
      it has just the characters of the buffer. */
  lemma FieldLength(value: nat, negative: bool, base: Base, prec: nat, width: nat, fl: Flags)
    ensures var fl1 := if value == 0 then fl.(hash := false) else fl;
            var len := |FormatBuf(DigitBuf(value, base, fl), negative, base, prec, width, fl1)|;
            && len <= BUFFER_SIZE
            && |Ntoa(value, negative, base, prec, width, fl)|
               == if fl.zeropad && !fl.left then len
                  else if len < width then width else len
  {
    hide FormatBuf, DigitBuf;
    DigitBufFits(value, base, fl);
    var fl1 := if value == 0 then fl.(hash := false) else fl;
    FormatBufFits(DigitBuf(value, base, fl), negative, base, prec, width, fl1);
  }

  // ---- the field the standard asks for ----

  /** Section 7.21.6.1: no characters for 0 with a precision of 0, else the minimal digits. */
  function DigitsOf(value: nat, base: Base, fl: Flags): seq<char>
  {
    if fl.precision && value == 0 then [] else Text(value, base, fl.upper)
  }

  /** Section 7.21.6.1: the digits, with zeros up to the precision. */
  function NumberPart(value: nat, base: Base, prec: nat, fl: Flags): seq<char>
  {
    var digits := DigitsOf(value, base, fl);
    Zeros(Less(|digits|, prec)) + digits
  }

  /** Section 7.21.6.1: padding with spaces on the left, on the right with `-`, or with zeros after
      the sign with `0`. */
  function Field(value: nat, negative: bool, base: Base, prec: nat, width: nat, fl: Flags): seq<char>
  {
    var body := NumberPart(value, base, prec, fl);
    var sign := Sign(negative, fl);
    var pad := Less(|sign| + |body|, width);
    if fl.left then sign + body + Spaces(pad)
    else if fl.zeropad then sign + Zeros(pad) + body
    else Spaces(pad) + sign + body
  }

  /** The number in the field is the one that was formatted. */
  lemma NumberReadsBack(value: nat, base: Base, prec: nat, fl: Flags, extra: nat)
    ensures Value(Zeros(extra) + NumberPart(value, base, prec, fl), base) == value
  {
    var digits := DigitsOf(value, base, fl);
    TextReadsBack(value, base, fl.upper);
    LeadingZeros(Less(|digits|, prec), digits, base);
    LeadingZeros(extra, NumberPart(value, base, prec, fl), base);
  }

  // ---- when the code produces it ----

  lemma ReversedCat(a: seq<char>, b: seq<char>)
    ensures Reversed(a + b) == Reversed(b) + Reversed(a)
  {
  }

  lemma ReversedZeros(n: nat)
    ensures Reversed(Zeros(n)) == Zeros(n)
  {
  }

  lemma ReversedTwice(s: seq<char>)
    ensures Reversed(Reversed(s)) == s
  {
  }

  lemma ReversedShort(s: seq<char>)
    requires |s| <= 1
    ensures Reversed(s) == s
  {
  }

  /** What comes out of the buffer: digits, then zeros, then the sign, read backwards. */
  lemma ReversedParts(digits: seq<char>, zeros: nat, sign: seq<char>)
    requires |sign| <= 1
    ensures Reversed(Reversed(digits) + Zeros(zeros) + sign) == sign + Zeros(zeros) + digits
  {
    ReversedCat(Reversed(digits) + Zeros(zeros), sign);
    ReversedCat(Reversed(digits), Zeros(zeros));
    ReversedZeros(zeros);
    ReversedTwice(digits);
    ReversedShort(sign);
    assert sign + (Zeros(zeros) + digits) == sign + Zeros(zeros) + digits;
  }

  lemma ShortBuffer(value: Word, base: Base, fl: Flags)
    requires base >= 8
    ensures DigitBuf(value, base, fl) == Reversed(DigitsOf(value, base, fl)) && |DigitsOf(value, base, fl)| <= 22
  {
    WordLength(value, base, fl.upper);
    if !(fl.precision && value == 0) {
      DigitLoopIsText(value, base, fl.upper, BUFFER_SIZE);
      var t := Text(value, base, fl.upper);
      assert t[0..] == t;
    }
  }

  /** The sign is lost when the zeros fill the buffer, and `-` drops the precision's zeros. */
  predicate Fits(digits: nat, sign: seq<char>, prec: nat, width: nat, fl: Flags)
  {
    if fl.left then prec <= digits
    else if fl.zeropad then width <= BUFFER_SIZE
    else prec < BUFFER_SIZE || (prec == BUFFER_SIZE && (sign == [] || (sign == [' '] && width > BUFFER_SIZE)))
  }

  lemma LeftField(digits: seq<char>, sign: seq<char>, prec: nat, width: nat)
    requires |sign| <= 1 && (digits == [] || prec == 0 || digits[0] != '0') && |digits| <= 22
    ensures var body := Zeros(Less(|digits|, prec)) + digits;
            Reversed(Reversed(digits) + sign) + Spaces(Less(|digits| + |sign|, width))
            == sign + body + Spaces(Less(|sign| + |body|, width))
            <==> prec <= |digits|
  {
    ReversedParts(digits, 0, sign);
    assert Reversed(digits) + Zeros(0) + sign == Reversed(digits) + sign;
    assert sign + Zeros(0) + digits == sign + digits;
    var body := Zeros(Less(|digits|, prec)) + digits;
    if prec <= |digits| {
      assert body == digits;
    } else {
      var out := sign + digits + Spaces(Less(|digits| + |sign|, width));
      var field := sign + body + Spaces(Less(|sign| + |body|, width));
      assert field[|sign|] == '0';
      assert |out| > |sign| ==> out[|sign|] == if digits == [] then ' ' else digits[0];
    }
  }

  lemma CatFour(a: seq<char>, b: seq<char>, c: seq<char>, d: seq<char>)
    ensures a + (b + c + d) == a + b + (c + d)
  {
    assert a + (b + c + d) == a + b + (c + d);
  }

  lemma SpaceFieldShort(digits: seq<char>, sign: seq<char>, prec: nat, width: nat)
    requires |sign| <= 1 && |digits| <= 22 && prec < BUFFER_SIZE
    ensures var all := WithSign(PadTo(Reversed(digits), prec), sign);
            var body := Zeros(Less(|digits|, prec)) + digits;
            Spaces(Less(|all|, width)) + Reversed(all) == Spaces(Less(|sign| + |body|, width)) + sign + body
  {
    hide Spaces, Zeros, Reversed;
    var zeros := Less(|digits|, prec);
    ReversedParts(digits, zeros, sign);
    var n := |digits| + zeros + |sign|;
    CatFour(Spaces(Less(n, width)), sign, Zeros(zeros), digits);
  }

  lemma SpaceField(digits: seq<char>, sign: seq<char>, prec: nat, width: nat)
    requires |sign| <= 1 && |digits| <= 22 && (sign != [] ==> sign[0] != '0')
    ensures var all := WithSign(PadTo(Reversed(digits), prec), sign);
            var body := Zeros(Less(|digits|, prec)) + digits;
            Spaces(Less(|all|, width)) + Reversed(all) == Spaces(Less(|sign| + |body|, width)) + sign + body
            <==> prec < BUFFER_SIZE || (prec == BUFFER_SIZE && (sign == [] || (sign == [' '] && width > BUFFER_SIZE)))
  {
    hide Spaces, Zeros, Reversed;
    if prec < BUFFER_SIZE {
      SpaceFieldShort(digits, sign, prec, width);
    } else {
      var z := Zeros(BUFFER_SIZE - |digits|);
      ReversedParts(digits, BUFFER_SIZE - |digits|, []);
      assert Reversed(digits) + z + [] == Reversed(digits) + z;
      assert [] + z + digits == z + digits;
      FullBuffer(digits, sign, prec, width);
    }
  }

  /** With a precision of 32 or more the buffer is full before the sign is reached. */
  lemma FullBuffer(digits: seq<char>, sign: seq<char>, prec: nat, width: nat)
    requires |sign| <= 1 && |digits| <= 22 && prec >= BUFFER_SIZE && (sign != [] ==> sign[0] != '0')
    ensures var out := Spaces(Less(BUFFER_SIZE, width)) + (Zeros(BUFFER_SIZE - |digits|) + digits);
            var body := Zeros(prec - |digits|) + digits;
            out == Spaces(Less(|sign| + |body|, width)) + sign + body
            <==> prec == BUFFER_SIZE && (sign == [] || (sign == [' '] && width > BUFFER_SIZE))
  {
    var full := Zeros(BUFFER_SIZE - |digits|) + digits;
    var out := Spaces(Less(BUFFER_SIZE, width)) + full;
    var body := Zeros(prec - |digits|) + digits;
    var field := Spaces(Less(|sign| + |body|, width)) + sign + body;
    if prec > BUFFER_SIZE {
      if |out| == |field| {
        var k := |out| - BUFFER_SIZE - 1;
        assert out[k] == ' ';
        assert field[k] == body[prec - BUFFER_SIZE - 1] == '0';
      }
    } else if sign != [] {
      if width > BUFFER_SIZE {
        var k := width - BUFFER_SIZE - 1;
        assert out[k] == ' ' && field[k] == sign[0];
        if sign == [' '] {
          assert out == field;
        }
      } else {
        assert |out| != |field|;
      }
    }
  }

  lemma ZeroField(digits: seq<char>, sign: seq<char>, width: nat)
    requires |sign| <= 1 && |digits| <= 22
    ensures var w := if width > 0 && sign != [] then width - 1 else width;
            var buf := PadTo(Reversed(digits), w);
            var all := WithSign(buf, sign);
            Reversed(all) == sign + Zeros(Less(|sign| + |digits|, width)) + digits
            <==> width <= BUFFER_SIZE
  {
    var w := if width > 0 && sign != [] then width - 1 else width;
    var buf := PadTo(Reversed(digits), w);
    var zeros := Less(|digits|, Min(w, BUFFER_SIZE));
    if width <= BUFFER_SIZE {
      ReversedParts(digits, zeros, sign);
      if |buf| == BUFFER_SIZE {
        assert sign == [];
        assert buf + sign == buf;
      }
    }
  }

  lemma NoPrecision(digits: seq<char>)
    requires |digits| <= 22
    ensures PadTo(Reversed(digits), 0) == Reversed(digits) && Zeros(Less(|digits|, 0)) + digits == digits
  {
  }

  ghost predicate Plain(base: Base, prec: nat, fl: Flags)
  {
    base >= 8 && !fl.hash && (prec > 0 ==> fl.precision) && (fl.precision ==> !fl.zeropad)
  }

  lemma NtoaPlain(value: Word, negative: bool, base: Base, prec: nat, width: nat, fl: Flags)
    requires Plain(base, prec, fl)
    ensures Ntoa(value, negative, base, prec, width, fl)
            == OutRev(SignBuf(PadBuf(Reversed(DigitsOf(value, base, fl)), negative, prec, width, fl), negative, fl),
                      PadWidth(negative, width, fl), fl)
  {
    hide DigitBuf, DigitsOf, Reversed, PadBuf, SignBuf, OutRev;
    ShortBuffer(value, base, fl);
    assert fl == if value == 0 then fl.(hash := false) else fl;
  }

  lemma OutRevCases(buf: seq<char>, width: nat, fl: Flags)
    ensures fl.left ==> OutRev(buf, width, fl) == Reversed(buf) + Spaces(Less(|buf|, width))
    ensures !fl.left && fl.zeropad ==> OutRev(buf, width, fl) == Reversed(buf)
    ensures !fl.left && !fl.zeropad ==> OutRev(buf, width, fl) == Spaces(Less(|buf|, width)) + Reversed(buf)
  {
    hide Reversed, Spaces;
    var r, p := Reversed(buf), Spaces(Less(|buf|, width));
    assert [] + r + p == r + p;
    assert [] + r + [] == r;
    assert p + r + [] == p + r;
  }

  lemma NtoaLeft(value: Word, negative: bool, base: Base, prec: nat, width: nat, fl: Flags)
    requires Plain(base, prec, fl) && fl.left
    ensures var digits := DigitsOf(value, base, fl);
            var sign := Sign(negative, fl);
            Ntoa(value, negative, base, prec, width, fl)
            == Reversed(Reversed(digits) + sign) + Spaces(Less(|digits| + |sign|, width))
  {
    hide Ntoa, DigitsOf, Reversed, Spaces, OutRev, Sign;
    NtoaPlain(value, negative, base, prec, width, fl);
    ShortDigits(value, base, fl);
    OutRevCases(Reversed(DigitsOf(value, base, fl)) + Sign(negative, fl), width, fl);
  }

  lemma ShortDigits(value: Word, base: Base, fl: Flags)
    requires base >= 8
    ensures |DigitsOf(value, base, fl)| <= 22
    ensures DigitsOf(value, base, fl) != [] && value != 0 ==> DigitsOf(value, base, fl)[0] != '0'
    ensures DigitsOf(value, base, fl) == [] || value != 0 || !fl.precision
  {
    hide Text;
    WordLength(value, base, fl.upper);
    TextIsMinimal(value, base, fl.upper);
  }

  function WithSign(buf: seq<char>, sign: seq<char>): seq<char>
  {
    if |buf| < BUFFER_SIZE then buf + sign else buf
  }

  lemma NtoaZero(value: Word, negative: bool, base: Base, prec: nat, width: nat, fl: Flags)
    requires Plain(base, prec, fl) && !fl.left && fl.zeropad
    ensures var digits := DigitsOf(value, base, fl);
            var sign := Sign(negative, fl);
            var w := if width > 0 && sign != [] then width - 1 else width;
            Ntoa(value, negative, base, prec, width, fl) == Reversed(WithSign(PadTo(Reversed(digits), w), sign))
  {
    hide Ntoa, DigitsOf, Reversed, PadTo, OutRev;
    NtoaPlain(value, negative, base, prec, width, fl);
    ShortDigits(value, base, fl);
    var digits := DigitsOf(value, base, fl);
    NoPrecision(digits);
    var w := if width > 0 && Sign(negative, fl) != [] then width - 1 else width;
    OutRevCases(WithSign(PadTo(Reversed(digits), w), Sign(negative, fl)), w, fl);
  }

  lemma NtoaSpace(value: Word, negative: bool, base: Base, prec: nat, width: nat, fl: Flags)
    requires Plain(base, prec, fl) && !fl.left && !fl.zeropad
    ensures var buf := WithSign(PadTo(Reversed(DigitsOf(value, base, fl)), prec), Sign(negative, fl));
            Ntoa(value, negative, base, prec, width, fl) == Spaces(Less(|buf|, width)) + Reversed(buf)
  {
    hide Ntoa, DigitsOf, Reversed, PadTo, Spaces, OutRev, Sign;
    NtoaPlain(value, negative, base, prec, width, fl);
    OutRevCases(WithSign(PadTo(Reversed(DigitsOf(value, base, fl)), prec), Sign(negative, fl)), width, fl);
  }

  lemma SignIsNoZero(negative: bool, fl: Flags)
    ensures |Sign(negative, fl)| <= 1 && (Sign(negative, fl) != [] ==> Sign(negative, fl)[0] != '0')
  {
  }

  /** Exactly when the code produces the standard's field, for octal, decimal and hexadecimal, any
      64-bit magnitude and every flag but `#`. */
  lemma FieldExactly(value: Word, negative: bool, base: Base, prec: nat, width: nat, fl: Flags)
    requires base >= 8 && !fl.hash
    requires prec > 0 ==> fl.precision
    requires fl.precision ==> !fl.zeropad
    ensures Ntoa(value, negative, base, prec, width, fl) == Field(value, negative, base, prec, width, fl)
            <==> Fits(|DigitsOf(value, base, fl)|, Sign(negative, fl), prec, width, fl)
  {
    if fl.left {
      FieldLeft(value, negative, base, prec, width, fl);
    } else if fl.zeropad {
      FieldZero(value, negative, base, prec, width, fl);
    } else {
      FieldSpace(value, negative, base, prec, width, fl);
    }
  }

  lemma FieldLeft(value: Word, negative: bool, base: Base, prec: nat, width: nat, fl: Flags)
    requires Plain(base, prec, fl) && fl.left
    ensures Ntoa(value, negative, base, prec, width, fl) == Field(value, negative, base, prec, width, fl)
            <==> Fits(|DigitsOf(value, base, fl)|, Sign(negative, fl), prec, width, fl)
  {
    hide Ntoa, DigitsOf, PadTo, Reversed, Spaces, Zeros, Sign;
    ShortDigits(value, base, fl);
    SignIsNoZero(negative, fl);
    NtoaLeft(value, negative, base, prec, width, fl);
    LeftField(DigitsOf(value, base, fl), Sign(negative, fl), prec, width);
  }

  lemma FieldZero(value: Word, negative: bool, base: Base, prec: nat, width: nat, fl: Flags)
    requires Plain(base, prec, fl) && !fl.left && fl.zeropad
    ensures Ntoa(value, negative, base, prec, width, fl) == Field(value, negative, base, prec, width, fl)
            <==> Fits(|DigitsOf(value, base, fl)|, Sign(negative, fl), prec, width, fl)
  {
    hide Ntoa, DigitsOf, PadTo, Reversed, Spaces, Zeros, Sign;
    ShortDigits(value, base, fl);
    SignIsNoZero(negative, fl);
    NtoaZero(value, negative, base, prec, width, fl);
    NoPrecision(DigitsOf(value, base, fl));
    ZeroField(DigitsOf(value, base, fl), Sign(negative, fl), width);
  }

  lemma FieldSpace(value: Word, negative: bool, base: Base, prec: nat, width: nat, fl: Flags)
    requires Plain(base, prec, fl) && !fl.left && !fl.zeropad
    ensures Ntoa(value, negative, base, prec, width, fl) == Field(value, negative, base, prec, width, fl)
            <==> Fits(|DigitsOf(value, base, fl)|, Sign(negative, fl), prec, width, fl)
  {
    hide Ntoa, DigitsOf, PadTo, Reversed, Spaces, Zeros, Sign;
    ShortDigits(value, base, fl);
    SignIsNoZero(negative, fl);
    NtoaSpace(value, negative, base, prec, width, fl);
    SpaceField(DigitsOf(value, base, fl), Sign(negative, fl), prec, width);
  }
}
