/** Digits of unsigned integers: the text of a number, reading it back, and the bounded reversed
    buffer the formatter fills. */
module Digits {
  import opened Bits

  type Base = b: nat | 2 <= b <= 16 witness 10

  function DigitChar(d: nat, upper: bool): char
    requires d < 16
  {
    if d < 10 then '0' + d as char else (if upper then 'A' else 'a') + (d - 10) as char
  }

  function DigitValue(c: char): nat
  {
    if '0' <= c <= '9' then c as nat - '0' as nat
    else if 'a' <= c <= 'f' then c as nat - 'a' as nat + 10
    else if 'A' <= c <= 'F' then c as nat - 'A' as nat + 10
    else 0
  }

  lemma DigitReadsBack(d: nat, upper: bool)
    requires d < 16
    ensures DigitValue(DigitChar(d, upper)) == d
    ensures DigitChar(d, upper) == '0' <==> d == 0
    ensures DigitChar(d, upper) !in [' ', '+', '-']
  {
  }

  function Quot(value: nat, base: nat): nat requires base > 0 { value / base }
  function Rem(value: nat, base: nat): nat requires base > 0 { value % base }

  /** The facts about division that the digit loops need. */
  lemma Division(value: nat, base: nat)
    requires base >= 2
    ensures value == Quot(value, base) * base + Rem(value, base) && Rem(value, base) < base
    ensures value > 0 ==> Quot(value, base) < value
    ensures Quot(value, base) > 0 <==> value >= base
    ensures value < base ==> Rem(value, base) == value
  {
    var q, r := value / base, value % base;
    assert value == base * q + r;
    if value > 0 && q >= value {
      MulMono(base, value, q);
    }
    if q > 0 {
      MulMono(base, 1, q);
    }
  }

  /** The digits of value, most significant first, without leading zeros. */
  function Text(value: nat, base: Base, upper: bool): (s: seq<char>)
    ensures |s| > 0
  {
    if value < base then [DigitChar(value, upper)]
    else
      Division(value, base);
      Text(Quot(value, base), base, upper) + [DigitChar(Rem(value, base), upper)]
  }

  function Value(s: seq<char>, base: nat): nat
  {
    if s == [] then 0 else Value(s[..|s| - 1], base) * base + DigitValue(s[|s| - 1])
  }

  /** Reading a number's text gives the number back. */
  lemma {:induction false} TextReadsBack(value: nat, base: Base, upper: bool)
    ensures Value(Text(value, base, upper), base) == value
  {
    hide Quot, Rem, DigitChar, DigitValue;
    Division(value, base);
    var s := Text(value, base, upper);
    if value < base {
      DigitReadsBack(value, upper);
      assert s[..0] == [];
    } else {
      Division(value, base);
      TextReadsBack(Quot(value, base), base, upper);
      DigitReadsBack(Rem(value, base), upper);
      assert s[..|s| - 1] == Text(Quot(value, base), base, upper);
    }
  }

  /** The text is minimal: it starts with 0 only for the number 0. */
  lemma {:induction false} TextIsMinimal(value: nat, base: Base, upper: bool)
    ensures Text(value, base, upper)[0] == '0' <==> value == 0
    ensures forall i :: 0 <= i < |Text(value, base, upper)| ==> Text(value, base, upper)[i] !in [' ', '+', '-']
  {
    hide Quot, Rem, DigitChar;
    Division(value, base);
    if value < base {
      DigitReadsBack(value, upper);
    } else {
      Division(value, base);
      DigitReadsBack(Rem(value, base), upper);
      TextIsMinimal(Quot(value, base), base, upper);
    }
  }

  function Zeros(n: nat): (s: seq<char>)
    ensures |s| == n
  {
    seq(n, _ => '0')
  }

  function Spaces(n: nat): (s: seq<char>)
    ensures |s| == n
  {
    seq(n, _ => ' ')
  }

  /** Leading zeros do not change a number. */
  lemma {:induction false} LeadingZeros(n: nat, s: seq<char>, base: nat)
    ensures Value(Zeros(n) + s, base) == Value(s, base)
  {
    if s == [] {
      if n > 0 {
        LeadingZeros(n - 1, [], base);
        assert (Zeros(n) + [])[..n - 1] == Zeros(n - 1) + [];
      }
    } else {
      LeadingZeros(n, s[..|s| - 1], base);
      assert (Zeros(n) + s)[..|Zeros(n) + s| - 1] == Zeros(n) + s[..|s| - 1];
    }
  }

  function Power(base: nat, k: nat): nat
  {
    if k == 0 then 1 else base * Power(base, k - 1)
  }

  /** A number below base^k has at most k digits. */
  lemma {:induction false} TextLength(value: nat, base: Base, upper: bool, k: nat)
    requires k > 0 && value < Power(base, k)
    ensures |Text(value, base, upper)| <= k
  {
    hide Quot, Rem, DigitChar;
    if value >= base {
      Division(value, base);
      assert k > 1;
      QuotientBound(value, base, Power(base, k - 1));
      TextLength(Quot(value, base), base, upper, k - 1);
    }
  }

  lemma QuotientBound(value: nat, base: nat, p: nat)
    requires base > 0 && value < base * p
    ensures Quot(value, base) < p
  {
    var q := Quot(value, base);
    assert value == base * q + Rem(value, base);
    if q >= p {
      MulMono(base, p, q);
    }
  }

  /** A 64-bit number in octal, decimal or hexadecimal has at most 22 digits. */
  lemma WordLength(value: Word, base: Base, upper: bool)
    requires base >= 8
    ensures |Text(value, base, upper)| <= 22
  {
    PowerMono(8, base, 22);
    assert Power(8, 22) >= TWO64 by {
      assert Power(8, 4) == 4096;
      PowerSum(8, 4, 4);
      PowerSum(8, 8, 8);
      PowerSum(8, 16, 4);
      assert Power(8, 2) == 64;
      PowerSum(8, 20, 2);
    }
    TextLength(value, base, upper, 22);
  }

  lemma {:induction false} PowerSum(base: nat, j: nat, k: nat)
    ensures Power(base, j + k) == Power(base, j) * Power(base, k)
  {
    if j > 0 {
      PowerSum(base, j - 1, k);
      MulAssoc(base, Power(base, j - 1), Power(base, k));
    }
  }

  lemma MulAssoc(a: nat, b: nat, c: nat)
    ensures a * b * c == a * (b * c)
  {
  }

  lemma {:induction false} PowerMono(a: nat, b: nat, k: nat)
    requires a <= b
    ensures Power(a, k) <= Power(b, k)
  {
    if k > 0 {
      PowerMono(a, b, k - 1);
      MulMono(a, Power(a, k - 1), Power(b, k - 1));
      MulMono(Power(b, k - 1), a, b);
    }
  }

  // ---- the reversed buffer ----

  function Reversed(s: seq<char>): (r: seq<char>)
    ensures |r| == |s|
    ensures forall i :: 0 <= i < |s| ==> r[i] == s[|s| - 1 - i]
  {
    seq(|s|, i requires 0 <= i < |s| => s[|s| - 1 - i])
  }

  /** The do-while loop of `_ntoa_long` with room for that many more digits. */
  function DigitLoop(value: nat, base: Base, upper: bool, room: nat): seq<char>
    requires room > 0
    decreases room
  {
    Division(value, base);
    var d := [DigitChar(Rem(value, base), upper)];
    if Quot(value, base) != 0 && room > 1 then d + DigitLoop(Quot(value, base), base, upper, room - 1) else d
  }

  /** The buffer holds the last `room` digits of the number, backwards. */
  lemma {:induction false} DigitLoopIsText(value: nat, base: Base, upper: bool, room: nat)
    requires room > 0
    ensures var t := Text(value, base, upper);
            var n := if |t| < room then |t| else room;
            DigitLoop(value, base, upper, room) == Reversed(t[|t| - n..])
    decreases room
  {
    hide Reversed, Quot, Rem, DigitChar;
    Division(value, base);
    var d := DigitChar(Rem(value, base), upper);
    if value < base {
      assert [d][0..] == [d] && [d] == [] + [d];
      ReversedSnoc([], d);
    } else {
      Division(value, base);
      var s := Text(Quot(value, base), base, upper);
      var t := Text(value, base, upper);
      var n := if |t| < room then |t| else room;
      assert t[|t| - n..] == s[|s| - (n - 1)..] + [d];
      ReversedSnoc(s[|s| - (n - 1)..], d);
      if room > 1 {
        DigitLoopIsText(Quot(value, base), base, upper, room - 1);
      } else {
        assert s[|s|..] == [];
      }
    }
  }

  lemma ReversedSnoc(s: seq<char>, c: char)
    ensures Reversed(s + [c]) == [c] + Reversed(s)
  {
  }
}
