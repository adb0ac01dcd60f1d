/** The formatter itself: loops over a 32-character digit buffer and an output buffer of fixed
    size, proved to put out what module Format says and to cut it off where it must. */
module Printf {
  import opened Bits
  import opened Wrappers
  import opened Digits
  import opened Ntoa
  import opened Format

  // ---- the bounded sink ----

  /** A buffer that held `init` after the characters of `out` were offered to it. */
  function Sunk(init: string, out: string, maxlen: nat): string
    requires maxlen <= |init|
  {
    out[..Min(|out|, maxlen)] + init[Min(|out|, maxlen)..]
  }

  ghost predicate Holds(buffer: array<char>, init: string, out: string, maxlen: nat)
    reads buffer
  {
    maxlen <= |init| && buffer[..] == Sunk(init, out, maxlen)
  }

  lemma SunkNext(init: string, out: string, c: char, maxlen: nat)
    requires maxlen <= |init|
    ensures Sunk(init, out + [c], maxlen)
            == if |out| < maxlen then Sunk(init, out, maxlen)[|out| := c] else Sunk(init, out, maxlen)
  {
    if |out| >= maxlen {
      assert (out + [c])[..maxlen] == out[..maxlen];
    }
  }

  /** `_out_buffer` */
  method OutBuffer(c: char, buffer: array<char>, idx: nat, maxlen: nat, ghost init: string, ghost out: string)
    requires Holds(buffer, init, out, maxlen) && idx == |out|
    modifies buffer
    ensures Holds(buffer, init, out + [c], maxlen)
  {
    SunkNext(init, out, c, maxlen);
    if idx < maxlen {
      buffer[idx] := c;
    }
  }

  lemma OneMoreSpace(out: string, n: nat)
    ensures out + Spaces(n) + [' '] == out + Spaces(n + 1)
  {
  }

  /** n spaces, as the padding loops put them out. */
  method OutSpaces(n: nat, buffer: array<char>, idx: nat, maxlen: nat, ghost init: string, ghost out: string)
    returns (next: nat)
    requires Holds(buffer, init, out, maxlen) && idx == |out|
    modifies buffer
    ensures Holds(buffer, init, out + Spaces(n), maxlen) && next == |out + Spaces(n)|
  {
    hide Holds;
    next := idx;
    assert out + Spaces(0) == out;
    var i := 0;
    while i < n
      invariant i <= n && next == idx + i
      invariant Holds(buffer, init, out + Spaces(i), maxlen)
    {
      OutBuffer(' ', buffer, next, maxlen, init, out + Spaces(i));
      OneMoreSpace(out, i);
      next := next + 1;
      i := i + 1;
    }
  }

  // ---- integers ----

  lemma ReversedPrefix(s: string, k: nat)
    requires 0 < k <= |s|
    ensures Reversed(s)[..|s| - k] + [s[k - 1]] == Reversed(s)[..|s| - (k - 1)]
  {
  }

  /** `_out_rev`: the first len characters of buf, backwards, with padding. */
  method OutRev(buffer: array<char>, idx: nat, maxlen: nat, buf: array<char>, len: nat, width: nat, fl: Flags,
                ghost init: string, ghost out: string) returns (next: nat)
    requires Holds(buffer, init, out, maxlen) && idx == |out| && buf != buffer && len <= buf.Length
    modifies buffer
    ensures var s := Ntoa.OutRev(buf[..len], width, fl); Holds(buffer, init, out + s, maxlen) && next == |out + s|
  {
    hide Holds, Reversed;
    ghost var digits := buf[..len];
    ghost var pre := if !fl.left && !fl.zeropad then Spaces(Less(len, width)) else [];
    next := idx;
    if !fl.left && !fl.zeropad {
      next := OutSpaces(Less(len, width), buffer, next, maxlen, init, out);
    } else {
      assert out + pre == out;
    }
    ghost var out1 := out + pre;
    var k := len;
    assert Reversed(digits)[..0] == [] && out1 + [] == out1;
    while k > 0
      invariant k <= len && buf[..len] == digits && next == |out1| + (len - k)
      invariant Holds(buffer, init, out1 + Reversed(digits)[..len - k], maxlen)
    {
      OutBuffer(buf[k - 1], buffer, next, maxlen, init, out1 + Reversed(digits)[..len - k]);
      ReversedPrefix(digits, k);
      assert out1 + Reversed(digits)[..len - k] + [digits[k - 1]] == out1 + Reversed(digits)[..len - (k - 1)];
      k := k - 1;
      next := next + 1;
    }
    assert Reversed(digits)[..len] == Reversed(digits);
    ghost var out2 := out1 + Reversed(digits);
    if fl.left {
      next := OutSpaces(Less(len, width), buffer, next, maxlen, init, out2);
      assert out2 + Spaces(Less(len, width)) == out + Ntoa.OutRev(digits, width, fl);
    } else {
      assert out2 == out + Ntoa.OutRev(digits, width, fl);
    }
  }

  /** `buf[len++] = c` */
  method Append(buf: array<char>, len: nat, c: char) returns (next: nat)
    requires len < buf.Length
    modifies buf
    ensures next == len + 1 && buf[..next] == old(buf[..len]) + [c]
  {
    buf[len] := c;
    next := len + 1;
  }

  lemma OneMoreZero(s: string, n: nat)
    ensures s + Zeros(n) + ['0'] == s + Zeros(n + 1)
  {
  }

  /** The zero-padding loops. */
  method PadZeros(buf: array<char>, len: nat, target: nat) returns (next: nat)
    requires buf.Length == BUFFER_SIZE && len <= BUFFER_SIZE
    modifies buf
    ensures next <= BUFFER_SIZE && buf[..next] == PadTo(old(buf[..len]), target)
  {
    next := len;
    ghost var digits := buf[..len];
    assert digits + Zeros(0) == digits;
    while next < target && next < BUFFER_SIZE
      invariant len <= next <= BUFFER_SIZE && (next > len ==> next <= target)
      invariant buf[..next] == digits + Zeros(next - len)
    {
      OneMoreZero(digits, next - len);
      next := Append(buf, next, '0');
    }
  }

  /** `_ntoa_format` */
  method NtoaFormat(buffer: array<char>, idx: nat, maxlen: nat, buf: array<char>, len0: nat, negative: bool, base: nat,
                    prec: nat, width0: nat, fl: Flags, ghost init: string, ghost out: string) returns (next: nat)
    requires Holds(buffer, init, out, maxlen) && idx == |out| && buf != buffer
    requires buf.Length == BUFFER_SIZE && len0 <= BUFFER_SIZE
    modifies buffer, buf
    ensures var s := Ntoa.NtoaFormat(old(buf[..len0]), negative, base, prec, width0, fl);
            Holds(buffer, init, out + s, maxlen) && next == |out + s|
  {
    hide Holds, PadTo, Ntoa.OutRev;
    var len, width := len0, width0;
    ghost var b0 := buf[..len0];
    if !fl.left {
      if width != 0 && fl.zeropad && (negative || fl.plus || fl.space) {
        width := width - 1;
      }
      len := PadZeros(buf, len, prec);
      if fl.zeropad {
        len := PadZeros(buf, len, width);
      }
    }
    assert buf[..len] == PadBuf(b0, negative, prec, width0, fl) && width == PadWidth(negative, width0, fl);
    len := AddPrefix(buf, len, base, prec, width, fl);
    if len < BUFFER_SIZE {
      if negative {
        len := Append(buf, len, '-');
      } else if fl.plus {
        len := Append(buf, len, '+');
      } else if fl.space {
        len := Append(buf, len, ' ');
      }
    }
    assert buf[..len] == FormatBuf(b0, negative, base, prec, width0, fl);
    next := OutRev(buffer, idx, maxlen, buf, len, width, fl, init, out);
  }

  /** The part of `_ntoa_format` under FLAGS_HASH. */
  method AddPrefix(buf: array<char>, len0: nat, base: nat, prec: nat, width: nat, fl: Flags) returns (len: nat)
    requires buf.Length == BUFFER_SIZE && len0 <= BUFFER_SIZE
    modifies buf
    ensures len <= BUFFER_SIZE && buf[..len] == HashBuf(old(buf[..len0]), base, prec, width, fl)
  {
    len := len0;
    if fl.hash {
      if !fl.precision && len != 0 && (len == prec || len == width) {
        len := len - 1;
        if len != 0 && base == 16 {
          len := len - 1;
        }
      }
      assert buf[..len] == HashDrop(old(buf[..len0]), base, prec, width, fl);
      hide HashDrop;
      if base == 16 && !fl.upper && len < BUFFER_SIZE {
        len := Append(buf, len, 'x');
      } else if base == 16 && fl.upper && len < BUFFER_SIZE {
        len := Append(buf, len, 'X');
      } else if base == 2 && len < BUFFER_SIZE {
        len := Append(buf, len, 'b');
      }
      assert buf[..len] == HashMark(HashDrop(old(buf[..len0]), base, prec, width, fl), base, fl);
      hide HashMark;
      if len < BUFFER_SIZE {
        len := Append(buf, len, '0');
      }
    }
  }

  /** The digits of value that are still to come when there is room for that many more. */
  function DigitRest(value: nat, base: Base, upper: bool, room: nat): string
  {
    if value != 0 && room > 0 then DigitLoop(value, base, upper, room) else []
  }

  function LastDigit(value: nat, base: Base, upper: bool): char
  {
    Division(value, base);
    DigitChar(Rem(value, base), upper)
  }

  lemma DigitLoopStep(value: nat, base: Base, upper: bool, room: nat)
    requires room > 0
    ensures DigitLoop(value, base, upper, room)
            == [LastDigit(value, base, upper)] + DigitRest(Quot(value, base), base, upper, room - 1)
  {
    Division(value, base);
    assert [DigitChar(Rem(value, base), upper)] + [] == [DigitChar(Rem(value, base), upper)];
  }

  lemma OneMoreDigit(done: string, value: nat, base: Base, upper: bool, room: nat)
    requires value != 0 && room > 0
    ensures done + DigitRest(value, base, upper, room)
            == done + [LastDigit(value, base, upper)] + DigitRest(Quot(value, base), base, upper, room - 1)
  {
    hide LastDigit, Quot, DigitLoop;
    DigitLoopStep(value, base, upper, room);
  }

  lemma DigitsWritten(value: nat, base: Base, fl: Flags)
    ensures DigitBuf(value, base, fl)
            == if !fl.precision || value != 0 then DigitLoop(value, base, fl.upper, BUFFER_SIZE) else []
  {
  }

  /** `_ntoa_long` and `_ntoa_long_long`: the same code, on 64-bit values. */
  method NtoaLong(buffer: array<char>, idx: nat, maxlen: nat, value0: Word, negative: bool, base: Base, prec: nat,
                  width: nat, fl0: Flags, ghost init: string, ghost out: string) returns (next: nat)
    requires Holds(buffer, init, out, maxlen) && idx == |out|
    modifies buffer
    ensures var s := Ntoa.Ntoa(value0, negative, base, prec, width, fl0);
            Holds(buffer, init, out + s, maxlen) && next == |out + s|
  {
    hide Holds, Ntoa.Ntoa, Ntoa.NtoaFormat, DigitBuf;
    var fl := fl0;
    if value0 == 0 {
      fl := fl.(hash := false);
    }
    var buf := new char[BUFFER_SIZE];
    var len := WriteDigits(buf, value0, base, fl);
    assert DigitBuf(value0, base, fl) == DigitBuf(value0, base, fl0) by { SameDigits(value0, base, fl0); }
    NtoaIs(value0, negative, base, prec, width, fl0);
    next := NtoaFormat(buffer, idx, maxlen, buf, len, negative, base, prec, width, fl, init, out);
  }

  lemma SameDigits(value: nat, base: Base, fl: Flags)
    ensures DigitBuf(value, base, fl.(hash := false)) == DigitBuf(value, base, fl)
  {
  }

  /** Nothing for 0 with a precision of 0, else the digits. */
  method WriteDigits(buf: array<char>, value: nat, base: Base, fl: Flags) returns (len: nat)
    requires buf.Length == BUFFER_SIZE
    modifies buf
    ensures len <= BUFFER_SIZE && buf[..len] == DigitBuf(value, base, fl)
  {
    hide DigitBuf, DigitLoop;
    DigitsWritten(value, base, fl);
    if fl.precision && value == 0 {
      assert buf[..0] == [];
      return 0;
    }
    len := FillDigits(buf, value, base, fl.upper);
  }

  lemma NtoaIs(value: nat, negative: bool, base: Base, prec: nat, width: nat, fl: Flags)
    ensures Ntoa.Ntoa(value, negative, base, prec, width, fl)
            == Ntoa.NtoaFormat(DigitBuf(value, base, fl), negative, base, prec, width,
                               if value == 0 then fl.(hash := false) else fl)
  {
  }

  /** The do-while loop that fills the buffer, least significant digit first. */
  method FillDigits(buf: array<char>, value0: nat, base: Base, upper: bool) returns (len: nat)
    requires buf.Length == BUFFER_SIZE
    modifies buf
    ensures len <= BUFFER_SIZE && buf[..len] == DigitLoop(value0, base, upper, BUFFER_SIZE)
  {
    hide LastDigit, Quot, DigitLoop, DigitRest;
    var value := value0;
    DigitLoopStep(value, base, upper, BUFFER_SIZE);
    assert buf[..0] == [];
    len := Append(buf, 0, LastDigit(value, base, upper));
    value := Quot(value, base);
    while value != 0 && len < BUFFER_SIZE
      invariant 1 <= len <= BUFFER_SIZE
      invariant buf[..len] + DigitRest(value, base, upper, BUFFER_SIZE - len)
                == DigitLoop(value0, base, upper, BUFFER_SIZE)
      decreases BUFFER_SIZE - len
    {
      OneMoreDigit(buf[..len], value, base, upper, BUFFER_SIZE - len);
      len := Append(buf, len, LastDigit(value, base, upper));
      value := Quot(value, base);
    }
    NoMoreDigits(buf[..len], value, base, upper, BUFFER_SIZE - len);
  }

  lemma NoMoreDigits(done: string, value: nat, base: Base, upper: bool, room: nat)
    requires value == 0 || room == 0
    ensures done + DigitRest(value, base, upper, room) == done
  {
  }

  // ---- the parser ----

  method ReadFlags(f: string, start: nat) returns (fl: Flags, i: nat)
    ensures (fl, i) == ParseFlags(f, start, NO_FLAGS)
  {
    fl, i := NO_FLAGS, start;
    while i < |f| && IsFlag(f[i])
      invariant ParseFlags(f, i, fl) == ParseFlags(f, start, NO_FLAGS)
      decreases |f| - i
    {
      fl := SetFlag(fl, f[i]);
      i := i + 1;
    }
  }

  /** `_atoi` */
  method ReadNumber(f: string, start: nat) returns (v: nat, i: nat)
    ensures (v, i) == Atoi(f, start, 0)
  {
    v, i := 0, start;
    while i < |f| && IsDigit(f[i])
      invariant Atoi(f, i, v) == Atoi(f, start, 0)
      decreases |f| - i
    {
      v := (v * 10 + DigitValue(f[i])) % TWO32;
      i := i + 1;
    }
  }

  method ReadWidth(f: string, d0: Directive, args: seq<Arg>) returns (d: Directive)
    requires ParseWidth(f, d0, args).Some?
    ensures ParseWidth(f, d0, args) == Some(d)
  {
    hide Atoi, Wrapped;
    d := d0;
    if IsDigit(At(f, d.at)) {
      var width, i := ReadNumber(f, d.at);
      d := d.(width := width, at := i);
    } else if At(f, d.at) == '*' {
      var w := Int32(args[d.k].bits);
      if w < 0 {
        d := d.(fl := d.fl.(left := true));
        w := -w;
      }
      d := d.(width := w, at := d.at + 1, k := d.k + 1);
    }
  }

  method ReadPrecision(f: string, d0: Directive, args: seq<Arg>) returns (d: Directive)
    requires ParsePrecision(f, d0, args).Some?
    ensures ParsePrecision(f, d0, args) == Some(d)
  {
    hide Atoi, Wrapped;
    d := d0;
    if At(f, d.at) == '.' {
      d := d.(fl := d.fl.(precision := true), at := d.at + 1);
      if IsDigit(At(f, d.at)) {
        var prec, i := ReadNumber(f, d.at);
        d := d.(prec := prec, at := i);
      } else if At(f, d.at) == '*' {
        var p := Int32(args[d.k].bits);
        d := d.(prec := if p > 0 then p else 0, at := d.at + 1, k := d.k + 1);
      }
    }
  }

  method ReadDirective(f: string, start: nat, args: seq<Arg>, k: nat) returns (d: Directive)
    requires ParseDirective(f, start, args, k).Some?
    ensures ParseDirective(f, start, args, k) == Some(d)
  {
    hide ParseFlags, ParseWidth, ParsePrecision, ParseLength;
    var fl, i := ReadFlags(f, start);
    d := ReadWidth(f, Directive(fl, 0, 0, i, k), args);
    d := ReadPrecision(f, d, args);
    d := ParseLength(f, d);
  }

  // ---- strings and characters ----

  /** `_strnlen_s` */
  method StrnLen(text: string, maxsize: nat) returns (n: nat)
    ensures n == Min(|text|, maxsize)
  {
    n := 0;
    var left := maxsize;
    while n < |text| && left > 0
      invariant n <= |text| && 0 <= left && left + n == maxsize
    {
      left := left - 1;
      n := n + 1;
    }
  }

  /** The characters of a string argument, as many as the precision allows. */
  method OutText(text: string, limit: nat, buffer: array<char>, idx: nat, maxlen: nat,
                 ghost init: string, ghost out: string) returns (next: nat)
    requires Holds(buffer, init, out, maxlen) && idx == |out|
    modifies buffer
    ensures var s := text[..Min(|text|, limit)]; Holds(buffer, init, out + s, maxlen) && next == |out + s|
  {
    hide Holds;
    next := idx;
    var i := 0;
    assert out + text[..0] == out;
    while i < |text| && i < limit
      invariant i <= Min(|text|, limit) && next == idx + i
      invariant Holds(buffer, init, out + text[..i], maxlen)
    {
      OutBuffer(text[i], buffer, next, maxlen, init, out + text[..i]);
      assert out + text[..i] + [text[i]] == out + text[..i + 1];
      next := next + 1;
      i := i + 1;
    }
  }

  lemma PaddedParts(out: string, shown: string, pad: nat)
    ensures out + Spaces(pad) + shown == out + (Spaces(pad) + shown)
    ensures out + shown + Spaces(pad) == out + (shown + Spaces(pad))
  {
  }

  /** `%c` and `%s`: padding on one side of the text. */
  method OutPadded(text: string, limit: nat, len: nat, d: Directive, buffer: array<char>, idx: nat, maxlen: nat,
                   ghost init: string, ghost out: string) returns (next: nat)
    requires Holds(buffer, init, out, maxlen) && idx == |out|
    modifies buffer
    ensures var s := Padded(text[..Min(|text|, limit)], len, d);
            Holds(buffer, init, out + s, maxlen) && next == |out + s|
  {
    hide Holds, Spaces;
    ghost var shown := text[..Min(|text|, limit)];
    PaddedParts(out, shown, Less(len, d.width));
    next := idx;
    if !d.fl.left {
      next := OutSpaces(Less(len, d.width), buffer, next, maxlen, init, out);
      next := OutText(text, limit, buffer, next, maxlen, init, out + Spaces(Less(len, d.width)));
    } else {
      next := OutText(text, limit, buffer, next, maxlen, init, out);
      next := OutSpaces(Less(len, d.width), buffer, next, maxlen, init, out + shown);
    }
  }

  // ---- _vsnprintf ----

  method OutInteger(c: char, d: Directive, bits: Word, buffer: array<char>, idx: nat, maxlen: nat,
                    ghost init: string, ghost out: string) returns (next: nat)
    requires Holds(buffer, init, out, maxlen) && idx == |out| && IntegerOut(c, d, bits).Some?
    modifies buffer
    ensures var s := IntegerOut(c, d, bits).value; Holds(buffer, init, out + s, maxlen) && next == |out + s|
  {
    hide Holds, Ntoa.Ntoa, Wrapped;
    var fl := IntegerFlags(c, d.fl);
    if IsSigned(c) {
      var v := SignedArg(fl, bits);
      SignedRange(fl, bits);
      next := NtoaLong(buffer, idx, maxlen, Magnitude(v), v < 0, BaseOf(c), d.prec, d.width, fl, init, out);
    } else {
      next := NtoaLong(buffer, idx, maxlen, UnsignedArg(fl, bits), false, BaseOf(c), d.prec, d.width, fl, init, out);
    }
  }

  lemma SignedRange(fl: Flags, bits: Word)
    ensures Magnitude(SignedArg(fl, bits)) < TWO64
  {
  }

  /** One directive. */
  method OutDirective(f: string, d: Directive, args: seq<Arg>, buffer: array<char>, idx: nat, maxlen: nat,
                      ghost init: string, ghost out: string) returns (next: nat, k: nat)
    requires Holds(buffer, init, out, maxlen) && idx == |out| && Convert(f, d, args).Some?
    modifies buffer
    ensures var (s, used) := Convert(f, d, args).value;
            Holds(buffer, init, out + s, maxlen) && next == |out + s| && k == used
  {
    hide Holds, Ntoa.Ntoa, IntegerOut, Spaces;
    var c := f[d.at];
    k := d.k + 1;
    if IsIntegerConversion(c) {
      next := OutInteger(c, d, args[d.k].bits, buffer, idx, maxlen, init, out);
    } else if c == 'c' {
      var ch := (args[d.k].bits % 0x100) as char;
      assert [ch][..Min(|[ch]|, 1)] == [ch];
      next := OutPadded([ch], 1, 1, d, buffer, idx, maxlen, init, out);
    } else if c == 's' {
      var text := args[d.k].text;
      var l := StrnLen(text, if d.prec != 0 then d.prec else TWO64 - 1);
      l := l % TWO32;
      if d.fl.precision {
        l := Min(l, d.prec);
      }
      assert text[..Min(|text|, |text|)] == text;
      next := OutPadded(text, if d.fl.precision then d.prec else |text|, l, d, buffer, idx, maxlen, init, out);
    } else if c == 'p' {
      next := NtoaLong(buffer, idx, maxlen, args[d.k].bits, false, 16, d.prec, 16, PointerFlags(d.fl), init, out);
    } else {
      OutBuffer(c, buffer, idx, maxlen, init, out);
      next := idx + 1;
      k := d.k;
    }
  }

  /** The buffer `snprintf` leaves: as many characters as fit, the terminating NUL, and the rest of
      the buffer as it was. */
  function Truncated(init: string, out: string, maxlen: nat): string
    requires maxlen <= |init|
  {
    if maxlen == 0 then init else
    var m := Min(|out|, maxlen - 1);
    out[..m] + ['\0'] + init[m + 1..]
  }

  lemma NulAfter(a: string, b: string)
    requires b != []
    ensures (a + b)[|a| := '\0'] == a + ['\0'] + b[1..]
  {
  }

  lemma TruncatedIsSunk(init: string, out: string, maxlen: nat)
    requires 0 < maxlen <= |init|
    ensures var m := Min(|out|, maxlen - 1); Sunk(init, out, maxlen)[m := '\0'] == Truncated(init, out, maxlen)
  {
    if |out| < maxlen {
      ShortOutput(init, out, maxlen);
    } else {
      LongOutput(init, out, maxlen);
    }
  }

  lemma ShortOutput(init: string, out: string, maxlen: nat)
    requires |out| < maxlen <= |init|
    ensures Sunk(init, out, maxlen)[|out| := '\0'] == out[..|out|] + ['\0'] + init[|out| + 1..]
  {
    var rest := init[|out|..];
    NulAfter(out[..|out|], rest);
    assert rest[1..] == init[|out| + 1..];
  }

  lemma LongOutput(init: string, out: string, maxlen: nat)
    requires 0 < maxlen <= |init| && maxlen <= |out|
    ensures Sunk(init, out, maxlen)[maxlen - 1 := '\0'] == out[..maxlen - 1] + ['\0'] + init[maxlen..]
  {
    var c := [out[maxlen - 1]];
    var rest := init[maxlen..];
    assert out[..maxlen] == out[..maxlen - 1] + c;
    assert out[..maxlen - 1] + c + rest == out[..maxlen - 1] + (c + rest);
    NulAfter(out[..maxlen - 1], c + rest);
    assert (c + rest)[1..] == rest;
  }

  lemma RenderText(f: string, i: nat, args: seq<Arg>, k: nat)
    requires i < |f| && f[i] != '%' && Render(f, i, args, k).Some?
    ensures Render(f, i + 1, args, k).Some?
    ensures Render(f, i, args, k).value == [f[i]] + Render(f, i + 1, args, k).value
  {
  }

  lemma RenderDirective(f: string, i: nat, args: seq<Arg>, k: nat) returns (d: Directive, s: string, used: nat)
    requires i < |f| && f[i] == '%' && Render(f, i, args, k).Some?
    ensures ParseDirective(f, i + 1, args, k) == Some(d) && Convert(f, d, args) == Some((s, used))
    ensures i < d.at < |f| && Render(f, d.at + 1, args, used).Some?
    ensures Render(f, i, args, k) == Some(s + Render(f, d.at + 1, args, used).value)
  {
    hide ParseDirective, Convert;
    DirectiveAdvances(f, i + 1, args, k);
    d := ParseDirective(f, i + 1, args, k).value;
    ConvertInside(f, d, args);
    s, used := Convert(f, d, args).value.0, Convert(f, d, args).value.1;
  }

  /** The terminating NUL. */
  method Terminate(buffer: array<char>, idx: nat, maxlen: nat, ghost init: string, ghost out: string)
    requires Holds(buffer, init, out, maxlen) && idx == |out|
    modifies buffer
    ensures buffer[..] == Truncated(init, out, maxlen)
  {
    if maxlen > 0 {
      TruncatedIsSunk(init, out, maxlen);
      buffer[if idx < maxlen then idx else maxlen - 1] := '\0';
    }
  }

  lemma HoldsAtStart(buffer: array<char>, maxlen: nat)
    requires maxlen <= buffer.Length
    ensures Holds(buffer, buffer[..], [], maxlen)
  {
  }

  lemma CatAssoc(a: string, b: string, c: string)
    ensures a + (b + c) == a + b + c
  {
  }

  /** The truncation theorem. For every complete format and argument list the buffer holds the first
      characters of the unbounded output and a NUL, nothing else is touched, and the result does not
      depend on the size; with size 0, or without a buffer, nothing is written. */
  method Vsnprintf(buffer: array?<char>, maxlen: nat, f: string, args: seq<Arg>) returns (ret: int)
    requires buffer != null ==> maxlen <= buffer.Length
    requires '\0' !in f && Render(f, 0, args, 0).Some?
    modifies buffer
    ensures var out := Render(f, 0, args, 0).value;
            && (buffer != null && maxlen > 0 ==>
                  var m := if |out| < maxlen then |out| else maxlen - 1;
                  buffer[..m] == out[..m] && buffer[m] == '\0' && buffer[m + 1..] == old(buffer[..])[m + 1..])
            && (buffer != null && maxlen == 0 ==> buffer[..] == old(buffer[..]))
            && ret == Int32(|out|) && (|out| < 0x8000_0000 ==> ret == |out|)
  {
    hide Render;
    if buffer == null {
      var nowhere := new char[0];  // `_out_null`
      ret := PrintTo(nowhere, 0, f, args);
    } else {
      ghost var init := buffer[..];
      ret := PrintTo(buffer, maxlen, f, args);
      TruncatedParts(init, Render(f, 0, args, 0).value, maxlen, buffer[..]);
    }
  }

  lemma TruncatedParts(init: string, out: string, maxlen: nat, b: string)
    requires maxlen <= |init| && b == Truncated(init, out, maxlen)
    ensures maxlen == 0 ==> b == init
    ensures maxlen > 0 ==>
              var m := if |out| < maxlen then |out| else maxlen - 1;
              m < |b| && b[..m] == out[..m] && b[m] == '\0' && b[m + 1..] == init[m + 1..]
  {
  }

  /** The loop over the format, and the termination. */
  method PrintTo(buffer: array<char>, maxlen: nat, f: string, args: seq<Arg>) returns (ret: int)
    requires maxlen <= buffer.Length && Render(f, 0, args, 0).Some?
    modifies buffer
    ensures buffer[..] == Truncated(old(buffer[..]), Render(f, 0, args, 0).value, maxlen)
    ensures ret == Int32(|Render(f, 0, args, 0).value|)
  {
    hide ParseDirective, Convert, Holds, Truncated, Int32;
    ghost var init := buffer[..];
    ghost var all := Render(f, 0, args, 0).value;
    ghost var out: string := [];
    var i, k, idx := 0, 0, 0;
    HoldsAtStart(buffer, maxlen);
    assert [] + all == all;
    while i < |f|
      invariant i <= |f| && idx == |out| && Holds(buffer, init, out, maxlen)
      invariant Render(f, i, args, k).Some? && out + Render(f, i, args, k).value == all
      decreases |f| - i
    {
      hide Render;
      if f[i] != '%' {
        RenderText(f, i, args, k);
        CatAssoc(out, [f[i]], Render(f, i + 1, args, k).value);
        OutBuffer(f[i], buffer, idx, maxlen, init, out);
        out := out + [f[i]];
        idx := idx + 1;
        i := i + 1;
      } else {
        ghost var d0, s, used := RenderDirective(f, i, args, k);
        var d := ReadDirective(f, i + 1, args, k);
        CatAssoc(out, s, Render(f, d.at + 1, args, used).value);
        idx, k := OutDirective(f, d, args, buffer, idx, maxlen, init, out);
        out := out + s;
        i := d.at + 1;
      }
    }
    assert out + [] == out;
    Terminate(buffer, idx, maxlen, init, out);
    ret := Int32(idx);
  }

  lemma ConvertInside(f: string, d: Directive, args: seq<Arg>)
    ensures Convert(f, d, args).Some? ==> d.at < |f|
  {
  }

  lemma PlainUnsigned(bits: Word)
    ensures Render("%u", 0, [Num(bits)], 0) == Some(Ntoa.Ntoa(bits % TWO32, false, 10, 0, 0, NO_FLAGS) + "")
  {
    hide Ntoa.Ntoa, Atoi;
    var f, args := "%u", [Num(bits)];
    assert ParseFlags(f, 1, NO_FLAGS) == (NO_FLAGS, 1);
    var d := Directive(NO_FLAGS, 0, 0, 1, 0);
    assert ParseDirective(f, 1, args, 0) == Some(d);
    assert IntegerFlags('u', NO_FLAGS) == NO_FLAGS;
    assert IntegerOut('u', d, bits) == Some(Ntoa.Ntoa(bits % TWO32, false, 10, 0, 0, NO_FLAGS));
    assert Convert(f, d, args) == Some((Ntoa.Ntoa(bits % TWO32, false, 10, 0, 0, NO_FLAGS), 1));
    assert Render(f, 2, args, 1) == Some("");
  }

  lemma PlainField(value: Word)
    ensures Ntoa.Ntoa(value, false, 10, 0, 0, NO_FLAGS) == Text(value, 10, false)
  {
    hide Ntoa.Ntoa, Text;
    FieldExactly(value, false, 10, 0, 0, NO_FLAGS);
    var t := Text(value, 10, false);
    assert NumberPart(value, 10, 0, NO_FLAGS) == t;
    assert Spaces(0) + [] + t == t;
  }

  /** Printing a 32-bit number in decimal and reading it with `_atoi` gives the number back. */
  lemma UnsignedRoundTrip(bits: Word)
    ensures var s := Render("%u", 0, [Num(bits)], 0);
            s.Some? && Atoi(s.value, 0, 0) == (bits % TWO32, |s.value|)
  {
    hide Ntoa.Ntoa, Render, Text, Atoi;
    PlainUnsigned(bits);
    PlainField(bits % TWO32);
    var t := Text(bits % TWO32, 10, false);
    AtoiInvertsText(bits % TWO32, "");
    assert t + "" == t;
  }
}
