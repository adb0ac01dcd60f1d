/** The tokenizer `strtok` with its hidden state, and its refinement of section 7.24.5.8 of
    ISO/IEC 9899:2018: repeated calls deliver the maximal delimiter-free runs of the string. */
module Strtok {
  import opened Wrappers

  // ---- one call, on the contents of memory ----

  predicate IsEnd(m: string, i: nat) { i >= |m| || m[i] == '\0' }

  function SkipDelims(m: string, i: nat, delim: string): (r: nat)
    ensures r >= i
    decreases |m| - i
  {
    if !IsEnd(m, i) && m[i] in delim then SkipDelims(m, i + 1, delim) else i
  }

  function ScanToken(m: string, i: nat, delim: string): (r: nat)
    ensures r >= i
    decreases |m| - i
  {
    if !IsEnd(m, i) && m[i] !in delim then ScanToken(m, i + 1, delim) else i
  }

  /** The memory and the static pointer `last` after a call that starts at p, and the token. */
  function Call(m: string, p: Option<nat>, delim: string): (string, Option<nat>, Option<nat>)
  {
    match p
    case None => (m, None, None)
    case Some(i) =>
      var a := SkipDelims(m, i, delim);
      if IsEnd(m, a) then (m, None, None) else
      var b := ScanToken(m, a, delim);
      if IsEnd(m, b) then (m, None, Some(a)) else (m[b := '\0'], Some(b + 1), Some(a))
  }

  lemma CallAdvances(m: string, i: nat, delim: string)
    ensures var (m2, last, tok) := Call(m, Some(i), delim);
            && |m2| == |m| && (tok.Some? ==> i <= tok.value < |m|)
            && (last.Some? ==> tok.Some? && tok.value < last.value && i < last.value <= |m|)
  {
  }

  /** Calling until NULL comes back: the tokens in order, and the memory at the end. */
  function AllCalls(m: string, p: Option<nat>, delim: string): (seq<nat>, string)
    decreases if p.None? || p.value > |m| then 0 else |m| - p.value + 1
  {
    if p.Some? && p.value > |m| then ([], m) else
    var (m2, last, tok) := Call(m, p, delim);
    if tok.None? then ([], m2) else
    CallAdvances(m, p.value, delim);
    var (rest, m3) := AllCalls(m2, last, delim);
    ([tok.value] + rest, m3)
  }

  // ---- what the standard asks for ----

  /** [a, b) is a maximal run of characters of t that are no delimiters. */
  predicate IsRun(t: string, delim: string, a: nat, b: nat)
  {
    && a < b <= |t|
    && (forall k :: a <= k < b ==> t[k] !in delim)
    && (a == 0 || t[a - 1] in delim)
    && (b == |t| || t[b] in delim)
  }

  /** m is still t from position i on. */
  predicate Fresh(m: string, t: string, i: nat)
  {
    && i <= |t| < |m| && m[|t|] == '\0'
    && (forall k :: i <= k < |t| ==> m[k] == t[k] && t[k] != '\0')
  }

  lemma {:induction false} SkipIs(m: string, t: string, i: nat, delim: string)
    requires Fresh(m, t, i)
    ensures var a := SkipDelims(m, i, delim);
            && i <= a <= |t| && (forall k :: i <= k < a ==> t[k] in delim) && (a < |t| ==> t[a] !in delim)
            && (IsEnd(m, a) <==> a == |t|)
    decreases |m| - i
  {
    if i < |t| && m[i] in delim {
      SkipIs(m, t, i + 1, delim);
    }
  }

  lemma {:induction false} ScanIs(m: string, t: string, i: nat, delim: string)
    requires Fresh(m, t, i)
    ensures var b := ScanToken(m, i, delim);
            && i <= b <= |t| && (forall k :: i <= k < b ==> t[k] !in delim) && (b < |t| ==> t[b] in delim)
            && (IsEnd(m, b) <==> b == |t|)
    decreases |m| - i
  {
    if i < |t| && m[i] !in delim {
      ScanIs(m, t, i + 1, delim);
    }
  }

  /** Position i starts the text or follows a delimiter. */
  predicate AtBoundary(t: string, delim: string, i: nat)
  {
    i == 0 || (i <= |t| && t[i - 1] in delim)
  }

  /** One call finds the first run at or after its start, and nothing when there is none. */
  lemma OneCall(m: string, t: string, i: nat, delim: string)
    requires Fresh(m, t, i) && AtBoundary(t, delim, i)
    ensures var (m2, last, tok) := Call(m, Some(i), delim);
            match tok
            case None => m2 == m && last == None && forall x: nat, y: nat :: i <= x ==> !IsRun(t, delim, x, y)
            case Some(a) =>
              var b := ScanToken(m, a, delim);
              && i <= a && IsRun(t, delim, a, b)
              && (forall x: nat, y: nat :: i <= x && IsRun(t, delim, x, y) ==> (x, y) == (a, b) || x > b)
              && (if b == |t| then m2 == m && last == None
                  else m2 == m[b := '\0'] && last == Some(b + 1) && Fresh(m2, t, b + 1) && AtBoundary(t, delim, b + 1))
  {
    SkipIs(m, t, i, delim);
    var a := SkipDelims(m, i, delim);
    if a < |t| {
      ScanIs(m, t, a, delim);
      var b := ScanToken(m, a, delim);
      forall x: nat, y: nat | i <= x && IsRun(t, delim, x, y)
        ensures (x, y) == (a, b) || x > b
      {
        RunsAreApart(t, delim, a, b, x, y, i);
      }
    } else {
      forall x: nat, y: nat | i <= x ensures !IsRun(t, delim, x, y)
      {
        if x < |t| {
          assert t[x] in delim;
        }
      }
    }
  }

  lemma RunsAreApart(t: string, delim: string, a: nat, b: nat, x: nat, y: nat, i: nat)
    requires IsRun(t, delim, a, b) && IsRun(t, delim, x, y) && i <= x && i <= a
    requires forall k :: i <= k < a ==> t[k] in delim
    ensures (x, y) == (a, b) || x > b
  {
    assert t[x] !in delim && t[a] !in delim;
    assert x > 0 ==> t[x - 1] in delim;
    assert y < |t| ==> t[y] in delim;
    assert b < |t| ==> t[b] in delim;
  }

  /** Token a reads as its run in memory m: its characters, then NUL. */
  predicate ReadsAsRun(m: string, t: string, delim: string, a: nat)
  {
    var b := ScanToken(t + ['\0'], a, delim);
    && IsRun(t, delim, a, b) && b <= |t| < |m| && m[a..b] == t[a..b] && m[b] == '\0'
  }

  /** What a whole sequence of calls from position i on leaves. */
  ghost predicate DeliversRuns(m: string, t: string, delim: string, i: nat, toks: seq<nat>, m3: string)
  {
    && |m3| == |m|
    && (forall n :: 0 <= n < |toks| ==> i <= toks[n] && ReadsAsRun(m3, t, delim, toks[n]))
    && (forall n, l :: 0 <= n < l < |toks| ==> toks[n] < toks[l])
    && (forall x: nat, y: nat :: i <= x && IsRun(t, delim, x, y) ==> x in toks)
    && (forall k :: 0 <= k < |m| ==> m3[k] == m[k] || (i <= k < |t| && t[k] in delim && m3[k] == '\0'))
  }

  lemma {:induction false} ScanOfText(m: string, t: string, a: nat, delim: string)
    requires Fresh(m, t, a) && '\0' !in t
    ensures ScanToken(t + ['\0'], a, delim) == ScanToken(m, a, delim)
    decreases |t| - a
  {
    var u := t + ['\0'];
    if a < |t| {
      assert u[a] == t[a] == m[a] && t[a] in t;
      if t[a] !in delim {
        ScanOfText(m, t, a + 1, delim);
      }
    }
  }

  /** Repeated calls deliver the runs, in order, and write only NULs over delimiters. */
  lemma {:induction false} AllCallsDeliver(m: string, t: string, i: nat, delim: string)
    requires Fresh(m, t, i) && AtBoundary(t, delim, i) && '\0' !in t
    ensures var (toks, m3) := AllCalls(m, Some(i), delim); DeliversRuns(m, t, delim, i, toks, m3)
    decreases |m| - i
  {
    OneCall(m, t, i, delim);
    SkipIs(m, t, i, delim);
    var (m2, last, tok) := Call(m, Some(i), delim);
    if tok.Some? {
      var a := tok.value;
      ScanIs(m, t, a, delim);
      ScanOfText(m, t, a, delim);
      var b := ScanToken(m, a, delim);
      if b == |t| {
        LastToken(m, t, i, a, delim);
      } else {
        AllCallsDeliver(m2, t, b + 1, delim);
        var (rest, m3) := AllCalls(m2, last, delim);
        TokenThenRest(m, t, i, a, b, delim, m2, rest, m3);
      }
    }
  }

  lemma LastToken(m: string, t: string, i: nat, a: nat, delim: string)
    requires Fresh(m, t, i) && i <= a && ScanToken(t + ['\0'], a, delim) == |t| && IsRun(t, delim, a, |t|)
    requires forall x: nat, y: nat :: i <= x && IsRun(t, delim, x, y) ==> (x, y) == (a, |t|) || x > |t|
    ensures DeliversRuns(m, t, delim, i, [a], m)
  {
    assert m[a..|t|] == t[a..|t|];
  }

  lemma TokenThenRest(m: string, t: string, i: nat, a: nat, b: nat, delim: string, m2: string, rest: seq<nat>,
                      m3: string)
    requires Fresh(m, t, i) && i <= a < b < |t| && ScanToken(t + ['\0'], a, delim) == b && IsRun(t, delim, a, b)
    requires forall x: nat, y: nat :: i <= x && IsRun(t, delim, x, y) ==> (x, y) == (a, b) || x > b
    requires m2 == m[b := '\0'] && DeliversRuns(m2, t, delim, b + 1, rest, m3)
    ensures DeliversRuns(m, t, delim, i, [a] + rest, m3)
  {
    var toks := [a] + rest;
    assert m3[b] == '\0';
    assert m3[a..b] == t[a..b] by {
      assert forall k :: a <= k < b ==> m3[k] == m2[k] == m[k] == t[k];
    }
    assert ReadsAsRun(m3, t, delim, a);
    forall x: nat, y: nat | i <= x && IsRun(t, delim, x, y) ensures x in toks
    {
      if x > b {
        assert x in rest;
      }
    }
  }

  // ---- the C function ----

  method InDelims(delim: string, c: char) returns (found: bool)
    ensures found <==> c in delim
  {
    var k := 0;
    while k < |delim|
      invariant k <= |delim| && c !in delim[..k]
    {
      if delim[k] == c {
        return true;
      }
      k := k + 1;
    }
    found := false;
  }

  class Tokenizer {
    // The static pointer; None is NULL.
    var last: Option<nat>

    constructor ()
      ensures last == None
    {
      last := None;
    }

    /** `strtok(s, delim)`; s is None for NULL. The string must end inside the buffer. */
    method StrTok(buf: array<char>, s: Option<nat>, delim: string) returns (tok: Option<nat>)
      requires forall i :: (if s.Some? then s else last) == Some(i) ==>
                 exists k :: i <= k < buf.Length && buf[k] == '\0'
      modifies this, buf
      ensures (buf[..], last, tok) == Call(old(buf[..]), if s.Some? then s else old(last), delim)
    {
      var p := if s.Some? then s else last;
      if p == None {
        last := None;
        return None;
      }
      ghost var m := buf[..];
      var a := p.value;
      ghost var end: nat :| a <= end < buf.Length && buf[end] == '\0';
      var isDelim := InDelims(delim, buf[a]);
      while buf[a] != '\0' && isDelim
        invariant a <= end && buf[..] == m && (isDelim <==> buf[a] in delim)
        invariant SkipDelims(m, a, delim) == SkipDelims(m, p.value, delim)
        decreases end - a
      {
        a := a + 1;
        isDelim := InDelims(delim, buf[a]);
      }
      if buf[a] == '\0' {
        last := None;
        return None;
      }
      var b := a;
      while buf[b] != '\0' && !isDelim
        invariant a <= b <= end && buf[..] == m && (isDelim <==> buf[b] in delim)
        invariant ScanToken(m, b, delim) == ScanToken(m, a, delim)
        decreases end - b
      {
        b := b + 1;
        isDelim := InDelims(delim, buf[b]);
      }
      if buf[b] == '\0' {
        last := None;
      } else {
        buf[b] := '\0';
        last := Some(b + 1);
      }
      tok := Some(a);
    }
  }
}
