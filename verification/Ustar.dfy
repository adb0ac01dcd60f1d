/** The ustar interchange format as the kernel reads it: header blocks, octal sizes, and the disk
    an archive lies on. */
module Ustar {
  import opened Bits
  import opened Wrappers
  import opened Digits
  import opened Paths

  const BLOCK: nat := 0x200
  const TAR_SYMLINK: char := '2'
  const TAR_DIR: char := '5'

  // ---- reading ----

  /** `rdisk_read`: the bytes, or -1. The last byte of the disk cannot be read. */
  function DiskRead(disk: string, len: nat, offset: nat): Option<string>
  {
    if len + offset >= |disk| then None else Some(disk[offset..offset + len])
  }

  predicate HeaderSized(h: string) { |h| == BLOCK }

  function NameOf(h: string): string requires HeaderSized(h) { CStr(h) }
  function SizeField(h: string): string requires HeaderSized(h) { h[124..135] }
  function TypeOf(h: string): char requires HeaderSized(h) { h[156] }
  function LinkOf(h: string): string requires HeaderSized(h) { CStr(h[157..]) }
  predicate HasMagic(h: string) requires HeaderSized(h) { h[257..262] == "ustar" }
  predicate HasVersion(h: string) requires HeaderSized(h) { h[263..265] == "00" }

  /** `str[i] - '0'` for a signed char. */
  function CharDigit(c: char): int
  {
    (if c as int % 0x100 >= 0x80 then c as int % 0x100 - 0x100 else c as int % 0x100) - 0x30
  }

  /** `oct2bin`, in 32-bit arithmetic. */
  function Oct2bin(s: string): nat
  {
    if s == "" then 0 else (Oct2bin(s[..|s| - 1]) * 8 + CharDigit(s[|s| - 1])) % TWO32
  }

  method Oct2binLoop(s: string) returns (n: nat)
    ensures n == Oct2bin(s)
  {
    n := 0;
    for i := 0 to |s|
      invariant n == Oct2bin(s[..i])
    {
      n := n * 8 % TWO32;
      assert s[..i + 1][..i] == s[..i];
      ShiftWraps(Oct2bin(s[..i]), CharDigit(s[i]));
      n := (n + CharDigit(s[i])) % TWO32;
    }
    assert s[..|s|] == s;
  }

  lemma ShiftWraps(x: nat, d: int)
    requires d >= -0x1_0000
    ensures (x * 8 % TWO32 + d) % TWO32 == (x * 8 + d) % TWO32
  {
    var q, r := x * 8 / TWO32, x * 8 % TWO32;
    var e, f := (r + d) / TWO32, (r + d) % TWO32;
    DivMod(x * 8 + d, TWO32, q + e, f);
  }

  /** The sum of the bytes' signed values less the code of 0, in powers of 8. */
  function OctalSum(s: string): int
  {
    if s == "" then 0 else
    var byte := s[|s| - 1] as int % 256;
    OctalSum(s[..|s| - 1]) * 8 + (if byte < 128 then byte else byte - 256) - 48
  }

  /** Whatever the bytes are, `oct2bin` is that sum modulo 2^32. */
  lemma {:induction false} Oct2binIs(s: string)
    ensures Oct2bin(s) == OctalSum(s) % 0x1_0000_0000
  {
    if s != "" {
      Oct2binIs(s[..|s| - 1]);
      var x, d := OctalSum(s[..|s| - 1]), CharDigit(s[|s| - 1]);
      var q, r := x / TWO32, x % TWO32;
      var y := r * 8 + d;
      DivMod(x * 8 + d, TWO32, q * 8 + y / TWO32, y % TWO32);
    }
  }

  // ---- writing ----

  function Octal(n: nat, k: nat): (s: string)
    ensures |s| == k
  {
    if k == 0 then "" else Octal(n / 8, k - 1) + [DigitChar(n % 8, false)]
  }

  lemma {:induction false} OctalReadsBack(n: nat, k: nat)
    requires n < Power(8, k) && n < TWO32
    ensures Oct2bin(Octal(n, k)) == n
  {
    if k > 0 {
      QuotBelow(n, Power(8, k - 1));
      hide Power;
      OctalReadsBack(n / 8, k - 1);
      var s := Octal(n, k);
      assert s[..k - 1] == Octal(n / 8, k - 1);
      OctalDigit(n % 8);
      assert n == n / 8 * 8 + n % 8;
      DivMod(n, TWO32, 0, n);
    }
  }

  lemma OctalDigit(d: nat)
    requires d < 8
    ensures CharDigit(DigitChar(d, false)) == d
  {
  }

  lemma QuotBelow(n: nat, p: nat)
    requires n < 8 * p
    ensures n / 8 < p
  {
  }

  lemma SizesFit()
    ensures Power(8, 11) > TWO32
  {
    assert Power(8, 4) == 4096;
    PowerSum(8, 4, 4);
    assert Power(8, 3) == 512;
    PowerSum(8, 8, 3);
  }

  /** One member of an archive. The fields the kernel ignores may hold anything. */
  datatype Record = Record(name: string, kind: char, link: string, data: string,
                           meta: string, stamp: string, rest: string)

  function PadTo100(s: string): (r: string)
    requires |s| < 100
    ensures |r| == 100
  {
    s + seq(100 - |s|, _ => '\0')
  }

  predicate RecordOk(r: Record)
  {
    && |r.name| < 100 && |r.link| < 100 && '\0' !in r.name && '\0' !in r.link && |r.data| < TWO32
    && |r.meta| == 24 && |r.stamp| == 21 && |r.rest| == 247
  }

  /** name, mode/uid/gid, size, mtime/checksum, type, linkname, magic, version, and the rest. */
  function Header(r: Record): (h: string)
    requires RecordOk(r)
    ensures |h| == BLOCK
  {
    PadTo100(r.name) + r.meta + Octal(|r.data|, 11) + r.stamp + [r.kind] + PadTo100(r.link)
    + "ustar" + ['\0'] + "00" + r.rest
  }

  lemma PaddedString(s: string, tail: string)
    requires |s| < 100 && '\0' !in s
    ensures CStr(PadTo100(s) + tail) == s
  {
    var z := seq(100 - |s|, _ => '\0');
    var rest := z[1..] + tail;
    assert z == ['\0'] + z[1..];
    assert PadTo100(s) + tail == s + ['\0'] + rest;
    CStrOfTerminated(s, rest);
  }

  /** The fields of a header, by their place. */
  lemma HeaderFields(r: Record)
    requires RecordOk(r)
    ensures var h := Header(r);
            && (exists tail :: h == PadTo100(r.name) + tail) && (exists tail :: h[157..] == PadTo100(r.link) + tail)
            && SizeField(h) == Octal(|r.data|, 11) && TypeOf(h) == r.kind && HasMagic(h) && HasVersion(h)
  {
    hide Octal, PadTo100;
    var h := Header(r);
    var b := "ustar" + ['\0'] + "00" + r.rest;
    var a := r.meta + Octal(|r.data|, 11) + r.stamp + [r.kind] + PadTo100(r.link) + "ustar" + ['\0'] + "00" + r.rest;
    assert h == PadTo100(r.name) + a;
    assert h[157..] == PadTo100(r.link) + b;
  }

  /** The kernel reads back what the archive's header says. */
  lemma HeaderReadsBack(r: Record)
    requires RecordOk(r)
    ensures var h := Header(r);
            && HasMagic(h) && HasVersion(h) && NameOf(h) == r.name && TypeOf(h) == r.kind && LinkOf(h) == r.link
            && Oct2bin(SizeField(h)) == |r.data|
  {
    hide Header, CStr, Oct2bin, Octal, SizeField, TypeOf, HasMagic, HasVersion;
    HeaderFields(r);
    var h := Header(r);
    var a :| h == PadTo100(r.name) + a;
    PaddedString(r.name, a);
    var b :| h[157..] == PadTo100(r.link) + b;
    PaddedString(r.link, b);
    SizesFit();
    OctalReadsBack(|r.data|, 11);
  }

  // ---- archives ----

  /** How far the kernel moves on for a member of this size. */
  function MemberSize(size: nat): nat { ((size + 511) / 512 + 1) * 512 }

  function Nuls(n: nat): (s: string)
    ensures |s| == n
  {
    seq(n, _ => '\0')
  }

  /** A block for the header and as many as the data needs. */
  lemma MemberCoversData(size: nat)
    ensures 512 + size <= MemberSize(size) < 2 * 512 + size && MemberSize(size) % 512 == 0
  {
    var q := (size + 511) / 512;
    assert size + 511 == q * 512 + (size + 511) % 512;
    DivMod((q + 1) * 512, BLOCK, q + 1, 0);
  }

  function Member(r: Record): (m: string)
    requires RecordOk(r)
    ensures |m| == MemberSize(|r.data|)
  {
    MemberCoversData(|r.data|);
    Header(r) + r.data + Nuls(MemberSize(|r.data|) - BLOCK - |r.data|)
  }

  predicate RecordsOk(rs: seq<Record>) { forall i :: 0 <= i < |rs| ==> RecordOk(rs[i]) }

  function Archive(rs: seq<Record>): string
    requires RecordsOk(rs)
  {
    if rs == [] then "" else Member(rs[0]) + Archive(rs[1..])
  }

  /** The disk from some member on, after `before`, with k zero blocks at its end. */
  predicate LiesAt(disk: string, before: string, rs: seq<Record>, k: nat)
    requires RecordsOk(rs)
  {
    disk == before + Archive(rs) + Nuls(k * BLOCK)
  }

  /** The disk goes on behind the header of the first member. */
  predicate GoesOn(rs: seq<Record>, k: nat)
    requires rs != []
  {
    k >= 1 || |rs| > 1 || rs[0].data != ""
  }

  lemma ArchiveStep(rs: seq<Record>)
    requires RecordsOk(rs) && rs != []
    ensures RecordsOk(rs[1..]) && Archive(rs) == Member(rs[0]) + Archive(rs[1..]) && |Archive(rs)| >= BLOCK
  {
    hide Member, RecordOk;
    MemberCoversData(|rs[0].data|);
  }

  lemma MemberParts(disk: string, before: string, rs: seq<Record>, k: nat) returns (tail: string)
    requires RecordsOk(rs) && rs != [] && LiesAt(disk, before, rs, k)
    ensures disk == before + (Member(rs[0]) + tail) && tail == Archive(rs[1..]) + Nuls(k * BLOCK)
    ensures LiesAt(disk, before + Member(rs[0]), rs[1..], k)
    ensures tail == "" <==> |rs| == 1 && k == 0
  {
    hide Member, RecordOk;
    ArchiveStep(rs);
    hide Archive, RecordsOk;
    var m := Member(rs[0]);
    tail := Archive(rs[1..]) + Nuls(k * BLOCK);
    assert before + m + Archive(rs[1..]) + Nuls(k * BLOCK) == before + (m + tail);
    if |rs| > 1 {
      ArchiveStep(rs[1..]);
    } else {
      assert rs[1..] == [];
      EmptyArchive();
    }
  }

  lemma EmptyArchive()
    ensures Archive([]) == ""
  {
  }

  /** The kernel reads the header of a member just when the disk goes on behind it, and in any case
      it then finds itself at the member that follows. */
  lemma NextMember(disk: string, before: string, rs: seq<Record>, k: nat)
    requires RecordsOk(rs) && rs != [] && LiesAt(disk, before, rs, k)
    ensures DiskRead(disk, BLOCK, |before|) == if GoesOn(rs, k) then Some(Header(rs[0])) else None
    ensures LiesAt(disk, before + Member(rs[0]), rs[1..], k)
    ensures |before| + MemberSize(|rs[0].data|) <= |disk|
  {
    var tail := MemberParts(disk, before, rs, k);
    var m := Member(rs[0]);
    MemberCoversData(|rs[0].data|);
    DataNeedsBlock(|rs[0].data|);
    if GoesOn(rs, k) {
      assert disk[|before|..|before| + BLOCK] == m[..BLOCK];
      assert m[..BLOCK] == Header(rs[0]);
    }
  }

  lemma DataNeedsBlock(size: nat)
    ensures MemberSize(size) == BLOCK <==> size == 0
    ensures MemberSize(size) == BLOCK + size <==> size % BLOCK == 0
  {
    var q, r := size / 512, size % 512;
    assert size == 512 * q + r;
    DivMod(size + 511, 512, if r == 0 then q else q + 1, if r == 0 then 511 else r - 1);
  }

  /** Behind the last member there is no header. */
  lemma NoMoreMembers(disk: string, before: string, k: nat)
    requires LiesAt(disk, before, [], k)
    ensures var h := DiskRead(disk, BLOCK, |before|); h == None || (HeaderSized(h.value) && !HasMagic(h.value))
  {
    assert disk == before + Nuls(k * BLOCK);
    if k >= 2 {
      var h := disk[|before|..|before| + BLOCK];
      assert h[257] == '\0';
    }
  }

  /** A range inside data that starts at some offset of the disk reads back its bytes. */
  predicate RangeReads(disk: string, data: string, start: nat, off: nat, len: nat)
  {
    off + len <= |data| ==> DiskRead(disk, len, start + off) == Some(data[off..off + len])
  }

  ghost predicate Readable(disk: string, data: string, start: nat)
  {
    forall off: nat, len: nat :: RangeReads(disk, data, start, off, len)
  }

  /** Exactly when any range inside a member's data reads back its bytes. The last byte of a disk
      cannot be read, so the data must not end with the disk. */
  lemma DataReadsExactly(disk: string, before: string, rs: seq<Record>, k: nat)
    requires RecordsOk(rs) && rs != [] && LiesAt(disk, before, rs, k)
    ensures Readable(disk, rs[0].data, |before| + BLOCK) <==> |rs| > 1 || k >= 1 || |rs[0].data| % BLOCK != 0
  {
    var tail := MemberParts(disk, before, rs, k);
    var data := rs[0].data;
    MemberCoversData(|data|);
    DataNeedsBlock(|data|);
    if |rs| > 1 || k >= 1 || |data| % BLOCK != 0 {
      var start := |before| + BLOCK;
      forall off: nat, len: nat ensures RangeReads(disk, data, start, off, len)
      {
        if off + len <= |data| {
          DataRange(disk, before, rs[0], tail, off, len);
        }
      }
    } else {
      assert !RangeReads(disk, data, |before| + BLOCK, 0, |data|);
    }
  }

  lemma DataRange(disk: string, before: string, r: Record, tail: string, off: nat, len: nat)
    requires RecordOk(r) && disk == before + (Member(r) + tail) && off + len <= |r.data|
    requires BLOCK + |r.data| < |Member(r)| + |tail|
    ensures DiskRead(disk, len, |before| + BLOCK + off) == Some(r.data[off..off + len])
  {
    var m := Member(r);
    MemberCoversData(|r.data|);
    assert m[BLOCK + off..BLOCK + off + len] == r.data[off..off + len];
    assert disk[|before| + BLOCK + off..|before| + BLOCK + off + len] == m[BLOCK + off..BLOCK + off + len];
  }
}
