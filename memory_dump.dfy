/**
 * dumpmemory: print a memory region as lines of 16 bytes, each line showing
 * the bytes in hex (grouped in words of 4) beside their printable characters
 * (grouped in halves of 8). The line buffers are fixed-size character arrays
 * filled at computed indices; the reporting sink is an output sequence of
 * lines.
 */
module MemoryDump {
  import opened CStrings

  newtype Byte = x: int | 0 <= x < 0x100

  /** Sizes of the line buffers `hexdump` and `ascdump`. */
  const HexDumpSize: nat := 58
  const AsciiDumpSize: nat := 18

  /**
   * dumplen: `size` padded up to whole 16-byte lines. The source keeps it in an
   * `unsigned long`, which is 32 bits wide on Windows, so the value wraps.
   */
  function DumpLength(size: nat): (n: nat)
    ensures n % 16 == 0 && n < 0x1_0000_0000
  {
    var padded := if size % 16 == 0 then size else size + (16 - size % 16);
    TruncatedLines(padded, if size % 16 == 0 then size / 16 else size / 16 + 1);
    padded % 0x1_0000_0000
  }

  /** Truncating a whole number of lines to 32 bits leaves a whole number of lines. */
  lemma TruncatedLines(padded: nat, lines: nat)
    requires padded == 16 * lines
    ensures (padded % 0x1_0000_0000) % 16 == 0
  {
    var wraps, n := padded / 0x1_0000_0000, padded % 0x1_0000_0000;
    assert padded == 0x1_0000_0000 * wraps + n;
    Mod16(n, lines - 0x1000_0000 * wraps, 0);
  }

  /** For every size that fits, dumplen is the smallest multiple of 16 at or above it. */
  lemma DumpLengthPadsToLines(size: nat)
    requires size <= 0xFFFF_FFF0
    ensures DumpLength(size) % 16 == 0
    ensures size <= DumpLength(size) < size + 16
  {
  }

  /** Past 0xFFFF_FFF0 the padded length no longer fits: a region of 0xFFFF_FFFF bytes dumps no line at all. */
  lemma DumpLengthWraps()
    ensures DumpLength(0xFFFF_FFFF) == 0
    ensures DumpLength(0xFFFF_FFF1) == 0
  {
    assert 0xFFFF_FFFF % 16 == 15 && 0xFFFF_FFF1 % 16 == 1;
  }

  /** Column in `hexdump` of the byte at position `p` of a line: 3 characters a byte, 3 more after each word. */
  function HexIndex(p: nat): (i: nat)
    ensures 3 * p <= i <= 4 * p
  {
    3 * (p + p / 4)
  }

  /** Column in `ascdump` of the byte at position `p` of a line: 1 character a byte, 1 more after 8 bytes. */
  function AsciiIndex(p: nat): (i: nat)
    ensures p <= i && (p < 16 ==> i <= p + 1)
  {
    p + p / 8
  }

  /**
   * Every store dumpmemory makes stays inside its buffer: the 4 characters
   * written for a byte, the 4 written for a word spacer after positions 3, 7
   * and 11, the byte's character and the spacer after position 7.
   */
  lemma StoresInBounds(p: nat)
    requires p < 16
    ensures HexIndex(p) + 4 <= HexDumpSize
    ensures (p + 1) % 4 == 0 && p != 15 ==> HexIndex(p) + 3 + 4 <= HexDumpSize
    ensures AsciiIndex(p) + 1 < AsciiDumpSize
  {
  }

  function HexDigit(v: nat): (c: char)
    requires v < 16
    ensures c != Nul
  {
    if v < 10 then ('0' as int + v) as char else ('A' as int + v - 10) as char
  }

  /** The value of an upper-case hex digit. */
  function HexDigitValue(c: char): nat {
    if '0' <= c <= '9' then c as int - '0' as int
    else if 'A' <= c <= 'F' then c as int - 'A' as int + 10
    else 0
  }

  /** `%.2X`: two upper-case hex digits. */
  function Hex2(b: Byte): (s: string)
    ensures |s| == 2 && NoNul(s)
  {
    [HexDigit(b as int / 16), HexDigit(b as int % 16)]
  }

  /** The two digits printed for a byte give the byte back. */
  lemma Hex2RoundTrip(b: Byte)
    ensures HexDigitValue(Hex2(b)[0]) * 16 + HexDigitValue(Hex2(b)[1]) == b as int
  {
  }

  /** `isprint` in the "C" locale. */
  predicate IsPrint(b: Byte) {
    0x20 <= b <= 0x7E
  }

  /** The character shown for a byte: itself when printable and not a space, otherwise '.'. */
  function Shown(b: Byte): (c: char)
    ensures c != Nul && ' ' < c <= '~'
    ensures c == (b as int) as char <==> IsPrint(b) && b != 0x20
    ensures c != (b as int) as char ==> c == '.'
  {
    if IsPrint(b) && b != 0x20 then (b as int) as char else '.'
  }

  /** The hex column text for the byte at `index`: its digits and a space, or three spaces past the end. */
  function HexCell(data: seq<Byte>, index: nat): (cell: string)
    ensures |cell| == 3 && NoNul(cell)
  {
    if index < |data| then Hex2(data[index]) + " " else "   "
  }

  /** The character column for the byte at `index`, '.' past the end. */
  function AsciiCell(data: seq<Byte>, index: nat): (c: char)
    ensures c != Nul
  {
    if index < |data| then Shown(data[index]) else '.'
  }

  /**
   * The hex column of the line starting at `base`, after its first `p` bytes:
   * what `hexdump` holds before its terminator at that point of the loop.
   */
  function HexField(data: seq<Byte>, base: nat, p: nat): string
    requires p <= 16
  {
    if p == 0 then []
    else HexField(data, base, p - 1) + HexCell(data, base + p - 1) + (if p % 4 == 0 && p < 16 then "   " else [])
  }

  /**
   * The character column of the line starting at `base`, after its first `p`
   * bytes: what `ascdump` holds before its terminator at that point of the loop.
   */
  function AsciiField(data: seq<Byte>, base: nat, p: nat): string
    requires p <= 16
  {
    if p == 0 then []
    else AsciiField(data, base, p - 1) + [AsciiCell(data, base + p - 1)] + (if p == 8 then " " else [])
  }

  /** Each byte adds 3 hex columns, and 3 more after a word that does not end the line. */
  lemma HexIndexStep(p: nat)
    requires p < 16
    ensures (if p + 1 < 16 then HexIndex(p + 1) else 57) == HexIndex(p) + 3 + (if (p + 1) % 4 == 0 && p + 1 < 16 then 3 else 0)
  {
    var w := p / 4;
    assert p == 4 * w + p % 4;
    if p % 4 == 3 {
      assert (p + 1) / 4 == w + 1;
    } else {
      assert (p + 1) / 4 == w;
    }
  }

  /** The hex column of the first `p` bytes of a line ends where the next byte's cells go; a full line fills 57 characters. */
  lemma {:induction false} HexFieldLength(data: seq<Byte>, base: nat, p: nat)
    requires p <= 16
    ensures |HexField(data, base, p)| == if p < 16 then HexIndex(p) else 57
  {
    if p > 0 {
      HexFieldLength(data, base, p - 1);
      HexIndexStep(p - 1);
    }
  }

  /** The character column of the first `p` bytes of a line ends where the next byte's character goes; a full line fills 17. */
  lemma {:induction false} AsciiFieldLength(data: seq<Byte>, base: nat, p: nat)
    requires p <= 16
    ensures |AsciiField(data, base, p)| == if p < 16 then AsciiIndex(p) else 17
  {
    if p > 0 {
      AsciiFieldLength(data, base, p - 1);
      assert (p - 1) / 8 == if p <= 8 then 0 else 1;
      assert p < 16 ==> p / 8 == if p < 8 then 0 else 1;
    }
  }

  /** The printed line for the 16 bytes starting at `base`: it opens with four spaces. */
  function Line(data: seq<Byte>, base: nat): (line: string)
    ensures "    " <= line
  {
    "    " + HexField(data, base, 16) + "    " + AsciiField(data, base, 16) + "\n"
  }

  /** The first `count` lines of the dump of `data`. */
  function Lines(data: seq<Byte>, count: nat): (r: seq<string>)
    ensures |r| == count
  {
    if count == 0 then [] else Lines(data, count - 1) + [Line(data, 16 * (count - 1))]
  }

  /** Line `n` of the dump shows the 16 bytes starting at `16 * n`. */
  lemma {:induction false} LinesAt(data: seq<Byte>, count: nat, n: nat)
    requires n < count
    ensures Lines(data, count)[n] == Line(data, 16 * n)
  {
    if n < count - 1 {
      LinesAt(data, count - 1, n);
    }
  }

  /** Every line of the dump shows the 16 bytes at its own offset. */
  lemma EveryLine(data: seq<Byte>, count: nat)
    ensures forall n :: 0 <= n < count ==> Lines(data, count)[n] == Line(data, 16 * n)
  {
    forall n | 0 <= n < count
      ensures Lines(data, count)[n] == Line(data, 16 * n)
    {
      LinesAt(data, count, n);
    }
  }

  lemma HexFieldNoNul(data: seq<Byte>, base: nat, p: nat)
    requires p <= 16
    ensures NoNul(HexField(data, base, p))
  {
  }

  lemma AsciiFieldNoNul(data: seq<Byte>, base: nat, p: nat)
    requires p <= 16
    ensures NoNul(AsciiField(data, base, p))
  {
  }

  lemma ConcatLeft(a: string, b: string, c: string, j: nat)
    requires j < |a|
    ensures (a + b + c)[j] == a[j]
  {
  }

  lemma ConcatMiddle(a: string, b: string, c: string, j: nat)
    requires j < |b|
    ensures (a + b + c)[|a| + j] == b[j]
  {
  }

  /** Adding a byte to the hex column keeps what was there. */
  lemma HexFieldKeeps(data: seq<Byte>, base: nat, p: nat, i: nat)
    requires p < 16 && i < |HexField(data, base, p)|
    ensures HexField(data, base, p + 1)[i] == HexField(data, base, p)[i]
  {
    var spacer: string := if (p + 1) % 4 == 0 && p + 1 < 16 then "   " else [];
    ConcatLeft(HexField(data, base, p), HexCell(data, base + p), spacer, i);
  }

  /** The byte at position `p` goes to columns HexIndex(p) to HexIndex(p) + 2, a spacer after it when a word ends. */
  lemma HexFieldAdds(data: seq<Byte>, base: nat, p: nat, j: nat)
    requires p < 16 && j < 3
    ensures HexIndex(p) + j < |HexField(data, base, p + 1)|
    ensures HexField(data, base, p + 1)[HexIndex(p) + j] == HexCell(data, base + p)[j]
    ensures (p + 1) % 4 == 0 && p + 1 < 16 ==>
      HexIndex(p) + 3 + j < |HexField(data, base, p + 1)| && HexField(data, base, p + 1)[HexIndex(p) + 3 + j] == ' '
  {
    HexFieldLength(data, base, p);
    var prev, cell := HexField(data, base, p), HexCell(data, base + p);
    var spacer: string := if (p + 1) % 4 == 0 && p + 1 < 16 then "   " else [];
    ConcatMiddle(prev, cell, spacer, j);
    if (p + 1) % 4 == 0 && p + 1 < 16 {
      ConcatMiddle(prev + cell, spacer, [], j);
      assert prev + cell + spacer == prev + cell + spacer + [];
    }
  }

  lemma AsciiFieldKeeps(data: seq<Byte>, base: nat, p: nat, i: nat)
    requires p < 16 && i < |AsciiField(data, base, p)|
    ensures AsciiField(data, base, p + 1)[i] == AsciiField(data, base, p)[i]
  {
    var spacer: string := if p + 1 == 8 then " " else [];
    ConcatLeft(AsciiField(data, base, p), [AsciiCell(data, base + p)], spacer, i);
  }

  /** The byte at position `p` goes to column AsciiIndex(p), a spacer after it when the first half ends. */
  lemma AsciiFieldAdds(data: seq<Byte>, base: nat, p: nat)
    requires p < 16
    ensures AsciiIndex(p) < |AsciiField(data, base, p + 1)|
    ensures AsciiField(data, base, p + 1)[AsciiIndex(p)] == AsciiCell(data, base + p)
    ensures p + 1 == 8 ==>
      AsciiIndex(p) + 1 < |AsciiField(data, base, p + 1)| && AsciiField(data, base, p + 1)[AsciiIndex(p) + 1] == ' '
  {
    AsciiFieldLength(data, base, p);
    var prev := AsciiField(data, base, p);
    var spacer: string := if p + 1 == 8 then " " else [];
    ConcatMiddle(prev, [AsciiCell(data, base + p)], spacer, 0);
  }

  /** The byte at position `p` of a line shows its hex digits at HexIndex(p) of the finished column. */
  lemma {:induction false} HexFieldAt(data: seq<Byte>, base: nat, p: nat, q: nat, j: nat)
    requires p < q <= 16 && j < 3
    ensures HexIndex(p) + j < |HexField(data, base, q)|
    ensures HexField(data, base, q)[HexIndex(p) + j] == HexCell(data, base + p)[j]
    decreases q
  {
    if p < q - 1 {
      HexFieldAt(data, base, p, q - 1, j);
      HexFieldKeeps(data, base, q - 1, HexIndex(p) + j);
    } else {
      HexFieldAdds(data, base, p, j);
    }
  }

  /** The byte at position `p` of a line shows its character at AsciiIndex(p) of the finished column. */
  lemma {:induction false} AsciiFieldAt(data: seq<Byte>, base: nat, p: nat, q: nat)
    requires p < q <= 16
    ensures AsciiIndex(p) < |AsciiField(data, base, q)|
    ensures AsciiField(data, base, q)[AsciiIndex(p)] == AsciiCell(data, base + p)
    decreases q
  {
    if p < q - 1 {
      AsciiFieldAt(data, base, p, q - 1);
      AsciiFieldKeeps(data, base, q - 1, AsciiIndex(p));
    } else {
      AsciiFieldAdds(data, base, p);
    }
  }

  /** A printed line is 83 characters: four spaces, the 57 hex columns, four spaces, the 17 character columns and a newline. */
  lemma LineLength(data: seq<Byte>, base: nat)
    ensures |Line(data, base)| == 83
  {
    HexFieldLength(data, base, 16);
    AsciiFieldLength(data, base, 16);
  }

  /** The byte at position `p` of a line shows hex digit (or space) `j` at column 4 + HexIndex(p). */
  lemma LineHexColumn(data: seq<Byte>, base: nat, p: nat, j: nat)
    requires p < 16 && j < 3
    ensures 4 + HexIndex(p) + j < |Line(data, base)|
    ensures Line(data, base)[4 + HexIndex(p) + j] == HexCell(data, base + p)[j]
  {
    var hex, rest := HexField(data, base, 16), "    " + AsciiField(data, base, 16) + "\n";
    var i := HexIndex(p) + j;
    HexFieldAt(data, base, p, 16, j);
    assert Line(data, base) == "    " + hex + rest;
    ConcatMiddle("    ", hex, rest, i);
  }

  /** The byte at position `p` of a line shows its character at column 65 + AsciiIndex(p). */
  lemma LineCharColumn(data: seq<Byte>, base: nat, p: nat)
    requires p < 16
    ensures 65 + AsciiIndex(p) < |Line(data, base)|
    ensures Line(data, base)[65 + AsciiIndex(p)] == AsciiCell(data, base + p)
  {
    var front, asc := "    " + HexField(data, base, 16) + "    ", AsciiField(data, base, 16);
    HexFieldLength(data, base, 16);
    AsciiFieldAt(data, base, p, 16);
    assert |front| == 65;
    assert Line(data, base) == front + asc + "\n";
    ConcatMiddle(front, asc, "\n", AsciiIndex(p));
  }

  /** `report("    %s    %s\n", hexdump, ascdump)`, as one line of output. */
  function Report(hexdump: seq<char>, ascdump: seq<char>): (line: string)
    ensures |line| == |CString(hexdump)| + |CString(ascdump)| + 9
    ensures line[..4] == "    " && line[|line| - 1] == '\n'
  {
    "    " + CString(hexdump) + "    " + CString(ascdump) + "\n"
  }

  /** `strncpy(dst + at, src, count)` for a `src` without NUL: copy it and pad with NULs to `count`. */
  method StrNCpy(dst: array<char>, at: nat, src: string, count: nat)
    requires at + count <= dst.Length && NoNul(src)
    modifies dst
    ensures forall i :: 0 <= i < dst.Length ==>
      dst[i] == if at <= i < at + count then (if i - at < |src| then src[i - at] else Nul) else old(dst[i])
  {
    var j := 0;
    while j < count
      invariant 0 <= j <= count
      invariant forall i :: 0 <= i < dst.Length ==>
        dst[i] == if at <= i < at + j then (if i - at < |src| then src[i - at] else Nul) else old(dst[i])
    {
      dst[at + j] := if j < |src| then src[j] else Nul;
      j := j + 1;
    }
  }

  /** The first characters of `buf` are `text`. */
  predicate Holds(buf: seq<char>, text: string) {
    |text| <= |buf| && buf[..|text|] == text
  }

  /** Writing `ext` right after a prefix `field` of a buffer, and nothing before it, extends the prefix. */
  lemma Extended(before: seq<char>, after: seq<char>, field: string, ext: string)
    requires Holds(before, field) && |after| == |before| && |field| + |ext| <= |after|
    requires forall i :: 0 <= i < |field| ==> after[i] == before[i]
    requires forall j :: 0 <= j < |ext| ==> after[|field| + j] == ext[j]
    ensures Holds(after, field + ext)
  {
    assert forall i :: 0 <= i < |field| ==> after[i] == field[i];
    assert (field + ext) == after[..|field| + |ext|];
  }

  /** Euclidean division by 16, 8 and 4 from a known quotient and remainder. */
  lemma Mod16(n: int, q: int, r: int)
    requires n == 16 * q + r && 0 <= r < 16
    ensures n % 16 == r
  {
  }

  lemma Mod8(n: int, q: int, r: int)
    requires n == 8 * q + r && 0 <= r < 8
    ensures n % 8 == r
  {
  }

  lemma Mod4(n: int, q: int, r: int)
    requires n == 4 * q + r && 0 <= r < 4
    ensures n % 4 == r
  {
  }

  /** Residues of `16 * k + m` for a position `m` at most 16. */
  lemma ModOfLine(n: nat, k: nat, m: nat)
    requires m <= 16 && n == 16 * k + m
    ensures n % 16 == m % 16 && n % 8 == m % 8 && n % 4 == m % 4
  {
    Mod16(m, m / 16, m % 16);
    Mod16(n, k + m / 16, m % 16);
    Mod8(n, 2 * k + m / 8, m % 8);
    Mod4(n, 4 * k + m / 4, m % 4);
  }

  /** The byte at `16 * k + p` is at position `p` of its line, and it is the last of the line exactly when `p` is 15. */
  lemma Position(byte: nat, k: nat, p: nat)
    requires p < 16 && byte == 16 * k + p
    ensures byte % 16 == p
    ensures (byte + 1) % 16 == 0 <==> p == 15
  {
    ModOfLine(byte, k, p);
    ModOfLine(byte + 1, k, p + 1);
  }

  /** The cell of the last byte of a line ends right before the last column of `hexdump`. */
  lemma LastColumn(p: nat)
    requires p == 15
    ensures 3 * (p + p / 4) + 3 == HexDumpSize - 1
  {
  }

  /** A count of bytes that is a multiple of 16 ends exactly at the end of a line. */
  lemma WholeLines(n: nat, k: nat, p: nat)
    requires n == 16 * k + p && p < 16 && n % 16 == 0
    ensures p == 0 && k == n / 16
  {
    ModOfLine(n, k, p);
  }

  /**
   * A line whose last byte has been written after the first 15 bytes' columns,
   * with both buffers NUL-terminated there, reports as the next Line.
   */
  lemma LineReported(data: seq<Byte>, k: nat, byte: nat, hexdump: seq<char>, ascdump: seq<char>, hexText: string, ascText: string)
    requires byte == 16 * k + 15
    requires hexText == HexField(data, 16 * k, 15) && Holds(hexdump, hexText + HexCell(data, byte))
    requires ascText == AsciiField(data, 16 * k, 15) && Holds(ascdump, ascText + [AsciiCell(data, byte)])
    requires |hexdump| == HexDumpSize && hexdump[HexDumpSize - 1] == Nul
    requires |ascdump| == AsciiDumpSize && ascdump[AsciiDumpSize - 1] == Nul
    ensures Report(hexdump, ascdump) == Line(data, 16 * k)
  {
    var base := 16 * k;
    assert HexField(data, base, 16) == HexField(data, base, 15) + HexCell(data, base + 15) + [];
    assert AsciiField(data, base, 16) == AsciiField(data, base, 15) + [AsciiCell(data, base + 15)] + [];
    HexFieldLength(data, base, 15);
    AsciiFieldLength(data, base, 15);
    assert hexdump[..57] == HexField(data, base, 16);
    assert ascdump[..17] == AsciiField(data, base, 16);
    HexFieldNoNul(data, base, 16);
    AsciiFieldNoNul(data, base, 16);
    CStringOfTerminated(hexdump, 57);
    CStringOfTerminated(ascdump, 17);
  }

  /** One more byte of a line: its cell, then a spacer where a word or the first half ends. */
  lemma FieldsGrow(data: seq<Byte>, k: nat, p: nat, byte: nat)
    requires p < 15 && byte == 16 * k + p
    ensures HexField(data, 16 * k, p + 1) == HexField(data, 16 * k, p) + HexCell(data, byte) + (if (p + 1) % 4 == 0 then "   " else [])
    ensures AsciiField(data, 16 * k, p + 1) == AsciiField(data, 16 * k, p) + [AsciiCell(data, byte)] + (if p + 1 == 8 then " " else [])
  {
  }

  /**
   * The body of dumpmemory's loop up to the report: the byte at `byte` (or
   * padding past the end of the data) is written after the columns so far.
   */
  method PutByte(hexdump: array<char>, ascdump: array<char>, data: seq<Byte>, byte: nat,
                 ghost p: nat, ghost hexField: string, ghost ascField: string)
    requires hexdump.Length == HexDumpSize && ascdump.Length == AsciiDumpSize && p == byte % 16
    requires |hexField| == 3 * (p + p / 4) && Holds(hexdump[..], hexField)
    requires |ascField| == (p + p / 8) && Holds(ascdump[..], ascField)
    modifies hexdump, ascdump
    ensures Holds(hexdump[..], hexField + HexCell(data, byte))
    ensures |hexField| + 3 < hexdump.Length && hexdump[|hexField| + 3] == Nul
    ensures Holds(ascdump[..], ascField + [AsciiCell(data, byte)])
    ensures ascdump[AsciiDumpSize - 1] == old(ascdump[AsciiDumpSize - 1])
  {
    ghost var hexBefore, ascBefore := hexdump[..], ascdump[..];
    var hexindex := 3 * ((byte % 16) + (byte % 16) / 4);
    var ascindex := (byte % 16) + (byte % 16) / 8;
    StoresInBounds(byte % 16);
    if byte < |data| {
      var datum := data[byte];
      var formatbuf := Hex2(datum) + " ";
      StrNCpy(hexdump, hexindex, formatbuf, 4);
      if IsPrint(datum) && datum != 0x20 {
        ascdump[ascindex] := (datum as int) as char;
      } else {
        ascdump[ascindex] := '.';
      }
    } else {
      StrNCpy(hexdump, hexindex, "   ", 4);
      ascdump[ascindex] := '.';
    }
    Extended(hexBefore, hexdump[..], hexField, HexCell(data, byte));
    Extended(ascBefore, ascdump[..], ascField, [AsciiCell(data, byte)]);
  }

  /** dumpmemory's spacer in the character column after the eighth byte of a line. */
  method PutHalfSpacer(ascdump: array<char>, byte: nat, bytesdone: nat, ghost k: nat, ghost p: nat, ghost ascField: string)
    requires ascdump.Length == AsciiDumpSize
    requires bytesdone == byte + 1 && byte == 16 * k + p && p == byte % 16 && p < 15
    requires |ascField| == (p + p / 8) + 1 && Holds(ascdump[..], ascField)
    modifies ascdump
    ensures Holds(ascdump[..], ascField + (if p + 1 == 8 then " " else []))
    ensures ascdump[AsciiDumpSize - 1] == old(ascdump[AsciiDumpSize - 1])
  {
    var ascindex := (byte % 16) + (byte % 16) / 8;
    StoresInBounds(byte % 16);
    ModOfLine(bytesdone, k, p + 1);
    if bytesdone % 8 == 0 {
      ghost var ascBefore := ascdump[..];
      ascdump[ascindex + 1] := ' ';
      Extended(ascBefore, ascdump[..], ascField, " ");
    } else {
      assert ascField + [] == ascField;
    }
  }

  /** dumpmemory's spacer in the hex column after each 4-byte word but the last. */
  method PutWordSpacer(hexdump: array<char>, byte: nat, bytesdone: nat, ghost k: nat, ghost p: nat, ghost hexField: string)
    requires hexdump.Length == HexDumpSize
    requires bytesdone == byte + 1 && byte == 16 * k + p && p == byte % 16 && p < 15
    requires |hexField| == 3 * (p + p / 4) + 3 && Holds(hexdump[..], hexField)
    modifies hexdump
    ensures Holds(hexdump[..], hexField + (if (p + 1) % 4 == 0 then "   " else []))
  {
    var hexindex := 3 * ((byte % 16) + (byte % 16) / 4);
    StoresInBounds(byte % 16);
    ModOfLine(bytesdone, k, p + 1);
    if bytesdone % 4 == 0 {
      ghost var hexBefore := hexdump[..];
      StrNCpy(hexdump, hexindex + 3, "   ", 4);
      Extended(hexBefore, hexdump[..], hexField, "   ");
    } else {
      assert hexField + [] == hexField;
    }
  }

  /** The buffers hold the columns of the first `p` bytes of line `k`. */
  ghost predicate Filled(hexdump: seq<char>, ascdump: seq<char>, data: seq<Byte>, k: nat, p: nat)
    requires p < 16
  {
    Holds(hexdump, HexField(data, 16 * k, p)) && Holds(ascdump, AsciiField(data, 16 * k, p))
  }

  /** The report dumpmemory makes when the last byte of a line is in the buffers. */
  method ReportLine(hexdump: array<char>, ascdump: array<char>, data: seq<Byte>, byte: nat,
                    ghost k: nat, ghost hexText: string, ghost ascText: string)
    returns (line: string)
    requires byte == 16 * k + 15
    requires hexText == HexField(data, 16 * k, 15) && Holds(hexdump[..], hexText + HexCell(data, byte))
    requires ascText == AsciiField(data, 16 * k, 15) && Holds(ascdump[..], ascText + [AsciiCell(data, byte)])
    requires hexdump.Length == HexDumpSize && hexdump[HexDumpSize - 1] == Nul
    requires ascdump.Length == AsciiDumpSize && ascdump[AsciiDumpSize - 1] == Nul
    ensures line == Line(data, 16 * k)
  {
    LineReported(data, k, byte, hexdump[..], ascdump[..], hexText, ascText);
    line := Report(hexdump[..], ascdump[..]);
  }

  lemma AppendEmpty<T>(s: seq<T>)
    ensures s + [] == s
  {
  }

  /** After a line is reported the next line starts, with nothing of it in the buffers yet. */
  lemma NextLine(hexdump: seq<char>, ascdump: seq<char>, data: seq<Byte>, k: nat)
    ensures Lines(data, k) + [Line(data, 16 * k)] == Lines(data, k + 1)
    ensures Filled(hexdump, ascdump, data, k + 1, 0)
  {
    assert hexdump[..0] == [] && ascdump[..0] == [];
  }

  /** The cell and spacers of the byte at position `p` complete the columns of the first `p + 1` bytes. */
  lemma FilledNext(hexdump: seq<char>, ascdump: seq<char>, data: seq<Byte>, k: nat, p: nat, byte: nat)
    requires p < 15 && byte == 16 * k + p
    requires Holds(hexdump, HexField(data, 16 * k, p) + HexCell(data, byte) + (if (p + 1) % 4 == 0 then "   " else []))
    requires Holds(ascdump, AsciiField(data, 16 * k, p) + [AsciiCell(data, byte)] + (if p + 1 == 8 then " " else []))
    ensures Filled(hexdump, ascdump, data, k, p + 1)
  {
    FieldsGrow(data, k, p, byte);
  }

  /** The spacers after the byte at `byte`, position `p` of line `k`, when it does not end the line. */
  method ContinueLine(hexdump: array<char>, ascdump: array<char>, data: seq<Byte>, byte: nat, bytesdone: nat,
                      ghost k: nat, ghost p: nat, ghost hexText: string, ghost ascText: string)
    requires hexdump.Length == HexDumpSize && ascdump.Length == AsciiDumpSize
    requires byte == 16 * k + p && bytesdone == byte + 1 && p == byte % 16 && p < 15
    requires hexText == HexField(data, 16 * k, p) && |hexText| == 3 * (p + p / 4)
    requires ascText == AsciiField(data, 16 * k, p) && |ascText| == p + p / 8
    requires Holds(hexdump[..], hexText + HexCell(data, byte))
    requires Holds(ascdump[..], ascText + [AsciiCell(data, byte)])
    modifies hexdump, ascdump
    ensures ascdump[AsciiDumpSize - 1] == old(ascdump[AsciiDumpSize - 1])
    ensures Filled(hexdump[..], ascdump[..], data, k, p + 1)
  {
    PutHalfSpacer(ascdump, byte, bytesdone, k, p, ascText + [AsciiCell(data, byte)]);
    PutWordSpacer(hexdump, byte, bytesdone, k, p, hexText + HexCell(data, byte));
    FilledNext(hexdump[..], ascdump[..], data, k, p, byte);
  }

  /**
   * The rest of dumpmemory's loop body once the byte at `byte`, position `p`
   * of line `k`, is in the buffers and `bytesdone` counts it: report the line
   * when it is full, otherwise add the spacers that follow the byte. The
   * buffers then hold position `p'` of line `k'`.
   */
  method FinishByte(hexdump: array<char>, ascdump: array<char>, data: seq<Byte>, byte: nat, bytesdone: nat,
                    ghost k: nat, ghost p: nat, ghost hexText: string, ghost ascText: string)
    returns (reported: seq<string>, ghost k': nat, ghost p': nat)
    requires hexdump.Length == HexDumpSize && ascdump.Length == AsciiDumpSize
    requires byte == 16 * k + p && bytesdone == byte + 1 && p == byte % 16 && p < 16
    requires (bytesdone % 16 == 0 <==> p == 15)
    requires hexText == HexField(data, 16 * k, p) && |hexText| == 3 * (p + p / 4)
    requires ascText == AsciiField(data, 16 * k, p) && |ascText| == p + p / 8
    requires Holds(hexdump[..], hexText + HexCell(data, byte)) && hexdump[|hexText| + 3] == Nul
    requires Holds(ascdump[..], ascText + [AsciiCell(data, byte)]) && ascdump[AsciiDumpSize - 1] == Nul
    modifies hexdump, ascdump
    ensures ascdump[AsciiDumpSize - 1] == Nul
    ensures bytesdone == 16 * k' + p' && p' < 16
    ensures Lines(data, k) + reported == Lines(data, k')
    ensures Filled(hexdump[..], ascdump[..], data, k', p')
  {
    if bytesdone % 16 == 0 {
      LastColumn(p);
      var line := ReportLine(hexdump, ascdump, data, byte, k, hexText, ascText);
      reported := [line];
      k', p' := k + 1, 0;
      NextLine(hexdump[..], ascdump[..], data, k);
    } else {
      reported := [];
      k', p' := k, p + 1;
      ContinueLine(hexdump, ascdump, data, byte, bytesdone, k, p, hexText, ascText);
      AppendEmpty(Lines(data, k));
    }
  }

  /**
   * One pass of dumpmemory's loop for the byte at `byte`, position `p` of
   * line `k`: write its columns, count it, and finish it. The buffers then
   * hold position `p'` of line `k'`.
   */
  method DumpByte(hexdump: array<char>, ascdump: array<char>, data: seq<Byte>, byte: nat, bytesdone: nat,
                  ghost k: nat, ghost p: nat)
    returns (done: nat, reported: seq<string>, ghost k': nat, ghost p': nat)
    requires hexdump.Length == HexDumpSize && ascdump.Length == AsciiDumpSize
    requires bytesdone == byte == 16 * k + p && p < 16
    requires Filled(hexdump[..], ascdump[..], data, k, p) && ascdump[AsciiDumpSize - 1] == Nul
    modifies hexdump, ascdump
    ensures done == bytesdone + 1 && ascdump[AsciiDumpSize - 1] == Nul
    ensures done == 16 * k' + p' && p' < 16
    ensures Lines(data, k) + reported == Lines(data, k')
    ensures Filled(hexdump[..], ascdump[..], data, k', p')
  {
    ghost var hexText, ascText := HexField(data, 16 * k, p), AsciiField(data, 16 * k, p);
    assert |hexText| == 3 * (p + p / 4) && |ascText| == p + p / 8 by {
      HexFieldLength(data, 16 * k, p);
      AsciiFieldLength(data, 16 * k, p);
    }
    Position(byte, k, p);
    PutByte(hexdump, ascdump, data, byte, p, hexText, ascText);
    done := bytesdone + 1;
    reported, k', p' := FinishByte(hexdump, ascdump, data, byte, done, k, p, hexText, ascText);
  }

  /**
   * dumpmemory on the `size` bytes of `data`: one reported line per 16 bytes
   * of the padded length, each the Line for those bytes.
   */
  method DumpMemory(data: seq<Byte>) returns (lines: seq<string>)
    ensures |lines| == DumpLength(|data|) / 16
    ensures forall n :: 0 <= n < |lines| ==> lines[n] == Line(data, 16 * n)
  {
    var ascdump := new char[AsciiDumpSize](_ => Nul);
    var hexdump := new char[HexDumpSize](_ => Nul);
    var size := |data|;
    var dumplen: nat;
    if size % 16 == 0 {
      dumplen := size;
    } else {
      dumplen := size + (16 - size % 16);
    }
    dumplen := dumplen % 0x1_0000_0000;
    lines := [];
    var bytesdone := 0;
    var byte := 0;
    ghost var k, p := 0, 0;
    while byte < dumplen
      invariant byte <= dumplen == DumpLength(size)
      invariant bytesdone == byte == 16 * k + p && p < 16
      invariant lines == Lines(data, k)
      invariant Filled(hexdump[..], ascdump[..], data, k, p)
      invariant ascdump[AsciiDumpSize - 1] == Nul
    {
      var reported;
      bytesdone, reported, k, p := DumpByte(hexdump, ascdump, data, byte, bytesdone, k, p);
      lines := lines + reported;
      byte := byte + 1;
    }
    WholeLines(byte, k, p);
    EveryLine(data, k);
  }
}
