/**
 * The layout of the hex dump: how the bytes are split into lines of sixteen,
 * what each line holds at which column, how the ASCII field renders a byte,
 * and which buffer positions the formatter stores to.
 */
module HexDump {
  import opened CFormat

  /** HEX_DUMP_LINE_LENGTH as the source declares it; too short for some chunks (see HexDump.OverrunWitness). */
  const SOURCE_LINE_LENGTH := 80

  /** The line buffer of the model: the 82 characters a chunk of sixteen '%' bytes needs. */
  const HEX_DUMP_LINE_LENGTH := 82

  /** Column of the '|' between the hex columns and the ASCII field. */
  const HEX_DUMP_ASCII_SEPARATOR := 48

  /** Column where the ASCII field starts. */
  const HEX_DUMP_ASCII_OFFSET := 49

  const BYTES_PER_LINE := 16

  const PERCENT: bv8 := 0x25

  /** isprint in the C locale. */
  predicate IsPrint(b: bv8) {
    0x20 <= b <= 0x7E
  }

  /** What the ASCII field holds for one byte: '%' twice, a printable byte itself, anything else '.'. */
  function AsciiCell(b: bv8): (s: string)
    ensures |s| == if b == PERCENT then 2 else 1
    ensures NUL !in s
  {
    if b == PERCENT then "%%" else if IsPrint(b) then [(b as int) as char] else "."
  }

  /** The number of '%' bytes in a chunk. */
  function Percents(chunk: seq<bv8>): (p: nat)
    ensures p <= |chunk|
  {
    if chunk == [] then 0 else (if chunk[0] == PERCENT then 1 else 0) + Percents(chunk[1..])
  }

  function AsciiField(chunk: seq<bv8>): (s: string)
    ensures |s| == |chunk| + Percents(chunk)
    ensures NUL !in s
  {
    if chunk == [] then "" else AsciiCell(chunk[0]) + AsciiField(chunk[1..])
  }

  /** The hex columns: "%02X " for each byte of the chunk. */
  function HexColumns(chunk: seq<bv8>): (s: string)
    ensures |s| == 3 * |chunk|
    ensures NUL !in s
  {
    if chunk == [] then ""
    else
      var hex := Hex2(chunk[0]);
      assert IsDigit(hex[0], 16) && IsDigit(hex[1], 16);
      hex + " " + HexColumns(chunk[1..])
  }

  function Spaces(n: nat): (s: string)
    ensures |s| == n && forall i | 0 <= i < n :: s[i] == ' '
  {
    seq(n, _ => ' ')
  }

  /** The text of the dump line for one chunk, as it is handed on to LogPrintf. */
  function HexDumpLine(chunk: seq<bv8>): (line: string)
    requires |chunk| <= BYTES_PER_LINE
    ensures |line| == HEX_DUMP_ASCII_OFFSET + |chunk| + Percents(chunk)
    ensures NUL !in line
  {
    HexColumns(chunk) + Spaces(HEX_DUMP_ASCII_SEPARATOR - 3 * |chunk|) + "|" + AsciiField(chunk)
  }

  lemma {:induction false} HexColumnsAt(chunk: seq<bv8>, i: nat)
    requires i < |chunk|
    ensures HexColumns(chunk)[3 * i..3 * i + 3] == Hex2(chunk[i]) + " "
  {
    if i > 0 {
      HexColumnsAt(chunk[1..], i - 1);
      var head := Hex2(chunk[0]) + " ";
      assert HexColumns(chunk) == head + HexColumns(chunk[1..]);
      assert HexColumns(chunk)[3 * i..3 * i + 3] == HexColumns(chunk[1..])[3 * (i - 1)..3 * (i - 1) + 3];
    }
  }

  /**
   * The four parts of a concatenation hex + pad + "|" + ascii, read back by
   * position. It is stated over arbitrary strings so that the solver does not
   * unfold the line's parts while it cuts the line; HexDumpLineParts applies
   * it to a dump line.
   */
  lemma LineSplit(hex: string, pad: string, ascii: string)
    ensures var line, h, s := hex + pad + "|" + ascii, |hex|, |hex| + |pad|;
      && line[..h] == hex && line[h..s] == pad && line[s] == '|' && line[s + 1..] == ascii
  {
  }

  /**
   * How a dump line is put together, part by part: the hex columns, the
   * padding, the '|' and the ASCII field. HexDumpLineLayout refines this
   * to single columns.
   */
  lemma HexDumpLineParts(chunk: seq<bv8>)
    requires |chunk| <= BYTES_PER_LINE
    ensures var line, k := HexDumpLine(chunk), |chunk|;
      && line[..3 * k] == HexColumns(chunk)
      && line[3 * k..HEX_DUMP_ASCII_SEPARATOR] == Spaces(HEX_DUMP_ASCII_SEPARATOR - 3 * k)
      && line[HEX_DUMP_ASCII_SEPARATOR] == '|'
      && line[HEX_DUMP_ASCII_OFFSET..] == AsciiField(chunk)
  {
    LineSplit(HexColumns(chunk), Spaces(HEX_DUMP_ASCII_SEPARATOR - 3 * |chunk|), AsciiField(chunk));
  }

  /**
   * The column layout of a dump line for a chunk of k bytes: byte i in
   * columns 3i and 3i+1 with a space after it, spaces up to column 47, the
   * '|' in column 48, and the ASCII field from column 49 to the end.
   */
  lemma HexDumpLineLayout(chunk: seq<bv8>)
    requires |chunk| <= BYTES_PER_LINE
    ensures var line, k := HexDumpLine(chunk), |chunk|;
      && (forall i | 0 <= i < k :: line[3 * i..3 * i + 3] == Hex2(chunk[i]) + " ")
      && (forall p | 3 * k <= p < HEX_DUMP_ASCII_SEPARATOR :: line[p] == ' ')
      && line[HEX_DUMP_ASCII_SEPARATOR] == '|'
      && line[HEX_DUMP_ASCII_OFFSET..] == AsciiField(chunk)
  {
    var line, k := HexDumpLine(chunk), |chunk|;
    HexDumpLineParts(chunk);
    forall i | 0 <= i < k
      ensures line[3 * i..3 * i + 3] == Hex2(chunk[i]) + " "
    {
      HexColumnsAt(chunk, i);
      SliceOfPrefix(line, HexColumns(chunk), 3 * i, 3 * i + 3);
    }
    forall p | 3 * k <= p < HEX_DUMP_ASCII_SEPARATOR
      ensures line[p] == ' '
    {
      IndexOfSlice(line, Spaces(HEX_DUMP_ASCII_SEPARATOR - 3 * k), 3 * k, p);
    }
  }

  lemma SliceOfPrefix(s: string, t: string, lo: int, hi: int)
    requires |t| <= |s| && s[..|t|] == t && 0 <= lo <= hi <= |t|
    ensures s[lo..hi] == t[lo..hi]
  {
    assert s[..|t|][lo..hi] == s[lo..hi];
  }

  lemma IndexOfSlice(s: string, t: string, offset: int, p: int)
    requires 0 <= offset && offset + |t| <= |s| && s[offset..offset + |t|] == t
    requires offset <= p < offset + |t|
    ensures s[p] == t[p - offset]
  {
  }

  /** The ASCII field as it is meant to read: printable bytes as themselves, everything else as '.'. */
  function Rendered(chunk: seq<bv8>): (s: string)
    ensures |s| == |chunk|
  {
    if chunk == [] then "" else [if IsPrint(chunk[0]) then (chunk[0] as int) as char else '.'] + Rendered(chunk[1..])
  }

  /** One round of printf-style substitution over text without conversions: each "%%" becomes "%". */
  function Unescape(s: string): (r: string)
  {
    if |s| >= 2 && s[0] == '%' && s[1] == '%' then "%" + Unescape(s[2..])
    else if s == [] then ""
    else [s[0]] + Unescape(s[1..])
  }

  /** Doubling '%' is undone by one round of substitution, which leaves the intended rendering. */
  lemma {:induction false} AsciiFieldUnescapes(chunk: seq<bv8>)
    ensures Unescape(AsciiField(chunk)) == Rendered(chunk)
  {
    if chunk != [] {
      var rest := AsciiField(chunk[1..]);
      AsciiFieldUnescapes(chunk[1..]);
      if chunk[0] == PERCENT {
        assert ("%%" + rest)[2..] == rest;
      } else {
        assert (AsciiCell(chunk[0]) + rest)[1..] == rest;
      }
    }
  }

  /** A '%' byte shows as two '%' characters in the dump line. */
  lemma PercentShownTwice()
    ensures HexDumpLine([PERCENT])[HEX_DUMP_ASCII_OFFSET..] == "%%"
  {
    HexDumpLineLayout([PERCENT]);
  }

  /** A letter, a '%' and a control byte: "41 25 07 ", padding to column 48, then "|A%%.". */
  lemma SampleLine()
    ensures HexDumpLine([0x41, 0x25, 0x07]) == "41 25 07 " + Spaces(39) + "|A%%."
  {
    Hex2Digits(0x41);
    Hex2Digits(0x25);
    Hex2Digits(0x07);
    assert HexColumns([0x07]) == "07 ";
    assert HexColumns([0x25, 0x07]) == "25 07 ";
    assert HexColumns([0x41, 0x25, 0x07]) == "41 25 07 ";
    assert AsciiField([0x41, 0x25, 0x07]) == "A%%.";
  }

  // Splitting the input into lines.

  /** The chunks of a dump, in buffer order: sixteen bytes each, the last one possibly shorter. */
  function Chunks(bytes: seq<bv8>): (chunks: seq<seq<bv8>>)
    ensures |chunks| == (|bytes| + BYTES_PER_LINE - 1) / BYTES_PER_LINE
    ensures forall j | 0 <= j < |chunks| :: 1 <= |chunks[j]| <= BYTES_PER_LINE
    decreases |bytes|
  {
    if bytes == [] then []
    else if |bytes| <= BYTES_PER_LINE then [bytes]
    else [bytes[..BYTES_PER_LINE]] + Chunks(bytes[BYTES_PER_LINE..])
  }

  function Min(x: int, y: int): (m: int) {
    if x <= y then x else y
  }

  /** Line j covers the bytes [16j, min(16j + 16, size)). */
  lemma {:induction false} ChunkAt(bytes: seq<bv8>, j: nat)
    requires j < |Chunks(bytes)|
    ensures 16 * j < |bytes|
    ensures Chunks(bytes)[j] == bytes[16 * j..Min(16 * j + 16, |bytes|)]
    decreases |bytes|
  {
    if j > 0 {
      var rest := bytes[BYTES_PER_LINE..];
      ChunkAt(rest, j - 1);
      assert rest[16 * (j - 1)..Min(16 * (j - 1) + 16, |rest|)] == bytes[16 * j..Min(16 * j + 16, |bytes|)];
    }
  }

  /** Byte n sits at place n % 16 of line n / 16, and that line exists. */
  lemma LineOfByte(n: nat, size: nat)
    requires n < size
    ensures n == 16 * (n / 16) + n % 16 && n % 16 < 16
    ensures n / 16 < (size + BYTES_PER_LINE - 1) / BYTES_PER_LINE
  {
    assert (n + 16) / 16 == n / 16 + 1;
  }

  lemma ByteInChunk(bytes: seq<bv8>, n: nat)
    requires n < |bytes|
    ensures n / 16 < |Chunks(bytes)| && n % 16 < |Chunks(bytes)[n / 16]|
    ensures Chunks(bytes)[n / 16][n % 16] == bytes[n]
  {
    var j, i := n / 16, n % 16;
    LineOfByte(n, |bytes|);
    ChunkAt(bytes, j);
    var hi := Min(16 * j + 16, |bytes|);
    assert 16 * j + i < hi;
    IndexInSlice(bytes, 16 * j, hi, i);
  }

  /** A line that started on a multiple of sixteen and has not reached one again holds fewer than sixteen bytes. */
  lemma LineNotFull(start: int, n: int)
    requires start % BYTES_PER_LINE == 0 && start < n <= start + BYTES_PER_LINE && n % BYTES_PER_LINE != 0
    ensures n - start < BYTES_PER_LINE
  {
  }

  lemma SliceSnoc(bytes: seq<bv8>, start: int, n: int)
    requires 0 <= start < n <= |bytes|
    ensures bytes[start..n] == bytes[start..n - 1] + [bytes[n - 1]]
  {
  }

  lemma IndexInSlice(s: seq<bv8>, lo: int, hi: int, k: int)
    requires 0 <= lo <= hi <= |s| && 0 <= k < hi - lo
    ensures s[lo..hi][k] == s[lo + k]
  {
  }

  /** Every line holds sixteen bytes except the last, which holds the remainder (sixteen when there is none). */
  lemma ChunkSizes(bytes: seq<bv8>, j: nat)
    requires j < |Chunks(bytes)|
    ensures |Chunks(bytes)[j]| ==
      if j < |Chunks(bytes)| - 1 || |bytes| % 16 == 0 then BYTES_PER_LINE else |bytes| % 16
  {
    ChunkAt(bytes, j);
  }

  function Flatten(chunks: seq<seq<bv8>>): (bytes: seq<bv8>)
  {
    if chunks == [] then [] else chunks[0] + Flatten(chunks[1..])
  }

  /** The lines together hold every byte exactly once, in order. */
  lemma {:induction false} ChunksCoverBuffer(bytes: seq<bv8>)
    ensures Flatten(Chunks(bytes)) == bytes
    decreases |bytes|
  {
    if |bytes| > BYTES_PER_LINE {
      ChunksCoverBuffer(bytes[BYTES_PER_LINE..]);
      assert Chunks(bytes)[1..] == Chunks(bytes[BYTES_PER_LINE..]);
    }
  }

  /** Chunking a buffer that starts with whole lines chunks the two parts separately. */
  lemma {:induction false} ChunksAppend(x: seq<bv8>, y: seq<bv8>)
    requires |x| % BYTES_PER_LINE == 0
    ensures Chunks(x + y) == Chunks(x) + Chunks(y)
    decreases |x|
  {
    if y == [] {
      assert x + y == x;
    } else if x != [] {
      var xy, tail := x + y, x[BYTES_PER_LINE..];
      assert |xy| > BYTES_PER_LINE;
      assert xy[..BYTES_PER_LINE] == x[..BYTES_PER_LINE];
      assert xy[BYTES_PER_LINE..] == tail + y;
      ChunksAppend(tail, y);
      if |x| == BYTES_PER_LINE {
        assert tail == [] && x[..BYTES_PER_LINE] == x;
        assert tail + y == y;
        assert Chunks(x) == [x];
      } else {
        assert Chunks(x) == [x[..BYTES_PER_LINE]] + Chunks(tail);
      }
      assert Chunks(xy) == [x[..BYTES_PER_LINE]] + Chunks(tail + y);
    } else {
      assert x + y == y;
    }
  }

  /** The lines of a dump, one per chunk, in buffer order. */
  function HexDumpLines(bytes: seq<bv8>): (lines: seq<string>)
  {
    var chunks := Chunks(bytes);
    seq(|chunks|, j requires 0 <= j < |chunks| => HexDumpLine(chunks[j]))
  }

  /** Dumping bytes up to n, where start..n-1 is the last line, adds that line to the lines up to start. */
  lemma DumpLinesGrow(bytes: seq<bv8>, start: nat, n: nat)
    requires start % BYTES_PER_LINE == 0 && start < n <= |bytes| && n - start <= BYTES_PER_LINE
    ensures HexDumpLines(bytes[..n]) == HexDumpLines(bytes[..start]) + [HexDumpLine(bytes[start..n])]
  {
    var chunk := bytes[start..n];
    assert bytes[..n] == bytes[..start] + chunk;
    HexDumpLinesAppend(bytes[..start], chunk);
    OneChunkOneLine(chunk);
  }

  /** Each line depends only on its own chunk: dumping whole lines and then the rest dumps each part alone. */
  lemma HexDumpLinesAppend(x: seq<bv8>, y: seq<bv8>)
    requires |x| % BYTES_PER_LINE == 0
    ensures HexDumpLines(x + y) == HexDumpLines(x) + HexDumpLines(y)
  {
    ChunksAppend(x, y);
  }

  // The positions the source stores to, with its 80-character buffer.

  /** The indices the ASCII part of the loop stores to for `chunk`, the ASCII index starting at a. */
  function AsciiStores(chunk: seq<bv8>, a: nat): (stores: set<int>)
  {
    if chunk == [] then {}
    else
      (if chunk[0] == PERCENT then {HEX_DUMP_ASCII_OFFSET + a, HEX_DUMP_ASCII_OFFSET + a + 1}
       else {HEX_DUMP_ASCII_OFFSET + a})
      + AsciiStores(chunk[1..], a + |AsciiCell(chunk[0])|)
  }

  /** The indices the "%02X " conversions of the first k bytes store to, its NUL included. */
  function HexStores(k: nat): (stores: set<int>)
  {
    if k == 0 then {} else HexStores(k - 1) + {3 * (k - 1), 3 * (k - 1) + 1, 3 * (k - 1) + 2, 3 * (k - 1) + 3}
  }

  /**
   * Every index of the line buffer the source stores to while it formats
   * `chunk` and closes its line: the hex conversions, the ASCII cells, and
   * the space, '|' and NUL stored when the line closes.
   */
  function StoreIndices(chunk: seq<bv8>): (stores: set<int>)
  {
    WithCloseStores(HexStores(|chunk|) + AsciiStores(chunk, 0), 3 * |chunk|, |AsciiField(chunk)|)
  }

  /** Adds the stores made when a line closes: the space at d, the '|' and the NUL after an ASCII field of `width`. */
  function WithCloseStores(stores: set<int>, d: int, width: int): (all: set<int>)
  {
    stores + {d, HEX_DUMP_ASCII_SEPARATOR, HEX_DUMP_ASCII_OFFSET + width}
  }

  lemma {:induction false} HexStoresWithin(k: nat)
    ensures forall p | p in HexStores(k) :: 0 <= p <= 3 * k
  {
    if k > 0 {
      HexStoresWithin(k - 1);
    }
  }

  lemma {:induction false} AsciiStoresWithin(chunk: seq<bv8>, a: nat)
    ensures forall p | p in AsciiStores(chunk, a) ::
      HEX_DUMP_ASCII_OFFSET + a <= p < HEX_DUMP_ASCII_OFFSET + a + |AsciiField(chunk)|
  {
    if chunk != [] {
      AsciiStoresWithin(chunk[1..], a + |AsciiCell(chunk[0])|);
    }
  }

  /** All stores for a chunk fit a buffer of `length` characters exactly when its NUL does. */
  lemma StoresFit(chunk: seq<bv8>, length: int)
    requires |chunk| <= BYTES_PER_LINE
    ensures (forall p | p in StoreIndices(chunk) :: 0 <= p < length)
      <==> HEX_DUMP_ASCII_OFFSET + |chunk| + Percents(chunk) < length
  {
    var k, width := |chunk|, |AsciiField(chunk)|;
    AsciiStoresWithin(chunk, 0);
    HexStoresWithin(k);
    StoresFitParts(StoreIndices(chunk), HexStores(k), AsciiStores(chunk, 0), 3 * k, width, length);
  }

  /** StoresFit with the stores abstracted to their bounds. */
  lemma StoresFitParts(stores: set<int>, hex: set<int>, ascii: set<int>, d: int, width: int, length: int)
    requires stores == WithCloseStores(hex + ascii, d, width)
    requires 0 <= d <= HEX_DUMP_ASCII_SEPARATOR && 0 <= width
    requires forall p | p in hex :: 0 <= p <= d
    requires forall p | p in ascii :: HEX_DUMP_ASCII_OFFSET <= p < HEX_DUMP_ASCII_OFFSET + width
    ensures (forall p | p in stores :: 0 <= p < length) <==> HEX_DUMP_ASCII_OFFSET + width < length
  {
    assert HEX_DUMP_ASCII_OFFSET + width in stores;
    if HEX_DUMP_ASCII_OFFSET + width < length {
      forall p | p in stores
        ensures 0 <= p < length
      {
        if p in hex {
          assert p <= d;
        } else if p in ascii {
          assert p < HEX_DUMP_ASCII_OFFSET + width;
        }
      }
    }
  }

  /** With the source's 80 characters, a chunk stays inside the buffer exactly when k + #'%' <= 30. */
  lemma SourceLineBound(chunk: seq<bv8>)
    requires |chunk| <= BYTES_PER_LINE
    ensures (forall p | p in StoreIndices(chunk) :: 0 <= p < SOURCE_LINE_LENGTH)
      <==> |chunk| + Percents(chunk) <= 30
  {
    StoresFit(chunk, SOURCE_LINE_LENGTH);
  }

  lemma {:induction false} AllPercents(n: nat)
    ensures Percents(seq(n, _ => PERCENT)) == n
  {
    if n > 0 {
      AllPercents(n - 1);
      assert seq(n, _ => PERCENT)[1..] == seq(n - 1, _ => PERCENT);
    }
  }

  /** Sixteen '%' bytes make the source store its NUL at index 81, past the end of its 80-character buffer. */
  lemma OverrunWitness()
    ensures var chunk := seq(16, _ => PERCENT);
      81 in StoreIndices(chunk) && 81 >= SOURCE_LINE_LENGTH
  {
    AllPercents(16);
  }

  /** With 82 characters every chunk of at most sixteen bytes stays inside the buffer. */
  lemma StoresFitLine(chunk: seq<bv8>)
    requires |chunk| <= BYTES_PER_LINE
    ensures forall p | p in StoreIndices(chunk) :: 0 <= p < HEX_DUMP_LINE_LENGTH
  {
    StoresFit(chunk, HEX_DUMP_LINE_LENGTH);
  }

  /** Columns 3i to 3i + 2 of a line show b: two hex digits that read back as b, then a space. */
  predicate ShowsByte(line: string, i: nat, b: bv8) {
    && 3 * i + 3 <= |line|
    && AllDigits(line[3 * i..3 * i + 2], 16) && NumeralValue(line[3 * i..3 * i + 2], 16) == b as nat
    && line[3 * i + 2] == ' '
  }

  lemma ByteColumn(chunk: seq<bv8>, i: nat)
    requires |chunk| <= BYTES_PER_LINE && i < |chunk|
    ensures ShowsByte(HexDumpLine(chunk), i, chunk[i])
  {
    var line, hex, cell := HexDumpLine(chunk), HexColumns(chunk), Hex2(chunk[i]) + " ";
    HexDumpLineParts(chunk);
    HexColumnsAt(chunk, i);
    SliceOfPrefix(line, hex, 3 * i, 3 * i + 3);
    CellDigits(line, 3 * i, Hex2(chunk[i]));
  }

  lemma CellDigits(line: string, lo: nat, digits: string)
    requires |digits| == 2 && lo + 3 <= |line| && line[lo..lo + 3] == digits + " "
    ensures line[lo..lo + 2] == digits && line[lo + 2] == ' '
  {
    assert line[lo..lo + 2] == line[lo..lo + 3][..2];
    assert (digits + " ")[..2] == digits;
  }

  /** A chunk of one to sixteen bytes is dumped as exactly one line. */
  lemma OneChunkOneLine(chunk: seq<bv8>)
    requires 1 <= |chunk| <= BYTES_PER_LINE
    ensures HexDumpLines(chunk) == [HexDumpLine(chunk)]
  {
    assert Chunks(chunk) == [chunk];
  }

  // The line buffer while the source fills it, as a sequence of characters.

  lemma {:induction false} HexColumnsAppend(chunk: seq<bv8>, b: bv8)
    ensures HexColumns(chunk + [b]) == HexColumns(chunk) + Hex2(b) + " "
  {
    if chunk != [] {
      HexColumnsAppend(chunk[1..], b);
      assert (chunk + [b])[1..] == chunk[1..] + [b];
    } else {
      assert [] + [b] == [b];
    }
  }

  lemma {:induction false} AsciiFieldAppend(chunk: seq<bv8>, b: bv8)
    ensures AsciiField(chunk + [b]) == AsciiField(chunk) + AsciiCell(b)
  {
    if chunk != [] {
      AsciiFieldAppend(chunk[1..], b);
      assert (chunk + [b])[1..] == chunk[1..] + [b];
    } else {
      assert [] + [b] == [b];
    }
  }

  /** sprintf(&buf[d], "%02X ", b): two digits and a space, then the NUL sprintf always adds. */
  function PutHex(buf: seq<char>, d: int, b: bv8): (r: seq<char>)
    requires 0 <= d && d + 4 <= |buf|
  {
    var hex := Hex2(b);
    buf[d := hex[0]][d + 1 := hex[1]][d + 2 := ' '][d + 3 := NUL]
  }

  /** The ASCII cell of b stored at pos: '%' at pos and pos + 1, or the one character at pos. */
  function PutAscii(buf: seq<char>, pos: int, b: bv8): (r: seq<char>)
    requires 0 <= pos && pos + |AsciiCell(b)| <= |buf|
  {
    if b == PERCENT then buf[pos := '%'][pos + 1 := '%'] else buf[pos := AsciiCell(b)[0]]
  }

  /** Closing a line: a space over sprintf's last NUL, the '|', and the NUL after the ASCII field. */
  function CloseLine(buf: seq<char>, d: int, a: int): (r: seq<char>)
    requires 0 <= d < |buf| && 0 <= a && HEX_DUMP_ASCII_OFFSET + a < |buf|
  {
    buf[d := ' '][HEX_DUMP_ASCII_SEPARATOR := '|'][HEX_DUMP_ASCII_OFFSET + a := NUL]
  }

  /**
   * A line buffer holding the hex text `hex` from column 0 and the ASCII text
   * `ascii` from column 49, with spaces after each of them; the column just
   * after `hex` holds whatever sprintf or the reset left there.
   */
  ghost predicate LineState(buf: seq<char>, hex: string, ascii: string)
  {
    && |buf| == HEX_DUMP_LINE_LENGTH && |hex| <= HEX_DUMP_ASCII_SEPARATOR
    && HEX_DUMP_ASCII_OFFSET + |ascii| < |buf|
    && buf[..|hex|] == hex
    && (forall p | |hex| < p <= HEX_DUMP_ASCII_SEPARATOR :: buf[p] == ' ')
    && buf[HEX_DUMP_ASCII_OFFSET..HEX_DUMP_ASCII_OFFSET + |ascii|] == ascii
    && (forall p | HEX_DUMP_ASCII_OFFSET + |ascii| <= p < |buf| :: buf[p] == ' ')
  }

  /** The line buffer after the bytes of `chunk` have been formatted into it. */
  ghost predicate PartialLine(buf: seq<char>, chunk: seq<bv8>, a: int, d: int)
  {
    && |chunk| <= BYTES_PER_LINE && d == 3 * |chunk| && a == |AsciiField(chunk)|
    && LineState(buf, HexColumns(chunk), AsciiField(chunk))
  }

  /** The buffer memset to spaces holds the empty line. */
  lemma BlankLine(buf: seq<char>)
    requires |buf| == HEX_DUMP_LINE_LENGTH && forall p | 0 <= p < |buf| :: buf[p] == ' '
    ensures PartialLine(buf, [], 0, 0)
  {
  }

  /** sprintf of one hex column appends it to the hex text and leaves the ASCII text alone. */
  lemma HexWriteStep(buf: seq<char>, hex: string, ascii: string, b: bv8)
    requires LineState(buf, hex, ascii) && |hex| + 3 <= HEX_DUMP_ASCII_SEPARATOR
    ensures |hex| + 4 <= |buf|
    ensures LineState(PutHex(buf, |hex|, b), hex + Hex2(b) + " ", ascii)
  {
    var d := |hex|;
    var next := PutHex(buf, d, b);
    assert next[..d + 3] == buf[..d] + Hex2(b) + " ";
    assert next[HEX_DUMP_ASCII_OFFSET..HEX_DUMP_ASCII_OFFSET + |ascii|]
      == buf[HEX_DUMP_ASCII_OFFSET..HEX_DUMP_ASCII_OFFSET + |ascii|];
  }

  /** Storing one ASCII cell appends it to the ASCII text and leaves the hex text alone. */
  lemma AsciiWriteStep(buf: seq<char>, hex: string, ascii: string, b: bv8)
    requires LineState(buf, hex, ascii)
    requires HEX_DUMP_ASCII_OFFSET + |ascii| + |AsciiCell(b)| < |buf|
    ensures LineState(PutAscii(buf, HEX_DUMP_ASCII_OFFSET + |ascii|, b), hex, ascii + AsciiCell(b))
  {
    var pos := HEX_DUMP_ASCII_OFFSET + |ascii|;
    var cell := AsciiCell(b);
    var next := PutAscii(buf, pos, b);
    assert next[..|hex|] == buf[..|hex|];
    assert next[HEX_DUMP_ASCII_OFFSET..pos] == buf[HEX_DUMP_ASCII_OFFSET..pos];
    assert next[pos..pos + |cell|] == cell;
    assert next[HEX_DUMP_ASCII_OFFSET..pos + |cell|]
      == next[HEX_DUMP_ASCII_OFFSET..pos] + next[pos..pos + |cell|];
  }

  /** Formatting one more byte extends the line by its hex column and its ASCII cell. */
  lemma PartialLineExtends(buf: seq<char>, chunk: seq<bv8>, a: int, d: int, b: bv8)
    requires PartialLine(buf, chunk, a, d) && |chunk| < BYTES_PER_LINE
    ensures d + 4 <= |buf| && HEX_DUMP_ASCII_OFFSET + a + |AsciiCell(b)| <= |buf|
    ensures PartialLine(PutAscii(PutHex(buf, d, b), HEX_DUMP_ASCII_OFFSET + a, b), chunk + [b], a + |AsciiCell(b)|, d + 3)
  {
    var hex, ascii := HexColumns(chunk), AsciiField(chunk);
    HexColumnsAppend(chunk, b);
    AsciiFieldAppend(chunk, b);
    HexWriteStep(buf, hex, ascii, b);
    AsciiWriteStep(PutHex(buf, d, b), hex + Hex2(b) + " ", ascii, b);
  }

  /** Closing the line leaves, as a C string, exactly the dump line of the chunk. */
  lemma ClosedLineText(buf: seq<char>, chunk: seq<bv8>, a: int, d: int)
    requires PartialLine(buf, chunk, a, d) && 1 <= |chunk|
    ensures HEX_DUMP_ASCII_OFFSET + a < |buf|
    ensures CString(CloseLine(buf, d, a)) == HexDumpLine(chunk)
  {
    var k := |chunk|;
    var closed := CloseLine(buf, d, a);
    var line := HexDumpLine(chunk);
    var nul := HEX_DUMP_ASCII_OFFSET + a;
    HexDumpLineParts(chunk);
    assert closed[..d] == line[..d];
    forall p | d <= p < HEX_DUMP_ASCII_SEPARATOR
      ensures closed[p] == line[p]
    {
      IndexOfSlice(line, Spaces(HEX_DUMP_ASCII_SEPARATOR - 3 * k), 3 * k, p);
    }
    assert closed[HEX_DUMP_ASCII_OFFSET..nul] == line[HEX_DUMP_ASCII_OFFSET..];
    assert closed[..nul] == line;
    CStringTerminated(closed, nul);
    CStringOfPlainText(line);
  }
}
