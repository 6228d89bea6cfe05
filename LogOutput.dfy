/**
 * What the logger writes to standard output, as a function of the
 * configuration, the active mask, the running time and the call: the prefix
 * LogPrintf formats, the three writes of one log line, the assertion hook's
 * report, and the lines of a hex dump.
 */
module LogOutput {
  import opened Wrappers
  import opened LogLevels
  import opened LogMacros
  import opened CFormat
  import opened HexDump

  /** Size of logBuffer, and so the bound snprintf and vsnprintf apply. */
  const LOG_BUFFER_LENGTH := 256

  /** The prefix format: "LOG:", the time and ':' if enabled, the level and ':', the name and ':' if enabled, a space. */
  function PrefixText(cfg: Config, time: string, level: string, name: string): (s: string)
  {
    "LOG:" + (if cfg.timestamp then time + ":" else "")
    + level + ":"
    + (if cfg.functionName then name + ":" else "")
    + " "
  }

  /** The prefix of a line: the time as %d, the level as %X, the name as %s. */
  function Prefix(cfg: Config, now: uint32, level: bv32, fn: string): (s: string)
  {
    PrefixText(cfg, SignedDecimal(now), Hex(level as nat), CString(fn))
  }

  /** What logBuffer holds, as a C string, after snprintf of `text` into it. */
  function Bounded(text: string): (s: string)
    ensures s <= text && |s| < LOG_BUFFER_LENGTH && NUL !in s
  {
    CString(Truncate(text, LOG_BUFFER_LENGTH))
  }

  /** The writes of one LogPrintf call: nothing when the level is masked out, else prefix, message, newline. */
  function PrintfWrites(cfg: Config, mask: bv32, now: uint32, level: bv32, fn: string, message: string): (w: seq<string>)
  {
    if Passes(level, mask) then [Bounded(Prefix(cfg, now, level, fn)), Bounded(message), "\n"] else []
  }

  /** The report CdspOsAssert prints when its condition holds: "ASSERT!!! %d\n". */
  function AssertWrites(condition: bool, arg: uint32): (w: seq<string>)
  {
    if condition then ["ASSERT!!! " + SignedDecimal(arg) + "\n"] else []
  }

  /** The report LogHexData's assertion makes: "ASSERT!!! 1" and a newline. */
  lemma AssertReportOfOne()
    ensures AssertWrites(true, 1) == ["ASSERT!!! 1\n"]
  {
    assert Decimal(1) == "1";
    assert SignedDecimal(1) == "1";
    assert "ASSERT!!! " + "1" + "\n" == "ASSERT!!! 1\n";
  }

  /** LogPrintf(level, fn, "%s", line) for each line in turn. */
  function LineWrites(cfg: Config, mask: bv32, now: uint32, level: bv32, fn: string, lines: seq<string>): (w: seq<string>)
  {
    if lines == [] then []
    else LineWrites(cfg, mask, now, level, fn, lines[..|lines| - 1]) + PrintfWrites(cfg, mask, now, level, fn, lines[|lines| - 1])
  }

  /** The bytes LogHexData reads: the buffer's contents, none for a NULL buffer. */
  function BytesOf(buffer: Option<seq<bv8>>): (bytes: seq<bv8>) {
    if buffer.Some? then buffer.value else []
  }

  /** The writes of one LogHexData call: the assertion hook's report, then the dump if the level passes. */
  function HexDataWrites(cfg: Config, mask: bv32, now: uint32, level: bv32, fn: string, buffer: Option<seq<bv8>>): (w: seq<string>)
  {
    AssertWrites(buffer.Some?, 1)
    + (if Passes(level, mask) then LineWrites(cfg, mask, now, level, fn, HexDumpLines(BytesOf(buffer))) else [])
  }

  /** The writes of a macro call made from the function named fn. */
  function MacroWrites(cfg: Config, mask: bv32, now: uint32, fn: string, call: MacroCall): (w: seq<string>)
  {
    match Expand(cfg.debugBuild, call)
    case None => []
    case Some(PrintfCall(level, message)) => PrintfWrites(cfg, mask, now, level, fn, message)
    case Some(HexDataCall(level, buffer)) => HexDataWrites(cfg, mask, now, level, fn, buffer)
  }

  // Reading a prefix back into its colon-separated fields.

  /** Fields joined with ':' between them. */
  function Join(fields: seq<string>): (s: string)
    requires |fields| >= 1
  {
    if |fields| == 1 then fields[0] else fields[0] + ":" + Join(fields[1..])
  }

  /** A text cut at every ':'. */
  function SplitFields(s: string): (fields: seq<string>)
    ensures |fields| >= 1
  {
    if s == [] then [""]
    else if s[0] == ':' then [""] + SplitFields(s[1..])
    else var rest := SplitFields(s[1..]); [[s[0]] + rest[0]] + rest[1..]
  }

  lemma {:induction false} SplitPlain(f: string)
    requires ':' !in f
    ensures SplitFields(f) == [f]
  {
    if f != [] {
      SplitPlain(f[1..]);
      assert [f[0]] + f[1..] == f;
    }
  }

  lemma {:induction false} SplitAfterField(f: string, rest: string)
    requires ':' !in f
    ensures SplitFields(f + ":" + rest) == [f] + SplitFields(rest)
  {
    if f == [] {
      assert f + ":" + rest == [':'] + rest;
      assert (f + ":" + rest)[1..] == rest;
    } else {
      SplitAfterField(f[1..], rest);
      assert (f + ":" + rest)[1..] == f[1..] + ":" + rest;
      assert [f[0]] + f[1..] == f;
    }
  }

  /** Splitting undoes joining when no field holds a ':'. */
  lemma {:induction false} SplitJoin(fields: seq<string>)
    requires |fields| >= 1 && forall i | 0 <= i < |fields| :: ':' !in fields[i]
    ensures SplitFields(Join(fields)) == fields
  {
    if |fields| == 1 {
      SplitPlain(fields[0]);
    } else {
      SplitJoin(fields[1..]);
      SplitAfterField(fields[0], Join(fields[1..]));
      assert [fields[0]] + fields[1..] == fields;
    }
  }

  /** A numeral holds only digits: neither the ':' that separates the prefix's fields nor a NUL. */
  lemma NumeralChars(s: string, base: nat)
    requires AllDigits(s, base)
    ensures ':' !in s && NUL !in s
  {
  }

  lemma NoColonInSignedDecimal(x: uint32)
    ensures ':' !in SignedDecimal(x)
  {
    var v := Int32(x);
    if v >= 0 {
      NumeralChars(Decimal(v), 10);
    } else {
      NumeralChars(Decimal(-v), 10);
    }
  }

  /** The fields of a prefix, in the order the format string gives them. */
  function FieldsOf(cfg: Config, time: string, level: string, name: string): (f: seq<string>)
    ensures |f| >= 1
  {
    ["LOG"] + (if cfg.timestamp then [time] else []) + [level] + (if cfg.functionName then [name] else []) + [" "]
  }

  lemma JoinThree(a: string, b: string, c: string)
    ensures Join([a, b, c]) == a + ":" + b + ":" + c
  {
    assert [a, b, c][1..] == [b, c];
    assert [b, c][1..] == [c];
    assert Join([b, c]) == b + ":" + c;
    assert a + ":" + (b + ":" + c) == a + ":" + b + ":" + c;
  }

  lemma JoinFour(a: string, b: string, c: string, e: string)
    ensures Join([a, b, c, e]) == a + ":" + b + ":" + c + ":" + e
  {
    assert [a, b, c, e][1..] == [b, c, e];
    JoinThree(b, c, e);
    assert a + ":" + (b + ":" + c + ":" + e) == a + ":" + b + ":" + c + ":" + e;
  }

  lemma JoinFive(a: string, b: string, c: string, e: string, g: string)
    ensures Join([a, b, c, e, g]) == a + ":" + b + ":" + c + ":" + e + ":" + g
  {
    assert [a, b, c, e, g][1..] == [b, c, e, g];
    JoinFour(b, c, e, g);
    assert a + ":" + (b + ":" + c + ":" + e + ":" + g) == a + ":" + b + ":" + c + ":" + e + ":" + g;
  }

  lemma PrefixIsJoin(cfg: Config, time: string, level: string, name: string)
    ensures PrefixText(cfg, time, level, name) == Join(FieldsOf(cfg, time, level, name))
  {
    var prefix, fields := PrefixText(cfg, time, level, name), FieldsOf(cfg, time, level, name);
    if cfg.timestamp && cfg.functionName {
      assert prefix == "LOG" + ":" + time + ":" + level + ":" + name + ":" + " ";
      assert fields == ["LOG", time, level, name, " "];
      JoinFive("LOG", time, level, name, " ");
    } else if cfg.timestamp {
      assert prefix == "LOG" + ":" + time + ":" + level + ":" + " ";
      assert fields == ["LOG", time, level, " "];
      JoinFour("LOG", time, level, " ");
    } else if cfg.functionName {
      assert prefix == "LOG" + ":" + level + ":" + name + ":" + " ";
      assert fields == ["LOG", level, name, " "];
      JoinFour("LOG", level, name, " ");
    } else {
      assert prefix == "LOG" + ":" + level + ":" + " ";
      assert fields == ["LOG", level, " "];
      JoinThree("LOG", level, " ");
    }
  }

  lemma FieldsOfAt(cfg: Config, time: string, level: string, name: string)
    ensures var f, t := FieldsOf(cfg, time, level, name), if cfg.timestamp then 1 else 0;
      && |f| == 3 + t + (if cfg.functionName then 1 else 0)
      && f[0] == "LOG" && f[|f| - 1] == " " && f[1 + t] == level
      && (cfg.timestamp ==> f[1] == time)
      && (cfg.functionName ==> f[2 + t] == name)
  {
  }

  /** Fields without ':' are read back from the prefix text. */
  lemma PrefixTextReadsBack(cfg: Config, time: string, level: string, name: string)
    requires ':' !in time && ':' !in level && ':' !in name
    ensures SplitFields(PrefixText(cfg, time, level, name)) == FieldsOf(cfg, time, level, name)
  {
    var fields := FieldsOf(cfg, time, level, name);
    assert forall i | 0 <= i < |fields| :: ':' !in fields[i];
    PrefixIsJoin(cfg, time, level, name);
    SplitJoin(fields);
  }

  /**
   * A prefix reads back: its fields, cut at ':', are "LOG", the time (when
   * enabled) whose value is the running time read as %d does, the level
   * whose hexadecimal value is the level, the function name (when enabled)
   * and the closing space, provided a printed name holds no ':'.
   */
  lemma PrefixReadsBack(cfg: Config, now: uint32, level: bv32, fn: string)
    requires cfg.functionName ==> ':' !in CString(fn)
    ensures var f, t := SplitFields(Prefix(cfg, now, level, fn)), if cfg.timestamp then 1 else 0;
      && |f| == 3 + t + (if cfg.functionName then 1 else 0)
      && f[0] == "LOG" && f[|f| - 1] == " "
      && AllDigits(f[1 + t], 16) && NumeralValue(f[1 + t], 16) == level as nat
      && (cfg.timestamp ==> f[1] == SignedDecimal(now) && SignedValue(f[1]) == Int32(now))
      && (cfg.functionName ==> f[2 + t] == CString(fn))
  {
    NoColonInSignedDecimal(now);
    NumeralChars(Hex(level as nat), 16);
    // The name only matters when it is printed.
    var name := if cfg.functionName then CString(fn) else "";
    assert Prefix(cfg, now, level, fn) == PrefixText(cfg, SignedDecimal(now), Hex(level as nat), name);
    PrefixTextReadsBack(cfg, SignedDecimal(now), Hex(level as nat), name);
    FieldsOfAt(cfg, SignedDecimal(now), Hex(level as nat), name);
    HexRoundTrip(level as nat);
    SignedDecimalRoundTrip(now);
  }

  // One LogPrintf call.

  /** Text shorter than the buffer and without a NUL passes through snprintf whole. */
  lemma BoundedPlain(text: string)
    requires |text| < LOG_BUFFER_LENGTH && NUL !in text
    ensures Bounded(text) == text
  {
    CStringOfPlainText(text);
  }

  /**
   * A call writes something exactly when its level passes the mask, and then
   * three pieces: the prefix, the message cut to at most 255 characters (and
   * at its first NUL), and a newline. The message comes out unchanged
   * exactly when it is shorter than the buffer and holds no NUL.
   */
  lemma PrintfLine(cfg: Config, mask: bv32, now: uint32, level: bv32, fn: string, message: string)
    ensures var w := PrintfWrites(cfg, mask, now, level, fn, message);
      && (w != [] <==> Passes(level, mask))
      && (w != [] ==>
        && |w| == 3 && w[2] == "\n" && w[0] <= Prefix(cfg, now, level, fn)
        && w[1] <= message && |w[1]| < LOG_BUFFER_LENGTH
        && (w[1] == message <==> |message| < LOG_BUFFER_LENGTH && NUL !in message))
  {
    if |message| < LOG_BUFFER_LENGTH && NUL !in message {
      BoundedPlain(message);
    }
  }

  /**
   * A prefix with a time of at most 11 characters and a level of at most 8:
   * at most 27 characters besides the name, 15 without the time. It is stated
   * over the field texts, so that it is proved without unfolding the numeral
   * conversions; PrefixLength applies it to the prefix of an actual call.
   */
  lemma PrefixTextBound(cfg: Config, time: string, level: string, name: string)
    requires |time| <= 11 && |level| <= 8 && NUL !in time && NUL !in level && NUL !in name
    ensures var s := PrefixText(cfg, time, level, name);
      && |s| <= 27 + (if cfg.functionName then |name| else 0) - (if cfg.timestamp then 0 else 12)
      && s[..4] == "LOG:" && NUL !in s
  {
  }

  /** Without the two optional fields the prefix is "LOG:<level>: ". */
  lemma PlainPrefixText(cfg: Config, time: string, level: string, name: string)
    requires !cfg.timestamp && !cfg.functionName
    ensures PrefixText(cfg, time, level, name) == "LOG:" + level + ": "
  {
  }

  /** The prefix starts "LOG:", holds no NUL, and is at most 27 characters besides the function name (15 without the time). */
  lemma PrefixLength(cfg: Config, now: uint32, level: bv32, fn: string)
    ensures NUL !in Prefix(cfg, now, level, fn)
    ensures |Prefix(cfg, now, level, fn)| <= 27 + (if cfg.functionName then |CString(fn)| else 0) - (if cfg.timestamp then 0 else 12)
    ensures Prefix(cfg, now, level, fn)[..4] == "LOG:"
  {
    var h := Hex(level as nat);
    LevelDigits(level);
    SignedDecimalLength(now);
    NumeralChars(h, 16);
    PrefixTextBound(cfg, SignedDecimal(now), h, CString(fn));
  }

  /** With a name of at most 228 characters (or none) the prefix is never cut, so the line starts with the whole prefix. */
  lemma PrefixWhole(cfg: Config, mask: bv32, now: uint32, level: bv32, fn: string, message: string)
    requires Passes(level, mask)
    requires cfg.functionName ==> |CString(fn)| <= 228
    ensures PrintfWrites(cfg, mask, now, level, fn, message)[0] == Prefix(cfg, now, level, fn)
  {
    PrefixLength(cfg, now, level, fn);
    BoundedPlain(Prefix(cfg, now, level, fn));
  }

  /** With the default switches a line starts "LOG:<level in hex>: ", and the hex reads back as the level. */
  lemma DefaultPrefix(mask: bv32, now: uint32, level: bv32, fn: string, message: string)
    requires Passes(level, mask)
    ensures var head, h := PrintfWrites(DEFAULT_CONFIG, mask, now, level, fn, message)[0], Hex(level as nat);
      && head == "LOG:" + h + ": " && |h| <= 8 && NumeralValue(h, 16) == level as nat
  {
    PrefixWhole(DEFAULT_CONFIG, mask, now, level, fn, message);
    PlainPrefixText(DEFAULT_CONFIG, SignedDecimal(now), Hex(level as nat), CString(fn));
    LevelDigits(level);
  }

  // A hex dump.

  /** With the level passing, each line becomes three writes: the prefix, the line itself cut as LogPrintf cuts it, a newline. */
  lemma {:induction false} LineWritesShape(cfg: Config, mask: bv32, now: uint32, level: bv32, fn: string, lines: seq<string>)
    requires Passes(level, mask)
    ensures var w := LineWrites(cfg, mask, now, level, fn, lines);
      && |w| == 3 * |lines|
      && forall j | 0 <= j < |lines| ::
        w[3 * j] == Bounded(Prefix(cfg, now, level, fn)) && w[3 * j + 1] == Bounded(lines[j]) && w[3 * j + 2] == "\n"
  {
    if lines != [] {
      var init := lines[..|lines| - 1];
      LineWritesShape(cfg, mask, now, level, fn, init);
      var w0 := LineWrites(cfg, mask, now, level, fn, init);
      var w := LineWrites(cfg, mask, now, level, fn, lines);
      assert w == w0 + PrintfWrites(cfg, mask, now, level, fn, lines[|lines| - 1]);
      forall j | 0 <= j < |lines|
        ensures w[3 * j] == Bounded(Prefix(cfg, now, level, fn)) && w[3 * j + 1] == Bounded(lines[j]) && w[3 * j + 2] == "\n"
      {
        if j < |init| {
          assert lines[j] == init[j];
        }
      }
    }
  }

  /** One more line means one more LogPrintf call after the others. */
  lemma LineWritesSnoc(cfg: Config, mask: bv32, now: uint32, level: bv32, fn: string, lines: seq<string>, line: string)
    ensures LineWrites(cfg, mask, now, level, fn, lines + [line])
      == LineWrites(cfg, mask, now, level, fn, lines) + PrintfWrites(cfg, mask, now, level, fn, line)
  {
    assert (lines + [line])[..|lines|] == lines;
  }

  /** Printing the line of bytes start..n-1 after the lines before it extends the dump by that line. */
  lemma DumpProgress(cfg: Config, mask: bv32, now: uint32, level: bv32, fn: string, bytes: seq<bv8>, start: nat, n: nat)
    requires start % BYTES_PER_LINE == 0 && start < n <= |bytes| && n - start <= BYTES_PER_LINE
    ensures LineWrites(cfg, mask, now, level, fn, HexDumpLines(bytes[..n]))
      == LineWrites(cfg, mask, now, level, fn, HexDumpLines(bytes[..start]))
        + PrintfWrites(cfg, mask, now, level, fn, HexDumpLine(bytes[start..n]))
  {
    DumpLinesGrow(bytes, start, n);
    LineWritesSnoc(cfg, mask, now, level, fn, HexDumpLines(bytes[..start]), HexDumpLine(bytes[start..n]));
  }

  /** A dump line (at most 81 characters, no NUL) passes through LogPrintf's buffer unchanged. */
  lemma DumpLineFits(chunk: seq<bv8>)
    requires |chunk| <= BYTES_PER_LINE
    ensures Bounded(HexDumpLine(chunk)) == HexDumpLine(chunk)
  {
    BoundedPlain(HexDumpLine(chunk));
  }

  /** After one leading write, line j's three writes sit at 1 + 3j, 2 + 3j and 3 + 3j. */
  lemma ReportThenLines(cfg: Config, mask: bv32, now: uint32, level: bv32, fn: string, report: string, lines: seq<string>)
    requires Passes(level, mask)
    ensures var w := [report] + LineWrites(cfg, mask, now, level, fn, lines);
      && |w| == 1 + 3 * |lines| && w[0] == report
      && forall j | 0 <= j < |lines| ::
        w[1 + 3 * j] == Bounded(Prefix(cfg, now, level, fn)) && w[2 + 3 * j] == Bounded(lines[j]) && w[3 + 3 * j] == "\n"
  {
    LineWritesShape(cfg, mask, now, level, fn, lines);
  }

  /** Every dump line passes through LogPrintf's buffer whole. */
  lemma DumpLinesFit(bytes: seq<bv8>)
    ensures var lines, chunks := HexDumpLines(bytes), Chunks(bytes);
      forall j | 0 <= j < |lines| :: Bounded(lines[j]) == HexDumpLine(chunks[j])
  {
    var lines, chunks := HexDumpLines(bytes), Chunks(bytes);
    forall j | 0 <= j < |lines|
      ensures Bounded(lines[j]) == HexDumpLine(chunks[j])
    {
      DumpLineFits(chunks[j]);
    }
  }

  /**
   * A dump that passes: the assertion report, then for line j the prefix,
   * the dump line of bytes 16j to 16j + 15 (or to the end), and a newline.
   */
  lemma HexDumpWrites(cfg: Config, mask: bv32, now: uint32, level: bv32, fn: string, bytes: seq<bv8>)
    requires Passes(level, mask)
    ensures var w, chunks := HexDataWrites(cfg, mask, now, level, fn, Some(bytes)), Chunks(bytes);
      && |w| == 1 + 3 * |chunks| && w[0] == "ASSERT!!! 1\n"
      && forall j | 0 <= j < |chunks| ::
        && w[1 + 3 * j] == Bounded(Prefix(cfg, now, level, fn))
        && w[2 + 3 * j] == HexDumpLine(chunks[j])
        && w[3 + 3 * j] == "\n"
  {
    var lines := HexDumpLines(bytes);
    AssertReportOfOne();
    assert HexDataWrites(cfg, mask, now, level, fn, Some(bytes))
      == ["ASSERT!!! 1\n"] + LineWrites(cfg, mask, now, level, fn, lines);
    ReportThenLines(cfg, mask, now, level, fn, "ASSERT!!! 1\n", lines);
    DumpLinesFit(bytes);
  }

  /** Every byte of the buffer shows, as two hex digits that read back as the byte, at its place in its line. */
  lemma DumpShowsEveryByte(cfg: Config, mask: bv32, now: uint32, level: bv32, fn: string, bytes: seq<bv8>, n: nat)
    requires Passes(level, mask) && n < |bytes|
    ensures var w, j := HexDataWrites(cfg, mask, now, level, fn, Some(bytes)), n / 16;
      2 + 3 * j < |w| && ShowsByte(w[2 + 3 * j], n % 16, bytes[n])
  {
    var j, i := n / 16, n % 16;
    var chunks := Chunks(bytes);
    ByteInChunk(bytes, n);
    HexDumpWrites(cfg, mask, now, level, fn, bytes);
    ByteColumn(chunks[j], i);
  }

  /** Read as printf would read a format, the ASCII field of line j shows bytes 16j to 16j + 15 as printable characters or '.'. */
  lemma DumpShowsText(cfg: Config, mask: bv32, now: uint32, level: bv32, fn: string, bytes: seq<bv8>, j: nat)
    requires Passes(level, mask) && j < |Chunks(bytes)|
    ensures var w := HexDataWrites(cfg, mask, now, level, fn, Some(bytes));
      && 2 + 3 * j < |w| && HEX_DUMP_ASCII_OFFSET < |w[2 + 3 * j]|
      && w[2 + 3 * j][HEX_DUMP_ASCII_SEPARATOR] == '|'
      && Unescape(w[2 + 3 * j][HEX_DUMP_ASCII_OFFSET..]) == Rendered(bytes[16 * j..Min(16 * j + 16, |bytes|)])
  {
    HexDumpWrites(cfg, mask, now, level, fn, bytes);
    ChunkAt(bytes, j);
    var chunk := Chunks(bytes)[j];
    HexDumpLineLayout(chunk);
    AsciiFieldUnescapes(chunk);
  }

  /** Three bytes dumped at FLASH with the default switches: the report, then one line through LogPrintf. */
  /** With the default switches every FLASH line starts "LOG:100: ". */
  lemma FlashPrefix(mask: bv32, now: uint32, fn: string)
    requires Passes(LOG_LEVEL_FLASH, mask)
    ensures Bounded(Prefix(DEFAULT_CONFIG, now, LOG_LEVEL_FLASH, fn)) == "LOG:100: "
  {
    DefaultPrefix(mask, now, LOG_LEVEL_FLASH, fn, "");
    assert LOG_LEVEL_FLASH as nat == 256;
    assert Hex(256) == "100";
  }

  lemma FlashDumpSample(mask: bv32, now: uint32, fn: string)
    requires Passes(LOG_LEVEL_FLASH, mask)
    ensures HexDataWrites(DEFAULT_CONFIG, mask, now, LOG_LEVEL_FLASH, fn, Some([0x41, 0x25, 0x07]))
      == ["ASSERT!!! 1\n", "LOG:100: ", "41 25 07 " + Spaces(39) + "|A%%.", "\n"]
  {
    var bytes: seq<bv8> := [0x41, 0x25, 0x07];
    var line := "41 25 07 " + Spaces(39) + "|A%%.";
    SampleLine();
    OneChunkOneLine(bytes);
    DumpLineFits(bytes);
    assert HexDumpLines(bytes) == [line];
    assert Bounded(line) == line;
    FlashPrefix(mask, now, fn);
    var head := Bounded(Prefix(DEFAULT_CONFIG, now, LOG_LEVEL_FLASH, fn));
    assert PrintfWrites(DEFAULT_CONFIG, mask, now, LOG_LEVEL_FLASH, fn, line) == [head, line, "\n"];
    assert [line][..0] == [];
    assert LineWrites(DEFAULT_CONFIG, mask, now, LOG_LEVEL_FLASH, fn, [line]) == [head, line, "\n"];
    AssertReportOfOne();
  }

  /** A masked-out dump writes only the assertion report; a NULL buffer, nothing at all. */
  lemma HexDataMasked(cfg: Config, mask: bv32, now: uint32, level: bv32, fn: string, buffer: Option<seq<bv8>>)
    ensures !Passes(level, mask) ==> HexDataWrites(cfg, mask, now, level, fn, buffer) == AssertWrites(buffer.Some?, 1)
    ensures HexDataWrites(cfg, mask, now, level, fn, None) == []
  {
    assert Chunks([]) == [];
  }

  /** An empty buffer that passes writes the assertion report and no line. */
  lemma EmptyBufferReportsOnly(cfg: Config, mask: bv32, now: uint32, level: bv32, fn: string)
    ensures HexDataWrites(cfg, mask, now, level, fn, Some([])) == ["ASSERT!!! 1\n"]
  {
    AssertReportOfOne();
    assert Chunks([]) == [];
  }

  // The macros.

  /** A release build writes nothing for DEBUG, LVL and LVL_HEX, whatever the mask. */
  lemma ReleaseIsSilentForVerbose(cfg: Config, mask: bv32, now: uint32, fn: string, call: MacroCall)
    requires !cfg.debugBuild && IsVerbose(call)
    ensures MacroWrites(cfg, mask, now, fn, call) == []
  {
    ReleaseDropsVerbose(call);
  }

  /** With the default mask a debug build prints LOG_DEBUG messages and drops FLASH-level ones but for the hex dump's report. */
  lemma DefaultMaskInDebugBuild(cfg: Config, now: uint32, fn: string, message: string, buffer: seq<bv8>)
    requires cfg.debugBuild
    ensures |MacroWrites(cfg, LOG_LEVEL_DEFAULT, now, fn, LogDebug(message))| == 3
    ensures MacroWrites(cfg, LOG_LEVEL_DEFAULT, now, fn, LogLvl(LOG_LEVEL_FLASH, message)) == []
    ensures MacroWrites(cfg, LOG_LEVEL_DEFAULT, now, fn, LogLvlHex(LOG_LEVEL_FLASH, Some(buffer))) == ["ASSERT!!! 1\n"]
  {
    DefaultMask();
    AssertReportOfOne();
  }
}
