/**
 * The logger itself: the active mask, the shared log buffer and the two
 * entry points, LogPrintf and LogHexData, with the accessors for the mask.
 * Everything the logger prints is recorded, write by write, in `output`.
 */
module Logs {
  import opened Wrappers
  import opened LogLevels
  import opened LogMacros
  import opened CFormat
  import opened HexDump
  import opened LogOutput

  /** sprintf(&buf[d], "%02X ", b): four characters stored, three counted. */
  method SprintfHex(buf: array<char>, d: int, b: bv8) returns (count: int)
    requires 0 <= d && d + 4 <= buf.Length
    modifies buf
    ensures buf[..] == PutHex(old(buf[..]), d, b) && count == 3
  {
    var hex := Hex2(b);
    buf[d] := hex[0];
    buf[d + 1] := hex[1];
    buf[d + 2] := ' ';
    buf[d + 3] := NUL;
    count := 3;
  }

  /** memset(buf, ' ', sizeof(buf)). */
  method MemsetSpaces(buf: array<char>)
    modifies buf
    ensures forall p | 0 <= p < buf.Length :: buf[p] == ' '
  {
    forall p | 0 <= p < buf.Length {
      buf[p] := ' ';
    }
  }

  /** Byte n of the buffer, formatted into outBuf after the bytes start..n-1 of its line. */
  method AddByte(outBuf: array<char>, bytes: seq<bv8>, ghost start: nat, n: nat, a: int, d: int) returns (a': int, d': int)
    requires start <= n < |bytes| && n - start < BYTES_PER_LINE
    requires PartialLine(outBuf[..], bytes[start..n], a, d)
    modifies outBuf
    ensures PartialLine(outBuf[..], bytes[start..n + 1], a', d')
  {
    a', d' := FormatByte(outBuf, bytes[start..n], a, d, bytes[n]);
    SliceSnoc(bytes, start, n + 1);
  }

  /**
   * One byte of LogHexData's loop: its hex column by sprintf at d, and its
   * ASCII cell at 49 + a ('%' twice, a printable byte itself, '.' otherwise).
   */
  method FormatByte(outBuf: array<char>, ghost chunk: seq<bv8>, a: int, d: int, b: bv8) returns (a': int, d': int)
    requires PartialLine(outBuf[..], chunk, a, d) && |chunk| < BYTES_PER_LINE
    modifies outBuf
    ensures PartialLine(outBuf[..], chunk + [b], a', d')
  {
    PartialLineExtends(outBuf[..], chunk, a, d, b);
    var count := SprintfHex(outBuf, d, b);
    ghost var hexDone := outBuf[..];
    a' := a;
    if b == PERCENT {
      outBuf[HEX_DUMP_ASCII_OFFSET + a'] := '%';
      a' := a' + 1;
      outBuf[HEX_DUMP_ASCII_OFFSET + a'] := '%';
    } else if IsPrint(b) {
      outBuf[HEX_DUMP_ASCII_OFFSET + a'] := (b as int) as char;
    } else {
      outBuf[HEX_DUMP_ASCII_OFFSET + a'] := '.';
    }
    assert outBuf[..] == PutAscii(hexDone, HEX_DUMP_ASCII_OFFSET + a, b);
    a' := a' + 1;
    d' := d + count;
  }

  /** The end of a line: a space over sprintf's NUL, the '|', and the NUL ending the ASCII field. */
  method EndLine(outBuf: array<char>, ghost chunk: seq<bv8>, a: int, d: int)
    requires PartialLine(outBuf[..], chunk, a, d) && 1 <= |chunk|
    modifies outBuf
    ensures CString(outBuf[..]) == HexDumpLine(chunk)
  {
    ghost var line := outBuf[..];
    ClosedLineText(line, chunk, a, d);
    outBuf[d] := ' ';
    outBuf[HEX_DUMP_ASCII_SEPARATOR] := '|';
    outBuf[HEX_DUMP_ASCII_OFFSET + a] := NUL;
    assert outBuf[..] == CloseLine(line, d, a);
  }

  /** Writes appended one group after another: the output so far, then `step`, is `lead` then `done + step`. */
  lemma ConcatStep(lead: seq<string>, before: seq<string>, after: seq<string>, done: seq<string>, step: seq<string>, next: seq<string>)
    requires before == lead + done && after == before + step && next == done + step
    ensures after == lead + next
  {
  }

  class Logger {
    /** The compile-time switches the logger is built with. */
    const cfg: Config
    /** The buffer snprintf and vsnprintf format into. */
    const logBuffer: array<char>
    /** The enabled levels. */
    var activeLogLevels: bv32
    /** What GetRunningTime returns: milliseconds since the start time, kept by the environment. */
    var runningTime: uint32
    /** Everything written to standard output, one element per write. */
    var output: seq<string>

    ghost predicate Valid()
      reads this
    {
      logBuffer.Length == LOG_BUFFER_LENGTH
    }

    /** The logger as the program starts: the default mask, a zeroed buffer, nothing written. */
    constructor (cfg: Config)
      ensures Valid() && fresh(logBuffer) && this.cfg == cfg
      ensures activeLogLevels == LOG_LEVEL_DEFAULT && runningTime == 0 && output == []
    {
      this.cfg := cfg;
      logBuffer := new char[LOG_BUFFER_LENGTH](_ => NUL);
      activeLogLevels := LOG_LEVEL_DEFAULT;
      runningTime := 0;
      output := [];
    }

    /** Time passes: the running time the next log line reads. */
    method AdvanceClock(now: uint32)
      modifies this`runningTime
      ensures runningTime == now
    {
      runningTime := now;
    }

    /** WriteLog: printf("%s", text), which prints the C string in `text`. */
    method WriteLog(text: string)
      modifies this`output
      ensures output == old(output) + [CString(text)]
    {
      output := output + [CString(text)];
    }

    /** snprintf(logBuffer, sizeof(logBuffer), ...) of a formatted text. */
    method Snprintf(text: string)
      requires Valid()
      modifies logBuffer
      ensures CString(logBuffer[..]) == Bounded(text)
    {
      var n := if |text| < LOG_BUFFER_LENGTH then |text| else LOG_BUFFER_LENGTH - 1;
      forall i | 0 <= i < n {
        logBuffer[i] := text[i];
      }
      logBuffer[n] := NUL;
      assert logBuffer[..n] == Truncate(text, LOG_BUFFER_LENGTH);
      CStringTerminated(logBuffer[..], n);
      assert logBuffer[..][..n] == logBuffer[..n];
    }

    /**
     * LogPrintf(level, fn, format, ...), with `message` the text the format
     * and its arguments produce: the prefix, the message and a newline, each
     * through the log buffer, when the level passes the mask.
     */
    method LogPrintf(level: bv32, fn: string, message: string)
      requires Valid()
      modifies this`output, logBuffer
      ensures output == old(output) + PrintfWrites(cfg, activeLogLevels, runningTime, level, fn, message)
    {
      if level & activeLogLevels != 0 {
        var currentTime := runningTime;
        Snprintf(Prefix(cfg, currentTime, level, fn));
        WriteLog(logBuffer[..]);
        Snprintf(message);
        WriteLog(logBuffer[..]);
        CStringOfPlainText("\n");
        WriteLog("\n");
      }
    }

    /** CdspOsAssert(condition, arg): prints "ASSERT!!! <arg>" when the condition holds. */
    method CdspOsAssert(condition: bool, arg: uint32)
      modifies this`output
      ensures output == old(output) + AssertWrites(condition, arg)
    {
      if condition {
        output := output + ["ASSERT!!! " + SignedDecimal(arg) + "\n"];
      }
    }

    /**
     * LogHexData(level, fn, buffer, size), with the buffer's bytes (none for
     * NULL): the assertion hook, then, when the level passes, one LogPrintf
     * per sixteen bytes of the line built in outBuf.
     */
    method LogHexData(level: bv32, fn: string, buffer: Option<seq<bv8>>)
      requires Valid()
      modifies this`output, logBuffer
      ensures output == old(output) + HexDataWrites(cfg, activeLogLevels, runningTime, level, fn, buffer)
    {
      var bytes := BytesOf(buffer);

      CdspOsAssert(buffer.Some?, 1);
      ghost var reported := output;

      if level & activeLogLevels != 0 {
        PrintDump(level, fn, bytes);
        ConcatStep(old(output), reported, output, AssertWrites(buffer.Some?, 1),
          LineWrites(cfg, activeLogLevels, runningTime, level, fn, HexDumpLines(bytes)),
          HexDataWrites(cfg, activeLogLevels, runningTime, level, fn, buffer));
      } else {
        ConcatStep(old(output), reported, output, AssertWrites(buffer.Some?, 1), [],
          HexDataWrites(cfg, activeLogLevels, runningTime, level, fn, buffer));
      }
    }

    /**
     * The loop of LogHexData once the level has passed: each byte goes into
     * outBuf, and every sixteenth byte, and the last, ends a line that is
     * printed and cleared.
     */
    method PrintDump(level: bv32, fn: string, bytes: seq<bv8>)
      requires Valid()
      modifies this`output, logBuffer
      ensures output == old(output) + LineWrites(cfg, activeLogLevels, runningTime, level, fn, HexDumpLines(bytes))
    {
      var bufferSize := |bytes|;
      var outBuf := new char[HEX_DUMP_LINE_LENGTH];
      var a, d := 0, 0;
      MemsetSpaces(outBuf);
      BlankLine(outBuf[..]);
      assert bytes[..0] == [];
      DumpBegins(output, level, fn, bytes);
      ghost var start := 0;
      var n := 0;
      while n < bufferSize
        invariant 0 <= start <= n <= bufferSize && n - start < BYTES_PER_LINE
        invariant n < bufferSize ==> start % BYTES_PER_LINE == 0
        invariant n == bufferSize ==> start == n
        invariant PartialLine(outBuf[..], bytes[start..n], a, d)
        invariant Dumped(old(output), level, fn, bytes, start)
        decreases bufferSize - n
      {
        start, a, d := PutByte(level, fn, outBuf, bytes, old(output), start, n, a, d);
        n := n + 1;
      }
      DumpEnds(old(output), level, fn, bytes);
    }

    lemma DumpBegins(lead: seq<string>, level: bv32, fn: string, bytes: seq<bv8>)
      requires output == lead
      ensures Dumped(lead, level, fn, bytes, 0)
    {
      assert bytes[..0] == [];
    }

    lemma DumpEnds(lead: seq<string>, level: bv32, fn: string, bytes: seq<bv8>)
      requires Dumped(lead, level, fn, bytes, |bytes|)
      ensures output == lead + LineWrites(cfg, activeLogLevels, runningTime, level, fn, HexDumpLines(bytes))
    {
      assert bytes[..|bytes|] == bytes;
    }

    /** The output holds `lead`, then the dump lines of the first `start` bytes, each through LogPrintf. */
    ghost predicate Dumped(lead: seq<string>, level: bv32, fn: string, bytes: seq<bv8>, start: nat)
      reads this
      requires start <= |bytes|
    {
      output == lead + LineWrites(cfg, activeLogLevels, runningTime, level, fn, HexDumpLines(bytes[..start]))
    }

    /**
     * One turn of LogHexData's loop: byte n goes into outBuf, and the line is
     * printed when it reaches sixteen bytes or the buffer ends.
     */
    method PutByte(level: bv32, fn: string, outBuf: array<char>, bytes: seq<bv8>, ghost lead: seq<string>, ghost start: nat, n: nat, a: int, d: int)
      returns (ghost start': nat, a': int, d': int)
      requires Valid() && outBuf != logBuffer
      requires start % BYTES_PER_LINE == 0 && start <= n < |bytes| && n - start < BYTES_PER_LINE
      requires PartialLine(outBuf[..], bytes[start..n], a, d)
      requires Dumped(lead, level, fn, bytes, start)
      modifies this`output, logBuffer, outBuf
      ensures start' <= n + 1 && n + 1 - start' < BYTES_PER_LINE
      ensures n + 1 < |bytes| ==> start' % BYTES_PER_LINE == 0
      ensures n + 1 == |bytes| ==> start' == n + 1
      ensures PartialLine(outBuf[..], bytes[start'..n + 1], a', d')
      ensures Dumped(lead, level, fn, bytes, start')
    {
      a', d' := AddByte(outBuf, bytes, start, n, a, d);
      start', a', d' := EndOfByte(level, fn, outBuf, bytes, lead, start, n + 1, a', d');
    }

    /** After byte n-1 went into outBuf: the line is printed when it holds sixteen bytes or the buffer has ended. */
    method EndOfByte(level: bv32, fn: string, outBuf: array<char>, bytes: seq<bv8>, ghost lead: seq<string>, ghost start: nat, n: nat, a: int, d: int)
      returns (ghost start': nat, a': int, d': int)
      requires Valid() && outBuf != logBuffer
      requires start % BYTES_PER_LINE == 0 && start < n <= |bytes| && n - start <= BYTES_PER_LINE
      requires PartialLine(outBuf[..], bytes[start..n], a, d)
      requires Dumped(lead, level, fn, bytes, start)
      modifies this`output, logBuffer, outBuf
      ensures start' <= n && n - start' < BYTES_PER_LINE
      ensures n < |bytes| ==> start' % BYTES_PER_LINE == 0
      ensures n == |bytes| ==> start' == n
      ensures PartialLine(outBuf[..], bytes[start'..n], a', d')
      ensures Dumped(lead, level, fn, bytes, start')
    {
      if n % BYTES_PER_LINE == 0 || n >= |bytes| {
        FlushLine(level, fn, outBuf, bytes, lead, start, n, a, d);
        a', d', start' := 0, 0, n;
      } else {
        LineNotFull(start, n);
        a', d', start' := a, d, start;
      }
    }

    /** The end of a line in LogHexData's loop: the bytes start..n-1 are printed as the next line of the dump. */
    method FlushLine(level: bv32, fn: string, outBuf: array<char>, bytes: seq<bv8>, ghost lead: seq<string>, ghost start: nat, n: nat, a: int, d: int)
      requires Valid() && outBuf != logBuffer
      requires start % BYTES_PER_LINE == 0 && start < n <= |bytes| && n - start <= BYTES_PER_LINE
      requires PartialLine(outBuf[..], bytes[start..n], a, d)
      requires Dumped(lead, level, fn, bytes, start)
      modifies this`output, logBuffer, outBuf
      ensures Dumped(lead, level, fn, bytes, n)
      ensures PartialLine(outBuf[..], bytes[n..n], 0, 0)
    {
      ghost var before := output;
      PrintLine(level, fn, outBuf, bytes[start..n], a, d);
      DumpProgress(cfg, activeLogLevels, runningTime, level, fn, bytes, start, n);
      ConcatStep(lead, before, output,
        LineWrites(cfg, activeLogLevels, runningTime, level, fn, HexDumpLines(bytes[..start])),
        PrintfWrites(cfg, activeLogLevels, runningTime, level, fn, HexDumpLine(bytes[start..n])),
        LineWrites(cfg, activeLogLevels, runningTime, level, fn, HexDumpLines(bytes[..n])));
      assert bytes[n..n] == [];
    }

    /** A finished line of LogHexData: closed, printed with LogPrintf(level, fn, "%s", outBuf), and the buffer reset. */
    method PrintLine(level: bv32, fn: string, outBuf: array<char>, ghost chunk: seq<bv8>, a: int, d: int)
      requires Valid() && outBuf != logBuffer
      requires PartialLine(outBuf[..], chunk, a, d) && 1 <= |chunk|
      modifies this`output, logBuffer, outBuf
      ensures output == old(output) + PrintfWrites(cfg, activeLogLevels, runningTime, level, fn, HexDumpLine(chunk))
      ensures PartialLine(outBuf[..], [], 0, 0)
    {
      EndLine(outBuf, chunk, a, d);
      LogPrintf(level, fn, CString(outBuf[..]));
      MemsetSpaces(outBuf);
      BlankLine(outBuf[..]);
    }

    /** LogEnableLevels: in a debug build LOG_DEBUG reports the new mask under the old one; then the mask is replaced. */
    method LogEnableLevels(levels: bv32)
      requires Valid()
      modifies this`output, this`activeLogLevels, logBuffer
      ensures activeLogLevels == levels
      ensures output == old(output)
        + MacroWrites(cfg, old(activeLogLevels), runningTime, "LogEnableLevels", LogDebug("Set bitmap: 0x" + Hex8(levels)))
    {
      Emit("LogEnableLevels", LogDebug("Set bitmap: 0x" + Hex8(levels)));
      activeLogLevels := levels;
    }

    /** LogGetLevels: in a debug build LOG_DEBUG reports the mask; the mask is returned unchanged. */
    method LogGetLevels() returns (levels: bv32)
      requires Valid()
      modifies this`output, logBuffer
      ensures levels == activeLogLevels
      ensures output == old(output)
        + MacroWrites(cfg, activeLogLevels, runningTime, "LogGetLevels", LogDebug("Active bitmap: 0x" + Hex8(activeLogLevels)))
    {
      Emit("LogGetLevels", LogDebug("Active bitmap: 0x" + Hex8(activeLogLevels)));
      levels := activeLogLevels;
    }

    /** A macro used in the function named fn: the entry point it expands to, if any. */
    method Emit(fn: string, call: MacroCall)
      requires Valid()
      modifies this`output, logBuffer
      ensures output == old(output) + MacroWrites(cfg, activeLogLevels, runningTime, fn, call)
    {
      match Expand(cfg.debugBuild, call)
      case None =>
      case Some(PrintfCall(level, message)) => LogPrintf(level, fn, message);
      case Some(HexDataCall(level, buffer)) => LogHexData(level, fn, buffer);
    }
  }
}
