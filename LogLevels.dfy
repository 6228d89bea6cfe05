/**
 * The log levels of the logger's interface: single-bit flags combined into a
 * 32-bit mask, the default mask, the filter every entry point applies, and the
 * compile-time switches that shape a log line.
 */
module LogLevels {

  const LOG_LEVEL_NONE: bv32 := 0x0000_0000
  const LOG_LEVEL_ERROR: bv32 := 0x0000_0001
  const LOG_LEVEL_WARNING: bv32 := 0x0000_0002
  const LOG_LEVEL_INFO: bv32 := 0x0000_0004
  const LOG_LEVEL_DEBUG: bv32 := 0x0000_0008
  /** Hex dumps of flash reads and writes. */
  const LOG_LEVEL_FLASH: bv32 := 0x0000_0100
  const LOG_LEVEL_MAX: bv32 := 0xffff_ffff

  /** The mask the logger starts with. */
  const LOG_LEVEL_DEFAULT: bv32 := LOG_LEVEL_ERROR | LOG_LEVEL_WARNING | LOG_LEVEL_INFO | LOG_LEVEL_DEBUG

  /** The test every entry point makes: the message's level shares a bit with the mask. */
  predicate Passes(level: bv32, mask: bv32) {
    level & mask != 0
  }

  predicate IsSingleBit(x: bv32) {
    x != 0 && x & (x - 1) == 0
  }

  /**
   * The compile-time switches: LOG_TIMESTAMP, LOG_FUNCTION_NAME and
   * DEBUG_BUILD, each either 1 (true) or anything else (false).
   */
  datatype Config = Config(timestamp: bool, functionName: bool, debugBuild: bool)

  /** Neither switch is defined by default, and DEBUG_BUILD is not defined either. */
  const DEFAULT_CONFIG := Config(false, false, false)

  lemma NamedLevelsAreDistinctBits()
    ensures IsSingleBit(LOG_LEVEL_ERROR) && IsSingleBit(LOG_LEVEL_WARNING) && IsSingleBit(LOG_LEVEL_INFO)
    ensures IsSingleBit(LOG_LEVEL_DEBUG) && IsSingleBit(LOG_LEVEL_FLASH)
    ensures var levels := [LOG_LEVEL_ERROR, LOG_LEVEL_WARNING, LOG_LEVEL_INFO, LOG_LEVEL_DEBUG, LOG_LEVEL_FLASH];
      forall i, j | 0 <= i < j < |levels| :: levels[i] & levels[j] == 0
  {
  }

  /** A message at NONE never passes, whatever the mask. */
  lemma NoneNeverPasses(mask: bv32)
    ensures !Passes(LOG_LEVEL_NONE, mask)
  {
  }

  /** The default mask is 0xF: it lets ERROR, WARNING, INFO and DEBUG through and holds back FLASH. */
  lemma DefaultMask()
    ensures LOG_LEVEL_DEFAULT == 0xF
    ensures Passes(LOG_LEVEL_ERROR, LOG_LEVEL_DEFAULT) && Passes(LOG_LEVEL_WARNING, LOG_LEVEL_DEFAULT)
    ensures Passes(LOG_LEVEL_INFO, LOG_LEVEL_DEFAULT) && Passes(LOG_LEVEL_DEBUG, LOG_LEVEL_DEFAULT)
    ensures !Passes(LOG_LEVEL_FLASH, LOG_LEVEL_DEFAULT)
  {
  }

  /** MAX as a level passes any nonzero mask, and MAX as a mask passes any nonzero level. */
  lemma MaxPassesEverything(x: bv32)
    ensures Passes(LOG_LEVEL_MAX, x) <==> x != 0
    ensures Passes(x, LOG_LEVEL_MAX) <==> x != 0
  {
  }

  /** A single-bit level passes exactly the masks that have its bit set. */
  lemma SingleBitFilter(level: bv32, mask: bv32)
    requires IsSingleBit(level)
    ensures Passes(level, mask) <==> mask & level == level
  {
  }
}
