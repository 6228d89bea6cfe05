/**
 * How the logging macros of the interface reach the two entry points: the
 * common macros always call LogPrintf at their own level, and the verbose
 * ones exist only in debug builds.
 */
module LogMacros {
  import opened Wrappers
  import opened LogLevels

  /** A use of one of the macros, with the arguments it is given. */
  datatype MacroCall =
    | LogError(message: string)
    | LogWarning(message: string)
    | LogInfo(message: string)
    | LogDebug(message: string)
    | LogLvl(level: bv32, message: string)
    | LogLvlHex(level: bv32, buffer: Option<seq<bv8>>)

  /** The entry point a macro expands to. The caller's name is passed on beside it. */
  datatype EntryCall =
    | PrintfCall(level: bv32, message: string)
    | HexDataCall(level: bv32, buffer: Option<seq<bv8>>)

  predicate IsVerbose(call: MacroCall) {
    call.LogDebug? || call.LogLvl? || call.LogLvlHex?
  }

  /** The expansion of a macro; None where the macro expands to nothing. */
  function Expand(debugBuild: bool, call: MacroCall): (e: Option<EntryCall>)
  {
    match call
    case LogError(msg) => Some(PrintfCall(LOG_LEVEL_ERROR, msg))
    case LogWarning(msg) => Some(PrintfCall(LOG_LEVEL_WARNING, msg))
    case LogInfo(msg) => Some(PrintfCall(LOG_LEVEL_INFO, msg))
    case LogDebug(msg) => if debugBuild then Some(PrintfCall(LOG_LEVEL_DEBUG, msg)) else None
    case LogLvl(lvl, msg) => if debugBuild then Some(PrintfCall(lvl, msg)) else None
    case LogLvlHex(lvl, buf) => if debugBuild then Some(HexDataCall(lvl, buf)) else None
  }

  /** ERROR, WARNING and INFO always reach LogPrintf, each with its own fixed level. */
  lemma CommonMacrosAlwaysPrint(debugBuild: bool, call: MacroCall)
    requires !IsVerbose(call)
    ensures Expand(debugBuild, call) == Some(PrintfCall(
      if call.LogError? then LOG_LEVEL_ERROR else if call.LogWarning? then LOG_LEVEL_WARNING else LOG_LEVEL_INFO,
      call.message))
  {
  }

  /** In a release build DEBUG, LVL and LVL_HEX expand to nothing. */
  lemma ReleaseDropsVerbose(call: MacroCall)
    requires IsVerbose(call)
    ensures Expand(false, call) == None
  {
  }

  /** In a debug build every macro reaches an entry point, LVL_HEX the hex dump and the others LogPrintf. */
  lemma DebugRoutesEverything(call: MacroCall)
    ensures Expand(true, call).Some?
    ensures Expand(true, call).value.HexDataCall? <==> call.LogLvlHex?
  {
  }
}
