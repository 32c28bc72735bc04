/**
 * GiST build: the "buffering" reloption, the fill factor and the per-tuple
 * mode state machine that decides when the build switches from plain
 * inserts to the buffering algorithm.
 */
module GistMode {
  import opened Wrappers

  const BLCKSZ: int := 8192
  const GIST_DEFAULT_FILLFACTOR: int := 90
  /** Every this many tuples AUTO mode compares the index size with the cache. */
  const BUFFERING_MODE_SWITCH_CHECK_STEP: int := 256
  /** STATS mode switches after this many tuples; ACTIVE mode re-tunes every this many. */
  const BUFFERING_MODE_TUPLE_SIZE_STATS_TARGET: int := 4096

  datatype Mode =
    | Disabled  // regular inserts, never switching
    | Auto      // regular inserts, switching once the index outgrows the cache
    | Stats     // gathering tuple-size statistics before switching
    | Active    // buffering build

  /** The reloptions of a GiST index, when it has any. */
  datatype Options = Options(buffering: string, fillfactor: int)

  /** The mode gistbuild starts in: "on" gathers statistics first, "off" disables buffering, anything else is AUTO. */
  function InitialMode(opts: Option<Options>): Mode {
    if opts.None? then Auto
    else if opts.value.buffering == "on" then Stats
    else if opts.value.buffering == "off" then Disabled
    else Auto
  }

  function FillFactor(opts: Option<Options>): int {
    if opts.None? then GIST_DEFAULT_FILLFACTOR else opts.value.fillfactor
  }

  /** The free space to leave on each page: BLCKSZ * (100 - fillfactor) / 100. */
  function FreeSpace(fillfactor: int): (f: int)
    requires 0 <= fillfactor <= 100
    ensures 0 <= f <= BLCKSZ
    ensures f * 100 <= BLCKSZ * (100 - fillfactor) < (f + 1) * 100
  {
    BLCKSZ * (100 - fillfactor) / 100
  }

  /** A bigger fill factor never leaves more free space. */
  lemma FreeSpaceAntitone(ff1: int, ff2: int)
    requires 0 <= ff1 <= ff2 <= 100
    ensures FreeSpace(ff2) <= FreeSpace(ff1)
  {
  }

  /** gistValidateBufferingOption: NULL or anything but "on", "off" and "auto" is an error. */
  function ValidateBufferingOption(value: Option<string>): (r: Result<(), string>)
    ensures r.Ok? <==> value.Some? && value.value in {"on", "off", "auto"}
  {
    if value.None? || (value.value != "on" && value.value != "off" && value.value != "auto")
    then Err("invalid value for \"buffering\" option")
    else Ok(())
  }

  /** The option value that selects a starting mode; ACTIVE is never a starting mode. */
  function ModeName(m: Mode): Option<string> {
    match m
    case Stats => Some("on")
    case Disabled => Some("off")
    case Auto => Some("auto")
    case Active => None
  }

  /**
   * Every value the validator accepts selects a distinct mode, and the value
   * can be read back from the mode; so gistbuild never starts in ACTIVE.
   */
  lemma AcceptedOptionRoundTrip(value: string, fillfactor: int)
    requires ValidateBufferingOption(Some(value)).Ok?
    ensures ModeName(InitialMode(Some(Options(value, fillfactor)))) == Some(value)
  {
  }

  /** Without options, or with any value the validator rejects, the build starts in AUTO. */
  lemma UnvalidatedOptionIsAuto(opts: Option<Options>)
    requires opts.None? || ValidateBufferingOption(Some(opts.value.buffering)).Err?
    ensures InitialMode(opts) == Auto
  {
  }

  lemma StartIsNeverActive(opts: Option<Options>)
    ensures InitialMode(opts) != Active
  {
  }

  /**
   * gistBuildCallback's switch test, made after indtuples was incremented:
   * AUTO tries every 256 tuples once the cache is smaller than the index,
   * STATS once 4096 tuples were seen.
   */
  predicate TriesSwitch(mode: Mode, indtuples: int, effectiveCacheSize: int, nblocks: int) {
    || (mode == Auto && indtuples % BUFFERING_MODE_SWITCH_CHECK_STEP == 0 && effectiveCacheSize < nblocks)
    || (mode == Stats && indtuples >= BUFFERING_MODE_TUPLE_SIZE_STATS_TARGET)
  }

  /** ACTIVE mode re-tunes pagesPerBuffer at every multiple of 4096 tuples. */
  predicate RecomputesPagesPerBuffer(mode: Mode, indtuples: int) {
    mode == Active && indtuples % BUFFERING_MODE_TUPLE_SIZE_STATS_TARGET == 0
  }

  /** gistInitBuffering's verdict: a positive levelStep activates buffering, anything else disables it. */
  function ModeAfterInit(levelStep: int): Mode {
    if levelStep <= 0 then Disabled else Active
  }

  /** The mode after one callback, given the levelStep the tuner would choose. */
  function NextMode(mode: Mode, indtuples: int, effectiveCacheSize: int, nblocks: int, levelStep: int): Mode {
    if TriesSwitch(mode, indtuples, effectiveCacheSize, nblocks) then ModeAfterInit(levelStep) else mode
  }

  /** DISABLED and ACTIVE are never left. */
  lemma TerminalModes(mode: Mode, indtuples: int, cache: int, nblocks: int, levelStep: int)
    requires mode == Disabled || mode == Active
    ensures NextMode(mode, indtuples, cache, nblocks, levelStep) == mode
  {
  }

  /** AUTO moves only at a multiple of 256 tuples with the cache smaller than the index, and then it leaves AUTO for good. */
  lemma AutoSwitch(indtuples: int, cache: int, nblocks: int, levelStep: int)
    ensures var m := NextMode(Auto, indtuples, cache, nblocks, levelStep);
      (m != Auto <==> indtuples % 256 == 0 && cache < nblocks)
      && (m != Auto ==> m == ModeAfterInit(levelStep))
  {
  }

  /** STATS moves exactly once 4096 tuples were indexed. */
  lemma StatsSwitch(indtuples: int, cache: int, nblocks: int, levelStep: int)
    ensures var m := NextMode(Stats, indtuples, cache, nblocks, levelStep);
      (m != Stats <==> indtuples >= 4096)
      && (m != Stats ==> m == ModeAfterInit(levelStep))
  {
  }

  /** A callback only ever moves the mode forward: AUTO/STATS to DISABLED or ACTIVE. */
  lemma ModeOrder(mode: Mode, indtuples: int, cache: int, nblocks: int, levelStep: int)
    ensures var m := NextMode(mode, indtuples, cache, nblocks, levelStep);
      m == mode || ((mode == Auto || mode == Stats) && (m == Disabled || m == Active))
  {
  }
}
