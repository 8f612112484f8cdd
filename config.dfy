/** The per-run search parameters (src/config.rs). */
module Config {
  import opened Wrappers

  /** Rust's `usize` on a 64-bit target. */
  type Usize = n: nat | n < 0x1_0000_0000_0000_0000

  /**
   * The parameters of one search. A datatype value never changes once built,
   * which is what the source's struct without mutating methods amounts to.
   */
  datatype SearchConfig = SearchConfig(
    pattern: string,
    root: string,
    hideHidden: bool,
    caseSensitive: bool,
    threadCount: Usize,
    keepDirs: bool,
    keepSysPaths: bool,
    maxDepth: Option<Usize>,
    useGlob: bool,
    fullPath: bool)

  /**
   * `SearchConfig::new`: stores every argument as given, with no validation
   * or clamping (a thread count of 0 and an absent depth are kept).
   */
  function New(
    pattern: string,
    root: string,
    hideHidden: bool,
    caseSensitive: bool,
    threadCount: Usize,
    keepDirs: bool,
    keepSysPaths: bool,
    maxDepth: Option<Usize>,
    useGlob: bool,
    fullPath: bool): (config: SearchConfig)
    ensures config.pattern == pattern && config.root == root
    ensures config.hideHidden == hideHidden && config.caseSensitive == caseSensitive
    ensures config.keepDirs == keepDirs && config.keepSysPaths == keepSysPaths
    ensures config.useGlob == useGlob && config.fullPath == fullPath
    ensures config.threadCount == threadCount
    ensures config.maxDepth == maxDepth
  {
    SearchConfig(pattern, root, hideHidden, caseSensitive, threadCount,
                 keepDirs, keepSysPaths, maxDepth, useGlob, fullPath)
  }

  /** Every configuration is the one `New` builds from its own fields, so `New` loses nothing. */
  lemma NewRebuildsEveryConfig(config: SearchConfig)
    ensures New(config.pattern, config.root, config.hideHidden, config.caseSensitive,
                config.threadCount, config.keepDirs, config.keepSysPaths, config.maxDepth,
                config.useGlob, config.fullPath) == config
  {
  }
}
