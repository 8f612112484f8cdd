/**
 * The fixed data the search engine and its front end rely on
 * (src/constants.rs). Values that the source selects at compile time with
 * `cfg!(unix)` or `#[cfg(windows)]` are functions of the target platform here.
 */
module Constants {

  /** The platform the program is compiled for; every non-unix target takes the `else` branch. */
  datatype Platform = Unix | Windows

  /** A raw byte (`u8`). */
  newtype Byte = b: int | 0 <= b < 0x100

  /** No element of `s` occurs twice. */
  predicate Distinct<T(==)>(s: seq<T>) {
    forall i, j :: 0 <= i < j < |s| ==> s[i] != s[j]
  }

  /** The pattern meaning "match everything"; also the name of the current directory. */
  const DOT_PATTERN: string := "."

  /** The root searched when no directory is given. */
  function StartPrefix(p: Platform): (prefix: string)
    ensures |prefix| > 0 && prefix[|prefix| - 1] == '/'
    ensures p.Unix? <==> prefix == "/"
    ensures p.Windows? ==> prefix == "C:/"
  {
    if p.Unix? then "/" else "C:/"
  }

  /** The system directories skipped unless the user asks to keep them. */
  function Avoid(p: Platform): (entries: seq<string>)
    ensures |entries| == if p.Unix? then 6 else 4
    ensures Distinct(entries)
    ensures p.Unix? ==> forall i :: 0 <= i < |entries| ==>
      1 < |entries[i]| && entries[i][..1] == StartPrefix(p) && '/' !in entries[i][1..]
    ensures p.Windows? ==> forall i :: 0 <= i < |entries| ==>
      3 < |entries[i]| && entries[i][..3] == "C:\\" && '/' !in entries[i]
  {
    if p.Unix? then ["/proc", "/sys", "/tmp", "/run", "/dev", "/sbin"]
    else ["C:\\Windows\\System32", "C:\\Windows\\SysWOW64", "C:\\Windows\\Temp", "C:\\$Recycle.Bin"]
  }

  /** The depth up to which entries are compared against the avoid list. */
  function DepthCheck(p: Platform): (depth: nat)
    ensures p.Unix? ==> depth == 1
    ensures p.Windows? ==> depth == 3
  {
    if p.Unix? then 1 else 3
  }

  /** Capacity of the output writer's buffer, 2 MiB. */
  const BUFFER_SIZE: nat := 2 * 1024 * 1024

  /** Fill level at which the output buffer is flushed: 95% of the capacity. */
  const FLUSH_THRESHOLD: nat := BUFFER_SIZE - BUFFER_SIZE / 20

  /** The line terminator written after every path. */
  const NEWLINE: seq<Byte> := [10]

  /** The regex metacharacters that a literal search escapes. */
  const ESCAPE_REGEX: seq<char> := ['[', ']', '(', ')', '{', '}', '.', '*', '+', '?', '^', '$', '\\', '|']

  lemma DotPatternIsOneDot()
    ensures |DOT_PATTERN| == 1 && DOT_PATTERN[0] == '.'
  {
  }

  lemma FlushThresholdBelowCapacity()
    ensures 0 < FLUSH_THRESHOLD < BUFFER_SIZE
    ensures FLUSH_THRESHOLD == BUFFER_SIZE - BUFFER_SIZE / 20
  {
  }

  lemma NewlineIsOneLineFeed()
    ensures |NEWLINE| == 1 && NEWLINE[0] == 10
  {
  }

  lemma EscapeRegexFacts()
    ensures |ESCAPE_REGEX| == 14
    ensures Distinct(ESCAPE_REGEX)
    ensures '\\' in ESCAPE_REGEX
  {
  }
}
