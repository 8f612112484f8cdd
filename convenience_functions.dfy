/**
 * Front-end helpers (src/convenience_functions.rs): choosing the directory to
 * search, and escaping a pattern so that it is searched for literally.
 */
module ConvenienceFunctions {
  import opened Wrappers
  import Constants

  /** The module's own copy of the metacharacter list. */
  const ESCAPE_REGEX: seq<char> := ['[', ']', '(', ')', '{', '}', '.', '*', '+', '?', '^', '$', '\\', '|']

  lemma EscapeRegexMatchesConstants()
    ensures ESCAPE_REGEX == Constants.ESCAPE_REGEX
  {
  }

  // ---------------------------------------------------------------------
  // Root directory resolution

  /** What `std::env::current_dir()` followed by `to_str()` can give. */
  datatype CurrentDir =
    | Unavailable             // `current_dir()` returned an error
    | NotUnicode              // the path exists but is not valid UTF-8
    | Utf8Path(path: string)

  /**
   * `resolve_directory`: with `cd` the current directory, falling back to
   * `DOT_PATTERN`; otherwise the given directory, falling back to the
   * platform's start prefix.
   */
  function ResolveDirectory(argsCd: bool, argsDirectory: Option<string>, cwd: CurrentDir,
                            p: Constants.Platform): (dir: string)
    ensures argsCd && cwd.Utf8Path? ==> dir == cwd.path
    ensures argsCd && !cwd.Utf8Path? ==> dir == Constants.DOT_PATTERN
    ensures !argsCd && argsDirectory.Some? ==> dir == argsDirectory.value
    ensures !argsCd && argsDirectory.None? ==> dir == Constants.StartPrefix(p)
  {
    if argsCd then
      match cwd
      case Utf8Path(path) => path
      case _ => Constants.DOT_PATTERN
    else
      match argsDirectory
      case Some(d) => d
      case None => Constants.StartPrefix(p)
  }

  /** With `cd` the directory argument plays no part. */
  lemma CdIgnoresDirectoryArgument(d1: Option<string>, d2: Option<string>, cwd: CurrentDir,
                                   p: Constants.Platform)
    ensures ResolveDirectory(true, d1, cwd, p) == ResolveDirectory(true, d2, cwd, p)
  {
  }

  /** Without `cd` the current directory plays no part. */
  lemma NoCdIgnoresCurrentDir(d: Option<string>, cwd1: CurrentDir, cwd2: CurrentDir,
                              p: Constants.Platform)
    ensures ResolveDirectory(false, d, cwd1, p) == ResolveDirectory(false, d, cwd2, p)
  {
  }

  // ---------------------------------------------------------------------
  // Literal escaping

  predicate IsMeta(c: char) {
    c in ESCAPE_REGEX
  }

  /** How one input character appears in the escaped output. */
  function EscapeChar(c: char): (out: string)
    ensures |out| == if IsMeta(c) then 2 else 1
    ensures out[|out| - 1] == c
    ensures IsMeta(c) ==> out[0] == '\\'
  {
    if IsMeta(c) then ['\\', c] else [c]
  }

  /** The escaped form of `s`: every metacharacter preceded by a backslash. */
  function Escaped(s: string): string {
    if s == [] then [] else EscapeChar(s[0]) + Escaped(s[1..])
  }

  /** Number of metacharacters in `s`. */
  function CountMeta(s: string): nat {
    if s == [] then 0 else (if IsMeta(s[0]) then 1 else 0) + CountMeta(s[1..])
  }

  /** Drops each backslash and keeps the character after it: the inverse of escaping. */
  function Unescape(t: string): string
    decreases |t|
  {
    if t == [] then []
    else if t[0] == '\\' && 2 <= |t| then [t[1]] + Unescape(t[2..])
    else [t[0]] + Unescape(t[1..])
  }

  /** Where the i-th input character lands in the escaped output. */
  function OutputIndex(s: string, i: nat): nat
    requires i < |s|
  {
    i + CountMeta(s[..i + 1])
  }

  lemma BackslashIsMeta()
    ensures IsMeta('\\')
  {
    assert ESCAPE_REGEX[12] == '\\';
  }

  lemma {:induction false} EscapedConcat(a: string, b: string)
    ensures Escaped(a + b) == Escaped(a) + Escaped(b)
  {
    if a == [] {
      assert a + b == b;
    } else {
      assert (a + b)[0] == a[0];
      assert (a + b)[1..] == a[1..] + b;
      EscapedConcat(a[1..], b);
    }
  }

  lemma {:induction false} CountMetaConcat(a: string, b: string)
    ensures CountMeta(a + b) == CountMeta(a) + CountMeta(b)
  {
    if a == [] {
      assert a + b == b;
    } else {
      assert (a + b)[0] == a[0];
      assert (a + b)[1..] == a[1..] + b;
      CountMetaConcat(a[1..], b);
    }
  }

  /** One character is added per metacharacter, so the output is at most twice as long. */
  lemma {:induction false} EscapedLength(s: string)
    ensures |Escaped(s)| == |s| + CountMeta(s)
    ensures CountMeta(s) <= |s| && |Escaped(s)| <= 2 * |s|
  {
    if s != [] {
      EscapedLength(s[1..]);
    }
  }

  /** Removing the inserted backslashes gives back the input. */
  lemma {:induction false} UnescapeEscaped(s: string)
    ensures Unescape(Escaped(s)) == s
  {
    if s != [] {
      var t := Escaped(s);
      UnescapeEscaped(s[1..]);
      BackslashIsMeta();
      if IsMeta(s[0]) {
        assert t == ['\\', s[0]] + Escaped(s[1..]);
        assert t[2..] == Escaped(s[1..]);
      } else {
        assert t == [s[0]] + Escaped(s[1..]);
        assert t[1..] == Escaped(s[1..]);
      }
    }
  }

  /**
   * The i-th input character sits at OutputIndex(s, i), one place after the
   * previous one, or two places with a backslash in between exactly when it is
   * a metacharacter; the last input character ends the output.
   */
  lemma EscapedAt(s: string, i: nat)
    requires i < |s|
    ensures OutputIndex(s, i) < |Escaped(s)|
    ensures Escaped(s)[OutputIndex(s, i)] == s[i]
    ensures IsMeta(s[i]) ==> Escaped(s)[OutputIndex(s, i) - 1] == '\\'
    ensures OutputIndex(s, i) == (if i == 0 then 0 else OutputIndex(s, i - 1) + 1) + (if IsMeta(s[i]) then 1 else 0)
    ensures i == |s| - 1 ==> OutputIndex(s, i) == |Escaped(s)| - 1
  {
    var pre, c, post := s[..i], s[i], s[i + 1..];
    assert s == pre + [c] + post;
    assert s[..i + 1] == pre + [c];
    EscapedConcat(pre + [c], post);
    EscapedConcat(pre, [c]);
    assert Escaped([c]) == EscapeChar(c);
    EscapedLength(pre);
    CountMetaConcat(pre, [c]);
    assert CountMeta([c]) == if IsMeta(c) then 1 else 0;
    assert Escaped(s) == Escaped(pre) + EscapeChar(c) + Escaped(post);
  }

  /** A metacharacter-free string is exactly the strings escaping leaves unchanged. */
  lemma {:induction false} EscapedUnchangedIff(s: string)
    ensures Escaped(s) == s <==> CountMeta(s) == 0
  {
    EscapedLength(s);
    if s != [] && CountMeta(s) == 0 {
      EscapedUnchangedIff(s[1..]);
      assert Escaped(s) == [s[0]] + s[1..];
    }
  }

  lemma {:induction false} CountMetaZeroIff(s: string)
    ensures CountMeta(s) == 0 <==> forall k :: 0 <= k < |s| ==> !IsMeta(s[k])
  {
    if s != [] {
      CountMetaZeroIff(s[1..]);
      assert forall k :: 1 <= k < |s| ==> s[k] == s[1..][k - 1];
    }
  }

  /** The output holds each metacharacter twice: the character and its backslash. */
  lemma {:induction false} CountMetaEscaped(s: string)
    ensures CountMeta(Escaped(s)) == 2 * CountMeta(s)
  {
    if s != [] {
      BackslashIsMeta();
      CountMetaEscaped(s[1..]);
      CountMetaConcat(EscapeChar(s[0]), Escaped(s[1..]));
      if IsMeta(s[0]) {
        assert EscapeChar(s[0])[1..] == [s[0]];
      } else {
        assert EscapeChar(s[0])[1..] == [];
      }
    }
  }

  /** Escaping twice equals escaping once exactly when there was nothing to escape. */
  lemma EscapeTwiceIff(s: string)
    ensures Escaped(Escaped(s)) == Escaped(s) <==> CountMeta(s) == 0
  {
    CountMetaEscaped(s);
    EscapedUnchangedIff(Escaped(s));
  }

  /** A single backslash becomes two, and escaping again changes it further. */
  lemma BackslashDoubles()
    ensures Escaped("\\") == "\\\\"
    ensures Escaped(Escaped("\\")) != Escaped("\\")
  {
    BackslashIsMeta();
    assert Escaped("\\") == EscapeChar('\\') + Escaped([]);
    assert CountMeta("\\") == 1;
    EscapeTwiceIff("\\");
  }

  /**
   * `escape_regex_string`: the input unchanged when `avoidRegex` is off,
   * otherwise its escaped form, built one character at a time.
   */
  method EscapeRegexString(input: string, avoidRegex: bool) returns (result: string)
    ensures !avoidRegex ==> result == input
    ensures avoidRegex ==> result == Escaped(input)
    ensures input == [] ==> result == []
  {
    if !avoidRegex {
      return input;
    }
    result := [];
    for i := 0 to |input|
      invariant result == Escaped(input[..i])
    {
      var c := input[i];
      if c in ESCAPE_REGEX {
        result := result + ['\\'];
      }
      result := result + [c];
      assert input[..i + 1] == input[..i] + [c];
      EscapedConcat(input[..i], [c]);
      assert Escaped([c]) == EscapeChar(c);
    }
    assert input[..|input|] == input;
  }
}
