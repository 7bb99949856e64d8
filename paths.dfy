/**
 * POSIX path manipulation as Python's posixpath does it (`basename`, `dirname`,
 * `join`), and the choice of the output path in `decrypt_file`.
 */
module Paths {
  import opened Wrappers

  type Path = string

  const SEP: char := '/'

  /** Python truthiness of an optional path argument: None and "" are both false. */
  predicate Truthy(o: Option<Path>) {
    o.Some? && o.value != ""
  }

  /** The index of the last separator in p, or -1 when there is none (`p.rfind('/')`). */
  function LastSep(p: Path): (i: int)
    ensures -1 <= i < |p|
    ensures i >= 0 ==> p[i] == SEP
    ensures forall j :: i < j < |p| ==> p[j] != SEP
  {
    if |p| == 0 then -1
    else if p[|p| - 1] == SEP then |p| - 1
    else LastSep(p[..|p| - 1])
  }

  /** `os.path.basename(p)`: everything after the last separator. */
  function Basename(p: Path): (b: Path)
    ensures SEP !in b
    ensures |b| <= |p| && p[|p| - |b|..] == b
    ensures |b| == |p| || p[|p| - |b| - 1] == SEP
  {
    var b := p[LastSep(p) + 1..];
    assert forall k :: 0 <= k < |b| ==> b[k] == p[LastSep(p) + 1 + k];
    b
  }

  predicate AllSeps(s: Path) {
    forall i :: 0 <= i < |s| ==> s[i] == SEP
  }

  /** `s.rstrip('/')`. */
  function RStripSeps(s: Path): (r: Path)
    ensures |r| <= |s| && r == s[..|r|]
    ensures AllSeps(s[|r|..])
    ensures r == "" || r[|r| - 1] != SEP
  {
    if |s| == 0 || s[|s| - 1] != SEP then s
    else
      var r := RStripSeps(s[..|s| - 1]);
      assert s[|r|..] == s[..|s| - 1][|r|..] + [SEP];
      r
  }

  /**
   * `os.path.dirname(p)`: the head up to and including the last separator, with
   * trailing separators removed unless the head consists of separators only.
   */
  function Dirname(p: Path): Path {
    var head := p[..LastSep(p) + 1];
    if AllSeps(head) then head else RStripSeps(head)
  }

  /** `os.path.join(a, b)` for two components. */
  function Join(a: Path, b: Path): Path {
    if |b| > 0 && b[0] == SEP then b
    else if a == "" || a[|a| - 1] == SEP then a + b
    else a + [SEP] + b
  }

  /** The shapes Dirname can produce: empty, separators only, or not ending in a separator. */
  predicate IsDirname(d: Path) {
    AllSeps(d) || d[|d| - 1] != SEP
  }

  lemma DirnameShape(p: Path)
    ensures IsDirname(Dirname(p))
  {
    var head := p[..LastSep(p) + 1];
    if !AllSeps(head) {
      var r := RStripSeps(head);
    }
  }

  /** Joining a name without separators onto a directory gives back that name. */
  lemma BasenameJoin(d: Path, name: Path)
    requires SEP !in name
    ensures Basename(Join(d, name)) == name
  {
    var j := Join(d, name);
    var x := if d == "" || d[|d| - 1] == SEP then d else d + [SEP];
    assert j == x + name;
    var i := LastSep(j);
    assert forall k :: |x| <= k < |j| ==> j[k] == name[k - |x|];
    if x == "" {
      assert i == -1;
    } else {
      assert j[|x| - 1] == SEP;
      assert i == |x| - 1;
    }
  }

  /** ... and the directory it was joined onto, as Dirname reports it. */
  lemma DirnameJoin(d: Path, name: Path)
    requires SEP !in name && IsDirname(d)
    ensures Dirname(Join(d, name)) == d
  {
    var j := Join(d, name);
    var x := if d == "" || d[|d| - 1] == SEP then d else d + [SEP];
    assert j == x + name;
    var i := LastSep(j);
    assert forall k :: |x| <= k < |j| ==> j[k] == name[k - |x|];
    if x == "" {
      assert i == -1;
      assert j[..i + 1] == "";
    } else {
      assert j[|x| - 1] == SEP;
      assert i == |x| - 1;
      assert j[..i + 1] == x;
      if x != d {
        assert !AllSeps(x);
        var r := RStripSeps(x);
        assert r == d;
      }
    }
  }

  /** `path.lower()` restricted to the characters that can lower to ASCII letters. */
  function LowerAscii(c: char): char {
    if 'A' <= c <= 'Z' then (c as int + 32) as char else c
  }

  const ENC_SUFFIX: Path := ".enc"
  const DEC_SUFFIX: Path := ".dec"

  /** `path.lower().endswith('.enc')`. */
  predicate EndsWithEncIgnoringCase(p: Path) {
    |p| >= |ENC_SUFFIX| && forall i :: 0 <= i < |ENC_SUFFIX| ==> LowerAscii(p[|p| - |ENC_SUFFIX| + i]) == ENC_SUFFIX[i]
  }

  /**
   * Where `decrypt_file` writes its plaintext: an explicit output path wins, then
   * `output_dir/basename(input)`, then the input with a case-insensitive `.enc`
   * removed, else `input.dec` in the same directory.
   */
  function ResolveOutputPath(input: Path, outputPath: Option<Path>, outputDir: Option<Path>): Path {
    if Truthy(outputPath) then outputPath.value
    else if Truthy(outputDir) then Join(outputDir.value, Basename(input))
    else if EndsWithEncIgnoringCase(input) then input[..|input| - |ENC_SUFFIX|]
    else Join(Dirname(input), Basename(input) + DEC_SUFFIX)
  }

  /**
   * The four cases of the output path: the output directory keeps the base name;
   * stripping `.enc` removes exactly the last four characters; `.dec` stays in the
   * input's directory and extends its base name.
   */
  lemma ResolveOutputPathCases(input: Path, outputPath: Option<Path>, outputDir: Option<Path>)
    ensures var out := ResolveOutputPath(input, outputPath, outputDir);
      && (Truthy(outputPath) ==> out == outputPath.value)
      && (!Truthy(outputPath) && Truthy(outputDir) ==>
            out == Join(outputDir.value, Basename(input)) && Basename(out) == Basename(input))
      && (!Truthy(outputPath) && !Truthy(outputDir) && EndsWithEncIgnoringCase(input) ==>
            out + input[|input| - |ENC_SUFFIX|..] == input)
      && (!Truthy(outputPath) && !Truthy(outputDir) && !EndsWithEncIgnoringCase(input) ==>
            Dirname(out) == Dirname(input) && Basename(out) == Basename(input) + DEC_SUFFIX)
  {
    if Truthy(outputPath) {
    } else if Truthy(outputDir) {
      BasenameJoin(outputDir.value, Basename(input));
    } else if EndsWithEncIgnoringCase(input) {
      assert input[..|input| - |ENC_SUFFIX|] + input[|input| - |ENC_SUFFIX|..] == input;
    } else {
      var name := Basename(input) + DEC_SUFFIX;
      assert SEP !in name by {
        assert forall k :: 0 <= k < |name| ==> name[k] == if k < |Basename(input)| then Basename(input)[k] else DEC_SUFFIX[k - |Basename(input)|];
      }
      DirnameShape(input);
      BasenameJoin(Dirname(input), name);
      DirnameJoin(Dirname(input), name);
    }
  }

  /** Everything up to and including the last separator, followed by the base name, is p. */
  lemma HeadAndBasename(p: Path)
    ensures p == p[..LastSep(p) + 1] + Basename(p)
  {
  }

  /** Stripping a string that does not end in a separator leaves it unchanged. */
  lemma RStripUnseparated(s: Path)
    requires s == "" || s[|s| - 1] != SEP
    ensures RStripSeps(s) == s
  {
  }

  /** With a single separator before the base name, Dirname drops exactly that separator. */
  lemma DirnameSingleSep(p: Path)
    requires LastSep(p) > 0 && p[LastSep(p) - 1] != SEP
    ensures Dirname(p) == p[..LastSep(p)]
  {
    var i := LastSep(p);
    var head := p[..i + 1];
    assert head[i - 1] != SEP;
    assert head[..i] == p[..i];
    RStripUnseparated(p[..i]);
    assert RStripSeps(head) == RStripSeps(head[..i]);
  }

  /** What `Join(a, name)` puts in front of a name that does not start with a separator. */
  function JoinPrefix(a: Path): Path {
    if a == "" || a[|a| - 1] == SEP then a else a + [SEP]
  }

  /** Joining a component that starts with a separator discards the directory. */
  lemma JoinAbsolute(a: Path, name: Path)
    requires |name| > 0 && name[0] == SEP
    ensures Join(a, name) == name
  {
  }

  /** Joining a component that does not start with a separator. */
  lemma JoinUnseparated(a: Path, name: Path)
    requires |name| > 0 && name[0] != SEP
    ensures Join(a, name) == JoinPrefix(a) + name
  {
  }

  /** With at most one separator before the base name, Join puts back exactly the head Dirname dropped. */
  lemma JoinPrefixDirname(p: Path)
    requires LastSep(p) <= 0 || p[LastSep(p) - 1] != SEP
    ensures JoinPrefix(Dirname(p)) == p[..LastSep(p) + 1]
  {
    var i := LastSep(p);
    if i > 0 {
      DirnameSingleSep(p);
      assert p[..i][i - 1] == p[i - 1];
      assert p[..i + 1] == p[..i] + [SEP];
    } else if i == 0 {
      assert AllSeps(p[..1]);
    }
  }

  /** With at most one separator before the base name, p is its directory joined with its base name. */
  lemma DirnameBasenameSplit(p: Path)
    requires LastSep(p) <= 0 || p[LastSep(p) - 1] != SEP
    ensures p == JoinPrefix(Dirname(p)) + Basename(p)
  {
    JoinPrefixDirname(p);
    HeadAndBasename(p);
  }

  /** Joining a separator-free name extended by a suffix extends the joined path by that suffix. */
  lemma JoinSuffixed(a: Path, name: Path, suffix: Path)
    requires SEP !in name && |suffix| > 0 && suffix[0] != SEP
    ensures Join(a, name + suffix) == (JoinPrefix(a) + name) + suffix
  {
    assert (name + suffix)[0] != SEP by {
      if |name| > 0 { assert name[0] in name; }
    }
    JoinUnseparated(a, name + suffix);
    assert JoinPrefix(a) + (name + suffix) == (JoinPrefix(a) + name) + suffix;
  }

  lemma JoinDirnameBasename(p: Path, suffix: Path)
    requires |suffix| > 0 && suffix[0] != SEP
    requires LastSep(p) <= 0 || p[LastSep(p) - 1] != SEP
    ensures Join(Dirname(p), Basename(p) + suffix) == p + suffix
  {
    DirnameBasenameSplit(p);
    JoinSuffixed(Dirname(p), Basename(p), suffix);
  }

  /**
   * Without doubled separators in front of the base name, the `.dec` output is
   * literally the input path with `.dec` appended.
   */
  lemma DecOutputAppendsSuffix(input: Path)
    requires !EndsWithEncIgnoringCase(input)
    requires LastSep(input) <= 0 || input[LastSep(input) - 1] != SEP
    ensures ResolveOutputPath(input, None, None) == input + DEC_SUFFIX
  {
    JoinDirnameBasename(input, DEC_SUFFIX);
  }
}
