/**
 * `decrypt_directory`: walk a list of files under a root directory and, file by
 * file, decrypt it, copy it through to the output directory, or skip it, counting
 * each kind.  Any exception inside the loop ends the batch without counts.
 *
 * Enumerating the directory (`glob('*')` or `rglob('*')`) is not modelled: the
 * listing is given, as paths relative to the root.
 */
module TreeWalker {
  import opened Wrappers
  import opened Container
  import opened Paths
  import opened FileSystem
  import opened FileDecryptor

  /** The four counters of the loop. */
  datatype Counts = Counts(succeeded: nat, failed: nat, copied: nat, skipped: nat)

  function Total(c: Counts): nat {
    c.succeeded + c.failed + c.copied + c.skipped
  }

  /** Which counter one file increments. */
  datatype Tally = Succeeded | Failed | Copied | Skipped

  function Bump(c: Counts, t: Tally): (r: Counts)
    ensures r.succeeded == c.succeeded + (if t == Succeeded then 1 else 0)
    ensures r.failed == c.failed + (if t == Failed then 1 else 0)
    ensures r.copied == c.copied + (if t == Copied then 1 else 0)
    ensures r.skipped == c.skipped + (if t == Skipped then 1 else 0)
    ensures Total(r) == Total(c) + 1
  {
    match t
    case Succeeded => c.(succeeded := c.succeeded + 1)
    case Failed => c.(failed := c.failed + 1)
    case Copied => c.(copied := c.copied + 1)
    case Skipped => c.(skipped := c.skipped + 1)
  }

  /** The arguments of `decrypt_directory` that stay fixed during the loop. */
  datatype Config = Config(root: Path, password: string, keepOriginal: bool, outputDir: Option<Path>)

  /** One iteration: the counter it increments, or the exception it raises. */
  datatype StepResult = Tallied(files: Files, tally: Tally) | Raised(files: Files, error: OsError)

  /** The body of the loop for the file `rel` (a path relative to the root). */
  function Step(prims: Primitives, env: Env, cfg: Config, files: Files, rel: Path): StepResult {
    var file := Join(cfg.root, rel);
    if Truthy(cfg.outputDir) then
      var target := Join(cfg.outputDir.value, rel);
      if IsEncryptedFile(env, files, file) then
        var r := DecryptFileSpec(prims, env, files, file, Some(target), cfg.password, cfg.keepOriginal, None);
        Tallied(r.files, if r.outcome.Decrypted? then Succeeded else Failed)
      else match CopyFile(env, files, file, target)
        case Failure(e) => Raised(files, e)
        case Success(copied) =>
          if cfg.keepOriginal then Tallied(copied, Copied)
          else match RemoveFile(env, copied, file)
            case Failure(e) => Raised(copied, e)
            case Success(removed) => Tallied(removed, Copied)
    else
      if IsEncryptedFile(env, files, file) then
        var r := DecryptFileSpec(prims, env, files, file, None, cfg.password, cfg.keepOriginal, None);
        Tallied(r.files, if r.outcome.Decrypted? then Succeeded else Failed)
      else Tallied(files, Skipped)
  }

  /** A likely container is handed to `decrypt_file`, and its outcome is counted. */
  lemma StepDecryptsContainers(prims: Primitives, env: Env, cfg: Config, files: Files, rel: Path)
    requires IsEncryptedFile(env, files, Join(cfg.root, rel))
    ensures var out := if Truthy(cfg.outputDir) then Some(Join(cfg.outputDir.value, rel)) else None;
      var r := DecryptFileSpec(prims, env, files, Join(cfg.root, rel), out, cfg.password, cfg.keepOriginal, None);
      Step(prims, env, cfg, files, rel) == Tallied(r.files, if r.outcome.Decrypted? then Succeeded else Failed)
  {
  }

  /**
   * With an output directory, any other file is copied byte for byte to
   * `output_dir/rel`, and its source is removed if and only if keep_original is
   * false; a copy or removal that raises ends the step with that error.
   */
  lemma StepCopiesOthers(prims: Primitives, env: Env, cfg: Config, files: Files, rel: Path)
    requires Truthy(cfg.outputDir) && !IsEncryptedFile(env, files, Join(cfg.root, rel))
    ensures var file, target := Join(cfg.root, rel), Join(cfg.outputDir.value, rel);
      match Step(prims, env, cfg, files, rel)
      case Tallied(after, t) =>
        && t == Copied && file in files && target != file
        && after == (if cfg.keepOriginal then files[target := files[file]] else files[target := files[file]] - {file})
      case Raised(after, e) =>
        || (CopyFile(env, files, file, target).Failure? && after == files)
        || (!cfg.keepOriginal && after == files[target := files[file]] && RemoveFile(env, after, file).Failure?)
  {
  }

  /** Without an output directory, any other file is left untouched and counted as skipped. */
  lemma StepSkipsOthersInPlace(prims: Primitives, env: Env, cfg: Config, files: Files, rel: Path)
    requires !Truthy(cfg.outputDir) && !IsEncryptedFile(env, files, Join(cfg.root, rel))
    ensures Step(prims, env, cfg, files, rel) == Tallied(files, Skipped)
  {
  }

  /** With an output directory a step never skips; without one it never copies and never raises. */
  lemma StepTallies(prims: Primitives, env: Env, cfg: Config, files: Files, rel: Path)
    ensures var s := Step(prims, env, cfg, files, rel);
      && (Truthy(cfg.outputDir) && s.Tallied? ==> s.tally != Skipped)
      && (!Truthy(cfg.outputDir) ==> s.Tallied? && s.tally != Copied)
  {
  }

  /** The state of the loop after some prefix of the listing. */
  datatype Progress =
    | Running(files: Files, counts: Counts)
    | Halted(files: Files, error: OsError, at: nat)   // the file at index `at` raised

  /** One iteration of the loop, as a function of the files before it and the listed path. */
  type Stepper = (Files, Path) -> StepResult

  /** The loop body of `decrypt_directory` for a fixed configuration. */
  function StepOf(prims: Primitives, env: Env, cfg: Config): Stepper {
    (f: Files, rel: Path) => Step(prims, env, cfg, f, rel)
  }

  /** The loop run over the first n files of `rels`, in order, from `files` with all counters at zero. */
  function Run(step: Stepper, files: Files, rels: seq<Path>, n: nat): Progress
    requires n <= |rels|
    decreases n
  {
    if n == 0 then Running(files, Counts(0, 0, 0, 0))
    else match Run(step, files, rels, n - 1)
      case Halted(f, e, k) => Halted(f, e, k)
      case Running(f, c) =>
        match step(f, rels[n - 1])
        case Raised(f', e) => Halted(f', e, n - 1)
        case Tallied(f', t) => Running(f', Bump(c, t))
  }

  /** One more file that is tallied: the loop keeps running with that counter bumped. */
  lemma RunTallied(step: Stepper, files: Files, rels: seq<Path>, n: nat, f: Files, c: Counts, f': Files, t: Tally)
    requires n < |rels| && Run(step, files, rels, n) == Running(f, c)
    requires step(f, rels[n]) == Tallied(f', t)
    ensures Run(step, files, rels, n + 1) == Running(f', Bump(c, t))
  {
  }

  /** One more file that raises: the loop halts at that file. */
  lemma RunRaised(step: Stepper, files: Files, rels: seq<Path>, n: nat, f: Files, c: Counts, f': Files, e: OsError)
    requires n < |rels| && Run(step, files, rels, n) == Running(f, c)
    requires step(f, rels[n]) == Raised(f', e)
    ensures Run(step, files, rels, n + 1) == Halted(f', e, n)
  {
  }

  /**
   * The mode-dependent tallies of a step function: with an output directory it never
   * skips, without one it never copies and never raises.
   */
  ghost predicate TalliesByMode(step: Stepper, withOutputDir: bool) {
    forall f: Files, rel: Path ::
      && (withOutputDir && step(f, rel).Tallied? ==> step(f, rel).tally != Skipped)
      && (!withOutputDir ==> step(f, rel).Tallied? && step(f, rel).tally != Copied)
  }

  /** The loop body of `decrypt_directory` tallies by mode. */
  lemma StepOfTallies(prims: Primitives, env: Env, cfg: Config)
    ensures TalliesByMode(StepOf(prims, env, cfg), Truthy(cfg.outputDir))
  {
    forall f: Files, rel: Path {
      StepTallies(prims, env, cfg, f, rel);
    }
  }

  /**
   * Counter conservation: each listed file increments exactly one counter; with an
   * output directory nothing is skipped, without one nothing is copied.
   */
  lemma {:induction false} RunCounts(step: Stepper, withOutputDir: bool, files: Files, rels: seq<Path>, n: nat)
    requires TalliesByMode(step, withOutputDir)
    requires n <= |rels| && Run(step, files, rels, n).Running?
    ensures var c := Run(step, files, rels, n).counts;
      && Total(c) == n
      && (withOutputDir ==> c.skipped == 0)
      && (!withOutputDir ==> c.copied == 0)
    decreases n
  {
    if n > 0 {
      var before := Run(step, files, rels, n - 1);
      RunCounts(step, withOutputDir, files, rels, n - 1);
      var s := step(before.files, rels[n - 1]);
      assert withOutputDir && s.Tallied? ==> s.tally != Skipped;
      assert !withOutputDir ==> s.Tallied? && s.tally != Copied;
    }
  }

  /** Only the copy-through path raises, so the batch can only halt with an output directory. */
  lemma {:induction false} RunHalts(step: Stepper, withOutputDir: bool, files: Files, rels: seq<Path>, n: nat)
    requires TalliesByMode(step, withOutputDir)
    requires n <= |rels| && Run(step, files, rels, n).Halted?
    ensures Run(step, files, rels, n).at < n
    ensures withOutputDir
    decreases n
  {
    var before := Run(step, files, rels, n - 1);
    if before.Halted? {
      RunHalts(step, withOutputDir, files, rels, n - 1);
    } else {
      var s := step(before.files, rels[n - 1]);
      assert !withOutputDir ==> s.Tallied?;
    }
  }

  lemma RunHaltedNext(step: Stepper, files: Files, rels: seq<Path>, n: nat)
    requires n < |rels| && Run(step, files, rels, n).Halted?
    ensures Run(step, files, rels, n + 1) == Run(step, files, rels, n)
  {
  }

  /** Once a file has raised, the rest of the listing is never processed. */
  lemma {:induction false} RunStaysHalted(step: Stepper, files: Files, rels: seq<Path>, k: nat, n: nat)
    requires k <= n <= |rels|
    requires Run(step, files, rels, k).Halted?
    ensures Run(step, files, rels, n) == Run(step, files, rels, k)
    decreases n
  {
    if k < n {
      RunStaysHalted(step, files, rels, k, n - 1);
      RunHaltedNext(step, files, rels, n - 1);
    }
  }

  /** The calls made to `progress_callback`: (1, total), (2, total), ... for each file started. */
  function ProgressCalls(started: nat, total: nat): (calls: seq<(nat, nat)>)
    ensures |calls| == started
    ensures forall i :: 0 <= i < started ==> calls[i] == (i + 1, total)
    decreases started
  {
    if started == 0 then [] else ProgressCalls(started - 1, total) + [(started, total)]
  }

  /** How `decrypt_directory` ends. */
  datatype BatchOutcome = Finished(counts: Counts) | NotADirectory(path: Path) | Aborted(error: OsError)

  /** The decimal digits of n, as f-strings print an int. */
  function NatToString(n: nat): string
    decreases n
  {
    var digit := [('0' as int + n % 10) as char];
    if n < 10 then digit else NatToString(n / 10) + digit
  }

  predicate IsDigit(ch: char) {
    '0' <= ch <= '9'
  }

  /** The value of a string of decimal digits, read most significant first. */
  function DecimalValue(s: string): int
    decreases |s|
  {
    if s == [] then 0 else DecimalValue(s[..|s| - 1]) * 10 + (s[|s| - 1] as int - '0' as int)
  }

  /** The printed counter is a decimal numeral without leading zeros that reads back as n. */
  lemma {:induction false} NatToStringDecimal(n: nat)
    ensures var s := NatToString(n);
      && |s| > 0 && (forall i :: 0 <= i < |s| ==> IsDigit(s[i]))
      && (|s| > 1 ==> s[0] != '0')
      && DecimalValue(s) == n
    decreases n
  {
    var s := NatToString(n);
    if n >= 10 {
      var prefix := NatToString(n / 10);
      NatToStringDecimal(n / 10);
      assert s[..|s| - 1] == prefix;
      assert forall i :: 0 <= i < |prefix| ==> s[i] == prefix[i];
    }
  }

  /** `str(e)` for the exceptions modelled here. */
  function ErrorText(e: OsError): string {
    match e
    case FileNotFound(p) => "[Errno 2] No such file or directory: '" + p + "'"
    case PermissionDenied(p) => "[Errno 13] Permission denied: '" + p + "'"
    case IsADirectory(p) => "[Errno 21] Is a directory: '" + p + "'"
    case SameFile(s, d) => "'" + s + "' and '" + d + "' are the same file"
  }

  /** The message `decrypt_directory` returns beside its boolean. */
  function BatchMessage(o: BatchOutcome): string {
    match o
    case Finished(c) =>
      "处理完成! 成功: " + NatToString(c.succeeded) + ", 失败: " + NatToString(c.failed)
      + ", 复制: " + NatToString(c.copied) + ", 跳过: " + NatToString(c.skipped)
    case NotADirectory(p) => "错误: 目录不存在: " + p
    case Aborted(e) => "处理目录时出错: " + ErrorText(e)
  }

  datatype BatchResult = BatchResult(outcome: BatchOutcome, progress: seq<(nat, nat)>, files: Files)

  /**
   * The effect of `decrypt_directory(root, password, recursive, keep_original,
   * output_dir, progress_callback)` on the listing `rels`.
   */
  function DecryptDirectorySpec(prims: Primitives, env: Env, files: Files, cfg: Config, rels: seq<Path>,
                                reportProgress: bool): (r: BatchResult)
    ensures r.outcome.NotADirectory? <==> cfg.root !in env.dirs
    ensures r.outcome.NotADirectory? ==> r.files == files && r.progress == []
    ensures !reportProgress ==> r.progress == []
    ensures r.outcome.Finished? ==>
      && Total(r.outcome.counts) == |rels|
      && (Truthy(cfg.outputDir) ==> r.outcome.counts.skipped == 0)
      && (!Truthy(cfg.outputDir) ==> r.outcome.counts.copied == 0)
      && (reportProgress ==> r.progress == ProgressCalls(|rels|, |rels|))
    ensures r.outcome.Aborted? ==>
      && Truthy(cfg.outputDir)
      && (reportProgress ==> 1 <= |r.progress| <= |rels| && r.progress == ProgressCalls(|r.progress|, |rels|))
  {
    if cfg.root !in env.dirs then BatchResult(NotADirectory(cfg.root), [], files)
    else
      var step := StepOf(prims, env, cfg);
      StepOfTallies(prims, env, cfg);
      match Run(step, files, rels, |rels|)
      case Running(f, c) =>
        RunCounts(step, Truthy(cfg.outputDir), files, rels, |rels|);
        BatchResult(Finished(c), if reportProgress then ProgressCalls(|rels|, |rels|) else [], f)
      case Halted(f, e, k) =>
        RunHalts(step, Truthy(cfg.outputDir), files, rels, |rels|);
        BatchResult(Aborted(e), if reportProgress then ProgressCalls(k + 1, |rels|) else [], f)
  }

  /** The result of a batch in which the file at index k raised e, leaving f. */
  lemma DecryptDirectoryAborted(prims: Primitives, env: Env, files: Files, cfg: Config, rels: seq<Path>,
                                reportProgress: bool, k: nat, f: Files, e: OsError)
    requires cfg.root in env.dirs && Run(StepOf(prims, env, cfg), files, rels, |rels|) == Halted(f, e, k)
    ensures DecryptDirectorySpec(prims, env, files, cfg, rels, reportProgress)
      == BatchResult(Aborted(e), if reportProgress then ProgressCalls(k + 1, |rels|) else [], f)
  {
  }

  /** The result of a batch in which every file was tallied, leaving f with the counters c. */
  lemma DecryptDirectoryFinished(prims: Primitives, env: Env, files: Files, cfg: Config, rels: seq<Path>,
                                 reportProgress: bool, f: Files, c: Counts)
    requires cfg.root in env.dirs && Run(StepOf(prims, env, cfg), files, rels, |rels|) == Running(f, c)
    ensures DecryptDirectorySpec(prims, env, files, cfg, rels, reportProgress)
      == BatchResult(Finished(c), if reportProgress then ProgressCalls(|rels|, |rels|) else [], f)
  {
  }

  /** The body of the loop for one file: which counter to increment, or the exception it raises. */
  method ProcessFile(prims: Primitives, fs: FileSystem, cfg: Config, rel: Path) returns (r: Result<Tally, OsError>)
    modifies fs
    ensures Step(prims, fs.env, cfg, old(fs.files), rel) ==
      if r.Success? then Tallied(fs.files, r.value) else Raised(fs.files, r.error)
  {
    var file := Join(cfg.root, rel);
    if Truthy(cfg.outputDir) {
      var target := Join(cfg.outputDir.value, rel);
      if IsEncryptedFile(fs.env, fs.files, file) {
        var ok, _ := DecryptFile(prims, fs, file, Some(target), cfg.password, cfg.keepOriginal, None);
        return Success(if ok then Succeeded else Failed);
      }
      var copy := fs.Copy(file, target);
      if copy.Failure? {
        return Failure(copy.error);
      }
      if !cfg.keepOriginal {
        var removed := fs.Remove(file);
        if removed.Failure? {
          return Failure(removed.error);
        }
      }
      return Success(Copied);
    } else {
      if IsEncryptedFile(fs.env, fs.files, file) {
        var ok, _ := DecryptFile(prims, fs, file, None, cfg.password, cfg.keepOriginal, None);
        return Success(if ok then Succeeded else Failed);
      }
      return Success(Skipped);
    }
  }

  /**
   * `decrypt_directory`: a loop over the listing that updates four counters and the
   * filesystem.  `progress` records the calls made to `progress_callback`.
   */
  method DecryptDirectory(prims: Primitives, fs: FileSystem, root: Path, rels: seq<Path>, password: string,
                          keepOriginal: bool, outputDir: Option<Path>, reportProgress: bool)
    returns (success: bool, message: string, progress: seq<(nat, nat)>)
    modifies fs
    ensures var r := DecryptDirectorySpec(prims, fs.env, old(fs.files), Config(root, password, keepOriginal, outputDir), rels, reportProgress);
      && success == r.outcome.Finished? && message == BatchMessage(r.outcome)
      && progress == r.progress && fs.files == r.files
  {
    if root !in fs.env.dirs {
      return false, BatchMessage(NotADirectory(root)), [];
    }
    var cfg := Config(root, password, keepOriginal, outputDir);
    ghost var files0 := fs.files;
    var counts := Counts(0, 0, 0, 0);
    var total := |rels|;
    progress := [];
    var i := 0;
    while i < total
      invariant 0 <= i <= total
      invariant Run(StepOf(prims, fs.env, cfg), files0, rels, i) == Running(fs.files, counts)
      invariant progress == if reportProgress then ProgressCalls(i, total) else []
    {
      if reportProgress {
        progress := progress + [(i + 1, total)];
      }
      ghost var before := fs.files;
      var step := ProcessFile(prims, fs, cfg, rels[i]);
      if step.Failure? {
        RunRaised(StepOf(prims, fs.env, cfg), files0, rels, i, before, counts, fs.files, step.error);
        RunStaysHalted(StepOf(prims, fs.env, cfg), files0, rels, i + 1, |rels|);
        DecryptDirectoryAborted(prims, fs.env, files0, cfg, rels, reportProgress, i, fs.files, step.error);
        return false, BatchMessage(Aborted(step.error)), progress;
      }
      RunTallied(StepOf(prims, fs.env, cfg), files0, rels, i, before, counts, fs.files, step.value);
      counts := Bump(counts, step.value);
      i := i + 1;
    }
    DecryptDirectoryFinished(prims, fs.env, files0, cfg, rels, reportProgress, fs.files, counts);
    return true, BatchMessage(Finished(counts)), progress;
  }
}
