/** Application matchers and split configuration: `crates/core/src/split/config.rs`. */
module SplitConfiguration {
  import opened Wrappers
  import opened Ascii

  datatype SplitMode = Inclusive | Exclusive

  datatype ConnApp = ConnApp(exePath: Option<string>, processName: Option<string>)

  const UNKNOWN_APP := ConnApp(None, None)

  predicate IsSeparator(c: char) {
    c == '\\' || c == '/'
  }

  /** `file_name`: what follows the last separator. */
  function FileName(path: string): string {
    if path == [] || IsSeparator(path[|path| - 1]) then []
    else FileName(path[..|path| - 1]) + [path[|path| - 1]]
  }

  lemma EndsWithAppend(s: string, suffix: string, c: char)
    requires EndsWith(s, suffix)
    ensures EndsWith(s + [c], suffix + [c])
  {
    assert (s + [c])[|s| - |suffix|..] == s[|s| - |suffix|..] + [c];
  }

  predicate SeparatorFree(s: string) {
    forall i :: 0 <= i < |s| ==> !IsSeparator(s[i])
  }

  lemma {:induction false} FileNameSeparatorFree(path: string)
    ensures SeparatorFree(FileName(path))
  {
    if path != [] && !IsSeparator(path[|path| - 1]) {
      FileNameSeparatorFree(path[..|path| - 1]);
    }
  }

  lemma {:induction false} FileNameIsTail(path: string)
    ensures EndsWith(path, FileName(path))
  {
    if path != [] && !IsSeparator(path[|path| - 1]) {
      var p := path[..|path| - 1];
      FileNameIsTail(p);
      EndsWithAppend(p, FileName(p), path[|path| - 1]);
      assert path == p + [path[|path| - 1]];
    }
  }

  lemma {:induction false} FileNameAfterSeparator(path: string)
    ensures |FileName(path)| == |path|
              || (|FileName(path)| < |path| && IsSeparator(path[|path| - |FileName(path)| - 1]))
  {
    if path != [] && !IsSeparator(path[|path| - 1]) {
      FileNameAfterSeparator(path[..|path| - 1]);
    }
  }

  /** The file name is the longest tail without a slash or backslash. */
  lemma {:induction false} FileNameShape(path: string)
    ensures var f := FileName(path);
            EndsWith(path, f) && SeparatorFree(f) && (|f| == |path| || IsSeparator(path[|path| - |f| - 1]))
    ensures var f := FileName(path);
            && '/' !in f && '\\' !in f
            && (|f| < |path| ==> path[|path| - |f| - 1] == '/' || path[|path| - |f| - 1] == '\\')
  {
    FileNameSeparatorFree(path);
    FileNameIsTail(path);
    FileNameAfterSeparator(path);
  }

  function EffectiveName(app: ConnApp): Option<string> {
    if app.processName.Some? then app.processName
    else if app.exePath.Some? then Some(FileName(app.exePath.value))
    else None
  }

  datatype AppMatcher = ExePath(path: string) | ProcessName(name: string) {
    predicate Matches(app: ConnApp) {
      match this
      case ExePath(p) => app.exePath.Some? && EqIgnoreCase(app.exePath.value, p)
      case ProcessName(n) => EffectiveName(app).Some? && EqIgnoreCase(EffectiveName(app).value, n)
    }
  }

  predicate AnyAppMatches(ms: seq<AppMatcher>, app: ConnApp) {
    exists i :: 0 <= i < |ms| && ms[i].Matches(app)
  }
}
