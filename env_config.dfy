/**
 * Configuration lookup (`getEnvWithFallback`, `getKeywordWithEnvPriority`
 * in app.mjs). `env` stands for `process.env` and `dotEnv` for the text of
 * the `.env` file in the working directory, `None` when there is no such
 * file or it cannot be read.
 */
module EnvConfig {
  import opened Wrappers
  import opened JsText

  /** A variable counts only when it is set to something other than blanks. */
  predicate Usable(v: string) {
    !IsBlank(v)
  }

  /** The value of `line` for `key`: the trimmed line must start with `key=`, and the rest must not be blank. */
  function LineValue(line: string, key: string): (r: Option<string>)
    ensures r.Some? ==> Usable(r.value) && Trim(line) == key + "=" + r.value
  {
    var t := Trim(line);
    var prefix := key + "=";
    if StartsWith(t, prefix) && Usable(t[|prefix|..]) then
      assert t == prefix + t[|prefix|..];
      Some(t[|prefix|..])
    else None
  }

  /** The loop over the lines of `.env`: the first line with a usable value for `key` wins. */
  function ScanEnvLines(lines: seq<string>, key: string): (r: Option<string>)
    ensures r.Some? ==> exists i :: 0 <= i < |lines| && LineValue(lines[i], key) == r
    ensures r.None? ==> forall i :: 0 <= i < |lines| ==> LineValue(lines[i], key).None?
  {
    if lines == [] then None
    else if LineValue(lines[0], key).Some? then LineValue(lines[0], key)
    else
      var r := ScanEnvLines(lines[1..], key);
      assert forall i :: 1 <= i < |lines| ==> lines[i] == lines[1..][i - 1];
      r
  }

  /** Lines before the first usable one do not matter, and lines after it are never looked at. */
  lemma {:induction false} ScanEnvLinesFirst(lines: seq<string>, key: string, i: nat)
    requires i < |lines| && LineValue(lines[i], key).Some?
    requires forall j :: 0 <= j < i ==> LineValue(lines[j], key).None?
    ensures ScanEnvLines(lines, key) == LineValue(lines[i], key)
  {
    if i > 0 {
      ScanEnvLinesFirst(lines[1..], key, i - 1);
    }
  }

  /** What the `.env` file says about `key`, if anything. */
  function FileValue(dotEnv: Option<string>, key: string): Option<string> {
    match dotEnv
    case None => None
    case Some(content) => ScanEnvLines(Split(content, {'\n'}), key)
  }

  /** What `process.env` says about `key`, if it is usable. */
  function EnvValue(env: map<string, string>, key: string): (r: Option<string>)
    ensures r.Some? ==> Usable(r.value)
  {
    if key in env && Usable(env[key]) then Some(env[key]) else None
  }

  /** `getEnvWithFallback`: the environment first, then `.env`, then the fallback. */
  function GetEnvWithFallback(env: map<string, string>, dotEnv: Option<string>, key: string, fallback: string): (r: string)
    ensures EnvValue(env, key).Some? ==> r == EnvValue(env, key).value
    ensures EnvValue(env, key).None? && FileValue(dotEnv, key).Some? ==> r == FileValue(dotEnv, key).value
    ensures EnvValue(env, key).None? && FileValue(dotEnv, key).None? ==> r == fallback
  {
    match EnvValue(env, key)
    case Some(v) => v
    case None =>
      match FileValue(dotEnv, key)
      case Some(v) => v
      case None => fallback
  }

  /** `getKeywordWithEnvPriority`: `.env` first, then the environment, then the fallback. */
  function GetKeywordWithEnvPriority(env: map<string, string>, dotEnv: Option<string>, key: string, fallback: string): (r: string)
    ensures FileValue(dotEnv, key).Some? ==> r == FileValue(dotEnv, key).value
    ensures FileValue(dotEnv, key).None? && EnvValue(env, key).Some? ==> r == EnvValue(env, key).value
    ensures FileValue(dotEnv, key).None? && EnvValue(env, key).None? ==> r == fallback
  {
    match FileValue(dotEnv, key)
    case Some(v) => v
    case None =>
      match EnvValue(env, key)
      case Some(v) => v
      case None => fallback
  }

  /**
   * The two lookups differ only in precedence: they agree unless both the
   * environment and `.env` hold a usable, different value, and then each
   * picks its own favourite.
   */
  lemma LookupsAgreeUnlessBothSet(env: map<string, string>, dotEnv: Option<string>, key: string, fallback: string)
    ensures EnvValue(env, key).None? || FileValue(dotEnv, key).None? ==>
      GetEnvWithFallback(env, dotEnv, key, fallback) == GetKeywordWithEnvPriority(env, dotEnv, key, fallback)
    ensures EnvValue(env, key).Some? && FileValue(dotEnv, key).Some? ==>
      GetEnvWithFallback(env, dotEnv, key, fallback) == EnvValue(env, key).value
      && GetKeywordWithEnvPriority(env, dotEnv, key, fallback) == FileValue(dotEnv, key).value
  {
  }

  /** Either lookup yields a usable value or the fallback itself. */
  lemma LookupUsableOrFallback(env: map<string, string>, dotEnv: Option<string>, key: string, fallback: string)
    ensures Usable(GetEnvWithFallback(env, dotEnv, key, fallback)) || GetEnvWithFallback(env, dotEnv, key, fallback) == fallback
    ensures Usable(GetKeywordWithEnvPriority(env, dotEnv, key, fallback)) || GetKeywordWithEnvPriority(env, dotEnv, key, fallback) == fallback
  {
    match FileValue(dotEnv, key)
    case Some(v) =>
      var content := dotEnv.value;
      var lines := Split(content, {'\n'});
      var i :| 0 <= i < |lines| && LineValue(lines[i], key) == Some(v);
    case None =>
  }

  /** `KEY=value` on a line of its own is read back as `value`, surrounding blanks aside. */
  lemma ReadsAssignment(key: string, value: string)
    requires Usable(value) && !IsSpace(value[|value| - 1])
    requires forall j :: 0 <= j < |key| ==> !IsSpace(key[j])
    requires |key| > 0
    ensures LineValue(key + "=" + value, key) == Some(value)
  {
    var line := key + "=" + value;
    TrimFacts(line);
    assert !IsSpace(line[0]) && !IsSpace(line[|line| - 1]);
    assert Trim(line) == line;
    assert line[|key + "="|..] == value;
  }
}
