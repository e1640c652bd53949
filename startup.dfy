/** The checks `main` makes before any backup work, in their order (backup.py:300-336): the
    configuration file must exist, `output_path` must be set and exist, the four tier directories are
    created, the disk-usage limit must lie between 0 and 1, the disk-usage gate must pass, and
    `input_paths` must be set. The disk-usage measurement is an outcome given as a parameter. */
module Startup {
  import opened Base
  import opened FileSystem
  import opened Retention

  /** The top-level settings `main` reads; a key that is absent is `None`. */
  datatype Config = Config(outputPath: Option<string>, diskUsageLimit: Option<real>, inputPaths: Option<seq<string>>)

  /** How `main` goes on: it raises, it stops after the disk-usage gate (`exit()`), or it proceeds to
      the backup with the output directory's entries after the tiers are created and the input paths. */
  datatype Verdict = Failed(error: Error) | Stopped(out: map<string, Node>) | Proceed(out: map<string, Node>, inputs: seq<string>)

  /** The limit used when the setting is absent. */
  const DefaultLimit: real := 1.0

  function Limit(config: Config): real
  {
    if config.diskUsageLimit.Some? then config.diskUsageLimit.value else DefaultLimit
  }

  /** `main(config_path)` up to the loop over the input paths. `config` is the loaded configuration,
      `None` when the file does not exist; `output` is what is found at `output_path`; `diskOk` is
      the verdict of `check_disk_size`. */
  function Start(config: Option<Config>, output: Option<Node>, diskOk: bool): Verdict
  {
    if config.None? then Failed(FileNotFoundError)
    else if config.value.outputPath.None? then Failed(ConfigurationError)
    else if output.None? then Failed(ConfigurationError)
    else if output.value.File? then Failed(NotADirectoryError)
    else match MakeTiers(output.value.entries)
      case Err(e) => Failed(e)
      case Ok(out) =>
        var limit := Limit(config.value);
        if !(0.0 <= limit <= 1.0) then Failed(ConfigurationError)
        else if !diskOk then Stopped(out)
        else if config.value.inputPaths.None? then Failed(KeyError)
        else Proceed(out, config.value.inputPaths.value)
  }

  /** `main` goes on to the backup exactly when every check passes, and then every tier is a
      directory of the output directory and nothing that was there before has changed. */
  lemma StartProceeds(config: Option<Config>, output: Option<Node>, diskOk: bool)
    ensures Start(config, output, diskOk).Proceed? <==>
      && config.Some? && config.value.outputPath.Some? && output.Some? && output.value.Dir?
      && MakeTiers(output.value.entries).Ok? && 0.0 <= Limit(config.value) <= 1.0
      && diskOk && config.value.inputPaths.Some?
    ensures var v := Start(config, output, diskOk);
      v.Proceed? ==>
        && v.inputs == config.value.inputPaths.value
        && (forall k :: k in TierNames ==> k in v.out && v.out[k].Dir?)
        && (forall k :: k in output.value.entries ==> k in v.out && v.out[k] == output.value.entries[k])
  {
    if output.Some? && output.value.Dir? && MakeTiers(output.value.entries).Ok? {
      MakeTiersResult(output.value.entries);
    }
  }

  /** Each check is reached only when the earlier ones pass, and then decides: a missing
      `output_path` is reported before anything is created, a regular file in place of a tier
      before the limit is read, an invalid limit before the disk is measured, and a missing
      `input_paths` only after the disk-usage gate. */
  lemma StartOrder(c: Config, output: Option<Node>, diskOk: bool)
    ensures c.outputPath.None? ==> Start(Some(c), output, diskOk) == Failed(ConfigurationError)
    ensures c.outputPath.Some? && output.None? ==> Start(Some(c), output, diskOk) == Failed(ConfigurationError)
    ensures c.outputPath.Some? && output.Some? && output.value.File? ==> Start(Some(c), output, diskOk) == Failed(NotADirectoryError)
    ensures c.outputPath.Some? && output.Some? && output.value.Dir? && MakeTiers(output.value.entries).Err? ==>
      Start(Some(c), output, diskOk) == Failed(FileExistsError)
    ensures c.outputPath.Some? && output.Some? && output.value.Dir? && MakeTiers(output.value.entries).Ok? ==>
      var out := MakeTiers(output.value.entries).value;
      && (!(0.0 <= Limit(c) <= 1.0) ==> Start(Some(c), output, diskOk) == Failed(ConfigurationError))
      && (0.0 <= Limit(c) <= 1.0 && !diskOk ==> Start(Some(c), output, diskOk) == Stopped(out))
      && (0.0 <= Limit(c) <= 1.0 && diskOk && c.inputPaths.None? ==> Start(Some(c), output, diskOk) == Failed(KeyError))
  {
    if output.Some? && output.value.Dir? {
      MakeTiersOk(output.value.entries);
    }
  }

  /** Without the setting the limit is 1.0, which passes the range check. */
  lemma DefaultLimitAccepted(c: Config)
    requires c.diskUsageLimit.None?
    ensures Limit(c) == 1.0 && 0.0 <= Limit(c) <= 1.0
  {
  }

  /** A limit above 1 is rejected even on an empty disk. */
  lemma LimitAboveOne(output: map<string, Node>, inputs: seq<string>)
    requires MakeTiers(output).Ok?
    ensures Start(Some(Config(Some("/backup"), Some(1.5), Some(inputs))), Some(Dir(output)), true) == Failed(ConfigurationError)
  {
  }
}
