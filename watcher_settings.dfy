/**
  The file watcher's settings (`read_settings_file`) and the start-up checks
  of its `main`. A fixed option table names, for each settings key, the
  section and option of the settings file to read, a default for when either
  is missing, and a conversion to apply to a value that is present.
 */
module WatcherSettings {
  import opened Wrappers
  import opened Bytes

  /** A value in the settings dictionary: `None`, a string, a `Path`, an `int`. */
  datatype Value = NoneValue | Text(text: string) | PathValue(path: string) | IntValue(number: int)

  /** The conversion an option asks for: `'path'`, `'integer'`, or none. */
  datatype OptionType = PathType | IntegerType | TextType

  datatype OptionSpec = OptionSpec(key: string, section: string, option: string, default: Value, kind: OptionType)

  /** A parsed settings file: the raw text of each (section, option) present. */
  type ConfigFile = map<(string, string), string>

  /** `int(text)` refused the text. */
  datatype SettingsError = ValueError(text: string)

  /** The option table of `read_settings_file`. */
  const ConfigOptions: seq<OptionSpec> := [
    OptionSpec("log_file", "watcher", "log_file", NoneValue, PathType),
    OptionSpec("output_dir", "general", "media_save_dir", NoneValue, PathType)
  ]

  /**
    The value of a run of decimal digit characters: the value of their
    ASCII bytes, as `Bytes.DigitsValue` reads a `Content-Length`.
   */
  function NumeralValue(s: string): nat
    requires AllDigits(s)
  {
    assert IsLatin1(s) by {
      forall i | 0 <= i < |s| ensures s[i] as int < 256 { assert IsDigit(s[i]); }
    }
    DigitsValue(Latin1(s))
  }

  /** The text after an optional leading sign. */
  function Unsigned(s: string): (d: string)
    ensures |d| <= |s|
  {
    if s != [] && (s[0] == '-' || s[0] == '+') then s[1..] else s
  }

  /** `int(text)` on an optionally signed run of decimal digits; anything else is refused. */
  function ParseInt(s: string): (r: Option<int>)
    ensures r.Some? <==> Unsigned(s) != [] && AllDigits(Unsigned(s))
    ensures r.Some? ==> (r.value < 0 <==> s[0] == '-' && NumeralValue(Unsigned(s)) != 0)
  {
    var digits := Unsigned(s);
    if digits == [] || !AllDigits(digits) then None
    else
      var magnitude: int := NumeralValue(digits);
      Some(if s[0] == '-' then -magnitude else magnitude)
  }

  /** `str(n)` for any integer: a minus sign before the digits of a negative number. */
  function IntText(n: int): string
  {
    if n < 0 then "-" + Decimal(-n) else Decimal(n)
  }

  /** The sign that may open an integer's text. */
  datatype Sign = NoSign | Plus | Minus

  function SignText(sign: Sign): string
  {
    match sign
    case NoSign => ""
    case Plus => "+"
    case Minus => "-"
  }

  /** A digit run, bare or after `+` or `-`, is read as its value, negated after `-`. */
  lemma ParseSigned(sign: Sign, d: string)
    requires d != [] && AllDigits(d)
    ensures ParseInt(SignText(sign) + d)
         == Some(if sign == Minus then 0 - NumeralValue(d) as int else NumeralValue(d) as int)
  {
    var s := SignText(sign) + d;
    assert IsDigit(d[0]);
    assert Unsigned(s) == d;
  }

  /** `int(str(n)) == n`: every integer a settings file spells the way Python prints it reads back. */
  lemma ParseIntRoundTrip(n: int)
    ensures ParseInt(IntText(n)) == Some(n)
  {
    var m: nat := if n < 0 then -n else n;
    var d := Decimal(m);
    DecimalRoundTrip(m);
    ParseSigned(if n < 0 then Minus else NoSign, d);
  }

  /** The value one table entry contributes: the converted text if present, else the default. */
  function Resolve(cfg: ConfigFile, spec: OptionSpec): (r: Result<Value, SettingsError>)
    ensures (spec.section, spec.option) !in cfg ==> r == Ok(spec.default)
    ensures r.Err? <==> (spec.section, spec.option) in cfg && spec.kind == IntegerType
                        && ParseInt(cfg[(spec.section, spec.option)]).None?
    ensures r.Err? ==> r.error == ValueError(cfg[(spec.section, spec.option)])
    ensures (spec.section, spec.option) in cfg && spec.kind == PathType
            ==> r == Ok(PathValue(cfg[(spec.section, spec.option)]))
    ensures (spec.section, spec.option) in cfg && spec.kind == IntegerType
            && ParseInt(cfg[(spec.section, spec.option)]).Some?
            ==> r == Ok(IntValue(ParseInt(cfg[(spec.section, spec.option)]).value))
    ensures (spec.section, spec.option) in cfg && spec.kind == TextType
            ==> r == Ok(Text(cfg[(spec.section, spec.option)]))
  {
    if (spec.section, spec.option) !in cfg then Ok(spec.default)
    else
      var raw := cfg[(spec.section, spec.option)];
      match spec.kind
      case PathType => Ok(PathValue(raw))
      case IntegerType => (match ParseInt(raw) case Some(n) => Ok(IntValue(n)) case None => Err(ValueError(raw)))
      case TextType => Ok(Text(raw))
  }

  /** The dictionary built by walking `table` in order; the first refused conversion aborts. */
  function SettingsFrom(cfg: ConfigFile, table: seq<OptionSpec>): Result<map<string, Value>, SettingsError>
  {
    if table == [] then Ok(map[])
    else
      var last := table[|table| - 1];
      match SettingsFrom(cfg, table[..|table| - 1])
      case Err(e) => Err(e)
      case Ok(m) =>
        match Resolve(cfg, last)
        case Err(e) => Err(e)
        case Ok(v) => Ok(m[last.key := v])
  }

  /** `read_settings_file`: nothing when the file does not exist. */
  function ReadSettings(file: Option<ConfigFile>, table: seq<OptionSpec>): (r: Result<map<string, Value>, SettingsError>)
    ensures file.None? ==> r == Ok(map[])
    ensures r.Err? ==> file.Some?
  {
    if file.None? then Ok(map[]) else SettingsFrom(file.value, table)
  }

  /**
    `read_settings_file(settings_file)`, with the file given as its parsed
    contents, or `None` when it does not exist, and the option table as a
    parameter (the source's own table is `ConfigOptions`).
   */
  method ReadSettingsFile(file: Option<ConfigFile>, table: seq<OptionSpec>)
    returns (r: Result<map<string, Value>, SettingsError>)
    ensures r == ReadSettings(file, table)
  {
    if file.None? {
      return Ok(map[]);
    }
    var cfg := file.value;
    var returnDict: map<string, Value> := map[];
    var i := 0;
    while i < |table|
      invariant 0 <= i <= |table|
      invariant SettingsFrom(cfg, table[..i]) == Ok(returnDict)
    {
      var spec := table[i];
      assert table[..i + 1][..i] == table[..i];
      ghost var before := returnDict;
      if (spec.section, spec.option) !in cfg {
        returnDict := returnDict[spec.key := spec.default];
      } else {
        var raw := cfg[(spec.section, spec.option)];
        returnDict := returnDict[spec.key := Text(raw)];
        if spec.kind == PathType {
          returnDict := returnDict[spec.key := PathValue(raw)];
        } else if spec.kind == IntegerType {
          var n := ParseInt(raw);
          if n.None? {
            assert SettingsFrom(cfg, table[..i + 1]) == Err(ValueError(raw));
            FailureIsFinal(cfg, table, i + 1);
            return Err(ValueError(raw));
          }
          returnDict := returnDict[spec.key := IntValue(n.value)];
        }
      }
      assert Resolve(cfg, spec).Ok? && returnDict == before[spec.key := Resolve(cfg, spec).value];
      i := i + 1;
    }
    assert table[..i] == table;
    r := Ok(returnDict);
  }

  /** Once a conversion is refused, the rest of the table is not looked at. */
  lemma {:induction false} FailureIsFinal(cfg: ConfigFile, table: seq<OptionSpec>, k: nat)
    requires k <= |table| && SettingsFrom(cfg, table[..k]).Err?
    ensures SettingsFrom(cfg, table) == SettingsFrom(cfg, table[..k])
    decreases |table| - k
  {
    if k == |table| {
      assert table[..k] == table;
    } else {
      assert table[..k + 1][..k] == table[..k];
      FailureIsFinal(cfg, table, k + 1);
    }
  }

  predicate DistinctKeys(table: seq<OptionSpec>)
  {
    forall i, j :: 0 <= i < j < |table| ==> table[i].key != table[j].key
  }

  function Keys(table: seq<OptionSpec>): set<string>
  {
    set i | 0 <= i < |table| :: table[i].key
  }

  /** The walk fails exactly when some entry's conversion is refused. */
  lemma {:induction false} SettingsFromFails(cfg: ConfigFile, table: seq<OptionSpec>)
    ensures SettingsFrom(cfg, table).Err? <==> exists i :: 0 <= i < |table| && Resolve(cfg, table[i]).Err?
  {
    if table != [] {
      var init := table[..|table| - 1];
      SettingsFromFails(cfg, init);
      FailsSnoc(cfg, table);
      if exists i :: 0 <= i < |init| && Resolve(cfg, init[i]).Err? {
        var i :| 0 <= i < |init| && Resolve(cfg, init[i]).Err?;
        assert table[i] == init[i];
      }
      if exists i :: 0 <= i < |table| && Resolve(cfg, table[i]).Err? {
        var i :| 0 <= i < |table| && Resolve(cfg, table[i]).Err?;
        if i < |init| { assert table[i] == init[i]; }
      }
    }
  }

  /** The walk over one more entry fails exactly when the shorter walk or that entry fails. */
  lemma FailsSnoc(cfg: ConfigFile, table: seq<OptionSpec>)
    requires table != []
    ensures SettingsFrom(cfg, table).Err?
        <==> SettingsFrom(cfg, table[..|table| - 1]).Err? || Resolve(cfg, table[|table| - 1]).Err?
  {
  }

  /**
    When the walk succeeds, the dictionary has one key per table entry,
    holding that entry's resolved value.
   */
  lemma {:induction false} SettingsFromContents(cfg: ConfigFile, table: seq<OptionSpec>)
    requires DistinctKeys(table)
    requires SettingsFrom(cfg, table).Ok?
    ensures SettingsFrom(cfg, table).value.Keys == Keys(table)
    ensures forall i :: 0 <= i < |table| ==> Resolve(cfg, table[i]) == Ok(SettingsFrom(cfg, table).value[table[i].key])
  {
    if table != [] {
      var init := table[..|table| - 1];
      var last := table[|table| - 1];
      OkSnoc(cfg, table);
      var m := SettingsFrom(cfg, init).value;
      var m' := SettingsFrom(cfg, table).value;
      SettingsFromContents(cfg, init);
      KeysSnoc(table);
      forall i | 0 <= i < |table| ensures Resolve(cfg, table[i]) == Ok(m'[table[i].key]) {
        if i < |init| {
          assert init[i] == table[i];
          assert m'[table[i].key] == m[init[i].key];
        }
      }
    }
  }

  /** A successful walk over one more entry extends the shorter walk's dictionary by that entry. */
  lemma OkSnoc(cfg: ConfigFile, table: seq<OptionSpec>)
    requires table != [] && SettingsFrom(cfg, table).Ok?
    ensures var init, last := table[..|table| - 1], table[|table| - 1];
      && SettingsFrom(cfg, init).Ok? && Resolve(cfg, last).Ok?
      && SettingsFrom(cfg, table).value == SettingsFrom(cfg, init).value[last.key := Resolve(cfg, last).value]
  {
  }

  lemma KeysSnoc(table: seq<OptionSpec>)
    requires table != []
    ensures Keys(table) == Keys(table[..|table| - 1]) + {table[|table| - 1].key}
  {
    var init := table[..|table| - 1];
    forall k | k in Keys(table) ensures k in Keys(init) + {table[|table| - 1].key} {
      var i :| 0 <= i < |table| && table[i].key == k;
      if i < |init| { assert init[i].key == k; }
    }
    forall k | k in Keys(init) ensures k in Keys(table) {
      var i :| 0 <= i < |init| && init[i].key == k;
      assert table[i].key == k;
    }
  }

  /** The option table's two entries, resolved. */
  lemma FixedTable(cfg: ConfigFile)
    ensures SettingsFrom(cfg, ConfigOptions)
         == Ok(map["log_file" := Resolve(cfg, ConfigOptions[0]).value,
                   "output_dir" := Resolve(cfg, ConfigOptions[1]).value])
  {
    var t := ConfigOptions;
    assert t[..1][..0] == [];
    assert t[..1][|t[..1]| - 1] == t[0];
    assert t[..|t| - 1] == t[..1];
    assert SettingsFrom(cfg, t[..1]) == Ok(map["log_file" := Resolve(cfg, t[0]).value]);
  }

  /**
    On an existing file the result has exactly the keys `log_file` and
    `output_dir`; a present option becomes a `Path`, a missing section or
    option gives the default `None` unconverted.
   */
  lemma ExistingFileSettings(cfg: ConfigFile)
    ensures var r := ReadSettings(Some(cfg), ConfigOptions);
      && r.Ok?
      && r.value.Keys == {"log_file", "output_dir"}
      && r.value["log_file"] == (if ("watcher", "log_file") in cfg then PathValue(cfg[("watcher", "log_file")]) else NoneValue)
      && r.value["output_dir"]
         == (if ("general", "media_save_dir") in cfg then PathValue(cfg[("general", "media_save_dir")]) else NoneValue)
  {
    FixedTable(cfg);
  }

  // ---------------------------------------------------------------------
  // The start-up checks of `main`

  /** Python truth: `None`, the empty string and zero are false; a `Path` is always true. */
  predicate Truthy(v: Value)
  {
    match v
    case NoneValue => false
    case Text(s) => s != ""
    case PathValue(_) => true
    case IntValue(n) => n != 0
  }

  datatype StartupError = KeyError(key: string) | NoInputDir

  /** What `main` goes on with: the log file, if one is configured, and the directory to sweep. */
  datatype Watcher = Watcher(logFile: Option<Value>, outputDir: Value)

  /**
    `main` after reading the settings: `settings['log_file']` is looked up
    first (a missing key raises), then an output directory that is not true
    raises `No input dir given`.
   */
  function Startup(settings: map<string, Value>): (r: Result<Watcher, StartupError>)
    ensures "log_file" !in settings ==> r == Err(KeyError("log_file"))
    ensures "log_file" in settings && "output_dir" !in settings ==> r == Err(KeyError("output_dir"))
    ensures r == Err(NoInputDir)
        <==> "log_file" in settings && "output_dir" in settings && !Truthy(settings["output_dir"])
    ensures r.Ok? <==> "log_file" in settings && "output_dir" in settings && Truthy(settings["output_dir"])
    ensures r.Ok? ==> r.value.outputDir == settings["output_dir"]
    ensures r.Ok? ==> r.value.logFile == (if Truthy(settings["log_file"]) then Some(settings["log_file"]) else None)
  {
    if "log_file" !in settings then Err(KeyError("log_file"))
    else
      var logFile := if Truthy(settings["log_file"]) then Some(settings["log_file"]) else None;
      if "output_dir" !in settings then Err(KeyError("output_dir"))
      else if !Truthy(settings["output_dir"]) then Err(NoInputDir)
      else Ok(Watcher(logFile, settings["output_dir"]))
  }

  /** Without a settings file `main` fails on the `log_file` lookup, before the output-directory check. */
  lemma MissingFileFailsOnLogFile()
    ensures Startup(ReadSettings(None, ConfigOptions).value) == Err(KeyError("log_file"))
  {
  }

  /**
    With a settings file, `main` fails exactly when `media_save_dir` is
    missing; otherwise it sweeps that directory (even an empty path, which
    `Path` reads as the current directory) and logs to `log_file` if given.
   */
  lemma StartupWithFile(cfg: ConfigFile)
    ensures ReadSettings(Some(cfg), ConfigOptions).Ok?
    ensures var s := Startup(ReadSettings(Some(cfg), ConfigOptions).value);
      && (s == Err(NoInputDir) <==> ("general", "media_save_dir") !in cfg)
      && (s.Ok? <==> ("general", "media_save_dir") in cfg)
      && (s.Ok? ==> s.value.outputDir == PathValue(cfg[("general", "media_save_dir")]))
      && (s.Ok? ==> (s.value.logFile.Some? <==> ("watcher", "log_file") in cfg))
  {
    ExistingFileSettings(cfg);
  }
}
