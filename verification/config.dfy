/** Lookups in the loaded configuration (lib/souvlaki_rs/config.rb). The file
    itself is not read: the configuration is a map from entry names to
    values. */
module Config {
  import opened Wrappers
  import opened Program

  /** A top-level configuration value: nil, a host's settings, or the table
      of programs keyed by code. */
  datatype Value =
    | NilValue
    | HostTable(settings: map<string, string>)
    | ProgramTable(programs: map<string, ProgramConfig>)

  type Configuration = map<string, Value>

  /** The key under which the programs are stored. */
  const ProgramsKey: string := "programs"

  /** `get_entry`: the value of a present key, an error for an absent one. */
  function GetEntry(cfg: Configuration, entry: string): (r: Result<Value>)
    ensures r.Success? <==> entry in cfg
    ensures r.Success? ==> r.value == cfg[entry]
    ensures r.Failure? ==> r.error == "Unknown config entry " + entry
  {
    if entry in cfg then Success(cfg[entry]) else Failure("Unknown config entry " + entry)
  }

  /** `get_host_info`: an entry that is present and not nil. */
  function GetHostInfo(cfg: Configuration, host: string): (r: Result<Value>)
    ensures r.Success? <==> host in cfg && cfg[host] != NilValue
    ensures r.Success? ==> r.value == cfg[host]
    ensures host in cfg && cfg[host] == NilValue ==> r == Failure("No configuration exists for " + host)
  {
    match GetEntry(cfg, host)
    case Failure(e) => Failure(e)
    case Success(v) => if v == NilValue then Failure("No configuration exists for " + host) else Success(v)
  }

  /** What `get_program_info` returns: the whole programs entry, nil, or one
      program. */
  datatype ProgramInfo = Entry(value: Value) | NoProgram | One(config: ProgramConfig)

  /** `get_program_info`: without a code the programs entry itself; with a
      code, nil when the code is unknown, else that program with `:code` set.
      A nil entry makes the key test raise; a host's settings answer the key
      test, so an unknown code gives nil, but setting `:code` on a known
      code's string value raises. */
  function GetProgramInfo(cfg: Configuration, code: Option<string>): (r: Result<ProgramInfo>)
    ensures ProgramsKey !in cfg ==> r.Failure?
    ensures ProgramsKey in cfg && code.None? ==> r == Success(Entry(cfg[ProgramsKey]))
    ensures ProgramsKey in cfg && code.Some? ==>
      (r.Success? <==> cfg[ProgramsKey].ProgramTable? ||
                       (cfg[ProgramsKey].HostTable? && code.value !in cfg[ProgramsKey].settings))
    ensures ProgramsKey in cfg && code.Some? && cfg[ProgramsKey].HostTable? ==>
      (r == Success(NoProgram) <==> code.value !in cfg[ProgramsKey].settings)
    ensures ProgramsKey in cfg && code.Some? && cfg[ProgramsKey].NilValue? ==> r.Failure?
    ensures r.Success? && code.Some? && cfg[ProgramsKey].ProgramTable? ==>
      var t := cfg[ProgramsKey].programs;
      && (r.value == NoProgram <==> code.value !in t)
      && (code.value in t ==> r.value.One? && r.value.config.code == code)
      && (code.value in t ==> r.value.config.(code := t[code.value].code) == t[code.value])
  {
    match GetEntry(cfg, ProgramsKey)
    case Failure(e) => Failure(e)
    case Success(progs) =>
      if code.None? then Success(Entry(progs))
      else
        match progs
        case NilValue => Failure("undefined method `key?' for nil")
        case HostTable(settings) =>
          if code.value !in settings then Success(NoProgram)
          else Failure("no implicit conversion of Symbol into Integer")
        case ProgramTable(programs) =>
          if code.value !in programs then Success(NoProgram)
          else Success(One(programs[code.value].(code := code)))
  }

  /** Setting `:code` does not change whether a program entry is valid. */
  lemma ProgramInfoKeepsValidity(cfg: Configuration, code: string, genres: set<string>)
    requires ProgramsKey in cfg && cfg[ProgramsKey].ProgramTable?
    requires code in cfg[ProgramsKey].programs
    ensures GetProgramInfo(cfg, Some(code)).Success?
    ensures var p := GetProgramInfo(cfg, Some(code)).value.config;
      Valid(p, genres) <==> Valid(cfg[ProgramsKey].programs[code], genres)
  {
  }

  /** Asking twice for the same known program gives the same entry: the code
      that is set is the one already there. */
  lemma ProgramInfoIdempotent(cfg: Configuration, code: string)
    requires ProgramsKey in cfg && cfg[ProgramsKey].ProgramTable?
    requires code in cfg[ProgramsKey].programs
    ensures var t := cfg[ProgramsKey].programs;
      var once := GetProgramInfo(cfg, Some(code)).value.config;
      GetProgramInfo(cfg[ProgramsKey := ProgramTable(t[code := once])], Some(code)) == Success(One(once))
  {
  }
}
